/** The action-sequence filters the explorer consults before queueing a new sequence:
    a limit on how often one action may repeat, and the removal of sequences that only
    reorder order-insensitive actions of a sequence already queued. */
module SequenceFilters {
  import opened Wrappers
  import opened Identifiers
  import opened Actions

  /** The number of positions of `s` holding `a`. */
  function Occurrences(s: seq<Action>, a: Action): (n: nat)
    ensures n <= |s|
  {
    if s == [] then 0
    else Occurrences(s[..|s| - 1], a) + (if s[|s| - 1] == a then 1 else 0)
  }

  /** The count agrees with the multiplicity in the multiset of the sequence. */
  lemma {:induction false} OccurrencesIsMultiplicity(s: seq<Action>, a: Action)
    ensures Occurrences(s, a) == multiset(s)[a]
  {
    if s != [] {
      OccurrencesIsMultiplicity(s[..|s| - 1], a);
      assert s == s[..|s| - 1] + [s[|s| - 1]];
    }
  }

  /** No action occurs more than `maxActionRepeat` times. */
  predicate WithinRepeatLimit(s: seq<Action>, maxActionRepeat: int) {
    forall i :: 0 <= i < |s| ==> Occurrences(s, s[i]) <= maxActionRepeat
  }

  /** MaxRepeatedActionSequenceFilter.shouldExplore: counts every action in a map, then
      scans the counts. The queued sequences play no part. */
  method MaxRepeatedShouldExplore(maxActionRepeat: int, actionSequence: ActionSequence,
                                  existingActionSequences: seq<ActionSequence>) returns (r: bool)
    ensures r <==> WithinRepeatLimit(actionSequence.actions, maxActionRepeat)
  {
    var actions := actionSequence.actions;
    var repeats: map<Action, int> := map[];
    for i := 0 to |actions|
      invariant forall a :: a in repeats <==> a in actions[..i]
      invariant forall a :: a in repeats ==> repeats[a] == Occurrences(actions[..i], a)
    {
      var action := actions[i];
      assert actions[..i + 1][..i] == actions[..i];
      assert actions[..i + 1] == actions[..i] + [action];
      if action !in repeats {
        assert Occurrences(actions[..i], action) == 0 by {
          OccurrencesIsMultiplicity(actions[..i], action);
        }
        repeats := repeats[action := 1];
      } else {
        repeats := repeats[action := repeats[action] + 1];
      }
    }
    assert actions[..|actions|] == actions;
    var pending := repeats.Keys;
    while pending != {}
      invariant pending <= repeats.Keys
      invariant forall a :: a in repeats && a !in pending ==> repeats[a] <= maxActionRepeat
      decreases |pending|
    {
      var action :| action in pending;
      if repeats[action] > maxActionRepeat {
        assert !WithinRepeatLimit(actions, maxActionRepeat) by {
          var i :| 0 <= i < |actions| && actions[i] == action;
        }
        return false;
      }
      pending := pending - {action};
    }
    return true;
  }

  /** Raising the limit never turns an accepted sequence into a rejected one. */
  lemma RepeatLimitMonotone(s: seq<Action>, low: int, high: int)
    requires low <= high && WithinRepeatLimit(s, low)
    ensures WithinRepeatLimit(s, high)
  {
  }

  /** An action of a normalised sequence: order-insensitive actions all become the same
      placeholder, which equals every other placeholder and no real action. */
  datatype Normalized = Placeholder | Kept(action: Action)

  /** The sequence with its order-insensitive actions replaced by the placeholder. */
  function Normalize(s: seq<Action>, insensitive: set<Action>): seq<Normalized> {
    if s == [] then []
    else Normalize(s[..|s| - 1], insensitive)
         + [if s[|s| - 1] in insensitive then Placeholder else Kept(s[|s| - 1])]
  }

  /** Normalising keeps the length and every action that is not order-insensitive at
      its position. */
  lemma {:induction false} NormalizeAt(s: seq<Action>, insensitive: set<Action>)
    ensures |Normalize(s, insensitive)| == |s|
    ensures forall i :: 0 <= i < |s| ==>
              Normalize(s, insensitive)[i] == if s[i] in insensitive then Placeholder else Kept(s[i])
  {
    if s != [] {
      NormalizeAt(s[..|s| - 1], insensitive);
    }
  }

  /** `normalizeOrderInsensitiveActions`: copies the list and overwrites each
      order-insensitive action in place. */
  method NormalizeOrderInsensitiveActions(actionSequence: ActionSequence, insensitive: set<Action>)
    returns (actions: seq<Normalized>)
    ensures actions == Normalize(actionSequence.actions, insensitive)
  {
    var s := actionSequence.actions;
    actions := seq(|s|, i requires 0 <= i < |s| => Kept(s[i]));
    for index := 0 to |actions|
      invariant |actions| == |s|
      invariant forall j :: 0 <= j < index ==> actions[j] == if s[j] in insensitive then Placeholder else Kept(s[j])
      invariant forall j :: index <= j < |s| ==> actions[j] == Kept(s[j])
    {
      if s[index] in insensitive {
        actions := actions[index := Placeholder];
      }
    }
    NormalizeAt(s, insensitive);
  }

  /** The set of actions a sequence holds. */
  function ActionSet(s: seq<Action>): set<Action> {
    set i | 0 <= i < |s| :: s[i]
  }

  /** `hasRedundantOrdering`: the same actions, and the same list once the
      order-insensitive ones are blanked out. */
  predicate Redundant(s1: seq<Action>, s2: seq<Action>, insensitive: set<Action>) {
    ActionSet(s1) == ActionSet(s2) && Normalize(s1, insensitive) == Normalize(s2, insensitive)
  }

  method HasRedundantOrdering(actionSequence1: ActionSequence, actionSequence2: ActionSequence,
                              insensitive: set<Action>) returns (r: bool)
    ensures r <==> Redundant(actionSequence1.actions, actionSequence2.actions, insensitive)
  {
    var actions1Set := ActionSet(actionSequence1.actions);
    var actions2Set := ActionSet(actionSequence2.actions);
    if actions1Set != actions2Set {
      return false;
    }
    var actions1List := NormalizeOrderInsensitiveActions(actionSequence1, insensitive);
    var actions2List := NormalizeOrderInsensitiveActions(actionSequence2, insensitive);
    return actions1List == actions2List;
  }

  /** OrderInsensitiveActionSequenceFilter.shouldExplore: rejects the sequence as soon
      as one queued sequence makes it redundant. */
  method OrderInsensitiveShouldExplore(insensitive: set<Action>, actionSequence: ActionSequence,
                                       existingActionSequences: seq<ActionSequence>) returns (r: bool)
    ensures r <==> forall i :: 0 <= i < |existingActionSequences| ==>
                     !Redundant(actionSequence.actions, existingActionSequences[i].actions, insensitive)
  {
    for i := 0 to |existingActionSequences|
      invariant forall j :: 0 <= j < i ==>
                  !Redundant(actionSequence.actions, existingActionSequences[j].actions, insensitive)
    {
      var redundant := HasRedundantOrdering(actionSequence, existingActionSequences[i], insensitive);
      if redundant {
        return false;
      }
    }
    return true;
  }

  /** Redundancy is an equivalence: reflexive, symmetric and transitive. */
  lemma RedundantIsEquivalence(s1: seq<Action>, s2: seq<Action>, s3: seq<Action>, insensitive: set<Action>)
    ensures Redundant(s1, s1, insensitive)
    ensures Redundant(s1, s2, insensitive) ==> Redundant(s2, s1, insensitive)
    ensures Redundant(s1, s2, insensitive) && Redundant(s2, s3, insensitive) ==> Redundant(s1, s3, insensitive)
  {
  }

  /** Exchanging two order-insensitive actions gives a redundant sequence. */
  lemma SwapInsensitiveIsRedundant(s: seq<Action>, i: nat, j: nat, insensitive: set<Action>)
    requires i < |s| && j < |s| && s[i] in insensitive && s[j] in insensitive
    ensures Redundant(s, s[i := s[j]][j := s[i]], insensitive)
  {
    var t := s[i := s[j]][j := s[i]];
    NormalizeAt(s, insensitive);
    NormalizeAt(t, insensitive);
    assert ActionSet(s) == ActionSet(t) by {
      forall a | a in ActionSet(s) ensures a in ActionSet(t) {
        var k :| 0 <= k < |s| && s[k] == a;
        if k == i { assert t[j] == a; } else if k == j { assert t[i] == a; } else { assert t[k] == a; }
      }
      forall a | a in ActionSet(t) ensures a in ActionSet(s) {
        var k :| 0 <= k < |t| && t[k] == a;
        if k == i { assert s[j] == a; } else if k == j { assert s[i] == a; } else { assert s[k] == a; }
      }
    }
  }

  /** Redundant sequences have the same length and agree on every position that holds
      an action which is not order-insensitive. */
  lemma RedundantKeepsOtherPositions(s1: seq<Action>, s2: seq<Action>, insensitive: set<Action>, k: nat)
    requires Redundant(s1, s2, insensitive) && k < |s1|
    ensures |s1| == |s2|
    ensures s1[k] !in insensitive ==> s2[k] == s1[k]
  {
    NormalizeAt(s1, insensitive);
    NormalizeAt(s2, insensitive);
    assert Normalize(s1, insensitive)[k] == Normalize(s2, insensitive)[k];
  }

  /** The three cases of the filter's unit test: one queued sequence
      [Back, bar, foo, Forward] with foo and bar order-insensitive. */
  lemma OrderInsensitiveExamples()
    ensures var foo := Action(SetText(NameIdentifier("foo", None), "blah"), false);
            var bar := Action(SetText(NameIdentifier("bar", None), "baz"), false);
            var back, fwd, ins := Action(Back, false), Action(Forward, false), {foo, bar};
            var existing := [back, bar, foo, fwd];
            !Redundant([back, foo, foo, fwd], existing, ins)
            && !Redundant([back, foo, fwd, bar], existing, ins)
            && Redundant([back, foo, bar, fwd], existing, ins)
  {
    var foo := Action(SetText(NameIdentifier("foo", None), "blah"), false);
    var bar := Action(SetText(NameIdentifier("bar", None), "baz"), false);
    var back, fwd, ins := Action(Back, false), Action(Forward, false), {foo, bar};
    var existing := [back, bar, foo, fwd];
    assert bar in ActionSet(existing) by { assert existing[1] == bar; }
    assert bar !in ActionSet([back, foo, foo, fwd]);
    NormalizeAt([back, foo, fwd, bar], ins);
    NormalizeAt(existing, ins);
    SwapInsensitiveIsRedundant(existing, 1, 2, ins);
    assert existing[1 := foo][2 := bar] == [back, foo, bar, fwd];
  }
}

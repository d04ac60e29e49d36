/** Actions the explorer takes on a page and the ActionSequence that collects them. */
module Actions {
  import opened Wrappers
  import opened Identifiers

  /** What an action does; the element actions carry the identifier of their target. */
  datatype ActionKind =
    | Click(target: Identifier)
    | SetText(target: Identifier, keys: string)
    | Select(target: Identifier, optionIndex: int)
    | Hover(target: Identifier)
    | Back
    | Forward
    | Refresh
    | Wait(millis: nat)

  /** An action and its flag saying whether it belongs to the test-case set-up. Two
      actions are equal when both parts are. */
  datatype Action = Action(kind: ActionKind, initial: bool)

  /** The number of actions not marked initial. */
  function CountNonInitial(actions: seq<Action>): (n: nat)
    ensures n <= |actions|
  {
    if actions == [] then 0
    else CountNonInitial(actions[..|actions| - 1]) + (if actions[|actions| - 1].initial then 0 else 1)
  }

  lemma {:induction false} CountNonInitialAppend(a: seq<Action>, b: seq<Action>)
    ensures CountNonInitial(a + b) == CountNonInitial(a) + CountNonInitial(b)
    decreases |b|
  {
    if b == [] {
      assert a + b == a;
    } else {
      assert (a + b)[..|a + b| - 1] == a + b[..|b| - 1];
      CountNonInitialAppend(a, b[..|b| - 1]);
    }
  }

  /** A sequence whose actions are all initial has length zero; one with no initial
      action has its full size as length. */
  lemma {:induction false} CountNonInitialExtremes(actions: seq<Action>)
    ensures (forall i :: 0 <= i < |actions| ==> actions[i].initial) ==> CountNonInitial(actions) == 0
    ensures (forall i :: 0 <= i < |actions| ==> !actions[i].initial) ==> CountNonInitial(actions) == |actions|
  {
    if actions != [] {
      CountNonInitialExtremes(actions[..|actions| - 1]);
    }
  }

  /** The text of a sequence: each action's text followed by a comma. */
  function Describe(actions: seq<Action>, show: Action -> string): string {
    if actions == [] then ""
    else Describe(actions[..|actions| - 1], show) + show(actions[|actions| - 1]) + ","
  }

  /** When no action's text holds a comma, the text holds one comma per action. */
  lemma {:induction false} DescribeCommas(actions: seq<Action>, show: Action -> string)
    requires forall i :: 0 <= i < |actions| ==> ',' !in show(actions[i])
    ensures multiset(Describe(actions, show))[','] == |actions|
  {
    if actions != [] {
      var last := actions[|actions| - 1];
      DescribeCommas(actions[..|actions| - 1], show);
      assert multiset(show(last))[','] == 0;
      assert Describe(actions, show) == Describe(actions[..|actions| - 1], show) + show(last) + ",";
    }
  }

  datatype SequenceError = IndexOutOfBounds(index: int, size: nat)

  /** An ordered list of actions that the explorer extends and replays. */
  class ActionSequence {
    var actions: seq<Action>

    /** `getLength`, as a value for specifications. */
    function Length(): nat
      reads this
    {
      CountNonInitial(actions)
    }

    constructor Single(action: Action)
      ensures actions == [action]
    {
      actions := [action];
    }

    /** The copy constructor takes over the other sequence's actions. */
    constructor Copy(other: ActionSequence)
      ensures actions == other.actions
    {
      actions := other.actions;
    }

    constructor Empty()
      ensures actions == []
    {
      actions := [];
    }

    method AddAction(action: Action)
      modifies this
      ensures actions == old(actions) + [action]
    {
      actions := actions + [action];
    }

    method GetLength() returns (length: int)
      ensures length == CountNonInitial(actions)
      ensures 0 <= length <= |actions|
    {
      length := 0;
      for i := 0 to |actions|
        invariant length == CountNonInitial(actions[..i])
      {
        assert actions[..i + 1][..i] == actions[..i];
        if !actions[i].initial {
          length := length + 1;
        }
      }
      assert actions[..|actions|] == actions;
    }

    method ToString(show: Action -> string) returns (result: string)
      ensures result == Describe(actions, show)
    {
      result := "";
      for i := 0 to |actions|
        invariant result == Describe(actions[..i], show)
      {
        assert actions[..i + 1][..i] == actions[..i];
        result := result + show(actions[i]);
        result := result + ",";
      }
      assert actions[..|actions|] == actions;
    }

    /** Marks every action as part of the set-up, after which the length is zero. */
    method SetInitial()
      modifies this
      ensures |actions| == |old(actions)|
      ensures forall i :: 0 <= i < |actions| ==> actions[i] == old(actions[i]).(initial := true)
      ensures Length() == 0
    {
      var i := 0;
      while i < |actions|
        invariant 0 <= i <= |actions| == |old(actions)|
        invariant forall j :: 0 <= j < i ==> actions[j] == old(actions[j]).(initial := true)
        invariant forall j :: i <= j < |actions| ==> actions[j] == old(actions[j])
      {
        actions := actions[i := actions[i].(initial := true)];
        i := i + 1;
      }
      CountNonInitialExtremes(actions);
    }

    /** The last action; an empty list throws. */
    method GetLastAction() returns (r: Result<Action, SequenceError>)
      ensures actions == [] <==> r.Failure?
      ensures r.Success? ==> r.value == actions[|actions| - 1]
    {
      if |actions| == 0 {
        return Failure(IndexOutOfBounds(-1, 0));
      }
      return Success(actions[|actions| - 1]);
    }
  }
}

/** SelectedElementsState: a state made of the identifiers of the elements a selector
    picked. */
module SelectedElements {
  import opened Wrappers
  import opened Identifiers
  import opened StateDifferences

  /** The identifiers of a list of elements. */
  function IdentifierSet(elements: seq<ElementWithIdentifier>): set<Identifier> {
    set i | 0 <= i < |elements| :: elements[i].identifier
  }

  /** The constructor: the identifiers are gathered into a set, so repeats collapse. */
  method NewSelectedElementsState(elements: seq<ElementWithIdentifier>) returns (s: State)
    ensures s.SelectedElementsState?
    ensures forall id :: id in s.identifiers <==> exists i :: 0 <= i < |elements| && elements[i].identifier == id
    ensures |s.identifiers| <= |elements|
  {
    var identifiers: set<Identifier> := {};
    for i := 0 to |elements|
      invariant identifiers == IdentifierSet(elements[..i])
      invariant |identifiers| <= i
    {
      assert IdentifierSet(elements[..i + 1]) == IdentifierSet(elements[..i]) + {elements[i].identifier} by {
        assert forall j :: 0 <= j < i ==> elements[..i + 1][j] == elements[..i][j];
      }
      identifiers := identifiers + {elements[i].identifier};
    }
    assert elements[..|elements|] == elements;
    s := SelectedElementsState(identifiers);
  }

  /** `diff`: first a missing-element difference (id, null on the other side) for each
      identifier only this state has, then one for each identifier only the other has;
      each loop visits its set in an order of its own choosing. A state of another class
      throws. */
  method Diff(identifiers: set<Identifier>, otherState: State) returns (r: Result<seq<StateDifference>, StateError>)
    ensures !otherState.SelectedElementsState? <==> r == Failure(InvalidStateClass)
    ensures otherState.SelectedElementsState? ==>
              var other := otherState.identifiers;
              var n := |identifiers - other|;
              r.Success? && |r.value| == n + |other - identifiers|
              && (forall i :: 0 <= i < n ==>
                    r.value[i].MissingWebElement? && r.value[i].identifier in identifiers - other
                    && r.value[i].first == Some(r.value[i].identifier) && r.value[i].second.None?)
              && (forall i :: n <= i < |r.value| ==>
                    r.value[i].MissingWebElement? && r.value[i].identifier in other - identifiers
                    && r.value[i].first.None? && r.value[i].second == Some(r.value[i].identifier))
              && (forall id :: id in identifiers - other ==> MissingWebElement(id, Some(id), None) in r.value)
              && (forall id :: id in other - identifiers ==> MissingWebElement(id, None, Some(id)) in r.value)
  {
    if !otherState.SelectedElementsState? {
      return Failure(InvalidStateClass);
    }
    var other := otherState.identifiers;
    var stateDiff := OneSide(identifiers, other, true);
    var n := |stateDiff|;
    var rest := OneSide(other, identifiers, false);
    stateDiff := stateDiff + rest;
    assert forall i :: n <= i < |stateDiff| ==> stateDiff[i] == rest[i - n];
    return Success(stateDiff);
  }

  /** One loop of `diff`: a difference for each identifier of `these` that `those` lacks,
      with the identifier on this side when `thisSide` holds and on the other otherwise. */
  method OneSide(these: set<Identifier>, those: set<Identifier>, thisSide: bool) returns (diffs: seq<StateDifference>)
    ensures |diffs| == |these - those|
    ensures forall i :: 0 <= i < |diffs| ==>
              diffs[i].MissingWebElement? && diffs[i].identifier in these - those
              && diffs[i] == Missing(diffs[i].identifier, thisSide)
    ensures forall id :: id in these - those ==> Missing(id, thisSide) in diffs
  {
    diffs := [];
    var pending := these;
    ghost var done: set<Identifier> := {};
    ghost var ids: seq<Identifier> := [];
    while pending != {}
      invariant pending + done == these && pending !! done
      invariant Visited(done, those, ids, diffs, thisSide)
      decreases |pending|
    {
      var identifier :| identifier in pending;
      ghost var ids0, diffs0 := ids, diffs;
      if identifier !in those {
        diffs := diffs + [Missing(identifier, thisSide)];
        ids := ids + [identifier];
      }
      VisitOne(done, those, ids0, diffs0, identifier, thisSide);
      pending := pending - {identifier};
      done := done + {identifier};
    }
    EveryIdListed(ids, diffs, these - those, thisSide);
  }

  /** After visiting `done`: one difference per visited identifier that `those` lacks,
      listed in `ids`, and every such identifier listed. */
  ghost predicate Visited(done: set<Identifier>, those: set<Identifier>, ids: seq<Identifier>,
                          diffs: seq<StateDifference>, thisSide: bool) {
    && |diffs| == |ids| == |done - those|
    && (forall i :: 0 <= i < |ids| ==> diffs[i] == Missing(ids[i], thisSide) && ids[i] in done - those)
    && (forall id :: id in done - those ==> id in ids)
  }

  /** Visiting one more identifier keeps the bookkeeping: it is listed exactly when
      `those` lacks it. */
  lemma VisitOne(done: set<Identifier>, those: set<Identifier>, ids: seq<Identifier>,
                 diffs: seq<StateDifference>, x: Identifier, thisSide: bool)
    requires x !in done && Visited(done, those, ids, diffs, thisSide)
    ensures x !in those ==> Visited(done + {x}, those, ids + [x], diffs + [Missing(x, thisSide)], thisSide)
    ensures x in those ==> Visited(done + {x}, those, ids, diffs, thisSide)
  {
    OneMoreDone(done, those, x);
    if x !in those {
      var ids', diffs' := ids + [x], diffs + [Missing(x, thisSide)];
      forall i | 0 <= i < |ids'| ensures diffs'[i] == Missing(ids'[i], thisSide) && ids'[i] in (done + {x}) - those {
        if i < |ids| {
          assert ids'[i] == ids[i] && diffs'[i] == diffs[i];
        }
      }
    }
  }

  /** When the differences follow the identifiers one for one, every identifier of `s`
      that was visited has its difference. */
  lemma EveryIdListed(ids: seq<Identifier>, diffs: seq<StateDifference>, s: set<Identifier>, thisSide: bool)
    requires |diffs| == |ids|
    requires forall i :: 0 <= i < |ids| ==> diffs[i] == Missing(ids[i], thisSide)
    requires forall id :: id in s ==> id in ids
    ensures forall id :: id in s ==> Missing(id, thisSide) in diffs
  {
    forall id | id in s ensures Missing(id, thisSide) in diffs {
      var i :| 0 <= i < |ids| && ids[i] == id;
      assert diffs[i] == Missing(id, thisSide);
    }
  }

  /** Visiting one more identifier adds it to the missing ones exactly when the other
      set lacks it. */
  lemma OneMoreDone(done: set<Identifier>, those: set<Identifier>, x: Identifier)
    requires x !in done
    ensures x !in those ==> (done + {x}) - those == (done - those) + {x} && |(done + {x}) - those| == |done - those| + 1
    ensures x in those ==> (done + {x}) - those == done - those
  {
  }

  /** The difference reporting `id` missing on the other side (`thisSide`) or on this one. */
  function Missing(id: Identifier, thisSide: bool): (r: StateDifference)
    ensures r.MissingWebElement? && r.identifier == id
    ensures thisSide ==> r.first == Some(id) && r.second.None?
    ensures !thisSide ==> r.first.None? && r.second == Some(id)
  {
    if thisSide then MissingWebElement(id, Some(id), None) else MissingWebElement(id, None, Some(id))
  }

  /** `equals`: a state of another class is unequal; otherwise the diff must be empty,
      which happens exactly when both hold the same identifiers. */
  method Equals(identifiers: set<Identifier>, other: State) returns (r: bool)
    ensures r <==> other == SelectedElementsState(identifiers)
  {
    if !other.SelectedElementsState? {
      return false;
    }
    var d := Diff(identifiers, other);
    r := d.value == [];
    SymmetricDifferenceEmpty(identifiers, other.identifiers);
  }

  lemma SymmetricDifferenceEmpty(a: set<Identifier>, b: set<Identifier>)
    ensures |a - b| + |b - a| == 0 <==> a == b
  {
    if a != b {
      if exists x :: x in a && x !in b {
        var x :| x in a && x !in b;
        assert x in a - b;
      } else {
        var x :| x in b && x !in a;
        assert x in b - a;
      }
    }
  }
}

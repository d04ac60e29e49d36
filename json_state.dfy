/** JSONObjectState: a state holding the JSON object a state checker returned, compared
    member by member and, where both sides hold objects, recursively. */
module JsonState {
  import opened Wrappers
  import opened Assoc
  import opened Json
  import opened StateDifferences

  /** The differences found while walking the members of `first` from position `k` on:
      a member `second` lacks, a pair of nested objects (compared recursively), or a
      pair of unequal values. */
  function FirstPass(first: JsonValue, second: JsonValue, k: nat): seq<StateDifference>
    requires first.JObject? && second.JObject? && k <= |first.members|
    decreases first, |first.members| - k + 1
  {
    if k == |first.members| then []
    else MemberDiff(first, second, k) + FirstPass(first, second, k + 1)
  }

  /** What the walk reports for the member of `first` at position `k`. */
  function MemberDiff(first: JsonValue, second: JsonValue, k: nat): seq<StateDifference>
    requires first.JObject? && second.JObject? && k < |first.members|
    decreases first, 0
  {
    var name := first.members[k].0;
    var value := first.members[k].1;
    match Lookup(second.members, name)
    case None => [MissingProperty(name, Some(value), None)]
    case Some(otherValue) =>
      if value.JObject? && otherValue.JObject? then ObjectDiff(value, otherValue)
      else if value != otherValue then [PropertyValue(None, name, JsonData(value), JsonData(otherValue))]
      else []
  }

  /** The members of `second` from position `k` on that `first` lacks. */
  function SecondPass(first: seq<(string, JsonValue)>, second: seq<(string, JsonValue)>, k: nat): seq<StateDifference>
    requires k <= |second|
    decreases |second| - k
  {
    if k == |second| then []
    else
      var name := second[k].0;
      (if Lookup(first, name).None? then [MissingProperty(name, None, Some(second[k].1))] else [])
      + SecondPass(first, second, k + 1)
  }

  /** `appendJSONObjectDifferences` with an empty object treated as having no members:
      the differences of the walk over `first`, then the members only `second` has. */
  function ObjectDiff(first: JsonValue, second: JsonValue): seq<StateDifference>
    requires first.JObject? && second.JObject?
    decreases first, |first.members| + 2
  {
    FirstPass(first, second, 0) + SecondPass(first.members, second.members, 0)
  }

  /** The two objects agree: every member of `first` is in `second` with the same value
      (or, for two nested objects, the same contents), and every member of `second` is in
      `first`. */
  predicate SameObject(first: JsonValue, second: JsonValue)
    requires first.JObject? && second.JObject?
    decreases first, 1
  {
    (forall i :: 0 <= i < |first.members| ==> SameMember(first, second, i))
    && (forall j :: 0 <= j < |second.members| ==> Lookup(first.members, second.members[j].0).Some?)
  }

  predicate SameMember(first: JsonValue, second: JsonValue, i: nat)
    requires first.JObject? && second.JObject? && i < |first.members|
    decreases first, 0
  {
    match Lookup(second.members, first.members[i].0)
    case None => false
    case Some(w) =>
      var v := first.members[i].1;
      if v.JObject? && w.JObject? then SameObject(v, w) else v == w
  }

  /** The walk over `first` finds nothing exactly when every remaining member agrees. */
  lemma {:induction false} FirstPassEmpty(first: JsonValue, second: JsonValue, k: nat)
    requires first.JObject? && second.JObject? && k <= |first.members|
    ensures FirstPass(first, second, k) == [] <==>
              forall i :: k <= i < |first.members| ==> SameMember(first, second, i)
    decreases first, |first.members| - k + 1
  {
    if k < |first.members| {
      FirstPassEmpty(first, second, k + 1);
      MemberDiffEmpty(first, second, k);
    }
  }

  /** One member reports nothing exactly when it agrees. */
  lemma MemberDiffEmpty(first: JsonValue, second: JsonValue, k: nat)
    requires first.JObject? && second.JObject? && k < |first.members|
    ensures MemberDiff(first, second, k) == [] <==> SameMember(first, second, k)
    decreases first, 0
  {
    var v := first.members[k].1;
    match Lookup(second.members, first.members[k].0)
    case None =>
    case Some(w) =>
      if v.JObject? && w.JObject? {
        ObjectDiffEmpty(v, w);
      }
  }

  /** The second walk finds nothing exactly when `first` has every remaining name. */
  lemma {:induction false} SecondPassEmpty(first: seq<(string, JsonValue)>, second: seq<(string, JsonValue)>, k: nat)
    requires k <= |second|
    ensures SecondPass(first, second, k) == [] <==>
              forall j :: k <= j < |second| ==> Lookup(first, second[j].0).Some?
    decreases |second| - k
  {
    if k < |second| {
      SecondPassEmpty(first, second, k + 1);
      var name := second[k].0;
      var here: seq<StateDifference> := if Lookup(first, name).None? then [MissingProperty(name, None, Some(second[k].1))] else [];
      var rest := SecondPass(first, second, k + 1);
      assert SecondPass(first, second, k) == here + rest;
      if here == [] && rest == [] {
        forall j | k <= j < |second| ensures Lookup(first, second[j].0).Some? {
          if j > k {
            assert k + 1 <= j < |second|;
          }
        }
      } else if here != [] {
        assert |here + rest| > 0;
        assert Lookup(first, second[k].0).None?;
      } else {
        assert |here + rest| > 0;
        var j :| k + 1 <= j < |second| && Lookup(first, second[j].0).None?;
      }
    }
  }

  /** The diff is empty exactly when the two objects agree. */
  lemma {:induction false} ObjectDiffEmpty(first: JsonValue, second: JsonValue)
    requires first.JObject? && second.JObject?
    ensures ObjectDiff(first, second) == [] <==> SameObject(first, second)
    decreases first, |first.members| + 2
  {
    FirstPassEmpty(first, second, 0);
    SecondPassEmpty(first.members, second.members, 0);
    var a, b := FirstPass(first, second, 0), SecondPass(first.members, second.members, 0);
    assert a + b == [] <==> a == [] && b == [] by {
      assert |a + b| == |a| + |b|;
    }
    assert ObjectDiff(first, second) == a + b;
    assert a == [] <==> forall i :: 0 <= i < |first.members| ==> SameMember(first, second, i);
    assert b == [] <==> forall j :: 0 <= j < |second.members| ==> Lookup(first.members, second.members[j].0).Some?;
  }

  /** An object with unique names agrees with itself, so it has no differences with
      itself. */
  lemma {:induction false} SameObjectReflexive(v: JsonValue)
    requires v.JObject? && WellFormed(v)
    ensures SameObject(v, v)
    ensures ObjectDiff(v, v) == []
    decreases v
  {
    forall i | 0 <= i < |v.members| ensures SameMember(v, v, i) {
      LookupFindsEntry(v.members, i);
      var w := v.members[i].1;
      if w.JObject? {
        SameObjectReflexive(w);
      }
    }
    forall j | 0 <= j < |v.members| ensures Lookup(v.members, v.members[j].0).Some? {
      LookupFindsEntry(v.members, j);
    }
    ObjectDiffEmpty(v, v);
  }

  /** `appendJSONObjectDifferences`: appends to `differences` member by member, calling
      itself for nested objects, then appends the members only `second` has. */
  method AppendJsonObjectDifferences(first: JsonValue, second: JsonValue, differences: seq<StateDifference>)
    returns (result: seq<StateDifference>)
    requires first.JObject? && second.JObject?
    ensures result == differences + ObjectDiff(first, second)
    decreases first
  {
    result := differences;
    for k := 0 to |first.members|
      invariant result + FirstPass(first, second, k) == differences + FirstPass(first, second, 0)
    {
      ghost var before := result;
      var name := first.members[k].0;
      var value := first.members[k].1;
      var found := Lookup(second.members, name);
      if found.None? {
        result := result + [MissingProperty(name, Some(value), None)];
      } else {
        var otherValue := found.value;
        if value.JObject? && otherValue.JObject? {
          result := AppendJsonObjectDifferences(value, otherValue, result);
        } else if value != otherValue {
          result := result + [PropertyValue(None, name, JsonData(value), JsonData(otherValue))];
        }
      }
      assert result == before + MemberDiff(first, second, k);
      assert before + FirstPass(first, second, k) == result + FirstPass(first, second, k + 1);
    }
    assert result == differences + FirstPass(first, second, 0);
    for k := 0 to |second.members|
      invariant result + SecondPass(first.members, second.members, k) == differences + ObjectDiff(first, second)
    {
      var name := second.members[k].0;
      if Lookup(first.members, name).None? {
        result := result + [MissingProperty(name, None, Some(second.members[k].1))];
      }
    }
  }

  /** `diff`: a state of another class throws; otherwise the differences between the
      two objects. */
  function Diff(json: seq<(string, JsonValue)>, otherState: State): (r: Result<seq<StateDifference>, StateError>)
    ensures !otherState.JsonObjectState? <==> r == Failure(InvalidStateClass)
    ensures otherState.JsonObjectState? ==>
              r.Success? && (r.value == [] <==> SameObject(JObject(json), JObject(otherState.json)))
  {
    if !otherState.JsonObjectState? then Failure(InvalidStateClass)
    else
      ObjectDiffEmpty(JObject(json), JObject(otherState.json));
      Success(ObjectDiff(JObject(json), JObject(otherState.json)))
  }

  /** `equals`: the same object is equal to itself; a state of another class is not;
      otherwise the diff must be empty. */
  function Equals(json: seq<(string, JsonValue)>, other: State, sameObject: bool): (r: bool)
    ensures r <==> sameObject || (other.JsonObjectState? && SameObject(JObject(json), JObject(other.json)))
  {
    if sameObject then true
    else if !other.JsonObjectState? then false
    else Diff(json, other).value == []
  }

  /** Two states holding the same well-formed object are equal. */
  lemma EqualsReflexive(json: seq<(string, JsonValue)>)
    requires WellFormed(JObject(json))
    ensures Equals(json, JsonObjectState(json), false)
  {
    SameObjectReflexive(JObject(json));
  }

  /** In objects with unique names holding the same members, a name finds the same
      value in both. */
  lemma LookupIgnoresOrder(m1: seq<(string, JsonValue)>, m2: seq<(string, JsonValue)>, name: string)
    requires DistinctKeys(m2)
    requires forall i :: 0 <= i < |m1| ==> m1[i] in m2
    requires forall j :: 0 <= j < |m2| ==> m2[j] in m1
    ensures Lookup(m1, name) == Lookup(m2, name)
  {
    var r := Lookup(m1, name);
    if r.Some? {
      var i :| 0 <= i < |m1| && m1[i] == (name, r.value);
      assert m1[i] in m2;
      var j :| 0 <= j < |m2| && m2[j] == m1[i];
      LookupFindsEntry(m2, j);
    }
  }

  /** Member order does not matter: two objects with unique names holding the same
      members have no differences. */
  lemma DiffIgnoresOrder(first: JsonValue, second: JsonValue)
    requires first.JObject? && second.JObject? && WellFormed(first) && WellFormed(second)
    requires forall i :: 0 <= i < |first.members| ==> first.members[i] in second.members
    requires forall j :: 0 <= j < |second.members| ==> second.members[j] in first.members
    ensures ObjectDiff(first, second) == []
  {
    forall i | 0 <= i < |first.members| ensures SameMember(first, second, i) {
      LookupIgnoresOrder(first.members, second.members, first.members[i].0);
      LookupFindsEntry(first.members, i);
      var v := first.members[i].1;
      if v.JObject? {
        SameObjectReflexive(v);
      }
    }
    forall j | 0 <= j < |second.members| ensures Lookup(first.members, second.members[j].0).Some? {
      LookupIgnoresOrder(first.members, second.members, second.members[j].0);
      LookupFindsEntry(second.members, j);
    }
    ObjectDiffEmpty(first, second);
  }

  /** The unit test's first case, in both directions: the same members with the first
      two swapped, one of them a nested object. */
  lemma DiffIgnoresOrderExample()
    ensures var inner := JObject([("d", JString("5"))]);
            var abc := JObject([("a", JString("1")), ("b", JString("2")), ("c", inner)]);
            var bac := JObject([("b", JString("2")), ("a", JString("1")), ("c", inner)]);
            ObjectDiff(abc, bac) == [] && ObjectDiff(bac, abc) == []
  {
    var inner := JObject([("d", JString("5"))]);
    var abc := JObject([("a", JString("1")), ("b", JString("2")), ("c", inner)]);
    var bac := JObject([("b", JString("2")), ("a", JString("1")), ("c", inner)]);
    DiffIgnoresOrder(abc, bac);
    DiffIgnoresOrder(bac, abc);
  }

  /** The unit test's second case, in both directions: a member one side lacks comes
      first as a missing property. */
  lemma DiffReportsMissing()
    ensures var ab := JObject([("a", JString("1")), ("b", JString("2"))]);
            var a := JObject([("a", JString("1"))]);
            ObjectDiff(ab, a)[0].MissingProperty? && ObjectDiff(a, ab)[0].MissingProperty?
  {
    var ab := JObject([("a", JString("1")), ("b", JString("2"))]);
    var a := JObject([("a", JString("1"))]);
    assert MemberDiff(ab, a, 0) == [];
    assert MemberDiff(ab, a, 1) == [MissingProperty("b", Some(JString("2")), None)];
    assert MemberDiff(a, ab, 0) == [];
    assert SecondPass(a.members, ab.members, 1) != [];
  }

  /** The unit test's third case, in both directions: a changed value comes first as a
      value difference. */
  lemma DiffReportsValue()
    ensures var a1 := JObject([("a", JString("1"))]);
            var a2 := JObject([("a", JString("2"))]);
            ObjectDiff(a1, a2)[0].PropertyValue? && ObjectDiff(a2, a1)[0].PropertyValue?
  {
    var a1 := JObject([("a", JString("1"))]);
    var a2 := JObject([("a", JString("2"))]);
    assert MemberDiff(a1, a2, 0) == [PropertyValue(None, "a", JsonData(JString("1")), JsonData(JString("2")))];
    assert MemberDiff(a2, a1, 0) == [PropertyValue(None, "a", JsonData(JString("2")), JsonData(JString("1")))];
  }

  /** `appendJSONObjectDifferences` as written: the library gives no name array for an
      object without members, so walking an empty object throws, both at the top and
      for a pair of nested objects; `second` is only walked after `first`. */
  function ObjectDiffAsWritten(first: JsonValue, second: JsonValue): (r: Result<seq<StateDifference>, StateError>)
    requires first.JObject? && second.JObject?
    ensures first.members == [] ==> r == Failure(NullPointer)
    decreases first, |first.members| + 2
  {
    if first.members == [] then Failure(NullPointer)
    else
      var walked :- FirstPassAsWritten(first, second, 0);
      if second.members == [] then Failure(NullPointer)
      else Success(walked + SecondPass(first.members, second.members, 0))
  }

  function FirstPassAsWritten(first: JsonValue, second: JsonValue, k: nat): Result<seq<StateDifference>, StateError>
    requires first.JObject? && second.JObject? && k <= |first.members|
    decreases first, |first.members| - k
  {
    if k == |first.members| then Success([])
    else
      var name := first.members[k].0;
      var value := first.members[k].1;
      var here :-
        match Lookup(second.members, name)
        case None => Success([MissingProperty(name, Some(value), None)])
        case Some(otherValue) =>
          if value.JObject? && otherValue.JObject? then ObjectDiffAsWritten(value, otherValue)
          else if value != otherValue then Success([PropertyValue(None, name, JsonData(value), JsonData(otherValue))])
          else Success([]);
      var rest :- FirstPassAsWritten(first, second, k + 1);
      Success(here + rest)
  }

  /** No object inside `v`, `v` included, is empty. */
  predicate NoEmptyObject(v: JsonValue) {
    match v
    case JObject(members) =>
      members != [] && forall i :: 0 <= i < |members| ==> NoEmptyObject(members[i].1)
    case _ => true
  }

  /** Where no object is empty the code as written computes the corrected diff. */
  lemma {:induction false} AsWrittenAgrees(first: JsonValue, second: JsonValue)
    requires first.JObject? && second.JObject? && NoEmptyObject(first) && NoEmptyObject(second)
    ensures ObjectDiffAsWritten(first, second) == Success(ObjectDiff(first, second))
    decreases first, |first.members| + 2
  {
    FirstPassAgrees(first, second, 0);
  }

  lemma {:induction false} FirstPassAgrees(first: JsonValue, second: JsonValue, k: nat)
    requires first.JObject? && second.JObject? && k <= |first.members|
    requires NoEmptyObject(first) && NoEmptyObject(second)
    ensures FirstPassAsWritten(first, second, k) == Success(FirstPass(first, second, k))
    decreases first, |first.members| - k
  {
    if k < |first.members| {
      FirstPassAgrees(first, second, k + 1);
      var v := first.members[k].1;
      match Lookup(second.members, first.members[k].0)
      case None =>
      case Some(w) =>
        if v.JObject? && w.JObject? {
          var j :| 0 <= j < |second.members| && second.members[j] == (first.members[k].0, w);
          AsWrittenAgrees(v, w);
        }
    }
  }

  /** The discrepancy: two empty objects, or two objects whose only member is an empty
      object, agree, yet the code as written throws instead of reporting no difference. */
  lemma EmptyObjectThrows()
    ensures ObjectDiffAsWritten(JObject([]), JObject([])) == Failure(NullPointer)
    ensures ObjectDiff(JObject([]), JObject([])) == []
    ensures var nested := JObject([("c", JObject([]))]);
            ObjectDiffAsWritten(nested, nested) == Failure(NullPointer) && ObjectDiff(nested, nested) == []
  {
    var nested := JObject([("c", JObject([]))]);
    SameObjectReflexive(nested);
  }
}

/** Element selectors: the composite selector, which takes the union or the intersection
    of what several selectors pick, and the property selector, which builds an XPath
    query from "name:value" properties and keeps the displayed elements it finds. */
module Selectors {
  import opened Wrappers
  import opened Identifiers
  import opened Strings

  // ---------------------------------------------------------------------------
  // A linked hash set, as a sequence without repeats in insertion order.

  predicate Distinct<E(==)>(s: seq<E>) {
    forall i, j :: 0 <= i < j < |s| ==> s[i] != s[j]
  }

  /** `addAll`: appends, in order, each element not yet present. */
  function AddAll<E(==,!new)>(acc: seq<E>, xs: seq<E>): (r: seq<E>)
    ensures Distinct(acc) ==> Distinct(r)
    ensures forall x :: x in r <==> x in acc || x in xs
    ensures |acc| <= |r| && r[..|acc|] == acc
    decreases |xs|
  {
    if xs == [] then acc
    else
      var next := if xs[0] in acc then acc else acc + [xs[0]];
      assert next[..|acc|] == acc;
      var r := AddAll(next, xs[1..]);
      assert r[..|acc|] == r[..|next|][..|acc|];
      r
  }

  /** Adding two lists in turn adds their concatenation. */
  lemma {:induction false} AddAllConcat<E(!new)>(acc: seq<E>, xs: seq<E>, ys: seq<E>)
    ensures AddAll(AddAll(acc, xs), ys) == AddAll(acc, xs + ys)
    decreases |xs|
  {
    if xs == [] {
      assert xs + ys == ys;
    } else {
      var next := if xs[0] in acc then acc else acc + [xs[0]];
      assert (xs + ys)[0] == xs[0] && (xs + ys)[1..] == xs[1..] + ys;
      AddAllConcat(next, xs[1..], ys);
    }
  }

  /** `retainAll`: keeps, in order, the elements that `xs` holds. */
  function RetainAll<E(==,!new)>(acc: seq<E>, xs: seq<E>): (r: seq<E>)
    ensures Distinct(acc) ==> Distinct(r)
    ensures forall x :: x in r <==> x in acc && x in xs
    ensures |r| <= |acc|
  {
    if acc == [] then []
    else
      var rest := RetainAll(acc[1..], xs);
      assert forall x :: x in acc <==> x == acc[0] || x in acc[1..];
      if acc[0] in xs then [acc[0]] + rest else rest
  }

  /** The lists of several selectors, one after another. */
  function Flatten<E(!new)>(results: seq<seq<E>>): (r: seq<E>)
    ensures forall x :: x in r <==> exists i :: 0 <= i < |results| && x in results[i]
  {
    if results == [] then []
    else
      var rest := Flatten(results[1..]);
      assert forall i :: 1 <= i < |results| ==> results[i] == results[1..][i - 1];
      results[0] + rest
  }

  // ---------------------------------------------------------------------------
  // CompositeWebElementSelector

  /** The union loop: each selector's list added in turn, from selector `k` on. */
  function UnionFold<E(==,!new)>(acc: seq<E>, results: seq<seq<E>>, k: nat): (r: seq<E>)
    requires k <= |results|
    ensures Distinct(acc) ==> Distinct(r)
    ensures forall x :: x in r <==> x in acc || exists i :: k <= i < |results| && x in results[i]
    decreases |results| - k
  {
    if k == |results| then acc else UnionFold(AddAll(acc, results[k]), results, k + 1)
  }

  /** The intersection loop: each selector's list retained in turn, from selector `k` on. */
  function IntersectFold<E(==,!new)>(acc: seq<E>, results: seq<seq<E>>, k: nat): (r: seq<E>)
    requires k <= |results|
    ensures Distinct(acc) ==> Distinct(r)
    ensures forall x :: x in r <==> x in acc && forall i :: k <= i < |results| ==> x in results[i]
    decreases |results| - k
  {
    if k == |results| then acc else IntersectFold(RetainAll(acc, results[k]), results, k + 1)
  }

  /** What `select` returns for the selectors' lists `results`: in intersect mode with at
      least one selector, the first list's elements that every list holds; otherwise every
      element of every list. */
  function Selected<E(==,!new)>(intersect: bool, results: seq<seq<E>>): seq<E> {
    if intersect && |results| > 0 then IntersectFold(AddAll([], results[0]), results, 0)
    else UnionFold([], results, 0)
  }

  /** The union holds each element of any list once; the intersection holds exactly the
      elements every list holds, once. */
  lemma SelectedMembers<E(!new)>(intersect: bool, results: seq<seq<E>>)
    ensures Distinct(Selected(intersect, results))
    ensures (!intersect || results == []) ==>
              forall x :: x in Selected(intersect, results) <==> exists i :: 0 <= i < |results| && x in results[i]
    ensures intersect && results != [] ==>
              forall x :: x in Selected(intersect, results) <==> forall i :: 0 <= i < |results| ==> x in results[i]
  {
  }

  /** The union loop adds the selectors' lists as one list. */
  lemma {:induction false} UnionFoldFlattens<E(!new)>(acc: seq<E>, results: seq<seq<E>>, k: nat)
    requires k <= |results|
    ensures UnionFold(acc, results, k) == AddAll(acc, Flatten(results[k..]))
    decreases |results| - k
  {
    if k == |results| {
      assert results[k..] == [];
    } else {
      UnionFoldFlattens(AddAll(acc, results[k]), results, k + 1);
      assert results[k..][1..] == results[k + 1..];
      assert Flatten(results[k..]) == results[k] + Flatten(results[k + 1..]);
      AddAllConcat(acc, results[k], Flatten(results[k + 1..]));
    }
  }

  /** An element seen before another's first appearance comes before it in `addAll`'s
      result: the set keeps first-seen order. */
  lemma AddAllFirstSeenOrder<E(!new)>(flat: seq<E>, a: nat, b: nat)
    requires a < b < |flat| && flat[b] !in flat[..b]
    ensures exists i, j :: 0 <= i < j < |AddAll([], flat)| && AddAll([], flat)[i] == flat[a] && AddAll([], flat)[j] == flat[b]
  {
    var before := AddAll([], flat[..b]);
    var r := AddAll([], flat);
    AddAllPrefix(flat, b);
    SeenBefore(flat, a, b);
    var i :| 0 <= i < |before| && before[i] == flat[a];
    assert r[i] == before[i] by {
      assert r[..|before|][i] == r[i];
    }
    AddAllHolds(flat, b);
    var j :| 0 <= j < |r| && r[j] == flat[b];
    AfterPrefix(r, before, j);
    assert 0 <= i < j < |r| && r[i] == flat[a] && r[j] == flat[b];
  }

  /** The elements added from a prefix of the input open the result. */
  lemma AddAllPrefix<E(!new)>(flat: seq<E>, b: nat)
    requires b <= |flat|
    ensures |AddAll([], flat[..b])| <= |AddAll([], flat)|
    ensures AddAll([], flat)[..|AddAll([], flat[..b])|] == AddAll([], flat[..b])
  {
    assert flat[..b] + flat[b..] == flat;
    AddAllConcat([], flat[..b], flat[b..]);
  }

  /** An element before position `b` is added from the prefix; the new one at `b` is not. */
  lemma SeenBefore<E(!new)>(flat: seq<E>, a: nat, b: nat)
    requires a < b < |flat| && flat[b] !in flat[..b]
    ensures flat[a] in AddAll([], flat[..b]) && flat[b] !in AddAll([], flat[..b])
  {
    assert flat[..b][a] == flat[a];
  }

  lemma AddAllHolds<E(!new)>(flat: seq<E>, b: nat)
    requires b < |flat|
    ensures flat[b] in AddAll([], flat)
  {
  }

  /** In a list that opens with `before`, an element not in `before` sits after it. */
  lemma AfterPrefix<E>(r: seq<E>, before: seq<E>, j: nat)
    requires |before| <= |r| && r[..|before|] == before && j < |r| && r[j] !in before
    ensures j >= |before|
  {
    forall k | 0 <= k < |before| ensures r[k] == before[k] {
      assert r[..|before|][k] == r[k];
    }
  }

  /** The union keeps the elements in the order they are first seen across the
      selectors' lists, one after another. */
  lemma UnionFirstSeenOrder<E(!new)>(results: seq<seq<E>>, a: nat, b: nat)
    requires a < b < |Flatten(results)| && Flatten(results)[b] !in Flatten(results)[..b]
    ensures exists i, j :: 0 <= i < j < |Selected(false, results)|
              && Selected(false, results)[i] == Flatten(results)[a] && Selected(false, results)[j] == Flatten(results)[b]
  {
    UnionFoldFlattens([], results, 0);
    assert results[0..] == results;
    assert Selected(false, results) == AddAll([], Flatten(results));
    AddAllFirstSeenOrder(Flatten(results), a, b);
  }

  /** The unit scenario: lists [1, 2] and [1, 3] give the union [1, 2, 3]... */
  lemma UnionExample()
    ensures Selected(false, [[1, 2], [1, 3]]) == [1, 2, 3]
  {
    var results: seq<seq<int>> := [[1, 2], [1, 3]];
    var u1 := AddAll([], results[0]);
    AddAllFirst(u1, results);
    var u2 := AddAll(u1, results[1]);
    AddAllSecond(u1, u2, results);
    assert UnionFold([], results, 0) == UnionFold(u1, results, 1);
    assert UnionFold(u1, results, 1) == UnionFold(u2, results, 2);
  }

  lemma AddAllFirst(u1: seq<int>, results: seq<seq<int>>)
    requires results == [[1, 2], [1, 3]] && u1 == AddAll([], results[0])
    ensures u1 == [1, 2]
  {
    assert results[0][1..] == [2] && [2][1..] == [];
  }

  lemma AddAllSecond(u1: seq<int>, u2: seq<int>, results: seq<seq<int>>)
    requires results == [[1, 2], [1, 3]] && u1 == [1, 2] && u2 == AddAll(u1, results[1])
    ensures u2 == [1, 2, 3]
  {
    assert results[1][1..] == [3] && [3][1..] == [];
    assert u2 == AddAll([1, 2], [3]);
  }

  /** ... and the intersection [1]. */
  lemma IntersectionExample()
    ensures Selected(true, [[1, 2], [1, 3]]) == [1]
  {
    var results := [[1, 2], [1, 3]];
    AddAllPair();
    RetainAllPair();
    assert IntersectFold([1, 2], results, 0) == IntersectFold([1, 2], results, 1) == IntersectFold([1], results, 2);
  }

  lemma AddAllPair()
    ensures AddAll([], [1, 2]) == [1, 2]
  {
    assert AddAll([], [1, 2]) == AddAll([1], [2]) == AddAll([1, 2], []);
  }

  lemma RetainAllPair()
    ensures RetainAll([1, 2], [1, 2]) == [1, 2]
    ensures RetainAll([1, 2], [1, 3]) == [1]
  {
    assert [1, 2][1..] == [2] && [2][1..] == [];
  }

  /** The composite selector: its mode and its selectors, each of which picks a list of
      elements from the page `P`. */
  datatype CompositeWebElementSelector<!P, E> = CompositeWebElementSelector(intersect: bool, selectorList: seq<P -> seq<E>>)

  /** The constructor given selectors alone takes the union. */
  function UnionSelector<P, E>(selectors: seq<P -> seq<E>>): (s: CompositeWebElementSelector<P, E>)
    ensures !s.intersect && s.selectorList == selectors
  {
    CompositeWebElementSelector(false, selectors)
  }

  /** Each selector's list on the page. */
  function Results<P, E>(selectors: seq<P -> seq<E>>, driver: P): (r: seq<seq<E>>)
    ensures |r| == |selectors| && forall i :: 0 <= i < |selectors| ==> r[i] == selectors[i](driver)
  {
    seq(|selectors|, i requires 0 <= i < |selectors| => selectors[i](driver))
  }

  /** `select`: in intersect mode with at least one selector, the first selector's
      elements, then only those each selector (the first included) also picks; otherwise
      every selector's elements added in turn. Each element appears once. */
  method Select<P, E(==,!new)>(selector: CompositeWebElementSelector<P, E>, driver: P) returns (result: seq<E>)
    ensures result == Selected(selector.intersect, Results(selector.selectorList, driver))
    ensures Distinct(result)
  {
    var selectors := selector.selectorList;
    ghost var results := Results(selectors, driver);
    result := [];
    if selector.intersect && |selectors| > 0 {
      result := AddAll(result, selectors[0](driver));
      for i := 0 to |selectors|
        invariant IntersectFold(result, results, i) == Selected(selector.intersect, results)
      {
        result := RetainAll(result, selectors[i](driver));
      }
    } else {
      for i := 0 to |selectors|
        invariant UnionFold(result, results, i) == Selected(selector.intersect, results)
      {
        result := AddAll(result, selectors[i](driver));
      }
    }
    SelectedMembers(selector.intersect, results);
  }

  // ---------------------------------------------------------------------------
  // PropertyWebElementSelector

  /** The pieces of `s` between its ':' characters, empty ones included. */
  function Pieces(s: string): (r: seq<string>)
    ensures |r| >= 1
  {
    if s == [] then [""]
    else if s[0] == ':' then [""] + Pieces(s[1..])
    else
      var p := Pieces(s[1..]);
      [[s[0]] + p[0]] + p[1..]
  }

  /** No piece holds a ':', and text without one is a single piece. */
  lemma {:induction false} PiecesProperties(s: string)
    ensures forall i :: 0 <= i < |Pieces(s)| ==> ':' !in Pieces(s)[i]
    ensures ':' !in s ==> Pieces(s) == [s]
  {
    if s != [] {
      PiecesProperties(s[1..]);
      if s[0] != ':' {
        var p := Pieces(s[1..]);
        assert ':' !in s ==> ':' !in s[1..] && p == [s[1..]] && [s[0]] + s[1..] == s;
        assert Pieces(s) == [[s[0]] + p[0]] + p[1..];
        forall i | 0 <= i < |Pieces(s)| ensures ':' !in Pieces(s)[i] {
          if i > 0 {
            assert Pieces(s)[i] == p[i];
          }
        }
      } else {
        assert Pieces(s) == [""] + Pieces(s[1..]);
        forall i | 0 <= i < |Pieces(s)| ensures ':' !in Pieces(s)[i] {
          if i > 0 {
            assert Pieces(s)[i] == Pieces(s[1..])[i - 1];
          }
        }
      }
    }
  }

  /** The pieces without their trailing empty ones. */
  function DropTrailingEmpty(pieces: seq<string>): (r: seq<string>)
    ensures |r| <= |pieces|
  {
    if pieces == [] || pieces[|pieces| - 1] != "" then pieces
    else DropTrailingEmpty(pieces[..|pieces| - 1])
  }

  /** Dropping keeps a prefix that ends in a non-empty piece, and what it drops is empty. */
  lemma {:induction false} DropTrailingEmptyProperties(pieces: seq<string>)
    ensures DropTrailingEmpty(pieces) == pieces[..|DropTrailingEmpty(pieces)|]
    ensures DropTrailingEmpty(pieces) == [] || DropTrailingEmpty(pieces)[|DropTrailingEmpty(pieces)| - 1] != ""
    ensures forall i :: |DropTrailingEmpty(pieces)| <= i < |pieces| ==> pieces[i] == ""
  {
    if pieces != [] && pieces[|pieces| - 1] == "" {
      var init := pieces[..|pieces| - 1];
      DropTrailingEmptyProperties(init);
      var r := DropTrailingEmpty(init);
      assert init[..|r|] == pieces[..|r|];
      forall i | |r| <= i < |pieces| ensures pieces[i] == "" {
        if i < |init| {
          assert init[i] == pieces[i];
        }
      }
    }
  }

  /** `split(":")`: the text itself when it holds no ':'; otherwise the pieces, trailing
      empty ones removed. */
  function Split(s: string): (r: seq<string>)
    ensures |r| <= |Pieces(s)|
  {
    var pieces := Pieces(s);
    if |pieces| == 1 then pieces else DropTrailingEmpty(pieces)
  }

  /** Text without a ':' splits into itself; otherwise no piece holds a ':', and the
      last piece kept is not empty. */
  lemma SplitProperties(s: string)
    ensures ':' !in s ==> Split(s) == [s]
    ensures forall i :: 0 <= i < |Split(s)| ==> ':' !in Split(s)[i]
    ensures |Pieces(s)| > 1 ==> Split(s) == [] || Split(s)[|Split(s)| - 1] != ""
  {
    PiecesProperties(s);
    DropTrailingEmptyProperties(Pieces(s));
    var r := Split(s);
    forall i | 0 <= i < |r| ensures ':' !in r[i] {
      assert r[i] == Pieces(s)[..|r|][i];
    }
  }

  /** A "name:value" property with a non-empty value splits into its name and value. */
  lemma SplitProperty(name: string, value: string)
    requires ':' !in name && ':' !in value && value != ""
    ensures Split(name + ":" + value) == [name, value]
  {
    var s := name + ":" + value;
    if name == [] {
      assert s == [':'] + value && s[1..] == value;
    } else {
      SplitPropertyPieces(name, value);
    }
    assert Pieces(s) == [name, value] by {
      SplitPropertyPieces(name, value);
    }
  }

  lemma {:induction false} SplitPropertyPieces(name: string, value: string)
    requires ':' !in name && ':' !in value
    ensures Pieces(name + ":" + value) == [name, value]
    decreases |name|
  {
    var s := name + ":" + value;
    if name == [] {
      assert s[0] == ':' && s[1..] == value;
      PiecesProperties(value);
    } else {
      assert s[0] == name[0] && s[1..] == name[1..] + ":" + value;
      SplitPropertyPieces(name[1..], value);
      assert [name[0]] + name[1..] == name;
    }
  }

  // One property's clause: //*[@name="value"] when exact, //*[contains(@name, "value")]
  // otherwise.
  function Clause(isAccurate: bool, name: string, value: string): (r: string)
    ensures isAccurate ==> r == "//*[@" + name + "=\"" + value + "\"]"
    ensures !isAccurate ==> r == "//*[contains(@" + name + ", \"" + value + "\")]"
    ensures |r| > 0 && r[..4] == "//*[" && r[|r| - 1] == ']'
  {
    var open := if isAccurate then "@" + name + "=\"" else "contains(@" + name + ", \"";
    var close := if isAccurate then "\"" else "\")";
    "//*[" + open + value + close + "]"
  }

  /** Whether every property splits into at least a name and a value. */
  predicate AllSplit(properties: seq<string>) {
    forall k :: 0 <= k < |properties| ==> Splits(properties[k])
  }

  /** A property with at least two pieces. */
  predicate Splits(property: string) {
    |Split(property)| >= 2
  }

  /** The clause of one property, from its first two pieces. */
  function PropertyClause(isAccurate: bool, property: string): (r: string)
    requires Splits(property)
    ensures r == Clause(isAccurate, Split(property)[0], Split(property)[1])
  {
    var pieces := Split(property);
    Clause(isAccurate, pieces[0], pieces[1])
  }

  /** The clause of each property, in order. */
  function Clauses(isAccurate: bool, properties: seq<string>): (r: seq<string>)
    requires AllSplit(properties)
    ensures |r| == |properties|
    ensures forall k :: 0 <= k < |properties| ==> r[k] == PropertyClause(isAccurate, properties[k])
  {
    seq(|properties|, k requires 0 <= k < |properties| => PropertyClause(isAccurate, properties[k]))
  }

  datatype SelectorError =
    /** A property without a ':' (or with an empty value): the array index 1 is missing. */
    | ArrayIndexOutOfBounds
    /** `subList` beyond the end of the list. */
    | IndexOutOfBounds(toIndex: int, size: nat)

  datatype PropertyWebElementSelector = PropertyWebElementSelector(xpath: string, maxElementsSelected: int)

  /** The constructor: one clause per property, joined by " | "; a property that does
      not split into a name and a value throws. */
  method NewPropertyWebElementSelector(isAccurate: bool, maxElementsSelected: int, properties: seq<string>)
    returns (r: Result<PropertyWebElementSelector, SelectorError>)
    ensures r.Failure? <==> !AllSplit(properties)
    ensures r.Failure? ==> r.error == ArrayIndexOutOfBounds
    ensures r.Success? ==> r.value.maxElementsSelected == maxElementsSelected
                           && r.value.xpath == Join(Clauses(isAccurate, properties), " | ")
  {
    var xpathBuilder := "";
    ghost var clauses: seq<string> := [];
    for i := 0 to |properties|
      invariant AllSplit(properties[..i])
      invariant clauses == Clauses(isAccurate, properties[..i])
      invariant xpathBuilder == Join(clauses, " | ")
      invariant xpathBuilder == "" <==> i == 0
    {
      var propertyAndValue := Split(properties[i]);
      if |propertyAndValue| < 2 {
        assert !Splits(properties[i]);
        return Failure(ArrayIndexOutOfBounds);
      }
      var clause := Clause(isAccurate, propertyAndValue[0], propertyAndValue[1]);
      if |xpathBuilder| > 0 {
        xpathBuilder := xpathBuilder + " | ";
      }
      JoinAppend(clauses, clause, " | ");
      AllSplitStep(properties, i);
      ClausesStep(isAccurate, properties, i);
      xpathBuilder := xpathBuilder + clause;
      clauses := clauses + [clause];
    }
    assert properties[..|properties|] == properties;
    return Success(PropertyWebElementSelector(xpathBuilder, maxElementsSelected));
  }

  /** One more property that splits keeps every property split. */
  lemma AllSplitStep(properties: seq<string>, i: nat)
    requires i < |properties| && AllSplit(properties[..i]) && Splits(properties[i])
    ensures AllSplit(properties[..i + 1])
  {
    var before, after := properties[..i], properties[..i + 1];
    forall k | 0 <= k < i ensures Splits(after[k]) {
      assert before[k] == after[k];
    }
  }

  /** One more property adds its clause at the end. */
  lemma ClausesStep(isAccurate: bool, properties: seq<string>, i: nat)
    requires i < |properties| && AllSplit(properties[..i]) && AllSplit(properties[..i + 1])
    ensures Clauses(isAccurate, properties[..i + 1])
            == Clauses(isAccurate, properties[..i]) + [PropertyClause(isAccurate, properties[i])]
  {
    var before, after := properties[..i], properties[..i + 1];
    var lhs := Clauses(isAccurate, after);
    var rhs := Clauses(isAccurate, before) + [PropertyClause(isAccurate, properties[i])];
    forall k | 0 <= k < i ensures lhs[k] == rhs[k] {
      assert before[k] == after[k];
    }
    assert lhs[i] == rhs[i];
  }

  /** Joining one more part appends the separator and the part, unless it is the first. */
  lemma JoinAppend(parts: seq<string>, part: string, sep: string)
    ensures Join(parts + [part], sep) == if parts == [] then part else Join(parts, sep) + sep + part
  {
    if parts != [] {
      assert (parts + [part])[..|parts|] == parts;
    }
  }

  /** The displayed elements of a list, in order. */
  function Displayed(elements: seq<Element>): (r: seq<Element>)
    ensures |r| <= |elements|
    ensures forall e :: e in r <==> e in elements && e.displayed
  {
    if elements == [] then []
    else
      var last := elements[|elements| - 1];
      var rest := Displayed(elements[..|elements| - 1]);
      assert elements == elements[..|elements| - 1] + [last];
      if last.displayed then rest + [last] else rest
  }

  /** The displayed elements kept by `select`, as written: all of them when the maximum
      is not positive, else a sublist of the first `max`, which throws when fewer are
      displayed. */
  function LimitAsWritten(displayed: seq<Element>, maxElementsSelected: int): (r: Result<seq<Element>, SelectorError>)
    ensures r.Failure? <==> maxElementsSelected > |displayed|
    ensures r.Success? && maxElementsSelected > 0 ==> r.value == displayed[..maxElementsSelected]
    ensures maxElementsSelected <= 0 ==> r == Success(displayed)
  {
    if maxElementsSelected > 0 then
      if maxElementsSelected > |displayed| then Failure(IndexOutOfBounds(maxElementsSelected, |displayed|))
      else Success(displayed[..maxElementsSelected])
    else Success(displayed)
  }

  /** As written, a maximum of one with nothing displayed throws rather than selecting
      nothing. */
  lemma LimitAsWrittenThrows()
    ensures LimitAsWritten([], 1) == Failure(IndexOutOfBounds(1, 0))
    ensures Limit([], 1) == []
  {
  }

  /** The displayed elements kept, as intended: at most the first `max` of them when the
      maximum is positive, all of them otherwise. */
  function Limit(displayed: seq<Element>, maxElementsSelected: int): (r: seq<Element>)
    ensures |r| <= |displayed| && r == displayed[..|r|]
    ensures maxElementsSelected > 0 ==> |r| == if maxElementsSelected < |displayed| then maxElementsSelected else |displayed|
    ensures maxElementsSelected <= 0 ==> r == displayed
  {
    if maxElementsSelected > 0 && maxElementsSelected < |displayed| then displayed[..maxElementsSelected] else displayed
  }

  /** The intended limit agrees with the code as written wherever that does not throw. */
  lemma LimitAgrees(displayed: seq<Element>, maxElementsSelected: int)
    ensures LimitAsWritten(displayed, maxElementsSelected).Success? ==>
              LimitAsWritten(displayed, maxElementsSelected).value == Limit(displayed, maxElementsSelected)
  {
    if maxElementsSelected == |displayed| {
      assert displayed[..maxElementsSelected] == displayed;
    }
  }

  /** `select`: the elements the query finds (a parameter here) that are displayed, in
      order, at most `maxElementsSelected` of them when that is positive. */
  method SelectDisplayed(selector: PropertyWebElementSelector, elements: seq<Element>) returns (returnElements: seq<Element>)
    ensures returnElements == Limit(Displayed(elements), selector.maxElementsSelected)
    ensures forall e :: e in returnElements ==> e in elements && e.displayed
  {
    returnElements := [];
    for i := 0 to |elements|
      invariant returnElements == Displayed(elements[..i])
    {
      assert elements[..i + 1][..i] == elements[..i];
      if elements[i].displayed {
        returnElements := returnElements + [elements[i]];
      }
    }
    assert elements[..|elements|] == elements;
    returnElements := Limit(returnElements, selector.maxElementsSelected);
    assert forall e :: e in returnElements ==> e in Displayed(elements);
  }
}

/** ElementsState: a state holding, for each element identifier, that element's
    property map, compared element by element and property by property. The diff
    remembers what it has already reported under a "diff key" so that the reverse pass
    does not report it again. The key function is a parameter: the code as written uses
    the identifier's text (followed by the property name), which can collide; the
    structured key that names the identifier and the property separately cannot. */
module ElementsState {
  import opened Wrappers
  import opened Assoc
  import opened Strings
  import StateDifferences

  /** An element's property map, in the map's iteration order. */
  type Properties = seq<(string, string)>

  /** The state's map from identifier to properties, in the map's iteration order. */
  type ElementProperties<I> = seq<(I, Properties)>

  datatype ElementDifference<I> =
    /** An element one state lacks, with the properties the other state holds. */
    | MissingElement(identifier: I, firstProperties: Option<Properties>, secondProperties: Option<Properties>)
    /** A property one state lacks (no element given), or a property whose values differ. */
    | PropertyValueDifference(element: Option<I>, key: string, firstValue: Option<string>, secondValue: Option<string>)

  /** What a diff key stands for: an element, or one property of an element. */
  datatype DiffKey<I> = ElementKey(id: I) | PropertyKey(id: I, name: string)

  /** The two lists `diffOneWay` appends to: the differences and the diff keys. */
  datatype Recorded<I, K> = Recorded(stateDiff: seq<ElementDifference<I>>, diffKeys: set<K>)

  /** The diff keys as written: the identifier's text, followed by the property name. */
  function TextKey<I(!new)>(render: I -> string): DiffKey<I> -> string {
    (x: DiffKey<I>) => if x.ElementKey? then render(x.id) else render(x.id) + x.name
  }

  /** A key function that tells all elements and properties apart. */
  ghost predicate Injective<I(!new), K>(keyOf: DiffKey<I> -> K) {
    forall x, y :: keyOf(x) == keyOf(y) ==> x == y
  }

  /** Identifiers are unique, and so are the property names of each element. */
  predicate WellFormed<I(==,!new)>(s: ElementProperties<I>) {
    DistinctKeys(s) && forall a :: 0 <= a < |s| ==> DistinctKeys(s[a].1)
  }

  // ---------------------------------------------------------------------------
  // diffOneWay, as a fold over the entries of the maps.

  /** One property of `thisState`'s element `id`: skipped when its key is recorded;
      otherwise recorded, and reported when the other element lacks it (null on that
      side; no element given) or holds a value that differs ignoring case. */
  function PropertyStep<I(==,!new), K(==)>(id: I, key: string, value: string, otherProperties: Properties,
                                     leftToRight: bool, keyOf: DiffKey<I> -> K, acc: Recorded<I, K>): Recorded<I, K>
  {
    var diffKey := keyOf(PropertyKey(id, key));
    if diffKey in acc.diffKeys then acc
    else
      var keys := acc.diffKeys + {diffKey};
      match Lookup(otherProperties, key)
      case None =>
        var d := if leftToRight then PropertyValueDifference(None, key, Some(value), None)
                 else PropertyValueDifference(None, key, None, Some(value));
        Recorded(acc.stateDiff + [d], keys)
      case Some(otherValue) =>
        if !EqualsIgnoreCase(value, otherValue) then
          Recorded(acc.stateDiff + [PropertyValueDifference(Some(id), key, Some(value), Some(otherValue))], keys)
        else Recorded(acc.stateDiff, keys)
  }

  /** The inner loop, from position `j` of the element's properties on. */
  function PropertiesFold<I(==,!new), K(==)>(id: I, these: Properties, others: Properties, leftToRight: bool,
                                       keyOf: DiffKey<I> -> K, acc: Recorded<I, K>, j: nat): Recorded<I, K>
    requires j <= |these|
    decreases |these| - j
  {
    if j == |these| then acc
    else PropertiesFold(id, these, others, leftToRight, keyOf,
                        PropertyStep(id, these[j].0, these[j].1, others, leftToRight, keyOf, acc), j + 1)
  }

  /** One element of `thisState`: skipped when its key is recorded; reported and
      recorded when the other state lacks it; otherwise its properties are compared. */
  function ElementStep<I(==,!new), K(==)>(id: I, theseProperties: Properties, otherState: ElementProperties<I>,
                                    leftToRight: bool, keyOf: DiffKey<I> -> K, acc: Recorded<I, K>): Recorded<I, K>
  {
    var diffKey := keyOf(ElementKey(id));
    if diffKey in acc.diffKeys then acc
    else
      match Lookup(otherState, id)
      case None =>
        var d := if leftToRight then MissingElement(id, Some(theseProperties), None)
                 else MissingElement(id, None, Some(theseProperties));
        Recorded(acc.stateDiff + [d], acc.diffKeys + {diffKey})
      case Some(otherProperties) =>
        PropertiesFold(id, theseProperties, otherProperties, leftToRight, keyOf, acc, 0)
  }

  /** The outer loop, from position `i` of `thisState` on. */
  function OneWay<I(==,!new), K(==)>(thisState: ElementProperties<I>, otherState: ElementProperties<I>, leftToRight: bool,
                               keyOf: DiffKey<I> -> K, acc: Recorded<I, K>, i: nat): Recorded<I, K>
    requires i <= |thisState|
    decreases |thisState| - i
  {
    if i == |thisState| then acc
    else OneWay(thisState, otherState, leftToRight, keyOf,
                ElementStep(thisState[i].0, thisState[i].1, otherState, leftToRight, keyOf, acc), i + 1)
  }

  /** `diff` on two states of the same class: this state against the other, then the
      other against this one, sharing the recorded keys. */
  function DiffWith<I(==,!new), K(==)>(first: ElementProperties<I>, second: ElementProperties<I>,
                                 keyOf: DiffKey<I> -> K): seq<ElementDifference<I>>
  {
    var forward := OneWay(first, second, true, keyOf, Recorded([], {}), 0);
    OneWay(second, first, false, keyOf, forward, 0).stateDiff
  }

  // ---------------------------------------------------------------------------
  // The differences the diff is meant to report, without diff keys.

  /** Forward, one property: missing on the second side, or a different value. */
  function Prop1<I(!new)>(id: I, key: string, value: string, others: Properties): seq<ElementDifference<I>> {
    match Lookup(others, key)
    case None => [PropertyValueDifference(None, key, Some(value), None)]
    case Some(otherValue) =>
      if EqualsIgnoreCase(value, otherValue) then []
      else [PropertyValueDifference(Some(id), key, Some(value), Some(otherValue))]
  }

  function Props1<I(!new)>(id: I, these: Properties, others: Properties, j: nat): seq<ElementDifference<I>>
    requires j <= |these|
    decreases |these| - j
  {
    if j == |these| then [] else Prop1(id, these[j].0, these[j].1, others) + Props1(id, these, others, j + 1)
  }

  /** Forward, one element: missing from the second state, or its properties. */
  function Element1<I(==,!new)>(id: I, theseProperties: Properties, second: ElementProperties<I>): seq<ElementDifference<I>> {
    match Lookup(second, id)
    case None => [MissingElement(id, Some(theseProperties), None)]
    case Some(others) => Props1(id, theseProperties, others, 0)
  }

  function Pass1<I(==,!new)>(first: ElementProperties<I>, second: ElementProperties<I>, i: nat): seq<ElementDifference<I>>
    requires i <= |first|
    decreases |first| - i
  {
    if i == |first| then [] else Element1(first[i].0, first[i].1, second) + Pass1(first, second, i + 1)
  }

  /** Backward, one property of the second state: reported only when the first state's
      element lacks it; a shared property was already compared forward. */
  function Prop2<I(!new)>(key: string, value: string, firstProperties: Properties): seq<ElementDifference<I>> {
    if Lookup(firstProperties, key).None? then [PropertyValueDifference(None, key, None, Some(value))] else []
  }

  function Props2<I(!new)>(these: Properties, firstProperties: Properties, j: nat): seq<ElementDifference<I>>
    requires j <= |these|
    decreases |these| - j
  {
    if j == |these| then [] else Prop2(these[j].0, these[j].1, firstProperties) + Props2(these, firstProperties, j + 1)
  }

  /** Backward, one element of the second state: missing from the first state, or its
      properties the first state's element lacks. */
  function Element2<I(==,!new)>(id: I, theseProperties: Properties, first: ElementProperties<I>): seq<ElementDifference<I>> {
    match Lookup(first, id)
    case None => [MissingElement(id, None, Some(theseProperties))]
    case Some(firstProperties) => Props2(theseProperties, firstProperties, 0)
  }

  function Pass2<I(==,!new)>(second: ElementProperties<I>, first: ElementProperties<I>, i: nat): seq<ElementDifference<I>>
    requires i <= |second|
    decreases |second| - i
  {
    if i == |second| then [] else Element2(second[i].0, second[i].1, first) + Pass2(second, first, i + 1)
  }

  /** Every difference once: the forward pass, then what only the second state holds. */
  function ReferenceDiff<I(==,!new)>(first: ElementProperties<I>, second: ElementProperties<I>): seq<ElementDifference<I>> {
    Pass1(first, second, 0) + Pass2(second, first, 0)
  }

  // ---------------------------------------------------------------------------
  // With an injective key function, the fold computes the reference differences.

  /** The keys the inner loop records from position `j` on. */
  function PropKeys<I(!new), K>(id: I, these: Properties, keyOf: DiffKey<I> -> K, j: nat): set<K>
    requires j <= |these|
    decreases |these| - j
  {
    if j == |these| then {} else {keyOf(PropertyKey(id, these[j].0))} + PropKeys(id, these, keyOf, j + 1)
  }

  /** Every key the inner loop records names the element it works on. */
  lemma {:induction false} PropKeysMention<I(!new), K>(id: I, these: Properties, keyOf: DiffKey<I> -> K, j: nat, x: DiffKey<I>)
    requires j <= |these| && Injective(keyOf)
    requires keyOf(x) in PropKeys(id, these, keyOf, j)
    ensures x.PropertyKey? && x.id == id
    ensures exists j' :: j <= j' < |these| && x.name == these[j'].0
    decreases |these| - j
  {
    if keyOf(x) != keyOf(PropertyKey(id, these[j].0)) {
      PropKeysMention(id, these, keyOf, j + 1, x);
    }
  }

  /** Forward, when none of the element's property keys is recorded yet: every property
      is recorded and reported as the reference says. */
  lemma {:induction false} Props1Fold<I(!new), K>(id: I, these: Properties, others: Properties,
                                                   keyOf: DiffKey<I> -> K, acc: Recorded<I, K>, j: nat)
    requires j <= |these| && Injective(keyOf) && DistinctKeys(these)
    requires forall j' :: j <= j' < |these| ==> keyOf(PropertyKey(id, these[j'].0)) !in acc.diffKeys
    ensures PropertiesFold(id, these, others, true, keyOf, acc, j)
            == Recorded(acc.stateDiff + Props1(id, these, others, j), acc.diffKeys + PropKeys(id, these, keyOf, j))
    decreases |these| - j
  {
    if j < |these| {
      var k := keyOf(PropertyKey(id, these[j].0));
      var next := PropertyStep(id, these[j].0, these[j].1, others, true, keyOf, acc);
      Prop1Step(id, these[j].0, these[j].1, others, keyOf, acc);
      forall j' | j + 1 <= j' < |these| ensures keyOf(PropertyKey(id, these[j'].0)) != k {
        assert these[j'].0 != these[j].0;
      }
      Props1Fold(id, these, others, keyOf, next, j + 1);
      assert PropKeys(id, these, keyOf, j) == {k} + PropKeys(id, these, keyOf, j + 1);
      assert Props1(id, these, others, j) == Prop1(id, these[j].0, these[j].1, others) + Props1(id, these, others, j + 1);
    }
  }

  /** Forward, one property whose key is not recorded yet: it is recorded and reported as
      the reference says. */
  lemma Prop1Step<I(!new), K>(id: I, key: string, value: string, others: Properties,
                              keyOf: DiffKey<I> -> K, acc: Recorded<I, K>)
    requires keyOf(PropertyKey(id, key)) !in acc.diffKeys
    ensures PropertyStep(id, key, value, others, true, keyOf, acc)
            == Recorded(acc.stateDiff + Prop1(id, key, value, others), acc.diffKeys + {keyOf(PropertyKey(id, key))})
  {
  }

  /** Every property of the element has its key among those the inner loop records. */
  lemma {:induction false} PropKeysContain<I(!new), K>(id: I, these: Properties, keyOf: DiffKey<I> -> K, j: nat)
    requires j <= |these|
    ensures forall j' :: j <= j' < |these| ==> keyOf(PropertyKey(id, these[j'].0)) in PropKeys(id, these, keyOf, j)
    decreases |these| - j
  {
    if j < |these| {
      PropKeysContain(id, these, keyOf, j + 1);
    }
  }

  /** A property key is among those the inner loop records exactly when it names the
      element and one of its properties. */
  lemma PropKeysMembership<I(!new), K>(id: I, these: Properties, keyOf: DiffKey<I> -> K, x: DiffKey<I>)
    requires Injective(keyOf)
    ensures keyOf(x) in PropKeys(id, these, keyOf, 0) <==> x.PropertyKey? && x.id == id && Lookup(these, x.name).Some?
  {
    PropKeysContain(id, these, keyOf, 0);
    if keyOf(x) in PropKeys(id, these, keyOf, 0) {
      PropKeysMention(id, these, keyOf, 0, x);
    }
  }

  /** Which keys the forward pass records for an element with properties `p`: its
      element key when the second state lacks it, otherwise one key per property. */
  ghost predicate Cond1<I(!new)>(x: DiffKey<I>, p: Properties, second: ElementProperties<I>) {
    match Lookup(second, x.id)
    case None => x.ElementKey?
    case Some(_) => x.PropertyKey? && Lookup(p, x.name).Some?
  }

  /** The forward pass records `x` for one of the elements from position `i` on. */
  ghost predicate Recorded1<I(!new)>(x: DiffKey<I>, first: ElementProperties<I>, second: ElementProperties<I>, i: nat)
    requires i <= |first|
    decreases |first| - i
  {
    i < |first| && ((first[i].0 == x.id && Cond1(x, first[i].1, second)) || Recorded1(x, first, second, i + 1))
  }

  /** Forward, one element none of whose keys is recorded yet. */
  lemma Element1Step<I(!new), K>(id: I, p: Properties, second: ElementProperties<I>, keyOf: DiffKey<I> -> K, acc: Recorded<I, K>)
    requires Injective(keyOf) && DistinctKeys(p)
    requires forall x: DiffKey<I> :: x.id == id ==> keyOf(x) !in acc.diffKeys
    ensures ElementStep(id, p, second, true, keyOf, acc).stateDiff == acc.stateDiff + Element1(id, p, second)
    ensures forall x :: keyOf(x) in ElementStep(id, p, second, true, keyOf, acc).diffKeys <==>
                        keyOf(x) in acc.diffKeys || (x.id == id && Cond1(x, p, second))
  {
    assert keyOf(ElementKey(id)) !in acc.diffKeys;
    match Lookup(second, id)
    case None =>
    case Some(others) =>
      forall j' | 0 <= j' < |p| ensures keyOf(PropertyKey(id, p[j'].0)) !in acc.diffKeys {
        assert PropertyKey(id, p[j'].0).id == id;
      }
      Props1Fold(id, p, others, keyOf, acc, 0);
      forall x ensures keyOf(x) in PropKeys(id, p, keyOf, 0) <==> x.id == id && Cond1(x, p, second) {
        PropKeysMembership(id, p, keyOf, x);
      }
  }

  /** The forward pass, when no key of the remaining elements is recorded yet, reports
      what the reference does and records exactly the keys `Recorded1` names. */
  lemma {:induction false} Pass1Fold<I(!new), K>(first: ElementProperties<I>, second: ElementProperties<I>,
                                                keyOf: DiffKey<I> -> K, acc: Recorded<I, K>, i: nat)
    requires i <= |first| && Injective(keyOf) && WellFormed(first)
    requires forall x: DiffKey<I>, a :: i <= a < |first| && x.id == first[a].0 ==> keyOf(x) !in acc.diffKeys
    ensures OneWay(first, second, true, keyOf, acc, i).stateDiff == acc.stateDiff + Pass1(first, second, i)
    ensures forall x :: keyOf(x) in OneWay(first, second, true, keyOf, acc, i).diffKeys <==>
                        keyOf(x) in acc.diffKeys || Recorded1(x, first, second, i)
    decreases |first| - i
  {
    if i < |first| {
      var id := first[i].0;
      var next := ElementStep(id, first[i].1, second, true, keyOf, acc);
      Element1Step(id, first[i].1, second, keyOf, acc);
      forall x: DiffKey<I>, a | i + 1 <= a < |first| && x.id == first[a].0 ensures keyOf(x) !in next.diffKeys {
        assert first[a].0 != id;
      }
      Pass1Fold(first, second, keyOf, next, i + 1);
    }
  }

  /** Backward, one element's properties, when exactly those the first state's element
      also holds are recorded already (compared forward). */
  lemma {:induction false} Props2Fold<I(!new), K>(id: I, these: Properties, firstProperties: Properties,
                                                 keyOf: DiffKey<I> -> K, acc: Recorded<I, K>, j: nat)
    requires j <= |these| && Injective(keyOf) && DistinctKeys(these)
    requires forall j' :: j <= j' < |these| ==>
               (keyOf(PropertyKey(id, these[j'].0)) in acc.diffKeys <==> Lookup(firstProperties, these[j'].0).Some?)
    ensures PropertiesFold(id, these, firstProperties, false, keyOf, acc, j)
            == Recorded(acc.stateDiff + Props2(these, firstProperties, j), acc.diffKeys + PropKeys(id, these, keyOf, j))
    decreases |these| - j
  {
    if j < |these| {
      var k := keyOf(PropertyKey(id, these[j].0));
      var next := PropertyStep(id, these[j].0, these[j].1, firstProperties, false, keyOf, acc);
      Prop2Step(id, these[j].0, these[j].1, firstProperties, keyOf, acc);
      forall j' | j + 1 <= j' < |these| ensures keyOf(PropertyKey(id, these[j'].0)) != k {
        assert these[j'].0 != these[j].0;
      }
      Props2Fold(id, these, firstProperties, keyOf, next, j + 1);
      assert PropKeys(id, these, keyOf, j) == {k} + PropKeys(id, these, keyOf, j + 1);
      assert Props2<I>(these, firstProperties, j)
             == Prop2<I>(these[j].0, these[j].1, firstProperties) + Props2<I>(these, firstProperties, j + 1);
    }
  }

  /** Backward, one property: a recorded key is one the first state's element holds too,
      so skipping it reports exactly what the reference does. */
  lemma Prop2Step<I(!new), K>(id: I, key: string, value: string, firstProperties: Properties,
                              keyOf: DiffKey<I> -> K, acc: Recorded<I, K>)
    requires keyOf(PropertyKey(id, key)) in acc.diffKeys <==> Lookup(firstProperties, key).Some?
    ensures PropertyStep(id, key, value, firstProperties, false, keyOf, acc)
            == Recorded(acc.stateDiff + Prop2(key, value, firstProperties), acc.diffKeys + {keyOf(PropertyKey(id, key))})
  {
  }

  /** What the backward pass needs from the recorded keys at position `i`: no remaining
      element's key is recorded, and a remaining element the first state also holds has
      exactly the keys of the first state's properties recorded. */
  ghost predicate Ready2<I(!new), K>(keys: set<K>, second: ElementProperties<I>, first: ElementProperties<I>,
                                     keyOf: DiffKey<I> -> K, i: nat)
    requires i <= |second|
  {
    (forall b :: i <= b < |second| ==> keyOf(ElementKey(second[b].0)) !in keys)
    && (forall b, k :: i <= b < |second| && Lookup(first, second[b].0).Some? ==>
          (keyOf(PropertyKey(second[b].0, k)) in keys <==> Lookup(Lookup(first, second[b].0).value, k).Some?))
  }

  /** Backward, one element: reports what the reference does and records only keys that
      name this element. */
  lemma Element2Step<I(!new), K>(id: I, q: Properties, first: ElementProperties<I>, keyOf: DiffKey<I> -> K, acc: Recorded<I, K>)
    requires Injective(keyOf) && DistinctKeys(q)
    requires keyOf(ElementKey(id)) !in acc.diffKeys
    requires Lookup(first, id).Some? ==>
               forall k :: keyOf(PropertyKey(id, k)) in acc.diffKeys <==> Lookup(Lookup(first, id).value, k).Some?
    ensures ElementStep(id, q, first, false, keyOf, acc).stateDiff == acc.stateDiff + Element2(id, q, first)
    ensures forall x: DiffKey<I> :: x.id != id ==>
              (keyOf(x) in ElementStep(id, q, first, false, keyOf, acc).diffKeys <==> keyOf(x) in acc.diffKeys)
  {
    match Lookup(first, id)
    case None =>
    case Some(p) =>
      Props2Fold(id, q, p, keyOf, acc, 0);
      forall x: DiffKey<I> | x.id != id ensures keyOf(x) !in PropKeys(id, q, keyOf, 0) {
        PropKeysMembership(id, q, keyOf, x);
      }
  }

  /** One element of the backward pass keeps the remaining elements ready: it only
      records keys that name the element itself. */
  lemma Ready2Step<I(!new), K>(keys: set<K>, keys': set<K>, second: ElementProperties<I>, first: ElementProperties<I>,
                               keyOf: DiffKey<I> -> K, i: nat)
    requires i < |second| && DistinctKeys(second)
    requires Ready2(keys, second, first, keyOf, i)
    requires forall x: DiffKey<I> :: x.id != second[i].0 ==> (keyOf(x) in keys' <==> keyOf(x) in keys)
    ensures Ready2(keys', second, first, keyOf, i + 1)
  {
    forall b | i + 1 <= b < |second| ensures keyOf(ElementKey(second[b].0)) !in keys' {
      assert second[i].0 != second[b].0;
      assert ElementKey(second[b].0).id != second[i].0;
    }
    forall b, k | i + 1 <= b < |second| && Lookup(first, second[b].0).Some?
      ensures keyOf(PropertyKey(second[b].0, k)) in keys' <==> Lookup(Lookup(first, second[b].0).value, k).Some?
    {
      assert second[i].0 != second[b].0;
      assert PropertyKey(second[b].0, k).id != second[i].0;
    }
  }

  /** One element of the backward pass, with the remaining elements kept ready. */
  lemma Pass2Step<I(!new), K>(second: ElementProperties<I>, first: ElementProperties<I>,
                              keyOf: DiffKey<I> -> K, acc: Recorded<I, K>, i: nat)
    requires i < |second| && Injective(keyOf) && WellFormed(second)
    requires Ready2(acc.diffKeys, second, first, keyOf, i)
    ensures ElementStep(second[i].0, second[i].1, first, false, keyOf, acc).stateDiff
         == acc.stateDiff + Element2(second[i].0, second[i].1, first)
    ensures Ready2(ElementStep(second[i].0, second[i].1, first, false, keyOf, acc).diffKeys, second, first, keyOf, i + 1)
  {
    var next := ElementStep(second[i].0, second[i].1, first, false, keyOf, acc);
    Element2Step(second[i].0, second[i].1, first, keyOf, acc);
    Ready2Step(acc.diffKeys, next.diffKeys, second, first, keyOf, i);
  }

  /** The backward pass reports what the reference does. */
  lemma {:induction false} Pass2Fold<I(!new), K>(second: ElementProperties<I>, first: ElementProperties<I>,
                                                keyOf: DiffKey<I> -> K, acc: Recorded<I, K>, i: nat)
    requires i <= |second| && Injective(keyOf) && WellFormed(second)
    requires Ready2(acc.diffKeys, second, first, keyOf, i)
    ensures OneWay(second, first, false, keyOf, acc, i).stateDiff == acc.stateDiff + Pass2(second, first, i)
    decreases |second| - i
  {
    if i < |second| {
      var next := ElementStep(second[i].0, second[i].1, first, false, keyOf, acc);
      Pass2Step(second, first, keyOf, acc, i);
      Pass2Fold(second, first, keyOf, next, i + 1);
      assert Pass2(second, first, i) == Element2(second[i].0, second[i].1, first) + Pass2(second, first, i + 1);
    }
  }

  /** The forward pass records `x` exactly when the first state holds its element and
      `Cond1` holds for that element's properties. */
  lemma {:induction false} Recorded1Exists<I(!new)>(x: DiffKey<I>, first: ElementProperties<I>, second: ElementProperties<I>, i: nat)
    requires i <= |first|
    ensures Recorded1(x, first, second, i) <==>
              exists a :: i <= a < |first| && first[a].0 == x.id && Cond1(x, first[a].1, second)
    decreases |first| - i
  {
    if i < |first| {
      Recorded1Exists(x, first, second, i + 1);
    }
  }

  lemma Recorded1AtStart<I(!new)>(x: DiffKey<I>, first: ElementProperties<I>, second: ElementProperties<I>)
    requires DistinctKeys(first)
    ensures Recorded1(x, first, second, 0) <==>
              Lookup(first, x.id).Some? && Cond1(x, Lookup(first, x.id).value, second)
  {
    Recorded1Exists(x, first, second, 0);
    if Recorded1(x, first, second, 0) {
      var a :| 0 <= a < |first| && first[a].0 == x.id && Cond1(x, first[a].1, second);
      LookupFindsEntry(first, a);
    }
  }

  /** With a key function that tells elements and properties apart, the diff reports
      exactly the reference differences: the forward pass, then what only the second
      state holds. */
  lemma DiffWithIsReference<I(!new), K>(first: ElementProperties<I>, second: ElementProperties<I>, keyOf: DiffKey<I> -> K)
    requires Injective(keyOf) && WellFormed(first) && WellFormed(second)
    ensures DiffWith(first, second, keyOf) == ReferenceDiff(first, second)
  {
    var start: Recorded<I, K> := Recorded([], {});
    Pass1Fold(first, second, keyOf, start, 0);
    var forward := OneWay(first, second, true, keyOf, start, 0);
    assert forward.stateDiff == Pass1(first, second, 0);
    assert forall x :: keyOf(x) in forward.diffKeys <==> Recorded1(x, first, second, 0);
    ForwardReady(first, second, keyOf, forward.diffKeys);
    Pass2Fold(second, first, keyOf, forward, 0);
  }

  /** After the forward pass the backward pass is ready to start. */
  lemma ForwardReady<I(!new), K>(first: ElementProperties<I>, second: ElementProperties<I>, keyOf: DiffKey<I> -> K, keys: set<K>)
    requires WellFormed(first) && WellFormed(second)
    requires forall x :: keyOf(x) in keys <==> Recorded1(x, first, second, 0)
    ensures Ready2(keys, second, first, keyOf, 0)
  {
    forall b | 0 <= b < |second| ensures keyOf(ElementKey(second[b].0)) !in keys {
      LookupFindsEntry(second, b);
      Recorded1AtStart(ElementKey(second[b].0), first, second);
    }
    forall b, k | 0 <= b < |second| && Lookup(first, second[b].0).Some?
      ensures keyOf(PropertyKey(second[b].0, k)) in keys <==> Lookup(Lookup(first, second[b].0).value, k).Some?
    {
      LookupFindsEntry(second, b);
      Recorded1AtStart(PropertyKey(second[b].0, k), first, second);
    }
  }

  // ---------------------------------------------------------------------------
  // What an empty diff means.

  /** The second element holds the property, with a value equal ignoring case. */
  predicate MatchingValue(key: string, value: string, others: Properties) {
    match Lookup(others, key)
    case None => false
    case Some(otherValue) => EqualsIgnoreCase(value, otherValue)
  }

  /** The second state holds the element, with every property of `p` matching. */
  predicate SameElement<I(==)>(id: I, p: Properties, second: ElementProperties<I>) {
    match Lookup(second, id)
    case None => false
    case Some(others) => forall j :: 0 <= j < |p| ==> MatchingValue(p[j].0, p[j].1, others)
  }

  /** The first state holds the element, with every property name of `q`. */
  predicate CoveredBy<I(==)>(id: I, q: Properties, first: ElementProperties<I>) {
    match Lookup(first, id)
    case None => false
    case Some(p) => forall j :: 0 <= j < |q| ==> Lookup(p, q[j].0).Some?
  }

  /** The two states hold the same elements with the same property names, and their
      values agree ignoring case. */
  predicate SameElements<I(==)>(first: ElementProperties<I>, second: ElementProperties<I>) {
    (forall a :: 0 <= a < |first| ==> SameElement(first[a].0, first[a].1, second))
    && (forall b :: 0 <= b < |second| ==> CoveredBy(second[b].0, second[b].1, first))
  }

  lemma {:induction false} Props1Empty<I(!new)>(id: I, p: Properties, others: Properties, j: nat)
    requires j <= |p|
    ensures Props1(id, p, others, j) == [] <==> forall j' :: j <= j' < |p| ==> MatchingValue(p[j'].0, p[j'].1, others)
    decreases |p| - j
  {
    if j < |p| {
      Props1Empty(id, p, others, j + 1);
      var here := Prop1(id, p[j].0, p[j].1, others);
      assert Props1(id, p, others, j) == here + Props1(id, p, others, j + 1);
      assert here == [] <==> MatchingValue(p[j].0, p[j].1, others);
    }
  }

  lemma Element1Empty<I(!new)>(id: I, p: Properties, second: ElementProperties<I>)
    ensures Element1(id, p, second) == [] <==> SameElement(id, p, second)
  {
    match Lookup(second, id)
    case None =>
    case Some(others) => Props1Empty(id, p, others, 0);
  }

  lemma Element2Empty<I(!new)>(id: I, q: Properties, first: ElementProperties<I>)
    ensures Element2(id, q, first) == [] <==> CoveredBy(id, q, first)
  {
    match Lookup(first, id)
    case None =>
    case Some(p) => Props2Empty<I>(q, p, 0);
  }

  lemma {:induction false} Pass1Empty<I(!new)>(first: ElementProperties<I>, second: ElementProperties<I>, i: nat)
    requires i <= |first|
    ensures Pass1(first, second, i) == [] <==> forall a :: i <= a < |first| ==> SameElement(first[a].0, first[a].1, second)
    decreases |first| - i
  {
    if i < |first| {
      Pass1Empty(first, second, i + 1);
      Element1Empty(first[i].0, first[i].1, second);
      var here := Element1(first[i].0, first[i].1, second);
      var rest := Pass1(first, second, i + 1);
      assert Pass1(first, second, i) == here + rest;
      if here == [] && rest == [] {
        forall a | i <= a < |first| ensures SameElement(first[a].0, first[a].1, second) {
          if a > i {
            assert i + 1 <= a < |first|;
          }
        }
      } else if here != [] {
        assert |here + rest| > 0;
        assert !SameElement(first[i].0, first[i].1, second);
      } else {
        assert |here + rest| > 0;
        var a :| i + 1 <= a < |first| && !SameElement(first[a].0, first[a].1, second);
      }
    }
  }

  lemma {:induction false} Props2Empty<I(!new)>(q: Properties, p: Properties, j: nat)
    requires j <= |q|
    ensures Props2<I>(q, p, j) == [] <==> forall j' :: j <= j' < |q| ==> Lookup(p, q[j'].0).Some?
    decreases |q| - j
  {
    if j < |q| {
      Props2Empty<I>(q, p, j + 1);
      var here := Prop2<I>(q[j].0, q[j].1, p);
      assert Props2<I>(q, p, j) == here + Props2<I>(q, p, j + 1);
      assert here == [] <==> Lookup(p, q[j].0).Some?;
    }
  }

  lemma {:induction false} Pass2Empty<I(!new)>(second: ElementProperties<I>, first: ElementProperties<I>, i: nat)
    requires i <= |second|
    ensures Pass2(second, first, i) == [] <==> forall b :: i <= b < |second| ==> CoveredBy(second[b].0, second[b].1, first)
    decreases |second| - i
  {
    if i < |second| {
      Pass2Empty(second, first, i + 1);
      Element2Empty(second[i].0, second[i].1, first);
      var here := Element2(second[i].0, second[i].1, first);
      var rest := Pass2(second, first, i + 1);
      assert Pass2(second, first, i) == here + rest;
      if here == [] && rest == [] {
        forall b | i <= b < |second| ensures CoveredBy(second[b].0, second[b].1, first) {
          if b > i {
            assert i + 1 <= b < |second|;
          }
        }
      } else if here != [] {
        assert |here + rest| > 0;
        assert !CoveredBy(second[i].0, second[i].1, first);
      } else {
        assert |here + rest| > 0;
        var b :| i + 1 <= b < |second| && !CoveredBy(second[b].0, second[b].1, first);
      }
    }
  }

  /** The reference diff is empty exactly when the states hold the same elements. */
  lemma ReferenceDiffEmpty<I(!new)>(first: ElementProperties<I>, second: ElementProperties<I>)
    ensures ReferenceDiff(first, second) == [] <==> SameElements(first, second)
  {
    Pass1Empty(first, second, 0);
    Pass2Empty(second, first, 0);
  }

  /** A state holds the same elements as itself, so it has no differences with itself. */
  lemma SameElementsReflexive<I(!new)>(s: ElementProperties<I>)
    requires WellFormed(s)
    ensures SameElements(s, s)
    ensures ReferenceDiff(s, s) == []
  {
    forall a | 0 <= a < |s| ensures SameElement(s[a].0, s[a].1, s) && CoveredBy(s[a].0, s[a].1, s) {
      LookupFindsEntry(s, a);
      forall j | 0 <= j < |s[a].1| ensures MatchingValue(s[a].1[j].0, s[a].1[j].1, s[a].1) {
        LookupFindsEntry(s[a].1, j);
        EqualsIgnoreCaseReflexive(s[a].1[j].1);
      }
    }
    ReferenceDiffEmpty(s, s);
  }

  // ---------------------------------------------------------------------------
  // Each element is reported missing at most once.

  predicate MissingOnce<I(==)>(ds: seq<ElementDifference<I>>) {
    forall n, m :: 0 <= n < m < |ds| && ds[n].MissingElement? && ds[m].MissingElement? ==>
      ds[n].identifier != ds[m].identifier
  }

  lemma ConcatMissingOnce<I>(xs: seq<ElementDifference<I>>, ys: seq<ElementDifference<I>>)
    requires MissingOnce(xs) && MissingOnce(ys)
    requires forall n, m :: 0 <= n < |xs| && 0 <= m < |ys| && xs[n].MissingElement? && ys[m].MissingElement? ==>
               xs[n].identifier != ys[m].identifier
    ensures MissingOnce(xs + ys)
  {
    var zs := xs + ys;
    forall n, m | 0 <= n < m < |zs| && zs[n].MissingElement? && zs[m].MissingElement?
      ensures zs[n].identifier != zs[m].identifier
    {
      if m < |xs| {
        assert zs[n] == xs[n] && zs[m] == xs[m];
      } else if n < |xs| {
        assert zs[n] == xs[n] && zs[m] == ys[m - |xs|];
      } else {
        assert zs[n] == ys[n - |xs|] && zs[m] == ys[m - |xs|];
      }
    }
  }

  lemma {:induction false} Props1NoMissing<I(!new)>(id: I, p: Properties, others: Properties, j: nat)
    requires j <= |p|
    ensures forall n :: 0 <= n < |Props1(id, p, others, j)| ==> !Props1(id, p, others, j)[n].MissingElement?
    decreases |p| - j
  {
    if j < |p| {
      Props1NoMissing(id, p, others, j + 1);
    }
  }

  lemma {:induction false} Props2NoMissing<I(!new)>(q: Properties, p: Properties, j: nat)
    requires j <= |q|
    ensures forall n :: 0 <= n < |Props2<I>(q, p, j)| ==> !Props2<I>(q, p, j)[n].MissingElement?
    decreases |q| - j
  {
    if j < |q| {
      Props2NoMissing<I>(q, p, j + 1);
    }
  }

  /** The identifiers of `s` from position `i` on. */
  function IdsFrom<I>(s: ElementProperties<I>, i: nat): set<I>
    requires i <= |s|
    decreases |s| - i
  {
    if i == |s| then {} else {s[i].0} + IdsFrom(s, i + 1)
  }

  /** With unique identifiers, an entry's identifier does not occur after it. */
  lemma {:induction false} IdsFromAfter<I>(s: ElementProperties<I>, i: nat, j: nat)
    requires i < j <= |s| && DistinctKeys(s)
    ensures s[i].0 !in IdsFrom(s, j)
    decreases |s| - j
  {
    if j < |s| {
      assert s[i].0 != s[j].0;
      IdsFromAfter(s, i, j + 1);
    }
  }

  /** An identifier of the state is found by a lookup. */
  lemma {:induction false} IdsFromFound<I>(s: ElementProperties<I>, i: nat, x: I)
    requires i <= |s|
    ensures x in IdsFrom(s, i) ==> Lookup(s, x).Some?
    decreases |s| - i
  {
    if i < |s| {
      IdsFromFound(s, i + 1, x);
      if x == s[i].0 {
        assert s[i].0 == x;
      }
    }
  }

  /** Every element `ds` reports missing is one of `ids`. */
  predicate MissingAmong<I(==)>(ds: seq<ElementDifference<I>>, ids: set<I>) {
    forall n :: 0 <= n < |ds| && ds[n].MissingElement? ==> ds[n].identifier in ids
  }

  lemma ConcatMissingAmong<I>(xs: seq<ElementDifference<I>>, ys: seq<ElementDifference<I>>, ids: set<I>)
    requires MissingAmong(xs, ids) && MissingAmong(ys, ids)
    ensures MissingAmong(xs + ys, ids)
  {
    forall n | 0 <= n < |xs + ys| && (xs + ys)[n].MissingElement? ensures (xs + ys)[n].identifier in ids {
      if n < |xs| {
        assert (xs + ys)[n] == xs[n];
      } else {
        assert (xs + ys)[n] == ys[n - |xs|];
      }
    }
  }

  /** Forward, one element: it reports at most itself missing, and only when the second
      state lacks it. */
  lemma Element1Missing<I(!new)>(id: I, p: Properties, second: ElementProperties<I>)
    ensures MissingOnce(Element1(id, p, second))
    ensures MissingAmong(Element1(id, p, second), {id})
    ensures Lookup(second, id).Some? ==> MissingAmong(Element1(id, p, second), {})
  {
    match Lookup(second, id)
    case None =>
    case Some(others) => Props1NoMissing(id, p, others, 0);
  }

  /** Backward, one element: it reports at most itself missing. */
  lemma Element2Missing<I(!new)>(id: I, q: Properties, first: ElementProperties<I>)
    ensures MissingOnce(Element2(id, q, first))
    ensures MissingAmong(Element2(id, q, first), {id})
  {
    match Lookup(first, id)
    case None =>
    case Some(p) => Props2NoMissing<I>(q, p, 0);
  }

  /** The forward pass reports missing only elements of the first state that the second
      state lacks. */
  lemma {:induction false} Pass1Reports<I(!new)>(first: ElementProperties<I>, second: ElementProperties<I>, i: nat)
    requires i <= |first|
    ensures MissingAmong(Pass1(first, second, i), IdsFrom(first, i) - IdsFrom(second, 0))
    decreases |first| - i
  {
    if i < |first| {
      var ids := IdsFrom(first, i) - IdsFrom(second, 0);
      var here := Element1(first[i].0, first[i].1, second);
      var rest := Pass1(first, second, i + 1);
      Pass1Reports(first, second, i + 1);
      Element1Among(first[i].0, first[i].1, second, ids);
      MissingAmongSubset(rest, IdsFrom(first, i + 1) - IdsFrom(second, 0), ids);
      ConcatMissingAmong(here, rest, ids);
      assert Pass1(first, second, i) == here + rest;
    }
  }

  /** Forward, one element: what it reports missing is among any identifiers holding it
      whenever the second state lacks it. */
  lemma Element1Among<I(!new)>(id: I, p: Properties, second: ElementProperties<I>, ids: set<I>)
    requires id !in IdsFrom(second, 0) ==> id in ids
    ensures MissingAmong(Element1(id, p, second), ids)
  {
    Element1Missing(id, p, second);
    IdsFromFound(second, 0, id);
  }

  lemma MissingAmongSubset<I>(ds: seq<ElementDifference<I>>, ids: set<I>, ids': set<I>)
    requires MissingAmong(ds, ids) && ids <= ids'
    ensures MissingAmong(ds, ids')
  {
  }

  /** The backward pass reports missing only elements of the second state. */
  lemma {:induction false} Pass2Reports<I(!new)>(second: ElementProperties<I>, first: ElementProperties<I>, i: nat)
    requires i <= |second|
    ensures MissingAmong(Pass2(second, first, i), IdsFrom(second, i))
    decreases |second| - i
  {
    if i < |second| {
      var here := Element2(second[i].0, second[i].1, first);
      var rest := Pass2(second, first, i + 1);
      Pass2Reports(second, first, i + 1);
      Element2Missing(second[i].0, second[i].1, first);
      assert MissingAmong(rest, IdsFrom(second, i));
      ConcatMissingAmong(here, rest, IdsFrom(second, i));
      assert Pass2(second, first, i) == here + rest;
    }
  }

  /** The forward pass reports each element missing at most once. */
  lemma {:induction false} Pass1MissingOnce<I(!new)>(first: ElementProperties<I>, second: ElementProperties<I>, i: nat)
    requires i <= |first| && DistinctKeys(first)
    ensures MissingOnce(Pass1(first, second, i))
    decreases |first| - i
  {
    if i < |first| {
      var here := Element1(first[i].0, first[i].1, second);
      var rest := Pass1(first, second, i + 1);
      Pass1MissingOnce(first, second, i + 1);
      Pass1Reports(first, second, i + 1);
      Element1Missing(first[i].0, first[i].1, second);
      IdsFromAfter(first, i, i + 1);
      forall n, m | 0 <= n < |here| && 0 <= m < |rest| && here[n].MissingElement? && rest[m].MissingElement?
        ensures here[n].identifier != rest[m].identifier
      {
        assert here[n].identifier == first[i].0;
        assert rest[m].identifier in IdsFrom(first, i + 1);
      }
      ConcatMissingOnce(here, rest);
      assert Pass1(first, second, i) == here + rest;
    }
  }

  /** The backward pass reports each element missing at most once. */
  lemma {:induction false} Pass2MissingOnce<I(!new)>(second: ElementProperties<I>, first: ElementProperties<I>, i: nat)
    requires i <= |second| && DistinctKeys(second)
    ensures MissingOnce(Pass2(second, first, i))
    decreases |second| - i
  {
    if i < |second| {
      var here := Element2(second[i].0, second[i].1, first);
      var rest := Pass2(second, first, i + 1);
      Pass2MissingOnce(second, first, i + 1);
      Pass2Reports(second, first, i + 1);
      Element2Missing(second[i].0, second[i].1, first);
      IdsFromAfter(second, i, i + 1);
      forall n, m | 0 <= n < |here| && 0 <= m < |rest| && here[n].MissingElement? && rest[m].MissingElement?
        ensures here[n].identifier != rest[m].identifier
      {
        assert here[n].identifier == second[i].0;
        assert rest[m].identifier in IdsFrom(second, i + 1);
      }
      ConcatMissingOnce(here, rest);
      assert Pass2(second, first, i) == here + rest;
    }
  }

  /** Over the whole diff, each identifier is reported missing at most once: the forward
      pass names identifiers the second state lacks, the backward pass identifiers it holds. */
  lemma ReferenceMissingOnce<I(!new)>(first: ElementProperties<I>, second: ElementProperties<I>)
    requires WellFormed(first) && WellFormed(second)
    ensures MissingOnce(ReferenceDiff(first, second))
  {
    var forward := Pass1(first, second, 0);
    var backward := Pass2(second, first, 0);
    Pass1MissingOnce(first, second, 0);
    Pass2MissingOnce(second, first, 0);
    Pass1Reports(first, second, 0);
    Pass2Reports(second, first, 0);
    forall n, m | 0 <= n < |forward| && 0 <= m < |backward| && forward[n].MissingElement? && backward[m].MissingElement?
      ensures forward[n].identifier != backward[m].identifier
    {
      assert forward[n].identifier !in IdsFrom(second, 0);
      assert backward[m].identifier in IdsFrom(second, 0);
    }
    ConcatMissingOnce(forward, backward);
  }

  // ---------------------------------------------------------------------------
  // The methods.

  /** `diffOneWay`: appends to the differences and the diff keys, as the fold does. */
  method DiffOneWay<I(==,!new), K(==)>(thisState: ElementProperties<I>, otherState: ElementProperties<I>, leftToRight: bool,
                                    keyOf: DiffKey<I> -> K, stateDiff: seq<ElementDifference<I>>, diffKeys: set<K>)
    returns (newStateDiff: seq<ElementDifference<I>>, newDiffKeys: set<K>)
    ensures Recorded(newStateDiff, newDiffKeys) == OneWay(thisState, otherState, leftToRight, keyOf, Recorded(stateDiff, diffKeys), 0)
  {
    newStateDiff, newDiffKeys := stateDiff, diffKeys;
    for i := 0 to |thisState|
      invariant OneWay(thisState, otherState, leftToRight, keyOf, Recorded(newStateDiff, newDiffKeys), i)
                == OneWay(thisState, otherState, leftToRight, keyOf, Recorded(stateDiff, diffKeys), 0)
    {
      var identifier := thisState[i].0;
      var theseProperties := thisState[i].1;
      var otherProperties := Lookup(otherState, identifier);
      var diffKey := keyOf(ElementKey(identifier));
      if diffKey !in newDiffKeys {
        if otherProperties.None? {
          if leftToRight {
            newStateDiff := newStateDiff + [MissingElement(identifier, Some(theseProperties), None)];
          } else {
            newStateDiff := newStateDiff + [MissingElement(identifier, None, Some(theseProperties))];
          }
          newDiffKeys := newDiffKeys + {diffKey};
        } else {
          var others := otherProperties.value;
          ghost var before := Recorded(newStateDiff, newDiffKeys);
          for j := 0 to |theseProperties|
            invariant PropertiesFold(identifier, theseProperties, others, leftToRight, keyOf, Recorded(newStateDiff, newDiffKeys), j)
                      == PropertiesFold(identifier, theseProperties, others, leftToRight, keyOf, before, 0)
          {
            var key := theseProperties[j].0;
            var value := theseProperties[j].1;
            var otherValue := Lookup(others, key);
            var propertyKey := keyOf(PropertyKey(identifier, key));
            if propertyKey !in newDiffKeys {
              newDiffKeys := newDiffKeys + {propertyKey};
              if otherValue.None? {
                if leftToRight {
                  newStateDiff := newStateDiff + [PropertyValueDifference(None, key, Some(value), None)];
                } else {
                  newStateDiff := newStateDiff + [PropertyValueDifference(None, key, None, Some(value))];
                }
              } else if !EqualsIgnoreCase(value, otherValue.value) {
                newStateDiff := newStateDiff + [PropertyValueDifference(Some(identifier), key, Some(value), Some(otherValue.value))];
              }
            }
          }
        }
      }
    }
  }

  /** `diff`: a state whose class name differs, ignoring case, throws; otherwise both
      passes run, sharing the diff keys. With keys that tell elements and properties
      apart, the result is exactly the reference differences, and it is empty exactly
      when the states hold the same elements. */
  method Diff<I(==,!new), K(==)>(className: string, elementProperties: ElementProperties<I>,
                                 otherClassName: string, otherElementProperties: ElementProperties<I>,
                                 keyOf: DiffKey<I> -> K)
    returns (r: Result<seq<ElementDifference<I>>, StateDifferences.StateError>)
    ensures !EqualsIgnoreCase(otherClassName, className) <==> r == Failure(StateDifferences.InvalidStateClass)
    ensures EqualsIgnoreCase(otherClassName, className) ==> r.Success?
    ensures r.Success? ==> r.value == DiffWith(elementProperties, otherElementProperties, keyOf)
    ensures r.Success? && Injective(keyOf) && WellFormed(elementProperties) && WellFormed(otherElementProperties) ==>
              r.value == ReferenceDiff(elementProperties, otherElementProperties)
              && (r.value == [] <==> SameElements(elementProperties, otherElementProperties))
  {
    if !EqualsIgnoreCase(otherClassName, className) {
      return Failure(StateDifferences.InvalidStateClass);
    }
    var stateDiff, diffKeys := DiffOneWay(elementProperties, otherElementProperties, true, keyOf, [], {});
    stateDiff, diffKeys := DiffOneWay(otherElementProperties, elementProperties, false, keyOf, stateDiff, diffKeys);
    r := Success(stateDiff);
    if Injective(keyOf) && WellFormed(elementProperties) && WellFormed(otherElementProperties) {
      DiffWithIsReference(elementProperties, otherElementProperties, keyOf);
      ReferenceDiffEmpty(elementProperties, otherElementProperties);
    }
  }

  /** The object `equals` is handed: an ElementsState (of some class), or anything else. */
  datatype Candidate<I> =
    | ElementsStateObject(className: string, elementProperties: ElementProperties<I>)
    | OtherObject

  /** `equals`: the same object is equal; an object that is no ElementsState is not;
      otherwise the diff decides, and throws when the class names differ. */
  method Equals<I(==,!new), K(==)>(className: string, elementProperties: ElementProperties<I>,
                                   other: Candidate<I>, sameObject: bool, keyOf: DiffKey<I> -> K)
    returns (r: Result<bool, StateDifferences.StateError>)
    ensures sameObject ==> r == Success(true)
    ensures !sameObject && other.OtherObject? ==> r == Success(false)
    ensures !sameObject && other.ElementsStateObject? ==>
              (r.Failure? <==> !EqualsIgnoreCase(other.className, className))
              && (r.Success? ==> (r.value <==> DiffWith(elementProperties, other.elementProperties, keyOf) == []))
    ensures !sameObject && other.ElementsStateObject? && r.Success?
            && Injective(keyOf) && WellFormed(elementProperties) && WellFormed(other.elementProperties) ==>
              (r.value <==> SameElements(elementProperties, other.elementProperties))
  {
    if sameObject {
      return Success(true);
    }
    if other.OtherObject? {
      return Success(false);
    }
    var d := Diff(className, elementProperties, other.className, other.elementProperties, keyOf);
    if d.Failure? {
      return Failure(d.error);
    }
    return Success(d.value == []);
  }

  // ---------------------------------------------------------------------------
  // The keys as written collide; structured keys do not.

  /** With the identifier's text as the key, an element named "xk" shares its key with
      property "k" of element "x": once that property is recorded, the missing element
      "xk" is never reported, although the states differ. */
  lemma TextKeysHideMissingElement()
    ensures var render := (x: string) => "xpath=" + x;
            var first := [("x", [("k", "v")])];
            var second := [("x", [("k", "v")]), ("xk", [])];
            DiffWith(first, second, TextKey(render)) == []
            && ReferenceDiff(first, second) == [MissingElement("xk", None, Some([]))]
            && !SameElements(first, second)
  {
    var render := (x: string) => "xpath=" + x;
    var keyOf := TextKey(render);
    var first: ElementProperties<string> := [("x", [("k", "v")])];
    var second: ElementProperties<string> := [("x", [("k", "v")]), ("xk", [])];
    EqualsIgnoreCaseReflexive("v");
    assert Lookup(second, "x") == Some([("k", "v")]);
    assert Lookup(first, "x") == Some([("k", "v")]);
    assert Lookup(first, "xk") == None;
    assert keyOf(ElementKey("xk")) == keyOf(PropertyKey("x", "k"));
    ReferenceDiffEmpty(first, second);
  }

  /** The structured key names the identifier and the property separately. */
  function StructuredKey<I>(x: DiffKey<I>): DiffKey<I> {
    x
  }

  /** With structured keys, the diff is exactly the reference differences: every element
      one state lacks is reported, once, and the diff is empty exactly when the states
      hold the same elements; a state has no differences with itself. */
  lemma StructuredKeysReportEverything<I(!new)>(first: ElementProperties<I>, second: ElementProperties<I>)
    requires WellFormed(first) && WellFormed(second)
    ensures DiffWith(first, second, StructuredKey) == ReferenceDiff(first, second)
    ensures MissingOnce(DiffWith(first, second, StructuredKey))
    ensures DiffWith(first, second, StructuredKey) == [] <==> SameElements(first, second)
    ensures DiffWith(first, first, StructuredKey) == []
  {
    DiffWithIsReference(first, second, StructuredKey);
    DiffWithIsReference(first, first, StructuredKey);
    ReferenceMissingOnce(first, second);
    ReferenceDiffEmpty(first, second);
    SameElementsReflexive(first);
  }
}

/** The differences the state classes report, the states themselves, and the text of a
    missing-property difference. */
module StateDifferences {
  import opened Wrappers
  import opened Identifiers
  import opened Json

  /** A compared value: a count or a JSON value. */
  datatype DiffValue = IntValue(count: int) | JsonData(json: JsonValue)

  datatype StateDifference =
    /** An element present in one state only; the side without it holds null. */
    | MissingWebElement(identifier: Identifier, first: Option<Identifier>, second: Option<Identifier>)
    /** A property whose two values differ. */
    | PropertyValue(element: Option<Identifier>, property: string, firstValue: DiffValue, secondValue: DiffValue)
    /** A property present in one state only; the side without it holds null. */
    | MissingProperty(property: string, firstState: Option<JsonValue>, secondState: Option<JsonValue>)

  /** The states the explorer compares: the identifiers a selector picked, a count of
      elements, or the JSON object a state checker returned. */
  datatype State =
    | SelectedElementsState(identifiers: set<Identifier>)
    | CountOfElementsState(numElements: int)
    | JsonObjectState(json: seq<(string, JsonValue)>)

  /** The exceptions a diff can throw. */
  datatype StateError = InvalidStateClass | NullPointer

  /** `formatFirstValue` and `formatSecondValue`: "null" for an absent value, otherwise
      the value's own text. */
  function FormatValue(v: Option<JsonValue>, show: JsonValue -> string): (r: string)
    ensures v.Some? ==> r == show(v.value)
    ensures v.None? ==> r == "null"
  {
    if v.Some? then show(v.value) else "null"
  }

  /** `formatDifference`, which `toString` returns as well. */
  function FormatMissingProperty(property: string, first: Option<JsonValue>, second: Option<JsonValue>,
                                 show: JsonValue -> string): string
  {
    "DiffKey:prop-" + property + " V1:" + FormatValue(first, show) + " V2:" + FormatValue(second, show)
  }

  /** The property name is the text between the fixed prefix and the first space, so
      a name without spaces can be read back from the formatted difference. */
  lemma FormatStartsWithProperty(property: string, first: Option<JsonValue>, second: Option<JsonValue>,
                                 show: JsonValue -> string)
    ensures var s := FormatMissingProperty(property, first, second, show);
            |s| > 13 + |property| && s[..13] == "DiffKey:prop-" && s[13..13 + |property|] == property
            && s[13 + |property|] == ' '
  {
    var s := FormatMissingProperty(property, first, second, show);
    var rest := " V1:" + FormatValue(first, show) + " V2:" + FormatValue(second, show);
    assert s == "DiffKey:prop-" + property + rest;
  }

  /** Two formatted differences whose property names hold no space are equal only if
      their property names are. */
  lemma FormatDeterminesProperty(p1: string, a1: Option<JsonValue>, b1: Option<JsonValue>,
                                 p2: string, a2: Option<JsonValue>, b2: Option<JsonValue>,
                                 show: JsonValue -> string)
    requires ' ' !in p1 && ' ' !in p2
    requires FormatMissingProperty(p1, a1, b1, show) == FormatMissingProperty(p2, a2, b2, show)
    ensures p1 == p2
  {
    var s := FormatMissingProperty(p1, a1, b1, show);
    FormatStartsWithProperty(p1, a1, b1, show);
    FormatStartsWithProperty(p2, a2, b2, show);
    if |p1| != |p2| {
      assert false;
    }
  }

  /** The formatting of the difference in the class's unit test. */
  lemma MissingPropertyExample()
    ensures FormatMissingProperty("xpath=//div/a[1]", Some(JString("first")), Some(JString("second")),
                                  (v: JsonValue) => if v.JString? then v.str else "")
            == "DiffKey:prop-xpath=//div/a[1] V1:first V2:second"
  {
  }
}

/** Web elements as the explorer sees them through WebDriver, and the identifiers it
    gives them so that an element can be found again on a later page load. */
module Identifiers {
  import opened Wrappers

  /** Whether an index counts among the actionable or among the stateful elements. */
  datatype IndexBasis = Actionable | Stateful

  /** The identifier kinds; `frame` is the frame identifier, absent for the top-level
      document. */
  datatype Identifier =
    | IdIdentifier(id: string, frame: Option<string>)
    | NameIdentifier(name: string, frame: Option<string>)
    | TagIndexIdentifier(frame: Option<string>, tagName: string, index: int, basis: IndexBasis)
    | ClassIndexIdentifier(frame: Option<string>, className: string, index: int, basis: IndexBasis)
    | IndexIdentifier(index: int, frame: Option<string>, basis: IndexBasis)
    | XpathIdentifier(xpath: string, frame: Option<string>)

  /** An element as WebDriver reports it: its tag name, its attributes, its visible
      text, whether it is displayed and enabled, and the number of options it holds
      when it is a select box. */
  datatype Element = Element(
    tagName: string,
    attributes: map<string, string>,
    text: string,
    displayed: bool,
    enabled: bool,
    optionCount: nat)

  /** `getAttribute`: null for an attribute the element does not carry. */
  function GetAttribute(e: Element, name: string): Option<string> {
    if name in e.attributes then Some(e.attributes[name]) else None
  }

  /** A value that is neither null nor the empty string. */
  predicate NonEmpty(v: Option<string>) {
    v.Some? && |v.value| > 0
  }

  /** An element together with the identifier it was found under. */
  datatype ElementWithIdentifier = ElementWithIdentifier(element: Element, identifier: Identifier)
}

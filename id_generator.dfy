/** WebElementIdGenerator: the priority chain that picks the most stable identifier an
    element offers (id, then name, then tag and index for form controls, then class and
    index, then the bare index). */
module IdGenerator {
  import opened Wrappers
  import opened Identifiers

  /** Form controls are identified by their index among elements of the same tag. */
  function IsFormElement(e: Element): (r: bool)
    ensures r <==> e.tagName in {"input", "button", "textarea", "select"}
  {
    if e.tagName == "input" || e.tagName == "button" || e.tagName == "textarea" || e.tagName == "select" then
      true
    else
      false
  }

  /** `generateIdentifier`. */
  function GenerateIdentifier(elementIndex: int, e: Element, frame: Option<string>, basis: IndexBasis): (r: Identifier)
    ensures r.frame == frame && !r.XpathIdentifier?
    ensures r.IdIdentifier? <==> NonEmpty(GetAttribute(e, "id"))
    ensures r.IdIdentifier? ==> Some(r.id) == GetAttribute(e, "id")
    ensures r.NameIdentifier? <==> !NonEmpty(GetAttribute(e, "id")) && NonEmpty(GetAttribute(e, "name"))
    ensures r.NameIdentifier? ==> Some(r.name) == GetAttribute(e, "name")
    ensures r.TagIndexIdentifier? <==>
              !NonEmpty(GetAttribute(e, "id")) && !NonEmpty(GetAttribute(e, "name")) && IsFormElement(e)
    ensures r.TagIndexIdentifier? ==> r.tagName == e.tagName
    ensures r.ClassIndexIdentifier? <==>
              !NonEmpty(GetAttribute(e, "id")) && !NonEmpty(GetAttribute(e, "name")) && !IsFormElement(e)
              && NonEmpty(GetAttribute(e, "class"))
    ensures r.ClassIndexIdentifier? ==> Some(r.className) == GetAttribute(e, "class")
    ensures (r.TagIndexIdentifier? || r.ClassIndexIdentifier? || r.IndexIdentifier?) ==>
              r.index == elementIndex && r.basis == basis
  {
    var id := GetAttribute(e, "id");
    if id.Some? && |id.value| > 0 then IdIdentifier(id.value, frame)
    else
      var name := GetAttribute(e, "name");
      if name.Some? && |name.value| > 0 then NameIdentifier(name.value, frame)
      else if IsFormElement(e) then TagIndexIdentifier(frame, e.tagName, elementIndex, basis)
      else
        var className := GetAttribute(e, "class");
        if className.Some? && |className.value| > 0 then
          ClassIndexIdentifier(frame, className.value, elementIndex, basis)
        else IndexIdentifier(elementIndex, frame, basis)
  }

  /** The identifier depends only on the id, name and class attributes and the tag:
      text, visibility and every other attribute leave it unchanged. */
  lemma IdentifierIgnoresOtherProperties(i: int, e1: Element, e2: Element, frame: Option<string>, basis: IndexBasis)
    requires e1.tagName == e2.tagName
    requires GetAttribute(e1, "id") == GetAttribute(e2, "id")
    requires GetAttribute(e1, "name") == GetAttribute(e2, "name")
    requires GetAttribute(e1, "class") == GetAttribute(e2, "class")
    ensures GenerateIdentifier(i, e1, frame, basis) == GenerateIdentifier(i, e2, frame, basis)
  {
  }
}

/** The injected script getAllElementsProperties: a pre-order walk of the page that
    writes one `<element>` block per node whose locator is longer than one character. */
module ElementProperties {
  import opened Wrappers
  import opened Strings
  import opened Dom
  import opened XPathBuilder

  /** The `propertiesMap` binding: absent (undefined or null) or an object whose
      enumerable properties are listed. */
  type Filter = Option<map<string, string>>

  /** `isEmpty`: the object has no enumerable property. */
  function IsEmpty(ob: map<string, string>): (r: bool)
    ensures r <==> forall k :: k !in ob
  {
    if |ob| == 0 then true
    else
      var k :| k in ob;
      false
  }

  /** The script's filter test skips an attribute only when the filter is present and
      non-empty and its own `name` property is the string "undefined". */
  predicate SkipsAttributes(f: Filter) {
    f.Some? && !IsEmpty(f.value) && "name" in f.value && f.value["name"] == "undefined"
  }

  /** `s.replace(/"/g, "")`. */
  function RemoveQuotes(s: string): (r: string)
    ensures '"' !in r
    ensures '"' !in s ==> r == s
  {
    if s == [] then []
    else
      assert s == [s[0]] + s[1..];
      (if s[0] == '"' then [] else [s[0]]) + RemoveQuotes(s[1..])
  }

  /** `escapeDoubleQuote`: strings lose their quotes; anything else (here: undefined) is
      returned unchanged. */
  function EscapeDoubleQuote(v: Option<string>): (r: Option<string>)
    ensures v.None? ==> r.None?
    ensures v.Some? ==> r.Some? && '"' !in r.value && |r.value| <= |v.value|
  {
    match v
    case None => None
    case Some(s) =>
      assert |RemoveQuotes(s)| <= |s| by { RemoveQuotesShortens(s); }
      Some(RemoveQuotes(s))
  }

  /** Removing the quotes keeps every other character, as often as it occurred. */
  lemma {:induction false} RemoveQuotesKeepsOthers(s: string, c: char)
    requires c != '"'
    ensures multiset(RemoveQuotes(s))[c] == multiset(s)[c]
  {
    if s != [] {
      RemoveQuotesKeepsOthers(s[1..], c);
      assert s == [s[0]] + s[1..];
    }
  }

  lemma {:induction false} RemoveQuotesShortens(s: string)
    ensures |RemoveQuotes(s)| <= |s|
  {
    if s != [] {
      RemoveQuotesShortens(s[1..]);
    }
  }

  /** A value as string concatenation renders it: `undefined` for an absent one. */
  function JsText(v: Option<string>): string {
    if v.Some? then v.value else "undefined"
  }

  /** The synthetic tagName attribute. */
  function TagNameAttribute(node: Node): string {
    "<attribute tagName=\"" + JsText(EscapeDoubleQuote(node.tagName)) + "\" />"
  }

  /** The synthetic nodeValue attribute, present only for a non-null, non-blank value. */
  function NodeValueAttribute(node: Node): (r: string)
    ensures r == "" <==> node.nodeValue.None? || IsBlank(node.nodeValue.value)
  {
    if node.nodeValue.Some? && !IsBlank(node.nodeValue.value) then
      "<attribute nodeValue=\"" + RemoveQuotes(node.nodeValue.value) + "\" />"
    else ""
  }

  /** One `<attribute NAME="VALUE" />` element, or nothing when the filter test skips it. */
  function AttributeXml(a: Attribute, f: Filter): string {
    if SkipsAttributes(f) then "" else "<attribute " + a.name + "=\"" + RemoveQuotes(a.value) + "\" />"
  }

  /** The attribute elements of a node, in attribute order. */
  function AttributesXml(attrs: seq<Attribute>, f: Filter): string {
    if attrs == [] then ""
    else AttributesXml(attrs[..|attrs| - 1], f) + AttributeXml(attrs[|attrs| - 1], f)
  }

  /** A node's own block: nothing when its locator has at most one character. */
  function Block(d: Document, n: nat, f: Filter): (r: Result<string, ScriptError>)
    requires WellFormed(d) && n < |d|
  {
    match XPath(d, n)
    case Failure(e) => Failure(e)
    case Success(xpath) =>
      if |xpath| > 1 then
        Success("<element>" + "<xpath>" + xpath + "</xpath>" + TagNameAttribute(d[n])
                + NodeValueAttribute(d[n]) + AttributesXml(d[n].attributes, f) + "</element>")
      else Success("")
  }

  /** String concatenation of two script results; the first failure is the one thrown. */
  function Concat(a: Result<string, ScriptError>, b: Result<string, ScriptError>): Result<string, ScriptError> {
    if a.Failure? then a else if b.Failure? then b else Success(a.value + b.value)
  }

  /** `getElementProperties(n)`: the node's block, then its children's output in order. */
  function Serialize(d: Document, n: nat, f: Filter): Result<string, ScriptError>
    requires WellFormed(d) && n < |d|
    decreases |d| - n, |d[n].children| + 1
  {
    Concat(Block(d, n, f), SerializeChildren(d, n, 0, f))
  }

  /** The output of the children of `p` from position `k` on. */
  function SerializeChildren(d: Document, p: nat, k: nat, f: Filter): Result<string, ScriptError>
    requires WellFormed(d) && p < |d| && k <= |d[p].children|
    decreases |d| - p, |d[p].children| - k
  {
    if k == |d[p].children| then Success("")
    else
      var c := d[p].children[k];
      Concat(Serialize(d, c, f), SerializeChildren(d, p, k + 1, f))
  }

  /** The value the script returns: the blocks of the whole document wrapped in
      `<elements>`; the XML declaration it builds is never part of it. */
  function AllElementsProperties(d: Document, f: Filter): (r: Result<string, ScriptError>)
    requires WellFormed(d) && |d| > 0
    ensures r.Success? ==> |r.value| >= 21 && r.value[..10] == "<elements>"
                           && r.value[|r.value| - 11..] == "</elements>"
  {
    match Serialize(d, 0, f)
    case Failure(e) => Failure(e)
    case Success(blocks) => Success("<elements>" + blocks + "</elements>")
  }

  /** One turn of the child loop: a child that throws ends the output with its failure,
      otherwise its output is appended. */
  lemma ChildStep(d: Document, n: nat, i: nat, f: Filter, acc: string)
    requires WellFormed(d) && n < |d| && i < |d[n].children|
    ensures d[n].children[i] < |d|
    ensures Serialize(d, d[n].children[i], f).Failure? ==>
              Concat(Success(acc), SerializeChildren(d, n, i, f)) == Serialize(d, d[n].children[i], f)
    ensures Serialize(d, d[n].children[i], f).Success? ==>
              Concat(Success(acc), SerializeChildren(d, n, i, f))
              == Concat(Success(acc + Serialize(d, d[n].children[i], f).value), SerializeChildren(d, n, i + 1, f))
  {
    var c := d[n].children[i];
    var here := Serialize(d, c, f);
    var rest := SerializeChildren(d, n, i + 1, f);
    assert SerializeChildren(d, n, i, f) == Concat(here, rest);
    if here.Success? && rest.Success? {
      assert acc + (here.value + rest.value) == (acc + here.value) + rest.value;
    }
  }

  /** The script's loop form of `getElementProperties`. */
  method GetElementProperties(d: Document, n: nat, f: Filter) returns (r: Result<string, ScriptError>)
    requires WellFormed(d) && n < |d|
    ensures r == Serialize(d, n, f)
    decreases |d| - n
  {
    var block := ElementBlock(d, n, f);
    if block.Failure? {
      return block;
    }
    var xmlString := block.value;
    var children := d[n].children;
    assert Serialize(d, n, f) == Concat(block, SerializeChildren(d, n, 0, f));
    for i := 0 to |children|
      invariant Concat(Success(xmlString), SerializeChildren(d, n, i, f)) == Serialize(d, n, f)
    {
      ChildStep(d, n, i, f, xmlString);
      var childXml := GetElementProperties(d, children[i], f);
      if childXml.Failure? {
        return childXml;
      }
      xmlString := xmlString + childXml.value;
    }
    assert xmlString + "" == xmlString;
    return Success(xmlString);
  }

  /** The part of `getElementProperties` before the child loop: the locator, the test on
      its length and the node's attributes. */
  method ElementBlock(d: Document, n: nat, f: Filter) returns (r: Result<string, ScriptError>)
    requires WellFormed(d) && n < |d|
    ensures r == Block(d, n, f)
  {
    var xpath := GetXpathExpression(d, n);
    if xpath.Failure? {
      return Failure(xpath.error);
    }
    assert XPath(d, n) == Success(xpath.value);
    var node := d[n];
    var xmlString := "";
    if |xpath.value| > 1 {
      xmlString := xmlString + "<element>";
      assert xmlString == "<element>";
      xmlString := xmlString + "<xpath>" + xpath.value + "</xpath>";
      var tagName := "<attribute tagName=\"" + JsText(EscapeDoubleQuote(node.tagName)) + "\" />";
      assert tagName == TagNameAttribute(node);
      xmlString := xmlString + tagName;
      var nodeValue := "";
      if node.nodeValue.Some? && !IsBlank(node.nodeValue.value) {
        nodeValue := "<attribute nodeValue=\"" + JsText(EscapeDoubleQuote(node.nodeValue)) + "\" />";
      }
      assert nodeValue == NodeValueAttribute(node);
      xmlString := xmlString + nodeValue;
      var attributesXml := AppendAttributes(node.attributes, f);
      xmlString := xmlString + attributesXml;
      xmlString := xmlString + "</element>";
    }
    return Success(xmlString);
  }

  /** The attribute loop of `getElementProperties`, with the filter test. */
  method AppendAttributes(attributes: seq<Attribute>, f: Filter) returns (xml: string)
    ensures xml == AttributesXml(attributes, f)
  {
    xml := "";
    for i := 0 to |attributes|
      invariant xml == AttributesXml(attributes[..i], f)
    {
      assert attributes[..i + 1][..i] == attributes[..i];
      var attribute := attributes[i];
      var name := attribute.name;
      if f.Some? && !IsEmpty(f.value) && "name" in f.value && f.value["name"] == "undefined" {
        continue;
      }
      var value := attribute.value;
      var piece := "<attribute " + name + "=\"" + JsText(EscapeDoubleQuote(Some(value))) + "\" />";
      assert piece == AttributeXml(attribute, f);
      xml := xml + piece;
    }
    assert attributes[..|attributes|] == attributes;
  }

  /** The script's entry point: walks from the document node and wraps the blocks.
      The XML header the script builds is never used, so it is not built here. */
  method GetAllElementsPropertiesWrapper(d: Document, propertiesMap: Filter) returns (r: Result<string, ScriptError>)
    requires WellFormed(d) && |d| > 0
    ensures r == AllElementsProperties(d, propertiesMap)
  {
    var blocks := GetElementProperties(d, 0, propertiesMap);
    if blocks.Failure? {
      return Failure(blocks.error);
    }
    return Success("<elements>" + blocks.value + "</elements>");
  }
}

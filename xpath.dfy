/** The absolute locator `/TAG[k]/TAG[k]...` that the injected script
    `getXpathExpression` computes for a node (the same function text appears in
    getXpathFromWebElement.js and inside getAllElementsProperties.js). */
module XPathBuilder {
  import opened Wrappers
  import opened Strings
  import opened Dom

  /** The builder's one failure: reading `childNodes` of a missing parent, which
      happens for a tagged node without a parent (a JavaScript TypeError). */
  datatype ScriptError = NullParentNode

  /** A tag that lower-cases to the synthetic root marker "//html". */
  predicate IsRootMarker(tag: Option<string>) {
    tag.Some? && Lower(tag.value) == "//html"
  }

  /** The tag of a sibling, as `siblings[i].tagName` reads it. */
  function TagOf(d: Document, c: nat): Option<string> {
    if c < |d| then d[c].tagName else None
  }

  /** How many of `cs` carry the tag `tag` (the `n.tagName == node.tagName` test). */
  function SameTagCount(d: Document, cs: seq<nat>, tag: string): (k: nat)
    ensures k <= |cs|
  {
    if cs == [] then 0
    else (if TagOf(d, cs[0]) == Some(tag) then 1 else 0) + SameTagCount(d, cs[1..], tag)
  }

  lemma {:induction false} SameTagCountAppend(d: Document, a: seq<nat>, b: seq<nat>, tag: string)
    ensures SameTagCount(d, a + b, tag) == SameTagCount(d, a, tag) + SameTagCount(d, b, tag)
  {
    if a == [] {
      assert a + b == b;
    } else {
      assert (a + b)[0] == a[0];
      assert (a + b)[1..] == a[1..] + b;
      SameTagCountAppend(d, a[1..], b, tag);
    }
  }

  /** One more sibling scanned by the loop adds one exactly when its tag matches. */
  lemma SameTagCountSnoc(d: Document, cs: seq<nat>, i: nat, tag: string)
    requires i < |cs|
    ensures SameTagCount(d, cs[..i + 1], tag)
         == SameTagCount(d, cs[..i], tag) + (if TagOf(d, cs[i]) == Some(tag) then 1 else 0)
  {
    assert cs[..i + 1] == cs[..i] + [cs[i]];
    SameTagCountAppend(d, cs[..i], [cs[i]], tag);
  }

  /** The `k` of a node's `TAG[k]` step: the same-tag siblings up to and including it. */
  function SiblingIndex(d: Document, p: nat, n: nat): (k: nat)
    requires p < |d| && n < |d| && n in d[p].children && d[n].tagName.Some?
    ensures 1 <= k <= |d[p].children|
  {
    var cs := d[p].children;
    var pos := IndexOf(cs, n);
    SameTagCountSnoc(d, cs, pos, d[n].tagName.value);
    SameTagCount(d, cs[..pos + 1], d[n].tagName.value)
  }

  /** The locator of node `n`: the root marker short-cut, else the parent's locator
      and a slash (when there is a parent), then `TAG[k]` when the node has a tag. */
  function XPath(d: Document, n: nat): (r: Result<string, ScriptError>)
    requires WellFormed(d) && n < |d|
    decreases n
  {
    var node := d[n];
    if IsRootMarker(node.tagName) then Success("//" + node.tagName.value + "[1]")
    else
      var prefix: Result<string, ScriptError> :=
        if node.parent.None? then Success("")
        else match XPath(d, node.parent.value)
          case Success(path) => Success(path + "/")
          case Failure(e) => Failure(e);
      if prefix.Failure? || node.tagName.None? then prefix
      else if node.parent.None? then Failure(NullParentNode)
      else Success(prefix.value + node.tagName.value + "[" + NatToString(SiblingIndex(d, node.parent.value, n)) + "]")
  }

  /** The script's loop form: recursion up the parent chain, then the sibling scan. */
  method GetXpathExpression(d: Document, n: nat) returns (r: Result<string, ScriptError>)
    requires WellFormed(d) && n < |d|
    ensures r == XPath(d, n)
    decreases n
  {
    var node := d[n];
    if node.tagName.Some? && Lower(node.tagName.value) == "//html" {
      return Success("//" + node.tagName.value + "[1]");
    }
    var path := "";
    if node.parent.Some? && node.parent.value != n {
      var parentPath := GetXpathExpression(d, node.parent.value);
      if parentPath.Failure? {
        return Failure(parentPath.error);
      }
      path := path + parentPath.value;
      path := path + "/";
      assert path == parentPath.value + "/";
    }
    if node.tagName.Some? {
      if node.parent.None? {
        return Failure(NullParentNode);
      }
      path := path + node.tagName.value;
      path := AppendSiblingIndex(d, node.parent.value, n, path);
    }
    return Success(path);
  }

  /** The sibling scan: counts same-tag siblings in order and writes `[idx]` when it
      reaches the node itself. */
  method AppendSiblingIndex(d: Document, p: nat, n: nat, path: string) returns (r: string)
    requires WellFormed(d) && p < |d| && n < |d| && n in d[p].children && d[n].tagName.Some?
    ensures r == path + "[" + NatToString(SiblingIndex(d, p, n)) + "]"
  {
    var tag := d[n].tagName.value;
    var idx := 0;
    var siblings := d[p].children;
    ghost var pos := IndexOf(siblings, n);
    r := path;
    for i := 0 to |siblings|
      invariant idx == SameTagCount(d, siblings[..i], tag)
      invariant r == if pos < i then path + "[" + NatToString(SiblingIndex(d, p, n)) + "]" else path
    {
      var sibling := siblings[i];
      SameTagCountSnoc(d, siblings, i, tag);
      if TagOf(d, sibling) == Some(tag) {
        idx := idx + 1;
      }
      if sibling == n {
        DistinctChildren(d, p, i, pos);
        r := r + "[" + NatToString(idx) + "]";
      }
    }
  }

  /** An element that is the only child of its parent with its tag gets index 1. */
  lemma {:induction false} SoleSameTagChildGetsOne(d: Document, p: nat, n: nat)
    requires WellFormed(d) && p < |d| && n in d[p].children && d[n].tagName.Some?
    requires forall c :: c in d[p].children && c != n ==> TagOf(d, c) != d[n].tagName
    ensures SiblingIndex(d, p, n) == 1
  {
    var cs := d[p].children;
    var pos := IndexOf(cs, n);
    var tag := d[n].tagName.value;
    ghost var i := 0;
    while i < pos
      invariant i <= pos
      invariant SameTagCount(d, cs[..i], tag) == 0
    {
      SameTagCountSnoc(d, cs, i, tag);
      assert cs[i] in cs;
      i := i + 1;
    }
    SameTagCountSnoc(d, cs, pos, tag);
  }

  /** The index of the child at position `i` counts the same-tag children of `cs[..i + 1]`. */
  lemma SiblingIndexAt(d: Document, p: nat, i: nat)
    requires WellFormed(d) && p < |d| && i < |d[p].children| && TagOf(d, d[p].children[i]).Some?
    ensures d[p].children[i] < |d| && d[p].children[i] in d[p].children
    ensures SiblingIndex(d, p, d[p].children[i])
         == SameTagCount(d, d[p].children[..i + 1], TagOf(d, d[p].children[i]).value)
  {
    var cs := d[p].children;
    assert cs[i] in cs;
    DistinctChildren(d, p, IndexOf(cs, cs[i]), i);
  }

  /** Same-tag siblings get strictly increasing indices in document order. */
  lemma SiblingIndicesIncrease(d: Document, p: nat, i: nat, j: nat)
    requires WellFormed(d) && p < |d| && i < j < |d[p].children|
    requires TagOf(d, d[p].children[i]).Some?
    requires TagOf(d, d[p].children[j]) == TagOf(d, d[p].children[i])
    ensures d[p].children[i] < |d| && d[p].children[j] < |d|
    ensures d[p].children[i] in d[p].children && d[p].children[j] in d[p].children
    ensures SiblingIndex(d, p, d[p].children[i]) < SiblingIndex(d, p, d[p].children[j])
  {
    SiblingIndexAt(d, p, i);
    SiblingIndexAt(d, p, j);
    SameTagCountGrows(d, d[p].children, i, j, TagOf(d, d[p].children[i]).value);
  }

  /** A later entry carrying the tag makes the count of a longer prefix larger. */
  lemma SameTagCountGrows(d: Document, cs: seq<nat>, i: nat, j: nat, tag: string)
    requires i < j < |cs| && TagOf(d, cs[j]) == Some(tag)
    ensures SameTagCount(d, cs[..i + 1], tag) < SameTagCount(d, cs[..j + 1], tag)
  {
    var rest := cs[i + 1..j + 1];
    assert cs[..j + 1] == cs[..i + 1] + rest;
    SameTagCountAppend(d, cs[..i + 1], rest, tag);
    assert rest == rest[..|rest| - 1] + [cs[j]];
    SameTagCountAppend(d, rest[..|rest| - 1], [cs[j]], tag);
    assert SameTagCount(d, [cs[j]], tag) == 1;
  }

  /** In a page, the locator is never the failure: every tagged node has a parent. */
  lemma {:induction false} DocumentLocatorsSucceed(d: Document, n: nat)
    requires DocumentTree(d) && n < |d|
    ensures XPath(d, n).Success?
    decreases n
  {
    if d[n].parent.Some? {
      DocumentLocatorsSucceed(d, d[n].parent.value);
    }
  }

  /** The `(TAG, k)` steps of an element's locator, from the document down. */
  function Segments(d: Document, n: nat): (segs: seq<(string, nat)>)
    requires DocumentTree(d) && 0 < n < |d| && d[n].tagName.Some?
    decreases n
  {
    var p := d[n].parent.value;
    var step := (d[n].tagName.value, SiblingIndex(d, p, n));
    if p == 0 then [step] else Segments(d, p) + [step]
  }

  /** The text of a list of steps. */
  function Render(segs: seq<(string, nat)>): string {
    if segs == [] then ""
    else Render(segs[..|segs| - 1]) + "/" + segs[|segs| - 1].0 + "[" + NatToString(segs[|segs| - 1].1) + "]"
  }

  /** Without the root marker, an element's locator is exactly the rendering of its steps. */
  lemma {:induction false} XPathIsRenderedSegments(d: Document, n: nat)
    requires DocumentTree(d) && 0 < n < |d| && d[n].tagName.Some?
    requires forall m :: 0 <= m < |d| ==> !IsRootMarker(d[m].tagName)
    ensures XPath(d, n) == Success(Render(Segments(d, n)))
    decreases n
  {
    var p := d[n].parent.value;
    assert n in d[p].children;
    if p != 0 {
      assert d[p].tagName.Some?;
      XPathIsRenderedSegments(d, p);
      var segs := Segments(d, p) + [(d[n].tagName.value, SiblingIndex(d, p, n))];
      assert segs[..|segs| - 1] == Segments(d, p);
    } else {
      var segs := [(d[n].tagName.value, SiblingIndex(d, p, n))];
      assert segs[..|segs| - 1] == [];
    }
  }

  /** The `k`-th child among `cs` carrying `tag`, as an XPath step `tag[k]` selects it. */
  function NthWithTag(d: Document, cs: seq<nat>, tag: string, k: nat): (r: Option<nat>)
    ensures r.Some? ==> r.value in cs
  {
    if cs == [] then None
    else if TagOf(d, cs[0]) == Some(tag) then
      (if k == 1 then Some(cs[0]) else if k > 1 then NthWithTag(d, cs[1..], tag, k - 1) else None)
    else NthWithTag(d, cs[1..], tag, k)
  }

  /** Follows the steps down from node `cur`. */
  function Locate(d: Document, cur: nat, segs: seq<(string, nat)>): (r: Option<nat>)
    requires WellFormed(d) && cur < |d|
    ensures r.Some? ==> r.value < |d|
    decreases |segs|
  {
    if segs == [] then Some(cur)
    else match NthWithTag(d, d[cur].children, segs[0].0, segs[0].1)
      case None => None
      case Some(c) =>
        ChildParentIndex(d, cur, c);
        Locate(d, c, segs[1..])
  }

  lemma {:induction false} NthWithTagFindsCounted(d: Document, cs: seq<nat>, pos: nat, tag: string)
    requires pos < |cs| && TagOf(d, cs[pos]) == Some(tag)
    ensures NthWithTag(d, cs, tag, SameTagCount(d, cs[..pos + 1], tag)) == Some(cs[pos])
  {
    if pos > 0 {
      NthWithTagFindsCounted(d, cs[1..], pos - 1, tag);
      assert cs[1..][..pos] == cs[..pos + 1][1..];
      SameTagCountSnoc(d, cs[1..], pos - 1, tag);
    }
  }

  lemma {:induction false} LocateAppend(d: Document, cur: nat, a: seq<(string, nat)>, step: (string, nat))
    requires WellFormed(d) && cur < |d|
    ensures Locate(d, cur, a + [step])
         == match Locate(d, cur, a) case Some(m) => Locate(d, m, [step]) case None => None
    decreases |a|
  {
    if a != [] {
      assert (a + [step])[1..] == a[1..] + [step];
      match NthWithTag(d, d[cur].children, a[0].0, a[0].1)
      case None =>
      case Some(c) =>
        ChildParentIndex(d, cur, c);
        LocateAppend(d, c, a[1..], step);
    }
  }

  /** The steps of an element lead from the document node back to that element:
      the locator is absolute and names exactly one element. */
  lemma {:induction false} LocateSegments(d: Document, n: nat)
    requires DocumentTree(d) && 0 < n < |d| && d[n].tagName.Some?
    ensures Locate(d, 0, Segments(d, n)) == Some(n)
    decreases n
  {
    var p := d[n].parent.value;
    var step := (d[n].tagName.value, SiblingIndex(d, p, n));
    LocateLastStep(d, n);
    if p != 0 {
      assert d[p].tagName.Some?;
      LocateSegments(d, p);
      LocateAppend(d, 0, Segments(d, p), step);
    } else {
      assert Segments(d, n) == [] + [step];
      LocateAppend(d, 0, [], step);
    }
  }

  /** An element's own step leads from its parent to it. */
  lemma LocateLastStep(d: Document, n: nat)
    requires DocumentTree(d) && 0 < n < |d| && d[n].tagName.Some?
    ensures d[n].parent.Some? && d[n].parent.value < |d| && n in d[d[n].parent.value].children
    ensures Locate(d, d[n].parent.value, [(d[n].tagName.value, SiblingIndex(d, d[n].parent.value, n))]) == Some(n)
  {
    var p := d[n].parent.value;
    var cs := d[p].children;
    var tag := d[n].tagName.value;
    var pos := IndexOf(cs, n);
    var k := SiblingIndex(d, p, n);
    assert k == SameTagCount(d, cs[..pos + 1], tag);
    NthWithTagFindsCounted(d, cs, pos, tag);
    assert NthWithTag(d, cs, tag, k) == Some(n);
    var segs := [(tag, k)];
    assert segs[0] == (tag, k) && segs[1..] == [];
    ChildParentIndex(d, p, n);
    assert Locate(d, n, []) == Some(n);
  }

  /** Two different elements of a page never share their locator steps. */
  lemma SegmentsDistinguishElements(d: Document, m: nat, n: nat)
    requires DocumentTree(d) && 0 < m < |d| && 0 < n < |d| && m != n
    requires d[m].tagName.Some? && d[n].tagName.Some?
    ensures Segments(d, m) != Segments(d, n)
  {
    LocateSegments(d, m);
    LocateSegments(d, n);
  }
}

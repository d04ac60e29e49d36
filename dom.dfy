/** A snapshot of the browser's document tree, as the two injected scripts see it.
    Nodes live in an arena and refer to each other by index; index 0 is the
    document node in a `DocumentTree`. */
module Dom {
  import opened Wrappers

  /** One entry of `node.attributes`. */
  datatype Attribute = Attribute(name: string, value: string)

  /** One DOM node: `tagName` (absent for text, comment and document nodes),
      `parentNode`, `childNodes` in document order, `nodeValue` (present for text-like
      nodes) and `attributes` (empty for nodes that have none). */
  datatype Node = Node(
    tagName: Option<string>,
    parent: Option<nat>,
    children: seq<nat>,
    nodeValue: Option<string>,
    attributes: seq<Attribute>)

  type Document = seq<Node>

  /** A parent link points to a node with a smaller index that lists the child;
      every child link points to a node with a larger index whose parent is the
      listing node; no node is listed twice among its parent's children. A tag name,
      when present, is never empty: the scripts' `if (node.tagName)` treats an empty
      one as absent, and a browser never reports one. */
  ghost predicate WellFormed(d: Document) {
    && (forall n {:trigger d[n].tagName} :: 0 <= n < |d| && d[n].tagName.Some? ==> d[n].tagName.value != [])
    && (forall n {:trigger d[n].parent} :: 0 <= n < |d| && d[n].parent.Some? ==>
          d[n].parent.value < n && n in d[d[n].parent.value].children)
    && (forall n, i {:trigger d[n].children[i]} :: 0 <= n < |d| && 0 <= i < |d[n].children| ==>
          n < d[n].children[i] < |d| && d[d[n].children[i]].parent == Some(n))
    && (forall n, i, j {:trigger d[n].children[i], d[n].children[j]} ::
          0 <= n < |d| && 0 <= i < j < |d[n].children| ==> d[n].children[i] != d[n].children[j])
  }

  /** The shape of a page: node 0 is the tagless, parentless document node, every
      other node has a parent, and only the document node and elements have children. */
  ghost predicate DocumentTree(d: Document) {
    && WellFormed(d)
    && |d| > 0
    && d[0].tagName.None? && d[0].parent.None?
    && (forall n {:trigger d[n].parent} :: 0 < n < |d| ==> d[n].parent.Some?)
    && (forall n {:trigger d[n].tagName} :: 0 < n < |d| && d[n].tagName.None? ==> d[n].children == [])
  }

  /** The position of child `c` in `cs`. */
  function IndexOf(cs: seq<nat>, c: nat): (k: nat)
    requires c in cs
    ensures k < |cs| && cs[k] == c
    ensures forall j :: 0 <= j < k ==> cs[j] != c
  {
    if cs[0] == c then 0 else 1 + IndexOf(cs[1..], c)
  }

  lemma ChildParentIndex(d: Document, p: nat, c: nat)
    requires WellFormed(d) && p < |d| && c in d[p].children
    ensures p < c < |d| && d[c].parent == Some(p)
  {
    var i := IndexOf(d[p].children, c);
    assert d[p].children[i] == c;
  }

  lemma DistinctChildren(d: Document, p: nat, i: nat, j: nat)
    requires WellFormed(d) && p < |d| && i < |d[p].children| && j < |d[p].children|
    requires d[p].children[i] == d[p].children[j]
    ensures i == j
  {
  }
}

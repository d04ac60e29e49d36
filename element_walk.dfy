/** What getAllElementsProperties returns, stated without its recursion: the blocks of
    the nodes in document (pre-)order, every node of the page exactly once, and a block
    for every node except the document node and its own tagless children. */
module ElementWalk {
  import opened Wrappers
  import opened Strings
  import opened Dom
  import opened XPathBuilder
  import opened ElementProperties

  /** The nodes of the subtree under `n`, in the order the walk reaches them. */
  function PreOrder(d: Document, n: nat): (r: seq<nat>)
    requires WellFormed(d) && n < |d|
    ensures |r| > 0 && r[0] == n
    ensures forall i :: 0 <= i < |r| ==> n <= r[i] < |d|
    decreases |d| - n, |d[n].children| + 1
  {
    [n] + PreOrderFrom(d, n, 0)
  }

  /** The subtrees of the children of `p` from position `k` on, one after the other. */
  function PreOrderFrom(d: Document, p: nat, k: nat): (r: seq<nat>)
    requires WellFormed(d) && p < |d| && k <= |d[p].children|
    ensures forall i :: 0 <= i < |r| ==> p < r[i] < |d|
    decreases |d| - p, |d[p].children| - k
  {
    if k == |d[p].children| then []
    else
      var c := d[p].children[k];
      PreOrder(d, c) + PreOrderFrom(d, p, k + 1)
  }

  predicate InDocument(d: Document, ns: seq<nat>) {
    forall i :: 0 <= i < |ns| ==> ns[i] < |d|
  }

  /** The output of a list of nodes: their blocks, one after the other. */
  function Blocks(d: Document, ns: seq<nat>, f: Filter): Result<string, ScriptError>
    requires WellFormed(d) && InDocument(d, ns)
  {
    if ns == [] then Success("") else Concat(Block(d, ns[0], f), Blocks(d, ns[1..], f))
  }

  /** `a` is `m` or one of `m`'s ancestors. */
  ghost predicate Ancestor(d: Document, a: nat, m: nat)
    requires WellFormed(d) && m < |d|
    decreases m
  {
    m == a || (d[m].parent.Some? && Ancestor(d, a, d[m].parent.value))
  }

  predicate Distinct(s: seq<nat>) {
    forall i, j :: 0 <= i < j < |s| ==> s[i] != s[j]
  }

  lemma ConcatAssociative(a: Result<string, ScriptError>, b: Result<string, ScriptError>, c: Result<string, ScriptError>)
    ensures Concat(Concat(a, b), c) == Concat(a, Concat(b, c))
  {
    if a.Success? && b.Success? && c.Success? {
      assert (a.value + b.value) + c.value == a.value + (b.value + c.value);
    }
  }

  lemma {:induction false} BlocksAppend(d: Document, a: seq<nat>, b: seq<nat>, f: Filter)
    requires WellFormed(d) && InDocument(d, a) && InDocument(d, b)
    ensures InDocument(d, a + b)
    ensures Blocks(d, a + b, f) == Concat(Blocks(d, a, f), Blocks(d, b, f))
  {
    if a == [] {
      assert a + b == b;
      var r := Blocks(d, b, f);
      if r.Success? {
        assert "" + r.value == r.value;
      }
    } else {
      assert (a + b)[1..] == a[1..] + b;
      BlocksAppend(d, a[1..], b, f);
      ConcatAssociative(Block(d, a[0], f), Blocks(d, a[1..], f), Blocks(d, b, f));
    }
  }

  lemma BlocksSingle(d: Document, n: nat, f: Filter)
    requires WellFormed(d) && n < |d|
    ensures Blocks(d, [n], f) == Block(d, n, f)
  {
    var r := Block(d, n, f);
    if r.Success? {
      assert r.value + "" == r.value;
    }
  }

  /** The walk's output is the blocks of the subtree's nodes, in pre-order. */
  lemma {:induction false} SerializeIsPreOrderBlocks(d: Document, n: nat, f: Filter)
    requires WellFormed(d) && n < |d|
    ensures Serialize(d, n, f) == Blocks(d, PreOrder(d, n), f)
    decreases |d| - n, |d[n].children| + 1
  {
    SerializeChildrenIsPreOrderBlocks(d, n, 0, f);
    BlocksSingle(d, n, f);
    BlocksAppend(d, [n], PreOrderFrom(d, n, 0), f);
  }

  lemma {:induction false} SerializeChildrenIsPreOrderBlocks(d: Document, p: nat, k: nat, f: Filter)
    requires WellFormed(d) && p < |d| && k <= |d[p].children|
    ensures SerializeChildren(d, p, k, f) == Blocks(d, PreOrderFrom(d, p, k), f)
    decreases |d| - p, |d[p].children| - k
  {
    if k < |d[p].children| {
      var c := d[p].children[k];
      SerializeIsPreOrderBlocks(d, c, f);
      SerializeChildrenIsPreOrderBlocks(d, p, k + 1, f);
      BlocksAppend(d, PreOrder(d, c), PreOrderFrom(d, p, k + 1), f);
    }
  }

  /** A node of the children's part lies in the subtree of one of those children. */
  lemma {:induction false} PreOrderFromMember(d: Document, p: nat, k: nat, m: nat)
    requires WellFormed(d) && p < |d| && k <= |d[p].children|
    ensures m in PreOrderFrom(d, p, k) <==>
              exists i :: k <= i < |d[p].children| && m in PreOrder(d, d[p].children[i])
    decreases |d[p].children| - k
  {
    if k < |d[p].children| {
      PreOrderFromMember(d, p, k + 1, m);
    }
  }

  lemma {:induction false} AncestorThroughParent(d: Document, c: nat, a: nat, m: nat)
    requires WellFormed(d) && c < |d| && m < |d| && d[c].parent == Some(a)
    requires Ancestor(d, c, m)
    ensures Ancestor(d, a, m)
    decreases m
  {
    if m != c {
      AncestorThroughParent(d, c, a, d[m].parent.value);
    }
  }

  lemma {:induction false} AncestorIsSmaller(d: Document, a: nat, m: nat)
    requires WellFormed(d) && m < |d| && Ancestor(d, a, m)
    ensures a <= m
    decreases m
  {
    if m != a {
      AncestorIsSmaller(d, a, d[m].parent.value);
    }
  }

  /** Every node the walk reaches from `a` has `a` as an ancestor. */
  lemma {:induction false} PreOrderHasDescendants(d: Document, a: nat, m: nat)
    requires WellFormed(d) && a < |d| && m in PreOrder(d, a)
    ensures m < |d| && Ancestor(d, a, m)
    decreases |d| - a
  {
    if m != a {
      assert m in PreOrderFrom(d, a, 0);
      PreOrderFromMember(d, a, 0, m);
      var i :| 0 <= i < |d[a].children| && m in PreOrder(d, d[a].children[i]);
      var c := d[a].children[i];
      PreOrderHasDescendants(d, c, m);
      AncestorThroughParent(d, c, a, m);
    }
  }

  /** A child of a reached node is reached. */
  lemma {:induction false} ChildInPreOrder(d: Document, a: nat, q: nat, i: nat)
    requires WellFormed(d) && a < |d| && q in PreOrder(d, a) && q < |d| && i < |d[q].children|
    ensures d[q].children[i] in PreOrder(d, a)
    decreases |d| - a
  {
    var m := d[q].children[i];
    if q == a {
      assert m in PreOrder(d, m);
      PreOrderFromMember(d, a, 0, m);
    } else {
      assert q in PreOrderFrom(d, a, 0);
      PreOrderFromMember(d, a, 0, q);
      var j :| 0 <= j < |d[a].children| && q in PreOrder(d, d[a].children[j]);
      ChildInPreOrder(d, d[a].children[j], q, i);
      PreOrderFromMember(d, a, 0, m);
    }
  }

  /** Every descendant of `a` is reached by the walk from `a`. */
  lemma {:induction false} DescendantsInPreOrder(d: Document, a: nat, m: nat)
    requires WellFormed(d) && a < |d| && m < |d| && Ancestor(d, a, m)
    ensures m in PreOrder(d, a)
    decreases m
  {
    if m != a {
      var q := d[m].parent.value;
      DescendantsInPreOrder(d, a, q);
      var i := IndexOf(d[q].children, m);
      ChildInPreOrder(d, a, q, i);
    }
  }

  /** Two different children of one node have no descendant in common. */
  lemma {:induction false} SiblingSubtreesDisjoint(d: Document, p: nat, c1: nat, c2: nat, m: nat)
    requires WellFormed(d) && c1 < |d| && c2 < |d| && m < |d| && c1 != c2
    requires d[c1].parent == Some(p) && d[c2].parent == Some(p)
    ensures !(Ancestor(d, c1, m) && Ancestor(d, c2, m))
    decreases m
  {
    if Ancestor(d, c1, m) && Ancestor(d, c2, m) {
      if m == c1 {
        AncestorIsSmaller(d, c2, p);
        assert false;
      } else if m == c2 {
        AncestorIsSmaller(d, c1, p);
        assert false;
      } else {
        SiblingSubtreesDisjoint(d, p, c1, c2, d[m].parent.value);
      }
    }
  }

  lemma DistinctAppend(a: seq<nat>, b: seq<nat>)
    requires Distinct(a) && Distinct(b)
    requires forall m :: m in a ==> m !in b
    ensures Distinct(a + b)
  {
    forall i, j | 0 <= i < j < |a + b|
      ensures (a + b)[i] != (a + b)[j]
    {
      if j >= |a| && i < |a| {
        assert (a + b)[i] in a && (a + b)[j] in b;
      }
    }
  }

  /** The walk reaches no node twice. */
  lemma {:induction false} PreOrderDistinct(d: Document, n: nat)
    requires WellFormed(d) && n < |d|
    ensures Distinct(PreOrder(d, n))
    decreases |d| - n, |d[n].children| + 1
  {
    PreOrderFromDistinct(d, n, 0);
    DistinctAppend([n], PreOrderFrom(d, n, 0));
  }

  lemma {:induction false} PreOrderFromDistinct(d: Document, p: nat, k: nat)
    requires WellFormed(d) && p < |d| && k <= |d[p].children|
    ensures Distinct(PreOrderFrom(d, p, k))
    decreases |d| - p, |d[p].children| - k
  {
    if k < |d[p].children| {
      var c := d[p].children[k];
      PreOrderDistinct(d, c);
      PreOrderFromDistinct(d, p, k + 1);
      forall m | m in PreOrder(d, c)
        ensures m !in PreOrderFrom(d, p, k + 1)
      {
        if m in PreOrderFrom(d, p, k + 1) {
          PreOrderFromMember(d, p, k + 1, m);
          var i :| k + 1 <= i < |d[p].children| && m in PreOrder(d, d[p].children[i]);
          PreOrderHasDescendants(d, c, m);
          PreOrderHasDescendants(d, d[p].children[i], m);
          SiblingSubtreesDisjoint(d, p, c, d[p].children[i], m);
        }
      }
      DistinctAppend(PreOrder(d, c), PreOrderFrom(d, p, k + 1));
    }
  }

  lemma {:induction false} DocumentIsEveryAncestor(d: Document, m: nat)
    requires DocumentTree(d) && m < |d|
    ensures Ancestor(d, 0, m)
    decreases m
  {
    if m != 0 {
      DocumentIsEveryAncestor(d, d[m].parent.value);
    }
  }

  /** From the document node the walk reaches every node of the page exactly once. */
  lemma WalkVisitsEveryNodeOnce(d: Document)
    requires DocumentTree(d)
    ensures Distinct(PreOrder(d, 0))
    ensures forall m: nat :: m in PreOrder(d, 0) <==> m < |d|
  {
    PreOrderDistinct(d, 0);
    forall m: nat | m < |d|
      ensures m in PreOrder(d, 0)
    {
      DocumentIsEveryAncestor(d, m);
      DescendantsInPreOrder(d, 0, m);
    }
  }

  /** The length test on the locator, in terms of the page: only the document node and
      its tagless children have a locator of at most one character. */
  lemma {:induction false} LocatorLengthTest(d: Document, n: nat)
    requires DocumentTree(d) && n < |d|
    ensures XPath(d, n).Success?
    ensures |XPath(d, n).value| > 1 <==> n != 0 && !(d[n].tagName.None? && d[n].parent == Some(0))
    decreases n
  {
    DocumentLocatorsSucceed(d, n);
    if n != 0 && !IsRootMarker(d[n].tagName) {
      var p := d[n].parent.value;
      DocumentLocatorsSucceed(d, p);
      if p != 0 {
        assert d[p].children != [];
        LocatorLengthTest(d, p);
      }
    }
  }

  lemma PrefixExtends(a: string, b: string, c: string)
    requires a <= b
    ensures a <= b + c
  {
    assert (b + c)[..|a|] == b[..|a|];
  }

  /** A block that is written opens with the node's locator. */
  lemma BlockOpensWithLocator(d: Document, n: nat, f: Filter)
    requires WellFormed(d) && n < |d| && XPath(d, n).Success? && |XPath(d, n).value| > 1
    ensures Block(d, n, f).Success?
    ensures "<element>" + "<xpath>" + XPath(d, n).value <= Block(d, n, f).value
  {
    var p0 := "<element>" + "<xpath>" + XPath(d, n).value;
    var p1 := p0 + "</xpath>";
    var p2 := p1 + TagNameAttribute(d[n]);
    var p3 := p2 + NodeValueAttribute(d[n]);
    var p4 := p3 + AttributesXml(d[n].attributes, f);
    PrefixExtends(p0, p0, "</xpath>");
    PrefixExtends(p0, p1, TagNameAttribute(d[n]));
    PrefixExtends(p0, p2, NodeValueAttribute(d[n]));
    PrefixExtends(p0, p3, AttributesXml(d[n].attributes, f));
    PrefixExtends(p0, p4, "</element>");
  }

  /** Every node of a page has a block; it is empty exactly for the document node and
      its tagless children, and otherwise an `<element>` that opens with the node's locator. */
  lemma BlockEmission(d: Document, n: nat, f: Filter)
    requires DocumentTree(d) && n < |d|
    ensures Block(d, n, f).Success?
    ensures Block(d, n, f).value == "" <==> n == 0 || (d[n].tagName.None? && d[n].parent == Some(0))
    ensures Block(d, n, f).value != "" ==> "<element>" + "<xpath>" + XPath(d, n).value <= Block(d, n, f).value
  {
    LocatorLengthTest(d, n);
    if |XPath(d, n).value| > 1 {
      BlockOpensWithLocator(d, n, f);
    }
  }

  /** In a page, the script returns the blocks of all nodes, in pre-order, each once. */
  lemma PageOutput(d: Document, f: Filter)
    requires DocumentTree(d)
    ensures AllElementsProperties(d, f).Success?
    ensures Serialize(d, 0, f) == Blocks(d, PreOrder(d, 0), f)
  {
    SerializeIsPreOrderBlocks(d, 0, f);
    BlocksSucceed(d, PreOrder(d, 0), f);
  }

  lemma {:induction false} BlocksSucceed(d: Document, ns: seq<nat>, f: Filter)
    requires DocumentTree(d) && InDocument(d, ns)
    ensures Blocks(d, ns, f).Success?
  {
    if ns != [] {
      BlockEmission(d, ns[0], f);
      BlocksSucceed(d, ns[1..], f);
    }
  }

  /** The attribute filter never looks at an attribute's name: it either drops every
      attribute or keeps every one. */
  lemma {:induction false} FilterIsAllOrNothing(attrs: seq<Attribute>, f: Filter)
    ensures SkipsAttributes(f) ==> AttributesXml(attrs, f) == ""
    ensures !SkipsAttributes(f) ==> AttributesXml(attrs, f) == AttributesXml(attrs, None)
  {
    if attrs != [] {
      FilterIsAllOrNothing(attrs[..|attrs| - 1], f);
    }
  }
}

/** ShortestActionSequencePrioritizer: reorders the pending sequences by their length.
    The list is sorted stably, ascending by length, and then pushed in that order, so
    the longest sequence ends up on top and is popped first. */
module Prioritizer {
  import opened Actions
  import opened ActionQueue
  import opened Seqs

  /** Ascending by key. */
  predicate SortedByKey<T>(s: seq<(int, T)>) {
    forall i, j :: 0 <= i < j < |s| ==> s[i].0 <= s[j].0
  }

  /** The entries whose key is `k`, in their order. */
  function WithKey<T>(s: seq<(int, T)>, k: int): (r: seq<(int, T)>)
    ensures |r| <= |s|
  {
    if s == [] then []
    else WithKey(s[..|s| - 1], k) + (if s[|s| - 1].0 == k then [s[|s| - 1]] else [])
  }

  /** The entries with key `k` are entries of the list, all with that key. */
  lemma {:induction false} WithKeyMembers<T>(s: seq<(int, T)>, k: int)
    ensures forall i :: 0 <= i < |WithKey(s, k)| ==> WithKey(s, k)[i].0 == k && WithKey(s, k)[i] in s
  {
    if s != [] {
      var init := s[..|s| - 1];
      WithKeyMembers(init, k);
      forall i | 0 <= i < |WithKey(s, k)|
        ensures WithKey(s, k)[i].0 == k && WithKey(s, k)[i] in s
      {
        if i < |WithKey(init, k)| {
          assert WithKey(s, k)[i] == WithKey(init, k)[i];
          var j :| 0 <= j < |init| && init[j] == WithKey(s, k)[i];
          assert s[j] == init[j];
        }
      }
    }
  }

  lemma {:induction false} WithKeyAppend<T>(a: seq<(int, T)>, b: seq<(int, T)>, k: int)
    ensures WithKey(a + b, k) == WithKey(a, k) + WithKey(b, k)
    decreases |b|
  {
    if b == [] {
      assert a + b == a;
    } else {
      assert (a + b)[..|a + b| - 1] == a + b[..|b| - 1];
      WithKeyAppend(a, b[..|b| - 1], k);
    }
  }

  lemma {:induction false} WithKeyNone<T>(s: seq<(int, T)>, k: int)
    requires forall i :: 0 <= i < |s| ==> s[i].0 != k
    ensures WithKey(s, k) == []
  {
    if s != [] {
      WithKeyNone(s[..|s| - 1], k);
    }
  }

  /** Stability and sortedness together fix the result: two sorted lists that agree on
      the entries of every key are the same list. Any stable sort (the library's merge
      sort, or the insertion sort below) therefore gives the same output. */
  lemma {:induction false} StableSortIsUnique<T>(a: seq<(int, T)>, b: seq<(int, T)>)
    requires SortedByKey(a) && SortedByKey(b)
    requires forall k :: WithKey(a, k) == WithKey(b, k)
    ensures a == b
    decreases |a|
  {
    if a == [] || b == [] {
      if a != [] {
        WithKeyFirst(a);
        assert false;
      } else if b != [] {
        WithKeyFirst(b);
        assert false;
      }
    } else {
      SortedHeadsAgree(a, b);
      forall k
        ensures WithKey(a[1..], k) == WithKey(b[1..], k)
      {
        DropHead(a, b, k);
      }
      StableSortIsUnique(a[1..], b[1..]);
      assert a == [a[0]] + a[1..];
      assert b == [b[0]] + b[1..];
    }
  }

  lemma SortedHeadsAgree<T>(a: seq<(int, T)>, b: seq<(int, T)>)
    requires SortedByKey(a) && SortedByKey(b) && a != [] && b != []
    requires forall k :: WithKey(a, k) == WithKey(b, k)
    ensures a[0] == b[0]
  {
    WithKeyFirst(a);
    WithKeyFirst(b);
    var ka, kb := a[0].0, b[0].0;
    var wa, wb := WithKey(b, ka), WithKey(a, kb);
    WithKeyMembers(b, ka);
    WithKeyMembers(a, kb);
    assert wa != [] && wb != [];
    assert wa[0] in b && wa[0].0 == ka;
    assert wb[0] in a && wb[0].0 == kb;
    assert kb <= ka;
    assert ka <= kb;
  }

  lemma DropHead<T>(a: seq<(int, T)>, b: seq<(int, T)>, k: int)
    requires a != [] && b != [] && a[0] == b[0]
    requires WithKey(a, k) == WithKey(b, k)
    ensures WithKey(a[1..], k) == WithKey(b[1..], k)
  {
    assert a == [a[0]] + a[1..];
    assert b == [b[0]] + b[1..];
    WithKeyAppend([a[0]], a[1..], k);
    WithKeyAppend([b[0]], b[1..], k);
    var h, ta, tb := WithKey([a[0]], k), WithKey(a[1..], k), WithKey(b[1..], k);
    assert h + ta == h + tb;
    assert (h + ta)[|h|..] == ta;
    assert (h + tb)[|h|..] == tb;
  }

  /** In a sorted list the first entry opens the entries of its key, and every key in
      the list is at least the first one. */
  lemma WithKeyFirst<T>(s: seq<(int, T)>)
    requires SortedByKey(s) && s != []
    ensures WithKey(s, s[0].0) != [] && WithKey(s, s[0].0)[0] == s[0]
    ensures forall i :: 0 <= i < |s| ==> s[0].0 <= s[i].0
  {
    assert s == [s[0]] + s[1..];
    WithKeyAppend([s[0]], s[1..], s[0].0);
    assert WithKey([s[0]], s[0].0) == [s[0]];
  }

  /** Inserting `x` after every entry whose key is not larger keeps the list sorted. */
  lemma InsertKeepsSorted<T>(r: seq<(int, T)>, p: nat, x: (int, T))
    requires SortedByKey(r) && p <= |r|
    requires forall j :: 0 <= j < p ==> r[j].0 <= x.0
    requires forall j :: p <= j < |r| ==> r[j].0 > x.0
    ensures SortedByKey(r[..p] + [x] + r[p..])
  {
    var s := r[..p] + [x] + r[p..];
    forall i, j | 0 <= i < j < |s|
      ensures s[i].0 <= s[j].0
    {
      if j < p {
        assert s[i] == r[i] && s[j] == r[j];
      } else if j == p {
        assert s[j] == x;
      } else if i > p {
        assert s[i] == r[i - 1] && s[j] == r[j - 1];
      } else if i == p {
        assert s[j] == r[j - 1];
      } else {
        assert s[i] == r[i] && s[j] == r[j - 1];
      }
    }
  }

  /** ... and adds `x` at the end of the entries of its key. */
  lemma InsertAfterEqualKeys<T>(r: seq<(int, T)>, p: nat, x: (int, T), k: int)
    requires p <= |r|
    requires forall j :: p <= j < |r| ==> r[j].0 > x.0
    ensures WithKey(r[..p] + [x] + r[p..], k) == WithKey(r, k) + (if x.0 == k then [x] else [])
  {
    WithKeyAppend(r[..p] + [x], r[p..], k);
    WithKeyAppend(r[..p], [x], k);
    WithKeyAppend(r[..p], r[p..], k);
    assert r[..p] + r[p..] == r;
    if x.0 == k {
      WithKeyNone(r[p..], k);
      assert WithKey(r[p..], k) == [];
    } else {
      assert WithKey([x], k) == [];
    }
  }

  /** One step of the insertion sort: with `x` placed after every entry whose key is not
      larger, the list stays sorted, a permutation of the input seen so far, and stable. */
  lemma InsertStep<T>(r: seq<(int, T)>, p: nat, x: (int, T), seen: seq<(int, T)>)
    requires SortedByKey(r) && p <= |r|
    requires forall j :: 0 <= j < p ==> r[j].0 <= x.0
    requires p == |r| || r[p].0 > x.0
    requires multiset(r) == multiset(seen)
    requires forall k :: WithKey(r, k) == WithKey(seen, k)
    ensures SortedByKey(r[..p] + [x] + r[p..])
    ensures multiset(r[..p] + [x] + r[p..]) == multiset(seen + [x])
    ensures forall k :: WithKey(r[..p] + [x] + r[p..], k) == WithKey(seen + [x], k)
  {
    AboveFrom(r, p, x);
    InsertKeepsSorted(r, p, x);
    InsertPermutes(r, p, x, seen);
    forall k
      ensures WithKey(r[..p] + [x] + r[p..], k) == WithKey(seen + [x], k)
    {
      InsertStable(r, p, x, seen, k);
    }
  }

  /** In a sorted list, the entries from the first key larger than `x`'s are all larger. */
  lemma AboveFrom<T>(r: seq<(int, T)>, p: nat, x: (int, T))
    requires SortedByKey(r) && p <= |r|
    requires p == |r| || r[p].0 > x.0
    ensures forall j :: p <= j < |r| ==> r[j].0 > x.0
  {
    forall j | p <= j < |r| ensures r[j].0 > x.0 {
      assert r[p].0 <= r[j].0;
    }
  }

  lemma InsertPermutes<T>(r: seq<(int, T)>, p: nat, x: (int, T), seen: seq<(int, T)>)
    requires p <= |r| && multiset(r) == multiset(seen)
    ensures multiset(r[..p] + [x] + r[p..]) == multiset(seen + [x])
  {
    assert r == r[..p] + r[p..];
  }

  lemma InsertStable<T>(r: seq<(int, T)>, p: nat, x: (int, T), seen: seq<(int, T)>, k: int)
    requires p <= |r|
    requires forall j :: p <= j < |r| ==> r[j].0 > x.0
    requires WithKey(r, k) == WithKey(seen, k)
    ensures WithKey(r[..p] + [x] + r[p..], k) == WithKey(seen + [x], k)
  {
    InsertAfterEqualKeys(r, p, x, k);
    WithKeyAppend(seen, [x], k);
  }

  /** Where the insertion sort places `x`: after every leading entry whose key is not
      larger, before the first larger one. */
  method InsertionPoint<T>(r: seq<(int, T)>, x: (int, T)) returns (p: nat)
    ensures p <= |r|
    ensures forall j :: 0 <= j < p ==> r[j].0 <= x.0
    ensures p == |r| || r[p].0 > x.0
  {
    p := 0;
    while p < |r| && r[p].0 <= x.0
      invariant 0 <= p <= |r|
      invariant forall j :: 0 <= j < p ==> r[j].0 <= x.0
    {
      p := p + 1;
    }
  }

  /** A stable sort ascending by key. */
  method StableSortByKey<T>(xs: seq<(int, T)>) returns (r: seq<(int, T)>)
    ensures SortedByKey(r)
    ensures multiset(r) == multiset(xs)
    ensures forall k :: WithKey(r, k) == WithKey(xs, k)
  {
    r := [];
    for i := 0 to |xs|
      invariant SortedByKey(r)
      invariant multiset(r) == multiset(xs[..i])
      invariant forall k :: WithKey(r, k) == WithKey(xs[..i], k)
    {
      var x := xs[i];
      var p := InsertionPoint(r, x);
      InsertStep(r, p, x, xs[..i]);
      assert xs[..i + 1] == xs[..i] + [x];
      r := r[..p] + [x] + r[p..];
    }
    assert xs[..|xs|] == xs;
  }

  /** The sequences of `s` tagged with their lengths. */
  function Tagged(s: seq<ActionSequence>): (r: seq<(int, ActionSequence)>)
    reads s
    ensures |r| == |s|
    ensures forall i :: 0 <= i < |s| ==> r[i] == (s[i].Length(), s[i])
  {
    if s == [] then [] else Tagged(s[..|s| - 1]) + [(s[|s| - 1].Length(), s[|s| - 1])]
  }

  /** The sequences of a tagged list, without their tags. */
  function Untagged(t: seq<(int, ActionSequence)>): (r: seq<ActionSequence>)
    ensures |r| == |t|
    ensures forall i :: 0 <= i < |t| ==> r[i] == t[i].1
  {
    if t == [] then [] else Untagged(t[..|t| - 1]) + [t[|t| - 1].1]
  }

  /** Ascending by length. */
  predicate ShortestFirst(s: seq<ActionSequence>)
    reads s
  {
    forall i, j :: 0 <= i < j < |s| ==> s[i].Length() <= s[j].Length()
  }

  /** The comparator's view of the list: each sequence with its `getLength`. */
  method TagWithLengths(all: seq<ActionSequence>) returns (tagged: seq<(int, ActionSequence)>)
    ensures tagged == Tagged(all)
  {
    tagged := [];
    for i := 0 to |all|
      invariant tagged == Tagged(all[..i])
    {
      assert all[..i + 1][..i] == all[..i];
      var length := all[i].GetLength();
      tagged := tagged + [(length, all[i])];
    }
    assert all[..|all|] == all;
  }

  /** A permutation of a tagged list is itself the tagged list of its sequences. */
  lemma PermutedTagsStayTags(all: seq<ActionSequence>, sorted: seq<(int, ActionSequence)>)
    requires multiset(sorted) == multiset(Tagged(all))
    ensures Tagged(Untagged(sorted)) == sorted
  {
    var tagged := Tagged(all);
    var ordered := Untagged(sorted);
    forall i | 0 <= i < |sorted|
      ensures sorted[i] == (ordered[i].Length(), ordered[i])
    {
      assert sorted[i] in multiset(tagged);
      var j :| 0 <= j < |tagged| && tagged[j] == sorted[i];
    }
  }

  /** The comparator sort of `prioritize`: a stable sort of the list by length. */
  method SortByLength(all: seq<ActionSequence>) returns (ordered: seq<ActionSequence>)
    ensures multiset(ordered) == multiset(all)
    ensures ShortestFirst(ordered)
    ensures forall k :: WithKey(Tagged(ordered), k) == WithKey(Tagged(all), k)
  {
    var tagged := TagWithLengths(all);
    var sorted := StableSortByKey(tagged);
    ordered := Untagged(sorted);
    PermutedTagsStayTags(all, sorted);
    TaggedPermutation(ordered, all);
  }

  /** `prioritize`: copies the deque in iteration order, sorts the copy stably by
      length and pushes it into a new deque, so that pops run longest first and, among
      sequences of one length, in the reverse of their former iteration order. The
      given deque is only read. */
  method Prioritize(actionSequences: ActionSequenceQueue) returns (r: ActionSequenceQueue)
    ensures fresh(r)
    ensures multiset(r.sequences) == multiset(actionSequences.sequences)
    ensures forall i, j :: 0 <= i < j < |r.sequences| ==> r.sequences[i].Length() >= r.sequences[j].Length()
    ensures forall k :: WithKey(Tagged(Reverse(r.sequences)), k) == WithKey(Tagged(actionSequences.sequences), k)
  {
    var allSequences := actionSequences.Iterator();
    assert allSequences == actionSequences.sequences;
    var ordered := SortByLength(allSequences);
    r := new ActionSequenceQueue.FromSequences(ordered);
    ReverseReverse(ordered);
    ReverseMultiset(ordered);
  }

  /** Tagging keeps the multiplicity of every sequence. */
  lemma {:induction false} TaggedCount(x: seq<ActionSequence>, s: ActionSequence)
    ensures multiset(Tagged(x))[(s.Length(), s)] == multiset(x)[s]
  {
    if x != [] {
      var last := x[|x| - 1];
      TaggedCount(x[..|x| - 1], s);
      assert x == x[..|x| - 1] + [last];
      assert Tagged(x) == Tagged(x[..|x| - 1]) + [(last.Length(), last)];
    }
  }

  /** Two lists whose tagged forms are permutations of each other are permutations. */
  lemma TaggedPermutation(x: seq<ActionSequence>, y: seq<ActionSequence>)
    requires multiset(Tagged(x)) == multiset(Tagged(y))
    ensures multiset(x) == multiset(y)
  {
    forall s: ActionSequence
      ensures multiset(x)[s] == multiset(y)[s]
    {
      TaggedCount(x, s);
      TaggedCount(y, s);
    }
  }
}

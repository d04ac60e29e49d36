/** Association lists: the model of a hash map, listing its entries in the map's
    iteration order. */
module Assoc {
  import opened Wrappers

  /** `get(key)`: the value stored under `key`, absent when there is none. */
  function Lookup<K(==), V>(entries: seq<(K, V)>, key: K): (r: Option<V>)
    ensures r.None? <==> forall i :: 0 <= i < |entries| ==> entries[i].0 != key
    ensures r.Some? ==> exists i :: 0 <= i < |entries| && entries[i] == (key, r.value)
  {
    if entries == [] then None
    else if entries[0].0 == key then Some(entries[0].1)
    else
      var r := Lookup(entries[1..], key);
      assert r.Some? ==> entries[1..][0..] == entries[1..];
      r
  }

  /** No key occurs twice, as in a map. */
  predicate DistinctKeys<K(==), V>(entries: seq<(K, V)>) {
    forall p, q :: 0 <= p < q < |entries| ==> entries[p].0 != entries[q].0
  }

  /** The keys of the map. */
  function Keys<K, V>(entries: seq<(K, V)>): set<K> {
    set i | 0 <= i < |entries| :: entries[i].0
  }

  /** In a list with distinct keys, looking up an entry's key finds that entry. */
  lemma LookupFindsEntry<K, V>(entries: seq<(K, V)>, i: nat)
    requires i < |entries| && DistinctKeys(entries)
    ensures Lookup(entries, entries[i].0) == Some(entries[i].1)
  {
    var r := Lookup(entries, entries[i].0);
    var j :| 0 <= j < |entries| && entries[j] == (entries[i].0, r.value);
    assert i == j;
  }
}

/**
 The operators of hstore whose second argument is an array of keys (contrib/hstore/hstore_op.c):
 `hstoreArrayToPairs` brings any array, with nulls and duplicates in any order, into the form the operators merge with.
 */
module HstoreArray {
  import opened HstoreFormat
  import opened HstoreMap
  import opened HstoreOps
  import opened HstorePairs

  /** As many pairs of 40 bytes as can be allocated. */
  const MAX_KEYS: nat := MAX_ALLOC / 40

  datatype ArrayKeys = Keys(keys: seq<Str>) | TooMany

  function KeysOf(s: seq<Pair>): (k: seq<Str>)
    ensures |k| == |s| && forall i :: 0 <= i < |s| ==> k[i] == s[i].key
  {
    seq(|s|, i requires 0 <= i < |s| => s[i].key)
  }

  lemma KeysOfSorted(s: seq<Pair>)
    requires Sorted(s)
    ensures SortedKeys(KeysOf(s)) && forall k :: k in KeysOf(s) <==> HasKey(s, k)
  {
    hide KeyCompare;
    forall k ensures k in KeysOf(s) <==> HasKey(s, k) {
      if HasKey(s, k) {
        var i :| 0 <= i < |s| && s[i].key == k;
        assert KeysOf(s)[i] == k;
      }
    }
  }

  /** The elements that are not null, as pairs without a value. */
  method Gather(elems: seq<Value>) returns (pairs: seq<Pair>)
    ensures forall x :: x in pairs <==> x.val.Null? && Text(x.key) in elems
  {
    pairs := [];
    for i := 0 to |elems|
      invariant forall x :: x in pairs <==> x.val.Null? && Text(x.key) in elems[..i]
    {
      assert elems[..i + 1] == elems[..i] + [elems[i]];
      if elems[i].Text? { pairs := pairs + [Pair(elems[i].s, Null)]; }
    }
    assert elems[..|elems|] == elems;
  }

  /** The keys that are left of pairs in any order. */
  lemma KeysLeft(pairs: seq<Pair>, sorted: seq<Pair>, k: Str)
    requires multiset(pairs) == multiset(sorted)
    ensures HasKey(Distinct(sorted), k) <==> HasKey(pairs, k)
  {
    hide Distinct;
    assert forall x :: x in pairs <==> x in multiset(pairs);
    assert forall x :: x in sorted <==> x in multiset(sorted);
    if HasKey(Distinct(sorted), k) {
      var x :| x in Distinct(sorted) && x.key == k;
      DistinctKeys(sorted, x);
      assert x in pairs;
    }
    if HasKey(pairs, k) {
      var x :| x in pairs && x.key == k;
      DistinctKeys(sorted, x);
    }
  }

  /** `hstoreArrayToPairs`: each text of the array once, in ascending order. */
  method ArrayToPairs(elems: seq<Value>, sort: seq<Pair> -> seq<Pair>) returns (r: ArrayKeys)
    requires SortsPairs(sort)
    ensures r.TooMany? <==> |elems| > MAX_KEYS
    ensures r.Keys? ==> SortedKeys(r.keys) && forall k :: k in r.keys <==> Text(k) in elems
  {
    hide Distinct, KeyCompare, Sorted, SortedKeys, KeysOf, HasKey, Strings;
    if |elems| == 0 {
      assert SortedKeys([]) by { KeysOfNone(); }
      return Keys([]);
    }
    if |elems| > MAX_KEYS { return TooMany; }
    var pairs := Gather(elems);
    var sorted := if |pairs| < 2 then pairs else sort(pairs);
    var a := new Pair[|sorted|](i requires 0 <= i < |sorted| => sorted[i]);
    assert a[..|sorted|] == sorted;
    var n, buflen := UniquePairs(a, |sorted|);
    var left := a[..n];
    DistinctSorted(sorted);
    KeysOfSorted(left);
    forall k ensures k in KeysOf(left) <==> Text(k) in elems {
      KeysLeft(pairs, sorted, k);
      KeyGathered(elems, pairs, k);
    }
    return Keys(KeysOf(left));
  }

  lemma KeysOfNone()
    ensures SortedKeys([])
  {
  }

  lemma KeyGathered(elems: seq<Value>, pairs: seq<Pair>, k: Str)
    requires forall x :: x in pairs <==> x.val.Null? && Text(x.key) in elems
    ensures HasKey(pairs, k) <==> Text(k) in elems
  {
    if Text(k) in elems { assert Pair(k, Null) in pairs; }
  }

  /** The keys an array names. */
  ghost predicate Names(elems: seq<Value>, k: Str) { Text(k) in elems }

  datatype Deleted = Deleted(outcome: Outcome) | TooManyKeys

  /** `hstore_delete_array`. */
  method DeleteArray(hs: HStore, elems: seq<Value>, sort: seq<Pair> -> seq<Pair>, ghost pairs: seq<Pair>) returns (r: Deleted)
    requires Is(hs, pairs) && SortsPairs(sort)
    ensures r == Deleted(AllocError) <==> VarSize(hs) > MAX_ALLOC
    ensures r.TooManyKeys? <==> VarSize(hs) <= MAX_ALLOC && |elems| > MAX_KEYS
    ensures r.Deleted? && r.outcome.Done? ==>
      exists left :: Is(r.outcome.value, left) && ToMap(left) == map k | k in ToMap(pairs) && !Names(elems, k) :: ToMap(pairs)[k]
  {
    hide Is, SortedKeys, ToMap, VarSize, HstoreMap.Without;
    if VarSize(hs) > MAX_ALLOC { return Deleted(AllocError); }
    var keys := ArrayToPairs(elems, sort);
    if keys.TooMany? { return TooManyKeys; }
    var done := HstoreOps.DeleteArray(hs, keys.keys, pairs);
    assert ToMap(HstoreMap.Without(pairs, keys.keys)) == map k | k in ToMap(pairs) && !Names(elems, k) :: ToMap(pairs)[k];
    return Deleted(done);
  }

  datatype Decided = Decided(yes: bool) | TooManyToDecide

  /** `hstore_exists_any`. */
  method ExistsAny(hs: HStore, elems: seq<Value>, sort: seq<Pair> -> seq<Pair>, ghost pairs: seq<Pair>) returns (r: Decided)
    requires Is(hs, pairs) && SortsPairs(sort)
    ensures r.TooManyToDecide? <==> |elems| > MAX_KEYS
    ensures r.Decided? ==> (r.yes <==> exists k :: k in ToMap(pairs) && Names(elems, k))
  {
    hide Is, SortedKeys, ToMap;
    var keys := ArrayToPairs(elems, sort);
    if keys.TooMany? { return TooManyToDecide; }
    var yes := HstoreOps.ExistsAny(hs, keys.keys, pairs);
    return Decided(yes);
  }

  /** `hstore_exists_all`. */
  method ExistsAll(hs: HStore, elems: seq<Value>, sort: seq<Pair> -> seq<Pair>, ghost pairs: seq<Pair>) returns (r: Decided)
    requires Is(hs, pairs) && SortsPairs(sort)
    ensures r.TooManyToDecide? <==> |elems| > MAX_KEYS
    ensures r.Decided? ==> (r.yes <==> forall k :: Names(elems, k) ==> k in ToMap(pairs))
  {
    hide Is, SortedKeys, ToMap;
    var keys := ArrayToPairs(elems, sort);
    if keys.TooMany? { return TooManyToDecide; }
    var yes := HstoreOps.ExistsAll(hs, keys.keys, pairs);
    return Decided(yes);
  }
}

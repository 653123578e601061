/**
 The operations of contrib/hstore/hstore_op.c that work on packed values: the three merges, the binary
 search with a carried lower bound, and the tests built on it.  Each reads its operands through the
 decoding macros and the merges write their result through the building macros; the contracts speak of
 the lists of pairs, and so of the maps, that the packed values stand for.
 */
module HstoreOps {
  import opened HstoreFormat
  import opened HstoreBuild
  import opened HstoreMap

  datatype Outcome = Done(value: HStore) | AllocError

  /** The packed value `h` stands for the sorted list `pairs`. */
  ghost predicate Is(h: HStore, pairs: seq<Pair>) {
    Fits(pairs) && Sorted(pairs) && h == Encode(pairs)
  }

  // ----- reading one pair -----

  /** The key and the value of pair `i`, which stand one behind the other. */
  function ItemAt(h: HStore, i: nat): Str
    requires HasString(h, 2 * i) && HasString(h, 2 * i + 1)
    requires Offset(h, 2 * i) + Length(h, 2 * i) + Length(h, 2 * i + 1) <= |StringArea(h)|
  {
    StringArea(h)[Offset(h, 2 * i)..][..Length(h, 2 * i) + Length(h, 2 * i + 1)]
  }

  /** What the decoding macros return for pair `i` is `p`. */
  ghost predicate Reads(h: HStore, i: nat, p: Pair) {
    && HasString(h, 2 * i) && HasString(h, 2 * i + 1)
    && Offset(h, 2 * i) + Length(h, 2 * i) + Length(h, 2 * i + 1) <= |StringArea(h)|
    && Length(h, 2 * i) == |p.key|
    && StringOf(h, 2 * i) == p.key && StringOf(h, 2 * i + 1) == ValueBytes(p.val)
    && (IsNull(Entry(h, 2 * i + 1)) <==> p.val.Null?)
    && ItemAt(h, i) == PairBytes(p)
  }

  lemma ReadsPair(pairs: seq<Pair>, i: nat)
    requires Fits(pairs) && i < |pairs|
    ensures Reads(Encode(pairs), i, pairs[i])
  {
    hide Encode, Entry, EndPos, IsFirst, IsNull, Offset, Length, StringArea, Strings;
    EncodedArea(pairs);
    PlaceOfKey(pairs, i);
    PlaceOfValue(pairs, i);
    DecodePair(pairs, i);
    StringsAt(pairs, i);
  }

  /** The comparison of values: both null, or the same bytes. */
  predicate SameValue(h: HStore, i: nat, g: HStore, j: nat)
    requires HasString(h, 2 * i + 1) && HasString(g, 2 * j + 1)
  {
    var isNull := IsNull(Entry(h, 2 * i + 1));
    && isNull == IsNull(Entry(g, 2 * j + 1))
    && (isNull || StringOf(h, 2 * i + 1) == StringOf(g, 2 * j + 1))
  }

  lemma SameValueMeans(h: HStore, i: nat, p: Pair, g: HStore, j: nat, q: Pair)
    requires Reads(h, i, p) && Reads(g, j, q)
    ensures SameValue(h, i, g, j) <==> p.val == q.val
  {
  }

  // ----- copies -----

  /** `HS_FIXSIZE`: the size from the end of the last value. */
  function FixedSize(h: HStore): nat
    requires HasEntries(h)
  {
    8 * h.count + if h.count > 0 then EndPos(Entry(h, 2 * h.count - 1)) else 0
  }

  /** A packed value has the size that its entries say. */
  lemma FixSizeIsIdentity(pairs: seq<Pair>)
    requires Fits(pairs)
    ensures HasEntries(Encode(pairs)) && FixedSize(Encode(pairs)) == |Encode(pairs).data|
  {
    hide Entry, EndPos;
    var n := |pairs|;
    if n > 0 {
      EncodedEntry(pairs, 2 * n - 1);
      EntriesOf(pairs, n - 1);
      StringsNext(pairs, n - 1);
      assert pairs[..n] == pairs;
    }
  }

  /** A copy of an operand, which is the result when there is nothing to merge. */
  method Copy(h: HStore, ghost pairs: seq<Pair>) returns (r: HStore)
    requires Is(h, pairs)
    ensures r == h
  {
    hide Encode, FixedSize, Sorted;
    FixSizeIsIdentity(pairs);
    r := HStore(h.count, h.data[..FixedSize(h)]);
    assert h.data[..|h.data|] == h.data;
  }

  // ----- hstore_concat -----

  lemma MergeStep(o: seq<Pair>, a: seq<Pair>, b: seq<Pair>, i: nat, j: nat)
    requires i <= |a| && j <= |b|
    ensures i == |a| ==> Merge(a[i..], b[j..]) == b[j..]
    ensures j == |b| ==> Merge(a[i..], b[j..]) == a[i..]
    ensures i < |a| && j < |b| ==>
      var d := KeyCompare(a[i].key, b[j].key);
      && (d < 0 ==> o + Merge(a[i..], b[j..]) == o + [a[i]] + Merge(a[i + 1..], b[j..]))
      && (d == 0 ==> o + Merge(a[i..], b[j..]) == o + [b[j]] + Merge(a[i + 1..], b[j + 1..]))
      && (d > 0 ==> o + Merge(a[i..], b[j..]) == o + [b[j]] + Merge(a[i..], b[j + 1..]))
  {
    if i < |a| { assert a[i..][1..] == a[i + 1..]; }
    if j < |b| { assert b[j..][1..] == b[j + 1..]; }
  }

  lemma MergeRest(o: seq<Pair>, a: seq<Pair>, b: seq<Pair>, i: nat, j: nat)
    requires i <= |a| && j <= |b|
    ensures i == |a| && j < |b| ==> o + Merge(a[i..], b[j..]) == o + [b[j]] + Merge(a[i..], b[j + 1..])
    ensures i < |a| && j == |b| ==> o + Merge(a[i..], b[j..]) == o + [a[i]] + Merge(a[i + 1..], b[j..])
    ensures i == |a| && j == |b| ==> o + Merge(a[i..], b[j..]) == o
  {
    if i < |a| { assert a[i..] == [a[i]] + a[i + 1..]; }
    if j < |b| { assert b[j..] == [b[j]] + b[j + 1..]; }
  }

  /** `HSTORE_KEY` of pair `i`. */
  method KeyAt(h: HStore, ghost pairs: seq<Pair>, i: nat) returns (k: Str)
    requires Is(h, pairs) && i < |pairs|
    ensures k == pairs[i].key
  {
    hide Encode, Strings, Sorted, Offset, Length, StringArea, Entry, IsNull, EndPos;
    ReadsPair(pairs, i);
    k := StringOf(h, 2 * i);
  }

  /** `HS_COPYITEM` of pair `i` of an operand. */
  method Take(out: Builder, h: HStore, ghost pairs: seq<Pair>, i: nat)
    requires Is(h, pairs) && i < |pairs| && out.Valid() && NextFits(out.pairs, pairs[i])
    requires 8 * |out.pairs| + 8 <= out.bufd
    requires out.bufd + |Strings(out.pairs)| + |PairBytes(pairs[i])| <= out.mem.Length
    modifies out, out.mem
    ensures out.Valid() && out.pairs == old(out.pairs) + [pairs[i]]
  {
    hide Encode, Strings, Sorted, Offset, Length, StringOf, StringArea, Entry, IsNull, EndPos, Laid;
    ReadsPair(pairs, i);
    out.CopyItem(ItemAt(h, i), Length(h, 2 * i), IsNull(Entry(h, 2 * i + 1)), pairs[i]);
  }

  /** The strings of a longer prefix, and of all pairs. */
  lemma Used(pairs: seq<Pair>, i: nat)
    requires i < |pairs|
    ensures |Strings(pairs[..i + 1])| == |Strings(pairs[..i])| + |PairBytes(pairs[i])| <= |Strings(pairs)|
  {
    hide Strings;
    StringsNext(pairs, i);
    StringsAt(pairs, i);
  }

  /** The loop of `hstore_concat`. */
  method MergeInto(out: Builder, s1: HStore, s2: HStore, ghost p1: seq<Pair>, ghost p2: seq<Pair>)
    requires Is(s1, p1) && Is(s2, p2) && out.Valid() && out.pairs == []
    requires out.bufd == 8 * (|p1| + |p2|) && out.bufd + |Strings(p1)| + |Strings(p2)| <= out.mem.Length
    requires |Strings(p1)| + |Strings(p2)| < POS_LIMIT
    modifies out, out.mem
    ensures out.Valid() && out.pairs == Merge(p1, p2)
  {
    hide Strings, Merge, Sorted, Built, PairBytes, KeyCompare, Entries, WordsBytes;
    var i, j := 0, 0;
    StringsNone();
    assert p1[0..] == p1 && p2[0..] == p2 && p1[..0] == [] && p2[..0] == [];
    while i < s1.count || j < s2.count
      invariant 0 <= i <= |p1| && 0 <= j <= |p2|
      invariant out.Valid()
      invariant out.pairs + Merge(p1[i..], p2[j..]) == Merge(p1, p2)
      invariant |out.pairs| <= i + j && |Strings(out.pairs)| <= |Strings(p1[..i])| + |Strings(p2[..j])|
      invariant |Strings(p1[..i])| <= |Strings(p1)| && |Strings(p2[..j])| <= |Strings(p2)|
      decreases |p1| - i + |p2| - j
    {
      MergeStep(out.pairs, p1, p2, i, j);
      MergeRest(out.pairs, p1, p2, i, j);
      if i < |p1| { Used(p1, i); }
      if j < |p2| { Used(p2, j); }
      var difference := 0;
      if i >= s1.count {
        difference := 1;
      } else if j >= s2.count {
        difference := -1;
      } else {
        var k1 := KeyAt(s1, p1, i);
        var k2 := KeyAt(s2, p2, j);
        difference := KeyCompare(k1, k2);
      }
      if difference >= 0 {
        StringsSnoc(out.pairs, p2[j]);
        Take(out, s2, p2, j);
        j := j + 1;
        if difference == 0 { i := i + 1; }
      } else {
        StringsSnoc(out.pairs, p1[i]);
        Take(out, s1, p1, i);
        i := i + 1;
      }
    }
    MergeRest(out.pairs, p1, p2, i, j);
  }

  /** `hstore_concat`. */
  method Concat(s1: HStore, s2: HStore, ghost p1: seq<Pair>, ghost p2: seq<Pair>) returns (r: Outcome)
    requires Is(s1, p1) && Is(s2, p2)
    ensures r.AllocError? <==> VarSize(s1) + VarSize(s2) > MAX_ALLOC
    ensures r.Done? ==> Is(r.value, Merge(p1, p2)) && ToMap(Merge(p1, p2)) == ToMap(p1) + ToMap(p2)
  {
    hide Strings, Sorted, Built, ToMap, WordsBytes, Entries;
    MergeIsOverride(p1, p2);
    var size := VarSize(s1) + VarSize(s2);
    if size > MAX_ALLOC { return AllocError; }
    if s1.count == 0 {
      var c := Copy(s2, p2);
      return Done(c);
    }
    if s2.count == 0 {
      var c := Copy(s1, p1);
      return Done(c);
    }
    var out := new Builder(size - HEADER, s1.count + s2.count);
    MergeInto(out, s1, s2, p1, p2);
    var h := out.Finalize();
    return Done(h);
  }

  // ----- hstore_delete_array -----

  lemma WithoutStep(o: seq<Pair>, a: seq<Pair>, keys: seq<Str>, i: nat, j: nat)
    requires i < |a| && j <= |keys|
    ensures j == |keys| ==> o + Without(a[i..], keys[j..]) == o + [a[i]] + Without(a[i + 1..], keys[j..])
    ensures j < |keys| ==>
      var d := KeyCompare(a[i].key, keys[j]);
      && (d > 0 ==> Without(a[i..], keys[j..]) == Without(a[i..], keys[j + 1..]))
      && (d == 0 ==> Without(a[i..], keys[j..]) == Without(a[i + 1..], keys[j + 1..]))
      && (d < 0 ==> o + Without(a[i..], keys[j..]) == o + [a[i]] + Without(a[i + 1..], keys[j..]))
  {
    assert a[i..][1..] == a[i + 1..] && a[i..] == [a[i]] + a[i + 1..];
    if j < |keys| { assert keys[j..][1..] == keys[j + 1..]; }
  }

  /** The loop of `hstore_delete_array`. */
  method RemoveInto(out: Builder, hs: HStore, keys: seq<Str>, ghost pairs: seq<Pair>)
    requires Is(hs, pairs) && out.Valid() && out.pairs == []
    requires out.bufd == 8 * |pairs| && out.bufd + |Strings(pairs)| <= out.mem.Length
    modifies out, out.mem
    ensures out.Valid() && out.pairs == Without(pairs, keys)
  {
    hide Strings, Without, Sorted, Built, PairBytes, KeyCompare, Entries, WordsBytes;
    var i, j := 0, 0;
    StringsNone();
    assert pairs[0..] == pairs && pairs[..0] == [] && keys[0..] == keys;
    while i < hs.count
      invariant 0 <= i <= |pairs| && 0 <= j <= |keys|
      invariant out.Valid()
      invariant out.pairs + Without(pairs[i..], keys[j..]) == Without(pairs, keys)
      invariant |out.pairs| <= i && |Strings(out.pairs)| <= |Strings(pairs[..i])| <= |Strings(pairs)|
      decreases |pairs| - i + |keys| - j
    {
      WithoutStep(out.pairs, pairs, keys, i, j);
      Used(pairs, i);
      var difference := 0;
      if j >= |keys| {
        difference := -1;
      } else {
        var k := KeyAt(hs, pairs, i);
        difference := KeyCompare(k, keys[j]);
      }
      if difference > 0 {
        j := j + 1;
      } else if difference == 0 {
        i, j := i + 1, j + 1;
      } else {
        StringsSnoc(out.pairs, pairs[i]);
        Take(out, hs, pairs, i);
        i := i + 1;
      }
    }
    WithoutNone(out.pairs, pairs[i..], keys[j..]);
  }

  lemma WithoutNone(o: seq<Pair>, a: seq<Pair>, keys: seq<Str>)
    ensures a == [] ==> o + Without(a, keys) == o
  {
  }

  /** `hstore_delete_array`; the keys come sorted and without duplicates. */
  method DeleteArray(hs: HStore, keys: seq<Str>, ghost pairs: seq<Pair>) returns (r: Outcome)
    requires Is(hs, pairs) && SortedKeys(keys)
    ensures r.AllocError? <==> VarSize(hs) > MAX_ALLOC
    ensures r.Done? ==> Is(r.value, Without(pairs, keys))
    ensures ToMap(Without(pairs, keys)) == ToMap(pairs) - (set k | k in keys)
  {
    hide Strings, Sorted, Built, ToMap, WordsBytes, Entries;
    WithoutIsRemoval(pairs, keys);
    var size := VarSize(hs);
    if size > MAX_ALLOC { return AllocError; }
    if keys == [] {
      var c := Copy(hs, pairs);
      return Done(c);
    }
    var out := new Builder(size - HEADER, hs.count);
    RemoveInto(out, hs, keys, pairs);
    var h := out.Finalize();
    return Done(h);
  }

  // ----- hstore_delete_hstore -----

  lemma MinusStep(o: seq<Pair>, a: seq<Pair>, b: seq<Pair>, i: nat, j: nat)
    requires i < |a| && j <= |b|
    ensures j == |b| ==> o + Minus(a[i..], b[j..]) == o + [a[i]] + Minus(a[i + 1..], b[j..])
    ensures j < |b| ==>
      var d := KeyCompare(a[i].key, b[j].key);
      && (d > 0 ==> Minus(a[i..], b[j..]) == Minus(a[i..], b[j + 1..]))
      && (d == 0 && a[i].val == b[j].val ==> o + Minus(a[i..], b[j..]) == o + Minus(a[i + 1..], b[j + 1..]))
      && (d == 0 && a[i].val != b[j].val ==> o + Minus(a[i..], b[j..]) == o + [a[i]] + Minus(a[i + 1..], b[j + 1..]))
      && (d < 0 ==> o + Minus(a[i..], b[j..]) == o + [a[i]] + Minus(a[i + 1..], b[j..]))
  {
    assert a[i..][1..] == a[i + 1..] && a[i..] == [a[i]] + a[i + 1..];
    if j < |b| { assert b[j..][1..] == b[j + 1..]; }
  }

  lemma MinusNone(o: seq<Pair>, a: seq<Pair>, b: seq<Pair>)
    ensures a == [] ==> o + Minus(a, b) == o
  {
  }

  /** Whether the values of two pairs agree. */
  method ValuesAgree(h: HStore, ghost p: seq<Pair>, i: nat, g: HStore, ghost q: seq<Pair>, j: nat) returns (same: bool)
    requires Is(h, p) && i < |p| && Is(g, q) && j < |q|
    ensures same <==> p[i].val == q[j].val
  {
    hide Encode, Strings, Sorted, Offset, Length, StringArea, Entry, EndPos;
    ReadsPair(p, i);
    ReadsPair(q, j);
    SameValueMeans(h, i, p[i], g, j, q[j]);
    same := SameValue(h, i, g, j);
  }

  /** The loop of `hstore_delete_hstore`. */
  method SubtractInto(out: Builder, hs: HStore, hs2: HStore, ghost p: seq<Pair>, ghost q: seq<Pair>)
    requires Is(hs, p) && Is(hs2, q) && out.Valid() && out.pairs == []
    requires out.bufd == 8 * |p| && out.bufd + |Strings(p)| <= out.mem.Length
    modifies out, out.mem
    ensures out.Valid() && out.pairs == Minus(p, q)
  {
    hide Strings, Minus, Sorted, Built, PairBytes, KeyCompare, Entries, WordsBytes;
    var i, j := 0, 0;
    StringsNone();
    assert p[0..] == p && p[..0] == [] && q[0..] == q;
    while i < hs.count
      invariant 0 <= i <= |p| && 0 <= j <= |q|
      invariant out.Valid()
      invariant out.pairs + Minus(p[i..], q[j..]) == Minus(p, q)
      invariant |out.pairs| <= i && |Strings(out.pairs)| <= |Strings(p[..i])| <= |Strings(p)|
      decreases |p| - i + |q| - j
    {
      MinusStep(out.pairs, p, q, i, j);
      Used(p, i);
      StringsSnoc(out.pairs, p[i]);
      var difference := 0;
      if j >= hs2.count {
        difference := -1;
      } else {
        var k1 := KeyAt(hs, p, i);
        var k2 := KeyAt(hs2, q, j);
        difference := KeyCompare(k1, k2);
      }
      if difference > 0 {
        j := j + 1;
      } else if difference == 0 {
        var same := ValuesAgree(hs, p, i, hs2, q, j);
        if !same {
          Take(out, hs, p, i);
        }
        i, j := i + 1, j + 1;
      } else {
        Take(out, hs, p, i);
        i := i + 1;
      }
    }
    MinusNone(out.pairs, p[i..], q[j..]);
  }

  /** `hstore_delete_hstore`. */
  method DeleteHStore(hs: HStore, hs2: HStore, ghost p: seq<Pair>, ghost q: seq<Pair>) returns (r: Outcome)
    requires Is(hs, p) && Is(hs2, q)
    ensures r.AllocError? <==> VarSize(hs) > MAX_ALLOC
    ensures r.Done? ==> Is(r.value, Minus(p, q))
    ensures ToMap(Minus(p, q)) == map k | k in ToMap(p) && !(k in ToMap(q) && ToMap(q)[k] == ToMap(p)[k]) :: ToMap(p)[k]
  {
    hide Strings, Sorted, Built, ToMap, WordsBytes, Entries;
    MinusIsRemoval(p, q);
    var size := VarSize(hs);
    if size > MAX_ALLOC { return AllocError; }
    if hs2.count == 0 {
      var c := Copy(hs, p);
      return Done(c);
    }
    var out := new Builder(size - HEADER, hs.count);
    SubtractInto(out, hs, hs2, p, q);
    var h := out.Finalize();
    return Done(h);
  }

  // ----- hstoreFindKey -----

  /** All keys of `pairs` before position `n` come before `k`. */
  predicate AllBefore(pairs: seq<Pair>, n: nat, k: Str) {
    n <= |pairs| && forall i :: 0 <= i < n ==> Before(pairs[i].key, k)
  }

  predicate AllAfter(pairs: seq<Pair>, n: nat, k: Str) {
    n <= |pairs| && forall i :: n <= i < |pairs| ==> Before(k, pairs[i].key)
  }

  lemma BeforeMiddle(pairs: seq<Pair>, m: nat, k: Str)
    requires Sorted(pairs) && m < |pairs|
    ensures Before(pairs[m].key, k) ==> AllBefore(pairs, m + 1, k)
    ensures Before(k, pairs[m].key) ==> AllAfter(pairs, m, k)
    ensures pairs[m].key == k ==> AllBefore(pairs, m, k) && AllAfter(pairs, m + 1, k)
  {
    hide KeyCompare;
    if Before(pairs[m].key, k) {
      forall i | 0 <= i < m + 1 ensures Before(pairs[i].key, k) {
        if i < m { BeforeTransitive(pairs[i].key, pairs[m].key, k); }
      }
    }
    if Before(k, pairs[m].key) {
      forall i | m <= i < |pairs| ensures Before(k, pairs[i].key) {
        if i > m { BeforeTransitive(k, pairs[m].key, pairs[i].key); }
      }
    }
  }

  lemma Surrounded(pairs: seq<Pair>, n: nat, k: Str)
    requires AllBefore(pairs, n, k) && AllAfter(pairs, n, k)
    ensures !HasKey(pairs, k)
  {
    hide KeyCompare;
    forall i | 0 <= i < |pairs| ensures pairs[i].key != k { KeyCompareTotal(pairs[i].key, k); }
  }

  /**
   `hstoreFindKey`: a search from a lower bound that all smaller keys lie below finds the key exactly when
   the value has it, and carries on a lower bound that is right for every larger key.
   */
  method FindKey(hs: HStore, ghost pairs: seq<Pair>, lowbound: nat, key: Str) returns (idx: int, low: nat)
    requires Is(hs, pairs) && AllBefore(pairs, lowbound, key)
    ensures idx >= 0 <==> HasKey(pairs, key)
    ensures idx >= 0 ==> idx < |pairs| && pairs[idx].key == key && low == idx + 1
    ensures low <= |pairs|
    ensures forall k :: Before(key, k) ==> AllBefore(pairs, low, k)
  {
    hide Strings, Entries, WordsBytes, KeyCompare;
    var stopLow, stopHigh := lowbound, hs.count;
    while stopLow < stopHigh
      invariant lowbound <= stopLow <= stopHigh <= |pairs|
      invariant AllBefore(pairs, stopLow, key) && AllAfter(pairs, stopHigh, key)
    {
      var stopMiddle := stopLow + (stopHigh - stopLow) / 2;
      var k := KeyAt(hs, pairs, stopMiddle);
      var difference := KeyCompare(k, key);
      BeforeMiddle(pairs, stopMiddle, key);
      KeyCompareTotal(k, key);
      KeyCompareTotal(key, k);
      if difference == 0 {
        BeyondKey(pairs, stopMiddle + 1, key);
        return stopMiddle, stopMiddle + 1;
      } else if difference < 0 {
        stopLow := stopMiddle + 1;
      } else {
        stopHigh := stopMiddle;
      }
    }
    Surrounded(pairs, stopLow, key);
    BeyondKey(pairs, stopLow, key);
    return -1, stopLow;
  }

  /** What lies up to `key` lies before every larger key. */
  lemma BeyondKey(pairs: seq<Pair>, n: nat, key: Str)
    requires n <= |pairs| && forall i :: 0 <= i < n ==> Before(pairs[i].key, key) || pairs[i].key == key
    ensures forall k :: Before(key, k) ==> AllBefore(pairs, n, k)
  {
    hide KeyCompare;
    forall k, i | Before(key, k) && 0 <= i < n ensures Before(pairs[i].key, k) {
      if pairs[i].key != key { BeforeTransitive(pairs[i].key, key, k); }
    }
  }

  // ----- the tests that search for ascending keys -----

  /** `hstore_exists_any`. */
  method ExistsAny(hs: HStore, keys: seq<Str>, ghost pairs: seq<Pair>) returns (res: bool)
    requires Is(hs, pairs) && SortedKeys(keys)
    ensures res <==> exists k :: k in keys && k in ToMap(pairs)
  {
    hide Strings, Entries, WordsBytes, KeyCompare, ToMap, Encode, Sorted;
    var low: nat := 0;
    for i := 0 to |keys|
      invariant low <= |pairs| && (i < |keys| ==> AllBefore(pairs, low, keys[i]))
      invariant forall j :: 0 <= j < i ==> keys[j] !in ToMap(pairs)
    {
      var idx;
      idx, low := FindKey(hs, pairs, low, keys[i]);
      MapHas(pairs, Pair(keys[i], Null));
      if idx >= 0 { return true; }
    }
    res := false;
  }

  /** `hstore_exists_all`. */
  method ExistsAll(hs: HStore, keys: seq<Str>, ghost pairs: seq<Pair>) returns (res: bool)
    requires Is(hs, pairs) && SortedKeys(keys)
    ensures res <==> forall k :: k in keys ==> k in ToMap(pairs)
  {
    hide Strings, Entries, WordsBytes, KeyCompare, ToMap, Encode, Sorted;
    var low: nat := 0;
    for i := 0 to |keys|
      invariant low <= |pairs| && (i < |keys| ==> AllBefore(pairs, low, keys[i]))
      invariant forall j :: 0 <= j < i ==> keys[j] in ToMap(pairs)
    {
      var idx;
      idx, low := FindKey(hs, pairs, low, keys[i]);
      MapHas(pairs, Pair(keys[i], Null));
      if idx < 0 { return false; }
    }
    res := true;
  }

  /** `hstore_contains`: the pairs of `tmpl` are among those of `val`. */
  method Contains(val: HStore, tmpl: HStore, ghost p: seq<Pair>, ghost q: seq<Pair>) returns (res: bool)
    requires Is(val, p) && Is(tmpl, q)
    ensures res <==> Submap(ToMap(q), ToMap(p))
  {
    hide Strings, Entries, WordsBytes, KeyCompare, ToMap;
    var low: nat := 0;
    res := true;
    var i := 0;
    while res && i < tmpl.count
      invariant 0 <= i <= |q| && low <= |p| && (res && i < |q| ==> AllBefore(p, low, q[i].key))
      invariant res ==> forall j :: 0 <= j < i ==> q[j] in p
      invariant !res ==> exists j :: 0 <= j < |q| && q[j] !in p
    {
      var key := KeyAt(tmpl, q, i);
      var idx;
      idx, low := FindKey(val, p, low, key);
      if idx >= 0 {
        res := ValuesAgree(tmpl, q, i, val, p, idx);
        OnlyPairOfKey(p, idx, q[i]);
      } else {
        res := false;
      }
      i := i + 1;
    }
    ContainedMaps(p, q);
  }

  lemma OnlyPairOfKey(p: seq<Pair>, idx: nat, x: Pair)
    requires Sorted(p) && idx < |p| && p[idx].key == x.key
    ensures x in p <==> p[idx] == x
  {
    MapHas(p, x);
    MapHas(p, p[idx]);
  }

  ghost predicate Submap(m: map<Str, Value>, n: map<Str, Value>) {
    forall k :: k in m ==> k in n && n[k] == m[k]
  }

  lemma ContainedMaps(p: seq<Pair>, q: seq<Pair>)
    requires Sorted(p) && Sorted(q)
    ensures (forall x :: x in q ==> x in p) <==> Submap(ToMap(q), ToMap(p))
  {
    hide ToMap, Sorted;
    if forall x :: x in q ==> x in p {
      forall k | k in ToMap(q) ensures k in ToMap(p) && ToMap(p)[k] == ToMap(q)[k] {
        MapHas(q, Pair(k, ToMap(q)[k]));
        MapHas(p, Pair(k, ToMap(q)[k]));
      }
    } else {
      var x :| x in q && x !in p;
      MapHas(q, x);
      MapHas(p, x);
    }
  }
}

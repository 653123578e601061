/**
 The btree order on hstore values (contrib/hstore/hstore_op.c, `hstore_cmp`), and its agreement with
 equality of maps and with the bytes that are hashed (`hstore_hash`).
 */
module HstoreCompare {
  import opened Bytes
  import opened HstoreFormat
  import opened HstoreMap
  import opened HstoreOps

  /** What the comparison of entries looks at: the end position, then null after not null. */
  function Rank(entry: int): int { 2 * EndPos(entry) + if IsNull(entry) then 1 else 0 }

  function Ranks(p: seq<Pair>): (r: seq<int>)
    requires Fits(p)
    ensures |r| == 2 * |p|
  {
    seq(2 * |p|, k requires 0 <= k < 2 * |p| => Rank(Entries(p)[k]))
  }

  function Sign(x: int, y: int): int { if x > y then 1 else if x < y then -1 else 0 }

  /** The order on lists: empty first, then by the strings run together, the count, and the entries. */
  function Order(p: seq<Pair>, q: seq<Pair>): int
    requires Fits(p) && Fits(q)
  {
    if p == [] || q == [] then Sign(|p|, |q|)
    else if Compare(Strings(p), Strings(q)) != 0 then Compare(Strings(p), Strings(q))
    else if |p| != |q| then Sign(|p|, |q|)
    else Compare(Ranks(p), Ranks(q))
  }

  /** The entries agree up to one that ends earlier, or ends there too and is not null where the other is. */
  ghost predicate EntriesPrecede(p: seq<Pair>, q: seq<Pair>)
    requires Fits(p) && Fits(q) && |p| == |q|
  {
    exists k: nat :: k < 2 * |p| && EntryPrecedes(Entries(p)[k], Entries(q)[k]) &&
      forall j :: 0 <= j < k ==> EndPos(Entries(p)[j]) == EndPos(Entries(q)[j]) && (IsNull(Entries(p)[j]) <==> IsNull(Entries(q)[j]))
  }

  predicate EntryPrecedes(e1: int, e2: int) { EndPos(e1) < EndPos(e2) || (EndPos(e1) == EndPos(e2) && !IsNull(e1) && IsNull(e2)) }

  /** The empty value first; then the smaller strings, fewer pairs, or the entries. */
  ghost predicate Precedes(p: seq<Pair>, q: seq<Pair>)
    requires Fits(p) && Fits(q)
  {
    q != [] &&
    (p == [] || Smaller(Strings(p), Strings(q)) ||
     (Strings(p) == Strings(q) && (|p| < |q| || (|p| == |q| && EntriesPrecede(p, q)))))
  }

  lemma RanksPrecede(p: seq<Pair>, q: seq<Pair>)
    requires Fits(p) && Fits(q) && |p| == |q|
    ensures Smaller(Ranks(p), Ranks(q)) <==> EntriesPrecede(p, q)
  {
    hide Entries, EndPos, IsNull, Rank, Strings;
    forall k | 0 <= k < 2 * |p| {
      RankCompare(Entries(p)[k], Entries(q)[k]);
    }
    if Smaller(Ranks(p), Ranks(q)) {
      var k: nat :| k <= |Ranks(p)| && k < |Ranks(q)| && Ranks(p)[..k] == Ranks(q)[..k] && (k == |Ranks(p)| || Ranks(p)[k] < Ranks(q)[k]);
      forall j | 0 <= j < k ensures Rank(Entries(p)[j]) == Rank(Entries(q)[j]) {
        assert Ranks(p)[..k][j] == Ranks(q)[..k][j];
      }
      assert EntryPrecedes(Entries(p)[k], Entries(q)[k]);
    }
    if EntriesPrecede(p, q) {
      var k: nat :| k < 2 * |p| && EntryPrecedes(Entries(p)[k], Entries(q)[k]) &&
        forall j :: 0 <= j < k ==> EndPos(Entries(p)[j]) == EndPos(Entries(q)[j]) && (IsNull(Entries(p)[j]) <==> IsNull(Entries(q)[j]));
      assert Ranks(p)[..k] == Ranks(q)[..k];
    }
  }

  /** The order says less exactly for lists that precede. */
  lemma OrderExactly(p: seq<Pair>, q: seq<Pair>)
    requires Fits(p) && Fits(q)
    ensures Order(p, q) == -1 <==> Precedes(p, q)
  {
    hide Strings, Ranks, EntriesPrecede, Compare, Smaller;
    CompareExactly(Strings(p), Strings(q));
    CompareExactly(Ranks(p), Ranks(q));
    if |p| == |q| { RanksPrecede(p, q); }
  }

  // ----- the code computes the order -----

  /** `memcmp` over the shorter length, then the lengths. */
  lemma CompareByLength(a: Str, b: Str, n: nat)
    requires n == if |a| < |b| then |a| else |b|
    ensures var d := Compare(a[..n], b[..n]); Compare(a, b) == if d != 0 then d else Sign(|a|, |b|)
  {
    var k := CommonPrefix(a, b);
    assert a[..n][..k] == a[..k] && b[..n][..k] == b[..k];
    CommonPrefixUnique(a[..n], b[..n], k);
  }

  lemma RankOf(p: seq<Pair>, k: nat)
    requires Fits(p) && k < 2 * |p|
    ensures HasEntries(Encode(p)) && Rank(Entry(Encode(p), k)) == Ranks(p)[k]
  {
    hide Encode, Entry, Entries, Rank;
    EncodedEntry(p, k);
  }

  /** `str` up to the end of the last value. */
  method StringsOf(h: HStore, ghost p: seq<Pair>) returns (s: Str)
    requires Is(h, p) && p != []
    ensures s == Strings(p)
  {
    hide Strings, Entries, EndPos, Entry, Sorted;
    FixSizeIsIdentity(p);
    EncodedArea(p);
    var len := EndPos(Entry(h, 2 * h.count - 1));
    s := StringArea(h)[..len];
  }

  /** Comparing two entries by end position and null flag compares their ranks. */
  lemma RankCompare(e1: int, e2: int)
    ensures Rank(e1) == Rank(e2) <==> EndPos(e1) == EndPos(e2) && (IsNull(e1) <==> IsNull(e2))
    ensures Rank(e1) < Rank(e2) <==> EndPos(e1) < EndPos(e2) || (EndPos(e1) == EndPos(e2) && !IsNull(e1) && IsNull(e2))
  {
    hide EndPos, IsNull;
  }

  /** The loop over the entries. */
  method CompareEntries(hs1: HStore, hs2: HStore, ghost p: seq<Pair>, ghost q: seq<Pair>) returns (res: int)
    requires Is(hs1, p) && Is(hs2, q) && |p| == |q|
    ensures res == Compare(Ranks(p), Ranks(q))
  {
    hide Strings, Entries, EndPos, IsNull, Entry, Rank, Ranks, Sorted, WordsBytes, Compare;
    var count := hs1.count * 2;
    var i := 0;
    while i < count
      invariant 0 <= i <= count
      invariant forall j :: 0 <= j < i ==> Ranks(p)[j] == Ranks(q)[j]
    {
      RankOf(p, i);
      RankOf(q, i);
      var e1, e2 := Entry(hs1, i), Entry(hs2, i);
      RankCompare(e1, e2);
      RankCompare(e2, e1);
      if EndPos(e1) != EndPos(e2) || IsNull(e1) != IsNull(e2) {
        CompareAt(Ranks(p), Ranks(q), i);
        if EndPos(e1) < EndPos(e2) {
          return -1;
        } else if EndPos(e1) > EndPos(e2) {
          return 1;
        } else if IsNull(e1) {
          return 1;
        } else {
          return -1;
        }
      }
      i := i + 1;
    }
    CompareAt(Ranks(p), Ranks(q), i);
    res := 0;
  }

  lemma CompareAt(a: Str, b: Str, i: nat)
    requires |a| == |b| && i <= |a| && forall j :: 0 <= j < i ==> a[j] == b[j]
    ensures i == |a| ==> Compare(a, b) == 0
    ensures i < |a| && a[i] < b[i] ==> Compare(a, b) == -1
    ensures i < |a| && a[i] > b[i] ==> Compare(a, b) == 1
  {
    assert a[..i] == b[..i];
    if i == |a| || a[i] != b[i] { CommonPrefixUnique(a, b, i); }
  }

  /** `hstore_cmp`. */
  method HstoreCmp(hs1: HStore, hs2: HStore, ghost p: seq<Pair>, ghost q: seq<Pair>) returns (res: int)
    requires Is(hs1, p) && Is(hs2, q)
    ensures res == Order(p, q)
  {
    hide Strings, Entries, Ranks, Sorted, WordsBytes, Compare;
    res := 0;
    if hs1.count == 0 || hs2.count == 0 {
      if hs1.count > 0 {
        res := 1;
      } else if hs2.count > 0 {
        res := -1;
      }
    } else {
      var str1 := StringsOf(hs1, p);
      var str2 := StringsOf(hs2, q);
      var n := if |str1| < |str2| then |str1| else |str2|;
      res := Compare(str1[..n], str2[..n]);
      CompareByLength(str1, str2, n);
      if res == 0 {
        if |str1| > |str2| {
          res := 1;
        } else if |str1| < |str2| {
          res := -1;
        } else if hs1.count > hs2.count {
          res := 1;
        } else if hs2.count > hs1.count {
          res := -1;
        } else {
          res := CompareEntries(hs1, hs2, p, q);
        }
      }
    }
  }

  // ----- the order is total and tells maps apart -----

  lemma EncodeInjective(p: seq<Pair>, q: seq<Pair>)
    requires Fits(p) && Fits(q) && Encode(p) == Encode(q)
    ensures p == q
  {
    assert Encode(p).count == |p| && Encode(q).count == |q|;
    forall i | 0 <= i < |p| ensures p[i] == q[i] {
      SameRead(p, q, i);
    }
  }

  lemma SameRead(p: seq<Pair>, q: seq<Pair>, i: nat)
    requires Fits(p) && Fits(q) && i < |p| && i < |q| && Encode(p) == Encode(q)
    ensures p[i] == q[i]
  {
    hide Encode, HasString, StringOf, Entry, IsNull;
    DecodePair(p, i);
    DecodePair(q, i);
    assert ValueBytes(p[i].val) == ValueBytes(q[i].val);
  }

  /** An entry is known from its rank and its place. */
  lemma EntryFromRank(p: seq<Pair>, k: nat)
    requires Fits(p) && k < 2 * |p|
    ensures var r := Ranks(p)[k];
      Entries(p)[k] == r / 2 + (if r % 2 == 1 then ISNULL else 0) + (if k == 0 then ISFIRST else 0)
  {
    EntriesAt(p, k / 2);
    var at, x := |Strings(p[..k / 2])|, p[k / 2];
    Flags(at + |x.key|);
    Flags(at + |PairBytes(x)|);
    FirstKeyEntry(at + |x.key|);
  }

  lemma FirstKeyEntry(pos: nat)
    requires pos < POS_LIMIT
    ensures !IsNull(pos + ISFIRST)
  {
  }

  /** The order says equal for equal lists only. */
  lemma OrderZero(p: seq<Pair>, q: seq<Pair>)
    requires Fits(p) && Fits(q)
    ensures Order(p, q) == 0 <==> p == q
  {
    hide Compare, Ranks, Entries, Strings;
    CompareAntisymmetric(Strings(p), Strings(q));
    CompareAntisymmetric(Ranks(p), Ranks(q));
    if Order(p, q) == 0 && p != [] {
      assert |p| == |q| && Ranks(p) == Ranks(q) && Strings(p) == Strings(q);
      forall k | 0 <= k < 2 * |p| ensures Entries(p)[k] == Entries(q)[k] {
        EntryFromRank(p, k);
        EntryFromRank(q, k);
      }
      assert Entries(p) == Entries(q);
      EncodeInjective(p, q);
    }
  }

  lemma OrderAntisymmetric(p: seq<Pair>, q: seq<Pair>)
    requires Fits(p) && Fits(q)
    ensures Order(p, q) == -Order(q, p)
  {
    hide Compare, Ranks, Strings;
    CompareAntisymmetric(Strings(p), Strings(q));
    CompareAntisymmetric(Ranks(p), Ranks(q));
  }

  lemma OrderTransitive(p: seq<Pair>, q: seq<Pair>, r: seq<Pair>)
    requires Fits(p) && Fits(q) && Fits(r)
    requires Order(p, q) <= 0 && Order(q, r) <= 0
    ensures Order(p, r) <= 0
  {
    hide Compare, Ranks, Strings;
    if p != [] && q != [] && r != [] {
      LeTransitive(Strings(p), Strings(q), Strings(r));
      CompareAntisymmetric(Strings(p), Strings(q));
      CompareAntisymmetric(Strings(q), Strings(r));
      if Compare(Strings(p), Strings(q)) == 0 && Compare(Strings(q), Strings(r)) == 0 && |p| == |q| == |r| {
        LeTransitive(Ranks(p), Ranks(q), Ranks(r));
      }
    }
  }

  /** The bytes that are hashed: the count with the version flag, and everything behind it. */
  function HashedBytes(h: HStore): Str
    requires VarSize(h) <= MAX_ALLOC && HasEntries(h)
  {
    WordBytes(h.count + NEWVERSION) + h.data
  }

  /** Equal in the order, equal as maps and equal as hashed bytes are the same. */
  lemma EqualityAgrees(h: HStore, g: HStore, p: seq<Pair>, q: seq<Pair>)
    requires Is(h, p) && Is(g, q) && VarSize(h) <= MAX_ALLOC && VarSize(g) <= MAX_ALLOC
    requires HasEntries(h) && HasEntries(g)
    ensures Order(p, q) == 0 <==> ToMap(p) == ToMap(q)
    ensures Order(p, q) == 0 <==> HashedBytes(h) == HashedBytes(g)
  {
    hide Order, ToMap, Encode, WordBytes;
    OrderZero(p, q);
    if ToMap(p) == ToMap(q) { MapDetermines(p, q); }
    if HashedBytes(h) == HashedBytes(g) {
      SplitHashed(h, g);
      EncodeInjective(p, q);
    }
  }

  lemma SplitHashed(h: HStore, g: HStore)
    requires VarSize(h) <= MAX_ALLOC && VarSize(g) <= MAX_ALLOC && HasEntries(h) && HasEntries(g)
    requires HashedBytes(h) == HashedBytes(g)
    ensures h == g
  {
    hide WordBytes;
    var a, b := HashedBytes(h), HashedBytes(g);
    assert a[0..4] == WordBytes(h.count + NEWVERSION) && b[0..4] == WordBytes(g.count + NEWVERSION);
    WordRoundTrip(h.count + NEWVERSION, a, 0);
    WordRoundTrip(g.count + NEWVERSION, b, 0);
    assert a[4..] == h.data && b[4..] == g.data;
  }
}

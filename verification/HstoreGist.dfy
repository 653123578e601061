/**
 The signature tree over hstore values (contrib/hstore/hstore_gist.c).  A key is a bit per hash bucket, or
 the all-true mark that stands for all bits.  The hash is an arbitrary function, `n` the number of bits.
 */
module HstoreGist {
  import opened HstoreFormat
  import opened HstoreMap

  datatype Key = AllTrue | Sign(bits: seq<bool>)

  predicate Proper(k: Key, n: nat) { k.Sign? ==> |k.bits| == n }

  /** The bit that a key has at position `i`. */
  predicate Has(k: Key, i: nat)
    requires k.Sign? ==> i < |k.bits|
  {
    k.AllTrue? || k.bits[i]
  }

  /** Every bit of `m` is a bit of `k`. */
  predicate Covers(k: Key, m: Key, n: nat)
    requires Proper(k, n) && Proper(m, n)
  {
    forall i :: 0 <= i < n && Has(m, i) ==> Has(k, i)
  }

  /** `HASHVAL`. */
  function Bucket(crc: Str -> nat, n: nat, s: Str): (b: nat)
    requires n > 0
    ensures b < n
  {
    crc(s) % n
  }

  // ----- ghstore_compress -----

  /** A pair hashes to the bucket of its key and, unless it is null, of its value. */
  predicate PairHits(crc: Str -> nat, n: nat, p: Pair, b: nat)
    requires n > 0
  {
    Bucket(crc, n, p.key) == b || (p.val.Text? && Bucket(crc, n, p.val.s) == b)
  }

  predicate Hit(crc: Str -> nat, n: nat, row: seq<Pair>, b: nat)
    requires n > 0
  {
    exists p <- row :: PairHits(crc, n, p, b)
  }

  /** A key that has exactly the bits of a row. */
  ghost predicate LeafKey(crc: Str -> nat, n: nat, row: seq<Pair>, k: Key)
    requires n > 0
  {
    Proper(k, n) && forall b :: 0 <= b < n ==> (Has(k, b) <==> Hit(crc, n, row, b))
  }

  /** `ghstore_compress` on a leaf entry. */
  method CompressLeaf(crc: Str -> nat, n: nat, row: seq<Pair>) returns (k: Key)
    requires n > 0
    ensures k.Sign? && LeafKey(crc, n, row, k)
  {
    var sign := seq(n, _ => false);
    var i := 0;
    while i < |row|
      invariant 0 <= i <= |row| && |sign| == n
      invariant forall b :: 0 <= b < n ==> (sign[b] <==> Hit(crc, n, row[..i], b))
    {
      ghost var was := sign;
      sign := sign[Bucket(crc, n, row[i].key) := true];
      if row[i].val.Text? {
        sign := sign[Bucket(crc, n, row[i].val.s) := true];
      }
      forall b | 0 <= b < n ensures sign[b] <==> Hit(crc, n, row[..i + 1], b) {
        HitNext(crc, n, row, i, b);
      }
      i := i + 1;
    }
    assert row[..i] == row;
    k := Sign(sign);
  }

  lemma HitNext(crc: Str -> nat, n: nat, row: seq<Pair>, i: nat, b: nat)
    requires n > 0 && i < |row|
    ensures Hit(crc, n, row[..i + 1], b) <==> Hit(crc, n, row[..i], b) || PairHits(crc, n, row[i], b)
  {
    hide PairHits;
    assert row[..i + 1] == row[..i] + [row[i]];
  }

  /** `ghstore_compress` on an inner key: all ones become the mark, and no bit changes. */
  method CompressInner(k: Key, n: nat) returns (r: Key)
    requires Proper(k, n)
    ensures Proper(r, n) && forall i :: 0 <= i < n ==> (Has(r, i) <==> Has(k, i))
    ensures r.AllTrue? <==> forall i :: 0 <= i < n ==> Has(k, i)
  {
    if k.Sign? {
      for i := 0 to n
        invariant forall j :: 0 <= j < i ==> k.bits[j]
      {
        if !k.bits[i] {
          assert !Has(k, i);
          return k;
        }
      }
    }
    r := AllTrue;
  }

  // ----- ghstore_union -----

  /** A key that has exactly the bits of some entries. */
  ghost predicate IsUnion(k: Key, entries: seq<Key>, members: set<nat>, n: nat) {
    && Proper(k, n)
    && (forall j <- members :: j < |entries| && Proper(entries[j], n))
    && forall i :: 0 <= i < n ==> (Has(k, i) <==> HasSome(entries, members, n, i))
  }

  ghost predicate HasSome(entries: seq<Key>, members: set<nat>, n: nat, i: nat) {
    exists j <- members :: j < |entries| && Proper(entries[j], n) && i < n && Has(entries[j], i)
  }

  /** One more entry merged into a key; the mark on either side makes all bits true. */
  function MergeKey(k: Key, e: Key, n: nat): (r: Key)
    requires Proper(k, n) && Proper(e, n)
    ensures Proper(r, n) && forall i :: 0 <= i < n ==> (Has(r, i) <==> Has(k, i) || Has(e, i))
  {
    if k.AllTrue? then k
    else if e.AllTrue? then Sign(seq(n, _ => true))
    else Sign(seq(n, i requires 0 <= i < n => k.bits[i] || e.bits[i]))
  }

  lemma UnionMore(k: Key, entries: seq<Key>, members: set<nat>, n: nat, j: nat, r: Key)
    requires IsUnion(k, entries, members, n) && j < |entries| && Proper(entries[j], n) && Proper(r, n)
    requires forall i :: 0 <= i < n ==> (Has(r, i) <==> Has(k, i) || Has(entries[j], i))
    ensures IsUnion(r, entries, members + {j}, n)
  {
    hide Has;
    forall i | 0 <= i < n ensures Has(r, i) <==> HasSome(entries, members + {j}, n, i) {
      assert HasSome(entries, members + {j}, n, i) <==> HasSome(entries, members, n, i) || Has(entries[j], i);
    }
  }

  /** The positions below `m`. */
  function Below(m: nat): (s: set<nat>)
    ensures forall j :: j in s <==> 0 <= j < m
  {
    if m == 0 then {} else Below(m - 1) + {m - 1}
  }

  /** `ghstore_union`: it may stop at an entry with the mark, and then has all bits. */
  method Union(entries: seq<Key>, n: nat) returns (k: Key)
    requires forall e <- entries :: Proper(e, n)
    ensures IsUnion(k, entries, Below(|entries|), n)
  {
    k := Sign(seq(n, _ => false));
    for i := 0 to |entries|
      invariant IsUnion(k, entries, Below(i), n)
    {
      hide IsUnion;
      if entries[i].AllTrue? {
        AllTrueUnion(entries, n, i);
        return AllTrue;
      }
      UnionMore(k, entries, Below(i), n, i, MergeKey(k, entries[i], n));
      k := MergeKey(k, entries[i], n);
    }
  }

  lemma AllTrueUnion(entries: seq<Key>, n: nat, j: nat)
    requires (forall e <- entries :: Proper(e, n)) && j < |entries| && entries[j].AllTrue?
    ensures IsUnion(AllTrue, entries, Below(|entries|), n)
  {
    assert j in Below(|entries|);
  }

  // ----- distances -----

  function Ones(bits: seq<bool>): nat {
    if bits == [] then 0 else (if bits[0] then 1 else 0) + Ones(bits[1..])
  }

  function Differences(a: seq<bool>, b: seq<bool>): nat
    requires |a| == |b|
  {
    if a == [] then 0 else (if a[0] != b[0] then 1 else 0) + Differences(a[1..], b[1..])
  }

  /** `hemdist`. */
  function HemDist(a: Key, b: Key, n: nat): int
    requires Proper(a, n) && Proper(b, n)
  {
    if a.AllTrue? then if b.AllTrue? then 0 else n - Ones(b.bits)
    else if b.AllTrue? then n - Ones(a.bits)
    else Differences(a.bits, b.bits)
  }

  function Bits(k: Key, n: nat): (b: seq<bool>)
    requires Proper(k, n)
    ensures |b| == n
  {
    seq(n, i requires 0 <= i < n => Has(k, i))
  }

  lemma {:induction false} ComplementCount(a: seq<bool>, b: seq<bool>)
    requires |a| == |b| && forall i :: 0 <= i < |a| ==> a[i]
    ensures Differences(a, b) == Differences(b, a) == |b| - Ones(b)
  {
    if a != [] { ComplementCount(a[1..], b[1..]); }
  }

  lemma {:induction false} NoDifference(a: seq<bool>)
    ensures Differences(a, a) == 0
  {
    if a != [] { NoDifference(a[1..]); }
  }

  /** The distance counts the bits in which two keys differ, whichever way all-true is written. */
  lemma HemDistCounts(a: Key, b: Key, n: nat)
    requires Proper(a, n) && Proper(b, n)
    ensures HemDist(a, b, n) == Differences(Bits(a, n), Bits(b, n))
  {
    if a.Sign? { assert Bits(a, n) == a.bits; }
    if b.Sign? { assert Bits(b, n) == b.bits; }
    if a.AllTrue? && b.AllTrue? {
      assert Bits(a, n) == Bits(b, n);
      NoDifference(Bits(a, n));
    } else if a.AllTrue? {
      ComplementCount(Bits(a, n), b.bits);
    } else if b.AllTrue? {
      ComplementCount(Bits(b, n), a.bits);
    }
  }

  // ----- ghstore_consistent -----

  datatype Query =
    | Contains(pairs: seq<Pair>)
    | Exists(key: Str)
    | ExistsAll(keys: seq<Value>)
    | ExistsAny(keys: seq<Value>)

  predicate Matches(row: seq<Pair>, q: Query) {
    match q
    case Contains(pairs) => forall x <- pairs :: x in row
    case Exists(key) => HasKey(row, key)
    case ExistsAll(keys) => forall k <- keys :: k.Text? ==> HasKey(row, k.s)
    case ExistsAny(keys) => exists k <- keys :: k.Text? && HasKey(row, k.s)
  }

  /** Whether a key has all buckets that a pair hits. */
  predicate HasPair(crc: Str -> nat, n: nat, k: Key, p: Pair)
    requires n > 0 && Proper(k, n)
  {
    Has(k, Bucket(crc, n, p.key)) && (p.val.Text? ==> Has(k, Bucket(crc, n, p.val.s)))
  }

  predicate Passes(crc: Str -> nat, n: nat, k: Key, q: Query)
    requires n > 0 && Proper(k, n)
  {
    match q
    case Contains(pairs) => forall x <- pairs :: HasPair(crc, n, k, x)
    case Exists(key) => Has(k, Bucket(crc, n, key))
    case ExistsAll(keys) => forall v <- keys :: v.Text? ==> Has(k, Bucket(crc, n, v.s))
    case ExistsAny(keys) => k.AllTrue? || exists v <- keys :: v.Text? && Has(k, Bucket(crc, n, v.s))
  }

  /** A query for any of some keys that names none. */
  predicate NamesNone(q: Query) { q.ExistsAny? && forall k <- q.keys :: k.Null? }

  /** A key passes only if some row with no other buckets than the key's would match; all ones also pass a query that names nothing. */
  lemma PassesHasReason(crc: Str -> nat, n: nat, k: Key, q: Query) returns (row: seq<Pair>)
    requires n > 0 && Proper(k, n) && Passes(crc, n, k, q)
    ensures forall x <- row :: HasPair(crc, n, k, x)
    ensures if NamesNone(q) then k.AllTrue? else Matches(row, q)
  {
    hide Bucket, Has;
    match q
    case Contains(pairs) => row := pairs;
    case Exists(key) =>
      row := [Pair(key, Null)];
      assert row[0] in row;
    case ExistsAll(keys) => row := RowOf(crc, n, k, keys);
    case ExistsAny(keys) =>
      row := [];
      if !NamesNone(q) {
        assert exists v <- keys :: v.Text? && Has(k, Bucket(crc, n, v.s)) by {
          if k.AllTrue? {
            var v :| v in keys && v.Text?;
            AllTrueHas(k, Bucket(crc, n, v.s), n);
          }
        }
        var v :| v in keys && v.Text? && Has(k, Bucket(crc, n, v.s));
        row := [Pair(v.s, Null)];
        assert row[0] in row;
      }
  }

  lemma AllTrueHas(k: Key, b: nat, n: nat)
    requires k.AllTrue? && Proper(k, n) && b < n
    ensures Has(k, b)
  {
  }

  /** A row of the given keys, without values. */
  lemma {:induction false} RowOf(crc: Str -> nat, n: nat, k: Key, keys: seq<Value>) returns (row: seq<Pair>)
    requires n > 0 && Proper(k, n) && forall v <- keys :: v.Text? ==> Has(k, Bucket(crc, n, v.s))
    ensures (forall x <- row :: HasPair(crc, n, k, x)) && forall v <- keys :: v.Text? ==> HasKey(row, v.s)
  {
    hide Bucket, Has;
    row := [];
    if keys != [] {
      var rest := RowOf(crc, n, k, keys[1..]);
      row := if keys[0].Text? then [Pair(keys[0].s, Null)] + rest else rest;
      forall v | v in keys && v.Text? ensures HasKey(row, v.s) {
        if v == keys[0] {
          assert row[0].key == v.s && row[0] in row;
        } else {
          assert v in keys[1..];
          var x :| x in rest && x.key == v.s;
          assert x in row;
        }
      }
    }
  }

  /** `ghstore_consistent`. */
  method Consistent(crc: Str -> nat, n: nat, entry: Key, q: Query) returns (res: bool)
    requires n > 0 && Proper(entry, n)
    ensures res <==> Passes(crc, n, entry, q)
  {
    if entry.AllTrue? { return true; }
    match q {
      case Contains(pairs) =>
        res := true;
        var i := 0;
        while res && i < |pairs|
          invariant 0 <= i <= |pairs|
          invariant res <==> forall j :: 0 <= j < i ==> HasPair(crc, n, entry, pairs[j])
        {
          if entry.bits[Bucket(crc, n, pairs[i].key)] {
            if pairs[i].val.Text? && !entry.bits[Bucket(crc, n, pairs[i].val.s)] {
              res := false;
            }
          } else {
            res := false;
          }
          i := i + 1;
        }
      case Exists(key) =>
        res := entry.bits[Bucket(crc, n, key)];
      case ExistsAll(keys) =>
        res := true;
        var i := 0;
        while res && i < |keys|
          invariant 0 <= i <= |keys|
          invariant res <==> forall j :: 0 <= j < i ==> keys[j].Text? ==> Has(entry, Bucket(crc, n, keys[j].s))
        {
          if keys[i].Text? && !entry.bits[Bucket(crc, n, keys[i].s)] { res := false; }
          i := i + 1;
        }
      case ExistsAny(keys) =>
        res := false;
        var i := 0;
        while !res && i < |keys|
          invariant 0 <= i <= |keys|
          invariant res <==> exists j :: 0 <= j < i && keys[j].Text? && Has(entry, Bucket(crc, n, keys[j].s))
        {
          if keys[i].Text? && entry.bits[Bucket(crc, n, keys[i].s)] { res := true; }
          i := i + 1;
        }
    }
  }

  // ----- a tree of any height -----

  datatype Tree = Leaf(key: Key, row: seq<Pair>) | Inner(key: Key, kids: seq<Tree>)

  /** Leaf keys are the signatures of their rows, and a key above covers the keys below. */
  ghost predicate Sound(crc: Str -> nat, n: nat, t: Tree)
    requires n > 0
  {
    && Proper(t.key, n)
    && match t
       case Leaf(k, row) => LeafKey(crc, n, row, k)
       case Inner(k, kids) => forall c <- kids :: Sound(crc, n, c) && Covers(k, c.key, n)
  }

  ghost predicate Holds(t: Tree, row: seq<Pair>) {
    match t
    case Leaf(_, r) => r == row
    case Inner(_, kids) => exists c <- kids :: Holds(c, row)
  }

  /** The rows an index scan reaches: it descends only where the key is consistent. */
  ghost predicate Reached(crc: Str -> nat, n: nat, t: Tree, q: Query, row: seq<Pair>)
    requires n > 0 && Sound(crc, n, t)
  {
    && Passes(crc, n, t.key, q)
    && match t
       case Leaf(_, r) => r == row
       case Inner(_, kids) => exists c <- kids :: Sound(crc, n, c) && Reached(crc, n, c, q, row)
  }

  lemma RowIsCovered(crc: Str -> nat, n: nat, t: Tree, row: seq<Pair>, b: nat)
    requires n > 0 && Sound(crc, n, t) && Holds(t, row) && b < n && Hit(crc, n, row, b)
    ensures Has(t.key, b)
  {
    hide Hit;
    match t
    case Leaf(_, _) =>
    case Inner(_, kids) =>
      var c :| c in kids && Holds(c, row);
      RowIsCovered(crc, n, c, row, b);
  }

  lemma KeyHits(crc: Str -> nat, n: nat, row: seq<Pair>, key: Str)
    requires n > 0 && HasKey(row, key)
    ensures Hit(crc, n, row, Bucket(crc, n, key))
  {
    var p :| p in row && p.key == key;
    assert PairHits(crc, n, p, Bucket(crc, n, key));
  }

  lemma PairsHit(crc: Str -> nat, n: nat, row: seq<Pair>, x: Pair)
    requires n > 0 && x in row
    ensures Hit(crc, n, row, Bucket(crc, n, x.key))
    ensures x.val.Text? ==> Hit(crc, n, row, Bucket(crc, n, x.val.s))
  {
    assert PairHits(crc, n, x, Bucket(crc, n, x.key));
    if x.val.Text? { assert PairHits(crc, n, x, Bucket(crc, n, x.val.s)); }
  }

  /** A key above a matching row passes, for each kind of query. */
  lemma MatchPasses(crc: Str -> nat, n: nat, t: Tree, q: Query, row: seq<Pair>)
    requires n > 0 && Sound(crc, n, t) && Holds(t, row) && Matches(row, q)
    ensures Passes(crc, n, t.key, q)
  {
    hide Holds, Hit, Has, HasKey, LeafKey, Covers;
    match q
    case Contains(pairs) =>
      forall x | x in pairs ensures HasPair(crc, n, t.key, x) {
        PairsHit(crc, n, row, x);
        RowIsCovered(crc, n, t, row, Bucket(crc, n, x.key));
        if x.val.Text? { RowIsCovered(crc, n, t, row, Bucket(crc, n, x.val.s)); }
      }
    case Exists(key) =>
      KeyHits(crc, n, row, key);
      RowIsCovered(crc, n, t, row, Bucket(crc, n, key));
    case ExistsAll(keys) =>
      forall v | v in keys && v.Text? ensures Has(t.key, Bucket(crc, n, v.s)) {
        KeyHits(crc, n, row, v.s);
        RowIsCovered(crc, n, t, row, Bucket(crc, n, v.s));
      }
    case ExistsAny(keys) =>
      var v :| v in keys && v.Text? && HasKey(row, v.s);
      KeyHits(crc, n, row, v.s);
      RowIsCovered(crc, n, t, row, Bucket(crc, n, v.s));
  }

  /** A scan reaches every matching row, whatever the height of the tree. */
  lemma {:induction false} NoRowIsLost(crc: Str -> nat, n: nat, t: Tree, q: Query, row: seq<Pair>)
    requires n > 0 && Sound(crc, n, t) && Holds(t, row) && Matches(row, q)
    ensures Reached(crc, n, t, q, row)
  {
    hide Passes, Matches, LeafKey, Covers;
    MatchPasses(crc, n, t, q, row);
    match t
    case Leaf(_, _) =>
    case Inner(_, kids) =>
      var c :| c in kids && Holds(c, row);
      NoRowIsLost(crc, n, c, q, row);
  }

  /** The key of one of some members. */
  ghost predicate KeyAmong(k: Key, keys: seq<Key>, members: set<nat>) {
    exists j <- members :: j < |keys| && keys[j] == k
  }

  /**
   A node whose key is the union of keys that include its children's is sound: so are the nodes that
   `ghstore_union` and either side of `ghstore_picksplit` make.
   */
  lemma UnionIsSound(crc: Str -> nat, n: nat, k: Key, keys: seq<Key>, members: set<nat>, kids: seq<Tree>)
    requires n > 0 && IsUnion(k, keys, members, n)
    requires forall c <- kids :: Sound(crc, n, c) && KeyAmong(c.key, keys, members)
    ensures Sound(crc, n, Inner(k, kids))
  {
    forall c | c in kids ensures Sound(crc, n, c) && Covers(k, c.key, n) {
      var j :| j in members && j < |keys| && keys[j] == c.key;
      forall i | 0 <= i < n && Has(c.key, i) ensures Has(k, i) {
        assert Has(keys[j], i);
        assert HasSome(keys, members, n, i);
      }
    }
  }

  // ----- ghstore_picksplit -----

  datatype SplitCost = SplitCost(pos: nat, cost: int)

  function Positions(s: seq<SplitCost>): (p: seq<nat>)
    ensures |p| == |s| && forall i :: 0 <= i < |s| ==> p[i] == s[i].pos
  {
    if s == [] then [] else [s[0].pos] + Positions(s[1..])
  }

  ghost function Without<T>(s: seq<T>, t: nat): seq<T>
    requires t < |s|
  {
    s[..t] + s[t + 1..]
  }

  lemma WithoutOne<T>(s: seq<T>, t: nat)
    requires t < |s|
    ensures multiset(s) == multiset(Without(s, t)) + multiset{s[t]} && |Without(s, t)| < |s|
  {
    assert s == s[..t] + [s[t]] + s[t + 1..];
  }

  lemma Cancel<T>(m: multiset<T>, n: multiset<T>, x: T)
    requires m + multiset{x} == n + multiset{x}
    ensures m == n
  {
    assert m == m + multiset{x} - multiset{x} == n + multiset{x} - multiset{x} == n;
  }

  lemma InBoth<T>(p: seq<T>, q: seq<T>, k: nat)
    requires multiset(p) == multiset(q) && k < |p|
    ensures p[k] in q && p[..k + 1] == p[..k] + [p[k]]
  {
    assert p[k] in multiset(p);
  }

  lemma PositionsWithout(s: seq<SplitCost>, t: nat)
    requires t < |s|
    ensures multiset(Positions(s)) == multiset(Positions(Without(s, t))) + multiset{s[t].pos}
  {
    hide Positions;
    PositionsOfRest(s, t);
    hide Without;
    WithoutOne(Positions(s), t);
  }

  lemma WithoutAt<T>(s: seq<T>, t: nat, i: nat)
    requires t < |s| && i < |s| - 1
    ensures |Without(s, t)| == |s| - 1 && Without(s, t)[i] == if i < t then s[i] else s[i + 1]
  {
  }

  lemma PositionsOfRest(s: seq<SplitCost>, t: nat)
    requires t < |s|
    ensures Positions(Without(s, t)) == Without(Positions(s), t)
  {
    var p, q := Positions(Without(s, t)), Without(Positions(s), t);
    assert |p| == |q| == |s| - 1;
    hide Positions, Without;
    forall i | 0 <= i < |p| ensures p[i] == q[i] {
      WithoutAt(s, t, i);
      WithoutAt(Positions(s), t, i);
    }
  }

  /** Reordering the costs reorders the positions. */
  lemma {:induction false} PositionsPermute(a: seq<SplitCost>, b: seq<SplitCost>)
    requires multiset(a) == multiset(b)
    ensures multiset(Positions(a)) == multiset(Positions(b))
    decreases |a|
  {
    if a == [] {
      assert |b| == |multiset(b)| == |multiset(a)| == 0;
    } else {
      hide Positions, Without;
      InBoth(a, b, 0);
      var t :| 0 <= t < |b| && b[t] == a[0];
      WithoutOne(a, 0);
      WithoutOne(b, t);
      Cancel(multiset(Without(a, 0)), multiset(Without(b, t)), a[0]);
      PositionsPermute(Without(a, 0), Without(b, t));
      PositionsWithout(a, 0);
      PositionsWithout(b, t);
    }
  }

  /** The distance of two entries, by their positions. */
  ghost function Apart(entries: seq<Key>, n: nat, a: nat, b: nat): int {
    if a < |entries| && b < |entries| && Proper(entries[a], n) && Proper(entries[b], n)
    then HemDist(entries[a], entries[b], n) else 0
  }

  /** No two entries before `last`, the first of them before `k`, are farther apart than `waste`. */
  ghost predicate NoneFarther(entries: seq<Key>, n: nat, k: nat, last: nat, waste: int) {
    forall a: nat, b: nat :: a < k && a < b < last ==> Apart(entries, n, a, b) <= waste
  }

  /** `waste` is the distance of the seeds so far, or less than any distance. */
  ghost predicate SeedsAt(entries: seq<Key>, n: nat, seed1: nat, seed2: nat, waste: int) {
    seed1 < seed2 < |entries| && (waste == -1 || waste == Apart(entries, n, seed1, seed2))
  }

  /** The inner loop: entry `k` against those behind it. */
  method SeedsFrom(entries: seq<Key>, n: nat, k: nat, last: nat, best: int, s1: nat, s2: nat)
    returns (waste: int, seed1: nat, seed2: nat)
    requires (forall e <- entries :: Proper(e, n)) && k < last < |entries|
    requires SeedsAt(entries, n, s1, s2, best) && NoneFarther(entries, n, k, last, best)
    ensures SeedsAt(entries, n, seed1, seed2, waste) && NoneFarther(entries, n, k + 1, last, waste)
  {
    hide HemDist;
    waste, seed1, seed2 := best, s1, s2;
    var j := k + 1;
    while j < last
      invariant k < j <= last && waste >= best && SeedsAt(entries, n, seed1, seed2, waste)
      invariant forall b: nat :: k < b < j ==> Apart(entries, n, k, b) <= waste
    {
      var d := HemDist(entries[k], entries[j], n);
      if d > waste {
        waste, seed1, seed2 := d, k, j;
      }
      j := j + 1;
    }
  }

  /** The two entries, all but the last considered, that lie farthest apart. */
  method PickSeeds(entries: seq<Key>, n: nat) returns (seed1: nat, seed2: nat)
    requires |entries| >= 2 && forall e <- entries :: Proper(e, n)
    ensures seed1 < seed2 < |entries|
    ensures forall k, j :: 0 <= k < j < |entries| - 1 ==>
      HemDist(entries[k], entries[j], n) <= HemDist(entries[seed1], entries[seed2], n)
  {
    hide HemDist;
    var last := |entries| - 1;
    var waste, k := -1, 0;
    seed1, seed2 := 0, 1;
    while k + 1 < last
      invariant 0 <= k <= last && SeedsAt(entries, n, seed1, seed2, waste) && NoneFarther(entries, n, k, last, waste)
    {
      waste, seed1, seed2 := SeedsFrom(entries, n, k, last, waste, seed1, seed2);
      k := k + 1;
    }
    forall a, b | 0 <= a < b < last ensures HemDist(entries[a], entries[b], n) <= HemDist(entries[seed1], entries[seed2], n) {
      HemDistSize(entries[a], entries[b], n);
      assert Apart(entries, n, a, b) <= waste;
    }
  }

  lemma {:induction false} OnesAtMost(bits: seq<bool>)
    ensures Ones(bits) <= |bits|
  {
    if bits != [] { OnesAtMost(bits[1..]); }
  }

  lemma HemDistSize(a: Key, b: Key, n: nat)
    requires Proper(a, n) && Proper(b, n)
    ensures HemDist(a, b, n) >= 0
  {
    if a.Sign? { OnesAtMost(a.bits); }
    if b.Sign? { OnesAtMost(b.bits); }
  }

  /** What a permutation by cost keeps: it is what `qsort` is for, its order does not matter here. */
  ghost predicate Permutes(sort: seq<SplitCost> -> seq<SplitCost>) {
    forall s :: multiset(sort(s)) == multiset(s)
  }

  function Range(m: nat): (r: seq<nat>)
    ensures |r| == m && forall i :: 0 <= i < m ==> r[i] == i
  {
    seq(m, i => i)
  }

  /** The preference for the shorter side. */
  function Wish(l: nat, r: nat): real {
    -(((l - r) * (l - r) * (l - r)) as real) * 0.0001
  }

  /** It favours the side with fewer entries, and neither of two equal sides. */
  lemma WishBalances(l: nat, r: nat)
    ensures (Wish(l, r) > 0.0 <==> l < r) && (Wish(l, r) == 0.0 <==> l == r)
  {
    var d := l - r;
    if d > 0 {
      assert d * d > 0;
      Positive(d * d, d);
    } else if d < 0 {
      assert d * d > 0;
      Positive(d * d, -d);
      assert d * d * d == -(d * d * -d);
    }
  }

  lemma Positive(x: int, y: int)
    requires x > 0 && y > 0
    ensures x * y > 0
  {
  }

  /** The key of a side under construction, which has its seed's bits from the start. */
  ghost predicate SideKey(k: Key, entries: seq<Key>, side: seq<nat>, seed: nat, n: nat) {
    IsUnion(k, entries, Members(side) + {seed}, n)
  }

  lemma SideStart(entries: seq<Key>, seed: nat, n: nat)
    requires seed < |entries| && Proper(entries[seed], n)
    ensures SideKey(entries[seed], entries, [], seed, n)
  {
    assert Members([]) + {seed} == {seed};
  }

  lemma SideMore(k: Key, entries: seq<Key>, side: seq<nat>, seed: nat, n: nat, j: nat)
    requires SideKey(k, entries, side, seed, n) && j < |entries| && Proper(entries[j], n)
    ensures Proper(k, n) && SideKey(MergeKey(k, entries[j], n), entries, side + [j], seed, n)
    ensures j == seed ==> SideKey(k, entries, side + [j], seed, n)
  {
    UnionMore(k, entries, Members(side) + {seed}, n, j, MergeKey(k, entries[j], n));
    assert Members(side + [j]) == Members(side) + {j};
    assert Members(side) + {seed} + {j} == Members(side + [j]) + {seed};
    if j == seed { assert Members(side) + {seed} == Members(side + [j]) + {seed}; }
  }

  lemma SideDone(k: Key, entries: seq<Key>, side: seq<nat>, seed: nat, n: nat)
    requires SideKey(k, entries, side, seed, n) && seed in side
    ensures IsUnion(k, entries, Members(side), n)
  {
    assert Members(side) + {seed} == Members(side);
  }

  /** What each entry costs: how much nearer it is to one seed than to the other. */
  function Costs(entries: seq<Key>, keyL: Key, keyR: Key, n: nat): (costs: seq<SplitCost>)
    requires Proper(keyL, n) && Proper(keyR, n) && forall e <- entries :: Proper(e, n)
    ensures Positions(costs) == Range(|entries|)
  {
    seq(|entries|, j requires 0 <= j < |entries| =>
      SplitCost(j, Abs(HemDist(keyL, entries[j], n) - HemDist(keyR, entries[j], n))))
  }

  /** The positions `done` lie on the two sides, each seed on its own. */
  ghost predicate Dealt(done: seq<nat>, left: seq<nat>, right: seq<nat>, seed1: nat, seed2: nat) {
    && multiset(left) + multiset(right) == multiset(done)
    && (seed1 in done ==> seed1 in left) && (seed2 in done ==> seed2 in right)
  }

  lemma DealtMore(done: seq<nat>, left: seq<nat>, right: seq<nat>, seed1: nat, seed2: nat, j: nat)
    requires Dealt(done, left, right, seed1, seed2)
    ensures j != seed2 ==> Dealt(done + [j], left + [j], right, seed1, seed2)
    ensures j != seed1 ==> Dealt(done + [j], left, right + [j], seed1, seed2)
  {
  }

  /** The loop of `ghstore_picksplit` over the sorted costs. */
  method Deal(entries: seq<Key>, n: nat, order: seq<SplitCost>, seed1: nat, seed2: nat)
    returns (left: seq<nat>, right: seq<nat>, keyL: Key, keyR: Key)
    requires (forall e <- entries :: Proper(e, n)) && seed1 < seed2 < |entries|
    requires multiset(Positions(order)) == multiset(Range(|entries|))
    ensures Dealt(Positions(order), left, right, seed1, seed2)
    ensures SideKey(keyL, entries, left, seed1, n) && SideKey(keyR, entries, right, seed2, n)
  {
    hide HemDist, Positions, Range, Wish, MergeKey, SideKey, Dealt;
    left, right, keyL, keyR := [], [], entries[seed1], entries[seed2];
    SideStart(entries, seed1, n);
    SideStart(entries, seed2, n);
    assert Dealt([], [], [], seed1, seed2) by { DealtNone(seed1, seed2); }
    var k := 0;
    while k < |order|
      invariant 0 <= k <= |order| && Proper(keyL, n) && Proper(keyR, n)
      invariant Dealt(Positions(order)[..k], left, right, seed1, seed2)
      invariant SideKey(keyL, entries, left, seed1, n) && SideKey(keyR, entries, right, seed2, n)
    {
      var j := order[k].pos;
      NextPosition(order, k, |entries|);
      DealtMore(Positions(order)[..k], left, right, seed1, seed2, j);
      SideMore(keyL, entries, left, seed1, n, j);
      SideMore(keyR, entries, right, seed2, n, j);
      if j == seed1 {
        left := left + [j];
      } else if j == seed2 {
        right := right + [j];
      } else {
        var alpha, beta := HemDist(keyL, entries[j], n), HemDist(keyR, entries[j], n);
        if alpha as real < beta as real + Wish(|left|, |right|) {
          keyL := MergeKey(keyL, entries[j], n);
          left := left + [j];
        } else {
          keyR := MergeKey(keyR, entries[j], n);
          right := right + [j];
        }
      }
      k := k + 1;
    }
    assert Positions(order)[..k] == Positions(order);
  }

  lemma DealtNone(seed1: nat, seed2: nat)
    ensures Dealt([], [], [], seed1, seed2)
  {
  }

  /** `ghstore_picksplit`: every entry goes to one side, both sides get some, and each key is its side's union. */
  method PickSplit(entries: seq<Key>, n: nat, sort: seq<SplitCost> -> seq<SplitCost>)
    returns (left: seq<nat>, right: seq<nat>, keyL: Key, keyR: Key)
    requires |entries| >= 2 && (forall e <- entries :: Proper(e, n)) && Permutes(sort)
    ensures multiset(left) + multiset(right) == multiset(Range(|entries|))
    ensures left != [] && right != []
    ensures IsUnion(keyL, entries, Members(left), n) && IsUnion(keyR, entries, Members(right), n)
  {
    hide HemDist, IsUnion, Positions, SideKey, Members, Costs;
    var seed1, seed2 := PickSeeds(entries, n);
    var costs := Costs(entries, entries[seed1], entries[seed2], n);
    var order := sort(costs);
    PositionsPermute(order, costs);
    left, right, keyL, keyR := Deal(entries, n, order, seed1, seed2);
    Placed(order, |entries|, seed1);
    Placed(order, |entries|, seed2);
    SideDone(keyL, entries, left, seed1, n);
    SideDone(keyR, entries, right, seed2, n);
  }

  lemma NextPosition(order: seq<SplitCost>, k: nat, m: nat)
    requires k < |order| && multiset(Positions(order)) == multiset(Range(m))
    ensures Positions(order)[..k + 1] == Positions(order)[..k] + [order[k].pos] && order[k].pos < m
  {
    hide Positions, Range;
    InBoth(Positions(order), Range(m), k);
  }

  /** Every position is among the sorted costs. */
  lemma Placed(order: seq<SplitCost>, m: nat, j: nat)
    requires multiset(Positions(order)) == multiset(Range(m)) && j < m
    ensures j in Positions(order)
  {
    hide Positions, Range;
    InBoth(Range(m), Positions(order), j);
  }

  function Members(s: seq<nat>): set<nat> { set j | j in s }

  function Abs(x: int): nat { if x < 0 then -x else x }
}

/**
 From a list of parsed pairs to a packed value (contrib/hstore/hstore_io.c): `hstoreUniquePairs` drops
 duplicate keys in place and adds up the length of the strings, `hstorePairs` packs what is left.
 */
module HstorePairs {
  import opened HstoreFormat
  import opened HstoreBuild
  import opened HstoreMap
  import opened HstoreOps

  /** The order in which `qsort` with `comparePairs` leaves the pairs. */
  predicate Ascending(s: seq<Pair>) {
    forall i, j :: 0 <= i < j < |s| ==> KeyCompare(s[i].key, s[j].key) <= 0
  }

  /** What `qsort` with `comparePairs` is for. */
  ghost predicate SortsPairs(sort: seq<Pair> -> seq<Pair>) {
    forall s :: multiset(sort(s)) == multiset(s) && Ascending(sort(s))
  }

  /** The first pair of every run of equal keys. */
  function Distinct(s: seq<Pair>): (d: seq<Pair>)
    ensures |d| <= |s| && (s != [] ==> d != [] && d[|d| - 1].key == s[|s| - 1].key)
  {
    if |s| < 2 then s
    else
      var n := |s| - 1;
      var d := Distinct(s[..n]);
      if s[n].key == d[|d| - 1].key then d else d + [s[n]]
  }

  lemma AscendingPrefix(s: seq<Pair>, n: nat)
    requires Ascending(s) && n <= |s|
    ensures Ascending(s[..n])
  {
    hide KeyCompare;
  }

  lemma SortedSnoc(d: seq<Pair>, x: Pair)
    requires Sorted(d) && (d != [] ==> Before(d[|d| - 1].key, x.key))
    ensures Sorted(d + [x])
  {
    hide KeyCompare;
    var all, n := d + [x], |d|;
    forall i, j | 0 <= i < j < |all| ensures Before(all[i].key, all[j].key) {
      if j == n && i < n - 1 { BeforeTransitive(d[i].key, d[n - 1].key, x.key); }
    }
  }

  /** What is left is strictly sorted. */
  lemma {:induction false} DistinctSorted(s: seq<Pair>)
    requires Ascending(s)
    ensures Sorted(Distinct(s))
  {
    hide KeyCompare;
    if |s| >= 2 {
      var n := |s| - 1;
      AscendingPrefix(s, n);
      DistinctSorted(s[..n]);
      var d := Distinct(s[..n]);
      assert d[|d| - 1].key == s[..n][n - 1].key;
      KeyCompareTotal(s[n - 1].key, s[n].key);
      if s[n].key != d[|d| - 1].key { SortedSnoc(d, s[n]); }
    }
  }

  /** What is left comes from the list, and every key of the list is left once. */
  lemma {:induction false} DistinctKeys(s: seq<Pair>, x: Pair)
    ensures x in Distinct(s) ==> x in s
    ensures x in s ==> HasKey(Distinct(s), x.key)
  {
    if |s| >= 2 {
      var n := |s| - 1;
      DistinctKeys(s[..n], x);
      assert s == s[..n] + [s[n]];
      var d := Distinct(s[..n]);
      assert d[|d| - 1] in d;
    }
  }

  /** Of equal keys the first pair is left: position `i` survives exactly when no pair before it has its key. */
  lemma {:induction false} DistinctKeepsFirst(s: seq<Pair>, i: nat)
    requires Ascending(s) && i < |s| && forall j :: 0 <= j < i ==> s[j].key != s[i].key
    ensures s[i] in Distinct(s) && forall x <- Distinct(s) :: x.key == s[i].key ==> x == s[i]
    decreases |s|
  {
    hide KeyCompare;
    if |s| >= 2 {
      var n := |s| - 1;
      AscendingPrefix(s, n);
      var d := Distinct(s[..n]);
      if i < n {
        DistinctKeepsFirst(s[..n], i);
      } else {
        assert d[|d| - 1].key == s[..n][n - 1].key;
        forall x | x in d ensures x.key != s[i].key {
          DistinctKeys(s[..n], x);
          var j :| 0 <= j < n && s[..n][j] == x;
        }
      }
      if i < n && s[n].key != d[|d| - 1].key { LaterKeyIsNew(s, i); }
    }
  }

  lemma LaterKeyIsNew(s: seq<Pair>, i: nat)
    requires Ascending(s) && i + 1 < |s| && s[|s| - 1].key != s[|s| - 2].key
    ensures s[|s| - 1].key != s[i].key
  {
    var n := |s| - 1;
    KeyCompareTotal(s[n - 1].key, s[n].key);
    KeyCompareTotal(s[i].key, s[n - 1].key);
    assert KeyCompare(s[n - 1].key, s[n].key) <= 0 && (i < n - 1 ==> KeyCompare(s[i].key, s[n - 1].key) <= 0);
    if i < n - 1 && s[i].key != s[n - 1].key { BeforeTransitive(s[i].key, s[n - 1].key, s[n].key); }
    KeyCompareTotal(s[i].key, s[n].key);
  }

  /** A list that is strictly sorted already stays as it is. */
  lemma {:induction false} DistinctOfSorted(s: seq<Pair>)
    requires Sorted(s)
    ensures Distinct(s) == s && Ascending(s)
  {
    hide KeyCompare;
    if |s| >= 2 {
      var n := |s| - 1;
      DistinctOfSorted(s[..n]);
      KeyCompareTotal(s[n - 1].key, s[n].key);
      assert s == s[..n] + [s[n]];
    }
  }

  lemma DistinctStep(s: seq<Pair>, i: nat)
    requires 0 < i < |s|
    ensures var d := Distinct(s[..i]);
      Distinct(s[..i + 1]) == if s[i].key == d[|d| - 1].key then d else d + [s[i]]
  {
    assert s[..i + 1][..i] == s[..i];
  }

  /** The bytes a pair contributes, as the source adds them up. */
  function StringLength(p: Pair): (n: nat)
    ensures n == |PairBytes(p)|
  {
    |p.key| + if p.val.Null? then 0 else |p.val.s|
  }

  /** `hstoreUniquePairs` behind the `qsort`. */
  method UniquePairs(a: array<Pair>, l: nat) returns (n: nat, buflen: nat)
    requires l <= a.Length
    modifies a
    ensures n <= l && a[..n] == Distinct(old(a[..l])) && a[l..] == old(a[l..])
    ensures buflen == |Strings(a[..n])|
  {
    hide Distinct, Strings;
    if l < 2 {
      OnePair(a[..l]);
      return l, if l == 1 then StringLength(a[0]) else 0;
    }
    n, buflen := SqueezeRuns(a, l);
  }

  /** The loop over at least two pairs. */
  method SqueezeRuns(a: array<Pair>, l: nat) returns (n: nat, buflen: nat)
    requires 2 <= l <= a.Length
    modifies a
    ensures n <= l && a[..n] == Distinct(old(a[..l])) && a[l..] == old(a[l..])
    ensures buflen == |Strings(a[..n])|
  {
    hide Distinct, Strings, StringLength;
    ghost var before := a[..];
    var ptr, res := 1, 0;
    buflen := 0;
    OnePair(before[..1]);
    StringsNone();
    assert a[..0] == [];
    while ptr < l
      invariant 0 <= res < ptr <= l
      invariant a[..res + 1] == Distinct(before[..ptr])
      invariant buflen == |Strings(a[..res])|
      invariant forall j :: ptr <= j < a.Length ==> a[j] == before[j]
      modifies a
    {
      DistinctStep(before, ptr);
      if a[ptr].key != a[res].key {
        OneMore(a[..], res);
        buflen := buflen + StringLength(a[res]);
        res := res + 1;
        MoveItem(a, res, ptr);
      }
      ptr := ptr + 1;
    }
    OneMore(a[..], res);
    buflen := buflen + StringLength(a[res]);
    n := res + 1;
  }

  /** The item at `ptr` moves down to `res`, unless it is there. */
  method MoveItem(a: array<Pair>, res: nat, ptr: nat)
    requires res <= ptr < a.Length
    modifies a
    ensures a[..res] == old(a[..res]) && a[..res + 1] == old(a[..res]) + [old(a[ptr])]
    ensures forall j :: ptr < j < a.Length ==> a[j] == old(a[j])
  {
    if res != ptr {
      a[res] := a[ptr];
    }
    assert a[..res + 1] == a[..res] + [a[res]];
  }

  lemma OnePair(s: seq<Pair>)
    requires |s| < 2
    ensures |Strings(s)| == (if s == [] then 0 else StringLength(s[0])) && Distinct(s) == s
  {
    if s != [] { assert s[..0] == []; }
  }

  lemma OneMore(s: seq<Pair>, i: nat)
    requires i < |s|
    ensures |Strings(s[..i + 1])| == |Strings(s[..i])| + StringLength(s[i])
  {
    StringsNext(s, i);
  }

  /** `hstorePairs`. */
  method PackPairs(pairs: seq<Pair>, buflen: nat) returns (r: Outcome)
    requires buflen == |Strings(pairs)|
    ensures r.AllocError? <==> HEADER + 8 * |pairs| + buflen > MAX_ALLOC
    ensures r.Done? ==> Fits(pairs) && r.value == Encode(pairs)
  {
    hide Strings, Entries, WordsBytes, Built, EntryBytes;
    var len := HEADER + 8 * |pairs| + buflen;
    if len > MAX_ALLOC { return AllocError; }
    var out := new Builder(len - HEADER, |pairs|);
    StringsNone();
    var i := 0;
    assert pairs[..0] == [];
    while i < |pairs|
      invariant 0 <= i <= |pairs| && fresh(out) && fresh(out.mem) && out.Valid() && out.pairs == pairs[..i]
      invariant |Strings(pairs[..i])| <= |Strings(pairs)|
    {
      Used(pairs, i);
      out.AddItem(pairs[i]);
      assert pairs[..i + 1] == pairs[..i] + [pairs[i]];
      i := i + 1;
    }
    assert pairs[..i] == pairs;
    var h := out.Finalize();
    return Done(h);
  }
}

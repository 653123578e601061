/**
 Sorted lists of pairs as finite maps, and what the three merges of contrib/hstore/hstore_op.c
 (`hstore_concat`, `hstore_delete_array`, `hstore_delete_hstore`) mean for the maps.
 */
module HstoreMap {
  import opened Bytes
  import opened HstoreFormat

  // ----- the order of keys: shorter first, then `memcmp` -----

  function KeyCompare(a: Str, b: Str): int {
    if |a| == |b| then Compare(a, b) else if |a| > |b| then 1 else -1
  }

  predicate Before(a: Str, b: Str) { KeyCompare(a, b) < 0 }

  /** A shorter key comes first; of two keys of one length, the one with the smaller byte where they first differ. */
  lemma BeforeExactly(a: Str, b: Str)
    ensures Before(a, b) <==>
      |a| < |b| || (|a| == |b| && exists k: nat :: k < |a| && a[..k] == b[..k] && a[k] < b[k])
  {
    CompareExactly(a, b);
    if |a| == |b| && Smaller(a, b) {
      var k: nat :| k <= |a| && k < |b| && a[..k] == b[..k] && (k == |a| || a[k] < b[k]);
      assert a[k] < b[k];
    }
    if |a| == |b| && exists k: nat :: k < |a| && a[..k] == b[..k] && a[k] < b[k] {
      var k: nat :| k < |a| && a[..k] == b[..k] && a[k] < b[k];
      assert Smaller(a, b);
    }
  }

  lemma KeyCompareTotal(a: Str, b: Str)
    ensures KeyCompare(a, b) == 0 <==> a == b
    ensures KeyCompare(a, b) < 0 <==> KeyCompare(b, a) > 0
  {
    CompareAntisymmetric(a, b);
  }

  lemma BeforeTransitive(a: Str, b: Str, c: Str)
    requires Before(a, b) && Before(b, c)
    ensures Before(a, c)
  {
    if |a| == |b| == |c| { LeTransitive(a, b, c); }
  }

  // ----- sorted lists -----

  /** All keys of the list come after `k`. */
  predicate Above(k: Str, pairs: seq<Pair>) {
    forall x <- pairs :: Before(k, x.key)
  }

  predicate Sorted(pairs: seq<Pair>) {
    forall i, j :: 0 <= i < j < |pairs| ==> Before(pairs[i].key, pairs[j].key)
  }

  predicate HasKey(pairs: seq<Pair>, k: Str) { exists x <- pairs :: x.key == k }

  lemma SortedTail(pairs: seq<Pair>)
    requires Sorted(pairs) && pairs != []
    ensures Sorted(pairs[1..]) && Above(pairs[0].key, pairs[1..])
    ensures forall x :: x in pairs <==> x == pairs[0] || x in pairs[1..]
  {
    forall x | x in pairs[1..] ensures Before(pairs[0].key, x.key) {
      var j :| 0 <= j < |pairs[1..]| && pairs[1..][j] == x;
      assert pairs[j + 1] == x;
    }
    assert pairs == [pairs[0]] + pairs[1..];
  }

  lemma SortedCons(p: Pair, rest: seq<Pair>)
    requires Sorted(rest) && Above(p.key, rest)
    ensures Sorted([p] + rest)
  {
    var all := [p] + rest;
    forall i, j | 0 <= i < j < |all| ensures Before(all[i].key, all[j].key) {
      assert all[j] == rest[j - 1];
      if i > 0 { assert all[i] == rest[i - 1]; }
    }
  }

  /** A key before the first key is before all of them. */
  lemma BelowFirst(k: Str, pairs: seq<Pair>)
    requires Sorted(pairs) && pairs != [] && Before(k, pairs[0].key)
    ensures Above(k, pairs)
  {
    SortedTail(pairs);
    forall x | x in pairs ensures Before(k, x.key) {
      if x != pairs[0] { BeforeTransitive(k, pairs[0].key, x.key); }
    }
  }

  lemma AboveExcludes(k: Str, pairs: seq<Pair>)
    requires Above(k, pairs)
    ensures !HasKey(pairs, k)
  {
    forall x | x in pairs ensures x.key != k { KeyCompareTotal(k, x.key); }
  }

  // ----- lists as maps -----

  function ToMap(pairs: seq<Pair>): map<Str, Value> {
    if pairs == [] then map[] else ToMap(pairs[1..])[pairs[0].key := pairs[0].val]
  }

  /** In a sorted list every key has one value. */
  lemma {:induction false} MapHas(pairs: seq<Pair>, x: Pair)
    requires Sorted(pairs)
    ensures x in pairs <==> x.key in ToMap(pairs) && ToMap(pairs)[x.key] == x.val
    ensures HasKey(pairs, x.key) <==> x.key in ToMap(pairs)
  {
    if pairs != [] {
      SortedTail(pairs);
      MapHas(pairs[1..], x);
      AboveExcludes(pairs[0].key, pairs[1..]);
    }
  }

  /** Two sorted lists that stand for the same map are the same list. */
  lemma {:induction false} MapDetermines(a: seq<Pair>, b: seq<Pair>)
    requires Sorted(a) && Sorted(b) && ToMap(a) == ToMap(b)
    ensures a == b
  {
    if a == [] {
      if b != [] { MapHas(b, b[0]); }
    } else {
      MapHas(a, a[0]);
      MapHas(b, a[0]);
      SortedTail(a);
      SortedTail(b);
      MapHas(b, b[0]);
      MapHas(a, b[0]);
      SameFirst(a, b);
      forall x ensures x in a[1..] <==> x in b[1..] {
        MapHas(a, x);
        MapHas(b, x);
        AboveExcludes(a[0].key, a[1..]);
        AboveExcludes(b[0].key, b[1..]);
      }
      SameMembers(a[1..], b[1..]);
      MapDetermines(a[1..], b[1..]);
      assert a == [a[0]] + a[1..] && b == [b[0]] + b[1..];
    }
  }

  lemma SameFirst(a: seq<Pair>, b: seq<Pair>)
    requires Sorted(a) && Sorted(b) && a != [] && b != [] && a[0] in b && b[0] in a
    ensures a[0] == b[0]
  {
    SortedTail(a);
    SortedTail(b);
    KeyCompareTotal(a[0].key, b[0].key);
  }

  lemma SameMembers(a: seq<Pair>, b: seq<Pair>)
    requires Sorted(a) && Sorted(b) && forall x :: x in a <==> x in b
    ensures ToMap(a) == ToMap(b)
  {
    forall k ensures k in ToMap(a) <==> k in ToMap(b) {
      MapHas(a, Pair(k, Null));
      MapHas(b, Pair(k, Null));
    }
    forall k | k in ToMap(a) ensures ToMap(a)[k] == ToMap(b)[k] {
      MapHas(a, Pair(k, ToMap(a)[k]));
      MapHas(b, Pair(k, ToMap(a)[k]));
    }
  }

  // ----- hstore_concat -----

  /** The merge of `hstore_concat`: on equal keys the second operand's pair is taken. */
  function Merge(a: seq<Pair>, b: seq<Pair>): seq<Pair>
    decreases |a| + |b|
  {
    if a == [] then b
    else if b == [] then a
    else
      var d := KeyCompare(a[0].key, b[0].key);
      if d < 0 then [a[0]] + Merge(a[1..], b)
      else if d == 0 then [b[0]] + Merge(a[1..], b[1..])
      else [b[0]] + Merge(a, b[1..])
  }

  lemma {:induction false} MergeHas(a: seq<Pair>, b: seq<Pair>, x: Pair)
    requires Sorted(a) && Sorted(b)
    ensures x in Merge(a, b) <==> x in b || (x in a && !HasKey(b, x.key))
    decreases |a| + |b|
  {
    if a != [] && b != [] {
      SortedTail(a);
      SortedTail(b);
      KeyCompareTotal(a[0].key, b[0].key);
      var d := KeyCompare(a[0].key, b[0].key);
      if d < 0 {
        BelowFirst(a[0].key, b);
        AboveExcludes(a[0].key, b);
        MergeHas(a[1..], b, x);
      } else if d == 0 {
        AboveExcludes(a[0].key, a[1..]);
        MergeHas(a[1..], b[1..], x);
      } else {
        BelowFirst(b[0].key, a);
        AboveExcludes(b[0].key, a);
        MergeHas(a, b[1..], x);
      }
    }
  }

  lemma {:induction false} MergeSorted(a: seq<Pair>, b: seq<Pair>)
    requires Sorted(a) && Sorted(b)
    ensures Sorted(Merge(a, b))
    decreases |a| + |b|
  {
    if a != [] && b != [] {
      SortedTail(a);
      SortedTail(b);
      KeyCompareTotal(a[0].key, b[0].key);
      var d := KeyCompare(a[0].key, b[0].key);
      if d < 0 {
        BelowFirst(a[0].key, b);
        MergeSorted(a[1..], b);
        MergeAbove(a[0].key, a[1..], b);
        SortedCons(a[0], Merge(a[1..], b));
      } else if d == 0 {
        MergeSorted(a[1..], b[1..]);
        MergeAbove(b[0].key, a[1..], b[1..]);
        SortedCons(b[0], Merge(a[1..], b[1..]));
      } else {
        BelowFirst(b[0].key, a);
        MergeSorted(a, b[1..]);
        MergeAbove(b[0].key, a, b[1..]);
        SortedCons(b[0], Merge(a, b[1..]));
      }
    }
  }

  lemma MergeAbove(k: Str, a: seq<Pair>, b: seq<Pair>)
    requires Sorted(a) && Sorted(b) && Above(k, a) && Above(k, b)
    ensures Above(k, Merge(a, b))
  {
    forall x | x in Merge(a, b) ensures Before(k, x.key) { MergeHas(a, b, x); }
  }

  /** Concatenation overrides: the map of the merge is the first map with the second laid over it. */
  lemma MergeIsOverride(a: seq<Pair>, b: seq<Pair>)
    requires Sorted(a) && Sorted(b)
    ensures Sorted(Merge(a, b)) && ToMap(Merge(a, b)) == ToMap(a) + ToMap(b)
  {
    MergeSorted(a, b);
    var m, o := ToMap(Merge(a, b)), ToMap(a) + ToMap(b);
    forall k, v ensures Maps(m, k, v) <==> Maps(o, k, v) {
      MergeHas(a, b, Pair(k, v));
      MapHas(Merge(a, b), Pair(k, v));
      MapHas(a, Pair(k, v));
      MapHas(b, Pair(k, v));
    }
    SameMap(m, o);
  }

  predicate Maps(m: map<Str, Value>, k: Str, v: Value) { k in m && m[k] == v }

  lemma SameMap(m: map<Str, Value>, o: map<Str, Value>)
    requires forall k, v :: Maps(m, k, v) <==> Maps(o, k, v)
    ensures m == o
  {
    assert forall k :: k in m ==> Maps(m, k, m[k]);
    assert forall k :: k in o ==> Maps(o, k, o[k]);
  }

  // ----- hstore_delete_array -----

  predicate SortedKeys(keys: seq<Str>) {
    forall i, j :: 0 <= i < j < |keys| ==> Before(keys[i], keys[j])
  }

  /** The merge of `hstore_delete_array`. */
  function Without(a: seq<Pair>, keys: seq<Str>): seq<Pair>
    decreases |a| + |keys|
  {
    if a == [] then []
    else if keys == [] then a
    else
      var d := KeyCompare(a[0].key, keys[0]);
      if d > 0 then Without(a, keys[1..])
      else if d == 0 then Without(a[1..], keys[1..])
      else [a[0]] + Without(a[1..], keys)
  }

  lemma FirstKeyIsLeast(k: Str, keys: seq<Str>)
    requires SortedKeys(keys) && keys != [] && (k == keys[0] || Before(k, keys[0]))
    ensures k !in keys[1..] && (k in keys <==> k == keys[0])
  {
    forall j | 0 < j < |keys| ensures keys[j] != k {
      if k != keys[0] { BeforeTransitive(k, keys[0], keys[j]); }
      KeyCompareTotal(k, keys[j]);
    }
    KeyCompareTotal(k, keys[0]);
  }

  lemma {:induction false} WithoutHas(a: seq<Pair>, keys: seq<Str>, x: Pair)
    requires Sorted(a) && SortedKeys(keys)
    ensures x in Without(a, keys) <==> x in a && x.key !in keys
    decreases |a| + |keys|
  {
    if a != [] && keys != [] {
      SortedTail(a);
      KeyCompareTotal(a[0].key, keys[0]);
      assert SortedKeys(keys[1..]);
      assert forall k :: k in keys <==> k == keys[0] || k in keys[1..];
      var d := KeyCompare(a[0].key, keys[0]);
      if d > 0 {
        BelowFirst(keys[0], a);
        AboveExcludes(keys[0], a);
        WithoutHas(a, keys[1..], x);
      } else if d == 0 {
        AboveExcludes(a[0].key, a[1..]);
        WithoutHas(a[1..], keys[1..], x);
      } else {
        FirstKeyIsLeast(a[0].key, keys);
        WithoutHas(a[1..], keys, x);
      }
    }
  }

  lemma {:induction false} WithoutSorted(a: seq<Pair>, keys: seq<Str>)
    requires Sorted(a) && SortedKeys(keys)
    ensures Sorted(Without(a, keys))
    decreases |a| + |keys|
  {
    if a != [] && keys != [] {
      SortedTail(a);
      assert SortedKeys(keys[1..]);
      var d := KeyCompare(a[0].key, keys[0]);
      if d > 0 {
        WithoutSorted(a, keys[1..]);
      } else if d == 0 {
        WithoutSorted(a[1..], keys[1..]);
      } else {
        WithoutSorted(a[1..], keys);
        forall x | x in Without(a[1..], keys) ensures Before(a[0].key, x.key) { WithoutHas(a[1..], keys, x); }
        SortedCons(a[0], Without(a[1..], keys));
      }
    }
  }

  /** Deleting an array of keys removes exactly those keys. */
  lemma WithoutIsRemoval(a: seq<Pair>, keys: seq<Str>)
    requires Sorted(a) && SortedKeys(keys)
    ensures Sorted(Without(a, keys)) && ToMap(Without(a, keys)) == ToMap(a) - (set k | k in keys)
  {
    WithoutSorted(a, keys);
    var m, o := ToMap(Without(a, keys)), ToMap(a) - (set k | k in keys);
    forall k, v ensures Maps(m, k, v) <==> Maps(o, k, v) {
      WithoutHas(a, keys, Pair(k, v));
      MapHas(Without(a, keys), Pair(k, v));
      MapHas(a, Pair(k, v));
    }
    SameMap(m, o);
  }

  // ----- hstore_delete_hstore -----

  /** The merge of `hstore_delete_hstore`: a pair goes when the other operand has it with the same value. */
  function Minus(a: seq<Pair>, b: seq<Pair>): seq<Pair>
    decreases |a| + |b|
  {
    if a == [] then []
    else if b == [] then a
    else
      var d := KeyCompare(a[0].key, b[0].key);
      if d > 0 then Minus(a, b[1..])
      else if d == 0 then (if a[0].val != b[0].val then [a[0]] else []) + Minus(a[1..], b[1..])
      else [a[0]] + Minus(a[1..], b)
  }

  lemma {:induction false} MinusHas(a: seq<Pair>, b: seq<Pair>, x: Pair)
    requires Sorted(a) && Sorted(b)
    ensures x in Minus(a, b) <==> x in a && x !in b
    decreases |a| + |b|
  {
    if a != [] && b != [] {
      SortedTail(a);
      SortedTail(b);
      KeyCompareTotal(a[0].key, b[0].key);
      var d := KeyCompare(a[0].key, b[0].key);
      if d > 0 {
        BelowFirst(b[0].key, a);
        AboveExcludes(b[0].key, a);
        MinusHas(a, b[1..], x);
      } else if d == 0 {
        AboveExcludes(a[0].key, a[1..]);
        AboveExcludes(b[0].key, b[1..]);
        MinusHas(a[1..], b[1..], x);
      } else {
        BelowFirst(a[0].key, b);
        AboveExcludes(a[0].key, b);
        MinusHas(a[1..], b, x);
      }
    }
  }

  lemma {:induction false} MinusSorted(a: seq<Pair>, b: seq<Pair>)
    requires Sorted(a) && Sorted(b)
    ensures Sorted(Minus(a, b))
    decreases |a| + |b|
  {
    if a != [] && b != [] {
      SortedTail(a);
      SortedTail(b);
      var d := KeyCompare(a[0].key, b[0].key);
      if d > 0 {
        MinusSorted(a, b[1..]);
      } else {
        var rest := if d == 0 then b[1..] else b;
        MinusSorted(a[1..], rest);
        forall x | x in Minus(a[1..], rest) ensures Before(a[0].key, x.key) { MinusHas(a[1..], rest, x); }
        SortedCons(a[0], Minus(a[1..], rest));
        assert [] + Minus(a[1..], rest) == Minus(a[1..], rest);
      }
    }
  }

  /** Deleting an hstore removes exactly the pairs that both operands have. */
  lemma MinusIsRemoval(a: seq<Pair>, b: seq<Pair>)
    requires Sorted(a) && Sorted(b)
    ensures Sorted(Minus(a, b))
    ensures ToMap(Minus(a, b)) == map k | k in ToMap(a) && !(k in ToMap(b) && ToMap(b)[k] == ToMap(a)[k]) :: ToMap(a)[k]
  {
    MinusSorted(a, b);
    var m := ToMap(Minus(a, b));
    var o := map k | k in ToMap(a) && !(k in ToMap(b) && ToMap(b)[k] == ToMap(a)[k]) :: ToMap(a)[k];
    forall k, v ensures Maps(m, k, v) <==> Maps(o, k, v) {
      MinusHas(a, b, Pair(k, v));
      MapHas(Minus(a, b), Pair(k, v));
      MapHas(a, Pair(k, v));
      MapHas(b, Pair(k, v));
    }
    SameMap(m, o);
  }
}

/**
 Byte strings and the order that `memcmp` followed by a length comparison gives them.
 Everything is expressed through the length of the common prefix, so that facts about
 prefixes and facts about the order can be combined without induction.
 */
module Bytes {

  type byte = b: int | 0 <= b < 256
  type bytes = seq<byte>

  // The functions below compare sequences of any numbers; sequences of bytes are among them.

  function FirstDifference(a: seq<int>, b: seq<int>, i: nat): (k: nat)
    requires i <= |a| && i <= |b|
    ensures i <= k <= |a| && k <= |b|
    ensures forall j :: i <= j < k ==> a[j] == b[j]
    ensures k < |a| && k < |b| ==> a[k] != b[k]
    decreases |a| - i
  {
    if i < |a| && i < |b| && a[i] == b[i] then FirstDifference(a, b, i + 1) else i
  }

  /** Length of the longest common prefix: the position at which `memcmp` stops. */
  function CommonPrefix(a: seq<int>, b: seq<int>): (k: nat)
    ensures k <= |a| && k <= |b|
    ensures a[..k] == b[..k]
    ensures forall i :: 0 <= i < k ==> a[i] == b[i]
    ensures k < |a| && k < |b| ==> a[k] != b[k]
  {
    FirstDifference(a, b, 0)
  }

  /** `memcmp` over the shared length, then the shorter string first. */
  function Compare(a: seq<int>, b: seq<int>): int
  {
    var k := CommonPrefix(a, b);
    if k == |a| && k == |b| then 0
    else if k == |a| then -1
    else if k == |b| then 1
    else if a[k] < b[k] then -1 else 1
  }

  /** `a` and `b` agree up to a position at which `a` ends or has the smaller byte. */
  ghost predicate Smaller(a: seq<int>, b: seq<int>) {
    exists k: nat :: k <= |a| && k < |b| && a[..k] == b[..k] && (k == |a| || a[k] < b[k])
  }

  /** The comparison is decided by the first byte that differs, or by the end of the shorter string. */
  lemma CompareExactly(a: seq<int>, b: seq<int>)
    ensures Compare(a, b) == -1 <==> Smaller(a, b)
    ensures Compare(a, b) == 1 <==> Smaller(b, a)
    ensures Compare(a, b) == 0 <==> a == b
  {
    var k := CommonPrefix(a, b);
    if Smaller(a, b) {
      var j: nat :| j <= |a| && j < |b| && a[..j] == b[..j] && (j == |a| || a[j] < b[j]);
      CommonPrefixUnique(a, b, j);
    }
    if Smaller(b, a) {
      var j: nat :| j <= |b| && j < |a| && b[..j] == a[..j] && (j == |b| || b[j] < a[j]);
      CommonPrefixUnique(a, b, j);
    }
    if Compare(a, b) == 0 { assert a == a[..k] == b[..k] == b; }
  }

  predicate Le(a: seq<int>, b: seq<int>) { Compare(a, b) <= 0 }

  /** The common prefix is the only length at which two strings agree before and stop agreeing. */
  lemma CommonPrefixUnique(a: seq<int>, b: seq<int>, k: nat)
    requires k <= |a| && k <= |b| && a[..k] == b[..k]
    requires k < |a| && k < |b| ==> a[k] != b[k]
    ensures CommonPrefix(a, b) == k
  {
    assert forall i :: 0 <= i < k ==> a[i] == a[..k][i] == b[..k][i] == b[i];
  }

  lemma CommonPrefixSymmetric(a: seq<int>, b: seq<int>)
    ensures CommonPrefix(a, b) == CommonPrefix(b, a)
  {
    CommonPrefixUnique(b, a, CommonPrefix(a, b));
  }

  lemma CompareAntisymmetric(a: seq<int>, b: seq<int>)
    ensures Compare(a, b) == -Compare(b, a)
    ensures Compare(a, b) == 0 <==> a == b
  {
    CommonPrefixSymmetric(a, b);
    if a == b {
      CommonPrefixUnique(a, b, |a|);
    }
    if Compare(a, b) == 0 {
      assert a[..|a|] == a && b[..|b|] == b;
    }
  }

  lemma LeTransitive(a: seq<int>, b: seq<int>, c: seq<int>)
    requires Le(a, b) && Le(b, c)
    ensures Le(a, c)
    ensures CommonPrefix(a, c) >= if CommonPrefix(a, b) < CommonPrefix(b, c) then CommonPrefix(a, b) else CommonPrefix(b, c)
    ensures Compare(a, b) < 0 || Compare(b, c) < 0 ==> Compare(a, c) < 0
  {
    var j, k := CommonPrefix(a, b), CommonPrefix(b, c);
    var m := if j < k then j else k;
    assert a[..m] == a[..j][..m] == b[..j][..m] == b[..m];
    assert c[..m] == c[..k][..m] == b[..k][..m] == b[..m];
    CommonPrefixUnique(a, c, m);
  }

  /** A string is below everything that extends it. */
  lemma PrefixIsLe(p: seq<int>, s: seq<int>)
    requires p <= s
    ensures Le(p, s) && CommonPrefix(p, s) == |p|
  {
    CommonPrefixUnique(p, s, |p|);
  }

  /** Cutting a lower string keeps it below. */
  lemma CutIsLe(a: seq<int>, n: nat, b: seq<int>)
    requires n <= |a| && Le(a, b)
    ensures Le(a[..n], b)
  {
    PrefixIsLe(a[..n], a);
    LeTransitive(a[..n], a, b);
  }

  /** Cutting an upper string either keeps it above or makes it a prefix. */
  lemma CutUpper(a: seq<int>, b: seq<int>, n: nat)
    requires n <= |b| && Le(a, b)
    ensures Le(a, b[..n]) || b[..n] <= a
  {
    var k := CommonPrefix(a, b);
    if n <= k {
      assert b[..n] == b[..k][..n] == a[..k][..n] == a[..n];
    } else {
      assert a[..k] == b[..k] == b[..n][..k];
      CommonPrefixUnique(a, b[..n], k);
    }
  }

  /** Between a prefix and one of its extensions there are only extensions of that prefix. */
  lemma BetweenPrefixAndExtension(p: seq<int>, q: seq<int>, s: seq<int>)
    requires p <= s && Le(p, q) && Le(q, s)
    ensures p <= q
  {
    var j, k := CommonPrefix(p, q), CommonPrefix(q, s);
    assert forall i :: 0 <= i < |p| ==> s[i] == p[i];
    assert j == |p|;
  }
}

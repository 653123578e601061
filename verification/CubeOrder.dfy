/**
 The comparison behind the B-tree operator class of cube (contrib/cube/cube.c, `cube_cmp_v0`).  It takes the
 dimensions that both boxes have first, so that which coordinates come first depends on the pair compared: boxes of
 mixed dimension can stand in a cycle.  The dimensions for which it is an order are given exactly.
 */
module CubeOrder {
  import opened Cube

  // ----- sequences of coordinates -----

  /** The order of the first coordinates that differ. */
  function Lex(x: seq<real>, y: seq<real>): int
    requires |x| == |y|
  {
    if x == [] then 0
    else if x[0] > y[0] then 1
    else if x[0] < y[0] then -1
    else Lex(x[1..], y[1..])
  }

  lemma {:induction false} LexAppend(x: seq<real>, y: seq<real>, u: seq<real>, v: seq<real>)
    requires |x| == |y| && |u| == |v|
    ensures Lex(x + u, y + v) == if Lex(x, y) != 0 then Lex(x, y) else Lex(u, v)
  {
    if x == [] {
      assert x + u == u && y + v == v;
    } else {
      assert (x + u)[1..] == x[1..] + u && (y + v)[1..] == y[1..] + v;
      LexAppend(x[1..], y[1..], u, v);
    }
  }

  lemma {:induction false} LexAt(x: seq<real>, y: seq<real>, k: nat)
    requires |x| == |y| && k < |x| && x[k] != y[k] && forall i :: 0 <= i < k ==> x[i] == y[i]
    ensures Lex(x, y) == if x[k] > y[k] then 1 else -1
  {
    if k > 0 { LexAt(x[1..], y[1..], k - 1); }
  }

  lemma {:induction false} LexAntisymmetric(x: seq<real>, y: seq<real>)
    requires |x| == |y|
    ensures Lex(x, y) == -Lex(y, x) && -1 <= Lex(x, y) <= 1 && (Lex(x, y) == 0 <==> x == y)
  {
    if x != [] {
      LexAntisymmetric(x[1..], y[1..]);
      assert x == [x[0]] + x[1..] && y == [y[0]] + y[1..];
    }
  }

  lemma {:induction false} LexTransitive(x: seq<real>, y: seq<real>, z: seq<real>)
    requires |x| == |y| == |z| && Lex(x, y) <= 0 && Lex(y, z) <= 0
    ensures Lex(x, z) <= 0 && (Lex(x, z) == 0 ==> x == y == z)
  {
    if x != [] {
      if x[0] == y[0] == z[0] {
        LexTransitive(x[1..], y[1..], z[1..]);
        assert x == [x[0]] + x[1..] && y == [y[0]] + y[1..] && z == [z[0]] + z[1..];
      }
    }
  }

  // ----- the comparison -----

  function Los(b: Box, from: nat, to: nat): (s: seq<real>)
    requires Proper(b) && from <= to
    ensures |s| == to - from && forall i :: 0 <= i < |s| ==> s[i] == Lo(b, from + i)
  {
    seq(to - from, i requires 0 <= i < to - from => Lo(b, from + i))
  }

  function His(b: Box, from: nat, to: nat): (s: seq<real>)
    requires Proper(b) && from <= to
    ensures |s| == to - from && forall i :: 0 <= i < |s| ==> s[i] == Hi(b, from + i)
  {
    seq(to - from, i requires 0 <= i < to - from => Hi(b, from + i))
  }

  /** The lower and the upper bounds of a range of dimensions. */
  function Bounds(b: Box, from: nat, to: nat): (s: seq<real>)
    requires Proper(b) && from <= to
    ensures |s| == 2 * (to - from)
  {
    Los(b, from, to) + His(b, from, to)
  }

  function Shared(a: Box, b: Box): nat { if a.dim < b.dim then a.dim else b.dim }

  /** All bounds of a box in the order in which a comparison looks at them, when `c` dimensions are shared. */
  function Key(x: Box, c: nat, d: nat): (s: seq<real>)
    requires Proper(x) && c <= d
    ensures |s| == 2 * d
  {
    Bounds(x, 0, c) + Bounds(x, c, d)
  }

  function Sign(n: int): int { if n > 0 then 1 else if n < 0 then -1 else 0 }

  /** The order by the shared dimensions, then by the others, then by their number. */
  function Compare(a: Box, b: Box): int
    requires Proper(a) && Proper(b)
  {
    var c, d := Shared(a, b), Larger(a.dim, b.dim);
    var order := Lex(Key(a, c, d), Key(b, c, d));
    if order != 0 then order else Sign(a.dim - b.dim)
  }

  /** Two of the loops: lower bounds first, then upper bounds; a box has 0 in a dimension it lacks. */
  method CompareBounds(a: Box, b: Box, from: nat, to: nat) returns (r: int)
    requires Proper(a) && Proper(b) && from <= to
    ensures r == Lex(Bounds(a, from, to), Bounds(b, from, to))
  {
    hide Lex;
    LexAppend(Los(a, from, to), Los(b, from, to), His(a, from, to), His(b, from, to));
    for i := from to to
      invariant forall j :: from <= j < i ==> Lo(a, j) == Lo(b, j)
    {
      if Lo(a, i) != Lo(b, i) {
        LexAt(Los(a, from, to), Los(b, from, to), i - from);
        return if Lo(a, i) > Lo(b, i) then 1 else -1;
      }
    }
    assert Los(a, from, to) == Los(b, from, to);
    LexAntisymmetric(Los(a, from, to), Los(b, from, to));
    for i := from to to
      invariant forall j :: from <= j < i ==> Hi(a, j) == Hi(b, j)
    {
      if Hi(a, i) != Hi(b, i) {
        LexAt(His(a, from, to), His(b, from, to), i - from);
        return if Hi(a, i) > Hi(b, i) then 1 else -1;
      }
    }
    assert His(a, from, to) == His(b, from, to);
    LexAntisymmetric(His(a, from, to), His(b, from, to));
    return 0;
  }

  /** `cube_cmp_v0`. */
  method CubeCmp(a: Box, b: Box) returns (r: int)
    requires Proper(a) && Proper(b)
    ensures r == Compare(a, b)
  {
    hide Lex, Bounds;
    var c, d := Shared(a, b), Larger(a.dim, b.dim);
    LexAppend(Bounds(a, 0, c), Bounds(b, 0, c), Bounds(a, c, d), Bounds(b, c, d));
    r := CompareBounds(a, b, 0, c);
    if r != 0 { return r; }
    r := CompareBounds(a, b, c, d);
    if r != 0 { return r; }
    r := if a.dim > b.dim then 1 else if a.dim < b.dim then -1 else 0;
  }

  ghost predicate SameExtent(a: Box, b: Box)
    requires Proper(a) && Proper(b)
  {
    forall i: nat :: Lo(a, i) == Lo(b, i) && Hi(a, i) == Hi(b, i)
  }

  lemma BoundsDetermine(a: Box, b: Box, from: nat, to: nat)
    requires Proper(a) && Proper(b) && from <= to
    ensures Bounds(a, from, to) == Bounds(b, from, to) <==>
      forall i :: from <= i < to ==> Lo(a, i) == Lo(b, i) && Hi(a, i) == Hi(b, i)
  {
    hide Lo, Hi, Los, His;
    var n := to - from;
    var p, q := Bounds(a, from, to), Bounds(b, from, to);
    if p == q {
      forall i | from <= i < to ensures Lo(a, i) == Lo(b, i) && Hi(a, i) == Hi(b, i) {
        assert p[i - from] == q[i - from] && p[i - from + n] == q[i - from + n];
      }
    }
  }

  /** It says equal exactly for boxes of the same extent and dimension, and turning the pair round turns the sign. */
  lemma CompareIsExact(a: Box, b: Box)
    requires Proper(a) && Proper(b)
    ensures Compare(a, b) == -Compare(b, a)
    ensures Compare(a, b) == 0 <==> a.dim == b.dim && SameExtent(a, b)
  {
    hide Lex;
    var c, d := Shared(a, b), Larger(a.dim, b.dim);
    LexAntisymmetric(Key(a, c, d), Key(b, c, d));
    if a.dim == b.dim { KeysDetermine(a, b); }
  }

  lemma KeysDetermine(a: Box, b: Box)
    requires Proper(a) && Proper(b) && a.dim == b.dim
    ensures Key(a, a.dim, a.dim) == Key(b, a.dim, a.dim) <==> SameExtent(a, b)
  {
    hide Bounds;
    BoundsDetermine(a, b, 0, a.dim);
    AtEnd(a, a.dim);
    AtEnd(b, a.dim);
  }

  lemma AtEnd(x: Box, n: nat)
    requires Proper(x)
    ensures Key(x, n, n) == Bounds(x, 0, n) == Key(x, 0, n)
  {
    assert Bounds(x, n, n) == [] && Bounds(x, 0, 0) == [];
  }

  // ----- where it is an order -----

  /** Boxes of one dimension, and empty ones, are compared by the same coordinates. */
  lemma CompareByBounds(a: Box, b: Box, n: nat)
    requires Proper(a) && Proper(b) && (a.dim == 0 || a.dim == n) && (b.dim == 0 || b.dim == n)
    ensures Compare(a, b) ==
      var order := Lex(Bounds(a, 0, n), Bounds(b, 0, n));
      if order != 0 then order else Sign(a.dim - b.dim)
  {
    hide Lex, Bounds;
    AtEnd(a, n);
    AtEnd(b, n);
    if a.dim == b.dim == 0 { EmptyBounds(a, b, n); }
  }

  lemma EmptyBounds(a: Box, b: Box, n: nat)
    requires Proper(a) && Proper(b) && a.dim == b.dim == 0
    ensures Lex(Bounds(a, 0, n), Bounds(b, 0, n)) == 0 && Lex(Key(a, 0, 0), Key(b, 0, 0)) == 0
  {
    hide Lex;
    BoundsDetermine(a, b, 0, n);
    LexAntisymmetric(Bounds(a, 0, n), Bounds(b, 0, n));
    LexAntisymmetric(Key(a, 0, 0), Key(b, 0, 0));
  }

  lemma OrderWithin(a: Box, b: Box, c: Box, n: nat)
    requires Proper(a) && Proper(b) && Proper(c)
    requires (a.dim == 0 || a.dim == n) && (b.dim == 0 || b.dim == n) && (c.dim == 0 || c.dim == n)
    requires Compare(a, b) <= 0 && Compare(b, c) <= 0
    ensures Compare(a, c) <= 0
  {
    hide Lex, Bounds, Compare;
    CompareByBounds(a, b, n);
    CompareByBounds(b, c, n);
    CompareByBounds(a, c, n);
    var x, y, z := Bounds(a, 0, n), Bounds(b, 0, n), Bounds(c, 0, n);
    LexTransitive(x, y, z);
    LexAntisymmetric(x, y);
    LexAntisymmetric(y, z);
  }

  /** A box with the extent from 0 to `high` in the first dimension and at `at` in dimension `k`, and 0 elsewhere. */
  function Marked(n: nat, high: real, k: nat, at: real): (b: Box)
    requires n > 0
    ensures Proper(b) && b.dim == n
  {
    Box(n, false, seq(2 * n, i => if i == n then high else if i == k || i == n + k then at else 0.0))
  }

  lemma MarkedBounds(n: nat, high: real, k: nat, at: real, i: nat)
    requires n > 0 && high >= 0.0 && at >= 0.0 && k > 0 && i < n && (k < n || at == 0.0)
    ensures var b := Marked(n, high, k, at);
      && Lo(b, i) == (if i == k then at else 0.0)
      && Hi(b, i) == if i == 0 then high else if i == k then at else 0.0
  {
    var b := Marked(n, high, k, at);
    assert LL(b, i) == b.x[i] && UR(b, i) == b.x[i + n];
  }

  /** Three boxes of two dimensions, each before the next and the last before the first. */
  lemma CompareCycle(m: nat, n: nat) returns (a: Box, b: Box, c: Box)
    requires 0 < m < n
    ensures Proper(a) && Proper(b) && Proper(c) && a.dim == m && b.dim == c.dim == n
    ensures Compare(a, b) == Compare(b, c) == Compare(c, a) == -1
  {
    a, b, c := Marked(m, 5.0, n, 0.0), Marked(n, 7.0, m, 1.0), Marked(n, 3.0, m, 2.0);
    forall i | 0 <= i < m ensures Lo(a, i) == Lo(b, i) == Lo(c, i) == 0.0 && Hi(a, 0) == 5.0 && Hi(b, 0) == 7.0 && Hi(c, 0) == 3.0 {
      MarkedBounds(m, 5.0, n, 0.0, i);
      MarkedBounds(n, 7.0, m, 1.0, i);
      MarkedBounds(n, 3.0, m, 2.0, i);
      MarkedBounds(m, 5.0, n, 0.0, 0);
      MarkedBounds(n, 7.0, m, 1.0, 0);
      MarkedBounds(n, 3.0, m, 2.0, 0);
    }
    MarkedBounds(n, 7.0, m, 1.0, m);
    MarkedBounds(n, 3.0, m, 2.0, m);
    hide Marked;
    assert Hi(a, 0) == 5.0 && Hi(b, 0) == 7.0 && Hi(c, 0) == 3.0;
    FirstUpperDecides(a, b);
    FirstUpperDecides(c, a);
    LowerDecides(b, c, m);
  }

  lemma FirstUpperDecides(a: Box, b: Box)
    requires Proper(a) && Proper(b) && Shared(a, b) > 0 && Hi(a, 0) < Hi(b, 0)
    requires forall i :: 0 <= i < Shared(a, b) ==> Lo(a, i) == Lo(b, i)
    ensures Compare(a, b) == -1
  {
    hide Lex, Lo, Hi;
    var c, d := Shared(a, b), Larger(a.dim, b.dim);
    LexAt(Key(a, c, d), Key(b, c, d), c);
  }

  lemma LowerDecides(a: Box, b: Box, k: nat)
    requires Proper(a) && Proper(b) && k < Shared(a, b) && Lo(a, k) < Lo(b, k)
    requires forall i :: 0 <= i < k ==> Lo(a, i) == Lo(b, i)
    ensures Compare(a, b) == -1
  {
    hide Lex, Lo, Hi;
    var c, d := Shared(a, b), Larger(a.dim, b.dim);
    LexAt(Key(a, c, d), Key(b, c, d), k);
  }

  /** The comparison is transitive on the boxes whose dimensions are among `dims`. */
  ghost predicate TransitiveOn(dims: set<nat>) {
    forall a, b, c | Proper(a) && Proper(b) && Proper(c) && a.dim in dims && b.dim in dims && c.dim in dims ::
      Compare(a, b) <= 0 && Compare(b, c) <= 0 ==> Compare(a, c) <= 0
  }

  /** The comparison orders the boxes of a column if and only if all that are not empty have the same dimension. */
  lemma TransitiveExactly(dims: set<nat>)
    ensures TransitiveOn(dims) <==> forall m <- dims, n <- dims :: m == 0 || n == 0 || m == n
  {
    hide Compare;
    if forall m <- dims, n <- dims :: m == 0 || n == 0 || m == n {
      forall a, b, c | Proper(a) && Proper(b) && Proper(c) && a.dim in dims && b.dim in dims && c.dim in dims
        && Compare(a, b) <= 0 && Compare(b, c) <= 0
        ensures Compare(a, c) <= 0
      {
        OrderWithin(a, b, c, Larger(a.dim, Larger(b.dim, c.dim)));
      }
    } else {
      var m, n :| m in dims && n in dims && 0 < m < n;
      var a, b, c := CompareCycle(m, n);
      CompareIsExact(a, c);
      assert Compare(a, b) <= 0 && Compare(b, c) <= 0 && Compare(a, c) > 0;
    }
  }
}

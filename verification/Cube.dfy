/**
 Boxes of any dimension (contrib/cube/cube.c) over the real numbers: the union that the index builds keys
 from, the overlap test, and the distances by which the index orders a nearest-neighbour scan.
 A box has no extent in the dimensions it lacks: there it is the point 0.
 */
module Cube {

  /** The coordinates: one per dimension for a point, otherwise all of one corner and then all of the other. */
  datatype Box = Box(dim: nat, isPoint: bool, x: seq<real>)

  predicate Proper(b: Box) { |b.x| == if b.isPoint then b.dim else 2 * b.dim }

  function LL(b: Box, i: nat): real
    requires Proper(b) && i < b.dim
  {
    b.x[i]
  }

  function UR(b: Box, i: nat): real
    requires Proper(b) && i < b.dim
  {
    if b.isPoint then b.x[i] else b.x[i + b.dim]
  }

  function Min(x: real, y: real): real { if x < y then x else y }
  function Max(x: real, y: real): real { if x > y then x else y }
  function Larger(m: nat, n: nat): nat { if m < n then n else m }

  /** The extent of a box in any dimension. */
  function Lo(b: Box, i: nat): real
    requires Proper(b)
  {
    if i < b.dim then Min(LL(b, i), UR(b, i)) else 0.0
  }

  function Hi(b: Box, i: nat): real
    requires Proper(b)
  {
    if i < b.dim then Max(LL(b, i), UR(b, i)) else 0.0
  }

  predicate Within(m: Box, p: Box, i: nat)
    requires Proper(p) && Proper(m)
  {
    Lo(p, i) <= Lo(m, i) && Hi(m, i) <= Hi(p, i)
  }

  ghost predicate Encloses(p: Box, m: Box)
    requires Proper(p) && Proper(m)
  {
    forall i: nat :: Within(m, p, i)
  }

  // ----- cube_union_v0 -----

  /** `cube_is_point_internal`. */
  method IsPointInternal(b: Box) returns (res: bool)
    requires Proper(b)
    ensures res <==> b.isPoint || forall i :: 0 <= i < b.dim ==> LL(b, i) == UR(b, i)
  {
    if b.isPoint { return true; }
    for i := 0 to b.dim
      invariant forall j :: 0 <= j < i ==> LL(b, j) == UR(b, j)
    {
      if LL(b, i) != UR(b, i) { return false; }
    }
    return true;
  }

  ghost predicate IsHull(r: Box, a: Box, b: Box)
    requires Proper(r) && Proper(a) && Proper(b)
  {
    forall i: nat :: HullAt(r, a, b, i)
  }

  predicate HullAt(r: Box, a: Box, b: Box, i: nat)
    requires Proper(r) && Proper(a) && Proper(b)
  {
    Lo(r, i) == Min(Lo(a, i), Lo(b, i)) && Hi(r, i) == Max(Hi(a, i), Hi(b, i))
  }

  /** The corners of the smallest box around both: the shared dimensions and then those only in `a`. */
  method Corners(a: Box, b: Box) returns (x: array<real>)
    requires Proper(a) && Proper(b) && b.dim <= a.dim
    ensures x.Length == 2 * a.dim
    ensures forall j :: 0 <= j < a.dim ==> x[j] == Min(Lo(a, j), Lo(b, j)) && x[j + a.dim] == Max(Hi(a, j), Hi(b, j))
  {
    var dim := a.dim;
    x := new real[2 * dim](_ => 0.0);
    var i := 0;
    while i < b.dim
      invariant 0 <= i <= b.dim
      invariant forall j :: 0 <= j < i ==> x[j] == Min(Lo(a, j), Lo(b, j)) && x[j + dim] == Max(Hi(a, j), Hi(b, j))
    {
      x[i] := Min(Min(LL(a, i), UR(a, i)), Min(LL(b, i), UR(b, i)));
      x[i + dim] := Max(Max(LL(a, i), UR(a, i)), Max(LL(b, i), UR(b, i)));
      i := i + 1;
    }
    while i < dim
      invariant b.dim <= i <= dim
      invariant forall j :: 0 <= j < i ==> x[j] == Min(Lo(a, j), Lo(b, j)) && x[j + dim] == Max(Hi(a, j), Hi(b, j))
    {
      x[i] := Min(0.0, Min(LL(a, i), UR(a, i)));
      x[i + dim] := Max(0.0, Max(LL(a, i), UR(a, i)));
      i := i + 1;
    }
  }

  /** `cube_union_v0`: the smallest box around both, as a point when it is one. The same datum twice is returned as it is. */
  method Union(first: Box, second: Box, sameDatum: bool) returns (r: Box)
    requires Proper(first) && Proper(second) && (sameDatum ==> first == second)
    ensures Proper(r) && r.dim == Larger(first.dim, second.dim) && IsHull(r, first, second)
    ensures if sameDatum then r == first else r.isPoint <==> forall i :: 0 <= i < r.dim ==> Lo(r, i) == Hi(r, i)
  {
    if sameDatum { return first; }
    hide Lo, Hi, IsHull;
    var a, b := first, second;
    if a.dim < b.dim { a, b := b, a; }
    var x := Corners(a, b);
    r := Box(a.dim, false, x[..]);
    var point := IsPointInternal(r);
    HullOf(r, a, b, first, second);
    PointByExtent(r);
    if point {
      ghost var full := r;
      r := Box(a.dim, true, x[..a.dim]);
      PointOf(full, r, first, second);
    }
  }

  lemma HullOf(r: Box, a: Box, b: Box, first: Box, second: Box)
    requires Proper(r) && Proper(a) && Proper(b) && !r.isPoint && r.dim == a.dim >= b.dim
    requires (first, second) == (a, b) || (first, second) == (b, a)
    requires forall j :: 0 <= j < r.dim ==> r.x[j] == Min(Lo(a, j), Lo(b, j)) && r.x[j + r.dim] == Max(Hi(a, j), Hi(b, j))
    ensures IsHull(r, first, second)
  {
    forall i: nat ensures HullAt(r, first, second, i) {
      LoBelowHi(a, i);
      if i < r.dim { assert r.x[i] == Min(Lo(a, i), Lo(b, i)); }
    }
  }

  lemma LoBelowHi(b: Box, i: nat)
    requires Proper(b)
    ensures Lo(b, i) <= Hi(b, i)
  {
  }

  lemma PointOf(full: Box, r: Box, first: Box, second: Box)
    requires Proper(full) && Proper(r) && Proper(first) && Proper(second) && IsHull(full, first, second)
    requires r.isPoint && !full.isPoint && r.dim == full.dim && r.x == full.x[..r.dim]
    requires forall i :: 0 <= i < full.dim ==> LL(full, i) == UR(full, i)
    ensures IsHull(r, first, second) && forall i :: 0 <= i < r.dim ==> Lo(r, i) == Hi(r, i)
  {
    forall i: nat ensures HullAt(r, first, second, i) {
      assert HullAt(full, first, second, i);
      if i < r.dim { assert LL(full, i) == UR(full, i) == LL(r, i); }
    }
  }

  lemma PointByExtent(b: Box)
    requires Proper(b)
    ensures (forall i :: 0 <= i < b.dim ==> LL(b, i) == UR(b, i)) <==> forall i :: 0 <= i < b.dim ==> Lo(b, i) == Hi(b, i)
  {
    hide LL, UR;
    if !forall i :: 0 <= i < b.dim ==> LL(b, i) == UR(b, i) {
      var i :| 0 <= i < b.dim && LL(b, i) != UR(b, i);
      assert Lo(b, i) != Hi(b, i);
    }
  }

  lemma HullEncloses(r: Box, a: Box, b: Box)
    requires Proper(r) && Proper(a) && Proper(b) && IsHull(r, a, b)
    ensures Encloses(r, a) && Encloses(r, b)
  {
    hide Lo, Hi;
    forall i: nat ensures Within(a, r, i) && Within(b, r, i) { assert HullAt(r, a, b, i); }
  }

  /** Nothing smaller encloses both. */
  lemma HullIsLeast(r: Box, a: Box, b: Box, other: Box)
    requires Proper(r) && Proper(a) && Proper(b) && Proper(other) && IsHull(r, a, b)
    requires Encloses(other, a) && Encloses(other, b)
    ensures Encloses(other, r)
  {
    hide Lo, Hi;
    forall i: nat ensures Within(r, other, i) {
      assert HullAt(r, a, b, i) && Within(a, other, i) && Within(b, other, i);
    }
  }

  lemma EnclosesTransitive(p: Box, m: Box, l: Box)
    requires Proper(p) && Proper(m) && Proper(l) && Encloses(p, m) && Encloses(m, l)
    ensures Encloses(p, l)
  {
    hide Lo, Hi;
    forall i: nat ensures Within(l, p, i) { assert Within(m, p, i) && Within(l, m, i); }
  }

  ghost predicate EnclosesAll(o: Box, entries: seq<Box>) {
    Proper(o) && forall e <- entries :: Proper(e) && Encloses(o, e)
  }

  /** A box around all entries, with at least their dimensions, that every box around all of them encloses. */
  ghost predicate LeastAround(r: Box, entries: seq<Box>) {
    && EnclosesAll(r, entries)
    && (forall e <- entries :: e.dim <= r.dim)
    && forall o :: EnclosesAll(o, entries) ==> Encloses(o, r)
  }

  lemma LeastNext(was: Box, entries: seq<Box>, e: Box, r: Box)
    requires LeastAround(was, entries) && Proper(e) && Proper(r) && IsHull(r, was, e) && r.dim == Larger(was.dim, e.dim)
    ensures LeastAround(r, entries + [e])
  {
    hide IsHull, Encloses;
    HullEncloses(r, was, e);
    forall x | x in entries ensures Encloses(r, x) { EnclosesTransitive(r, was, x); }
    forall o | EnclosesAll(o, entries + [e]) ensures Encloses(o, r) {
      assert EnclosesAll(o, entries) && e in entries + [e];
      HullIsLeast(r, was, e, o);
    }
  }

  lemma LeastOfOne(b: Box)
    requires Proper(b)
    ensures LeastAround(b, [b])
  {
    hide Encloses;
    EnclosesItself(b);
    assert b in [b];
  }

  /** `g_cube_union`. */
  method UnionAll(entries: seq<Box>) returns (r: Box)
    requires |entries| >= 2 && forall e <- entries :: Proper(e)
    ensures LeastAround(r, entries)
  {
    hide IsHull, LeastAround;
    r := entries[0];
    LeastOfOne(r);
    assert entries[..1] == [r];
    for i := 1 to |entries|
      invariant Proper(r) && LeastAround(r, entries[..i])
    {
      ghost var was := r;
      r := Union(r, entries[i], false);
      LeastNext(was, entries[..i], entries[i], r);
      assert entries[..i + 1] == entries[..i] + [entries[i]];
    }
    assert entries[..|entries|] == entries;
  }

  // ----- cube_overlap_v0 -----

  predicate Touches(a: Box, b: Box, i: nat)
    requires Proper(a) && Proper(b)
  {
    Lo(a, i) <= Hi(b, i) && Lo(b, i) <= Hi(a, i)
  }

  ghost predicate Overlaps(a: Box, b: Box)
    requires Proper(a) && Proper(b)
  {
    forall i: nat :: Touches(a, b, i)
  }

  /** `cube_overlap_v0`: whether the extents meet in every dimension. */
  method Overlap(first: Box, second: Box) returns (res: bool)
    requires Proper(first) && Proper(second)
    ensures res <==> Overlaps(first, second)
  {
    var a, b := first, second;
    if a.dim < b.dim { a, b := b, a; }
    var i := 0;
    while i < b.dim
      invariant 0 <= i <= b.dim && forall j :: 0 <= j < i ==> Touches(first, second, j)
    {
      if Min(LL(a, i), UR(a, i)) > Max(LL(b, i), UR(b, i)) || Max(LL(a, i), UR(a, i)) < Min(LL(b, i), UR(b, i)) {
        assert !Touches(first, second, i);
        return false;
      }
      i := i + 1;
    }
    while i < a.dim
      invariant b.dim <= i <= a.dim && forall j :: 0 <= j < i ==> Touches(first, second, j)
    {
      if Min(LL(a, i), UR(a, i)) > 0.0 || Max(LL(a, i), UR(a, i)) < 0.0 {
        assert !Touches(first, second, i);
        return false;
      }
      i := i + 1;
    }
    assert forall j: nat :: a.dim <= j ==> Touches(first, second, j);
    return true;
  }

  lemma OverlapIsInherited(p: Box, m: Box, q: Box)
    requires Proper(p) && Proper(m) && Proper(q) && Encloses(p, m) && Overlaps(m, q)
    ensures Overlaps(p, q)
  {
    hide Lo, Hi;
    forall i: nat ensures Touches(p, q, i) { assert Within(m, p, i) && Touches(m, q, i); }
  }

  // ----- distances -----

  /** `distance_1D` of two intervals given by their ends in either order. */
  function Distance1D(a1: real, a2: real, b1: real, b2: real): real {
    if a1 <= b1 && a2 <= b1 && a1 <= b2 && a2 <= b2 then Min(b1, b2) - Max(a1, a2)
    else if a1 > b1 && a2 > b1 && a1 > b2 && a2 > b2 then Min(a1, a2) - Max(b1, b2)
    else 0.0
  }

  function Abs(x: real): real { if x < 0.0 then -x else x }

  /** The gap between two boxes in a dimension. */
  function Gap(a: Box, b: Box, i: nat): real
    requires Proper(a) && Proper(b)
  {
    Max(0.0, Max(Lo(b, i) - Hi(a, i), Lo(a, i) - Hi(b, i)))
  }

  lemma Distance1DIsGap(a: Box, b: Box, i: nat)
    requires Proper(a) && Proper(b)
    ensures i < a.dim && i < b.dim ==> Distance1D(LL(a, i), UR(a, i), LL(b, i), UR(b, i)) == Gap(a, b, i)
    ensures i < a.dim && i >= b.dim ==> Distance1D(LL(a, i), UR(a, i), 0.0, 0.0) == Gap(a, b, i)
    ensures Gap(a, b, i) == Gap(b, a, i) >= 0.0
    ensures i >= a.dim && i >= b.dim ==> Gap(a, b, i) == 0.0
  {
  }

  /** A larger box is no farther away. */
  lemma GapShrinks(p: Box, m: Box, q: Box, i: nat)
    requires Proper(p) && Proper(m) && Proper(q) && Within(m, p, i)
    ensures 0.0 <= Gap(p, q, i) <= Gap(m, q, i)
  {
    hide Lo, Hi;
  }

  datatype Metric = Taxicab | EuclidSquared | Chebyshev

  function Accumulate(metric: Metric, sum: real, d: real): real {
    match metric
    case Taxicab => sum + d
    case EuclidSquared => sum + d * d
    case Chebyshev => Max(sum, d)
  }

  /** The distance over the first `n` dimensions. */
  function Over(metric: Metric, a: Box, b: Box, n: nat): real
    requires Proper(a) && Proper(b)
  {
    if n == 0 then 0.0 else Accumulate(metric, Over(metric, a, b, n - 1), Gap(a, b, n - 1))
  }

  function Dist(metric: Metric, a: Box, b: Box): real
    requires Proper(a) && Proper(b)
  {
    Over(metric, a, b, Larger(a.dim, b.dim))
  }

  lemma {:induction false} OverSymmetric(metric: Metric, a: Box, b: Box, n: nat)
    requires Proper(a) && Proper(b)
    ensures Over(metric, a, b, n) == Over(metric, b, a, n) >= 0.0
  {
    hide Gap;
    if n > 0 {
      OverSymmetric(metric, a, b, n - 1);
      Distance1DIsGap(a, b, n - 1);
      Squares(Gap(a, b, n - 1));
    }
  }

  lemma Squares(x: real)
    ensures x * x >= 0.0
  {
  }

  /**
   `distance_taxicab`, the sum of squares of `cube_distance`, and `distance_chebyshev`: the shared dimensions
   and then those of the box with more.
   */
  method Distance(metric: Metric, first: Box, second: Box) returns (d: real)
    requires Proper(first) && Proper(second)
    ensures d == Dist(metric, first, second)
  {
    hide Gap, Lo, Hi, Distance1D;
    var a, b := first, second;
    if a.dim < b.dim { a, b := b, a; }
    d := 0.0;
    var i := 0;
    while i < b.dim
      invariant 0 <= i <= b.dim && d == Over(metric, a, b, i)
    {
      Distance1DIsGap(a, b, i);
      d := Accumulate(metric, d, Abs(Distance1D(LL(a, i), UR(a, i), LL(b, i), UR(b, i))));
      i := i + 1;
    }
    while i < a.dim
      invariant b.dim <= i <= a.dim && d == Over(metric, a, b, i)
    {
      Distance1DIsGap(a, b, i);
      d := Accumulate(metric, d, Abs(Distance1D(LL(a, i), UR(a, i), 0.0, 0.0)));
      i := i + 1;
    }
    OverSymmetric(metric, a, b, i);
  }

  /** Dimensions that neither box has add nothing. */
  lemma {:induction false} OverMore(metric: Metric, a: Box, b: Box, n: nat)
    requires Proper(a) && Proper(b) && n >= Larger(a.dim, b.dim)
    ensures Over(metric, a, b, n) == Dist(metric, a, b)
  {
    hide Gap;
    if n > Larger(a.dim, b.dim) {
      OverMore(metric, a, b, n - 1);
      Distance1DIsGap(a, b, n - 1);
      OverSymmetric(metric, a, b, n - 1);
    }
  }

  // ----- what the distances are -----

  function Sum(s: seq<real>): real { if s == [] then 0.0 else s[0] + Sum(s[1..]) }

  lemma {:induction false} SumMore(s: seq<real>, x: real)
    ensures Sum(s + [x]) == Sum(s) + x
  {
    if s == [] {
      assert s + [x] == [x];
    } else {
      assert (s + [x])[1..] == s[1..] + [x];
      SumMore(s[1..], x);
    }
  }

  /** The gaps in the first `n` dimensions. */
  function Gaps(a: Box, b: Box, n: nat): (s: seq<real>)
    requires Proper(a) && Proper(b)
    ensures |s| == n && forall i :: 0 <= i < n ==> s[i] == Gap(a, b, i)
  {
    seq(n, i requires 0 <= i < n => Gap(a, b, i))
  }

  function Squared(s: seq<real>): (r: seq<real>)
    ensures |r| == |s| && forall i :: 0 <= i < |s| ==> r[i] == s[i] * s[i]
  {
    seq(|s|, i requires 0 <= i < |s| => s[i] * s[i])
  }

  lemma SquaredMore(s: seq<real>, x: real)
    ensures Squared(s + [x]) == Squared(s) + [x * x]
  {
    assert |Squared(s + [x])| == |s| + 1 && Squared(s + [x])[|s|] == x * x;
    assert forall i :: 0 <= i < |s| ==> Squared(s + [x])[i] == Squared(s)[i];
  }

  /** The greatest of the numbers, or 0 if none is greater. */
  predicate Greatest(d: real, s: seq<real>) {
    d >= 0.0 && (forall x <- s :: x <= d) && (d == 0.0 || d in s)
  }

  lemma GapsMore(a: Box, b: Box, n: nat)
    requires Proper(a) && Proper(b)
    ensures Gaps(a, b, n + 1) == Gaps(a, b, n) + [Gap(a, b, n)]
  {
    hide Gap;
  }

  lemma {:induction false} TaxicabOver(a: Box, b: Box, n: nat)
    requires Proper(a) && Proper(b)
    ensures Over(Taxicab, a, b, n) == Sum(Gaps(a, b, n))
  {
    hide Gap, Gaps, Sum;
    if n > 0 {
      TaxicabOver(a, b, n - 1);
      GapsMore(a, b, n - 1);
      SumMore(Gaps(a, b, n - 1), Gap(a, b, n - 1));
    } else {
      assert Gaps(a, b, 0) == [];
      SumNone();
    }
  }

  lemma SumNone()
    ensures Sum([]) == 0.0
  {
  }

  lemma {:induction false} EuclidOver(a: Box, b: Box, n: nat)
    requires Proper(a) && Proper(b)
    ensures Over(EuclidSquared, a, b, n) == Sum(Squared(Gaps(a, b, n)))
  {
    hide Gap, Gaps, Sum, Squared;
    if n > 0 {
      EuclidOver(a, b, n - 1);
      GapsMore(a, b, n - 1);
      var before, here := Gaps(a, b, n - 1), Gap(a, b, n - 1);
      SquaredMore(before, here);
      SumMore(Squared(before), here * here);
    } else {
      assert Gaps(a, b, 0) == [] && Squared(Gaps(a, b, 0)) == [];
      SumNone();
    }
  }

  lemma {:induction false} ChebyshevOver(a: Box, b: Box, n: nat)
    requires Proper(a) && Proper(b)
    ensures Greatest(Over(Chebyshev, a, b, n), Gaps(a, b, n))
  {
    hide Gap, Gaps;
    if n > 0 {
      ChebyshevOver(a, b, n - 1);
      GapsMore(a, b, n - 1);
      Distance1DIsGap(a, b, n - 1);
      var before, here := Gaps(a, b, n - 1), Gap(a, b, n - 1);
      assert forall x <- before + [here] :: x in before || x == here;
      assert here in before + [here] && forall x <- before :: x in before + [here];
    } else {
      assert Gaps(a, b, 0) == [];
    }
  }

  /** Taxicab adds the gaps, Euclid their squares, and Chebyshev takes the greatest, over any dimensions that both boxes fit in. */
  lemma DistanceIs(metric: Metric, a: Box, b: Box, n: nat)
    requires Proper(a) && Proper(b) && n >= Larger(a.dim, b.dim)
    ensures match metric
      case Taxicab => Dist(metric, a, b) == Sum(Gaps(a, b, n))
      case EuclidSquared => Dist(metric, a, b) == Sum(Squared(Gaps(a, b, n)))
      case Chebyshev => Greatest(Dist(metric, a, b), Gaps(a, b, n))
  {
    hide Over, Gaps;
    OverMore(metric, a, b, n);
    match metric
    case Taxicab => TaxicabOver(a, b, n);
    case EuclidSquared => EuclidOver(a, b, n);
    case Chebyshev => ChebyshevOver(a, b, n);
  }

  lemma {:induction false} SumParts(s: seq<real>, t: seq<real>)
    ensures Sum(s + t) == Sum(s) + Sum(t)
  {
    if s == [] {
      assert s + t == t;
    } else {
      assert (s + t)[1..] == s[1..] + t;
      SumParts(s[1..], t);
    }
  }

  lemma {:induction false} SumOfOne(s: seq<real>, k: nat)
    requires k < |s| && forall i :: 0 <= i < |s| && i != k ==> s[i] == 0.0
    ensures Sum(s) == s[k]
  {
    if k > 0 {
      SumOfOne(s[1..], k - 1);
    } else {
      SumOfZeros(s[1..]);
    }
  }

  lemma {:induction false} SumOfZeros(s: seq<real>)
    requires forall i :: 0 <= i < |s| ==> s[i] == 0.0
    ensures Sum(s) == 0.0
  {
    if s != [] { SumOfZeros(s[1..]); }
  }

  /** Boxes that are apart in one dimension only are that gap apart, or its square. */
  lemma OneGap(metric: Metric, a: Box, b: Box, k: nat)
    requires Proper(a) && Proper(b) && forall i: nat :: i != k ==> Gap(a, b, i) == 0.0
    ensures Dist(metric, a, b) == if metric == EuclidSquared then Gap(a, b, k) * Gap(a, b, k) else Gap(a, b, k)
  {
    hide Gap, Dist;
    var n := Larger(k + 1, Larger(a.dim, b.dim));
    DistanceIs(metric, a, b, n);
    Distance1DIsGap(a, b, k);
    var gaps := Gaps(a, b, n);
    assert gaps[k] == Gap(a, b, k) && gaps[k] in gaps;
    match metric
    case Taxicab => SumOfOne(gaps, k);
    case EuclidSquared => SumOfOne(Squared(gaps), k);
    case Chebyshev =>
      var d := Dist(metric, a, b);
      if d != 0.0 {
        var i :| 0 <= i < n && gaps[i] == d;
        assert i == k;
      }
  }

  lemma AccumulateMonotone(metric: Metric, s: real, t: real, d: real, e: real)
    requires s <= t && 0.0 <= d <= e
    ensures Accumulate(metric, s, d) <= Accumulate(metric, t, e)
  {
    NonNegative(d, e - d);
    NonNegative(e, e - d);
    assert d * d <= d * e <= e * e;
  }

  lemma NonNegative(x: real, y: real)
    requires x >= 0.0 && y >= 0.0
    ensures x * y >= 0.0
  {
  }

  lemma {:induction false} OverMonotone(metric: Metric, p: Box, m: Box, q: Box, n: nat)
    requires Proper(p) && Proper(m) && Proper(q) && Encloses(p, m)
    ensures Over(metric, p, q, n) <= Over(metric, m, q, n)
  {
    hide Gap, Within;
    if n > 0 {
      OverMonotone(metric, p, m, q, n - 1);
      GapShrinks(p, m, q, n - 1);
      AccumulateMonotone(metric, Over(metric, p, q, n - 1), Over(metric, m, q, n - 1), Gap(p, q, n - 1), Gap(m, q, n - 1));
    }
  }

  /** The distance to a key is a lower bound for the distance to everything the key encloses. */
  lemma DistanceIsLowerBound(metric: Metric, p: Box, m: Box, q: Box)
    requires Proper(p) && Proper(m) && Proper(q) && Encloses(p, m)
    ensures Dist(metric, p, q) <= Dist(metric, m, q)
  {
    hide Over;
    var n := Larger(p.dim, Larger(m.dim, q.dim));
    OverMore(metric, p, q, n);
    OverMore(metric, m, q, n);
    OverMonotone(metric, p, m, q, n);
  }

  // ----- the ~> operator -----

  datatype CoordResult = At(value: real) | ZeroIndex

  /** The coordinate branch of `g_cube_distance`. */
  function Coordinate(b: Box, coord: int, isLeaf: bool): CoordResult
    requires Proper(b)
  {
    if coord == 0 then ZeroIndex
    else
      var inverse := coord < 0;
      var c: nat := if inverse then -coord else coord;
      var value :=
        if c <= 2 * b.dim then
          var index, upper := (c - 1) / 2, (c - 1) % 2 == 1;
          if b.isPoint then b.x[index]
          else if (if isLeaf then upper else inverse) then Max(b.x[index], b.x[index + b.dim])
          else Min(b.x[index], b.x[index + b.dim])
        else 0.0;
      At(if inverse then -value else value)
  }

  /** A coordinate, straight or inverted, of an inner key is a lower bound for that of any box it encloses. */
  lemma CoordinateIsLowerBound(p: Box, m: Box, coord: int, isLeaf: bool)
    requires Proper(p) && Proper(m) && Encloses(p, m) && coord != 0
    ensures Coordinate(p, coord, false).value <= Coordinate(m, coord, isLeaf).value
  {
    var c: nat := if coord < 0 then -coord else coord;
    var i: nat := (c - 1) / 2;
    assert Within(m, p, i);
    LoBelowHi(m, i);
  }

  /** The corner of a box at its lower bounds, or at its upper ones. */
  function Corner(p: Box, upper: bool): (m: Box)
    requires Proper(p)
    ensures Proper(m) && m.dim == p.dim && m.isPoint
  {
    Box(p.dim, true, seq(p.dim, i requires 0 <= i < p.dim => if upper then Hi(p, i) else Lo(p, i)))
  }

  lemma CornerIsInside(p: Box, upper: bool)
    requires Proper(p)
    ensures Encloses(p, Corner(p, upper))
  {
    forall i: nat ensures Within(Corner(p, upper), p, i) { LoBelowHi(p, i); }
  }

  /** The bound is attained: some box under the key has the key's coordinate. */
  lemma CoordinateIsAttained(p: Box, coord: int)
    requires Proper(p) && coord != 0
    ensures Encloses(p, Corner(p, coord < 0)) && Coordinate(Corner(p, coord < 0), coord, true) == Coordinate(p, coord, false)
  {
    CornerIsInside(p, coord < 0);
    var c: nat := if coord < 0 then -coord else coord;
    var i: nat := (c - 1) / 2;
    if c <= 2 * p.dim { assert i < p.dim; }
  }

  /** On a leaf the odd numbers are the lower and the even ones the upper bounds, negative numbers their negations. */
  lemma LeafCoordinate(b: Box, i: nat)
    requires Proper(b)
    ensures Coordinate(b, 2 * i + 1, true) == At(Lo(b, i)) && Coordinate(b, -(2 * i + 1), true) == At(-Lo(b, i))
    ensures Coordinate(b, 2 * i + 2, true) == At(Hi(b, i)) && Coordinate(b, -(2 * i + 2), true) == At(-Hi(b, i))
  {
    assert (2 * i + 1 - 1) / 2 == i && (2 * i + 2 - 1) / 2 == i;
    assert (2 * i + 1 - 1) % 2 == 0 && (2 * i + 2 - 1) % 2 == 1;
  }

  // ----- a tree of any height -----

  datatype Tree = Leaf(key: Box) | Inner(key: Box, kids: seq<Tree>)

  /** Keys above enclose the keys below and have at least their dimensions, as unions do. */
  ghost predicate Sound(t: Tree) {
    && Proper(t.key)
    && (t.Inner? ==> forall c <- t.kids :: Sound(c) && Encloses(t.key, c.key) && c.key.dim <= t.key.dim)
  }

  ghost predicate Holds(t: Tree, box: Box) {
    match t
    case Leaf(b) => b == box
    case Inner(_, kids) => exists c <- kids :: Holds(c, box)
  }

  /** A node whose key `g_cube_union` made is sound. */
  lemma UnionIsSound(key: Box, kids: seq<Tree>, keys: seq<Box>)
    requires |keys| == |kids| && forall j :: 0 <= j < |kids| ==> keys[j] == kids[j].key && Sound(kids[j])
    requires LeastAround(key, keys)
    ensures Sound(Inner(key, kids))
  {
    hide Encloses;
    forall c | c in kids ensures Sound(c) && Encloses(key, c.key) && c.key.dim <= key.dim {
      var j :| 0 <= j < |kids| && kids[j] == c;
      assert keys[j] in keys;
    }
  }

  lemma {:induction false} RootEncloses(t: Tree, box: Box)
    requires Sound(t) && Holds(t, box)
    ensures Proper(box) && Encloses(t.key, box) && box.dim <= t.key.dim
  {
    hide Within;
    match t
    case Leaf(_) => EnclosesItself(box);
    case Inner(_, kids) =>
      var c :| c in kids && Holds(c, box);
      RootEncloses(c, box);
      EnclosesTransitive(t.key, c.key, box);
  }

  lemma EnclosesItself(b: Box)
    requires Proper(b)
    ensures Encloses(b, b)
  {
    assert forall i: nat :: Within(b, b, i);
  }

  /** Pruning by overlap with a key, and ordering by it, never pass over a box below it. */
  lemma KeyBoundsEverythingBelow(t: Tree, box: Box, q: Box, metric: Metric, coord: int)
    requires Sound(t) && Holds(t, box) && Proper(q) && coord != 0
    ensures Proper(box) && (Overlaps(box, q) ==> Overlaps(t.key, q))
    ensures Dist(metric, t.key, q) <= Dist(metric, box, q)
    ensures Coordinate(t.key, coord, false).value <= Coordinate(box, coord, true).value
  {
    hide Coordinate, Dist, Overlaps, Encloses;
    RootEncloses(t, box);
    if Overlaps(box, q) { OverlapIsInherited(t.key, box, q); }
    DistanceIsLowerBound(metric, t.key, box, q);
    CoordinateIsLowerBound(t.key, box, coord, true);
  }
}

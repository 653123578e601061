/**
 Searching a GiST index of boxes (contrib/cube/cube.c): containment, the tests on leaf and inner keys, and what a
 scan of a tree of any height returns.  Searches for overlap, equality and containing boxes are exact.  Searches
 for contained boxes are not, since containment ignores the dimensions in which the query exceeds a box and
 overlap, by which inner keys are tested, does not.
 */
module CubeSearch {
  import opened Cube
  import opened CubeOrder

  // ----- cube_contains_v0 -----

  /** `b` lies in `a` in each of its own dimensions. */
  ghost predicate Contains(a: Box, b: Box)
    requires Proper(a) && Proper(b)
  {
    forall i: nat :: i < b.dim ==> Within(b, a, i)
  }

  /** `cube_contains_v0`. */
  method ContainsBox(a: Box, b: Box) returns (res: bool)
    requires Proper(a) && Proper(b)
    ensures res <==> Contains(a, b)
  {
    var shared := Shared(a, b);
    if a.dim < b.dim {
      for i := a.dim to b.dim
        invariant forall j :: a.dim <= j < i ==> Within(b, a, j)
      {
        if LL(b, i) != 0.0 || UR(b, i) != 0.0 {
          assert !Within(b, a, i);
          return false;
        }
      }
    }
    for i := 0 to shared
      invariant forall j :: 0 <= j < i ==> Within(b, a, j)
    {
      if Min(LL(a, i), UR(a, i)) > Min(LL(b, i), UR(b, i)) || Max(LL(a, i), UR(a, i)) < Max(LL(b, i), UR(b, i)) {
        assert !Within(b, a, i);
        return false;
      }
    }
    return true;
  }

  /** The container spans 0 in every dimension that the other box lacks. */
  ghost predicate SpansZero(a: Box, b: Box)
    requires Proper(a) && Proper(b)
  {
    forall i: nat :: b.dim <= i < a.dim ==> Lo(a, i) <= 0.0 <= Hi(a, i)
  }

  /** Containment is enclosing, with missing dimensions at 0, exactly where the container spans 0 in them. */
  lemma ContainsIsEncloses(a: Box, b: Box)
    requires Proper(a) && Proper(b)
    ensures Encloses(a, b) <==> Contains(a, b) && SpansZero(a, b)
  {
    if Encloses(a, b) {
      forall i: nat | b.dim <= i < a.dim ensures Lo(a, i) <= 0.0 <= Hi(a, i) { assert Within(b, a, i); }
    }
    if Contains(a, b) && SpansZero(a, b) {
      forall i: nat ensures Within(b, a, i) {}
    }
  }

  // ----- the tests of keys -----

  datatype Strategy = Overlapping | Same | Containing | ContainedBy | Unknown

  /** `g_cube_leaf_consistent`: what a box must be to satisfy the query. */
  ghost predicate Satisfies(key: Box, q: Box, strategy: Strategy)
    requires Proper(key) && Proper(q)
  {
    match strategy
    case Overlapping => Overlaps(key, q)
    case Same => Compare(key, q) == 0
    case Containing => Contains(key, q)
    case ContainedBy => Contains(q, key)
    case Unknown => false
  }

  /** `g_cube_internal_consistent`: what lets a scan descend. */
  ghost predicate Descends(key: Box, q: Box, strategy: Strategy)
    requires Proper(key) && Proper(q)
  {
    match strategy
    case Overlapping => Overlaps(key, q)
    case Same => Contains(key, q)
    case Containing => Contains(key, q)
    case ContainedBy => Overlaps(key, q)
    case Unknown => false
  }

  /** `g_cube_consistent`. */
  method Consistent(key: Box, q: Box, strategy: Strategy, leaf: bool) returns (res: bool)
    requires Proper(key) && Proper(q)
    ensures res <==> if leaf then Satisfies(key, q, strategy) else Descends(key, q, strategy)
  {
    hide Overlaps, Compare, Contains;
    if strategy.Overlapping? || (strategy.ContainedBy? && !leaf) {
      res := Overlap(key, q);
    } else if strategy.Same? && leaf {
      var order := CubeCmp(key, q);
      res := order == 0;
    } else if strategy.Same? || strategy.Containing? {
      res := ContainsBox(key, q);
    } else if strategy.ContainedBy? {
      res := ContainsBox(q, key);
    } else {
      res := false;
    }
  }

  lemma ContainsIsInherited(p: Box, m: Box, q: Box)
    requires Proper(p) && Proper(m) && Proper(q) && Encloses(p, m) && m.dim <= p.dim && Contains(m, q)
    ensures Contains(p, q)
  {
    hide Lo, Hi;
    forall i: nat | i < q.dim ensures Within(q, p, i) { assert Within(m, p, i) && Within(q, m, i); }
  }

  lemma SameIsContained(m: Box, q: Box)
    requires Proper(m) && Proper(q) && Compare(m, q) == 0
    ensures Contains(m, q)
  {
    hide Compare, Lo, Hi;
    CompareIsExact(m, q);
  }

  /** Every strategy but one descends into a node that has a box satisfying the query below it. */
  lemma SatisfyingIsKept(p: Box, m: Box, q: Box, strategy: Strategy)
    requires Proper(p) && Proper(m) && Proper(q) && Encloses(p, m) && m.dim <= p.dim
    requires Satisfies(m, q, strategy) && strategy != ContainedBy
    ensures Descends(p, q, strategy)
  {
    hide Overlaps, Compare, Contains, Encloses;
    match strategy
    case Overlapping => OverlapIsInherited(p, m, q);
    case Same =>
      SameIsContained(m, q);
      ContainsIsInherited(p, m, q);
    case Containing => ContainsIsInherited(p, m, q);
  }

  /** A key around a contained box overlaps the query unless it fails to in a dimension in which the query exceeds the box. */
  lemma OverlapInExcess(p: Box, m: Box, q: Box)
    requires Proper(p) && Proper(m) && Proper(q) && Encloses(p, m) && Contains(q, m)
    ensures Overlaps(p, q) <==> forall i: nat :: m.dim <= i < q.dim ==> Touches(p, q, i)
  {
    if forall i: nat :: m.dim <= i < q.dim ==> Touches(p, q, i) {
      forall i: nat ensures Touches(p, q, i) {
        assert Within(m, p, i);
        LoBelowHi(m, i);
        LoBelowHi(q, i);
        if i < m.dim { assert Within(m, q, i); }
      }
    }
  }

  /** So a box alone under its key, or under any other key, is reached where the query spans 0 in the excess dimensions. */
  lemma ContainedIsKept(p: Box, m: Box, q: Box)
    requires Proper(p) && Proper(m) && Proper(q) && Encloses(p, m) && Contains(q, m)
    ensures SpansZero(q, m) ==> Overlaps(p, q)
    ensures Overlaps(m, q) <==> SpansZero(q, m)
  {
    hide Overlaps, Contains;
    EnclosesItself(m);
    OverlapInExcess(m, m, q);
    assert forall i: nat :: m.dim <= i < q.dim ==> (Touches(m, q, i) <==> Lo(q, i) <= 0.0 <= Hi(q, i));
    if Overlaps(m, q) { OverlapIsInherited(p, m, q); }
  }

  /** What two boxes share, in the dimensions of the first. */
  function Common(p: Box, q: Box): (m: Box)
    requires Proper(p) && Proper(q)
    ensures Proper(m) && m.dim == p.dim
  {
    Box(p.dim, false, seq(2 * p.dim, i requires 0 <= i < 2 * p.dim =>
      if i < p.dim then Max(Lo(p, i), Lo(q, i)) else Min(Hi(p, i - p.dim), Hi(q, i - p.dim))))
  }

  lemma ExtentOf(m: Box, i: nat)
    requires Proper(m) && !m.isPoint && i < m.dim && m.x[i] <= m.x[i + m.dim]
    ensures Lo(m, i) == m.x[i] && Hi(m, i) == m.x[i + m.dim]
  {
  }

  lemma CommonExtent(p: Box, q: Box, i: nat)
    requires Proper(p) && Proper(q) && Touches(p, q, i)
    ensures i < p.dim ==> Lo(Common(p, q), i) == Max(Lo(p, i), Lo(q, i)) && Hi(Common(p, q), i) == Min(Hi(p, i), Hi(q, i))
    ensures i >= p.dim ==> Lo(Common(p, q), i) == 0.0 == Hi(Common(p, q), i)
  {
    LoBelowHi(p, i);
    LoBelowHi(q, i);
    var m := Common(p, q);
    if i < p.dim {
      var j := i + p.dim;
      assert m.x[i] == Max(Lo(p, i), Lo(q, i)) && m.x[j] == Min(Hi(p, j - p.dim), Hi(q, j - p.dim)) && j - p.dim == i;
      hide Lo, Hi;
      assert Max(Lo(p, i), Lo(q, i)) <= Min(Hi(p, i), Hi(q, i));
      ExtentOf(m, i);
    }
  }

  /** A scan descends for nothing: there is always a box under the key that satisfies the query; for equality, one that contains it. */
  lemma DescendsHasReason(p: Box, q: Box, strategy: Strategy) returns (m: Box)
    requires Proper(p) && Proper(q) && Descends(p, q, strategy)
    ensures Proper(m) && Encloses(p, m) && m.dim <= p.dim
    ensures Satisfies(m, q, if strategy == Same then Containing else strategy)
  {
    if strategy != ContainedBy {
      m := p;
      EnclosesItself(p);
    } else {
      m := Common(p, q);
      hide Common;
      forall i: nat ensures Within(m, p, i) && (i < m.dim ==> Within(m, q, i)) {
        assert Touches(p, q, i);
        CommonExtent(p, q, i);
      }
    }
  }

  // ----- a scan -----

  /** The test on an entry of an inner page; those of leaf pages are tested as boxes. */
  ghost predicate Passes(c: Tree, q: Box, strategy: Strategy)
    requires Sound(c) && Proper(q)
  {
    c.Inner? ==> Descends(c.key, q, strategy)
  }

  /** A scan tests each entry of a page and goes on from those of inner pages. */
  ghost predicate Found(t: Tree, box: Box, q: Box, strategy: Strategy)
    requires Sound(t) && Proper(q)
  {
    match t
    case Leaf(b) => b == box && Satisfies(b, q, strategy)
    case Inner(_, kids) => exists c <- kids :: Passes(c, q, strategy) && Found(c, box, q, strategy)
  }

  /** Whatever a scan finds is in the tree and satisfies the query. */
  lemma {:induction false} FoundSatisfies(t: Tree, box: Box, q: Box, strategy: Strategy)
    requires Sound(t) && Proper(q) && Found(t, box, q, strategy)
    ensures Holds(t, box) && Proper(box) && Satisfies(box, q, strategy)
  {
    hide Satisfies, Descends;
    if t.Inner? {
      var c :| c in t.kids && Found(c, box, q, strategy);
      FoundSatisfies(c, box, q, strategy);
    }
  }

  /** What every key above a box lets through is found. */
  lemma {:induction false} KeptIsFound(t: Tree, box: Box, q: Box, strategy: Strategy)
    requires Sound(t) && Proper(q) && Holds(t, box) && Proper(box) && Satisfies(box, q, strategy)
    requires forall p | Proper(p) && Encloses(p, box) && box.dim <= p.dim :: Descends(p, q, strategy)
    ensures Found(t, box, q, strategy)
  {
    hide Satisfies, Descends, Encloses;
    if t.Inner? {
      var c :| c in t.kids && Holds(c, box);
      RootEncloses(c, box);
      KeptIsFound(c, box, q, strategy);
    }
  }

  /** A scan for any other strategy returns exactly the boxes that satisfy the query. */
  lemma SearchIsExact(t: Tree, box: Box, q: Box, strategy: Strategy)
    requires Sound(t) && Proper(q) && strategy != ContainedBy
    ensures Found(t, box, q, strategy) <==> Holds(t, box) && Proper(box) && Satisfies(box, q, strategy)
  {
    hide Satisfies, Descends, Encloses, Found, Holds, Sound;
    if Found(t, box, q, strategy) { FoundSatisfies(t, box, q, strategy); }
    if Holds(t, box) && Proper(box) && Satisfies(box, q, strategy) {
      forall p | Proper(p) && Encloses(p, box) && box.dim <= p.dim ensures Descends(p, q, strategy) {
        SatisfyingIsKept(p, box, q, strategy);
      }
      KeptIsFound(t, box, q, strategy);
    }
  }

  /** Every tree that holds the box finds it. */
  ghost predicate AlwaysFound(box: Box, q: Box, strategy: Strategy)
    requires Proper(q)
  {
    forall t | Sound(t) && Holds(t, box) :: Found(t, box, q, strategy)
  }

  /**
   A scan for the boxes contained in the query finds a contained box in every tree that holds it if and only if
   the query spans 0 in the dimensions in which it exceeds the box.
   */
  lemma ContainedSearchExact(m: Box, q: Box)
    requires Proper(m) && Proper(q) && Contains(q, m)
    ensures AlwaysFound(m, q, ContainedBy) <==> SpansZero(q, m)
  {
    hide Overlaps, Contains, Encloses, SpansZero, Found;
    if SpansZero(q, m) {
      forall p | Proper(p) && Encloses(p, m) && m.dim <= p.dim ensures Descends(p, q, ContainedBy) {
        ContainedIsKept(p, m, q);
      }
      forall t | Sound(t) && Holds(t, m) ensures Found(t, m, q, ContainedBy) { KeptIsFound(t, m, q, ContainedBy); }
    } else {
      EnclosesItself(m);
      ContainedIsKept(m, m, q);
      MissedBelow(m, q);
    }
  }

  /** A tree of two levels in which a scan for contained boxes does not reach the one box. */
  lemma MissedBelow(m: Box, q: Box)
    requires Proper(m) && Proper(q) && !Overlaps(m, q)
    ensures !AlwaysFound(m, q, ContainedBy)
  {
    hide Overlaps, Encloses, Satisfies;
    EnclosesItself(m);
    var page := Inner(m, [Leaf(m)]);
    var t := Inner(m, [page]);
    assert Holds(Leaf(m), m) && Leaf(m) in page.kids;
    assert Holds(page, m) && page in t.kids;
    assert Sound(Leaf(m)) && Sound(page) && Sound(t);
    assert !Found(t, m, q, ContainedBy);
  }

  /** The point 5 is contained in a box of two dimensions that no key of it alone overlaps. */
  lemma ContainedBoxIsMissed()
    ensures var m, q := Box(1, true, [5.0]), Box(2, false, [0.0, 3.0, 10.0, 4.0]);
      Contains(q, m) && !Overlaps(m, q) && !AlwaysFound(m, q, ContainedBy)
  {
    var m, q := Box(1, true, [5.0]), Box(2, false, [0.0, 3.0, 10.0, 4.0]);
    assert Within(m, q, 0);
    assert !Touches(m, q, 1);
    MissedBelow(m, q);
  }

  /** Where no box has fewer dimensions than the query, this search is exact, too. */
  lemma ContainedSearchOfFullBoxes(t: Tree, box: Box, q: Box)
    requires Sound(t) && Proper(q) && (Holds(t, box) ==> Proper(box) && box.dim >= q.dim)
    ensures Found(t, box, q, ContainedBy) <==> Holds(t, box) && Contains(q, box)
  {
    hide Overlaps, Contains, Encloses, Found, Holds, Sound;
    if Found(t, box, q, ContainedBy) { FoundSatisfies(t, box, q, ContainedBy); }
    if Holds(t, box) && Contains(q, box) { ContainedSearchExact(box, q); }
  }
}

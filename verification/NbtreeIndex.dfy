/**
 The part of an nbtree index that amcheck's structural checks read (contrib/amcheck/verify_nbtree.c),
 and its leftward walk over half-dead pages.  Link fields are arbitrary numbers: the index may be
 corrupt in any way.
 */
module NbtreeIndex {

  type Block = nat

  const P_NONE: Block := 0
  const INVALID_BLOCK: Block := 0xFFFFFFFF

  /** Page header flags and links; `downlinks` are the data items of an internal page, left to right,
      and `topParent` is the link kept in the high key of a half-dead leaf. */
  datatype Page = Page(
    prev: Block,
    next: Block,
    level: nat,
    leaf: bool,
    root: bool,
    deleted: bool,
    halfDead: bool,
    incompleteSplit: bool,
    fullXid: bool,
    downlinks: seq<Block>,
    topParent: Block)

  predicate Ignore(p: Page) { p.deleted || p.halfDead }

  /** An index: block 0 is the metapage, which holds no items. */
  predicate IsIndex(ix: seq<Page>) {
    0 < |ix| < INVALID_BLOCK && ix[0].downlinks == []
  }

  /** `palloc_btree_page` returns instead of raising an error. */
  predicate Readable(ix: seq<Page>, b: Block) {
    && b < |ix|
    && (b == P_NONE || Sane(ix[b]))
  }

  predicate Sane(p: Page) {
    && (!p.deleted || p.fullXid ==> (p.leaf <==> p.level == 0))
    && (!p.leaf && !p.deleted ==> p.downlinks != [])
    && (!p.leaf ==> !p.halfDead)
    && (p.fullXid ==> p.deleted)
    && !(p.deleted && p.halfDead)
  }

  /** `Done` is a normal return, `Raised` an error report; the other two say that a loop is still going
      round after the number of rounds it was given, and which blocks it visited. */
  datatype Outcome<+T> =
    | Done(value: T)
    | Raised
    | ChildRunning(visited: seq<Block>)
    | LevelRunning(visited: seq<Block>)

  // ----- walking left over half-dead pages -----

  /** The test that `bt_leftmost_ignoring_half_dead` makes of each page it reaches. */
  predicate AcceptsLeft(ix: seq<Page>, start: Block, from: Block, reached: Block)
    requires reached < |ix|
  {
    ix[reached].halfDead && reached != start && reached != from && ix[reached].next == from
  }

  /** `path` starts at `start` and follows left links over accepted pages. */
  predicate LeftChain(ix: seq<Page>, path: seq<Block>) {
    && path != []
    && (forall i :: 0 <= i < |path| ==> path[i] < |ix|)
    && (forall i :: 1 <= i < |path| ==> path[i] != P_NONE && Readable(ix, path[i]))
    && (forall i, j :: 0 <= i && j == i + 1 < |path| ==>
          path[j] == ix[path[i]].prev && AcceptsLeft(ix, path[0], path[i], path[j]))
  }

  predicate Distinct(path: seq<Block>) {
    forall i, j :: 0 <= i < j < |path| ==> path[i] != path[j]
  }

  /** Reverse links that agree, and the refusal to return to the start, exclude every cycle. */
  lemma LeftChainIsDistinct(ix: seq<Page>, path: seq<Block>)
    requires LeftChain(ix, path)
    ensures Distinct(path)
  {
    forall i, j | 0 <= i < j < |path|
      ensures path[i] != path[j]
    {
      LeftChainSteps(ix, path, i, j);
    }
  }

  lemma {:induction false} LeftChainSteps(ix: seq<Page>, path: seq<Block>, i: nat, j: nat)
    requires LeftChain(ix, path) && i < j < |path|
    ensures path[i] != path[j]
  {
    var k := j - 1;
    assert AcceptsLeft(ix, path[0], path[k], path[j]);
    if i > 0 {
      var h := i - 1;
      assert AcceptsLeft(ix, path[0], path[h], path[i]);
      LeftChainSteps(ix, path, h, k);
    }
  }

  lemma {:induction false} DistinctIsShort(path: seq<Block>, n: nat)
    requires Distinct(path) && forall i :: 0 <= i < |path| ==> path[i] < n
    ensures |path| <= n
    decreases n
  {
    if path == [] {
      return;
    }
    assert 0 <= path[0] < n;
    if exists k :: 0 <= k < |path| && path[k] == n - 1 {
      var k :| 0 <= k < |path| && path[k] == n - 1;
      var rest := path[..k] + path[k + 1..];
      assert forall i :: 0 <= i < |rest| ==> rest[i] == path[if i < k then i else i + 1];
      DistinctIsShort(rest, n - 1);
    } else {
      DistinctIsShort(path, n - 1);
    }
  }

  lemma LeftChainIsShort(ix: seq<Page>, path: seq<Block>)
    requires LeftChain(ix, path)
    ensures |path| <= |ix|
  {
    LeftChainIsDistinct(ix, path);
    DistinctIsShort(path, |ix|);
  }

  /** The answer of the leftward walk, continued from the end of `path`. */
  function LeftWalk(ix: seq<Page>, path: seq<Block>): (r: Outcome<bool>)
    requires LeftChain(ix, path)
    ensures r.Done? || r.Raised?
    decreases |ix| - |path|
  {
    LeftChainIsShort(ix, path);
    var from := path[|path| - 1];
    var reached := ix[from].prev;
    if reached == P_NONE then Done(true)
    else if !Readable(ix, reached) then Raised
    else if !AcceptsLeft(ix, path[0], from, reached) then Done(false)
    else
      LeftChainIsShort(ix, path + [reached]);
      LeftWalk(ix, path + [reached])
  }

  /** `bt_leftmost_ignoring_half_dead`: it ends on every link graph. */
  method LeftmostIgnoringHalfDead(ix: seq<Page>, start: Block) returns (r: Outcome<bool>)
    requires start < |ix|
    ensures r == LeftWalk(ix, [start])
  {
    var reached, reachedFrom := ix[start].prev, start;
    var allHalfDead := true;
    ghost var path := [start];
    while reached != P_NONE && allHalfDead
      invariant LeftChain(ix, path) && path[0] == start && path[|path| - 1] == reachedFrom
      invariant reached == ix[reachedFrom].prev
      invariant allHalfDead ==> LeftWalk(ix, [start]) == LeftWalk(ix, path)
      invariant !allHalfDead ==> LeftWalk(ix, [start]) == Done(false)
      decreases allHalfDead, |ix| - |path|
    {
      if !Readable(ix, reached) {
        return Raised;
      }
      allHalfDead := AcceptsLeft(ix, start, reachedFrom, reached);
      if allHalfDead {
        path := path + [reached];
        LeftChainIsShort(ix, path);
        reachedFrom := reached;
        reached := ix[reached].prev;
      }
    }
    return Done(allHalfDead);
  }

  /** The page is leftmost once the half-dead pages to its left are disregarded. */
  ghost predicate Leftmost(ix: seq<Page>, start: Block) {
    exists path :: LeftChain(ix, path) && path[0] == start && ix[path[|path| - 1]].prev == P_NONE
  }

  lemma {:induction false} LeftWalkContinues(ix: seq<Page>, whole: seq<Block>, n: nat)
    requires LeftChain(ix, whole) && ix[whole[|whole| - 1]].prev == P_NONE && 1 <= n <= |whole|
    ensures LeftWalk(ix, whole[..n]) == Done(true)
    decreases |whole| - n
  {
    var path := whole[..n];
    if n < |whole| {
      var m := n - 1;
      assert path + [whole[n]] == whole[..n + 1];
      assert whole[n] == ix[whole[m]].prev;
      LeftWalkContinues(ix, whole, n + 1);
    }
  }

  lemma {:induction false} LeftWalkReachesEnd(ix: seq<Page>, path: seq<Block>)
    requires LeftChain(ix, path) && LeftWalk(ix, path) == Done(true)
    ensures Leftmost(ix, path[0])
    decreases |ix| - |path|
  {
    var reached := ix[path[|path| - 1]].prev;
    LeftChainIsShort(ix, path);
    if reached != P_NONE {
      LeftChainIsShort(ix, path + [reached]);
      LeftWalkReachesEnd(ix, path + [reached]);
    }
  }

  /** The walk answers true exactly when everything to the left is half-dead and mutually linked. */
  lemma LeftWalkIsLeftmost(ix: seq<Page>, start: Block)
    requires start < |ix|
    ensures LeftWalk(ix, [start]) == Done(true) <==> Leftmost(ix, start)
  {
    if LeftWalk(ix, [start]) == Done(true) {
      LeftWalkReachesEnd(ix, [start]);
    }
    if Leftmost(ix, start) {
      var path :| LeftChain(ix, path) && path[0] == start && ix[path[|path| - 1]].prev == P_NONE;
      assert path[..1] == [start];
      LeftWalkContinues(ix, path, 1);
    }
  }
}

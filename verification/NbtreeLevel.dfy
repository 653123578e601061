/**
 amcheck's check of one internal level of an nbtree index against the level below it, in the mode
 that excludes concurrent changes (contrib/amcheck/verify_nbtree.c, `readonly`).  The loops of the
 source need not end on a corrupt index, so each is given a number of rounds; the theorems hold for
 every number of rounds.
 */
module NbtreeLevel {
  import opened NbtreeIndex

  // ----- a page without a downlink -----

  /** The descent of `bt_downlink_missing_check` from `top`, standing at `child` below a page of the given level. */
  function Descend(ix: seq<Page>, top: Block, level: nat, child: Block): (r: Outcome<()>)
    ensures r.Done? || r.Raised?
    decreases level
  {
    if !Readable(ix, child) then Raised
    else
      var c := ix[child];
      if c.leaf then
        if c.deleted then Raised
        else if c.halfDead && c.next != P_NONE && c.topParent == top then Done(())
        else Raised
      else if level == 0 || c.level != level - 1 || c.downlinks == [] then Raised
      else Descend(ix, top, c.level, c.downlinks[0])
  }

  /** `bt_downlink_missing_check`. */
  function DownlinkMissing(ix: seq<Page>, rightsplit: bool, b: Block): (r: Outcome<()>)
    requires b < |ix|
    ensures r.Done? || r.Raised?
  {
    var p := ix[b];
    if p.root then Done(())
    else if rightsplit then Done(())
    else if p.leaf then Raised
    else if p.downlinks == [] then Raised
    else Descend(ix, b, p.level, p.downlinks[0])
  }

  /** A leftmost descent, from `top` down to a half-dead leaf that names `top` as the top of its deletion. */
  ghost predicate InterruptedDeletion(ix: seq<Page>, top: Block) {
    exists path :: DeletionPath(ix, top, path)
  }

  /** A page, and what its first downlink names: a leaf, or an internal page one level down. */
  predicate LeftmostChild(ix: seq<Page>, b: Block, child: Block)
    requires b < |ix| && child < |ix|
  {
    && !ix[b].leaf && ix[b].downlinks != [] && child == ix[b].downlinks[0]
    && (ix[child].leaf || ix[child].level + 1 == ix[b].level)
  }

  ghost predicate DeletionPath(ix: seq<Page>, top: Block, path: seq<Block>) {
    && |path| >= 2 && path[0] == top
    && (forall i :: 0 <= i < |path| ==> path[i] < |ix| && (i > 0 ==> Readable(ix, path[i])))
    && (forall i, j :: 0 <= i && j == i + 1 < |path| ==> LeftmostChild(ix, path[i], path[j]))
    && var leaf := ix[path[|path| - 1]];
       leaf.leaf && leaf.halfDead && !leaf.deleted && leaf.next != P_NONE && leaf.topParent == top
  }

  lemma {:induction false} DescendFindsDeletion(ix: seq<Page>, top: Block, level: nat, path: seq<Block>, child: Block)
    requires path != [] && path[0] == top
    requires forall i :: 0 <= i < |path| ==> path[i] < |ix| && (i > 0 ==> Readable(ix, path[i]))
    requires forall i, j :: 0 <= i && j == i + 1 < |path| ==> LeftmostChild(ix, path[i], path[j])
    requires var b := ix[path[|path| - 1]]; !b.leaf && b.downlinks != [] && child == b.downlinks[0] && level == b.level
    requires Descend(ix, top, level, child).Done?
    ensures InterruptedDeletion(ix, top)
    decreases level
  {
    if ix[child].leaf {
      assert DeletionPath(ix, top, path + [child]);
    } else {
      DescendFindsDeletion(ix, top, ix[child].level, path + [child], ix[child].downlinks[0]);
    }
  }

  /** Why a live page may lack a downlink. */
  ghost predicate Excused(ix: seq<Page>, afterSplit: bool, b: Block)
    requires b < |ix|
  {
    Ignore(ix[b]) || ix[b].root || afterSplit || InterruptedDeletion(ix, b)
  }

  lemma {:induction false} DeletionIsFound(ix: seq<Page>, top: Block, path: seq<Block>, i: nat)
    requires DeletionPath(ix, top, path) && 0 < i < |path|
    ensures Descend(ix, top, ix[path[i - 1]].level, path[i]).Done?
    decreases |path| - i
  {
    var h := i - 1;
    assert LeftmostChild(ix, path[h], path[i]);
    if i < |path| - 1 {
      var j := i + 1;
      assert LeftmostChild(ix, path[i], path[j]);
      DeletionIsFound(ix, top, path, j);
    }
  }

  /** Exactly when `bt_downlink_missing_check` lets a page pass. */
  lemma MissingExactly(ix: seq<Page>, rightsplit: bool, b: Block)
    requires b < |ix|
    ensures DownlinkMissing(ix, rightsplit, b).Done? <==> ix[b].root || rightsplit || InterruptedDeletion(ix, b)
  {
    if DownlinkMissing(ix, rightsplit, b).Done? && !ix[b].root && !rightsplit {
      DescendFindsDeletion(ix, b, ix[b].level, [b], ix[b].downlinks[0]);
    }
    if InterruptedDeletion(ix, b) {
      var path :| DeletionPath(ix, b, path);
      var zero, one := 0, 1;
      assert LeftmostChild(ix, path[zero], path[one]);
      DeletionIsFound(ix, b, path, 1);
    }
  }

  lemma MissingIsExcused(ix: seq<Page>, rightsplit: bool, b: Block)
    requires b < |ix| && DownlinkMissing(ix, rightsplit, b).Done?
    ensures Excused(ix, rightsplit, b)
  {
    MissingExactly(ix, rightsplit, b);
  }

  // ----- from one downlink to the next -----

  /** `state->prevrightlink` and `state->previncompletesplit`. */
  datatype Saved = Saved(right: Block, split: bool)

  const FRESH := Saved(INVALID_BLOCK, false)

  /** What one call leaves behind, with the blocks it visited. */
  datatype Visit = Visit(saved: Saved, path: seq<Block>)

  /** The checks on one page of the child level, in `bt_child_highkey_check`. */
  predicate PagePasses(ix: seq<Page>, saved: Saved, downlink: Block, targetLevel: nat, blkno: Block, rightsplit: bool, first: bool) {
    && Readable(ix, blkno)
    && (first && saved.right == INVALID_BLOCK ==> LeftWalk(ix, [blkno]) == Done(true))
    && (!ix[blkno].deleted || ix[blkno].fullXid ==> ix[blkno].level + 1 == targetLevel)
    && !(!first && blkno == saved.right)
    && blkno != ix[blkno].prev
    && (blkno != downlink && !Ignore(ix[blkno]) ==> DownlinkMissing(ix, rightsplit, blkno).Done?)
  }

  /** The loop of `bt_child_highkey_check`. */
  function ChildLoop(ix: seq<Page>, saved: Saved, downlink: Block, targetLevel: nat,
                     blkno: Block, rightsplit: bool, first: bool, rounds: nat): (r: Outcome<Visit>)
    ensures !r.LevelRunning?
    decreases rounds
  {
    if blkno == P_NONE then
      if downlink == P_NONE then Done(Visit(FRESH, [])) else Raised
    else if !PagePasses(ix, saved, downlink, targetLevel, blkno, rightsplit, first) then Raised
    else
      var p := ix[blkno];
      if blkno == downlink then Done(Visit(Saved(p.next, p.incompleteSplit), [blkno]))
      else if rounds == 0 then ChildRunning([blkno])
      else
        match ChildLoop(ix, saved, downlink, targetLevel, p.next, p.incompleteSplit, false, rounds - 1)
        case Done(v) => Done(Visit(v.saved, [blkno] + v.path))
        case ChildRunning(path) => ChildRunning([blkno] + path)
        case Raised => Raised
  }

  /** `bt_child_highkey_check`, without the comparison of high keys. */
  function ChildCheck(ix: seq<Page>, saved: Saved, downlink: Block, targetLevel: nat, rounds: nat): (r: Outcome<Visit>)
    ensures !r.LevelRunning?
  {
    if saved.right == INVALID_BLOCK then ChildLoop(ix, saved, downlink, targetLevel, downlink, false, true, rounds)
    else ChildLoop(ix, saved, downlink, targetLevel, saved.right, saved.split, true, rounds)
  }

  // ----- chains of right links -----

  predicate Chain(ix: seq<Page>, path: seq<Block>) {
    && (forall i :: 0 <= i < |path| ==> path[i] != P_NONE && path[i] < |ix|)
    && (forall i, j :: 0 <= i && j == i + 1 < |path| ==> path[j] == ix[path[i]].next)
  }

  /** A split was left incomplete just to the left of position `i`. */
  predicate SplitBefore(ix: seq<Page>, split: bool, path: seq<Block>, i: nat)
    requires i < |path| && (i > 0 ==> path[i - 1] < |ix|)
  {
    if i == 0 then split else ix[path[i - 1]].incompleteSplit
  }

  /** Every page from the start of `path` up to `n` is excused; `split` says whether a split was left
      incomplete just before the start. */
  ghost predicate AllExcused(ix: seq<Page>, split: bool, path: seq<Block>, n: nat)
    requires Chain(ix, path) && n <= |path|
  {
    forall i {:trigger SplitBefore(ix, split, path, i)} :: 0 <= i < n ==>
      Excused(ix, SplitBefore(ix, split, path, i), path[i])
  }

  lemma {:induction false} ChildLoopFollowsChain(ix: seq<Page>, saved: Saved, downlink: Block, targetLevel: nat,
                                                 blkno: Block, rightsplit: bool, first: bool, rounds: nat)
    requires ChildLoop(ix, saved, downlink, targetLevel, blkno, rightsplit, first, rounds).Done?
    ensures var v := ChildLoop(ix, saved, downlink, targetLevel, blkno, rightsplit, first, rounds).value;
      && Chain(ix, v.path)
      && (v.path == [] ==> blkno == P_NONE && downlink == P_NONE)
      && (v.path != [] ==> v.path[0] == blkno)
      && (v.path != [] && downlink == P_NONE ==> ix[v.path[|v.path| - 1]].next == P_NONE)
      && (downlink == P_NONE ==> v.saved == FRESH && AllExcused(ix, rightsplit, v.path, |v.path|))
      && (downlink != P_NONE ==>
            var last := |v.path| - 1;
            && v.path != [] && v.path[last] == downlink
            && v.saved == Saved(ix[downlink].next, ix[downlink].incompleteSplit)
            && AllExcused(ix, rightsplit, v.path, last))
    decreases rounds
  {
    if blkno != P_NONE {
      var p := ix[blkno];
      if blkno != downlink {
        if !Ignore(p) { MissingIsExcused(ix, rightsplit, blkno); }
        ChildLoopFollowsChain(ix, saved, downlink, targetLevel, p.next, p.incompleteSplit, false, rounds - 1);
        var v := ChildLoop(ix, saved, downlink, targetLevel, p.next, p.incompleteSplit, false, rounds - 1).value;
        ExcusedCons(ix, rightsplit, blkno, v.path, if downlink == P_NONE then |v.path| else |v.path| - 1);
      }
    }
  }

  lemma ExcusedCons(ix: seq<Page>, split: bool, b: Block, path: seq<Block>, n: nat)
    requires b != P_NONE && b < |ix| && Chain(ix, path) && n <= |path|
    requires path != [] ==> path[0] == ix[b].next
    requires Excused(ix, split, b) && AllExcused(ix, ix[b].incompleteSplit, path, n)
    ensures Chain(ix, [b] + path) && AllExcused(ix, split, [b] + path, n + 1)
  {
    var whole := [b] + path;
    forall i, j | 0 <= i && j == i + 1 < |whole|
      ensures whole[j] == ix[whole[i]].next
    {
      if i > 0 {
        var h := i - 1;
        assert path[i] == ix[path[h]].next;
      }
    }
    forall i | 0 <= i < n + 1
      ensures Excused(ix, SplitBefore(ix, split, whole, i), whole[i])
    {
      if i > 0 {
        assert Excused(ix, SplitBefore(ix, ix[b].incompleteSplit, path, i - 1), path[i - 1]);
      }
    }
  }

  // ----- a whole level -----

  /** The child blocks visited so far, and which of them were named by a downlink. */
  datatype Log = Log(saved: Saved, path: seq<Block>, marks: seq<nat>)

  const EMPTY_LOG := Log(FRESH, [], [])

  /** `bt_target_page_check` on an internal page, from item `k` on: every item goes through
      `bt_child_highkey_check`, every item but the first also through `bt_child_check`, and the last
      page of the level makes the closing call. */
  function Items(ix: seq<Page>, t: Block, k: nat, log: Log, rounds: nat): (r: Outcome<Log>)
    requires t < |ix| && k <= |ix[t].downlinks|
    ensures !r.LevelRunning?
    decreases |ix[t].downlinks| - k
  {
    var p := ix[t];
    if k == |p.downlinks| then
      if p.next != P_NONE then Done(log)
      else
        match ChildCheck(ix, log.saved, P_NONE, p.level, rounds)
        case Done(v) => Done(Log(v.saved, log.path + v.path, log.marks))
        case ChildRunning(path) => ChildRunning(path)
        case Raised => Raised
    else
      var d := p.downlinks[k];
      if k > 0 && !Readable(ix, d) then Raised
      else
        match ChildCheck(ix, log.saved, d, p.level, rounds)
        case Done(v) =>
          if k > 0 && ix[d].deleted then Raised
          else Items(ix, t, k + 1, AddVisit(log, d, v), rounds)
        case ChildRunning(path) => ChildRunning(path)
        case Raised => Raised
  }

  function AddVisit(log: Log, d: Block, v: Visit): Log {
    Log(v.saved, log.path + v.path,
        if d == P_NONE || v.path == [] then log.marks else log.marks + [|log.path| + |v.path| - 1])
  }

  /** `BtreeLevel`: the level's number, and whether the metapage calls it the root level. */
  datatype Level = Level(number: nat, trueRoot: bool)

  /** The pages of the level that were checked, and what was seen below them. */
  datatype Checked = Checked(targets: seq<Block>, log: Log)

  /** What `bt_check_level_from_leftmost` demands of a page before looking at its items. */
  predicate TargetPasses(ix: seq<Page>, lv: Level, left: Block, current: Block, nextDown: Block)
    requires current < |ix|
  {
    var p := ix[current];
    if Ignore(p) then !p.deleted && p.next != P_NONE
    else
      && (nextDown == INVALID_BLOCK ==>
            LeftWalk(ix, [current]) == Done(true) && (lv.trueRoot ==> p.root || p.incompleteSplit))
      && (p.prev == left || left == P_NONE)
      && p.level == lv.number
  }

  function NextLevelDown(p: Page, nextDown: Block): Block {
    if nextDown != INVALID_BLOCK || Ignore(p) then nextDown
    else if p.leaf || p.downlinks == [] then P_NONE
    else p.downlinks[0]
  }

  /** One page of the level: its header, its items, and the test for links to itself. */
  function TargetCheck(ix: seq<Page>, lv: Level, left: Block, current: Block, nextDown: Block, log: Log, childRounds: nat):
    (r: Outcome<Log>)
    ensures !r.LevelRunning?
    ensures r.Done? ==> Readable(ix, current) && TargetPasses(ix, lv, left, current, nextDown)
  {
    if !Readable(ix, current) || !TargetPasses(ix, lv, left, current, nextDown) then Raised
    else
      var p := ix[current];
      var r := if Ignore(p) || p.leaf then Done(log) else Items(ix, current, 0, log, childRounds);
      if r.Done? && (current == left || current == p.prev) then Raised else r
  }

  /** The loop of `bt_check_level_from_leftmost`. */
  function LevelLoop(ix: seq<Page>, lv: Level, left: Block, current: Block, nextDown: Block, log: Log,
                     childRounds: nat, rounds: nat): (r: Outcome<Checked>)
    decreases rounds
  {
    match TargetCheck(ix, lv, left, current, nextDown, log, childRounds)
    case Raised => Raised
    case ChildRunning(path) => ChildRunning(path)
    case Done(log') =>
      var p := ix[current];
      var here := if Ignore(p) then [] else [current];
      if p.next == P_NONE then Done(Checked(here, log'))
      else if rounds == 0 then LevelRunning([current])
      else
        match LevelLoop(ix, lv, current, p.next, NextLevelDown(p, nextDown), log', childRounds, rounds - 1)
        case Done(c) => Done(Checked(here + c.targets, c.log))
        case LevelRunning(path) => LevelRunning([current] + path)
        case ChildRunning(path) => ChildRunning(path)
        case Raised => Raised
  }

  /** `bt_check_level_from_leftmost`. */
  function CheckLevel(ix: seq<Page>, lv: Level, leftmost: Block, childRounds: nat, rounds: nat): Outcome<Checked> {
    LevelLoop(ix, lv, P_NONE, leftmost, INVALID_BLOCK, EMPTY_LOG, childRounds, rounds)
  }

  predicate InFile(ix: seq<Page>, targets: seq<Block>) {
    forall i :: 0 <= i < |targets| ==> targets[i] < |ix|
  }

  /** The downlinks of the given pages, left to right. */
  function Downlinks(ix: seq<Page>, targets: seq<Block>): seq<Block>
    requires InFile(ix, targets)
  {
    if targets == [] then [] else ix[targets[0]].downlinks + Downlinks(ix, targets[1..])
  }

  // ----- what a successful check establishes -----

  predicate Marked(done: seq<Block>, path: seq<Block>, marks: seq<nat>) {
    && |marks| == |done|
    && (forall i :: 0 <= i < |marks| ==> marks[i] < |path| && path[marks[i]] == done[i])
    && (forall i, j :: 0 <= i < j < |marks| ==> marks[i] < marks[j])
  }

  ghost predicate GapsExcused(ix: seq<Page>, path: seq<Block>, marks: seq<nat>)
    requires Chain(ix, path)
  {
    forall i {:trigger SplitBefore(ix, false, path, i)} :: 0 <= i < |path| ==>
      i in marks || Excused(ix, SplitBefore(ix, false, path, i), path[i])
  }

  /**
   `path` follows right links on the child level from its first page; the downlinks `done` name, in
   order, the pages of `path` at positions `marks`; every page in between has an excuse.
   */
  ghost predicate Tracks(ix: seq<Page>, done: seq<Block>, path: seq<Block>, marks: seq<nat>) {
    && Chain(ix, path)
    && Marked(done, path, marks)
    && GapsExcused(ix, path, marks)
    && (done != [] ==> marks[0] == 0 && Leftmost(ix, done[0]))
  }

  /** The path reaches the right end of the child level. */
  ghost predicate Covers(ix: seq<Page>, done: seq<Block>, path: seq<Block>, marks: seq<nat>) {
    && Tracks(ix, done, path, marks)
    && done != []
    && ix[path[|path| - 1]].next == P_NONE
  }

  /** The downlinks of a level lead, in order, through the whole level below it. */
  ghost predicate Connected(ix: seq<Page>, downlinks: seq<Block>) {
    exists path, marks :: Covers(ix, downlinks, path, marks)
  }

  /** No downlink is the number that means "none", and no page they name has the invalid number as its right link. */
  predicate Clean(ix: seq<Page>, downlinks: seq<Block>) {
    forall d <- downlinks :: d != P_NONE && (d < |ix| ==> ix[d].next != INVALID_BLOCK)
  }

  ghost predicate Inv(ix: seq<Page>, done: seq<Block>, log: Log) {
    && Tracks(ix, done, log.path, log.marks)
    && (done == [] ==> log == EMPTY_LOG)
    && (done != [] ==>
          && log.marks[|log.marks| - 1] == |log.path| - 1
          && var last := ix[log.path[|log.path| - 1]];
             log.saved == Saved(last.next, last.incompleteSplit) && last.next != INVALID_BLOCK)
  }

  lemma ChainMore(ix: seq<Page>, path: seq<Block>, more: seq<Block>)
    requires Chain(ix, path) && Chain(ix, more) && path != []
    requires more != [] ==> more[0] == ix[path[|path| - 1]].next
    ensures Chain(ix, path + more)
  {
    var whole := path + more;
    forall i, j | 0 <= i && j == i + 1 < |whole|
      ensures whole[j] == ix[whole[i]].next
    {
      if i >= |path| {
        var a := i - |path|;
        var b := a + 1;
        assert more[b] == ix[more[a]].next;
      }
    }
  }

  lemma GapsMore(ix: seq<Page>, path: seq<Block>, marks: seq<nat>, more: seq<Block>, n: nat, marks': seq<nat>)
    requires Chain(ix, path) && Chain(ix, more) && Chain(ix, path + more) && path != [] && n <= |more|
    requires GapsExcused(ix, path, marks)
    requires AllExcused(ix, ix[path[|path| - 1]].incompleteSplit, more, n)
    requires n == |more| || (n == |more| - 1 && |path| + n in marks')
    requires forall i <- marks :: i in marks'
    ensures GapsExcused(ix, path + more, marks')
  {
    var whole := path + more;
    forall i | 0 <= i < |whole|
      ensures i in marks' || Excused(ix, SplitBefore(ix, false, whole, i), whole[i])
    {
      if i < |path| {
        assert SplitBefore(ix, false, path, i) == SplitBefore(ix, false, whole, i);
      } else if i < |path| + n {
        var a := i - |path|;
        assert SplitBefore(ix, ix[path[|path| - 1]].incompleteSplit, more, a) == SplitBefore(ix, false, whole, i);
      }
    }
  }

  lemma TracksMore(ix: seq<Page>, done: seq<Block>, path: seq<Block>, marks: seq<nat>, more: seq<Block>)
    requires Tracks(ix, done, path, marks) && path != [] && Chain(ix, more)
    requires more != [] ==> more[0] == ix[path[|path| - 1]].next
    requires AllExcused(ix, ix[path[|path| - 1]].incompleteSplit, more, |more|)
    ensures Tracks(ix, done, path + more, marks)
  {
    ChainMore(ix, path, more);
    GapsMore(ix, path, marks, more, |more|, marks);
  }

  lemma TracksNext(ix: seq<Page>, done: seq<Block>, path: seq<Block>, marks: seq<nat>, more: seq<Block>)
    requires Tracks(ix, done, path, marks) && done != [] && Chain(ix, more) && more != []
    requires more[0] == ix[path[|path| - 1]].next
    requires AllExcused(ix, ix[path[|path| - 1]].incompleteSplit, more, |more| - 1)
    ensures Tracks(ix, done + [more[|more| - 1]], path + more, marks + [|path| + |more| - 1])
  {
    ChainMore(ix, path, more);
    GapsMore(ix, path, marks, more, |more| - 1, marks + [|path| + |more| - 1]);
    MarksMore(done, path, marks, more);
  }

  lemma MarksMore(done: seq<Block>, path: seq<Block>, marks: seq<nat>, more: seq<Block>)
    requires Marked(done, path, marks) && more != []
    ensures Marked(done + [more[|more| - 1]], path + more, marks + [|path| + |more| - 1])
  {
  }

  lemma FirstDownlink(ix: seq<Page>, d: Block, targetLevel: nat, rounds: nat)
    requires d != P_NONE && (d < |ix| ==> ix[d].next != INVALID_BLOCK)
    requires ChildCheck(ix, FRESH, d, targetLevel, rounds).Done?
    ensures Inv(ix, [d], AddVisit(EMPTY_LOG, d, ChildCheck(ix, FRESH, d, targetLevel, rounds).value))
  {
    var v := ChildCheck(ix, FRESH, d, targetLevel, rounds).value;
    assert v == Visit(Saved(ix[d].next, ix[d].incompleteSplit), [d]);
    LeftWalkIsLeftmost(ix, d);
    var log := AddVisit(EMPTY_LOG, d, v);
    assert log == Log(v.saved, [d], [0]);
    assert 0 in log.marks;
  }

  lemma NextDownlink(ix: seq<Page>, done: seq<Block>, log: Log, d: Block, targetLevel: nat, rounds: nat)
    requires Inv(ix, done, log) && done != [] && d != P_NONE && (d < |ix| ==> ix[d].next != INVALID_BLOCK)
    requires ChildCheck(ix, log.saved, d, targetLevel, rounds).Done?
    ensures Inv(ix, done + [d], AddVisit(log, d, ChildCheck(ix, log.saved, d, targetLevel, rounds).value))
  {
    hide ChildLoop, Chain, AllExcused, Tracks;
    var v := ChildCheck(ix, log.saved, d, targetLevel, rounds).value;
    ChildLoopFollowsChain(ix, log.saved, d, targetLevel, log.saved.right, log.saved.split, true, rounds);
    TracksNext(ix, done, log.path, log.marks, v.path);
    VisitKeepsInv(ix, done, log, d, v);
  }

  lemma VisitKeepsInv(ix: seq<Page>, done: seq<Block>, log: Log, d: Block, v: Visit)
    requires v.path != [] && v.path[|v.path| - 1] == d && d != P_NONE && d < |ix| && ix[d].next != INVALID_BLOCK
    requires v.saved == Saved(ix[d].next, ix[d].incompleteSplit)
    requires Tracks(ix, done + [d], log.path + v.path, log.marks + [|log.path| + |v.path| - 1])
    ensures Inv(ix, done + [d], AddVisit(log, d, v))
  {
    hide Tracks;
    var path := log.path + v.path;
    assert path[|path| - 1] == d;
  }

  lemma ClosingStep(ix: seq<Page>, done: seq<Block>, log: Log, targetLevel: nat, rounds: nat)
    requires Inv(ix, done, log) && done != []
    requires ChildCheck(ix, log.saved, P_NONE, targetLevel, rounds).Done?
    ensures Covers(ix, done, log.path + ChildCheck(ix, log.saved, P_NONE, targetLevel, rounds).value.path, log.marks)
  {
    var v := ChildCheck(ix, log.saved, P_NONE, targetLevel, rounds).value;
    ChildLoopFollowsChain(ix, log.saved, P_NONE, targetLevel, log.saved.right, log.saved.split, true, rounds);
    TracksMore(ix, done, log.path, log.marks, v.path);
  }

  lemma DownlinkStep(ix: seq<Page>, done: seq<Block>, log: Log, d: Block, targetLevel: nat, rounds: nat)
    requires Inv(ix, done, log) && d != P_NONE && (d < |ix| ==> ix[d].next != INVALID_BLOCK)
    requires ChildCheck(ix, log.saved, d, targetLevel, rounds).Done?
    ensures Inv(ix, done + [d], AddVisit(log, d, ChildCheck(ix, log.saved, d, targetLevel, rounds).value))
  {
    if done == [] {
      FirstDownlink(ix, d, targetLevel, rounds);
      assert done + [d] == [d];
    } else {
      NextDownlink(ix, done, log, d, targetLevel, rounds);
    }
  }

  lemma MoveOne(done: seq<Block>, ds: seq<Block>, k: nat)
    requires k < |ds|
    ensures done + ds[k..] == done + [ds[k]] + ds[k + 1..]
  {
  }

  /** The state after the items of page `t`, once the downlinks `done` have been followed. */
  ghost predicate ItemsResult(ix: seq<Page>, t: Block, done: seq<Block>, log: Log)
    requires t < |ix|
  {
    if ix[t].next == P_NONE then Covers(ix, done, log.path, log.marks) else done != [] && Inv(ix, done, log)
  }

  lemma ItemsEnd(ix: seq<Page>, t: Block, done: seq<Block>, log: Log, rounds: nat, r: Log)
    requires t < |ix| && done != [] && Inv(ix, done, log)
    requires Items(ix, t, |ix[t].downlinks|, log, rounds) == Done(r)
    ensures ItemsResult(ix, t, done, r)
  {
    if ix[t].next == P_NONE { ClosingStep(ix, done, log, ix[t].level, rounds); }
  }

  lemma ItemsStep(ix: seq<Page>, t: Block, k: nat, done: seq<Block>, log: Log, rounds: nat, r: Log) returns (log': Log)
    requires t < |ix| && k < |ix[t].downlinks| && Inv(ix, done, log) && Clean(ix, ix[t].downlinks)
    requires Items(ix, t, k, log, rounds) == Done(r)
    ensures Items(ix, t, k + 1, log', rounds) == Done(r)
    ensures Inv(ix, done + [ix[t].downlinks[k]], log')
  {
    var d := ix[t].downlinks[k];
    assert d in ix[t].downlinks;
    log' := AddVisit(log, d, ChildCheck(ix, log.saved, d, ix[t].level, rounds).value);
    DownlinkStep(ix, done, log, d, ix[t].level, rounds);
  }

  lemma {:induction false} ItemsTrack(ix: seq<Page>, t: Block, k: nat, done: seq<Block>, log: Log, rounds: nat, r: Log)
    requires t < |ix| && k <= |ix[t].downlinks| && (k == |ix[t].downlinks| ==> done != [])
    requires Inv(ix, done, log) && Clean(ix, ix[t].downlinks)
    requires Items(ix, t, k, log, rounds) == Done(r)
    ensures ItemsResult(ix, t, done + ix[t].downlinks[k..], r)
    decreases |ix[t].downlinks| - k
  {
    var ds := ix[t].downlinks;
    if k == |ds| {
      ItemsEnd(ix, t, done, log, rounds, r);
      assert done + ds[k..] == done;
    } else {
      var log' := ItemsStep(ix, t, k, done, log, rounds, r);
      ItemsTrack(ix, t, k + 1, done + [ds[k]], log', rounds, r);
      MoveOne(done, ds, k);
    }
  }

  lemma TargetTracks(ix: seq<Page>, t: Block, done: seq<Block>, log: Log, rounds: nat, log': Log)
    requires t < |ix| && ix[t].downlinks != [] && Inv(ix, done, log) && Clean(ix, ix[t].downlinks)
    requires Items(ix, t, 0, log, rounds) == Done(log')
    ensures ix[t].next == P_NONE ==> Covers(ix, done + ix[t].downlinks, log'.path, log'.marks)
    ensures ix[t].next != P_NONE ==> Inv(ix, done + ix[t].downlinks, log')
  {
    ItemsTrack(ix, t, 0, done, log, rounds, log');
    assert ix[t].downlinks[0..] == ix[t].downlinks;
  }

  /** Checking the items of one page after the other. */
  function RunTargets(ix: seq<Page>, targets: seq<Block>, log: Log, rounds: nat): Outcome<Log>
    requires InFile(ix, targets)
  {
    if targets == [] then Done(log)
    else
      var r := Items(ix, targets[0], 0, log, rounds);
      if r.Done? then RunTargets(ix, targets[1..], r.value, rounds) else r
  }

  /** Internal pages of which only the last has no right sibling. */
  predicate Row(ix: seq<Page>, targets: seq<Block>) {
    && targets != [] && InFile(ix, targets)
    && (forall i :: 0 <= i < |targets| ==>
          ix[targets[i]].downlinks != [] && (ix[targets[i]].next == P_NONE <==> i == |targets| - 1))
  }

  /** One round of the level loop, taken apart. */
  lemma LevelUnfolds(ix: seq<Page>, lv: Level, left: Block, current: Block, nextDown: Block, log: Log,
                     childRounds: nat, rounds: nat, c: Checked)
    returns (log': Log, rest: Checked)
    requires LevelLoop(ix, lv, left, current, nextDown, log, childRounds, rounds) == Done(c)
    ensures Readable(ix, current) && TargetPasses(ix, lv, left, current, nextDown)
    ensures var p := ix[current];
      && (if Ignore(p) || p.leaf then log' == log else Items(ix, current, 0, log, childRounds) == Done(log'))
      && c == Checked((if Ignore(p) then [] else [current]) + rest.targets, rest.log)
      && (p.next == P_NONE ==> rest == Checked([], log'))
      && (p.next != P_NONE ==>
            && rounds > 0
            && LevelLoop(ix, lv, current, p.next, NextLevelDown(p, nextDown), log', childRounds, rounds - 1) == Done(rest))
  {
    var p := ix[current];
    log' := if Ignore(p) || p.leaf then log else Items(ix, current, 0, log, childRounds).value;
    if p.next == P_NONE {
      rest := Checked([], log');
      assert c.targets == c.targets + [];
    } else {
      rest := LevelLoop(ix, lv, current, p.next, NextLevelDown(p, nextDown), log', childRounds, rounds - 1).value;
    }
  }

  lemma PageOfRow(ix: seq<Page>, lv: Level, left: Block, current: Block, nextDown: Block)
    requires lv.number > 0 && current != P_NONE && Readable(ix, current) && TargetPasses(ix, lv, left, current, nextDown)
    ensures if Ignore(ix[current]) then ix[current].next != P_NONE else !ix[current].leaf && ix[current].downlinks != []
  {
  }

  /** A finished level check ran the items of a row of pages. */
  lemma {:induction false} LevelIsRow(ix: seq<Page>, lv: Level, left: Block, current: Block, nextDown: Block, log: Log,
                                      childRounds: nat, rounds: nat, c: Checked)
    requires lv.number > 0 && current != P_NONE
    requires LevelLoop(ix, lv, left, current, nextDown, log, childRounds, rounds) == Done(c)
    ensures Row(ix, c.targets) && RunTargets(ix, c.targets, log, childRounds) == Done(c.log)
    decreases rounds
  {
    hide LevelLoop, TargetPasses;
    var log', rest := LevelUnfolds(ix, lv, left, current, nextDown, log, childRounds, rounds, c);
    PageOfRow(ix, lv, left, current, nextDown);
    var p := ix[current];
    if p.next != P_NONE {
      LevelIsRow(ix, lv, current, p.next, NextLevelDown(p, nextDown), log', childRounds, rounds - 1, rest);
    }
    if Ignore(p) {
      assert c.targets == rest.targets;
    } else {
      assert c.targets[1..] == rest.targets;
    }
  }

  lemma {:induction false} RowTracks(ix: seq<Page>, targets: seq<Block>, done: seq<Block>, log: Log, rounds: nat, end: Log)
    requires Row(ix, targets) && Inv(ix, done, log) && Clean(ix, Downlinks(ix, targets))
    requires RunTargets(ix, targets, log, rounds) == Done(end)
    ensures Covers(ix, done + Downlinks(ix, targets), end.path, end.marks)
    decreases |targets|
  {
    var t, rest, log' := RowParts(ix, targets, log, rounds, end);
    TargetTracks(ix, t, done, log, rounds, log');
    Concat(done, ix[t].downlinks, Downlinks(ix, rest));
    if ix[t].next != P_NONE {
      RowTracks(ix, rest, done + ix[t].downlinks, log', rounds, end);
    }
  }

  lemma RowParts(ix: seq<Page>, targets: seq<Block>, log: Log, rounds: nat, end: Log)
    returns (t: Block, rest: seq<Block>, log': Log)
    requires Row(ix, targets) && Clean(ix, Downlinks(ix, targets))
    requires RunTargets(ix, targets, log, rounds) == Done(end)
    ensures t < |ix| && ix[t].downlinks != [] && InFile(ix, rest) && |rest| < |targets|
    ensures Clean(ix, ix[t].downlinks) && Clean(ix, Downlinks(ix, rest))
    ensures Items(ix, t, 0, log, rounds) == Done(log') && RunTargets(ix, rest, log', rounds) == Done(end)
    ensures Downlinks(ix, targets) == ix[t].downlinks + Downlinks(ix, rest)
    ensures ix[t].next == P_NONE ==> rest == []
    ensures ix[t].next != P_NONE ==> Row(ix, rest)
  {
    t, rest := targets[0], targets[1..];
    log' := Items(ix, t, 0, log, rounds).value;
    CleanParts(ix, ix[t].downlinks, Downlinks(ix, rest));
    assert forall i :: 0 <= i < |rest| ==> rest[i] == targets[i + 1];
  }

  lemma Concat(a: seq<Block>, b: seq<Block>, c: seq<Block>)
    ensures a + (b + c) == a + b + c
    ensures c == [] ==> a + (b + c) == a + b
  {
  }

  lemma CleanParts(ix: seq<Page>, a: seq<Block>, b: seq<Block>)
    requires Clean(ix, a + b)
    ensures Clean(ix, a) && Clean(ix, b)
  {
    assert forall d <- a :: d in a + b;
    assert forall d <- b :: d in a + b;
  }

  lemma ConnectedIsClean(ix: seq<Page>, downlinks: seq<Block>)
    requires IsIndex(ix) && Connected(ix, downlinks)
    ensures Clean(ix, downlinks)
  {
    var path, marks :| Covers(ix, downlinks, path, marks);
    forall d | d in downlinks
      ensures d != P_NONE && d < |ix| && ix[d].next != INVALID_BLOCK
    {
      var i :| 0 <= i < |downlinks| && downlinks[i] == d;
      var m := marks[i];
      assert path[m] == d;
      if m + 1 < |path| {
        var j := m + 1;
        assert path[j] == ix[path[m]].next;
      }
    }
  }

  /**
   A check of an internal level that ends without an error has found its downlinks to lead through the
   whole child level, in order and with every gap accounted for, exactly when none of the link fields it
   followed held one of the two reserved numbers that the code takes for its own bookkeeping.
   */
  lemma LevelCheckIsSound(ix: seq<Page>, lv: Level, leftmost: Block, childRounds: nat, rounds: nat)
    requires IsIndex(ix) && lv.number > 0 && leftmost != P_NONE
    requires CheckLevel(ix, lv, leftmost, childRounds, rounds).Done?
    ensures var targets := CheckLevel(ix, lv, leftmost, childRounds, rounds).value.targets;
      && InFile(ix, targets)
      && (Connected(ix, Downlinks(ix, targets)) <==> Clean(ix, Downlinks(ix, targets)))
  {
    var c := CheckLevel(ix, lv, leftmost, childRounds, rounds).value;
    LevelIsRow(ix, lv, P_NONE, leftmost, INVALID_BLOCK, EMPTY_LOG, childRounds, rounds, c);
    var ds := Downlinks(ix, c.targets);
    if Clean(ix, ds) {
      RowTracks(ix, c.targets, [], EMPTY_LOG, childRounds, c.log);
      assert [] + ds == ds;
      assert Covers(ix, ds, c.log.path, c.log.marks);
    }
    if Connected(ix, ds) {
      ConnectedIsClean(ix, ds);
    }
  }
}

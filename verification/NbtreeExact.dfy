/**
 Exactly which indexes amcheck's structural check lets pass (contrib/amcheck/verify_nbtree.c): besides what a finished
 check says about an index, every index that is linked as it should be is found in order.
 */
module NbtreeExact {
  import opened NbtreeIndex
  import opened NbtreeLevel
  import opened NbtreeWalk
  import opened NbtreeTree

  // ----- the level below, walked from downlink to downlink -----

  /** What is asked of each page of a child level by itself. */
  predicate ChildTest(ix: seq<Page>, targetLevel: nat, b: Block) {
    && Readable(ix, b)
    && (!ix[b].deleted || ix[b].fullXid ==> ix[b].level + 1 == targetLevel)
    && b != ix[b].prev
  }

  /** The downlinks lead through a whole level, whose pages are in order. */
  ghost predicate ChildLevel(ix: seq<Page>, targetLevel: nat, downlinks: seq<Block>, path: seq<Block>, marks: seq<nat>) {
    && Covers(ix, downlinks, path, marks)
    && forall b <- path :: ChildTest(ix, targetLevel, b)
  }

  /** The block at a position, or none behind the end. */
  function BlockAt(path: seq<Block>, i: nat): Block { if i < |path| then path[i] else P_NONE }

  /** What is remembered after standing at a position; behind the end, nothing. */
  function SavedAt(ix: seq<Page>, path: seq<Block>, m: nat): Saved
    requires Chain(ix, path)
  {
    if m < |path| then Saved(ix[path[m]].next, ix[path[m]].incompleteSplit) else FRESH
  }

  lemma NextBlock(ix: seq<Page>, path: seq<Block>, i: nat)
    requires Chain(ix, path) && i < |path| && ix[path[|path| - 1]].next == P_NONE
    ensures ix[path[i]].next == BlockAt(path, i + 1)
  {
    var j := i + 1;
    assert j < |path| ==> path[j] == ix[path[i]].next;
  }

  /** One page of a child level passes when it is the goal, or has an excuse. */
  lemma PagePassesAt(ix: seq<Page>, saved: Saved, targetLevel: nat, path: seq<Block>, i: nat, m: nat, first: bool)
    requires Chain(ix, path) && i <= m && i < |path| && (forall b <- path :: ChildTest(ix, targetLevel, b))
    requires first && saved.right == INVALID_BLOCK ==> Leftmost(ix, path[i])
    requires !first ==> path[i] != saved.right
    requires i < m ==> Excused(ix, SplitBefore(ix, false, path, i), path[i])
    ensures PagePasses(ix, saved, BlockAt(path, m), targetLevel, path[i], SplitBefore(ix, false, path, i), first)
  {
    hide LeftWalk, Leftmost, InterruptedDeletion, DownlinkMissing;
    assert path[i] in path;
    LeftWalkIsLeftmost(ix, path[i]);
    MissingExactly(ix, SplitBefore(ix, false, path, i), path[i]);
  }

  /** One round of the loop. */
  lemma ChildLoopOnce(ix: seq<Page>, saved: Saved, goal: Block, targetLevel: nat, b: Block, split: bool, first: bool, rounds: nat)
    requires b != P_NONE && PagePasses(ix, saved, goal, targetLevel, b, split, first)
    ensures var r := ChildLoop(ix, saved, goal, targetLevel, b, split, first, rounds);
      if b == goal then r == Done(Visit(Saved(ix[b].next, ix[b].incompleteSplit), [b]))
      else rounds > 0 ==>
        var rest := ChildLoop(ix, saved, goal, targetLevel, ix[b].next, ix[b].incompleteSplit, false, rounds - 1);
        rest.Done? ==> r == Done(Visit(rest.value.saved, [b] + rest.value.path))
  {
  }

  /** All that the walk from one position to another meets will pass. */
  ghost predicate Walkable(ix: seq<Page>, saved: Saved, targetLevel: nat, path: seq<Block>, i: nat, m: nat, first: bool) {
    && Chain(ix, path) && path != [] && ix[path[|path| - 1]].next == P_NONE && i <= m <= |path|
    && (forall b <- path :: ChildTest(ix, targetLevel, b))
    && (first && saved.right == INVALID_BLOCK ==> i < |path| && Leftmost(ix, path[i]))
    && (forall k {:trigger path[k]} :: i <= k < |path| && (!first || k > i) ==> path[k] != saved.right)
    && (forall k {:trigger path[k]} :: i <= k < m ==> Excused(ix, SplitBefore(ix, false, path, k), path[k]))
  }

  lemma WalkableHere(ix: seq<Page>, saved: Saved, targetLevel: nat, path: seq<Block>, i: nat, m: nat, first: bool)
    requires Walkable(ix, saved, targetLevel, path, i, m, first) && i < |path|
    ensures PagePasses(ix, saved, BlockAt(path, m), targetLevel, path[i], SplitBefore(ix, false, path, i), first)
    ensures path[i] != P_NONE && path[i] < |ix| && ix[path[i]].next == BlockAt(path, i + 1)
    ensures i < m ==> path[i] != BlockAt(path, m)
  {
    PagePassesAt(ix, saved, targetLevel, path, i, m, first);
    NextBlock(ix, path, i);
    if i < m { DistinctFrom(ix, path, i, m); }
  }

  lemma WalkableNext(ix: seq<Page>, saved: Saved, targetLevel: nat, path: seq<Block>, i: nat, m: nat, first: bool)
    requires Walkable(ix, saved, targetLevel, path, i, m, first) && i < m
    ensures Walkable(ix, saved, targetLevel, path, i + 1, m, false)
  {
    hide Excused, Leftmost, ChildTest, Chain;
  }

  /** The flag the walk carries at a position. */
  predicate SplitAt(ix: seq<Page>, path: seq<Block>, i: nat)
    requires Chain(ix, path)
  {
    0 < i <= |path| && ix[path[i - 1]].incompleteSplit
  }

  /** The walk from one position has reached the other, or the end. */
  ghost predicate Walked(ix: seq<Page>, saved: Saved, targetLevel: nat, path: seq<Block>, i: nat, m: nat, first: bool, rounds: nat) {
    && Chain(ix, path)
    && var r := ChildLoop(ix, saved, BlockAt(path, m), targetLevel, BlockAt(path, i), SplitAt(ix, path, i), first, rounds);
       r.Done? && r.value.saved == SavedAt(ix, path, m)
  }

  lemma WalkedOne(ix: seq<Page>, saved: Saved, targetLevel: nat, path: seq<Block>, i: nat, m: nat, first: bool, rounds: nat)
    requires Walkable(ix, saved, targetLevel, path, i, m, first) && rounds >= m - i
    requires i < m ==> rounds > 0 && Walked(ix, saved, targetLevel, path, i + 1, m, false, rounds - 1)
    ensures Walked(ix, saved, targetLevel, path, i, m, first, rounds)
  {
    if i < |path| {
      WalkableHere(ix, saved, targetLevel, path, i, m, first);
      assert Chain(ix, path) && SplitBefore(ix, false, path, i) == SplitAt(ix, path, i);
      assert i < m ==> SplitAt(ix, path, i + 1) == ix[path[i]].incompleteSplit;
      hide Chain, Walkable, PagePasses, ChildLoop, SplitAt, SplitBefore;
      ChildLoopOnce(ix, saved, BlockAt(path, m), targetLevel, path[i], SplitAt(ix, path, i), first, rounds);
    }
  }

  /** The walk from one position to another, or to the end. */
  lemma {:induction false} ChildLoopWalks(ix: seq<Page>, saved: Saved, targetLevel: nat, path: seq<Block>, i: nat, m: nat,
                                          first: bool, rounds: nat)
    requires i <= m && Walkable(ix, saved, targetLevel, path, i, m, first) && rounds >= m - i
    ensures Walked(ix, saved, targetLevel, path, i, m, first, rounds)
    decreases m - i
  {
    hide *;
    if i < m {
      WalkableNext(ix, saved, targetLevel, path, i, m, first);
      ChildLoopWalks(ix, saved, targetLevel, path, i + 1, m, false, rounds - 1);
    }
    WalkedOne(ix, saved, targetLevel, path, i, m, first, rounds);
  }

  lemma DistinctFrom(ix: seq<Page>, path: seq<Block>, i: nat, m: nat)
    requires Chain(ix, path) && path != [] && ix[path[|path| - 1]].next == P_NONE && i < m <= |path|
    ensures path[i] != BlockAt(path, m)
  {
    ChainIsDistinct(ix, path);
  }

  /** What is remembered after following the first `n` downlinks. */
  function SavedAfter(ix: seq<Page>, path: seq<Block>, marks: seq<nat>, n: nat): Saved
    requires Chain(ix, path) && n <= |marks|
  {
    if n == 0 then FRESH else SavedAt(ix, path, marks[n - 1])
  }

  /** Where the walk goes on after `n` downlinks, and where the next one stands, or the end. */
  function Place(marks: seq<nat>, n: nat): nat
    requires n <= |marks|
  {
    if n == 0 then 0 else marks[n - 1] + 1
  }

  function Goal(path: seq<Block>, marks: seq<nat>, n: nat): nat
    requires n <= |marks|
  {
    if n < |marks| then marks[n] else |path|
  }

  /** Between two named pages all pages have an excuse. */
  lemma GapAt(ix: seq<Page>, done: seq<Block>, path: seq<Block>, marks: seq<nat>, n: nat, k: nat)
    requires Covers(ix, done, path, marks) && n <= |marks| && Place(marks, n) <= k < Goal(path, marks, n)
    ensures k < |path| && Excused(ix, SplitBefore(ix, false, path, k), path[k])
  {
    hide Excused, Leftmost;
    forall i | 0 <= i < |marks| ensures marks[i] != k {
      assert i < n - 1 ==> marks[i] < marks[n - 1];
      assert n < i ==> marks[n] < marks[i];
    }
    assert k < |path|;
    assert Excused(ix, SplitBefore(ix, false, path, k), path[k]);
  }

  /** One call of `bt_child_highkey_check` in such a level passes. */
  lemma ChildCheckPasses(ix: seq<Page>, targetLevel: nat, ds: seq<Block>, path: seq<Block>, marks: seq<nat>, n: nat, rounds: nat)
    requires IsIndex(ix) && ChildLevel(ix, targetLevel, ds, path, marks) && n <= |ds| && rounds >= |path|
    ensures var r := ChildCheck(ix, SavedAfter(ix, path, marks, n), if n < |ds| then ds[n] else P_NONE, targetLevel, rounds);
      r.Done? && r.value.saved == if n < |ds| then SavedAfter(ix, path, marks, n + 1) else FRESH
  {
    hide Excused, Leftmost, GapsExcused, ChildTest;
    var i, m, saved := Place(marks, n), Goal(path, marks, n), SavedAfter(ix, path, marks, n);
    assert n > 0 ==> marks[n - 1] < |path|;
    assert 0 < n < |ds| ==> marks[n - 1] < marks[n];
    assert n < |ds| ==> path[marks[n]] == ds[n];
    forall k {:trigger path[k]} | i <= k < m ensures Excused(ix, SplitBefore(ix, false, path, k), path[k]) {
      GapAt(ix, ds, path, marks, n, k);
    }
    if n > 0 {
      NextBlock(ix, path, marks[n - 1]);
      assert i < |path| ==> path[i] < |ix|;
      ChainIsDistinct(ix, path);
    } else {
      assert forall k {:trigger path[k]} :: 0 <= k < |path| ==> path[k] < |ix|;
    }
    ChildLoopWalks(ix, saved, targetLevel, path, i, m, true, rounds);
  }

  // ----- the pages above -----

  /** No downlink of the page but its first names a deleted page. */
  predicate NamesInUse(ix: seq<Page>, t: Block)
    requires t < |ix|
  {
    forall k :: 0 < k < |ix[t].downlinks| ==> ix[t].downlinks[k] < |ix| && !ix[ix[t].downlinks[k]].deleted
  }

  lemma NamedIsReadable(ix: seq<Page>, targetLevel: nat, ds: seq<Block>, path: seq<Block>, marks: seq<nat>, n: nat)
    requires ChildLevel(ix, targetLevel, ds, path, marks) && n < |ds|
    ensures Readable(ix, ds[n]) && ds[n] != P_NONE
  {
    hide GapsExcused, Leftmost;
    assert path[marks[n]] == ds[n] && ds[n] in path;
  }

  /** The items of a page from `k` on are the next downlinks. */
  predicate InLine(ds: seq<Block>, n: nat, here: seq<Block>, k: nat) {
    k <= |here| && n + (|here| - k) <= |ds| && forall x :: k <= x < |here| ==> here[x] == ds[n + (x - k)]
  }

  lemma InLineNext(ds: seq<Block>, n: nat, here: seq<Block>, k: nat)
    requires InLine(ds, n, here, k) && k < |here|
    ensures n < |ds| && ds[n] == here[k] && InLine(ds, n + 1, here, k + 1)
  {
  }

  /** One item. */
  lemma ItemsOnce(ix: seq<Page>, t: Block, k: nat, log: Log, rounds: nat)
    requires t < |ix| && k < |ix[t].downlinks| && NamesInUse(ix, t) && Readable(ix, ix[t].downlinks[k])
    requires ChildCheck(ix, log.saved, ix[t].downlinks[k], ix[t].level, rounds).Done?
    ensures var d := ix[t].downlinks[k];
      Items(ix, t, k, log, rounds) ==
        Items(ix, t, k + 1, AddVisit(log, d, ChildCheck(ix, log.saved, d, ix[t].level, rounds).value), rounds)
  {
    hide ChildCheck;
  }

  /** The end of the items. */
  lemma ItemsOver(ix: seq<Page>, t: Block, log: Log, rounds: nat)
    requires t < |ix| && (ix[t].next == P_NONE ==> ChildCheck(ix, log.saved, P_NONE, ix[t].level, rounds).Done?)
    ensures var r := Items(ix, t, |ix[t].downlinks|, log, rounds);
      r.Done? && (ix[t].next != P_NONE ==> r.value == log)
  {
    hide ChildCheck;
  }

  /** A level below, and the downlinks that lead through it. */
  datatype Plan = Plan(ds: seq<Block>, path: seq<Block>, marks: seq<nat>)

  /** The first `n` downlinks have been followed. */
  ghost predicate Line(ix: seq<Page>, targetLevel: nat, plan: Plan, n: nat, saved: Saved) {
    && IsIndex(ix) && ChildLevel(ix, targetLevel, plan.ds, plan.path, plan.marks)
    && n <= |plan.ds| && saved == SavedAfter(ix, plan.path, plan.marks, n)
  }

  lemma LineStep(ix: seq<Page>, targetLevel: nat, plan: Plan, n: nat, saved: Saved, rounds: nat)
    requires Line(ix, targetLevel, plan, n, saved) && n < |plan.ds| && rounds >= |plan.path|
    ensures Readable(ix, plan.ds[n])
    ensures var r := ChildCheck(ix, saved, plan.ds[n], targetLevel, rounds);
      r.Done? && Line(ix, targetLevel, plan, n + 1, r.value.saved)
  {
    hide ChildCheck, GapsExcused, Leftmost, ChildTest;
    ChildCheckPasses(ix, targetLevel, plan.ds, plan.path, plan.marks, n, rounds);
    NamedIsReadable(ix, targetLevel, plan.ds, plan.path, plan.marks, n);
  }

  lemma LineEnd(ix: seq<Page>, targetLevel: nat, plan: Plan, saved: Saved, rounds: nat)
    requires Line(ix, targetLevel, plan, |plan.ds|, saved) && rounds >= |plan.path|
    ensures ChildCheck(ix, saved, P_NONE, targetLevel, rounds).Done?
  {
    hide ChildCheck, GapsExcused, Leftmost, ChildTest;
    ChildCheckPasses(ix, targetLevel, plan.ds, plan.path, plan.marks, |plan.ds|, rounds);
  }

  /** The items of a page whose downlinks are the next in line. */
  lemma {:induction false} ItemsPass(ix: seq<Page>, t: Block, k: nat, log: Log, rounds: nat, plan: Plan, n: nat)
    requires t < |ix| && k <= |ix[t].downlinks| && NamesInUse(ix, t) && rounds >= |plan.path|
    requires Line(ix, ix[t].level, plan, n, log.saved) && InLine(plan.ds, n, ix[t].downlinks, k)
    requires ix[t].next == P_NONE ==> n + (|ix[t].downlinks| - k) == |plan.ds|
    ensures var r := Items(ix, t, k, log, rounds);
      && r.Done?
      && (ix[t].next != P_NONE ==> Line(ix, ix[t].level, plan, n + (|ix[t].downlinks| - k), r.value.saved))
    decreases |ix[t].downlinks| - k
  {
    hide ChildCheck, Line, InLine, Items, NamesInUse, Readable;
    var here := ix[t].downlinks;
    if k < |here| {
      InLineNext(plan.ds, n, here, k);
      LineStep(ix, ix[t].level, plan, n, log.saved, rounds);
      ItemsOnce(ix, t, k, log, rounds);
      var v := ChildCheck(ix, log.saved, here[k], ix[t].level, rounds).value;
      ItemsPass(ix, t, k + 1, AddVisit(log, here[k], v), rounds, plan, n + 1);
    } else {
      if ix[t].next == P_NONE { LineEnd(ix, ix[t].level, plan, log.saved, rounds); }
      ItemsOver(ix, t, log, rounds);
    }
  }

  // ----- the walk of a level -----

  /** What is asked of each page on the walk of a level by itself. */
  predicate WalkTest(ix: seq<Page>, number: nat, b: Block) {
    && Readable(ix, b) && !ix[b].deleted && b != ix[b].prev
    && (if ix[b].halfDead then ix[b].next != P_NONE else ix[b].level == number)
  }

  /** The first page in use has only half-dead pages to its left, and is a root where it has to be. */
  ghost predicate StartsWell(ix: seq<Page>, lv: Level, walk: seq<Block>)
    requires InFile(ix, walk)
  {
    var live := Live(ix, walk);
    live != [] && Leftmost(ix, live[0]) && (lv.trueRoot ==> ix[live[0]].root || ix[live[0]].incompleteSplit)
  }

  /** A level from its first page to its end: right links, and left links of pages in use, that agree. */
  ghost predicate LevelWalk(ix: seq<Page>, lv: Level, walk: seq<Block>) {
    && RightWalk(ix, walk) && walk != [] && ix[walk[|walk| - 1]].next == P_NONE
    && (forall b <- walk :: WalkTest(ix, lv.number, b))
    && StartsWell(ix, lv, walk)
  }

  /** The rest of such a level, as the loop meets it. */
  ghost predicate WalkFrom(ix: seq<Page>, lv: Level, walk: seq<Block>, i: nat, left: Block, nextDown: Block) {
    && RightWalk(ix, walk) && i < |walk| && ix[walk[|walk| - 1]].next == P_NONE
    && (forall b <- walk :: WalkTest(ix, lv.number, b))
    && left == (if i == 0 then P_NONE else walk[i - 1])
    && (nextDown == INVALID_BLOCK ==> StartsWell(ix, lv, walk[i..]))
  }

  lemma WalkFromHere(ix: seq<Page>, lv: Level, walk: seq<Block>, i: nat, left: Block, nextDown: Block)
    requires WalkFrom(ix, lv, walk, i, left, nextDown)
    ensures var b := walk[i];
      && b != P_NONE && Readable(ix, b) && TargetPasses(ix, lv, left, b, nextDown) && !ix[b].deleted
      && b != left && b != ix[b].prev && ix[b].next == BlockAt(walk, i + 1)
  {
    hide LeftWalk, Leftmost;
    var b := walk[i];
    assert b in walk;
    NextBlock(ix, walk, i);
    LeftWalkIsLeftmost(ix, b);
    assert walk[i..][0] == b && (!Ignore(ix[b]) ==> Live(ix, walk[i..])[0] == b);
    if i > 0 {
      var h := i - 1;
      assert !ix[walk[i]].halfDead ==> ix[walk[i]].prev == walk[h];
      DistinctFrom(ix, walk, h, i);
    }
  }

  lemma WalkFromNext(ix: seq<Page>, lv: Level, walk: seq<Block>, i: nat, left: Block, nextDown: Block)
    requires WalkFrom(ix, lv, walk, i, left, nextDown) && i + 1 < |walk|
    requires var p := ix[walk[i]]; !Ignore(p) && !p.leaf ==> p.downlinks != [] && p.downlinks[0] != INVALID_BLOCK
    ensures WalkFrom(ix, lv, walk, i + 1, walk[i], NextLevelDown(ix[walk[i]], nextDown))
  {
    hide Leftmost, RightWalk, WalkTest;
    assert walk[i..][1..] == walk[i + 1..];
  }

  /** The downlinks of the pages in use. */
  function Below(ix: seq<Page>, walk: seq<Block>): seq<Block>
    requires InFile(ix, walk)
  {
    Downlinks(ix, Live(ix, walk))
  }

  lemma BelowStep(ix: seq<Page>, walk: seq<Block>, i: nat)
    requires InFile(ix, walk) && i < |walk|
    ensures Below(ix, walk[i..]) == (if Ignore(ix[walk[i]]) then [] else ix[walk[i]].downlinks) + Below(ix, walk[i + 1..])
    ensures Live(ix, walk[i..]) == (if Ignore(ix[walk[i]]) then [] else [walk[i]]) + Live(ix, walk[i + 1..])
  {
    var rest := walk[i..];
    assert rest[0] == walk[i] && rest[1..] == walk[i + 1..];
    if !Ignore(ix[walk[i]]) {
      assert Live(ix, rest)[1..] == Live(ix, rest[1..]);
    } else {
      assert Live(ix, rest) == [] + Live(ix, rest[1..]) == Live(ix, rest[1..]);
    }
  }

  /** The level below, when the pages from position `i` on are still to be checked. */
  ghost predicate BelowFrom(ix: seq<Page>, number: nat, walk: seq<Block>, i: nat, saved: Saved, plan: Plan, n: nat) {
    && InFile(ix, walk) && i <= |walk| && Line(ix, number, plan, n, saved) && n <= |plan.ds|
    && plan.ds[n..] == Below(ix, walk[i..])
    && forall t <- walk :: !Ignore(ix[t]) ==> NamesInUse(ix, t)
  }

  lemma Advance(ds: seq<Block>, n: nat, here: seq<Block>, rest: seq<Block>)
    requires n <= |ds| && ds[n..] == here + rest
    ensures n + |here| <= |ds| && InLine(ds, n, here, 0) && ds[n + |here|..] == rest
    ensures here != [] ==> n < |ds| && ds[n] == here[0]
    ensures rest == [] ==> n + |here| == |ds|
  {
    forall x | 0 <= x < |here| ensures here[x] == ds[n + x] { assert ds[n..][x] == ds[n + x]; }
    assert ds[n + |here|..] == ds[n..][|here|..];
  }

  /** The items of a page in use pass, and the level below is then that of the pages behind it. */
  lemma BelowHere(ix: seq<Page>, number: nat, walk: seq<Block>, i: nat, log: Log, rounds: nat, plan: Plan, n: nat) returns (log': Log)
    requires InFile(ix, walk) && i < |walk| && rounds >= |plan.path| && BelowFrom(ix, number, walk, i, log.saved, plan, n)
    requires var p := ix[walk[i]]; !Ignore(p) && p.downlinks != [] && p.level == number && (p.next == P_NONE ==> i + 1 == |walk|)
    ensures Items(ix, walk[i], 0, log, rounds) == Done(log') && ix[walk[i]].downlinks[0] != INVALID_BLOCK
    ensures ix[walk[i]].next != P_NONE ==> BelowFrom(ix, number, walk, i + 1, log'.saved, plan, n + |ix[walk[i]].downlinks|)
  {
    hide *;
    var b := walk[i];
    BelowParts(ix, number, walk, i, log.saved, plan, n);
    ItemsPass(ix, b, 0, log, rounds, plan, n);
    log' := Items(ix, b, 0, log, rounds).value;
    if ix[b].next != P_NONE { BelowKept(ix, number, walk, i, log.saved, log'.saved, plan, n); }
  }

  lemma BelowParts(ix: seq<Page>, number: nat, walk: seq<Block>, i: nat, saved: Saved, plan: Plan, n: nat)
    requires InFile(ix, walk) && i < |walk| && BelowFrom(ix, number, walk, i, saved, plan, n)
    requires !Ignore(ix[walk[i]]) && ix[walk[i]].downlinks != []
    ensures walk[i] < |ix|
    ensures var here := ix[walk[i]].downlinks;
      && NamesInUse(ix, walk[i]) && Line(ix, number, plan, n, saved) && here[0] != INVALID_BLOCK
      && InLine(plan.ds, n, here, 0)
      && (i + 1 == |walk| ==> n + |here| == |plan.ds|)
  {
    hide NamesInUse, Below, Line;
    assert walk[i] in walk;
    BelowStep(ix, walk, i);
    if i + 1 == |walk| { NoneBelow(ix, walk[i + 1..]); }
    Advance(plan.ds, n, ix[walk[i]].downlinks, Below(ix, walk[i + 1..]));
    NextIsValid(ix, number, plan, n, saved);
  }

  lemma NextIsValid(ix: seq<Page>, targetLevel: nat, plan: Plan, n: nat, saved: Saved)
    requires Line(ix, targetLevel, plan, n, saved) && n < |plan.ds|
    ensures plan.ds[n] != INVALID_BLOCK
  {
    hide ChildLevel, SavedAfter;
    NamedIsReadable(ix, targetLevel, plan.ds, plan.path, plan.marks, n);
  }

  lemma BelowKept(ix: seq<Page>, number: nat, walk: seq<Block>, i: nat, saved: Saved, saved': Saved, plan: Plan, n: nat)
    requires InFile(ix, walk) && i < |walk| && BelowFrom(ix, number, walk, i, saved, plan, n) && !Ignore(ix[walk[i]])
    requires Line(ix, number, plan, n + |ix[walk[i]].downlinks|, saved')
    ensures BelowFrom(ix, number, walk, i + 1, saved', plan, n + |ix[walk[i]].downlinks|)
  {
    hide Line, NamesInUse, Below;
    BelowStep(ix, walk, i);
    Advance(plan.ds, n, ix[walk[i]].downlinks, Below(ix, walk[i + 1..]));
  }

  lemma NoneBelow(ix: seq<Page>, walk: seq<Block>)
    requires walk == []
    ensures Below(ix, walk) == [] && Live(ix, walk) == []
  {
  }

  /** One round of the level's loop. */
  lemma LevelLoopOnce(ix: seq<Page>, lv: Level, left: Block, b: Block, nextDown: Block, log: Log, log': Log,
                      childRounds: nat, rounds: nat)
    requires Readable(ix, b) && TargetPasses(ix, lv, left, b, nextDown) && b != left && b != ix[b].prev
    requires if Ignore(ix[b]) || ix[b].leaf then log' == log else Items(ix, b, 0, log, childRounds) == Done(log')
    ensures var r := LevelLoop(ix, lv, left, b, nextDown, log, childRounds, rounds);
      var here := if Ignore(ix[b]) then [] else [b];
      if ix[b].next == P_NONE then r == Done(Checked(here, log'))
      else rounds > 0 ==>
        var rest := LevelLoop(ix, lv, b, ix[b].next, NextLevelDown(ix[b], nextDown), log', childRounds, rounds - 1);
        rest.Done? ==> r == Done(Checked(here + rest.value.targets, rest.value.log))
  {
  }

  /** The header of the page at a position. */
  lemma WalkFromPage(ix: seq<Page>, lv: Level, walk: seq<Block>, i: nat, left: Block, nextDown: Block)
    requires WalkFrom(ix, lv, walk, i, left, nextDown)
    ensures InFile(ix, walk)
    ensures var p := ix[walk[i]];
      && (p.next == P_NONE <==> i + 1 == |walk|)
      && (!Ignore(p) ==> p.level == lv.number && (p.leaf <==> lv.number == 0) && (!p.leaf ==> p.downlinks != []))
      && (lv.number > 0 && Ignore(p) ==> p.leaf)
  {
    hide StartsWell;
    assert walk[i] in walk;
    NextBlock(ix, walk, i);
    var j := i + 1;
    assert j < |walk| ==> walk[j] != P_NONE;
  }

  /** A half-dead page has no items to check; a page in use has those that come next. */
  lemma BelowNext(ix: seq<Page>, number: nat, walk: seq<Block>, i: nat, log: Log, rounds: nat, plan: Plan, n: nat)
    returns (log': Log, n': nat)
    requires InFile(ix, walk) && i < |walk| && rounds >= |plan.path| && BelowFrom(ix, number, walk, i, log.saved, plan, n)
    requires var p := ix[walk[i]];
      && (p.next == P_NONE <==> i + 1 == |walk|)
      && (!Ignore(p) ==> p.level == number && p.downlinks != [])
    ensures var p := ix[walk[i]];
      && (Ignore(p) ==> log' == log)
      && (!Ignore(p) ==> Items(ix, walk[i], 0, log, rounds) == Done(log') && p.downlinks[0] != INVALID_BLOCK)
      && (i + 1 < |walk| ==> BelowFrom(ix, number, walk, i + 1, log'.saved, plan, n'))
  {
    if Ignore(ix[walk[i]]) {
      hide Items, Line, NamesInUse, Below;
      BelowStep(ix, walk, i);
      log', n' := log, n;
    } else {
      hide Items, BelowFrom;
      log' := BelowHere(ix, number, walk, i, log, rounds, plan, n);
      n' := n + |ix[walk[i]].downlinks|;
    }
  }

  /** The items of the page at a position, on any level. */
  lemma ItemsHere(ix: seq<Page>, lv: Level, walk: seq<Block>, i: nat, left: Block, nextDown: Block, log: Log, rounds: nat,
                  plan: Plan, n: nat) returns (log': Log, n': nat)
    requires WalkFrom(ix, lv, walk, i, left, nextDown)
    requires lv.number > 0 ==> BelowFrom(ix, lv.number, walk, i, log.saved, plan, n) && rounds >= |plan.path|
    ensures InFile(ix, walk) && i < |walk|
    ensures if Ignore(ix[walk[i]]) || ix[walk[i]].leaf then log' == log else Items(ix, walk[i], 0, log, rounds) == Done(log')
    ensures lv.number > 0 && i + 1 < |walk| ==> BelowFrom(ix, lv.number, walk, i + 1, log'.saved, plan, n')
    ensures i + 1 < |walk| ==> WalkFrom(ix, lv, walk, i + 1, walk[i], NextLevelDown(ix[walk[i]], nextDown))
  {
    WalkFromPage(ix, lv, walk, i, left, nextDown);
    hide WalkFrom, Items, BelowFrom, NextLevelDown;
    log', n' := log, n;
    if lv.number > 0 {
      log', n' := BelowNext(ix, lv.number, walk, i, log, rounds, plan, n);
    }
    if i + 1 < |walk| { WalkFromNext(ix, lv, walk, i, left, nextDown); }
  }

  /** The walk from a position on has ended, and checked the pages in use. */
  ghost predicate Passed(ix: seq<Page>, walk: seq<Block>, i: nat, r: Outcome<Checked>) {
    InFile(ix, walk) && i <= |walk| && r.Done? && r.value.targets == Live(ix, walk[i..])
  }

  lemma PassedOne(ix: seq<Page>, walk: seq<Block>, i: nat, r: Outcome<Checked>, rest: Outcome<Checked>)
    requires InFile(ix, walk) && i < |walk| && r.Done?
    requires var here := if Ignore(ix[walk[i]]) then [] else [walk[i]];
      if i + 1 == |walk| then r.value.targets == here
      else Passed(ix, walk, i + 1, rest) && r.value.targets == here + rest.value.targets
    ensures Passed(ix, walk, i, r)
  {
    hide Below;
    BelowStep(ix, walk, i);
    if i + 1 == |walk| { NoneBelow(ix, walk[i + 1..]); }
  }

  /** One page, when the rest of the walk passes. */
  lemma PassedHere(ix: seq<Page>, lv: Level, walk: seq<Block>, i: nat, left: Block, nextDown: Block, log: Log, log': Log,
                   childRounds: nat, rounds: nat)
    requires WalkFrom(ix, lv, walk, i, left, nextDown)
    requires if Ignore(ix[walk[i]]) || ix[walk[i]].leaf then log' == log else Items(ix, walk[i], 0, log, childRounds) == Done(log')
    requires i + 1 < |walk| ==> rounds > 0
    requires i + 1 < |walk| ==>
      Passed(ix, walk, i + 1, LevelLoop(ix, lv, walk[i], walk[i + 1], NextLevelDown(ix[walk[i]], nextDown), log', childRounds, rounds - 1))
    ensures Passed(ix, walk, i, LevelLoop(ix, lv, left, walk[i], nextDown, log, childRounds, rounds))
  {
    WalkFromHere(ix, lv, walk, i, left, nextDown);
    WalkFromPage(ix, lv, walk, i, left, nextDown);
    LevelLoopOnce(ix, lv, left, walk[i], nextDown, log, log', childRounds, rounds);
    hide LevelLoop, WalkFrom, TargetPasses, Items, Readable, NextLevelDown, Live;
    var r := LevelLoop(ix, lv, left, walk[i], nextDown, log, childRounds, rounds);
    if i + 1 < |walk| {
      PassedOne(ix, walk, i, r, LevelLoop(ix, lv, walk[i], walk[i + 1], NextLevelDown(ix[walk[i]], nextDown), log', childRounds, rounds - 1));
    } else {
      PassedOne(ix, walk, i, r, r);
    }
  }

  /** The loop stands at a position of such a level, over such a level below it, with rounds enough. */
  ghost predicate Ready(ix: seq<Page>, lv: Level, walk: seq<Block>, i: nat, left: Block, nextDown: Block, log: Log,
                        childRounds: nat, rounds: nat, plan: Plan, n: nat) {
    && WalkFrom(ix, lv, walk, i, left, nextDown) && rounds >= |walk| - i - 1
    && (lv.number > 0 ==> BelowFrom(ix, lv.number, walk, i, log.saved, plan, n) && childRounds >= |plan.path|)
  }

  lemma ReadyNext(ix: seq<Page>, lv: Level, walk: seq<Block>, i: nat, left: Block, nextDown: Block, log: Log,
                  childRounds: nat, rounds: nat, plan: Plan, n: nat)
    returns (down: Block, log': Log, n': nat)
    requires Ready(ix, lv, walk, i, left, nextDown, log, childRounds, rounds, plan, n)
    ensures i < |walk|
    ensures i + 1 < |walk| ==> rounds > 0 && Ready(ix, lv, walk, i + 1, walk[i], down, log', childRounds, rounds - 1, plan, n')
    ensures (i + 1 < |walk| ==> Passed(ix, walk, i + 1, LevelLoop(ix, lv, walk[i], walk[i + 1], down, log', childRounds, rounds - 1))) ==>
      Passed(ix, walk, i, LevelLoop(ix, lv, left, walk[i], nextDown, log, childRounds, rounds))
  {
    hide LevelLoop, WalkFrom, Items, NextLevelDown, BelowFrom, Passed;
    log', n' := ItemsHere(ix, lv, walk, i, left, nextDown, log, childRounds, plan, n);
    down := NextLevelDown(ix[walk[i]], nextDown);
    if i + 1 < |walk| ==> Passed(ix, walk, i + 1, LevelLoop(ix, lv, walk[i], walk[i + 1], down, log', childRounds, rounds - 1)) {
      PassedHere(ix, lv, walk, i, left, nextDown, log, log', childRounds, rounds);
    }
  }

  /** The walk of such a level, over such a level below it, ends without an error. */
  lemma {:induction false} LevelLoopPasses(ix: seq<Page>, lv: Level, walk: seq<Block>, i: nat, left: Block, nextDown: Block, log: Log,
                                           childRounds: nat, rounds: nat, plan: Plan, n: nat)
    requires i < |walk| && Ready(ix, lv, walk, i, left, nextDown, log, childRounds, rounds, plan, n)
    ensures Passed(ix, walk, i, LevelLoop(ix, lv, left, walk[i], nextDown, log, childRounds, rounds))
    decreases |walk| - i
  {
    hide *;
    var down, log', n' := ReadyNext(ix, lv, walk, i, left, nextDown, log, childRounds, rounds, plan, n);
    if i + 1 < |walk| {
      LevelLoopPasses(ix, lv, walk, i + 1, walk[i], down, log', childRounds, rounds - 1, plan, n');
    }
  }
}

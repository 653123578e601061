/**
 The two directions together (contrib/amcheck/verify_nbtree.c): a level, and a whole index, is found in order if and only
 if it is linked as it should be, apart from the reserved numbers.
 */
module NbtreePasses {
  import opened NbtreeIndex
  import opened NbtreeLevel
  import opened NbtreeWalk
  import opened NbtreeTree
  import opened NbtreeExact

  // ----- what a finished walk has tested -----

  lemma {:induction false} ChildLoopTested(ix: seq<Page>, saved: Saved, downlink: Block, targetLevel: nat,
                                           blkno: Block, rightsplit: bool, first: bool, rounds: nat)
    requires ChildLoop(ix, saved, downlink, targetLevel, blkno, rightsplit, first, rounds).Done?
    ensures forall b <- ChildLoop(ix, saved, downlink, targetLevel, blkno, rightsplit, first, rounds).value.path :: ChildTest(ix, targetLevel, b)
    decreases rounds
  {
    if blkno != P_NONE && blkno != downlink {
      var p := ix[blkno];
      ChildLoopTested(ix, saved, downlink, targetLevel, p.next, p.incompleteSplit, false, rounds - 1);
    }
  }

  lemma ChildCheckTested(ix: seq<Page>, saved: Saved, downlink: Block, targetLevel: nat, rounds: nat)
    requires ChildCheck(ix, saved, downlink, targetLevel, rounds).Done?
    ensures forall b <- ChildCheck(ix, saved, downlink, targetLevel, rounds).value.path :: ChildTest(ix, targetLevel, b)
  {
    hide ChildLoop;
    if saved.right == INVALID_BLOCK {
      ChildLoopTested(ix, saved, downlink, targetLevel, downlink, false, true, rounds);
    } else {
      ChildLoopTested(ix, saved, downlink, targetLevel, saved.right, saved.split, true, rounds);
    }
  }

  ghost predicate AllTested(ix: seq<Page>, targetLevel: nat, path: seq<Block>) { forall b <- path :: ChildTest(ix, targetLevel, b) }

  lemma TestedMore(ix: seq<Page>, targetLevel: nat, path: seq<Block>, more: seq<Block>)
    requires AllTested(ix, targetLevel, path) && AllTested(ix, targetLevel, more)
    ensures AllTested(ix, targetLevel, path + more)
  {
    hide ChildTest;
  }

  /** One item that passed. */
  lemma ItemPassed(ix: seq<Page>, t: Block, k: nat, log: Log, rounds: nat)
    requires t < |ix| && k < |ix[t].downlinks| && Items(ix, t, k, log, rounds).Done?
    ensures var d := ix[t].downlinks[k];
      var r := ChildCheck(ix, log.saved, d, ix[t].level, rounds);
      && r.Done? && (k > 0 ==> d < |ix| && !ix[d].deleted)
      && Items(ix, t, k, log, rounds) == Items(ix, t, k + 1, AddVisit(log, d, r.value), rounds)
  {
    hide ChildCheck;
  }

  lemma ItemsEndPassed(ix: seq<Page>, t: Block, log: Log, rounds: nat)
    requires t < |ix| && Items(ix, t, |ix[t].downlinks|, log, rounds).Done? && AllTested(ix, ix[t].level, log.path)
    ensures AllTested(ix, ix[t].level, Items(ix, t, |ix[t].downlinks|, log, rounds).value.path)
  {
    hide ChildCheck, AllTested;
    if ix[t].next == P_NONE {
      VisitTested(ix, log.saved, P_NONE, ix[t].level, rounds);
      TestedMore(ix, ix[t].level, log.path, ChildCheck(ix, log.saved, P_NONE, ix[t].level, rounds).value.path);
    }
  }

  lemma {:induction false} ItemsTested(ix: seq<Page>, t: Block, k: nat, log: Log, rounds: nat)
    requires t < |ix| && k <= |ix[t].downlinks| && Items(ix, t, k, log, rounds).Done?
    requires AllTested(ix, ix[t].level, log.path)
    ensures AllTested(ix, ix[t].level, Items(ix, t, k, log, rounds).value.path)
    ensures forall j :: k <= j < |ix[t].downlinks| && j > 0 ==> ix[t].downlinks[j] < |ix| && !ix[ix[t].downlinks[j]].deleted
    decreases |ix[t].downlinks| - k
  {
    hide ChildCheck, AllTested, Items;
    var p := ix[t];
    if k < |p.downlinks| {
      ItemPassed(ix, t, k, log, rounds);
      VisitTested(ix, log.saved, p.downlinks[k], p.level, rounds);
      var v := ChildCheck(ix, log.saved, p.downlinks[k], p.level, rounds).value;
      TestedMore(ix, p.level, log.path, v.path);
      ItemsTested(ix, t, k + 1, AddVisit(log, p.downlinks[k], v), rounds);
    } else {
      ItemsEndPassed(ix, t, log, rounds);
    }
  }

  lemma VisitTested(ix: seq<Page>, saved: Saved, downlink: Block, targetLevel: nat, rounds: nat)
    requires ChildCheck(ix, saved, downlink, targetLevel, rounds).Done?
    ensures AllTested(ix, targetLevel, ChildCheck(ix, saved, downlink, targetLevel, rounds).value.path)
  {
    hide ChildCheck;
    ChildCheckTested(ix, saved, downlink, targetLevel, rounds);
  }

  lemma {:induction false} RowTested(ix: seq<Page>, targetLevel: nat, targets: seq<Block>, log: Log, rounds: nat)
    requires InFile(ix, targets) && RunTargets(ix, targets, log, rounds).Done? && AllTested(ix, targetLevel, log.path)
    requires forall t <- targets :: t < |ix| && ix[t].level == targetLevel
    ensures AllTested(ix, targetLevel, RunTargets(ix, targets, log, rounds).value.path)
    ensures forall t <- targets :: t < |ix| && NamesInUse(ix, t)
    decreases |targets|
  {
    hide Items, AllTested;
    if targets != [] {
      assert targets[0] in targets;
      ItemsTested(ix, targets[0], 0, log, rounds);
      RowTested(ix, targetLevel, targets[1..], Items(ix, targets[0], 0, log, rounds).value, rounds);
      forall t | t in targets ensures t < |ix| && NamesInUse(ix, t) {
        assert t == targets[0] || t in targets[1..];
      }
    }
  }

  // ----- what a finished walk of a level has tested -----

  lemma PageTested(ix: seq<Page>, lv: Level, left: Block, current: Block, nextDown: Block, log: Log, childRounds: nat, rounds: nat)
    requires current != P_NONE && LevelLoop(ix, lv, left, current, nextDown, log, childRounds, rounds).Done?
    ensures WalkTest(ix, lv.number, current)
    ensures left != P_NONE && !ix[current].halfDead ==> ix[current].prev == left
    ensures nextDown == INVALID_BLOCK && !ix[current].halfDead ==>
      Leftmost(ix, current) && (lv.trueRoot ==> ix[current].root || ix[current].incompleteSplit)
  {
    hide Items, LeftWalk, Leftmost;
    assert TargetCheck(ix, lv, left, current, nextDown, log, childRounds).Done?;
    LeftWalkIsLeftmost(ix, current);
  }

  /** What a finished walk, entered from `left`, has found out. */
  ghost predicate Tested(ix: seq<Page>, lv: Level, walk: seq<Block>, left: Block, nextDown: Block, targets: seq<Block>) {
    && walk != [] && RightWalk(ix, walk) && ix[walk[|walk| - 1]].next == P_NONE
    && targets == Live(ix, walk) && (forall b <- walk :: WalkTest(ix, lv.number, b))
    && (left != P_NONE && !ix[walk[0]].halfDead ==> ix[walk[0]].prev == left)
    && (nextDown == INVALID_BLOCK ==> StartsWell(ix, lv, walk))
  }

  /** What is found out about one page. */
  ghost predicate Entered(ix: seq<Page>, lv: Level, left: Block, current: Block, nextDown: Block) {
    && current != P_NONE && WalkTest(ix, lv.number, current)
    && (left != P_NONE && !ix[current].halfDead ==> ix[current].prev == left)
    && (nextDown == INVALID_BLOCK && !ix[current].halfDead ==>
          Leftmost(ix, current) && (lv.trueRoot ==> ix[current].root || ix[current].incompleteSplit))
  }

  lemma TestedOne(ix: seq<Page>, lv: Level, left: Block, current: Block, nextDown: Block)
    requires Entered(ix, lv, left, current, nextDown) && ix[current].next == P_NONE
    ensures Tested(ix, lv, [current], left, nextDown, [current])
  {
    hide Leftmost;
    assert Live(ix, [current]) == [current] + Live(ix, [current][1..]) == [current];
  }

  lemma StartsCons(ix: seq<Page>, lv: Level, left: Block, current: Block, nextDown: Block, more: seq<Block>)
    requires Entered(ix, lv, left, current, nextDown) && InFile(ix, more) && nextDown == INVALID_BLOCK
    requires ix[current].halfDead ==> StartsWell(ix, lv, more)
    ensures InFile(ix, [current] + more) && StartsWell(ix, lv, [current] + more)
  {
    hide Leftmost;
    LiveCons(ix, current, more);
  }

  lemma TestsCons(ix: seq<Page>, number: nat, current: Block, more: seq<Block>)
    requires WalkTest(ix, number, current) && forall b <- more :: WalkTest(ix, number, b)
    ensures forall b <- [current] + more :: WalkTest(ix, number, b)
  {
    hide WalkTest;
    forall b | b in [current] + more ensures WalkTest(ix, number, b) { assert b == current || b in more; }
  }

  lemma TestedCons(ix: seq<Page>, lv: Level, left: Block, current: Block, nextDown: Block, more: seq<Block>, targets: seq<Block>)
    requires Entered(ix, lv, left, current, nextDown) && more != [] && more[0] == ix[current].next
    requires Tested(ix, lv, more, current, NextLevelDown(ix[current], nextDown), targets)
    ensures Tested(ix, lv, [current] + more, left, nextDown, (if Ignore(ix[current]) then [] else [current]) + targets)
  {
    hide Leftmost, StartsWell, Live;
    WalkCons(ix, current, more);
    LiveCons(ix, current, more);
    TestsCons(ix, lv.number, current, more);
    if nextDown == INVALID_BLOCK { StartsCons(ix, lv, left, current, nextDown, more); }
    hide RightWalk, WalkTest;
    var walk := [current] + more;
    assert walk[0] == current && walk[|walk| - 1] == more[|more| - 1];
  }

  /** One page of a finished walk, and the rest. */
  lemma TestedHere(ix: seq<Page>, lv: Level, left: Block, current: Block, nextDown: Block, log: Log,
                   childRounds: nat, rounds: nat, c: Checked) returns (next: Block, down: Block, log': Log, rest: Checked, here: seq<Block>)
    requires current != P_NONE && LevelLoop(ix, lv, left, current, nextDown, log, childRounds, rounds) == Done(c)
    ensures current < |ix| && Entered(ix, lv, left, current, nextDown) && next == ix[current].next && down == NextLevelDown(ix[current], nextDown)
    ensures here == (if Ignore(ix[current]) then [] else [current]) && c.targets == here + rest.targets
    ensures next == P_NONE ==> c.targets == [current]
    ensures next != P_NONE ==> rounds > 0 && LevelLoop(ix, lv, current, next, down, log', childRounds, rounds - 1) == Done(rest)
  {
    hide Items, LeftWalk, Leftmost;
    PageTested(ix, lv, left, current, nextDown, log, childRounds, rounds);
    log', rest := LevelUnfolds(ix, lv, left, current, nextDown, log, childRounds, rounds, c);
    NotDeleted(ix, lv.number, current);
    hide LevelLoop, TargetPasses, WalkTest, NextLevelDown;
    next, down := ix[current].next, NextLevelDown(ix[current], nextDown);
    here := if Ignore(ix[current]) then [] else [current];
  }

  /** The walk that a finished check of a level has made. */
  lemma {:induction false} LevelLoopTested(ix: seq<Page>, lv: Level, left: Block, current: Block, nextDown: Block, log: Log,
                                           childRounds: nat, rounds: nat, c: Checked) returns (walk: seq<Block>)
    requires current != P_NONE && LevelLoop(ix, lv, left, current, nextDown, log, childRounds, rounds) == Done(c)
    ensures walk != [] && walk[0] == current && Tested(ix, lv, walk, left, nextDown, c.targets)
    decreases rounds
  {
    hide *;
    var next, down, log', rest, here := TestedHere(ix, lv, left, current, nextDown, log, childRounds, rounds, c);
    if next == P_NONE {
      walk := [current];
      TestedOne(ix, lv, left, current, nextDown);
    } else {
      var more := LevelLoopTested(ix, lv, current, next, down, log', childRounds, rounds - 1, rest);
      walk := [current] + more;
      TestedCons(ix, lv, left, current, nextDown, more, rest.targets);
    }
  }

  lemma NotDeleted(ix: seq<Page>, number: nat, b: Block)
    requires WalkTest(ix, number, b)
    ensures b < |ix| && !ix[b].deleted && (ix[b].next == P_NONE ==> !ix[b].halfDead)
  {
  }

  lemma LiveCons(ix: seq<Page>, b: Block, more: seq<Block>)
    requires b < |ix| && InFile(ix, more)
    ensures InFile(ix, [b] + more)
    ensures Live(ix, [b] + more) == (if Ignore(ix[b]) then [] else [b]) + Live(ix, more)
  {
    assert ([b] + more)[1..] == more;
  }

  // ----- one level -----

  /** A level that is linked as it should be, and leads through the level below it. */
  ghost predicate LevelInOrder(ix: seq<Page>, lv: Level, walk: seq<Block>) {
    && LevelWalk(ix, lv, walk)
    && (lv.number > 0 ==>
          && (forall t <- walk :: !Ignore(ix[t]) ==> NamesInUse(ix, t))
          && exists path, marks :: ChildLevel(ix, lv.number, Below(ix, walk), path, marks))
  }

  lemma InOrderPasses(ix: seq<Page>, lv: Level, walk: seq<Block>, childRounds: nat, rounds: nat)
    requires IsIndex(ix) && LevelInOrder(ix, lv, walk) && childRounds >= |ix| && rounds >= |ix|
    ensures var r := CheckLevel(ix, lv, walk[0], childRounds, rounds);
      r.Done? && r.value.targets == Live(ix, walk)
  {
    hide LevelLoop, WalkTest, Leftmost, NamesInUse, ChildLevel, RightWalk, Below;
    ShortWalk(ix, walk);
    assert walk[0..] == walk;
    var plan := Plan([], [], []);
    if lv.number > 0 {
      var path, marks :| ChildLevel(ix, lv.number, Below(ix, walk), path, marks);
      plan := Plan(Below(ix, walk), path, marks);
      ShortChild(ix, lv.number, plan.ds, path, marks);
      assert plan.ds[0..] == plan.ds;
    }
    LevelLoopPasses(ix, lv, walk, 0, P_NONE, INVALID_BLOCK, EMPTY_LOG, childRounds, rounds, plan, 0);
  }

  lemma ShortWalk(ix: seq<Page>, walk: seq<Block>)
    requires RightWalk(ix, walk) && walk != [] && ix[walk[|walk| - 1]].next == P_NONE
    ensures |walk| <= |ix| && InFile(ix, walk)
  {
    ChainIsDistinct(ix, walk);
    DistinctIsShort(walk, |ix|);
  }

  lemma ShortChild(ix: seq<Page>, targetLevel: nat, ds: seq<Block>, path: seq<Block>, marks: seq<nat>)
    requires ChildLevel(ix, targetLevel, ds, path, marks)
    ensures |path| <= |ix| && Chain(ix, path)
  {
    hide GapsExcused, Leftmost, ChildTest;
    ChainIsDistinct(ix, path);
    DistinctIsShort(path, |ix|);
  }

  lemma PassedIsInOrder(ix: seq<Page>, lv: Level, leftmost: Block, childRounds: nat, rounds: nat, c: Checked) returns (walk: seq<Block>)
    requires IsIndex(ix) && leftmost != P_NONE && CheckLevel(ix, lv, leftmost, childRounds, rounds) == Done(c)
    requires InFile(ix, c.targets) && (lv.number > 0 ==> Clean(ix, Downlinks(ix, c.targets)))
    ensures walk != [] && walk[0] == leftmost && LevelInOrder(ix, lv, walk) && c.targets == Live(ix, walk)
  {
    hide LevelLoop, ChildLevel, NamesInUse, WalkTest, Leftmost, Live, Clean, IsIndex;
    walk := LevelLoopTested(ix, lv, P_NONE, leftmost, INVALID_BLOCK, EMPTY_LOG, childRounds, rounds, c);
    if lv.number > 0 {
      BelowTested(ix, lv, leftmost, childRounds, rounds, c);
      assert Below(ix, walk) == Downlinks(ix, c.targets);
      assert forall t <- walk :: !Ignore(ix[t]) ==> t in c.targets;
    }
  }

  lemma BelowTested(ix: seq<Page>, lv: Level, leftmost: Block, childRounds: nat, rounds: nat, c: Checked)
    requires leftmost != P_NONE && CheckLevel(ix, lv, leftmost, childRounds, rounds) == Done(c) && lv.number > 0
    requires InFile(ix, c.targets) && Clean(ix, Downlinks(ix, c.targets))
    ensures ChildLevel(ix, lv.number, Downlinks(ix, c.targets), c.log.path, c.log.marks)
    ensures forall t <- c.targets :: t < |ix| && NamesInUse(ix, t)
  {
    hide LevelLoop, Clean, ChildTest, NamesInUse;
    var top := LevelVisits(ix, lv, P_NONE, leftmost, INVALID_BLOCK, EMPTY_LOG, childRounds, rounds, c);
    LevelIsRow(ix, lv, P_NONE, leftmost, INVALID_BLOCK, EMPTY_LOG, childRounds, rounds, c);
    EmptyInv(ix);
    var ds := Downlinks(ix, c.targets);
    RowTracks(ix, c.targets, [], EMPTY_LOG, childRounds, c.log);
    assert [] + ds == ds;
    assert forall t <- c.targets :: t < |ix| && ix[t].level == lv.number;
    RowTested(ix, lv.number, c.targets, EMPTY_LOG, childRounds);
  }

  /** After any finished check of a level, no downlink but the first of its page names a deleted page. */
  lemma NoDeletedChild(ix: seq<Page>, lv: Level, leftmost: Block, childRounds: nat, rounds: nat, c: Checked)
    requires leftmost != P_NONE && CheckLevel(ix, lv, leftmost, childRounds, rounds) == Done(c) && lv.number > 0
    ensures forall t <- c.targets :: t < |ix| && NamesInUse(ix, t)
  {
    hide LevelLoop, ChildTest, NamesInUse;
    var top := LevelVisits(ix, lv, P_NONE, leftmost, INVALID_BLOCK, EMPTY_LOG, childRounds, rounds, c);
    LevelIsRow(ix, lv, P_NONE, leftmost, INVALID_BLOCK, EMPTY_LOG, childRounds, rounds, c);
    assert forall t <- c.targets :: t < |ix| && ix[t].level == lv.number;
    RowTested(ix, lv.number, c.targets, EMPTY_LOG, childRounds);
  }

  /** A level is found in order, without reserved numbers among its downlinks, if and only if it is. */
  lemma LevelCheckExact(ix: seq<Page>, lv: Level, leftmost: Block, childRounds: nat, rounds: nat)
    requires IsIndex(ix) && leftmost != P_NONE && childRounds >= |ix| && rounds >= |ix|
    ensures var r := CheckLevel(ix, lv, leftmost, childRounds, rounds);
      (r.Done? && InFile(ix, r.value.targets) && (lv.number > 0 ==> Clean(ix, Downlinks(ix, r.value.targets)))) <==>
      exists walk :: walk != [] && walk[0] == leftmost && LevelInOrder(ix, lv, walk)
  {
    hide CheckLevel, LevelInOrder, Clean;
    var r := CheckLevel(ix, lv, leftmost, childRounds, rounds);
    if r.Done? && InFile(ix, r.value.targets) && (lv.number > 0 ==> Clean(ix, Downlinks(ix, r.value.targets))) {
      var walk := PassedIsInOrder(ix, lv, leftmost, childRounds, rounds, r.value);
    }
    if walk :| walk != [] && walk[0] == leftmost && LevelInOrder(ix, lv, walk) {
      InOrderPasses(ix, lv, walk, childRounds, rounds);
      InOrderIsClean(ix, lv, walk);
    }
  }

  lemma InOrderIsClean(ix: seq<Page>, lv: Level, walk: seq<Block>)
    requires IsIndex(ix) && LevelInOrder(ix, lv, walk)
    ensures InFile(ix, walk) && (lv.number > 0 ==> Clean(ix, Below(ix, walk)))
  {
    hide WalkTest, Leftmost, NamesInUse, Below, Clean;
    if lv.number > 0 {
      var path, marks :| ChildLevel(ix, lv.number, Below(ix, walk), path, marks);
      assert Connected(ix, Below(ix, walk));
      ConnectedIsClean(ix, Below(ix, walk));
    }
  }

  // ----- the whole index -----

  /** From the given level down to the leaves every level is in order, and starts where the one above leads first. */
  ghost predicate IndexInOrder(ix: seq<Page>, lv: Level, leftmost: Block)
    decreases lv.number
  {
    exists walk :: walk != [] && walk[0] == leftmost && LevelInOrder(ix, lv, walk) && NextInOrder(ix, lv, walk)
  }

  ghost predicate NextInOrder(ix: seq<Page>, lv: Level, walk: seq<Block>)
    decreases lv.number, 0
  {
    InFile(ix, walk) && (lv.number > 0 ==> Below(ix, walk) != [] && IndexInOrder(ix, Level(lv.number - 1, false), Below(ix, walk)[0]))
  }

  /** Where the level below a level in order starts. */
  lemma NextIsFirst(ix: seq<Page>, lv: Level, walk: seq<Block>)
    requires IsIndex(ix) && LevelInOrder(ix, lv, walk)
    ensures InFile(ix, walk) && Live(ix, walk) != [] && InFile(ix, Live(ix, walk))
    ensures var next := LevelNext(ix, Live(ix, walk));
      if lv.number == 0 then next == P_NONE
      else Below(ix, walk) != [] && next == Below(ix, walk)[0] && next != P_NONE && next != INVALID_BLOCK
  {
    hide Leftmost, NamesInUse;
    var live := Live(ix, walk);
    var t := live[0];
    assert t in live && WalkTest(ix, lv.number, t);
    if lv.number > 0 {
      assert Downlinks(ix, live) == ix[t].downlinks + Downlinks(ix, live[1..]);
      var path, marks :| ChildLevel(ix, lv.number, Below(ix, walk), path, marks);
      NamedIsReadable(ix, lv.number, Below(ix, walk), path, marks, 0);
    }
  }

  lemma {:induction false} InOrderIsDone(ix: seq<Page>, lv: Level, leftmost: Block, childRounds: nat, rounds: nat)
    requires IsIndex(ix) && leftmost != P_NONE && childRounds >= |ix| && rounds >= |ix| && IndexInOrder(ix, lv, leftmost)
    ensures var r := CheckEveryLevel(ix, lv, leftmost, childRounds, rounds);
      r.Done? && NoZeroLevels(ix, lv.number, r.value)
    decreases lv.number
  {
    hide *;
    var walk := WalkInOrder(ix, lv, leftmost);
    InOrderPasses(ix, lv, walk, childRounds, rounds);
    NextIsFirst(ix, lv, walk);
    if lv.number > 0 {
      NoZeroBelow(ix, lv, walk);
      InOrderIsDone(ix, Level(lv.number - 1, false), Below(ix, walk)[0], childRounds, rounds);
    }
    DoneFrom(ix, lv, walk, childRounds, rounds);
  }

  lemma WalkInOrder(ix: seq<Page>, lv: Level, leftmost: Block) returns (walk: seq<Block>)
    requires IndexInOrder(ix, lv, leftmost)
    ensures walk != [] && walk[0] == leftmost && LevelInOrder(ix, lv, walk) && InFile(ix, walk)
    ensures lv.number > 0 ==> Below(ix, walk) != [] && IndexInOrder(ix, Level(lv.number - 1, false), Below(ix, walk)[0])
  {
    hide LevelInOrder, Below;
    walk :| walk != [] && walk[0] == leftmost && LevelInOrder(ix, lv, walk) && NextInOrder(ix, lv, walk);
  }

  /** A level in order and the levels below it. */
  lemma DoneFrom(ix: seq<Page>, lv: Level, walk: seq<Block>, childRounds: nat, rounds: nat)
    requires walk != [] && InFile(ix, walk) && walk[0] != P_NONE && Live(ix, walk) != []
    requires var r := CheckLevel(ix, lv, walk[0], childRounds, rounds); r.Done? && r.value.targets == Live(ix, walk)
    requires var next := LevelNext(ix, Live(ix, walk));
      if lv.number == 0 then next == P_NONE
      else Below(ix, walk) != [] && next == Below(ix, walk)[0] && next != P_NONE && next != INVALID_BLOCK
    requires lv.number > 0 ==> NoZero(Below(ix, walk))
    requires lv.number > 0 ==>
      var r := CheckEveryLevel(ix, Level(lv.number - 1, false), Below(ix, walk)[0], childRounds, rounds);
      r.Done? && NoZeroLevels(ix, lv.number - 1, r.value)
    ensures var r := CheckEveryLevel(ix, lv, walk[0], childRounds, rounds);
      r.Done? && NoZeroLevels(ix, lv.number, r.value)
  {
    hide CheckLevel, Live, NoZero, Downlinks;
  }

  lemma NoZeroBelow(ix: seq<Page>, lv: Level, walk: seq<Block>)
    requires IsIndex(ix) && LevelInOrder(ix, lv, walk) && InFile(ix, walk) && lv.number > 0
    ensures NoZero(Below(ix, walk))
  {
    hide LevelInOrder, Below;
    InOrderIsClean(ix, lv, walk);
  }

  lemma {:induction false} DoneIsInOrder(ix: seq<Page>, lv: Level, leftmost: Block, childRounds: nat, rounds: nat, levels: seq<Checked>)
    requires IsIndex(ix) && leftmost != P_NONE && CheckEveryLevel(ix, lv, leftmost, childRounds, rounds) == Done(levels)
    requires CleanLevels(ix, lv.number, levels)
    ensures IndexInOrder(ix, lv, leftmost)
    decreases lv.number
  {
    hide CheckLevel, LevelInOrder, Live, Clean, Downlinks;
    var c := levels[0];
    TargetsInFile(ix, lv, leftmost, childRounds, rounds, c);
    var walk := PassedIsInOrder(ix, lv, leftmost, childRounds, rounds, c);
    NextIsFirst(ix, lv, walk);
    if lv.number > 0 {
      var rest := levels[1..];
      assert levels == [c] + rest && forall k :: 0 <= k < |rest| ==> rest[k] == levels[k + 1];
      DoneIsInOrder(ix, Level(lv.number - 1, false), LevelNext(ix, c.targets), childRounds, rounds, rest);
    }
    assert NextInOrder(ix, lv, walk);
  }

  /**
   Given as many rounds as there are blocks, the whole check ends without an error on an index that has no downlink to
   block 0 if and only if the index is in order, level by level.
   */
  lemma IndexCheckExact(ix: seq<Page>, lv: Level, leftmost: Block, childRounds: nat, rounds: nat)
    requires IsIndex(ix) && leftmost != P_NONE && childRounds >= |ix| && rounds >= |ix|
    ensures var r := CheckEveryLevel(ix, lv, leftmost, childRounds, rounds);
      r.Done? && NoZeroLevels(ix, lv.number, r.value) <==> IndexInOrder(ix, lv, leftmost)
  {
    hide CheckEveryLevel, NoZeroLevels, IndexInOrder, CleanLevels;
    var r := CheckEveryLevel(ix, lv, leftmost, childRounds, rounds);
    if r.Done? && NoZeroLevels(ix, lv.number, r.value) {
      NoZeroIsClean(ix, lv, leftmost, childRounds, rounds, r.value);
      DoneIsInOrder(ix, lv, leftmost, childRounds, rounds, r.value);
    }
    if IndexInOrder(ix, lv, leftmost) { InOrderIsDone(ix, lv, leftmost, childRounds, rounds); }
  }

  // ----- an index at rest -----

  /** A level of pages in use whose sibling links agree from one end to the other. */
  predicate PlainLevel(ix: seq<Page>, number: nat, walk: seq<Block>) {
    && walk != [] && RightWalk(ix, walk)
    && ix[walk[0]].prev == P_NONE && ix[walk[|walk| - 1]].next == P_NONE
    && forall b <- walk :: PlainPage(ix, number, b)
  }

  predicate PlainPage(ix: seq<Page>, number: nat, b: Block) {
    b != P_NONE && Readable(ix, b) && !Ignore(ix[b]) && ix[b].level == number
  }

  /** The downlinks of each level name the pages of the next, in order; the first level is the root's. */
  predicate PlainIndex(ix: seq<Page>, levels: seq<seq<Block>>) {
    && IsIndex(ix) && levels != []
    && (forall k :: 0 <= k < |levels| ==> PlainLevel(ix, |levels| - 1 - k, levels[k]))
    && (forall k, j :: 0 <= k && j == k + 1 < |levels| ==> InFile(ix, levels[k]) && Downlinks(ix, levels[k]) == levels[j])
    && levels[0][0] < |ix| && ix[levels[0][0]].root
  }

  lemma PlainLink(ix: seq<Page>, walk: seq<Block>, i: nat)
    requires RightWalk(ix, walk) && i < |walk| && ix[walk[0]].prev == P_NONE && ix[walk[|walk| - 1]].next == P_NONE && !ix[walk[i]].halfDead
    ensures ix[walk[i]].prev != walk[i]
  {
    if i > 0 {
      var h := i - 1;
      assert ix[walk[i]].prev == walk[h];
      ChainIsDistinct(ix, walk);
    }
  }

  lemma PlainTests(ix: seq<Page>, number: nat, walk: seq<Block>)
    requires PlainLevel(ix, number, walk)
    ensures forall b <- walk :: WalkTest(ix, number, b) && ChildTest(ix, number + 1, b)
  {
    hide RightWalk;
    forall b | b in walk ensures WalkTest(ix, number, b) && ChildTest(ix, number + 1, b) {
      var i :| 0 <= i < |walk| && walk[i] == b;
      assert PlainPage(ix, number, b);
      PlainLink(ix, walk, i);
    }
  }

  lemma FirstIsLeftmost(ix: seq<Page>, b: Block)
    requires b < |ix| && ix[b].prev == P_NONE
    ensures Leftmost(ix, b)
  {
    assert LeftChain(ix, [b]);
  }

  lemma PlainLive(ix: seq<Page>, number: nat, walk: seq<Block>)
    requires PlainLevel(ix, number, walk)
    ensures InFile(ix, walk) && Live(ix, walk) == walk
  {
    hide Live;
    forall b | b in walk ensures !Ignore(ix[b]) { assert PlainPage(ix, number, b); }
    AllLive(ix, walk);
  }

  lemma PlainWalk(ix: seq<Page>, lv: Level, walk: seq<Block>)
    requires PlainLevel(ix, lv.number, walk) && (lv.trueRoot ==> ix[walk[0]].root)
    ensures LevelWalk(ix, lv, walk)
  {
    PlainLive(ix, lv.number, walk);
    PlainTests(ix, lv.number, walk);
    FirstIsLeftmost(ix, walk[0]);
    hide RightWalk, WalkTest, ChildTest, Leftmost, PlainPage, Live;
  }

  lemma {:induction false} AllLive(ix: seq<Page>, walk: seq<Block>)
    requires InFile(ix, walk) && forall b <- walk :: !Ignore(ix[b])
    ensures Live(ix, walk) == walk
  {
    if walk != [] {
      assert walk[0] in walk;
      AllLive(ix, walk[1..]);
    }
  }

  /** The positions of all pages of a level. */
  function AllMarks(n: nat): (marks: seq<nat>)
    ensures |marks| == n && forall i :: 0 <= i < n ==> marks[i] == i
  {
    seq(n, i => i)
  }

  lemma PlainBelow(ix: seq<Page>, number: nat, walk: seq<Block>)
    requires PlainLevel(ix, number, walk)
    ensures ChildLevel(ix, number + 1, walk, walk, AllMarks(|walk|))
  {
    PlainTests(ix, number, walk);
    FirstIsLeftmost(ix, walk[0]);
    NoGaps(ix, walk);
    hide WalkTest, ChildTest, Leftmost, PlainPage, GapsExcused;
    assert Marked(walk, walk, AllMarks(|walk|));
  }

  lemma NoGaps(ix: seq<Page>, path: seq<Block>)
    requires Chain(ix, path)
    ensures GapsExcused(ix, path, AllMarks(|path|))
  {
    hide Excused;
    forall i | 0 <= i < |path| ensures i in AllMarks(|path|) { assert AllMarks(|path|)[i] == i; }
  }

  lemma PlainInOrder(ix: seq<Page>, lv: Level, walk: seq<Block>, next: seq<Block>)
    requires PlainLevel(ix, lv.number, walk) && (lv.trueRoot ==> ix[walk[0]].root) && InFile(ix, walk)
    requires lv.number > 0 ==> PlainLevel(ix, lv.number - 1, next) && Downlinks(ix, walk) == next
    ensures LevelInOrder(ix, lv, walk) && (lv.number > 0 ==> Below(ix, walk) == next)
  {
    hide PlainLevel, LevelWalk, ChildLevel, NamesInUse, Live, InFile, Downlinks;
    PlainWalk(ix, lv, walk);
    PlainLive(ix, lv.number, walk);
    if lv.number > 0 {
      PlainBelow(ix, lv.number - 1, next);
      PlainNames(ix, walk, next, lv.number - 1);
      assert ChildLevel(ix, lv.number, Below(ix, walk), next, AllMarks(|next|));
    }
  }

  lemma {:induction false} PlainFrom(ix: seq<Page>, levels: seq<seq<Block>>, k: nat)
    requires PlainIndex(ix, levels) && k < |levels|
    ensures levels[k] != [] && IndexInOrder(ix, Level(|levels| - 1 - k, k == 0), levels[k][0])
    decreases |levels| - k
  {
    var lv, walk, j := Level(|levels| - 1 - k, k == 0), levels[k], k + 1;
    assert walk != [] && InFile(ix, walk) by { assert PlainLevel(ix, |levels| - 1 - k, levels[k]); }
    hide LevelInOrder, PlainLevel;
    if lv.number > 0 {
      PlainFrom(ix, levels, j);
      assert Downlinks(ix, levels[k]) == levels[j];
      PlainInOrder(ix, lv, walk, levels[j]);
    } else {
      PlainInOrder(ix, lv, walk, []);
    }
    assert NextInOrder(ix, lv, walk);
  }

  lemma PlainNames(ix: seq<Page>, walk: seq<Block>, next: seq<Block>, number: nat)
    requires InFile(ix, walk) && PlainLevel(ix, number, next) && Downlinks(ix, walk) == next
    ensures forall t <- walk :: NamesInUse(ix, t)
  {
    hide RightWalk;
    forall t, k | t in walk && 0 < k < |ix[t].downlinks|
      ensures ix[t].downlinks[k] < |ix| && !ix[ix[t].downlinks[k]].deleted
    {
      NamedBelow(ix, walk, t, k);
      assert PlainPage(ix, number, ix[t].downlinks[k]);
    }
  }

  lemma {:induction false} NamedBelow(ix: seq<Page>, walk: seq<Block>, t: Block, k: nat)
    requires InFile(ix, walk) && t in walk && k < |ix[t].downlinks|
    ensures ix[t].downlinks[k] in Downlinks(ix, walk)
  {
    if t != walk[0] { NamedBelow(ix, walk[1..], t, k); }
  }

  /** An index at rest passes. */
  lemma PlainIndexPasses(ix: seq<Page>, levels: seq<seq<Block>>, childRounds: nat, rounds: nat)
    requires PlainIndex(ix, levels) && childRounds >= |ix| && rounds >= |ix|
    ensures CheckEveryLevel(ix, Level(|levels| - 1, true), levels[0][0], childRounds, rounds).Done?
  {
    hide CheckEveryLevel, IndexInOrder, Readable;
    PlainFrom(ix, levels, 0);
    assert PlainLevel(ix, |levels| - 1 - 0, levels[0]) && levels[0][0] in levels[0];
    IndexCheckExact(ix, Level(|levels| - 1, true), levels[0][0], childRounds, rounds);
  }
}

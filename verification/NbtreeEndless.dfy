/**
 The walk of `bt_check_level_from_leftmost` (contrib/amcheck/verify_nbtree.c): exactly when it goes on for
 ever, in terms of the links; below a level that passed it ends.
 */
module NbtreeEndless {
  import opened NbtreeIndex
  import opened NbtreeLevel
  import opened NbtreeWalk
  import opened NbtreeTree
  import opened Orbit

  /** Where the walk of `bt_check_level_from_leftmost` stands, with what it remembers. */
  datatype Spot = Spot(left: Block, current: Block, nextDown: Block, saved: Saved)

  /** The check of the page at a spot. */
  function SpotCheck(ix: seq<Page>, lv: Level, childRounds: nat, s: Spot): Outcome<Log> {
    TargetCheck(ix, lv, s.left, s.current, s.nextDown, Log(s.saved, [], []), childRounds)
  }

  /** The page passes and has a right link. */
  function LevelPasses(ix: seq<Page>, lv: Level, childRounds: nat): Spot -> bool {
    (s: Spot) => SpotCheck(ix, lv, childRounds, s).Done? && ix[s.current].next != P_NONE
  }

  /** The page to the right. */
  function LevelStep(ix: seq<Page>, lv: Level, childRounds: nat): Spot -> Spot {
    (s: Spot) =>
      if SpotCheck(ix, lv, childRounds, s).Done? then
        var p := ix[s.current];
        Spot(s.current, p.next, NextLevelDown(p, s.nextDown), SpotCheck(ix, lv, childRounds, s).value.saved)
      else s
  }

  function LevelStart(leftmost: Block): Spot { Spot(P_NONE, leftmost, INVALID_BLOCK, FRESH) }

  /** What a page check does depends on the log only through what is remembered. */
  lemma {:induction false} ItemsBySaved(ix: seq<Page>, t: Block, k: nat, a: Log, b: Log, rounds: nat)
    requires t < |ix| && k <= |ix[t].downlinks| && a.saved == b.saved
    ensures var r, q := Items(ix, t, k, a, rounds), Items(ix, t, k, b, rounds);
      (r.Done? <==> q.Done?) && (r.Done? ==> r.value.saved == q.value.saved)
    decreases |ix[t].downlinks| - k
  {
    hide ChildCheck;
    if k < |ix[t].downlinks| {
      var d := ix[t].downlinks[k];
      var r := ChildCheck(ix, a.saved, d, ix[t].level, rounds);
      if r.Done? { ItemsBySaved(ix, t, k + 1, AddVisit(a, d, r.value), AddVisit(b, d, r.value), rounds); }
    }
  }

  lemma SpotBySaved(ix: seq<Page>, lv: Level, childRounds: nat, s: Spot, log: Log)
    requires log.saved == s.saved
    ensures var r := TargetCheck(ix, lv, s.left, s.current, s.nextDown, log, childRounds);
      var q := SpotCheck(ix, lv, childRounds, s);
      (r.Done? <==> q.Done?) && (r.Done? ==> r.value.saved == q.value.saved)
  {
    hide Items, TargetPasses;
    if Readable(ix, s.current) {
      ItemsBySaved(ix, s.current, 0, log, Log(s.saved, [], []), childRounds);
    }
  }

  /** The walk is still going on after some rounds exactly when it passes all pages up to there. */
  lemma {:induction false} LevelRunningIsPassing(ix: seq<Page>, lv: Level, childRounds: nat, s: Spot, log: Log, rounds: nat)
    requires log.saved == s.saved
    ensures LevelLoop(ix, lv, s.left, s.current, s.nextDown, log, childRounds, rounds).LevelRunning? <==>
      PassesFor(LevelStep(ix, lv, childRounds), LevelPasses(ix, lv, childRounds), s, rounds)
    decreases rounds
  {
    hide TargetCheck, PassesFor;
    var step, pass := LevelStep(ix, lv, childRounds), LevelPasses(ix, lv, childRounds);
    SpotBySaved(ix, lv, childRounds, s, log);
    if rounds == 0 {
      PassesNow(step, pass, s);
    } else {
      PassesNext(step, pass, s, rounds);
      if pass(s) {
        var log' := TargetCheck(ix, lv, s.left, s.current, s.nextDown, log, childRounds).value;
        LevelRunningIsPassing(ix, lv, childRounds, step(s), log', rounds - 1);
      }
    }
  }

  // ----- the walk has finitely many spots -----

  /** What a child check may leave remembered. */
  function Saveds(ix: seq<Page>): set<Saved> {
    {FRESH} + set d | 0 <= d < |ix| :: Saved(ix[d].next, ix[d].incompleteSplit)
  }

  function Nexts(ix: seq<Page>): set<Block> {
    {INVALID_BLOCK, P_NONE} + set b | 0 <= b < |ix| && ix[b].downlinks != [] :: ix[b].downlinks[0]
  }

  function Blocks(n: nat): (all: set<Block>)
    ensures forall b: Block :: b in all <==> b < n
  {
    if n == 0 then {} else Blocks(n - 1) + {n - 1}
  }

  function Spots(ix: seq<Page>): set<Spot> {
    set l <- Blocks(|ix| + 1), c <- Blocks(|ix|), n <- Nexts(ix), v <- Saveds(ix) :: Spot(l, c, n, v)
  }

  lemma {:induction false} ChildLoopSaved(ix: seq<Page>, saved: Saved, downlink: Block, targetLevel: nat,
                                          blkno: Block, rightsplit: bool, first: bool, rounds: nat)
    requires ChildLoop(ix, saved, downlink, targetLevel, blkno, rightsplit, first, rounds).Done?
    ensures ChildLoop(ix, saved, downlink, targetLevel, blkno, rightsplit, first, rounds).value.saved in Saveds(ix)
    decreases rounds
  {
    if blkno != P_NONE && blkno != downlink && rounds > 0 {
      var p := ix[blkno];
      ChildLoopSaved(ix, saved, downlink, targetLevel, p.next, p.incompleteSplit, false, rounds - 1);
    }
  }

  lemma {:induction false} ItemsSaved(ix: seq<Page>, t: Block, k: nat, log: Log, rounds: nat)
    requires t < |ix| && k <= |ix[t].downlinks| && log.saved in Saveds(ix) && Items(ix, t, k, log, rounds).Done?
    ensures Items(ix, t, k, log, rounds).value.saved in Saveds(ix)
    decreases |ix[t].downlinks| - k
  {
    hide Saveds;
    var d := if k < |ix[t].downlinks| then ix[t].downlinks[k] else P_NONE;
    var blkno := if log.saved.right == INVALID_BLOCK then d else log.saved.right;
    var split := log.saved.right != INVALID_BLOCK && log.saved.split;
    if k < |ix[t].downlinks| {
      ChildLoopSaved(ix, log.saved, d, ix[t].level, blkno, split, true, rounds);
      hide ChildLoop;
      ItemsSaved(ix, t, k + 1, AddVisit(log, d, ChildCheck(ix, log.saved, d, ix[t].level, rounds).value), rounds);
    } else if ix[t].next == P_NONE {
      ChildLoopSaved(ix, log.saved, d, ix[t].level, blkno, split, true, rounds);
    }
  }

  /** A step from one of the spots leads to one, or to a page that does not pass. */
  lemma SpotsClosed(ix: seq<Page>, lv: Level, childRounds: nat, s: Spot)
    requires s in Spots(ix) && LevelPasses(ix, lv, childRounds)(s)
    requires LevelPasses(ix, lv, childRounds)(LevelStep(ix, lv, childRounds)(s))
    ensures LevelStep(ix, lv, childRounds)(s) in Spots(ix)
  {
    hide TargetPasses, Saveds, Items;
    var p := ix[s.current];
    if !(Ignore(p) || p.leaf) { ItemsSaved(ix, s.current, 0, Log(s.saved, [], []), childRounds); }
    var r := LevelStep(ix, lv, childRounds)(s);
    assert r.left in Blocks(|ix| + 1) && r.current in Blocks(|ix|) && r.saved in Saveds(ix);
    assert r.nextDown in Nexts(ix);
  }

  lemma {:induction false} SpotsReached(ix: seq<Page>, lv: Level, childRounds: nat, s: Spot, n: nat)
    requires s in Spots(ix) && PassesFor(LevelStep(ix, lv, childRounds), LevelPasses(ix, lv, childRounds), s, n)
    ensures At(LevelStep(ix, lv, childRounds), s, n) in Spots(ix)
  {
    hide LevelStep, LevelPasses, Spots;
    if n > 0 {
      SpotsReached(ix, lv, childRounds, s, n - 1);
      var pass := LevelPasses(ix, lv, childRounds);
      assert pass(At(LevelStep(ix, lv, childRounds), s, n - 1)) && pass(At(LevelStep(ix, lv, childRounds), s, n));
      SpotsClosed(ix, lv, childRounds, At(LevelStep(ix, lv, childRounds), s, n - 1));
    }
  }

  lemma LevelSpotsAreFew(ix: seq<Page>, lv: Level, childRounds: nat, s: Spot)
    requires s in Spots(ix)
    requires PassesFor(LevelStep(ix, lv, childRounds), LevelPasses(ix, lv, childRounds), s, |Spots(ix)|)
    ensures ComesRound(LevelStep(ix, lv, childRounds), LevelPasses(ix, lv, childRounds), s)
  {
    hide LevelStep, LevelPasses, Spots;
    var step, pass := LevelStep(ix, lv, childRounds), LevelPasses(ix, lv, childRounds);
    forall k | 0 <= k <= |Spots(ix)| ensures At(step, s, k) in Spots(ix) {
      assert PassesFor(step, pass, s, k);
      SpotsReached(ix, lv, childRounds, s, k);
    }
    PassesIsRound(step, pass, s, Spots(ix));
  }

  /** However many rounds it is given, the walk is not over. */
  ghost predicate LevelGoesOn(ix: seq<Page>, lv: Level, leftmost: Block, childRounds: nat) {
    forall n: nat :: CheckLevel(ix, lv, leftmost, childRounds, n).LevelRunning?
  }

  /**
   The walk of a level goes on for ever if and only if it comes round to a page it met before with the same
   left neighbour and the same things remembered, over pages that all pass and have a right link.
   */
  lemma LevelWalkNeverEnds(ix: seq<Page>, lv: Level, leftmost: Block, childRounds: nat)
    ensures LevelGoesOn(ix, lv, leftmost, childRounds) <==>
      ComesRound(LevelStep(ix, lv, childRounds), LevelPasses(ix, lv, childRounds), LevelStart(leftmost))
  {
    var step, pass, s := LevelStep(ix, lv, childRounds), LevelPasses(ix, lv, childRounds), LevelStart(leftmost);
    forall n: nat ensures CheckLevel(ix, lv, leftmost, childRounds, n).LevelRunning? <==> PassesFor(step, pass, s, n) {
      LevelRunningIsPassing(ix, lv, childRounds, s, EMPTY_LOG, n);
    }
    hide CheckLevel, PassesFor, LevelStep, LevelPasses;
    if ComesRound(step, pass, s) { RoundForEver(step, pass, s); }
    if forall n: nat :: CheckLevel(ix, lv, leftmost, childRounds, n).LevelRunning? {
      assert CheckLevel(ix, lv, leftmost, childRounds, 0).LevelRunning?;
      StartIsSpot(ix, lv, leftmost, childRounds);
      assert CheckLevel(ix, lv, leftmost, childRounds, |Spots(ix)|).LevelRunning?;
      LevelSpotsAreFew(ix, lv, childRounds, s);
    }
  }

  /** So it ends within as many rounds as there are spots, or never. */
  lemma LevelWalkEndsSoonOrNever(ix: seq<Page>, lv: Level, leftmost: Block, childRounds: nat, n: nat)
    requires CheckLevel(ix, lv, leftmost, childRounds, |Spots(ix)|).LevelRunning?
    ensures CheckLevel(ix, lv, leftmost, childRounds, n).LevelRunning?
  {
    var step, pass, s := LevelStep(ix, lv, childRounds), LevelPasses(ix, lv, childRounds), LevelStart(leftmost);
    LevelRunningIsPassing(ix, lv, childRounds, s, EMPTY_LOG, |Spots(ix)|);
    LevelRunningIsPassing(ix, lv, childRounds, s, EMPTY_LOG, 0);
    assert PassesFor(step, pass, s, |Spots(ix)|) ==> PassesFor(step, pass, s, 0);
    hide CheckLevel, PassesFor, LevelStep, LevelPasses;
    StartIsSpot(ix, lv, leftmost, childRounds);
    LevelSpotsAreFew(ix, lv, childRounds, s);
    LevelWalkNeverEnds(ix, lv, leftmost, childRounds);
  }

  lemma StartIsSpot(ix: seq<Page>, lv: Level, leftmost: Block, childRounds: nat)
    requires CheckLevel(ix, lv, leftmost, childRounds, 0).LevelRunning?
    ensures LevelStart(leftmost) in Spots(ix)
  {
    assert leftmost in Blocks(|ix|) && P_NONE in Blocks(|ix| + 1) && INVALID_BLOCK in Nexts(ix) && FRESH in Saveds(ix);
  }

  /** On the leaf level only the header of a page decides, and nothing is remembered of a level below. */
  lemma LeafSpotPasses(ix: seq<Page>, lv: Level, childRounds: nat, s: Spot)
    requires lv.number == 0 && s.current != P_NONE
    ensures LevelPasses(ix, lv, childRounds)(s) <==>
      && Readable(ix, s.current) && TargetPasses(ix, lv, s.left, s.current, s.nextDown)
      && s.current != s.left && s.current != ix[s.current].prev && ix[s.current].next != P_NONE
    ensures LevelStep(ix, lv, childRounds)(s).saved == s.saved
  {
    if Readable(ix, s.current) && TargetPasses(ix, lv, s.left, s.current, s.nextDown) {
      PassedPage(ix, lv, s.left, s.current, s.nextDown);
    }
  }

  // ----- below a level that passed, the walk ends -----

  /** No chain is longer than one that reaches the end of the level from the same page. */
  lemma ChainIsLongest(ix: seq<Page>, a: seq<Block>, b: seq<Block>)
    requires Chain(ix, a) && Chain(ix, b) && a != [] && b != [] && a[0] == b[0] && ix[a[|a| - 1]].next == P_NONE
    ensures |b| <= |a| < |ix|
  {
    ChainStays(ix, a, b, |b| - 1);
    ChainIsDistinct(ix, a);
    DistinctIsShort(a + [P_NONE], |ix|);
  }

  /** A walk that starts at the first downlink of a level that passed ends within as many rounds as there are blocks. */
  lemma LowerWalkEnds(ix: seq<Page>, lv: Level, leftmost: Block, childRounds: nat, rounds: nat, c: Checked, low: Level, n: nat)
    requires IsIndex(ix) && lv.number > 0 && leftmost != P_NONE && n >= |ix|
    requires CheckLevel(ix, lv, leftmost, childRounds, rounds) == Done(c)
    requires InFile(ix, c.targets) && Clean(ix, Downlinks(ix, c.targets))
    ensures !CheckLevel(ix, low, LevelNext(ix, c.targets), childRounds, n).LevelRunning?
  {
    hide LevelLoop, Clean;
    LevelCheckIsSound(ix, lv, leftmost, childRounds, rounds);
    var path, marks :| Covers(ix, Downlinks(ix, c.targets), path, marks);
    FirstBelow(ix, lv, leftmost, childRounds, rounds, c, path, marks);
    var r := CheckLevel(ix, low, path[0], childRounds, n);
    if r.LevelRunning? {
      RunningIsWalk(ix, low, P_NONE, path[0], INVALID_BLOCK, EMPTY_LOG, childRounds, n, r.visited);
      ChainIsLongest(ix, path, r.visited);
    }
  }

  /** Every level above the leaves that the check got through has no reserved number among its downlinks. */
  ghost predicate CleanDown(ix: seq<Page>, lv: Level, leftmost: Block, childRounds: nat, rounds: nat)
    decreases lv.number
  {
    var r := CheckLevel(ix, lv, leftmost, childRounds, rounds);
    leftmost != P_NONE && lv.number > 0 && r.Done? ==>
      && InFile(ix, r.value.targets) && Clean(ix, Downlinks(ix, r.value.targets))
      && CleanDown(ix, Level(lv.number - 1, false), LevelNext(ix, r.value.targets), childRounds, rounds)
  }

  /**
   So a check of the whole index whose passed levels are clean can go round for ever, if at all, only on the
   level of the root.
   */
  lemma OnlyTheRootLevelGoesOn(ix: seq<Page>, lv: Level, root: Block, childRounds: nat, rounds: nat)
    requires IsIndex(ix) && rounds >= |ix| && CleanDown(ix, lv, root, childRounds, rounds) && root != P_NONE
    ensures CheckEveryLevel(ix, lv, root, childRounds, rounds).LevelRunning? <==>
      CheckLevel(ix, lv, root, childRounds, rounds).LevelRunning?
    decreases lv.number
  {
    hide CheckLevel, Clean;
    var r := CheckLevel(ix, lv, root, childRounds, rounds);
    if r.Done? && lv.number > 0 {
      var c, low := r.value, Level(lv.number - 1, false);
      InnerHasNext(ix, lv, root, childRounds, rounds, c);
      LowerWalkEnds(ix, lv, root, childRounds, rounds, c, low, rounds);
      OnlyTheRootLevelGoesOn(ix, low, LevelNext(ix, c.targets), childRounds, rounds);
    }
  }
}

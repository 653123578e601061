/**
 The check of a whole B-tree index, level by level from the root down (contrib/amcheck/verify_nbtree.c,
 `bt_check_every_level`), and what its success says about the tree.
 */
module NbtreeTree {
  import opened NbtreeIndex
  import opened NbtreeLevel
  import opened NbtreeWalk

  /** The pages of a walk that are in use. */
  function Live(ix: seq<Page>, path: seq<Block>): (live: seq<Block>)
    requires InFile(ix, path)
    ensures InFile(ix, live)
    ensures forall b :: b in live <==> b in path && !Ignore(ix[b])
  {
    if path == [] then []
    else (if Ignore(ix[path[0]]) then [] else [path[0]]) + Live(ix, path[1..])
  }

  /** Walking a level to its end: a chain of right links from the first page, of which the pages in use were checked. */
  lemma {:induction false} LevelVisits(ix: seq<Page>, lv: Level, left: Block, current: Block, nextDown: Block, log: Log,
                                       childRounds: nat, rounds: nat, c: Checked)
    returns (path: seq<Block>)
    requires current != P_NONE
    requires LevelLoop(ix, lv, left, current, nextDown, log, childRounds, rounds) == Done(c)
    ensures path != [] && path[0] == current && Chain(ix, path) && ix[path[|path| - 1]].next == P_NONE
    ensures c.targets != [] && c.targets == Live(ix, path) && forall b <- path :: !ix[b].deleted
    ensures forall t <- c.targets :: ix[t].level == lv.number && (ix[t].leaf <==> lv.number == 0)
    decreases rounds
  {
    hide TargetPasses, LevelLoop;
    var log', rest := LevelUnfolds(ix, lv, left, current, nextDown, log, childRounds, rounds, c);
    var p := ix[current];
    PassedPage(ix, lv, left, current, nextDown);
    if p.next == P_NONE {
      path := [current];
    } else {
      var more := LevelVisits(ix, lv, current, p.next, NextLevelDown(p, nextDown), log', childRounds, rounds - 1, rest);
      path := [current] + more;
      ChainCons(ix, current, more);
      assert path[1..] == more;
    }
  }

  lemma PassedPage(ix: seq<Page>, lv: Level, left: Block, current: Block, nextDown: Block)
    requires current != P_NONE && Readable(ix, current) && TargetPasses(ix, lv, left, current, nextDown)
    ensures !Ignore(ix[current]) ==> ix[current].level == lv.number && (ix[current].leaf <==> lv.number == 0)
    ensures Ignore(ix[current]) ==> ix[current].next != P_NONE
    ensures !ix[current].deleted
  {
  }

  lemma ChainCons(ix: seq<Page>, b: Block, more: seq<Block>)
    requires b != P_NONE && b < |ix| && Chain(ix, more) && more != [] && more[0] == ix[b].next
    ensures Chain(ix, [b] + more)
  {
    var path := [b] + more;
    forall i, j | 0 <= i && j == i + 1 < |path| ensures path[j] == ix[path[i]].next {
      if i > 0 {
        var h, k := i - 1, j - 1;
        assert more[k] == ix[more[h]].next;
      }
    }
  }

  /** Two chains from the same page to the end of the level are the same. */
  lemma {:induction false} ChainUnique(ix: seq<Page>, a: seq<Block>, b: seq<Block>)
    requires a != [] && b != [] && Chain(ix, a) && Chain(ix, b) && a[0] == b[0]
    requires ix[a[|a| - 1]].next == P_NONE && ix[b[|b| - 1]].next == P_NONE
    ensures a == b
    decreases |a|
  {
    ChainLength(ix, a);
    ChainLength(ix, b);
    if |a| > 1 {
      ChainTail(ix, a);
      ChainTail(ix, b);
      ChainUnique(ix, a[1..], b[1..]);
    }
    assert a == [a[0]] + a[1..] && b == [b[0]] + b[1..];
  }

  /** A chain to the end of the level goes on exactly when its first page has a right link. */
  lemma ChainLength(ix: seq<Page>, a: seq<Block>)
    requires a != [] && Chain(ix, a) && ix[a[|a| - 1]].next == P_NONE
    ensures |a| > 1 <==> ix[a[0]].next != P_NONE
    ensures |a| > 1 ==> a[1] == ix[a[0]].next
  {
    if |a| > 1 {
      var zero, one := 0, 1;
      assert a[one] == ix[a[zero]].next;
    }
  }

  lemma ChainTail(ix: seq<Page>, a: seq<Block>)
    requires Chain(ix, a) && a != []
    ensures Chain(ix, a[1..])
  {
    var t := a[1..];
    forall i, j | 0 <= i && j == i + 1 < |t| ensures t[j] == ix[t[i]].next {
      var h, k := i + 1, j + 1;
      assert a[k] == ix[a[h]].next;
    }
  }

  // ----- bt_check_every_level -----

  /** Where the level below starts: the first downlink of the first page in use. */
  function LevelNext(ix: seq<Page>, targets: seq<Block>): Block
    requires InFile(ix, targets)
  {
    if targets == [] then INVALID_BLOCK
    else
      var d := NextLevelDown(ix[targets[0]], INVALID_BLOCK);
      if d != INVALID_BLOCK then d else LevelNext(ix, targets[1..])
  }

  lemma TargetsInFile(ix: seq<Page>, lv: Level, leftmost: Block, childRounds: nat, rounds: nat, c: Checked)
    requires leftmost != P_NONE && CheckLevel(ix, lv, leftmost, childRounds, rounds) == Done(c)
    ensures InFile(ix, c.targets)
  {
    hide LevelLoop;
    var path := LevelVisits(ix, lv, P_NONE, leftmost, INVALID_BLOCK, EMPTY_LOG, childRounds, rounds, c);
    assert forall i :: 0 <= i < |c.targets| ==> c.targets[i] in path;
  }

  /** The levels from `leftmost` down, each as it was checked. */
  function CheckEveryLevel(ix: seq<Page>, lv: Level, leftmost: Block, childRounds: nat, rounds: nat): Outcome<seq<Checked>>
    decreases lv.number
  {
    if leftmost == P_NONE then Done([])
    else
      match CheckLevel(ix, lv, leftmost, childRounds, rounds)
      case Raised => Raised
      case LevelRunning(path) => LevelRunning(path)
      case ChildRunning(path) => ChildRunning(path)
      case Done(c) =>
        TargetsInFile(ix, lv, leftmost, childRounds, rounds, c);
        var next := LevelNext(ix, c.targets);
        if next == INVALID_BLOCK then Raised
        else if next == P_NONE then Done([c])
        else if lv.number == 0 then Raised
        else
          match CheckEveryLevel(ix, Level(lv.number - 1, false), next, childRounds, rounds)
          case Raised => Raised
          case LevelRunning(path) => LevelRunning(path)
          case ChildRunning(path) => ChildRunning(path)
          case Done(levels) => Done([c] + levels)
  }

  /** A page in use that no downlink names, and why that is no fault. */
  ghost predicate Orphan(ix: seq<Page>, b: Block) {
    b < |ix| && (ix[b].root || InterruptedDeletion(ix, b) || exists l: Block :: l < |ix| && ix[l].next == b && ix[l].incompleteSplit)
  }

  /**
   The pages in use of one level against the level above: each is named by exactly one downlink or has an
   excuse, and each downlink names one of them, or a half-dead page that the walk of the level passed over.
   */
  ghost predicate LinkedTo(ix: seq<Page>, above: seq<Block>, below: seq<Block>) {
    && InFile(ix, above)
    && Distinct(Downlinks(ix, above))
    && (forall t <- below :: t in Downlinks(ix, above) || Orphan(ix, t))
    && (forall d <- Downlinks(ix, above) :: d != P_NONE && (d in below || (d < |ix| && ix[d].halfDead)))
  }

  /** The walk of the level below is the chain that the downlinks of this level lead along. */
  lemma NextLevelIsPath(ix: seq<Page>, lv: Level, leftmost: Block, childRounds: nat, rounds: nat, c: Checked, low: Level, d: Checked)
    returns (path: seq<Block>, marks: seq<nat>)
    requires IsIndex(ix) && lv.number > 0 && leftmost != P_NONE
    requires CheckLevel(ix, lv, leftmost, childRounds, rounds) == Done(c)
    requires InFile(ix, c.targets) && Clean(ix, Downlinks(ix, c.targets))
    requires LevelNext(ix, c.targets) != P_NONE
    requires CheckLevel(ix, low, LevelNext(ix, c.targets), childRounds, rounds) == Done(d)
    ensures Covers(ix, Downlinks(ix, c.targets), path, marks)
    ensures d.targets == Live(ix, path) && forall b <- path :: !ix[b].deleted
  {
    hide LevelLoop, Clean, Row;
    LevelCheckIsSound(ix, lv, leftmost, childRounds, rounds);
    path, marks :| Covers(ix, Downlinks(ix, c.targets), path, marks);
    FirstBelow(ix, lv, leftmost, childRounds, rounds, c, path, marks);
    var walk := LevelVisits(ix, low, P_NONE, path[0], INVALID_BLOCK, EMPTY_LOG, childRounds, rounds, d);
    ChainUnique(ix, path, walk);
  }

  /** One level and the next. */
  lemma LevelsLink(ix: seq<Page>, lv: Level, leftmost: Block, childRounds: nat, rounds: nat, c: Checked, low: Level, d: Checked)
    requires IsIndex(ix) && lv.number > 0 && leftmost != P_NONE
    requires CheckLevel(ix, lv, leftmost, childRounds, rounds) == Done(c)
    requires InFile(ix, c.targets) && Clean(ix, Downlinks(ix, c.targets))
    requires LevelNext(ix, c.targets) != P_NONE
    requires CheckLevel(ix, low, LevelNext(ix, c.targets), childRounds, rounds) == Done(d)
    ensures LinkedTo(ix, c.targets, d.targets)
  {
    hide CheckLevel, Clean, Covers, Downlinks, Live, Orphan;
    var path, marks := NextLevelIsPath(ix, lv, leftmost, childRounds, rounds, c, low, d);
    var ds := Downlinks(ix, c.targets);
    NoChildTwice(ix, ds);
    forall t | t in d.targets ensures t in ds || Orphan(ix, t) {
      var i :| 0 <= i < |path| && path[i] == t;
      PlaceInPath(ix, ds, path, marks, i);
    }
    forall e | e in ds ensures e != P_NONE && (e in d.targets || (e < |ix| && ix[e].halfDead)) {
      DownlinkOnPath(ix, ds, path, marks, e);
    }
  }

  lemma DownlinkOnPath(ix: seq<Page>, ds: seq<Block>, path: seq<Block>, marks: seq<nat>, e: Block)
    requires Covers(ix, ds, path, marks) && e in ds
    ensures e in path && e != P_NONE && e < |ix|
  {
    hide GapsExcused, Leftmost;
    var i :| 0 <= i < |ds| && ds[i] == e;
    assert path[marks[i]] == e;
  }

  /** The level below starts at the first downlink. */
  lemma FirstBelow(ix: seq<Page>, lv: Level, leftmost: Block, childRounds: nat, rounds: nat, c: Checked,
                   path: seq<Block>, marks: seq<nat>)
    requires IsIndex(ix) && lv.number > 0 && leftmost != P_NONE
    requires CheckLevel(ix, lv, leftmost, childRounds, rounds) == Done(c)
    requires InFile(ix, c.targets) && Covers(ix, Downlinks(ix, c.targets), path, marks)
    ensures path != [] && path[0] == Downlinks(ix, c.targets)[0] == LevelNext(ix, c.targets)
  {
    hide LevelLoop, GapsExcused, Leftmost;
    var walk := LevelVisits(ix, lv, P_NONE, leftmost, INVALID_BLOCK, EMPTY_LOG, childRounds, rounds, c);
    LevelIsRow(ix, lv, P_NONE, leftmost, INVALID_BLOCK, EMPTY_LOG, childRounds, rounds, c);
    var t := c.targets[0];
    assert t in c.targets && !ix[t].leaf && ix[t].downlinks != [];
    var ds := Downlinks(ix, c.targets);
    assert ds[0] == ix[t].downlinks[0];
    assert marks[0] == 0 && path[marks[0]] == ds[0];
  }

  lemma PlaceInPath(ix: seq<Page>, ds: seq<Block>, path: seq<Block>, marks: seq<nat>, i: nat)
    requires Covers(ix, ds, path, marks) && i < |path| && !Ignore(ix[path[i]])
    ensures path[i] in ds || Orphan(ix, path[i])
  {
    hide InterruptedDeletion, Leftmost;
    if i in marks {
      var j :| 0 <= j < |marks| && marks[j] == i;
      assert path[marks[j]] == ds[j];
    } else {
      assert Excused(ix, SplitBefore(ix, false, path, i), path[i]);
      if SplitBefore(ix, false, path, i) {
        var h := i - 1;
        assert path[i] == ix[path[h]].next && ix[path[h]].incompleteSplit;
      }
    }
  }

  // ----- the whole tree -----

  function AllTargets(levels: seq<Checked>): seq<Block> {
    if levels == [] then [] else levels[0].targets + AllTargets(levels[1..])
  }

  /** No level above the leaves has a reserved number among its downlinks. */
  ghost predicate CleanLevels(ix: seq<Page>, number: nat, levels: seq<Checked>) {
    forall k :: 0 <= k < |levels| ==>
      InFile(ix, levels[k].targets) && (k < number ==> Clean(ix, Downlinks(ix, levels[k].targets)))
  }

  /** What the checked levels of a tree of the given height look like. */
  ghost predicate TreeShape(ix: seq<Page>, number: nat, levels: seq<Checked>) {
    && |levels| == number + 1
    && (forall k :: 0 <= k < |levels| ==>
          forall t <- levels[k].targets :: t < |ix| && !Ignore(ix[t]) && ix[t].level == number - k)
    && (forall k, j :: 0 <= k && j == k + 1 < |levels| ==> LinkedTo(ix, levels[k].targets, levels[j].targets))
    && Distinct(AllTargets(levels))
  }

  lemma {:induction false} LiveDistinct(ix: seq<Page>, path: seq<Block>)
    requires InFile(ix, path) && Distinct(path)
    ensures Distinct(Live(ix, path))
  {
    if path != [] {
      LiveDistinct(ix, path[1..]);
      assert path[0] !in path[1..];
    }
  }

  lemma {:induction false} BelowTop(ix: seq<Page>, number: nat, levels: seq<Checked>, t: Block)
    requires number > 0 && TreeShape(ix, number - 1, levels) && t in AllTargets(levels)
    ensures t < |ix| && ix[t].level < number
    decreases |levels|
  {
    var k := InLevel(levels, t);
    assert t in levels[k].targets;
  }

  lemma {:induction false} InLevel(levels: seq<Checked>, t: Block) returns (k: nat)
    requires t in AllTargets(levels)
    ensures k < |levels| && t in levels[k].targets
  {
    if t in levels[0].targets {
      k := 0;
    } else {
      k := InLevel(levels[1..], t);
      k := k + 1;
    }
  }

  /** The tree, when no level has a reserved number among its downlinks. */
  lemma {:induction false} CleanIndexIsTree(ix: seq<Page>, lv: Level, leftmost: Block, childRounds: nat, rounds: nat,
                                              levels: seq<Checked>)
    requires IsIndex(ix) && leftmost != P_NONE
    requires CheckEveryLevel(ix, lv, leftmost, childRounds, rounds) == Done(levels)
    requires CleanLevels(ix, lv.number, levels)
    ensures levels != [] && levels[0].targets != [] && TreeShape(ix, lv.number, levels)
    ensures CheckLevel(ix, lv, leftmost, childRounds, rounds) == Done(levels[0])
    decreases lv.number
  {
    hide CheckLevel, Clean, LinkedTo;
    var c := levels[0];
    TargetsInFile(ix, lv, leftmost, childRounds, rounds, c);
    TopLevel(ix, lv, leftmost, childRounds, rounds, c);
    var next := LevelNext(ix, c.targets);
    var rest := levels[1..];
    if lv.number > 0 { InnerHasNext(ix, lv, leftmost, childRounds, rounds, c); }
    if next == P_NONE {
      assert levels == [c];
      assert AllTargets(levels) == c.targets + AllTargets([]) == c.targets;
    } else {
      assert levels == [c] + rest;
      assert CheckEveryLevel(ix, Level(lv.number - 1, false), next, childRounds, rounds) == Done(rest);
      assert forall k :: 0 <= k < |rest| ==> rest[k] == levels[k + 1];
      CleanIndexIsTree(ix, Level(lv.number - 1, false), next, childRounds, rounds, rest);
      LevelsLink(ix, lv, leftmost, childRounds, rounds, c, Level(lv.number - 1, false), rest[0]);
      ShapeCons(ix, lv.number, c, rest);
    }
  }

  /** Above the leaves there is always a next level. */
  lemma InnerHasNext(ix: seq<Page>, lv: Level, leftmost: Block, childRounds: nat, rounds: nat, c: Checked)
    requires IsIndex(ix) && leftmost != P_NONE && CheckLevel(ix, lv, leftmost, childRounds, rounds) == Done(c)
    requires InFile(ix, c.targets) && lv.number > 0 && Clean(ix, Downlinks(ix, c.targets))
    ensures LevelNext(ix, c.targets) != P_NONE
  {
    hide CheckLevel;
    LevelCheckIsSound(ix, lv, leftmost, childRounds, rounds);
    var ds := Downlinks(ix, c.targets);
    var path, marks :| Covers(ix, ds, path, marks);
    FirstBelow(ix, lv, leftmost, childRounds, rounds, c, path, marks);
    assert ds[0] in ds;
  }

  lemma TopLevel(ix: seq<Page>, lv: Level, leftmost: Block, childRounds: nat, rounds: nat, c: Checked)
    requires leftmost != P_NONE && CheckLevel(ix, lv, leftmost, childRounds, rounds) == Done(c)
    ensures c.targets != [] && Distinct(c.targets)
    ensures forall t <- c.targets :: t < |ix| && !Ignore(ix[t]) && ix[t].level == lv.number
  {
    hide LevelLoop;
    var path := LevelVisits(ix, lv, P_NONE, leftmost, INVALID_BLOCK, EMPTY_LOG, childRounds, rounds, c);
    ChainIsDistinct(ix, path);
    LiveDistinct(ix, path);
  }

  lemma ShapeCons(ix: seq<Page>, number: nat, c: Checked, rest: seq<Checked>)
    requires number > 0 && rest != [] && TreeShape(ix, number - 1, rest) && LinkedTo(ix, c.targets, rest[0].targets)
    requires Distinct(c.targets) && forall t <- c.targets :: t < |ix| && !Ignore(ix[t]) && ix[t].level == number
    ensures TreeShape(ix, number, [c] + rest)
  {
    hide LinkedTo;
    var levels := [c] + rest;
    assert levels[1..] == rest;
    var all, below := AllTargets(levels), AllTargets(rest);
    assert all == c.targets + below;
    forall i, j | 0 <= i < j < |all| ensures all[i] != all[j] {
      if i < |c.targets| <= j {
        assert all[j] in below;
        BelowTop(ix, number, rest, all[j]);
      } else if i >= |c.targets| {
        assert all[i] == below[i - |c.targets|] && all[j] == below[j - |c.targets|];
      }
    }
    forall k, j | 0 <= k && j == k + 1 < |levels| ensures LinkedTo(ix, levels[k].targets, levels[j].targets) {
      if k > 0 {
        var a, b := k - 1, j - 1;
        assert LinkedTo(ix, rest[a].targets, rest[b].targets);
      }
    }
  }

  // ----- an invalid right link does not survive the level below -----

  predicate NoZero(downlinks: seq<Block>) { forall d <- downlinks :: d != P_NONE }

  predicate Invalid(ix: seq<Page>, d: Block) { d < |ix| && ix[d].next == INVALID_BLOCK }

  /** A chain from `first` to a page with the invalid right link. */
  predicate LeadsToInvalid(ix: seq<Page>, path: seq<Block>, first: Block) {
    path != [] && Chain(ix, path) && path[0] == first && ix[path[|path| - 1]].next == INVALID_BLOCK
  }

  lemma ReachInvalid(ix: seq<Page>, done: seq<Block>, log: Log, d: Block, targetLevel: nat, rounds: nat)
    returns (path: seq<Block>)
    requires Inv(ix, done, log) && d != P_NONE && Invalid(ix, d)
    requires ChildCheck(ix, log.saved, d, targetLevel, rounds).Done?
    ensures LeadsToInvalid(ix, path, if done == [] then d else done[0])
  {
    if done == [] {
      path := [d];
    } else {
      hide ChildLoop, GapsExcused, Leftmost;
      var v := ChildCheck(ix, log.saved, d, targetLevel, rounds).value;
      ChildLoopFollowsChain(ix, log.saved, d, targetLevel, log.saved.right, log.saved.split, true, rounds);
      ChainMore(ix, log.path, v.path);
      path := log.path + v.path;
      assert log.path[log.marks[0]] == done[0];
    }
  }

  lemma {:induction false} ItemsReachInvalid(ix: seq<Page>, t: Block, k: nat, done: seq<Block>, log: Log, rounds: nat)
    returns (path: seq<Block>)
    requires t < |ix| && k < |ix[t].downlinks| && Inv(ix, done, log) && Items(ix, t, k, log, rounds).Done?
    requires NoZero(ix[t].downlinks) && exists j :: k <= j < |ix[t].downlinks| && Invalid(ix, ix[t].downlinks[j])
    ensures LeadsToInvalid(ix, path, if done == [] then ix[t].downlinks[k] else done[0])
    decreases |ix[t].downlinks| - k
  {
    hide ChildCheck, Inv, LeadsToInvalid;
    var d := ix[t].downlinks[k];
    assert d in ix[t].downlinks;
    var v := ChildCheck(ix, log.saved, d, ix[t].level, rounds).value;
    if Invalid(ix, d) {
      path := ReachInvalid(ix, done, log, d, ix[t].level, rounds);
    } else {
      DownlinkStep(ix, done, log, d, ix[t].level, rounds);
      path := ItemsReachInvalid(ix, t, k + 1, done + [d], AddVisit(log, d, v), rounds);
    }
  }

  lemma {:induction false} RowReachesInvalid(ix: seq<Page>, targets: seq<Block>, done: seq<Block>, log: Log, rounds: nat)
    returns (path: seq<Block>)
    requires Row(ix, targets) && Inv(ix, done, log) && RunTargets(ix, targets, log, rounds).Done?
    requires NoZero(Downlinks(ix, targets)) && exists d <- Downlinks(ix, targets) :: Invalid(ix, d)
    ensures LeadsToInvalid(ix, path, if done == [] then Downlinks(ix, targets)[0] else done[0])
    decreases |targets|
  {
    hide Items, Inv, LeadsToInvalid;
    var t, rest := targets[0], targets[1..];
    var here, below := ix[t].downlinks, Downlinks(ix, rest);
    assert Downlinks(ix, targets) == here + below;
    assert forall d <- here :: d in here + below;
    assert forall d <- below :: d in here + below;
    assert forall i :: 0 <= i < |rest| ==> rest[i] == targets[i + 1];
    if exists j :: 0 <= j < |here| && Invalid(ix, here[j]) {
      path := ItemsReachInvalid(ix, t, 0, done, log, rounds);
    } else {
      var d :| d in here + below && Invalid(ix, d);
      assert d in below;
      assert Clean(ix, here);
      var log' := Items(ix, t, 0, log, rounds).value;
      TargetTracks(ix, t, done, log, rounds, log');
      path := RowReachesInvalid(ix, rest, done + here, log', rounds);
    }
  }

  /** When the level below was walked to its end, no downlink of this one names a page with the invalid right link. */
  lemma CheckedBelowIsClean(ix: seq<Page>, lv: Level, leftmost: Block, childRounds: nat, rounds: nat, c: Checked, low: Level, d: Checked)
    requires IsIndex(ix) && lv.number > 0 && leftmost != P_NONE
    requires CheckLevel(ix, lv, leftmost, childRounds, rounds) == Done(c)
    requires InFile(ix, c.targets) && NoZero(Downlinks(ix, c.targets)) && LevelNext(ix, c.targets) != P_NONE
    requires CheckLevel(ix, low, LevelNext(ix, c.targets), childRounds, rounds) == Done(d)
    ensures Clean(ix, Downlinks(ix, c.targets))
  {
    hide LevelLoop, RunTargets, Inv;
    LevelIsRow(ix, lv, P_NONE, leftmost, INVALID_BLOCK, EMPTY_LOG, childRounds, rounds, c);
    var top := LevelVisits(ix, lv, P_NONE, leftmost, INVALID_BLOCK, EMPTY_LOG, childRounds, rounds, c);
    var ds := Downlinks(ix, c.targets);
    var t := c.targets[0];
    assert t in c.targets && !ix[t].leaf && ds[0] == ix[t].downlinks[0];
    if exists d <- ds :: Invalid(ix, d) {
      EmptyInv(ix);
      var path := RowReachesInvalid(ix, c.targets, [], EMPTY_LOG, childRounds);
      assert ds[0] == LevelNext(ix, c.targets);
      var walk := LevelVisits(ix, low, P_NONE, ds[0], INVALID_BLOCK, EMPTY_LOG, childRounds, rounds, d);
      WalkHasNoInvalid(ix, walk, path);
    }
  }

  lemma EmptyInv(ix: seq<Page>)
    ensures Inv(ix, [], EMPTY_LOG)
  {
  }

  lemma {:induction false} ChainStays(ix: seq<Page>, a: seq<Block>, b: seq<Block>, k: nat)
    requires Chain(ix, a) && Chain(ix, b) && a != [] && b != [] && a[0] == b[0] && ix[a[|a| - 1]].next == P_NONE
    requires k < |b|
    ensures k < |a| && a[k] == b[k]
  {
    if k > 0 {
      var h := k - 1;
      ChainStays(ix, a, b, h);
      assert b[k] == ix[b[h]].next;
      assert k < |a| ==> a[k] == ix[a[h]].next;
    }
  }

  /** A chain to the end of a level leads to no page with the invalid right link. */
  lemma WalkHasNoInvalid(ix: seq<Page>, walk: seq<Block>, path: seq<Block>)
    requires IsIndex(ix) && walk != [] && Chain(ix, walk) && ix[walk[|walk| - 1]].next == P_NONE
    requires path != [] && Chain(ix, path) && path[0] == walk[0]
    ensures ix[path[|path| - 1]].next != INVALID_BLOCK
  {
    var h := |path| - 1;
    ChainStays(ix, walk, path, h);
    var k := h + 1;
    assert k < |walk| ==> walk[k] == ix[walk[h]].next;
  }

  /** No level above the leaves has a downlink to block 0. */
  ghost predicate NoZeroLevels(ix: seq<Page>, number: nat, levels: seq<Checked>) {
    forall k :: 0 <= k < |levels| ==>
      InFile(ix, levels[k].targets) && (k < number ==> NoZero(Downlinks(ix, levels[k].targets)))
  }

  lemma {:induction false} NoZeroIsClean(ix: seq<Page>, lv: Level, leftmost: Block, childRounds: nat, rounds: nat,
                                         levels: seq<Checked>)
    requires IsIndex(ix) && leftmost != P_NONE
    requires CheckEveryLevel(ix, lv, leftmost, childRounds, rounds) == Done(levels)
    requires NoZeroLevels(ix, lv.number, levels)
    ensures CleanLevels(ix, lv.number, levels)
    decreases lv.number
  {
    hide CheckLevel, Clean, NoZero;
    var c := levels[0];
    TargetsInFile(ix, lv, leftmost, childRounds, rounds, c);
    if lv.number > 0 {
      var next, low := LevelNext(ix, c.targets), Level(lv.number - 1, false);
      NoZeroHasNext(ix, lv, leftmost, childRounds, rounds, c);
      var rest := levels[1..];
      assert levels == [c] + rest;
      assert CheckEveryLevel(ix, low, next, childRounds, rounds) == Done(rest);
      assert forall k :: 0 <= k < |rest| ==> rest[k] == levels[k + 1];
      NoZeroIsClean(ix, low, next, childRounds, rounds, rest);
      CheckedBelowIsClean(ix, lv, leftmost, childRounds, rounds, c, low, rest[0]);
      forall k | 0 <= k < |levels| && k < lv.number ensures Clean(ix, Downlinks(ix, levels[k].targets)) {
        if k > 0 { assert levels[k] == rest[k - 1]; }
      }
    }
  }

  lemma NoZeroHasNext(ix: seq<Page>, lv: Level, leftmost: Block, childRounds: nat, rounds: nat, c: Checked)
    requires lv.number > 0 && leftmost != P_NONE && CheckLevel(ix, lv, leftmost, childRounds, rounds) == Done(c)
    requires InFile(ix, c.targets) && NoZero(Downlinks(ix, c.targets))
    ensures LevelNext(ix, c.targets) != P_NONE
  {
    hide LevelLoop, RunTargets;
    LevelIsRow(ix, lv, P_NONE, leftmost, INVALID_BLOCK, EMPTY_LOG, childRounds, rounds, c);
    var top := LevelVisits(ix, lv, P_NONE, leftmost, INVALID_BLOCK, EMPTY_LOG, childRounds, rounds, c);
    NextOfRow(ix, c.targets);
  }

  lemma {:induction false} NextOfRow(ix: seq<Page>, targets: seq<Block>)
    requires InFile(ix, targets) && NoZero(Downlinks(ix, targets))
    requires forall i :: 0 <= i < |targets| ==> !ix[targets[i]].leaf && ix[targets[i]].downlinks != []
    ensures LevelNext(ix, targets) != P_NONE
  {
    if targets != [] {
      var here, below := ix[targets[0]].downlinks, Downlinks(ix, targets[1..]);
      assert here[0] in here + below && forall d <- below :: d in here + below;
      NextOfRow(ix, targets[1..]);
    }
  }

  /**
   If the whole check ends without an error, then the pages in use that it visited form a tree exactly when
   no downlink above the leaves is block 0: none is visited twice, on one level or on two; every page lies on
   the level its number says, down to the leaves; every page below the top is named by exactly one downlink
   of the level above, or is a root, the top of an interrupted deletion, or the right half of an incomplete
   split; and every downlink names such a page or a half-dead one.
   */
  lemma CheckedIndexIsTree(ix: seq<Page>, lv: Level, leftmost: Block, childRounds: nat, rounds: nat, levels: seq<Checked>)
    requires IsIndex(ix) && leftmost != P_NONE
    requires CheckEveryLevel(ix, lv, leftmost, childRounds, rounds) == Done(levels)
    ensures TreeShape(ix, lv.number, levels) <==> NoZeroLevels(ix, lv.number, levels)
  {
    hide CheckEveryLevel, CleanLevels;
    if NoZeroLevels(ix, lv.number, levels) {
      NoZeroIsClean(ix, lv, leftmost, childRounds, rounds, levels);
      CleanIndexIsTree(ix, lv, leftmost, childRounds, rounds, levels);
    }
    if TreeShape(ix, lv.number, levels) {
      forall k | 0 <= k < |levels|
        ensures InFile(ix, levels[k].targets) && (k < lv.number ==> NoZero(Downlinks(ix, levels[k].targets)))
      {
        var ts := levels[k].targets;
        assert forall i :: 0 <= i < |ts| ==> ts[i] in ts;
        if k < lv.number {
          var j := k + 1;
          assert LinkedTo(ix, levels[k].targets, levels[j].targets);
        }
      }
    }
  }
}

/**
 The loops of amcheck's level check (contrib/amcheck/verify_nbtree.c), proved to compute what
 `NbtreeLevel` reasons about.  Every loop that the source leaves unbounded takes a number of rounds.
 */
module NbtreeCheck {
  import opened NbtreeIndex
  import opened NbtreeLevel
  import opened NbtreeTree

  /** The result of a walk that had already visited `path`. */
  function After(path: seq<Block>, r: Outcome<Visit>): Outcome<Visit> {
    match r
    case Done(v) => Done(Visit(v.saved, path + v.path))
    case ChildRunning(more) => ChildRunning(path + more)
    case LevelRunning(more) => LevelRunning(more)
    case Raised => Raised
  }

  function Targets(path: seq<Block>, targets: seq<Block>, r: Outcome<Checked>): Outcome<Checked> {
    match r
    case Done(c) => Done(Checked(targets + c.targets, c.log))
    case LevelRunning(more) => LevelRunning(path + more)
    case ChildRunning(more) => ChildRunning(more)
    case Raised => Raised
  }

  function TargetsOf(levels: seq<Checked>): (t: seq<seq<Block>>)
    ensures |t| == |levels| && forall i :: 0 <= i < |levels| ==> t[i] == levels[i].targets
  {
    seq(|levels|, i requires 0 <= i < |levels| => levels[i].targets)
  }

  /** The result of a check that had already passed the levels `above`. */
  function Levels(above: seq<Checked>, r: Outcome<seq<Checked>>): Outcome<seq<Checked>> {
    match r
    case Done(levels) => Done(above + levels)
    case LevelRunning(path) => LevelRunning(path)
    case ChildRunning(path) => ChildRunning(path)
    case Raised => Raised
  }

  class BtreeCheckState {
    const ix: seq<Page>
    var prevrightlink: Block
    var previncompletesplit: bool
    /** The child blocks visited on this level, and the positions of those reached through a downlink. */
    ghost var seen: seq<Block>
    ghost var marks: seq<nat>

    constructor (ix: seq<Page>)
      ensures this.ix == ix && Log() == EMPTY_LOG
    {
      this.ix := ix;
      prevrightlink, previncompletesplit := INVALID_BLOCK, false;
      seen, marks := [], [];
    }

    function State(): Saved
      reads this
    {
      Saved(prevrightlink, previncompletesplit)
    }

    ghost function Log(): Log
      reads this
    {
      NbtreeLevel.Log(State(), seen, marks)
    }

    /** `bt_downlink_missing_check`. */
    method DownlinkMissingCheck(rightsplit: bool, blkno: Block) returns (r: Outcome<()>)
      requires blkno < |ix|
      ensures r == DownlinkMissing(ix, rightsplit, blkno)
    {
      var p := ix[blkno];
      if p.root || rightsplit {
        return Done(());
      }
      if p.leaf || p.downlinks == [] {
        return Raised;
      }
      var level, childblk := p.level, p.downlinks[0];
      while true
        invariant Descend(ix, blkno, p.level, p.downlinks[0]) == Descend(ix, blkno, level, childblk)
        decreases level
      {
        if !Readable(ix, childblk) {
          return Raised;
        }
        var c := ix[childblk];
        if c.leaf {
          if !c.deleted && c.halfDead && c.next != P_NONE && c.topParent == blkno {
            return Done(());
          }
          return Raised;
        }
        if level == 0 || c.level != level - 1 || c.downlinks == [] {
          return Raised;
        }
        level, childblk := c.level, c.downlinks[0];
      }
    }

    /** The checks that one page of the child level undergoes. */
    method CheckChildPage(saved: Saved, downlink: Block, targetLevel: nat, blkno: Block, rightsplit: bool, first: bool)
      returns (ok: bool)
      ensures ok == PagePasses(ix, saved, downlink, targetLevel, blkno, rightsplit, first)
      ensures ok ==> blkno < |ix|
    {
      if !Readable(ix, blkno) {
        return false;
      }
      var p := ix[blkno];
      if first && saved.right == INVALID_BLOCK {
        var leftmost := LeftmostIgnoringHalfDead(ix, blkno);
        if leftmost != Done(true) {
          return false;
        }
      }
      if (!p.deleted || p.fullXid) && p.level + 1 != targetLevel {
        return false;
      }
      if (!first && blkno == saved.right) || blkno == p.prev {
        return false;
      }
      if blkno != downlink && !Ignore(p) {
        var missing := DownlinkMissingCheck(rightsplit, blkno);
        return missing.Done?;
      }
      return true;
    }

    /** `bt_child_highkey_check`: walks right on the child level until it stands on `downlink`. */
    method ChildHighkeyCheck(downlink: Block, targetLevel: nat, rounds: nat) returns (r: Outcome<seq<Block>>)
      modifies this`prevrightlink, this`previncompletesplit
      ensures match ChildCheck(ix, old(State()), downlink, targetLevel, rounds)
              case Done(v) => r == Done(v.path) && State() == v.saved
              case ChildRunning(path) => r == ChildRunning(path)
              case Raised => r == Raised
    {
      var blkno, rightsplit, first := prevrightlink, previncompletesplit, true;
      if blkno == INVALID_BLOCK {
        blkno, rightsplit := downlink, false;
      }
      var path: seq<Block>, left := [], rounds;
      ghost var saved := State();
      ghost var goal := ChildCheck(ix, saved, downlink, targetLevel, rounds);
      AfterNone(goal);
      hide PagePasses;
      while true
        invariant State() == saved
        invariant goal == After(path, ChildLoop(ix, saved, downlink, targetLevel, blkno, rightsplit, first, left))
        decreases left
      {
        if blkno == P_NONE && downlink == P_NONE {
          prevrightlink, previncompletesplit := INVALID_BLOCK, false;
          assert path + [] == path;
          return Done(path);
        }
        if blkno == P_NONE {
          return Raised;
        }
        var ok := CheckChildPage(State(), downlink, targetLevel, blkno, rightsplit, first);
        if !ok {
          return Raised;
        }
        var p := ix[blkno];
        rightsplit := p.incompleteSplit;
        if blkno == downlink {
          prevrightlink, previncompletesplit := p.next, rightsplit;
          return Done(path + [blkno]);
        }
        if left == 0 {
          return ChildRunning(path + [blkno]);
        }
        AfterOne(path, blkno, ChildLoop(ix, saved, downlink, targetLevel, p.next, rightsplit, false, left - 1));
        path := path + [blkno];
        blkno, first, left := p.next, false, left - 1;
      }
    }

    /** One call of `bt_child_highkey_check`, with a record of what it visited. */
    method FollowDownlink(d: Block, targetLevel: nat, rounds: nat) returns (r: Outcome<()>)
      modifies this
      ensures match ChildCheck(ix, old(State()), d, targetLevel, rounds)
              case Done(v) => r == Done(()) && Log() == AddVisit(old(Log()), d, v)
              case ChildRunning(path) => r == ChildRunning(path)
              case Raised => r == Raised
    {
      var v := ChildHighkeyCheck(d, targetLevel, rounds);
      match v {
        case Done(path) =>
          marks := if d == P_NONE || path == [] then marks else marks + [|seen| + |path| - 1];
          seen := seen + path;
          return Done(());
        case ChildRunning(path) => return ChildRunning(path);
        case Raised => return Raised;
      }
    }

    /** The item loop of `bt_target_page_check` on an internal page. */
    method TargetPageCheck(t: Block, rounds: nat) returns (r: Outcome<()>)
      requires t < |ix|
      modifies this
      ensures match Items(ix, t, 0, old(Log()), rounds)
              case Done(log) => r == Done(()) && Log() == log
              case ChildRunning(path) => r == ChildRunning(path)
              case Raised => r == Raised
    {
      var p := ix[t];
      var k := 0;
      ghost var goal := Items(ix, t, 0, Log(), rounds);
      while k < |p.downlinks|
        invariant 0 <= k <= |p.downlinks|
        invariant goal == Items(ix, t, k, Log(), rounds)
      {
        var d := p.downlinks[k];
        if k > 0 && !Readable(ix, d) {
          return Raised;
        }
        r := FollowDownlink(d, p.level, rounds);
        if !r.Done? {
          return;
        }
        if k > 0 && ix[d].deleted {
          return Raised;
        }
        k := k + 1;
      }
      r := Done(());
      if p.next == P_NONE {
        r := FollowDownlink(P_NONE, p.level, rounds);
      }
    }

    /** `bt_check_level_from_leftmost`. */
    method CheckLevelFromLeftmost(lv: Level, leftmost: Block, childRounds: nat, rounds: nat) returns (r: Outcome<seq<Block>>)
      requires leftmost != P_NONE
      modifies this
      ensures match CheckLevel(ix, lv, leftmost, childRounds, rounds)
              case Done(c) => r == Done(c.targets) && Log() == c.log
              case LevelRunning(path) => r == LevelRunning(path)
              case ChildRunning(path) => r == ChildRunning(path)
              case Raised => r == Raised
    {
      prevrightlink, previncompletesplit, seen, marks := INVALID_BLOCK, false, [], [];
      var leftcurrent, current, nextleveldown := P_NONE, leftmost, INVALID_BLOCK;
      var visited: seq<Block>, targets: seq<Block>, left := [], [], rounds;
      ghost var goal := CheckLevel(ix, lv, leftmost, childRounds, rounds);
      TargetsNone(goal);
      while true
        invariant goal == Targets(visited, targets,
                            LevelLoop(ix, lv, leftcurrent, current, nextleveldown, Log(), childRounds, left))
        decreases left
      {
        var t := CheckTarget(lv, leftcurrent, current, nextleveldown, childRounds);
        match t {
          case Done(_) =>
          case ChildRunning(path) => return ChildRunning(path);
          case Raised => return Raised;
        }
        var p := ix[current];
        var here := if Ignore(p) then [] else [current];
        if p.next == P_NONE {
          return Done(targets + here);
        }
        if left == 0 {
          return LevelRunning(visited + [current]);
        }
        TargetsOne(visited, targets, current, here,
                   LevelLoop(ix, lv, current, p.next, NextLevelDown(p, nextleveldown), Log(), childRounds, left - 1));
        visited, targets := visited + [current], targets + here;
        leftcurrent, current, nextleveldown, left := current, p.next, NextLevelDown(p, nextleveldown), left - 1;
      }
    }

    /** `bt_check_every_level`: one level after the other, each from the first downlink of the one above. */
    method CheckEveryLevel(root: Block, level: nat, childRounds: nat, rounds: nat) returns (r: Outcome<seq<seq<Block>>>)
      modifies this
      ensures match NbtreeTree.CheckEveryLevel(ix, Level(level, true), root, childRounds, rounds)
              case Done(levels) => r == Done(TargetsOf(levels))
              case LevelRunning(path) => r == LevelRunning(path)
              case ChildRunning(path) => r == ChildRunning(path)
              case Raised => r == Raised
    {
      hide CheckLevel, LevelNext;
      var current, lv, done: seq<seq<Block>> := root, Level(level, true), [];
      ghost var above: seq<Checked> := [];
      ghost var goal := NbtreeTree.CheckEveryLevel(ix, lv, root, childRounds, rounds);
      LevelsNone(goal);
      while current != P_NONE
        invariant goal == Levels(above, NbtreeTree.CheckEveryLevel(ix, lv, current, childRounds, rounds))
        invariant done == TargetsOf(above)
        decreases current != P_NONE, lv.number
      {
        var t := CheckLevelFromLeftmost(lv, current, childRounds, rounds);
        match t {
          case Done(_) =>
          case LevelRunning(path) => return LevelRunning(path);
          case ChildRunning(path) => return ChildRunning(path);
          case Raised => return Raised;
        }
        ghost var c := CheckLevel(ix, lv, current, childRounds, rounds).value;
        TargetsInFile(ix, lv, current, childRounds, rounds, c);
        var next := LevelNext(ix, t.value);
        if next == INVALID_BLOCK { return Raised; }
        if next != P_NONE && lv.number == 0 { return Raised; }
        LevelsOne(above, c, if next == P_NONE then Done([])
                            else NbtreeTree.CheckEveryLevel(ix, Level(lv.number - 1, false), next, childRounds, rounds));
        assert [c] + [] == [c];
        done, above := done + [t.value], above + [c];
        current := next;
        if next != P_NONE { lv := Level(lv.number - 1, false); }
      }
      assert above + [] == above;
      return Done(done);
    }

    /** One page of the level. */
    method CheckTarget(lv: Level, left: Block, current: Block, nextDown: Block, childRounds: nat) returns (r: Outcome<()>)
      modifies this
      ensures match TargetCheck(ix, lv, left, current, nextDown, old(Log()), childRounds)
              case Done(log) => r == Done(()) && Log() == log
              case ChildRunning(path) => r == ChildRunning(path)
              case Raised => r == Raised
    {
      if !Readable(ix, current) {
        return Raised;
      }
      var p := ix[current];
      var ok := CheckHeader(lv, left, current, nextDown);
      if !ok {
        return Raised;
      }
      r := Done(());
      if !Ignore(p) && !p.leaf {
        r := TargetPageCheck(current, childRounds);
      }
      if r.Done? && (current == left || current == p.prev) {
        return Raised;
      }
    }

    /** What the level walk demands of a page before its items. */
    method CheckHeader(lv: Level, left: Block, current: Block, nextDown: Block) returns (ok: bool)
      requires current < |ix|
      ensures ok == TargetPasses(ix, lv, left, current, nextDown)
    {
      var p := ix[current];
      if Ignore(p) {
        return !p.deleted && p.next != P_NONE;
      }
      if nextDown == INVALID_BLOCK {
        var leftmost := LeftmostIgnoringHalfDead(ix, current);
        if leftmost != Done(true) || (lv.trueRoot && !p.root && !p.incompleteSplit) {
          return false;
        }
      }
      return (p.prev == left || left == P_NONE) && p.level == lv.number;
    }
  }

  lemma AfterNone(r: Outcome<Visit>)
    ensures After([], r) == r
  {
    match r
    case Done(v) => assert [] + v.path == v.path;
    case ChildRunning(more) => assert [] + more == more;
    case Raised =>
    case LevelRunning(_) =>
  }

  lemma AfterOne(path: seq<Block>, b: Block, r: Outcome<Visit>)
    ensures After(path + [b], r) == After(path, After([b], r))
  {
    match r
    case Done(v) => assert path + [b] + v.path == path + ([b] + v.path);
    case ChildRunning(more) => assert path + [b] + more == path + ([b] + more);
    case _ =>
  }

  lemma TargetsNone(r: Outcome<Checked>)
    ensures Targets([], [], r) == r
  {
    match r
    case Done(c) => assert [] + c.targets == c.targets;
    case LevelRunning(more) => assert [] + more == more;
    case _ =>
  }

  lemma TargetsOne(path: seq<Block>, targets: seq<Block>, b: Block, here: seq<Block>, r: Outcome<Checked>)
    ensures Targets(path + [b], targets + here, r) == Targets(path, targets, Targets([b], here, r))
  {
    match r
    case Done(c) => assert targets + here + c.targets == targets + (here + c.targets);
    case LevelRunning(more) => assert path + [b] + more == path + ([b] + more);
    case _ =>
  }

  lemma LevelsNone(r: Outcome<seq<Checked>>)
    ensures Levels([], r) == r
  {
    if r.Done? { assert [] + r.value == r.value; }
  }

  lemma LevelsOne(above: seq<Checked>, c: Checked, r: Outcome<seq<Checked>>)
    ensures Levels(above + [c], r) == Levels(above, Levels([c], r))
  {
    if r.Done? { assert above + [c] + r.value == above + ([c] + r.value); }
  }
}

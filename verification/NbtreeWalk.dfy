/**
 Consequences of amcheck's level check (contrib/amcheck/verify_nbtree.c): which pages cannot be met twice,
 and so which walks are bound to end.
 */
module NbtreeWalk {
  import opened NbtreeIndex
  import opened NbtreeLevel

  // ----- no child is named twice -----

  lemma {:induction false} ChainRepeats(ix: seq<Page>, path: seq<Block>, i: nat, j: nat)
    requires Chain(ix, path) && i < j < |path| && ix[path[|path| - 1]].next == P_NONE
    ensures path[i] != path[j]
    decreases |path| - j
  {
    var i' := i + 1;
    assert path[i'] == ix[path[i]].next;
    if j + 1 < |path| {
      var j' := j + 1;
      assert path[j'] == ix[path[j]].next;
      ChainRepeats(ix, path, i', j');
    }
  }

  /** A right-link chain that reaches the end of the level cannot have gone round. */
  lemma ChainIsDistinct(ix: seq<Page>, path: seq<Block>)
    requires Chain(ix, path) && path != [] && ix[path[|path| - 1]].next == P_NONE
    ensures Distinct(path)
  {
    forall i, j | 0 <= i < j < |path| ensures path[i] != path[j] {
      ChainRepeats(ix, path, i, j);
    }
  }

  /** After a successful check of a clean level no two downlinks name the same child page. */
  lemma NoChildTwice(ix: seq<Page>, downlinks: seq<Block>)
    requires Connected(ix, downlinks)
    ensures Distinct(downlinks)
  {
    var path, marks :| Covers(ix, downlinks, path, marks);
    ChainIsDistinct(ix, path);
    forall i, j | 0 <= i < j < |downlinks| ensures downlinks[i] != downlinks[j] {
      assert marks[i] < marks[j];
      assert path[marks[i]] == downlinks[i] && path[marks[j]] == downlinks[j];
    }
  }

  // ----- the rightward walk -----

  /** Blocks visited from left to right: right links are followed, and a live page points back to the page it was reached from. */
  predicate RightWalk(ix: seq<Page>, path: seq<Block>) {
    && Chain(ix, path)
    && (forall i, j :: 0 <= i && j == i + 1 < |path| && !ix[path[j]].halfDead ==> ix[path[j]].prev == path[i])
  }

  lemma {:induction false} RunningIsWalk(ix: seq<Page>, lv: Level, left: Block, current: Block, nextDown: Block, log: Log,
                                         childRounds: nat, rounds: nat, visited: seq<Block>)
    requires current != P_NONE
    requires LevelLoop(ix, lv, left, current, nextDown, log, childRounds, rounds) == LevelRunning(visited)
    ensures |visited| == rounds + 1 && visited[0] == current && RightWalk(ix, visited)
    ensures left != P_NONE && !ix[current].halfDead ==> ix[current].prev == left
    ensures nextDown == INVALID_BLOCK && !ix[current].halfDead ==> LeftWalk(ix, [current]) == Done(true)
    decreases rounds
  {
    var p := ix[current];
    if rounds > 0 {
      var log' := if Ignore(p) || p.leaf then log else Items(ix, current, 0, log, childRounds).value;
      var rest := visited[1..];
      RunningIsWalk(ix, lv, current, p.next, NextLevelDown(p, nextDown), log', childRounds, rounds - 1, rest);
      assert visited == [current] + rest;
      WalkCons(ix, current, rest);
    }
  }

  lemma WalkCons(ix: seq<Page>, b: Block, rest: seq<Block>)
    requires b != P_NONE && b < |ix| && rest != [] && RightWalk(ix, rest)
    requires rest[0] == ix[b].next && (!ix[rest[0]].halfDead ==> ix[rest[0]].prev == b)
    ensures RightWalk(ix, [b] + rest)
  {
    var path := [b] + rest;
    forall i, j | 0 <= i && j == i + 1 < |path|
      ensures path[j] == ix[path[i]].next
      ensures !ix[path[j]].halfDead ==> ix[path[j]].prev == path[i]
    {
      if i > 0 {
        var h := i - 1;
        assert rest[i] == ix[rest[h]].next && (!ix[rest[i]].halfDead ==> ix[rest[i]].prev == rest[h]);
      }
    }
  }

  predicate NoneHalfDead(ix: seq<Page>, path: seq<Block>)
    requires InFile(ix, path)
  {
    forall i :: 0 <= i < |path| ==> !ix[path[i]].halfDead
  }

  lemma LeftNeighbour(ix: seq<Page>, b: Block)
    requires Leftmost(ix, b)
    ensures b < |ix|
    ensures var left := ix[b].prev; left == P_NONE || (left < |ix| && ix[left].halfDead)
  {
    var path :| LeftChain(ix, path) && path[0] == b && ix[path[|path| - 1]].prev == P_NONE;
    if |path| > 1 {
      assert path[1] == ix[path[0]].prev && AcceptsLeft(ix, path[0], path[0], path[1]);
    }
  }

  lemma {:induction false} WalkRepeats(ix: seq<Page>, path: seq<Block>, i: nat, j: nat)
    requires RightWalk(ix, path) && NoneHalfDead(ix, path) && i < j < |path|
    requires Leftmost(ix, path[0])
    ensures path[i] != path[j]
    decreases i
  {
    var k := j - 1;
    assert ix[path[j]].prev == path[k];
    if i == 0 {
      LeftNeighbour(ix, path[0]);
    } else {
      var h := i - 1;
      assert ix[path[i]].prev == path[h];
      WalkRepeats(ix, path, h, k);
    }
  }

  /** Without half-dead pages the rightward walk never visits a block twice, although the code compares only neighbours. */
  lemma RightWalkIsDistinct(ix: seq<Page>, lv: Level, leftmost: Block, childRounds: nat, rounds: nat, visited: seq<Block>)
    requires leftmost != P_NONE
    requires CheckLevel(ix, lv, leftmost, childRounds, rounds) == LevelRunning(visited)
    ensures InFile(ix, visited) && |visited| == rounds + 1
    ensures NoneHalfDead(ix, visited) ==> Distinct(visited) && |visited| < |ix|
  {
    RunningIsWalk(ix, lv, P_NONE, leftmost, INVALID_BLOCK, EMPTY_LOG, childRounds, rounds, visited);
    if NoneHalfDead(ix, visited) {
      LeftWalkIsLeftmost(ix, leftmost);
      forall i, j | 0 <= i < j < |visited| ensures visited[i] != visited[j] {
        WalkRepeats(ix, visited, i, j);
      }
      var withMeta := visited + [P_NONE];
      DistinctIsShort(withMeta, |ix|);
    }
  }

  /**
   A walk that meets a page again: traced back as far as the pages agree, it closes at a half-dead page, or at its
   first page, whose left neighbour is half-dead.
   */
  lemma {:induction false} WalkClosesAt(ix: seq<Page>, path: seq<Block>, i: nat, j: nat) returns (h: nat, k: nat)
    requires RightWalk(ix, path) && i < j < |path| && path[i] == path[j]
    requires !ix[path[0]].halfDead ==> Leftmost(ix, path[0])
    ensures h <= i && k == j - (i - h) && path[h] == path[k]
    ensures ix[path[h]].halfDead || (h == 0 && ix[path[0]].prev == path[k - 1] && ix[path[k - 1]].halfDead)
    decreases i
  {
    h, k := i, j;
    if !ix[path[i]].halfDead {
      var before := j - 1;
      assert ix[path[j]].prev == path[before];
      if i == 0 {
        LeftNeighbour(ix, path[0]);
      } else {
        var g := i - 1;
        assert ix[path[i]].prev == path[g];
        h, k := WalkClosesAt(ix, path, g, before);
      }
    }
  }

  /** Where the walk of a level closes when it meets a block again. */
  lemma RightWalkClosesAt(ix: seq<Page>, lv: Level, leftmost: Block, childRounds: nat, rounds: nat, visited: seq<Block>, i: nat, j: nat)
    returns (h: nat, k: nat)
    requires leftmost != P_NONE && i < j < |visited| && visited[i] == visited[j]
    requires CheckLevel(ix, lv, leftmost, childRounds, rounds) == LevelRunning(visited)
    ensures InFile(ix, visited) && h < k < |visited| && visited[h] == visited[k]
    ensures ix[visited[h]].halfDead || (h == 0 && ix[leftmost].prev == visited[k - 1] && ix[visited[k - 1]].halfDead)
  {
    RunningIsWalk(ix, lv, P_NONE, leftmost, INVALID_BLOCK, EMPTY_LOG, childRounds, rounds, visited);
    LeftWalkIsLeftmost(ix, leftmost);
    h, k := WalkClosesAt(ix, visited, i, j);
  }

  /** So a walk that is given as many rounds as there are blocks ends, raises an error, or has met a half-dead page. */
  lemma RightWalkEnds(ix: seq<Page>, lv: Level, leftmost: Block, childRounds: nat, rounds: nat)
    requires leftmost != P_NONE && rounds + 1 >= |ix|
    ensures var r := CheckLevel(ix, lv, leftmost, childRounds, rounds);
      r.LevelRunning? ==> InFile(ix, r.visited) && !NoneHalfDead(ix, r.visited)
  {
    var r := CheckLevel(ix, lv, leftmost, childRounds, rounds);
    if r.LevelRunning? {
      RightWalkIsDistinct(ix, lv, leftmost, childRounds, rounds, r.visited);
    }
  }
}

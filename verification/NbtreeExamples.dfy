/**
 Indexes on which the B-tree check (contrib/amcheck/verify_nbtree.c) does not end, and indexes that it lets
 through.  Key comparisons are left out of the model.  Each example says why the tests of the source that
 look at items and high keys have nothing to object to.
 */
module NbtreeExamples {
  import opened NbtreeIndex
  import opened NbtreeLevel
  import opened NbtreeTree

  // ----- walks that go on -----

  const META := Page(0, 0, 0, false, false, false, false, false, false, [], 0)

  /**
   A root that is a leaf, whose left neighbour is half-dead and whose right link leads back to it.  Both pages
   hold a high key and no other item, so the item loop of `bt_target_page_check` has nothing to look at.
   */
  function HalfDeadRing(): seq<Page> {
    [META,
     Page(2, 2, 0, true, true, false, false, false, false, [], 0),
     Page(0, 1, 0, true, false, false, true, false, false, [], 0)]
  }

  lemma {:induction false} RingGoesOn(left: Block, current: Block, nextDown: Block, log: Log, childRounds: nat, rounds: nat)
    requires (current == 1 && (left == 2 || (left == P_NONE && nextDown == INVALID_BLOCK))) || (current == 2 && left == 1)
    requires nextDown == INVALID_BLOCK || nextDown == P_NONE
    requires current == 2 ==> nextDown == P_NONE
    ensures LevelLoop(HalfDeadRing(), Level(0, true), left, current, nextDown, log, childRounds, rounds).LevelRunning?
    decreases rounds
  {
    var ix := HalfDeadRing();
    LeftOfRing();
    if rounds > 0 {
      var p := ix[current];
      RingGoesOn(current, p.next, NextLevelDown(p, nextDown), log, childRounds, rounds - 1);
    }
  }

  lemma LeftOfRing()
    ensures LeftWalk(HalfDeadRing(), [1]) == Done(true)
  {
    var ix := HalfDeadRing();
    assert LeftChain(ix, [1, 2]);
    LeftWalkIsLeftmost(ix, 1);
  }

  /** With a half-dead page on the way, the check of a whole index can go on for ever. */
  lemma RightWalkCanGoOn(childRounds: nat, rounds: nat)
    ensures CheckEveryLevel(HalfDeadRing(), Level(0, true), 1, childRounds, rounds).LevelRunning?
  {
    RingGoesOn(P_NONE, 1, INVALID_BLOCK, EMPTY_LOG, childRounds, rounds);
  }

  /**
   A root over one leaf, whose right links run into a ring of two pages beyond it, all with unfinished splits.
   The split flag makes `bt_child_highkey_check` pass over the high keys, and the root's one item is its
   negative infinity, for which there is no `bt_child_check`.
   */
  function SplitRing(): seq<Page> {
    [META,
     Page(0, 0, 1, false, true, false, false, false, false, [2], 0),
     Page(0, 3, 0, true, false, false, false, true, false, [], 0),
     Page(2, 4, 0, true, false, false, false, true, false, [], 0),
     Page(3, 5, 0, true, false, false, false, true, false, [], 0),
     Page(4, 4, 0, true, false, false, false, true, false, [], 0)]
  }

  lemma {:induction false} SplitRingGoesOn(blkno: Block, first: bool, rounds: nat)
    requires (blkno == 3 && first) || (4 <= blkno <= 5 && !first)
    ensures ChildLoop(SplitRing(), Saved(3, true), P_NONE, 1, blkno, true, first, rounds).ChildRunning?
    decreases rounds
  {
    if rounds > 0 {
      SplitRingGoesOn(SplitRing()[blkno].next, false, rounds - 1);
    }
  }

  /** The walk along the child level is not bound to end: only its own first page is recognised when it comes round again. */
  lemma ChildWalkCanGoOn(rounds: nat, levelRounds: nat)
    ensures CheckEveryLevel(SplitRing(), Level(1, true), 1, rounds, levelRounds).ChildRunning?
  {
    var ix := SplitRing();
    assert LeftChain(ix, [1]) && LeftChain(ix, [2]);
    LeftWalkIsLeftmost(ix, 1);
    LeftWalkIsLeftmost(ix, 2);
    SplitRingGoesOn(3, true, rounds);
    var log := AddVisit(EMPTY_LOG, 2, Visit(Saved(3, true), [2]));
    assert Items(ix, 1, 1, log, rounds).ChildRunning?;
    assert Items(ix, 1, 0, EMPTY_LOG, rounds).ChildRunning?;
  }

  // ----- what the check lets through -----

  /**
   A root whose only downlink is the number that means "none".  Both calls of `bt_child_highkey_check` return
   before they read a page, so no key is compared, and no level below is looked at.
   */
  lemma EmptyDownlinkPasses(childRounds: nat, rounds: nat)
    ensures var ix := [META, Page(0, 0, 1, false, true, false, false, false, false, [P_NONE], 0)];
      && CheckEveryLevel(ix, Level(1, true), 1, childRounds, rounds) == Done([Checked([1], EMPTY_LOG)])
      && !Connected(ix, [P_NONE])
  {
    var ix := [META, Page(0, 0, 1, false, true, false, false, false, false, [P_NONE], 0)];
    assert LeftChain(ix, [1]);
    LeftWalkIsLeftmost(ix, 1);
    assert AddVisit(EMPTY_LOG, P_NONE, Visit(FRESH, [])) == EMPTY_LOG;
    assert Items(ix, 1, 1, EMPTY_LOG, childRounds) == Done(EMPTY_LOG);
    assert CheckLevel(ix, Level(1, true), 1, childRounds, rounds) == Done(Checked([1], EMPTY_LOG));
    assert P_NONE in [P_NONE];
    if Connected(ix, [P_NONE]) { ConnectedIsClean(ix, [P_NONE]); }
  }

  /**
   A root over one leaf that has the invalid block number as its right link and an unfinished split, so that
   its high key is passed over.  The level of the root passes; the check of the whole index raises an error
   when it follows the link on the level below.
   */
  lemma InvalidRightLinkPasses(childRounds: nat, rounds: nat)
    ensures var ix := [META, Page(0, 0, 1, false, true, false, false, false, false, [2], 0),
                       Page(0, INVALID_BLOCK, 0, true, false, false, false, true, false, [], 0)];
      var r := CheckLevel(ix, Level(1, true), 1, childRounds, rounds);
      && r.Done? && r.value.targets == [1] && !Connected(ix, [2])
      && (rounds > 0 ==> CheckEveryLevel(ix, Level(1, true), 1, childRounds, rounds) == Raised)
  {
    var ix := [META, Page(0, 0, 1, false, true, false, false, false, false, [2], 0),
               Page(0, INVALID_BLOCK, 0, true, false, false, false, true, false, [], 0)];
    assert LeftChain(ix, [1]) && LeftChain(ix, [2]);
    LeftWalkIsLeftmost(ix, 1);
    LeftWalkIsLeftmost(ix, 2);
    var log := AddVisit(EMPTY_LOG, 2, Visit(Saved(INVALID_BLOCK, true), [2]));
    assert Items(ix, 1, 1, log, childRounds).Done?;
    assert 2 in [2];
    if Connected(ix, [2]) { ConnectedIsClean(ix, [2]); }
    assert CheckLevel(ix, Level(1, true), 1, childRounds, rounds).value.targets == [1];
    if rounds > 0 {
      assert LevelLoop(ix, Level(0, false), 2, INVALID_BLOCK, P_NONE, EMPTY_LOG, childRounds, rounds - 1) == Raised;
      assert CheckLevel(ix, Level(0, false), 2, childRounds, rounds) == Raised;
    }
  }
}

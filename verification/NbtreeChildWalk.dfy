/**
 The walk of `bt_child_highkey_check` along the child level (contrib/amcheck/verify_nbtree.c): exactly when it
 goes on for ever, in terms of the links.
 */
module NbtreeChildWalk {
  import opened NbtreeIndex
  import opened NbtreeLevel
  import opened Orbit

  /** Where the walk of `bt_child_highkey_check` stands: a page, and whether a split was left incomplete before it. */
  datatype Stand = Stand(page: Block, afterSplit: bool)

  /** One step along a right link. */
  function ChildNext(ix: seq<Page>): Stand -> Stand {
    (s: Stand) => if s.page < |ix| then Stand(ix[s.page].next, ix[s.page].incompleteSplit) else s
  }

  /** Pages from which the walk goes on, having come from another page. */
  function ChildPasses(ix: seq<Page>, saved: Saved, downlink: Block, targetLevel: nat): Stand -> bool {
    (s: Stand) =>
      s.page != P_NONE && s.page != downlink && PagePasses(ix, saved, downlink, targetLevel, s.page, s.afterSplit, false)
  }

  /** The walk is still going on after `n` rounds exactly when it passes all pages up to there. */
  lemma {:induction false} ChildRunningIsPassing(ix: seq<Page>, saved: Saved, downlink: Block, targetLevel: nat, s: Stand, n: nat)
    ensures ChildLoop(ix, saved, downlink, targetLevel, s.page, s.afterSplit, false, n).ChildRunning? <==>
      PassesFor(ChildNext(ix), ChildPasses(ix, saved, downlink, targetLevel), s, n)
    decreases n
  {
    var step, pass := ChildNext(ix), ChildPasses(ix, saved, downlink, targetLevel);
    assert pass(s) ==> s.page < |ix|;
    assert At(step, s, 0) == s;
    if n > 0 {
      hide PassesFor, PagePasses;
      PassesNext(step, pass, s, n);
      if pass(s) { ChildRunningIsPassing(ix, saved, downlink, targetLevel, step(s), n - 1); }
    }
  }

  /** All pages with either flag. */
  function Stands(n: nat): (all: set<Stand>)
    ensures |all| == 2 * n && forall s :: s in all <==> s.page < n
  {
    if n == 0 then {} else Stands(n - 1) + {Stand(n - 1, false), Stand(n - 1, true)}
  }

  lemma ChildStandsAreFew(ix: seq<Page>, saved: Saved, downlink: Block, targetLevel: nat, s: Stand)
    requires PassesFor(ChildNext(ix), ChildPasses(ix, saved, downlink, targetLevel), s, 2 * |ix|)
    ensures ComesRound(ChildNext(ix), ChildPasses(ix, saved, downlink, targetLevel), s)
  {
    var step, pass := ChildNext(ix), ChildPasses(ix, saved, downlink, targetLevel);
    assert forall k :: 0 <= k <= 2 * |ix| ==> pass(At(step, s, k)) && At(step, s, k) in Stands(|ix|);
    PassesIsRound(step, pass, s, Stands(|ix|));
  }

  /** The page at which a call of `bt_child_highkey_check` starts, and the flag it starts with. */
  function ChildStart(saved: Saved, downlink: Block): Stand {
    if saved.right == INVALID_BLOCK then Stand(downlink, false) else Stand(saved.right, saved.split)
  }

  /** The walk takes its first step. */
  predicate ChildStarts(ix: seq<Page>, saved: Saved, downlink: Block, targetLevel: nat) {
    var s := ChildStart(saved, downlink);
    s.page != P_NONE && s.page != downlink && PagePasses(ix, saved, downlink, targetLevel, s.page, s.afterSplit, true)
  }

  /** However many rounds it is given, the walk is not over. */
  ghost predicate ChildGoesOn(ix: seq<Page>, saved: Saved, downlink: Block, targetLevel: nat) {
    forall n: nat :: ChildCheck(ix, saved, downlink, targetLevel, n).ChildRunning?
  }

  /**
   The walk to a downlink goes on for ever if and only if its first page passes and is not the goal, and the
   right links from there lead back to a page that was met with the same flag, over pages that all pass.
   */
  lemma ChildWalkNeverEnds(ix: seq<Page>, saved: Saved, downlink: Block, targetLevel: nat)
    ensures ChildGoesOn(ix, saved, downlink, targetLevel) <==>
      && ChildStarts(ix, saved, downlink, targetLevel)
      && ComesRound(ChildNext(ix), ChildPasses(ix, saved, downlink, targetLevel), ChildNext(ix)(ChildStart(saved, downlink)))
  {
    var step, pass := ChildNext(ix), ChildPasses(ix, saved, downlink, targetLevel);
    var start := ChildStart(saved, downlink);
    if ChildStarts(ix, saved, downlink, targetLevel) {
      forall n: nat ensures ChildCheck(ix, saved, downlink, targetLevel, n).ChildRunning? <==>
        n == 0 || PassesFor(step, pass, step(start), n - 1)
      {
        ChildFirstStep(ix, saved, downlink, targetLevel, n);
      }
      hide ChildCheck, PassesFor;
      if ComesRound(step, pass, step(start)) {
        RoundForEver(step, pass, step(start));
      }
      if ChildGoesOn(ix, saved, downlink, targetLevel) {
        assert ChildCheck(ix, saved, downlink, targetLevel, 2 * |ix| + 1).ChildRunning?;
        ChildStandsAreFew(ix, saved, downlink, targetLevel, step(start));
      }
    } else {
      assert !ChildCheck(ix, saved, downlink, targetLevel, 0).ChildRunning?;
    }
  }

  lemma ChildFirstStep(ix: seq<Page>, saved: Saved, downlink: Block, targetLevel: nat, n: nat)
    ensures ChildCheck(ix, saved, downlink, targetLevel, n).ChildRunning? <==>
      && ChildStarts(ix, saved, downlink, targetLevel)
      && (n == 0 || PassesFor(ChildNext(ix), ChildPasses(ix, saved, downlink, targetLevel),
                              ChildNext(ix)(ChildStart(saved, downlink)), n - 1))
  {
    var start := ChildStart(saved, downlink);
    assert ChildStarts(ix, saved, downlink, targetLevel) ==> start.page < |ix|;
    hide PassesFor, PagePasses;
    if n > 0 { ChildRunningIsPassing(ix, saved, downlink, targetLevel, ChildNext(ix)(start), n - 1); }
  }

  /** So it ends within twice as many rounds as there are blocks, or never. */
  lemma ChildWalkEndsSoonOrNever(ix: seq<Page>, saved: Saved, downlink: Block, targetLevel: nat, n: nat)
    requires ChildCheck(ix, saved, downlink, targetLevel, 2 * |ix| + 1).ChildRunning?
    ensures ChildCheck(ix, saved, downlink, targetLevel, n).ChildRunning?
  {
    hide ChildCheck, PassesFor;
    ChildFirstStep(ix, saved, downlink, targetLevel, 2 * |ix| + 1);
    ChildStandsAreFew(ix, saved, downlink, targetLevel, ChildNext(ix)(ChildStart(saved, downlink)));
    ChildWalkNeverEnds(ix, saved, downlink, targetLevel);
  }
}

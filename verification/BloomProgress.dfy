/**
 Progress of the concurrent bloom index (contrib/bloom/blinsert.c, blvacuum.c, blscan.c): whatever the processes
 have done so far, somebody can go on, and each call can still come to its end.
 */
module BloomProgress {
  import opened BloomSignature
  import opened BloomPage
  import opened BloomProtocol

  datatype Call = Inserting(p: Pid) | Vacuuming(v: Pid) | Scanning(q: Pid)

  ghost predicate Exists(s: State, c: Call) {
    match c
    case Inserting(p) => p in s.inserters
    case Vacuuming(v) => v in s.vacuums
    case Scanning(q) => q in s.scans
  }

  ghost predicate Finished(s: State, c: Call)
    requires Exists(s, c)
  {
    match c
    case Inserting(p) => PcOf(s, p).Returned?
    case Vacuuming(v) => s.vacuums[v].finished
    case Scanning(q) => s.scans[q].next >= |s.scans[q].start|
  }

  /** The invariant, and no scan counts more pages than there are. */
  ghost predicate Steady(s: State) {
    Sound(s) && forall q :: q in s.scans ==> |s.scans[q].start| <= |s.pages|
  }

  lemma SteadyKept(s: State, step: Step)
    requires Steady(s) && Enabled(s, step)
    ensures Steady(Do(s, step))
  {
    hide Sound, CanInsert, DoInsert, Vacuumed;
    SoundKept(s, step);
    if step.Insert? { InsertsLeave(s, step.p, step.act); } else { OtherSteps(s, step); }
  }

  lemma {:induction false} RunIsSteady(s: State, steps: seq<Step>)
    requires Steady(s) && CanRun(s, steps)
    ensures Steady(Run(s, steps))
    decreases |steps|
  {
    if steps != [] {
      hide Steady, Enabled, Do;
      SteadyKept(s, steps[0]);
      RunIsSteady(Do(s, steps[0]), steps[1..]);
    }
  }

  /** What the holder of the metapage does next. */
  ghost function HolderAction(pc: Pc): Action {
    if pc.Searching? then TryListed else if pc.NeedsPage? then Extend else AddToNew
  }

  /** No page is locked but by the holder of the metapage, who is about to fill it. */
  lemma PageLockNeedsMeta(s: State, b: Block)
    requires Sound(s) && b in s.pageLocks
    ensures s.metaLock.Some? && s.metaLock.value in s.inserters && PcOf(s, s.metaLock.value) == HasPage(b)
  {
    hide Shape;
    assert PageLockOk(s, b) && PcOk(s, s.pageLocks[b]);
  }

  /** The holder of the metapage waits for nobody. */
  lemma HolderCanStep(s: State)
    requires Sound(s) && s.metaLock.Some?
    ensures var p := s.metaLock.value;
      p in s.inserters && CanInsert(s, p, HolderAction(PcOf(s, p)))
  {
    var p := s.metaLock.value;
    assert MetaLockOk(s) && PcOk(s, p);
    var pc := PcOf(s, p);
    if pc.Searching? && pc.nStart < s.meta.nEnd {
      var b := s.meta.notFull[pc.nStart];
      if b in s.pageLocks { PageLockNeedsMeta(s, b); }
    }
  }

  /** What a call does next when nobody holds the metapage. */
  ghost function OwnStep(s: State, c: Call): Step
    requires Exists(s, c) && !Finished(s, c)
  {
    match c
    case Inserting(p) => Insert(p, match PcOf(s, p) case Starting => ReadMeta case KnowsPage(_) => TryFirst case _ => LockMeta)
    case Vacuuming(v) => if s.vacuums[v].next < |s.vacuums[v].start| then VacuumPage(v) else VacuumMeta(v)
    case Scanning(q) => ScanPage(q)
  }

  /** While nobody holds the metapage, every call that is not finished can go on. */
  lemma FreeToStep(s: State, c: Call)
    requires Steady(s) && Exists(s, c) && !Finished(s, c) && s.metaLock.None?
    ensures Enabled(s, OwnStep(s, c))
  {
    forall b | b in s.pageLocks ensures false { PageLockNeedsMeta(s, b); }
    match c
    case Inserting(p) => assert PcOk(s, p);
    case Vacuuming(v) => assert VacuumInFile(s, v);
    case Scanning(_) =>
  }

  /** The step to take so that `c` comes to its end: first the holder of the metapage goes on. */
  ghost function NextStep(s: State, c: Call): Step
    requires Steady(s) && Exists(s, c) && !Finished(s, c)
  {
    if s.metaLock.Some? then
      HolderCanStep(s);
      Insert(s.metaLock.value, HolderAction(PcOf(s, s.metaLock.value)))
    else OwnStep(s, c)
  }

  lemma NextStepIsEnabled(s: State, c: Call)
    requires Steady(s) && Exists(s, c) && !Finished(s, c)
    ensures Enabled(s, NextStep(s, c))
  {
    hide CanInsert;
    if s.metaLock.Some? { HolderCanStep(s); } else { FreeToStep(s, c); }
  }

  /** How far a call is from its end. */
  ghost function Rank(s: State, c: Call): nat
    requires Exists(s, c)
  {
    match c
    case Inserting(p) =>
      (match PcOf(s, p) case Starting => 4 case KnowsPage(_) => 3 case WantsMeta(_) => 2 case Returned => 0 case _ => 1)
    case Vacuuming(v) => Left(s.vacuums[v].next, |s.vacuums[v].start|) + if s.vacuums[v].finished then 0 else 1
    case Scanning(q) => Left(s.scans[q].next, |s.scans[q].start|)
  }

  ghost function Left(n: nat, end: nat): nat { if n < end then end - n else 0 }

  /** How far the holder of the metapage is from letting go of it. */
  ghost function HolderRank(s: State): nat {
    if s.metaLock.None? || s.metaLock.value !in s.inserters then 0
    else match PcOf(s, s.metaLock.value)
      case Searching(n) => Left(n, s.meta.nEnd) + 3
      case NeedsPage => 2
      case _ => 1
  }

  lemma HolderAdvances(s: State)
    requires Sound(s) && s.metaLock.Some?
    requires s.metaLock.value in s.inserters && CanInsert(s, s.metaLock.value, HolderAction(PcOf(s, s.metaLock.value)))
    ensures HolderRank(DoInsert(s, s.metaLock.value, HolderAction(PcOf(s, s.metaLock.value)))) < HolderRank(s)
  {
    hide Shape;
    assert MetaLockOk(s) && PcOk(s, s.metaLock.value);
  }

  lemma OthersStay(s: State, c: Call)
    requires Sound(s) && Exists(s, c) && s.metaLock.Some?
    requires s.metaLock.value in s.inserters && CanInsert(s, s.metaLock.value, HolderAction(PcOf(s, s.metaLock.value)))
    ensures var s' := DoInsert(s, s.metaLock.value, HolderAction(PcOf(s, s.metaLock.value)));
      Exists(s', c) && Rank(s', c) <= Rank(s, c)
  {
    hide Shape, VacuumInFile;
    assert MetaLockOk(s) && PcOk(s, s.metaLock.value);
  }

  lemma HolderStep(s: State, c: Call)
    requires Steady(s) && Exists(s, c) && !Finished(s, c) && s.metaLock.Some?
    requires Enabled(s, NextStep(s, c))
    ensures var s' := Do(s, NextStep(s, c));
      Exists(s', c) && Rank(s', c) <= Rank(s, c) && HolderRank(s') < HolderRank(s)
  {
    hide Exists, Finished, Rank, HolderRank, CanInsert, DoInsert, HolderAction;
    HolderCanStep(s);
    OthersStay(s, c);
    HolderAdvances(s);
  }

  lemma InserterAdvances(s: State, p: Pid)
    requires Sound(s) && p in s.inserters && !PcOf(s, p).Returned? && s.metaLock.None?
    requires Enabled(s, OwnStep(s, Inserting(p)))
    ensures var s' := Do(s, OwnStep(s, Inserting(p)));
      p in s'.inserters && Rank(s', Inserting(p)) < Rank(s, Inserting(p))
  {
    hide Shape;
    assert PcOk(s, p);
  }

  lemma OthersAdvance(s: State, c: Call)
    requires Exists(s, c) && !Finished(s, c) && !c.Inserting?
    requires Enabled(s, OwnStep(s, c))
    ensures var s' := Do(s, OwnStep(s, c));
      Exists(s', c) && Rank(s', c) < Rank(s, c)
  {
    hide Vacuumed, CanInsert;
  }

  lemma CallAdvances(s: State, c: Call)
    requires Steady(s) && Exists(s, c) && !Finished(s, c) && s.metaLock.None?
    requires Enabled(s, NextStep(s, c))
    ensures var s' := Do(s, NextStep(s, c));
      Exists(s', c) && Rank(s', c) < Rank(s, c)
  {
    hide Enabled, Do, OwnStep, Rank, Sound;
    if c.Inserting? { InserterAdvances(s, c.p); } else { OthersAdvance(s, c); }
  }

  /** Some continuation brings the call to its end. */
  ghost predicate CanFinish(s: State, c: Call) {
    exists steps :: CanRun(s, steps) && Exists(Run(s, steps), c) && Finished(Run(s, steps), c)
  }

  lemma FinishAfterStep(s: State, step: Step, c: Call)
    requires Enabled(s, step) && CanFinish(Do(s, step), c)
    ensures CanFinish(s, c)
  {
    hide Enabled, Do, Exists, Finished;
    var steps :| CanRun(Do(s, step), steps) && Exists(Run(Do(s, step), steps), c) && Finished(Run(Do(s, step), steps), c);
    var all := [step] + steps;
    assert all[0] == step && all[1..] == steps;
    assert CanRun(s, all) && Run(s, all) == Run(Do(s, step), steps);
  }

  lemma FinishedCanFinish(s: State, c: Call)
    requires Exists(s, c) && Finished(s, c)
    ensures CanFinish(s, c)
  {
    hide Exists, Finished;
    assert CanRun(s, []) && Run(s, []) == s;
  }

  lemma {:induction false} EveryCallCanFinish(s: State, c: Call)
    requires Steady(s) && Exists(s, c)
    ensures CanFinish(s, c)
    decreases Rank(s, c), HolderRank(s)
  {
    if Finished(s, c) {
      FinishedCanFinish(s, c);
    } else {
      hide Steady, Enabled, Do, Exists, Finished, Rank, HolderRank, CanFinish, NextStep;
      NextStepIsEnabled(s, c);
      var step := NextStep(s, c);
      if s.metaLock.Some? { HolderStep(s, c); } else { CallAdvances(s, c); }
      SteadyKept(s, step);
      EveryCallCanFinish(Do(s, step), c);
      FinishAfterStep(s, step, c);
    }
  }

  /**
   No deadlock: after any interleaving, the holder of the metapage can go on, and without a holder every unfinished
   call can; so each call that has begun can still be brought to its end.
   */
  lemma NoDeadlock(init: State, steps: seq<Step>, c: Call)
    requires Init(init) && CanRun(init, steps) && Exists(Run(init, steps), c)
    ensures var s := Run(init, steps);
      && (s.metaLock.Some? ==> s.metaLock.value in s.inserters && exists act :: CanInsert(s, s.metaLock.value, act))
      && (s.metaLock.None? && !Finished(s, c) ==> Enabled(s, OwnStep(s, c)))
      && CanFinish(s, c)
  {
    hide Init, Exists, Finished, CanFinish, CanInsert, OwnStep, Enabled;
    assert Steady(init) by { InitIsSteady(init); }
    RunIsSteady(init, steps);
    var s := Run(init, steps);
    EveryCallCanFinish(s, c);
    if s.metaLock.Some? { HolderCanStep(s); } else if !Finished(s, c) { FreeToStep(s, c); }
  }

  lemma InitIsSteady(s: State)
    requires Init(s)
    ensures Steady(s)
  {
    InitIsInv(s);
  }
}

/**
 Concurrent use of a bloom index (contrib/bloom/blinsert.c, blvacuum.c, blscan.c, blutils.c) as a state
 machine: any number of inserters, vacuums and scans, each step being what one process does between
 taking and releasing a lock, or the taking of a lock that is kept.  A change logged by generic WAL takes
 effect as a whole when it is finished.
 */
module BloomProtocol {
  import opened BloomSignature
  import opened BloomPage

  type Block = nat
  type Pid = nat

  /** The free list of the metapage: entries `nStart` up to `nEnd` of `notFullPage` are current. */
  datatype Meta = Meta(nStart: nat, nEnd: nat, notFull: seq<Block>)

  /** Where a call of `blinsert` stands. */
  datatype Pc =
    | Starting                          // has formed its tuple
    | KnowsPage(blk: Block)             // has read the first entry of the free list and released the metapage
    | WantsMeta(tried: Option<Block>)   // did not succeed there
    | Searching(nStart: nat)            // holds the metapage exclusively, about to try entry nStart
    | NeedsPage                         // holds the metapage, in BloomNewBuffer
    | HasPage(blk: Block)               // holds the metapage and the page that BloomNewBuffer returned
    | Returned

  datatype Inserter = Inserter(t: Tuple, pc: Pc)

  /** A call of `blbulkdelete`; `start` records the pages as they were when it counted them. */
  datatype Vacuum = Vacuum(dead: iset<nat>, start: seq<Page>, next: Block, free: seq<Block>, finished: bool)

  /** A call of `blgetbitmap`. */
  datatype Scan = Scan(query: seq<Word>, start: seq<Page>, next: Block, found: set<Tuple>)

  datatype State = State(
    capacity: nat,
    listSize: nat,
    pages: seq<Page>,
    meta: Meta,
    fsm: set<Block>,
    metaLock: Option<Pid>,
    pageLocks: map<Block, Pid>,
    inserters: map<Pid, Inserter>,
    vacuums: map<Pid, Vacuum>,
    scans: map<Pid, Scan>,
    removed: multiset<Tuple>)

  /** What an inserter does next. */
  datatype Action =
    | Begin(t: Tuple)
    | ReadMeta
    | TryFirst
    | LockMeta
    | TryListed
    | Recycle(blk: Block)
    | PassOver(blk: Block)
    | Extend
    | AddToNew

  datatype Step =
    | Insert(p: Pid, act: Action)
    | VacuumBegin(v: Pid, dead: iset<nat>)
    | VacuumPage(v: Pid)
    | VacuumMeta(v: Pid)
    | RecordFree(blk: Block)
    | ScanBegin(q: Pid, query: seq<Word>)
    | ScanPage(q: Pid)

  const HEAD_BLKNO: Block := 1

  // ----- steps -----

  ghost function PcOf(s: State, p: Pid): Pc
    requires p in s.inserters
  {
    s.inserters[p].pc
  }

  ghost predicate Unlocked(s: State, b: Block) { b < |s.pages| && b !in s.pageLocks }

  ghost predicate Reusable(s: State, b: Block) { Unlocked(s, b) && b >= HEAD_BLKNO && !s.pages[b].Live? }

  ghost predicate ListReadable(s: State) { |s.meta.notFull| >= s.meta.nEnd }

  ghost predicate CanInsert(s: State, p: Pid, act: Action) {
    match act
    case Begin(t) => p !in s.inserters && t.id == p
    case ReadMeta => p in s.inserters && PcOf(s, p).Starting? && s.metaLock.None? && ListReadable(s)
    case TryFirst => p in s.inserters && PcOf(s, p).KnowsPage? && Unlocked(s, PcOf(s, p).blk)
    case LockMeta => p in s.inserters && PcOf(s, p).WantsMeta? && s.metaLock.None? && ListReadable(s)
    case TryListed => p in s.inserters && PcOf(s, p).Searching? && ListReadable(s) &&
      (PcOf(s, p).nStart < s.meta.nEnd ==> Unlocked(s, s.meta.notFull[PcOf(s, p).nStart]))
    case Recycle(b) => p in s.inserters && PcOf(s, p).NeedsPage? && b in s.fsm && Reusable(s, b)
    case PassOver(b) => p in s.inserters && PcOf(s, p).NeedsPage? && b in s.fsm
    case Extend => p in s.inserters && PcOf(s, p).NeedsPage?
    case AddToNew => p in s.inserters && PcOf(s, p).HasPage? && PcOf(s, p).blk < |s.pages| && s.meta.notFull != []
  }

  /** The step can be taken: its process is there, and the locks it needs are free. */
  ghost predicate Enabled(s: State, step: Step) {
    match step
    case Insert(p, act) => CanInsert(s, p, act)
    case VacuumBegin(v, _) => v !in s.vacuums
    case VacuumPage(v) => v in s.vacuums && s.vacuums[v].next < |s.vacuums[v].start| && Unlocked(s, s.vacuums[v].next)
    case VacuumMeta(v) => v in s.vacuums && !s.vacuums[v].finished && s.vacuums[v].next >= |s.vacuums[v].start| &&
      s.metaLock.None? && |s.vacuums[v].free| <= |s.meta.notFull|
    case RecordFree(b) => Reusable(s, b)
    case ScanBegin(q, _) => q !in s.scans
    case ScanPage(q) => q in s.scans && s.scans[q].next < |s.scans[q].start| && Unlocked(s, s.scans[q].next)
  }

  ghost function Move(s: State, p: Pid, pc: Pc): map<Pid, Inserter>
    requires p in s.inserters
  {
    s.inserters[p := s.inserters[p].(pc := pc)]
  }

  /** First stage of `blinsert`: look at the free list under a share lock. */
  ghost function DoReadMeta(s: State, p: Pid): State
    requires CanInsert(s, p, ReadMeta)
  {
    var m := s.meta;
    s.(inserters := Move(s, p, if m.nEnd > m.nStart then KnowsPage(m.notFull[m.nStart]) else WantsMeta(None)))
  }

  ghost function DoTryFirst(s: State, p: Pid): State
    requires CanInsert(s, p, TryFirst)
  {
    var b := PcOf(s, p).blk;
    if HasRoom(s.pages[b], s.capacity) then
      s.(pages := s.pages[b := WithItem(Prepared(s.pages[b]), s.inserters[p].t)], inserters := Move(s, p, Returned))
    else s.(inserters := Move(s, p, WantsMeta(Some(b))))
  }

  /** Second stage: the list under an exclusive lock, without the page already tried. */
  ghost function DoLockMeta(s: State, p: Pid): State
    requires CanInsert(s, p, LockMeta)
  {
    var m := s.meta;
    var skip := m.nStart < m.nEnd && PcOf(s, p).tried == Some(m.notFull[m.nStart]);
    s.(metaLock := Some(p), inserters := Move(s, p, Searching(if skip then m.nStart + 1 else m.nStart)))
  }

  ghost function DoTryListed(s: State, p: Pid): State
    requires CanInsert(s, p, TryListed)
  {
    var n := PcOf(s, p).nStart;
    if n >= s.meta.nEnd then s.(inserters := Move(s, p, NeedsPage))
    else
      var b := s.meta.notFull[n];
      if HasRoom(s.pages[b], s.capacity) then
        s.(pages := s.pages[b := WithItem(Prepared(s.pages[b]), s.inserters[p].t)],
           meta := s.meta.(nStart := n),
           metaLock := None,
           inserters := Move(s, p, Returned))
      else s.(inserters := Move(s, p, Searching(n + 1)))
  }

  /** Third stage: a page of its own, which becomes the whole free list. */
  ghost function DoAddToNew(s: State, p: Pid): State
    requires CanInsert(s, p, AddToNew)
  {
    var b := PcOf(s, p).blk;
    s.(pages := s.pages[b := WithItem(Live([]), s.inserters[p].t)],
       meta := Meta(0, 1, s.meta.notFull[0 := b]),
       metaLock := None,
       pageLocks := s.pageLocks - {b},
       inserters := Move(s, p, Returned))
  }

  ghost function DoVacuumPage(s: State, v: Pid): State
    requires Enabled(s, VacuumPage(v))
  {
    var vac := s.vacuums[v];
    var b := vac.next;
    var after := Vacuumed(s.pages[b], vac.dead);
    var free := if Frees(s.pages[b], vac.dead, s.capacity) && |vac.free| < s.listSize then vac.free + [b] else vac.free;
    s.(pages := s.pages[b := after],
       vacuums := s.vacuums[v := vac.(next := b + 1, free := free)],
       removed := s.removed + (multiset(Contents(s.pages[b])) - multiset(Contents(after))))
  }

  ghost function DoVacuumMeta(s: State, v: Pid): State
    requires Enabled(s, VacuumMeta(v))
  {
    var vac := s.vacuums[v];
    s.(meta := Meta(0, |vac.free|, vac.free + s.meta.notFull[|vac.free|..]),
       vacuums := s.vacuums[v := vac.(finished := true)])
  }

  /** The tuple's signature has every bit of the query. */
  ghost predicate Wanted(t: Tuple, query: seq<Word>) { |t.sign| == |query| && BloomSignature.Contains(t.sign, query) }

  ghost function DoScanPage(s: State, q: Pid): State
    requires Enabled(s, ScanPage(q))
  {
    var scan := s.scans[q];
    var hits := set t | t in Contents(s.pages[scan.next]) && Wanted(t, scan.query);
    s.(scans := s.scans[q := scan.(next := scan.next + 1, found := scan.found + hits)])
  }

  ghost function DoInsert(s: State, p: Pid, act: Action): State
    requires CanInsert(s, p, act)
  {
    match act
    case Begin(t) => s.(inserters := s.inserters[p := Inserter(t, Starting)])
    case ReadMeta => DoReadMeta(s, p)
    case TryFirst => DoTryFirst(s, p)
    case LockMeta => DoLockMeta(s, p)
    case TryListed => DoTryListed(s, p)
    case Recycle(b) => s.(fsm := s.fsm - {b}, pageLocks := s.pageLocks[b := p], inserters := Move(s, p, HasPage(b)))
    case PassOver(b) => s.(fsm := s.fsm - {b})
    case Extend =>
      var b := |s.pages|;
      s.(pages := s.pages + [New], pageLocks := s.pageLocks[b := p], inserters := Move(s, p, HasPage(b)))
    case AddToNew => DoAddToNew(s, p)
  }

  ghost function Do(s: State, step: Step): State
    requires Enabled(s, step)
  {
    match step
    case Insert(p, act) => DoInsert(s, p, act)
    case VacuumBegin(v, dead) => s.(vacuums := s.vacuums[v := Vacuum(dead, s.pages, HEAD_BLKNO, [], false)])
    case VacuumPage(v) => DoVacuumPage(s, v)
    case VacuumMeta(v) => DoVacuumMeta(s, v)
    case RecordFree(b) => s.(fsm := s.fsm + {b})
    case ScanBegin(q, query) => s.(scans := s.scans[q := Scan(query, s.pages, HEAD_BLKNO, {})])
    case ScanPage(q) => DoScanPage(s, q)
  }

  // ----- runs -----

  /** `steps` can be taken one after the other from `s`. */
  ghost predicate CanRun(s: State, steps: seq<Step>)
    decreases |steps|
  {
    steps == [] || (Enabled(s, steps[0]) && CanRun(Do(s, steps[0]), steps[1..]))
  }

  ghost function Run(s: State, steps: seq<Step>): State
    requires CanRun(s, steps)
    decreases |steps|
  {
    if steps == [] then s else Run(Do(s, steps[0]), steps[1..])
  }

  // ----- the invariant -----

  ghost predicate Shape(s: State) {
    && s.capacity > 0 && s.listSize > 0
    && |s.pages| > 0 && s.pages[0] == New
    && s.meta.nStart <= s.meta.nEnd <= |s.meta.notFull| == s.listSize
    && (forall i :: 0 <= i < s.meta.nEnd ==> HEAD_BLKNO <= s.meta.notFull[i] < |s.pages|)
  }

  ghost predicate HoldsMeta(pc: Pc) { pc.Searching? || pc.NeedsPage? || pc.HasPage? }

  ghost predicate PcOk(s: State, p: Pid)
    requires p in s.inserters
  {
    var i := s.inserters[p];
    && i.t.id == p
    && (HoldsMeta(i.pc) ==> s.metaLock == Some(p))
    && (i.pc.KnowsPage? ==> HEAD_BLKNO <= i.pc.blk < |s.pages|)
    && (i.pc.HasPage? ==>
          && HEAD_BLKNO <= i.pc.blk < |s.pages| && !s.pages[i.pc.blk].Live?
          && i.pc.blk in s.pageLocks && s.pageLocks[i.pc.blk] == p)
  }

  ghost predicate MetaLockOk(s: State) {
    s.metaLock.Some? ==> s.metaLock.value in s.inserters && HoldsMeta(PcOf(s, s.metaLock.value))
  }

  ghost predicate PageLockOk(s: State, b: Block)
    requires b in s.pageLocks
  {
    s.pageLocks[b] in s.inserters && PcOf(s, s.pageLocks[b]) == HasPage(b)
  }

  /** Locks protect what they should: only the holder of the metapage is past the second stage, and a page
      handed out by BloomNewBuffer stays empty until its owner fills it. */
  ghost predicate LocksOk(s: State) {
    && (forall p :: p in s.inserters ==> PcOk(s, p))
    && MetaLockOk(s)
    && (forall b :: b in s.pageLocks ==> PageLockOk(s, b))
  }

  ghost predicate VacuumInFile(s: State, v: Pid)
    requires v in s.vacuums
  {
    var vac := s.vacuums[v];
    && |vac.start| <= |s.pages|
    && 0 < vac.next
    && |vac.free| <= s.listSize
    && (forall i :: 0 <= i < |vac.free| ==> HEAD_BLKNO <= vac.free[i] < |s.pages|)
  }

  ghost predicate Sound(s: State) {
    Shape(s) && LocksOk(s) && forall v :: v in s.vacuums ==> VacuumInFile(s, v)
  }

  lemma OtherSteps(s: State, step: Step)
    requires Enabled(s, step) && !step.Insert?
    ensures var s' := Do(s, step);
      && s'.inserters == s.inserters && s'.metaLock == s.metaLock && s'.pageLocks == s.pageLocks
      && s'.capacity == s.capacity && s'.listSize == s.listSize && |s'.pages| == |s.pages|
      && forall b :: 0 <= b < |s.pages| && s'.pages[b].Live? ==> s.pages[b].Live?
  {
  }

  lemma InsertsLeave(s: State, p: Pid, act: Action)
    requires CanInsert(s, p, act)
    ensures var s' := DoInsert(s, p, act);
      && s'.vacuums == s.vacuums && s'.scans == s.scans && s'.removed == s.removed
      && s'.capacity == s.capacity && s'.listSize == s.listSize && |s'.pages| >= |s.pages|
  {
  }

  lemma ShapeKept(s: State, step: Step)
    requires Sound(s) && Enabled(s, step)
    ensures Shape(Do(s, step))
  {
    match step
    case Insert(p, act) =>
      if p in s.inserters { assert PcOk(s, p); }
      ShapeKeptByInsert(s, p, act);
    case VacuumMeta(v) => assert VacuumInFile(s, v);
    case _ => OtherSteps(s, step);
  }

  lemma ShapeKeptByInsert(s: State, p: Pid, act: Action)
    requires Shape(s) && CanInsert(s, p, act) && (p in s.inserters ==> PcOk(s, p))
    ensures Shape(DoInsert(s, p, act))
  {
  }

  lemma PcKept(s: State, step: Step, p: Pid)
    requires Sound(s) && Enabled(s, step) && p in Do(s, step).inserters
    ensures PcOk(Do(s, step), p)
  {
    if !step.Insert? {
      OtherSteps(s, step);
      PcFrame(s, Do(s, step), p);
    } else {
      hide Shape, VacuumInFile, PcOk;
      InserterKnown(s, step.p, step.act, p);
      if p == step.p { OwnPcKept(s, p, step.act); } else { OtherPcKept(s, step.p, step.act, p); }
    }
  }

  /** A step adds no other inserter than its own. */
  lemma InserterKnown(s: State, p: Pid, act: Action, other: Pid)
    requires CanInsert(s, p, act) && other in DoInsert(s, p, act).inserters
    ensures other == p || other in s.inserters
  {
  }

  lemma PcFrame(s: State, s': State, p: Pid)
    requires p in s.inserters && PcOk(s, p)
    requires s'.inserters == s.inserters && s'.metaLock == s.metaLock && s'.pageLocks == s.pageLocks
    requires |s'.pages| == |s.pages| && forall b :: 0 <= b < |s.pages| && s'.pages[b].Live? ==> s.pages[b].Live?
    ensures PcOk(s', p)
  {
  }

  lemma OwnPcKept(s: State, p: Pid, act: Action)
    requires Shape(s) && CanInsert(s, p, act) && (p in s.inserters ==> PcOk(s, p))
    ensures p in DoInsert(s, p, act).inserters && PcOk(DoInsert(s, p, act), p)
  {
    if act.TryFirst? || act.TryListed? || act.AddToNew? { OwnPcKeptAdding(s, p, act); } else { OwnPcKeptLooking(s, p, act); }
  }

  lemma OwnPcKeptAdding(s: State, p: Pid, act: Action)
    requires Shape(s) && CanInsert(s, p, act) && p in s.inserters && PcOk(s, p) && (act.TryFirst? || act.TryListed? || act.AddToNew?)
    ensures p in DoInsert(s, p, act).inserters && PcOk(DoInsert(s, p, act), p)
  {
    hide HasRoom, WithItem, Prepared, DoReadMeta, DoLockMeta;
  }

  lemma OwnPcKeptLooking(s: State, p: Pid, act: Action)
    requires Shape(s) && CanInsert(s, p, act) && (p in s.inserters ==> PcOk(s, p)) && !act.TryFirst? && !act.TryListed? && !act.AddToNew?
    ensures p in DoInsert(s, p, act).inserters && PcOk(DoInsert(s, p, act), p)
  {
    hide DoTryFirst, DoTryListed, DoAddToNew;
  }

  /** What a step of one inserter leaves to another: its place, the metapage and the page it has locked. */
  lemma OthersKeepPlace(s: State, p: Pid, act: Action, other: Pid)
    requires CanInsert(s, p, act) && other != p && other in s.inserters
    ensures var s' := DoInsert(s, p, act);
      other in s'.inserters && s'.inserters[other] == s.inserters[other] && |s'.pages| >= |s.pages|
  {
    hide HasRoom, WithItem, Prepared;
  }

  lemma OthersKeepMeta(s: State, p: Pid, act: Action, other: Pid)
    requires CanInsert(s, p, act) && other != p && (p in s.inserters ==> PcOk(s, p))
    ensures s.metaLock == Some(other) ==> DoInsert(s, p, act).metaLock == Some(other)
  {
    hide HasRoom, WithItem, Prepared;
  }

  lemma OthersKeepPage(s: State, p: Pid, act: Action, other: Pid, b: Block)
    requires CanInsert(s, p, act) && other != p && (p in s.inserters ==> PcOk(s, p))
    requires b < |s.pages| && b in s.pageLocks && s.pageLocks[b] == other
    ensures var s' := DoInsert(s, p, act);
      b < |s'.pages| && s'.pages[b] == s.pages[b] && b in s'.pageLocks && s'.pageLocks[b] == other
  {
    hide HasRoom, WithItem, Prepared;
  }

  lemma OtherPcKept(s: State, p: Pid, act: Action, other: Pid)
    requires CanInsert(s, p, act) && other != p && other in s.inserters && PcOk(s, other) && (p in s.inserters ==> PcOk(s, p))
    ensures other in DoInsert(s, p, act).inserters && PcOk(DoInsert(s, p, act), other)
  {
    hide CanInsert, DoInsert;
    OthersKeepPlace(s, p, act, other);
    OthersKeepMeta(s, p, act, other);
    var pc := PcOf(s, other);
    if pc.HasPage? { OthersKeepPage(s, p, act, other, pc.blk); }
  }

  lemma MetaLockKept(s: State, step: Step)
    requires Sound(s) && Enabled(s, step)
    ensures MetaLockOk(Do(s, step))
  {
    if step.Insert? {
      MetaLockKeptByInsert(s, step.p, step.act);
    } else {
      hide Shape, VacuumInFile;
      OtherSteps(s, step);
    }
  }

  lemma MetaLockKeptByInsert(s: State, p: Pid, act: Action)
    requires Sound(s) && CanInsert(s, p, act)
    ensures MetaLockOk(DoInsert(s, p, act))
  {
    hide Shape, VacuumInFile;
    if p in s.inserters { assert PcOk(s, p); }
  }

  lemma PageLockKept(s: State, step: Step, b: Block)
    requires Sound(s) && Enabled(s, step) && b in Do(s, step).pageLocks
    ensures PageLockOk(Do(s, step), b)
  {
    if step.Insert? {
      PageLockKeptByInsert(s, step.p, step.act, b);
    } else {
      OtherSteps(s, step);
      assert PageLockOk(s, b);
    }
  }

  lemma PageLockKeptByInsert(s: State, p: Pid, act: Action, b: Block)
    requires Sound(s) && CanInsert(s, p, act) && b in DoInsert(s, p, act).pageLocks
    ensures PageLockOk(DoInsert(s, p, act), b)
  {
    if b in s.pageLocks {
      assert PageLockOk(s, b);
    }
    if p in s.inserters {
      assert PcOk(s, p);
    }
  }

  lemma VacuumKept(s: State, step: Step, v: Pid)
    requires Sound(s) && Enabled(s, step) && v in Do(s, step).vacuums
    ensures VacuumInFile(Do(s, step), v)
  {
    if step.Insert? {
      hide DoInsert, CanInsert, LocksOk, Shape;
      InsertsLeave(s, step.p, step.act);
      assert VacuumInFile(s, v);
    } else {
      VacuumKeptByOthers(s, step, v);
    }
  }

  lemma VacuumKeptByOthers(s: State, step: Step, v: Pid)
    requires Sound(s) && Enabled(s, step) && !step.Insert? && v in Do(s, step).vacuums
    ensures VacuumInFile(Do(s, step), v)
  {
    hide LocksOk, Vacuumed;
    OtherSteps(s, step);
    if v in s.vacuums { assert VacuumInFile(s, v); }
  }

  lemma SoundKept(s: State, step: Step)
    requires Sound(s) && Enabled(s, step)
    ensures Sound(Do(s, step))
  {
    var s' := Do(s, step);
    ShapeKept(s, step);
    MetaLockKept(s, step);
    forall p | p in s'.inserters ensures PcOk(s', p) { PcKept(s, step, p); }
    forall b | b in s'.pageLocks ensures PageLockOk(s', b) { PageLockKept(s, step, b); }
    forall v | v in s'.vacuums ensures VacuumInFile(s', v) { VacuumKept(s, step, v); }
  }

  // ----- conservation -----

  /** All tuples on pages in use, with multiplicity. */
  ghost function Total(pages: seq<Page>): multiset<Tuple> {
    if pages == [] then multiset{}
    else Total(pages[..|pages| - 1]) + multiset(Contents(pages[|pages| - 1]))
  }

  lemma {:induction false} TotalUpdate(pages: seq<Page>, b: Block, p: Page, t: Tuple)
    requires b < |pages|
    ensures Total(pages)[t] >= multiset(Contents(pages[b]))[t]
    ensures Total(pages[b := p])[t] + multiset(Contents(pages[b]))[t] == Total(pages)[t] + multiset(Contents(p))[t]
  {
    var n := |pages| - 1;
    var after := pages[b := p];
    if b == n {
      assert after[..n] == pages[..n];
    } else {
      assert after[..n] == pages[..n][b := p];
      TotalUpdate(pages[..n], b, p, t);
    }
  }

  lemma TotalExtend(pages: seq<Page>)
    ensures Total(pages + [New]) == Total(pages)
  {
    assert (pages + [New])[..|pages|] == pages;
  }

  lemma {:induction false} TotalHas(pages: seq<Page>, t: Tuple)
    ensures t in Total(pages) <==> exists b :: 0 <= b < |pages| && t in Contents(pages[b])
  {
    if pages != [] {
      var n := |pages| - 1;
      TotalHas(pages[..n], t);
      assert forall b :: 0 <= b < n ==> pages[..n][b] == pages[b];
      assert t in Total(pages) <==> t in Total(pages[..n]) || t in Contents(pages[n]);
    }
  }

  /** The call that inserts this tuple has returned. */
  ghost predicate Inserted(s: State, t: Tuple) {
    t.id in s.inserters && s.inserters[t.id] == Inserter(t, Returned)
  }

  /** A tuple whose insertion has returned is in the index or was removed, once; any other tuple is nowhere. */
  ghost predicate Tally(s: State, t: Tuple) {
    Total(s.pages)[t] + s.removed[t] == if Inserted(s, t) then 1 else 0
  }

  /** A process that has not returned, and does not return in this step, changes no tally while the contents stay the same. */
  lemma TallyQuiet(s: State, p: Pid, i: Inserter, s': State, t: Tuple)
    requires p in s.inserters ==> !PcOf(s, p).Returned?
    requires s'.inserters == s.inserters[p := i] && !i.pc.Returned?
    requires Total(s'.pages) == Total(s.pages) && s'.removed == s.removed
    requires Tally(s, t)
    ensures Tally(s', t)
  {
  }

  lemma AddOnce(s: State, p: Pid, b: Block, s': State, t: Tuple)
    requires p in s.inserters && s.inserters[p].t.id == p && !PcOf(s, p).Returned? && b < |s.pages|
    requires s'.pages == s.pages[b := WithItem(Prepared(s.pages[b]), s.inserters[p].t)]
    requires s'.inserters == Move(s, p, Returned) && s'.removed == s.removed
    requires Tally(s, t)
    ensures Tally(s', t)
  {
    var own := s.inserters[p].t;
    TotalUpdate(s.pages, b, s'.pages[b], t);
    AppendCount(Contents(s.pages[b]), own, t);
    assert Inserted(s', t) <==> Inserted(s, t) || t == own;
  }

  lemma AppendCount(tuples: seq<Tuple>, own: Tuple, t: Tuple)
    ensures multiset(tuples + [own])[t] == multiset(tuples)[t] + if t == own then 1 else 0
  {
  }

  lemma TallyTryFirst(s: State, p: Pid, t: Tuple)
    requires CanInsert(s, p, TryFirst) && s.inserters[p].t.id == p && Tally(s, t)
    ensures Tally(DoTryFirst(s, p), t)
  {
    var b := PcOf(s, p).blk;
    if HasRoom(s.pages[b], s.capacity) {
      AddOnce(s, p, b, DoTryFirst(s, p), t);
    }
  }

  lemma TallyTryListed(s: State, p: Pid, t: Tuple)
    requires CanInsert(s, p, TryListed) && s.inserters[p].t.id == p && Tally(s, t)
    ensures Tally(DoTryListed(s, p), t)
  {
    var n := PcOf(s, p).nStart;
    if n < s.meta.nEnd && HasRoom(s.pages[s.meta.notFull[n]], s.capacity) {
      AddOnce(s, p, s.meta.notFull[n], DoTryListed(s, p), t);
    }
  }

  lemma TallyAddToNew(s: State, p: Pid, t: Tuple)
    requires CanInsert(s, p, AddToNew) && s.inserters[p].t.id == p && !s.pages[PcOf(s, p).blk].Live? && Tally(s, t)
    ensures Tally(DoAddToNew(s, p), t)
  {
    AddOnce(s, p, PcOf(s, p).blk, DoAddToNew(s, p), t);
  }

  lemma TallyInsert(s: State, p: Pid, act: Action, t: Tuple)
    requires CanInsert(s, p, act) && (p in s.inserters ==> PcOk(s, p)) && Tally(s, t)
    ensures Tally(DoInsert(s, p, act), t)
  {
    match act
    case TryFirst => TallyTryFirst(s, p, t);
    case TryListed => TallyTryListed(s, p, t);
    case AddToNew => TallyAddToNew(s, p, t);
    case PassOver(_) =>
    case _ =>
      TotalExtend(s.pages);
      TallyQuiet(s, p, DoInsert(s, p, act).inserters[p], DoInsert(s, p, act), t);
  }

  lemma TallyOther(s: State, step: Step, t: Tuple)
    requires Enabled(s, step) && !step.Insert? && Tally(s, t)
    ensures Tally(Do(s, step), t)
  {
    if step.VacuumPage? {
      var vac := s.vacuums[step.v];
      var after := Vacuumed(s.pages[vac.next], vac.dead);
      TotalUpdate(s.pages, vac.next, after, t);
      VacuumedContents(s.pages[vac.next], vac.dead);
      KeptMultiset(Contents(s.pages[vac.next]), vac.dead, t);
    }
  }

  lemma TallyKept(s: State, step: Step, t: Tuple)
    requires Sound(s) && Enabled(s, step) && Tally(s, t)
    ensures Tally(Do(s, step), t)
  {
    if step.Insert? {
      if step.p in s.inserters { assert PcOk(s, step.p); }
      TallyInsert(s, step.p, step.act, t);
    } else {
      TallyOther(s, step, t);
    }
  }

  // ----- tuples stay where they are -----

  lemma {:induction false} KeptMembers(tuples: seq<Tuple>, dead: iset<nat>, t: Tuple)
    ensures t in Kept(tuples, dead) <==> t in tuples && t.tid !in dead
  {
    KeptMultiset(tuples, dead, t);
    assert t in Kept(tuples, dead) <==> multiset(Kept(tuples, dead))[t] > 0;
    assert t in tuples <==> multiset(tuples)[t] > 0;
  }

  /** No step moves a tuple to another page: it is still there, or it has been removed. */
  lemma StaysPut(s: State, step: Step, b: Block, t: Tuple)
    requires Sound(s) && Enabled(s, step) && b < |s.pages|
    ensures b < |Do(s, step).pages|
    ensures t in s.removed ==> t in Do(s, step).removed
    ensures t in Contents(s.pages[b]) ==> t in Contents(Do(s, step).pages[b]) || t in Do(s, step).removed
  {
    if step.Insert? {
      StaysPutByInsert(s, step.p, step.act, b, t);
    } else {
      OtherSteps(s, step);
      if step.VacuumPage? && t in Contents(s.pages[b]) { VacuumTakes(s, step.v, b, t); }
    }
  }

  lemma StaysPutByInsert(s: State, p: Pid, act: Action, b: Block, t: Tuple)
    requires Sound(s) && CanInsert(s, p, act) && b < |s.pages|
    ensures var s' := DoInsert(s, p, act);
      b < |s'.pages| && s'.removed == s.removed && (t in Contents(s.pages[b]) ==> t in Contents(s'.pages[b]))
  {
    hide Shape, VacuumInFile;
    InsertsLeave(s, p, act);
    if p in s.inserters { assert PcOk(s, p); }
  }

  /** What one vacuum step does to a tuple of page `b`. */
  lemma VacuumTakes(s: State, v: Pid, b: Block, t: Tuple)
    requires Enabled(s, VacuumPage(v)) && b < |s.pages| && t in Contents(s.pages[b])
    ensures var s' := Do(s, VacuumPage(v));
      && (t in Contents(s'.pages[b]) || t in s'.removed)
      && (b == s.vacuums[v].next && t.tid in s.vacuums[v].dead ==> t in s'.removed)
  {
    var vac := s.vacuums[v];
    var before := Contents(s.pages[vac.next]);
    VacuumedContents(s.pages[vac.next], vac.dead);
    if b == vac.next {
      KeptMultiset(before, vac.dead, t);
      assert multiset(before)[t] > 0;
      KeptMembers(before, vac.dead, t);
    }
  }

  // ----- histories of vacuums and scans -----

  /** A tuple that was on page `b` when the vacuum began is there or gone; if the page has been visited and
      the callback names the tuple, it is gone. */
  ghost predicate VacuumTracks(s: State, v: Pid, b: Block, t: Tuple)
    requires v in s.vacuums
  {
    var vac := s.vacuums[v];
    b < |vac.start| && t in Contents(vac.start[b]) ==>
      && b < |s.pages|
      && (t in Contents(s.pages[b]) || t in s.removed)
      && (HEAD_BLKNO <= b < vac.next && t.tid in vac.dead ==> t in s.removed)
  }

  lemma VacuumTracksKept(s: State, step: Step, v: Pid, b: Block, t: Tuple)
    requires Sound(s) && Enabled(s, step) && v in Do(s, step).vacuums
    requires v in s.vacuums ==> VacuumTracks(s, v, b, t)
    ensures VacuumTracks(Do(s, step), v, b, t)
  {
    if b < |s.pages| { StaysPut(s, step, b, t); }
    if step.Insert? {
      InsertsLeave(s, step.p, step.act);
    } else if step == VacuumPage(v) {
      if b < |s.pages| && t in Contents(s.pages[b]) { VacuumTakes(s, v, b, t); }
    } else if v in s.vacuums {
      assert Do(s, step).vacuums[v].next == s.vacuums[v].next;
    }
  }

  /** The same for a scan: if the page has been visited and the tuple matches, it was found or is gone. */
  ghost predicate ScanTracks(s: State, q: Pid, b: Block, t: Tuple)
    requires q in s.scans
  {
    var scan := s.scans[q];
    b < |scan.start| && t in Contents(scan.start[b]) ==>
      && b < |s.pages|
      && (t in Contents(s.pages[b]) || t in s.removed)
      && (HEAD_BLKNO <= b < scan.next && Wanted(t, scan.query) ==> t in scan.found || t in s.removed)
  }

  lemma ScanTracksKept(s: State, step: Step, q: Pid, b: Block, t: Tuple)
    requires Sound(s) && Enabled(s, step) && q in Do(s, step).scans
    requires q in s.scans ==> ScanTracks(s, q, b, t)
    ensures ScanTracks(Do(s, step), q, b, t)
  {
    if b < |s.pages| { StaysPut(s, step, b, t); }
    if step.Insert? {
      InsertsLeave(s, step.p, step.act);
    } else if step != ScanPage(q) && q in s.scans {
      assert Do(s, step).scans[q] == s.scans[q];
    }
  }

  /** A scan finds only matching tuples whose insertion has returned. */
  ghost predicate FoundOk(s: State, q: Pid, t: Tuple)
    requires q in s.scans
  {
    t in s.scans[q].found ==> Wanted(t, s.scans[q].query) && Inserted(s, t)
  }

  lemma InsertedStays(s: State, step: Step, t: Tuple)
    requires Enabled(s, step) && Inserted(s, t)
    ensures Inserted(Do(s, step), t)
  {
    if !step.Insert? { OtherSteps(s, step); }
  }

  lemma FoundKept(s: State, step: Step, q: Pid, t: Tuple)
    requires Sound(s) && Enabled(s, step) && q in Do(s, step).scans && Tally(s, t)
    requires q in s.scans ==> FoundOk(s, q, t)
    ensures FoundOk(Do(s, step), q, t)
  {
    if Inserted(s, t) { InsertedStays(s, step, t); }
    if step.Insert? {
      InsertsLeave(s, step.p, step.act);
    } else if step == ScanPage(q) {
      TotalHas(s.pages, t);
      assert Total(s.pages)[t] > 0 <==> t in Total(s.pages);
    } else if q in s.scans {
      assert Do(s, step).scans[q] == s.scans[q];
    }
  }

  /** Only tuples that some vacuum's callback names are removed. */
  ghost predicate RemovedOk(s: State, t: Tuple) {
    t in s.removed ==> exists v :: v in s.vacuums && t.tid in s.vacuums[v].dead
  }

  lemma RemovedKept(s: State, step: Step, t: Tuple)
    requires Sound(s) && Enabled(s, step) && RemovedOk(s, t)
    ensures RemovedOk(Do(s, step), t)
  {
    var s' := Do(s, step);
    if step.Insert? {
      InsertsLeave(s, step.p, step.act);
    } else {
      assert forall v :: v in s.vacuums ==> v in s'.vacuums && s'.vacuums[v].dead == s.vacuums[v].dead;
      if step.VacuumPage? {
        var vac := s.vacuums[step.v];
        VacuumedContents(s.pages[vac.next], vac.dead);
        KeptMultiset(Contents(s.pages[vac.next]), vac.dead, t);
        assert t in s'.removed && t !in s.removed ==> t.tid in s'.vacuums[step.v].dead;
      }
    }
  }

  /** No page holds more than fits on it. */
  ghost predicate PagesFit(s: State) {
    forall b :: 0 <= b < |s.pages| ==> |Contents(s.pages[b])| <= s.capacity
  }

  lemma FitsUpdate(s: State, b: Block, page: Page, s': State)
    requires PagesFit(s) && b < |s.pages| && s'.capacity == s.capacity && s'.pages == s.pages[b := page] && |Contents(page)| <= s.capacity
    ensures PagesFit(s')
  {
  }

  lemma FitsKeptByInsert(s: State, p: Pid, act: Action)
    requires PagesFit(s) && Shape(s) && CanInsert(s, p, act)
    ensures PagesFit(DoInsert(s, p, act))
  {
    var s' := DoInsert(s, p, act);
    match act
    case TryFirst =>
      var b := PcOf(s, p).blk;
      if HasRoom(s.pages[b], s.capacity) { FitsUpdate(s, b, s'.pages[b], s'); }
    case TryListed =>
      var n := PcOf(s, p).nStart;
      if n < s.meta.nEnd && HasRoom(s.pages[s.meta.notFull[n]], s.capacity) {
        FitsUpdate(s, s.meta.notFull[n], s'.pages[s.meta.notFull[n]], s');
      }
    case AddToNew => FitsUpdate(s, PcOf(s, p).blk, s'.pages[PcOf(s, p).blk], s');
    case _ =>
  }

  /** Every step tests for room before it adds. */
  lemma FitsKept(s: State, step: Step)
    requires PagesFit(s) && Shape(s) && Enabled(s, step)
    ensures PagesFit(Do(s, step))
  {
    match step
    case Insert(p, act) => FitsKeptByInsert(s, p, act);
    case VacuumPage(v) =>
      var b := s.vacuums[v].next;
      VacuumedContents(s.pages[b], s.vacuums[v].dead);
      FitsUpdate(s, b, Do(s, step).pages[b], Do(s, step));
    case _ =>
  }

  /**
   A try at a page puts the tuple there and ends the call exactly when the page has room; a page of the list that took
   the tuple is then the first of the list.
   */
  lemma TriedExactly(s: State, p: Pid, act: Action)
    requires Sound(s) && CanInsert(s, p, act)
    requires act == TryFirst || (act == TryListed && PcOf(s, p).nStart < s.meta.nEnd)
    ensures var b := if act == TryFirst then PcOf(s, p).blk else s.meta.notFull[PcOf(s, p).nStart];
      var s' := DoInsert(s, p, act);
      && b < |s.pages| && |s'.pages| == |s.pages| && p in s'.inserters
      && (PcOf(s', p).Returned? <==> |Contents(s.pages[b])| < s.capacity)
      && Contents(s'.pages[b]) == Contents(s.pages[b]) + (if PcOf(s', p).Returned? then [s.inserters[p].t] else [])
      && (act == TryListed && PcOf(s', p).Returned? ==> s'.meta.nStart < s'.meta.nEnd && s'.meta.notFull[s'.meta.nStart] == b)
  {
    hide VacuumInFile;
    assert PcOk(s, p);
  }

  ghost predicate Inv(s: State) {
    && Sound(s)
    && PagesFit(s)
    && (forall t :: Tally(s, t))
    && (forall t :: RemovedOk(s, t))
    && (forall v, b, t :: v in s.vacuums ==> VacuumTracks(s, v, b, t))
    && (forall q, b, t :: q in s.scans ==> ScanTracks(s, q, b, t))
    && (forall q, t :: q in s.scans ==> FoundOk(s, q, t))
  }

  /** Every step of every process keeps the invariant. */
  lemma InvKept(s: State, step: Step)
    requires Inv(s) && Enabled(s, step)
    ensures Inv(Do(s, step))
  {
    var s' := Do(s, step);
    SoundKept(s, step);
    FitsKept(s, step);
    forall t ensures Tally(s', t) { TallyKept(s, step, t); }
    forall t ensures RemovedOk(s', t) { RemovedKept(s, step, t); }
    forall v, b, t | v in s'.vacuums ensures VacuumTracks(s', v, b, t) { VacuumTracksKept(s, step, v, b, t); }
    forall q, b, t | q in s'.scans ensures ScanTracks(s', q, b, t) { ScanTracksKept(s, step, q, b, t); }
    forall q, t | q in s'.scans ensures FoundOk(s', q, t) { FoundKept(s, step, q, t); }
  }

  /**
   An index as it is built: the metapage, whose free list is empty, and pages on which each tuple stands once.
   Each of these tuples counts as the work of a call that has returned.
   */
  ghost predicate Init(s: State) {
    && s.capacity > 0 && s.listSize > 0
    && |s.pages| > 0 && s.pages[0] == New && s.meta.nStart == s.meta.nEnd == 0 && |s.meta.notFull| == s.listSize
    && s.fsm == {} && s.metaLock == None && s.pageLocks == map[]
    && s.vacuums == map[] && s.scans == map[] && s.removed == multiset{}
    && (forall p :: p in s.inserters ==> s.inserters[p].pc == Returned && s.inserters[p].t.id == p)
    && PagesFit(s)
    && forall t :: Tally(s, t)
  }

  lemma InitIsInv(s: State)
    requires Init(s)
    ensures Inv(s)
  {
  }

  lemma {:induction false} TotalIsAll(pages: seq<Page>)
    ensures Total(pages) == multiset(AllTuples(pages))
  {
    if pages != [] {
      TotalIsAll(pages[..|pages| - 1]);
    } else {
      assert AllTuples(pages) == [];
    }
  }

  predicate DistinctIds(tuples: seq<Tuple>) {
    forall i, j :: 0 <= i < j < |tuples| ==> tuples[i].id != tuples[j].id
  }

  lemma {:induction false} CountOfDistinct(tuples: seq<Tuple>, t: Tuple)
    requires DistinctIds(tuples)
    ensures multiset(tuples)[t] == if t in tuples then 1 else 0
  {
    if tuples != [] {
      CountOfDistinct(tuples[1..], t);
      assert tuples == [tuples[0]] + tuples[1..];
    }
  }

  lemma {:induction false} TotalBehindMetapage(pages: seq<Page>)
    ensures Total([New] + pages) == Total(pages)
  {
    if pages == [] {
      assert ([New] + pages)[..0] == [];
    } else {
      var n := |pages| - 1;
      TotalBehindMetapage(pages[..n]);
      assert ([New] + pages)[..n + 1] == [New] + pages[..n];
    }
  }

  /** What `Build` leaves, behind a metapage with an empty list, is such an index. */
  lemma BuildIsInit(tuples: seq<Tuple>, pages: seq<Page>, s: State)
    requires AllTuples(pages) == tuples && DistinctIds(tuples) && s.pages == [New] + pages
    requires forall i :: 0 <= i < |pages| ==> |Contents(pages[i])| <= s.capacity
    requires s.capacity > 0 && s.listSize > 0 && s.meta.nStart == s.meta.nEnd == 0 && |s.meta.notFull| == s.listSize
    requires s.fsm == {} && s.metaLock == None && s.pageLocks == map[]
    requires s.vacuums == map[] && s.scans == map[] && s.removed == multiset{}
    requires forall p :: p in s.inserters ==> s.inserters[p].pc == Returned && s.inserters[p].t.id == p
    requires forall t :: t in tuples <==> Inserted(s, t)
    ensures Init(s)
  {
    hide PagesFit;
    TotalBehindMetapage(pages);
    TotalIsAll(pages);
    forall t ensures Tally(s, t) { CountOfDistinct(tuples, t); }
    FitsAtStart(pages, s);
  }

  lemma FitsAtStart(pages: seq<Page>, s: State)
    requires s.pages == [New] + pages && forall i :: 0 <= i < |pages| ==> |Contents(pages[i])| <= s.capacity
    ensures PagesFit(s)
  {
    forall b | 0 <= b < |s.pages| ensures |Contents(s.pages[b])| <= s.capacity {
      if b > 0 { assert s.pages[b] == pages[b - 1]; }
    }
  }

  lemma {:induction false} RunKeepsInv(s: State, steps: seq<Step>)
    requires Inv(s) && CanRun(s, steps)
    ensures Inv(Run(s, steps))
    decreases |steps|
  {
    if steps != [] {
      InvKept(s, steps[0]);
      RunKeepsInv(Do(s, steps[0]), steps[1..]);
    }
  }

  // ----- what holds after every run -----

  /** After any interleaving no page holds more tuples than fit on it. */
  lemma NoPageOverflows(init: State, steps: seq<Step>, b: Block)
    requires Init(init) && CanRun(init, steps) && b < |Run(init, steps).pages|
    ensures |Contents(Run(init, steps).pages[b])| <= Run(init, steps).capacity
  {
    hide Tally, RemovedOk, VacuumTracks, ScanTracks, FoundOk, Sound;
    InitIsInv(init);
    RunKeepsInv(init, steps);
  }

  /** The pages that vacuum `v` noted as having room, as it came to them on the way. */
  ghost function Noted(s: State, steps: seq<Step>, v: Pid): seq<Block>
    requires CanRun(s, steps)
    decreases |steps|
  {
    if steps == [] then []
    else
      NotedBy(s, steps[0], v) + Noted(Do(s, steps[0]), steps[1..], v)
  }

  /** The page that a step of vacuum `v` notes, if any. */
  ghost function NotedBy(s: State, step: Step, v: Pid): seq<Block>
    requires Enabled(s, step)
  {
    if step == VacuumPage(v) && Frees(s.pages[s.vacuums[v].next], s.vacuums[v].dead, s.capacity) then [s.vacuums[v].next] else []
  }

  function AtMost(list: seq<Block>, n: nat): seq<Block> { if |list| <= n then list else list[..n] }

  lemma AtMostMore(a: seq<Block>, b: seq<Block>, c: seq<Block>, n: nat)
    ensures AtMost(AtMost(a + b, n) + c, n) == AtMost(a + (b + c), n)
  {
    assert a + b + c == a + (b + c);
  }

  lemma FreeListStep(s: State, step: Step, v: Pid)
    requires Enabled(s, step) && v in s.vacuums && |s.vacuums[v].free| <= s.listSize
    ensures var s' := Do(s, step);
      && v in s'.vacuums && s'.listSize == s.listSize && |s'.vacuums[v].free| <= s'.listSize
      && s'.vacuums[v].free == AtMost(s.vacuums[v].free + NotedBy(s, step, v), s.listSize)
  {
    hide Vacuumed, Frees, CanInsert, DoInsert;
    if step.Insert? { InsertsLeave(s, step.p, step.act); }
    assert s.vacuums[v].free + [] == s.vacuums[v].free;
  }

  /**
   The free list of a vacuum holds, in order and up to the size of the list, exactly the pages that still had tuples and
   had room when it came to them.
   */
  lemma {:induction false} FreeListExact(s: State, steps: seq<Step>, v: Pid)
    requires CanRun(s, steps) && v in s.vacuums && |s.vacuums[v].free| <= s.listSize
    ensures v in Run(s, steps).vacuums
    ensures Run(s, steps).vacuums[v].free == AtMost(s.vacuums[v].free + Noted(s, steps, v), s.listSize)
    decreases |steps|
  {
    if steps == [] {
      assert s.vacuums[v].free + [] == s.vacuums[v].free;
    } else {
      hide Enabled, Do, NotedBy, AtMost;
      FreeListStep(s, steps[0], v);
      FreeListExact(Do(s, steps[0]), steps[1..], v);
      AtMostMore(s.vacuums[v].free, NotedBy(s, steps[0], v), Noted(Do(s, steps[0]), steps[1..], v), s.listSize);
    }
  }

  lemma OnePage(pages: seq<Page>, t: Tuple, b: Block, c: Block)
    requires b < |pages| && c < |pages| && t in Contents(pages[b]) && t in Contents(pages[c])
    requires Total(pages)[t] <= 1
    ensures b == c
  {
    assert multiset(Contents(pages[b]))[t] > 0 && multiset(Contents(pages[c]))[t] > 0;
    TotalUpdate(pages, b, New, t);
    TotalUpdate(pages[b := New], c, New, t);
  }

  /**
   After any interleaving of any number of inserters, vacuums and scans: a tuple whose insertion has
   returned and that no vacuum removed is on exactly one page, exactly once; a removed tuple is on no page,
   and some vacuum's callback named it; a tuple whose insertion has not returned is nowhere.
   */
  lemma EveryTupleOnce(init: State, steps: seq<Step>, t: Tuple)
    requires Init(init) && CanRun(init, steps)
    ensures var s := Run(init, steps);
      && (Inserted(s, t) && t !in s.removed ==>
            exists b :: 0 <= b < |s.pages| && multiset(Contents(s.pages[b]))[t] == 1 &&
                        forall c :: 0 <= c < |s.pages| && c != b ==> t !in Contents(s.pages[c]))
      && (!Inserted(s, t) || t in s.removed ==> forall b :: 0 <= b < |s.pages| ==> t !in Contents(s.pages[b]))
      && (t in s.removed ==> Inserted(s, t) && exists v :: v in s.vacuums && t.tid in s.vacuums[v].dead)
  {
    InitIsInv(init);
    RunKeepsInv(init, steps);
    var s := Run(init, steps);
    assert Tally(s, t) && RemovedOk(s, t);
    TotalHas(s.pages, t);
    assert t in Total(s.pages) <==> Total(s.pages)[t] > 0;
    if t in Total(s.pages) {
      var b :| 0 <= b < |s.pages| && t in Contents(s.pages[b]);
      TotalUpdate(s.pages, b, New, t);
      assert multiset(Contents(s.pages[b]))[t] == 1;
      forall c | 0 <= c < |s.pages| && c != b ensures t !in Contents(s.pages[c]) {
        if t in Contents(s.pages[c]) { OnePage(s.pages, t, b, c); }
      }
    }
  }

  /**
   A scan that has read all the pages it counted has found every matching tuple that was in the index when
   it began and has not been removed since, and it found nothing else than matching, inserted tuples.
   */
  lemma ScanIsComplete(init: State, steps: seq<Step>, q: Pid, b: Block, t: Tuple)
    requires Init(init) && CanRun(init, steps)
    requires q in Run(init, steps).scans && Run(init, steps).scans[q].next >= |Run(init, steps).scans[q].start|
    ensures var s := Run(init, steps);
      var scan := s.scans[q];
      && (HEAD_BLKNO <= b < |scan.start| && t in Contents(scan.start[b]) && Wanted(t, scan.query) && t !in s.removed ==>
            t in scan.found)
      && (t in scan.found ==> Wanted(t, scan.query) && Inserted(s, t))
  {
    InitIsInv(init);
    RunKeepsInv(init, steps);
    var s := Run(init, steps);
    assert ScanTracks(s, q, b, t) && FoundOk(s, q, t);
  }

  /** A vacuum that has visited all the pages it counted has removed every tuple that its callback names and
      that was in the index when it began. */
  lemma VacuumIsComplete(init: State, steps: seq<Step>, v: Pid, b: Block, t: Tuple)
    requires Init(init) && CanRun(init, steps)
    requires v in Run(init, steps).vacuums && Run(init, steps).vacuums[v].next >= |Run(init, steps).vacuums[v].start|
    ensures var s := Run(init, steps);
      var vac := s.vacuums[v];
      HEAD_BLKNO <= b < |vac.start| && t in Contents(vac.start[b]) && t.tid in vac.dead ==> t in s.removed
  {
    InitIsInv(init);
    RunKeepsInv(init, steps);
    assert VacuumTracks(Run(init, steps), v, b, t);
  }

  /**
   End to end: a row that was in the index when a finished scan began, whose columns hash like the values
   searched for, and that no vacuum has removed, is among the tuples found.
   */
  lemma RowIsFound<V>(init: State, steps: seq<Step>, q: Pid, b: Block, t: Tuple,
                      o: Options, hash: (nat, V) -> bv32, row: seq<Option<V>>, keys: seq<ScanKey<V>>)
    requires Init(init) && CanRun(init, steps)
    requires q in Run(init, steps).scans && Run(init, steps).scans[q].next >= |Run(init, steps).scans[q].start|
    requires ValidOptions(o) && |row| <= |o.bitSize| && (forall k <- keys :: k.argument.Some? && k.attno < |row|)
    requires IsSignature(o, hash, Columns(row), t.sign)
    requires IsSignature(o, hash, Searched(keys), Run(init, steps).scans[q].query)
    requires forall k <- keys :: row[k.attno].Some? && hash(k.attno, k.argument.value) == hash(k.attno, row[k.attno].value)
    requires HEAD_BLKNO <= b < |Run(init, steps).scans[q].start| && t in Contents(Run(init, steps).scans[q].start[b])
    requires t !in Run(init, steps).removed
    ensures t in Run(init, steps).scans[q].found
  {
    NoFalseNegatives(o, hash, row, t.sign, keys, Run(init, steps).scans[q].query);
    ScanIsComplete(init, steps, q, b, t);
  }
}

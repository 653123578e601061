/**
 Pages of a bloom index (contrib/bloom/bloom.h, blutils.c, blvacuum.c, blinsert.c): their abstract
 contents, and the buffer that `BloomPageAddItem` and the compaction loop of `blbulkdelete` change in place.
 */
module BloomPage {
  import opened BloomSignature

  /** An index tuple.  `id` tells apart the calls that made them; it is not stored in the file. */
  datatype Tuple = Tuple(id: nat, tid: nat, sign: seq<Word>)

  /** What a page holds: never initialized, marked deleted, or in use. */
  datatype Page = New | Deleted | Live(tuples: seq<Tuple>)

  function Contents(p: Page): seq<Tuple> { if p.Live? then p.tuples else [] }

  // ----- space -----

  const BLCKSZ: nat := 8192
  const PAGE_HEADER: nat := 24
  const PAGE_OPAQUE: nat := 8
  const TUPLE_HEADER: nat := 6
  const MAX_BLOOM_WORDS: nat := 256

  /** `sizeOfBloomTuple`. */
  function TupleSize(words: nat): (size: nat)
    ensures size > 0
  {
    TUPLE_HEADER + 2 * words
  }

  /** `BloomPageGetFreeSpace`. */
  function FreeSpace(size: nat, maxoff: nat): int {
    BLCKSZ - PAGE_HEADER - maxoff * size - PAGE_OPAQUE
  }

  /** How many tuples fit on a page. */
  function Capacity(size: nat): nat
    requires size > 0
  {
    (BLCKSZ - PAGE_HEADER - PAGE_OPAQUE) / size
  }

  /** One more tuple fits exactly below the capacity. */
  lemma FitsBelowCapacity(size: nat, maxoff: nat)
    requires size > 0
    ensures FreeSpace(size, maxoff) >= size <==> maxoff < Capacity(size)
  {
    var room := BLCKSZ - PAGE_HEADER - PAGE_OPAQUE;
    var c := Capacity(size);
    assert c * size <= room < (c + 1) * size;
    if maxoff < c {
      assert (maxoff + 1) * size <= c * size;
    } else {
      assert (maxoff + 1) * size >= (c + 1) * size;
    }
  }

  /** Every permitted signature length leaves room for a tuple on an empty page. */
  lemma EmptyPageHasRoom(words: nat)
    requires words <= MAX_BLOOM_WORDS
    ensures Capacity(TupleSize(words)) >= 15
  {
    var size := TupleSize(words);
    FitsBelowCapacity(size, 14);
  }

  // ----- what the operations do to a page -----

  /** The page on which `blinsert` tries to add: a new or deleted page is initialized first. */
  function Prepared(p: Page): Page { if p.Live? then p else Live([]) }

  predicate HasRoom(p: Page, capacity: nat) { |Contents(p)| < capacity }

  function WithItem(p: Page, t: Tuple): Page { Live(Contents(p) + [t]) }

  /** The tuples that VACUUM's callback does not ask to delete, in their order. */
  ghost function Kept(tuples: seq<Tuple>, dead: iset<nat>): (kept: seq<Tuple>)
    ensures |kept| <= |tuples|
  {
    if tuples == [] then []
    else
      var n := |tuples| - 1;
      if tuples[n].tid in dead then Kept(tuples[..n], dead) else Kept(tuples[..n], dead) + [tuples[n]]
  }

  lemma KeptNext(tuples: seq<Tuple>, n: nat, dead: iset<nat>)
    requires n < |tuples|
    ensures Kept(tuples[..n + 1], dead) ==
      if tuples[n].tid in dead then Kept(tuples[..n], dead) else Kept(tuples[..n], dead) + [tuples[n]]
  {
    assert tuples[..n + 1][..n] == tuples[..n];
  }

  /** A page after `blbulkdelete` visited it. */
  ghost function Vacuumed(p: Page, dead: iset<nat>): Page {
    if !p.Live? then p
    else
      var kept := Kept(p.tuples, dead);
      if |kept| == |p.tuples| then p
      else if kept == [] then Deleted
      else Live(kept)
  }

  /** Whether `blbulkdelete` notes the page as one with room: something is left on it, and something still fits. */
  ghost predicate Frees(p: Page, dead: iset<nat>, capacity: nat) {
    0 < |Kept(Contents(p), dead)| < capacity
  }

  lemma {:induction false} KeptAll(tuples: seq<Tuple>, dead: iset<nat>)
    ensures |Kept(tuples, dead)| == |tuples| ==> Kept(tuples, dead) == tuples
  {
    if tuples != [] {
      var n := |tuples| - 1;
      KeptAll(tuples[..n], dead);
      assert tuples == tuples[..n] + [tuples[n]];
    }
  }

  lemma {:induction false} KeptMultiset(tuples: seq<Tuple>, dead: iset<nat>, t: Tuple)
    ensures multiset(Kept(tuples, dead))[t] == if t.tid in dead then 0 else multiset(tuples)[t]
  {
    if tuples != [] {
      var n := |tuples| - 1;
      KeptMultiset(tuples[..n], dead, t);
      assert tuples == tuples[..n] + [tuples[n]];
    }
  }

  /** Vacuuming a page drops exactly the tuples the callback names, and keeps the others in order. */
  lemma VacuumedContents(p: Page, dead: iset<nat>)
    ensures Contents(Vacuumed(p, dead)) == Kept(Contents(p), dead)
  {
    KeptAll(Contents(p), dead);
  }

  // ----- the buffer -----

  /** A page buffer: `maxoff` and the deleted flag of the opaque area, `pd_lower`, and the tuple slots. */
  class Buffer {
    const size: nat
    const slots: array<Tuple>
    var isNew: bool
    var deleted: bool
    var maxoff: nat
    var pdLower: nat

    ghost predicate Valid()
      reads this
    {
      && size > 0 && slots.Length == Capacity(size)
      && maxoff <= slots.Length
      && (isNew || deleted ==> maxoff == 0)
      && (!isNew ==> pdLower == PAGE_HEADER + maxoff * size)
    }

    function Value(): Page
      reads this, slots
      requires Valid()
    {
      if isNew then New else if deleted then Deleted else Live(slots[..maxoff])
    }

    /** A block as the storage manager extends the file with it. */
    constructor (size: nat, filler: Tuple)
      requires size > 0
      ensures Valid() && Value() == New && this.size == size && fresh(slots)
    {
      this.size := size;
      slots := new Tuple[Capacity(size)](_ => filler);
      isNew, deleted, maxoff, pdLower := true, false, 0, 0;
    }

    /** `BloomInitPage`. */
    method InitPage()
      requires Valid()
      modifies this
      ensures Valid() && Value() == Live([])
    {
      isNew, deleted, maxoff, pdLower := false, false, 0, PAGE_HEADER;
    }

    /** `BloomPageAddItem`. */
    method AddItem(t: Tuple) returns (ok: bool)
      requires Valid() && Value().Live?
      modifies this`maxoff, this`pdLower, slots
      ensures Valid() && ok == HasRoom(old(Value()), Capacity(size))
      ensures Value() == if ok then WithItem(old(Value()), t) else old(Value())
    {
      FitsBelowCapacity(size, maxoff);
      if FreeSpace(size, maxoff) < size {
        return false;
      }
      slots[maxoff] := t;
      maxoff := maxoff + 1;
      pdLower := PAGE_HEADER + size * maxoff;
      return true;
    }

    /** The tuple loop of `blbulkdelete`: tuples that stay are moved down over those that go. */
    method Compact(dead: set<nat>) returns (itupPtr: nat)
      requires maxoff <= slots.Length
      modifies this`maxoff, slots
      ensures itupPtr == maxoff <= old(maxoff)
      ensures slots[..maxoff] == Kept(old(slots[..maxoff]), iset t | t in dead)
    {
      ghost var gone := iset t | t in dead;
      ghost var before := slots[..maxoff];
      var itup, itupEnd := 0, maxoff;
      itupPtr := 0;
      while itup < itupEnd
        invariant 0 <= itupPtr <= itup <= itupEnd == |before| <= slots.Length
        invariant slots[..itupPtr] == Kept(before[..itup], gone)
        invariant forall k :: itup <= k < itupEnd ==> slots[k] == before[k]
        invariant maxoff == itupEnd - (itup - itupPtr)
      {
        KeptNext(before, itup, gone);
        if slots[itup].tid in dead {
          maxoff := maxoff - 1;
        } else {
          if itupPtr != itup {
            slots[itupPtr] := slots[itup];
          }
          itupPtr := itupPtr + 1;
        }
        itup := itup + 1;
      }
      assert before[..itup] == before;
    }

    /** What `blbulkdelete` does with one page; `free` says whether it goes on the new list of pages with room. */
    method BulkDelete(dead: set<nat>) returns (removed: nat, free: bool)
      requires Valid()
      modifies this, slots
      ensures Valid() && Value() == Vacuumed(old(Value()), iset t | t in dead)
      ensures removed == |Contents(old(Value()))| - |Contents(Value())|
      ensures free <==> Frees(old(Value()), (iset t | t in dead), Capacity(size))
    {
      if isNew || deleted {
        return 0, false;
      }
      ghost var before := slots[..maxoff];
      var itup := maxoff;
      KeptAll(before, iset t | t in dead);
      var itupPtr := Compact(dead);
      removed := itup - itupPtr;
      FitsBelowCapacity(size, maxoff);
      free := maxoff != 0 && FreeSpace(size, maxoff) >= size;
      if itupPtr != itup {
        if maxoff == 0 {
          deleted := true;
        }
        pdLower := PAGE_HEADER + size * itupPtr;
      }
    }
  }

  // ----- building an index -----

  /** All tuples of a sequence of pages, in order. */
  function AllTuples(pages: seq<Page>): seq<Tuple> {
    if pages == [] then [] else AllTuples(pages[..|pages| - 1]) + Contents(pages[|pages| - 1])
  }

  lemma AllTuplesAppend(pages: seq<Page>, p: Page)
    ensures AllTuples(pages + [p]) == AllTuples(pages) + Contents(p)
  {
    assert (pages + [p])[..|pages|] == pages;
  }

  /** `BloomBuildState`: the page being filled, and the pages already written behind the metapage. */
  class BuildState {
    const capacity: nat
    var cached: seq<Tuple>
    var count: nat
    var indtuples: nat
    var written: seq<Page>

    ghost predicate Valid()
      reads this
    {
      && capacity > 0 && count == |cached| <= capacity
      && indtuples == |AllTuples(written)| + |cached|
      && forall i :: 0 <= i < |written| ==> written[i].Live? && |written[i].tuples| == capacity
    }

    /** What has been passed to the build so far. */
    function Indexed(): seq<Tuple>
      reads this
    {
      AllTuples(written) + cached
    }

    constructor (capacity: nat)
      requires capacity > 0
      ensures Valid() && Indexed() == [] && this.capacity == capacity
    {
      this.capacity := capacity;
      cached, count, indtuples, written := [], 0, 0, [];
    }

    /** `flushCachedPage`. */
    method FlushCachedPage()
      modifies this`written
      ensures written == old(written) + [Live(cached)]
    {
      written := written + [Live(cached)];
    }

    /** `bloomBuildCallback`. */
    method BuildCallback(t: Tuple)
      requires Valid()
      modifies this
      ensures Valid() && Indexed() == old(Indexed()) + [t] && count > 0
    {
      if |cached| < capacity {
        cached := cached + [t];
        count := count + 1;
      } else {
        AllTuplesAppend(written, Live(cached));
        FlushCachedPage();
        cached, count := [t], 1;
      }
      indtuples := indtuples + 1;
    }
  }

  /** `blbuild`: every row is indexed once and in order, every page but the last is full, and none is empty. */
  method Build(tuples: seq<Tuple>, capacity: nat) returns (pages: seq<Page>, indexTuples: nat)
    requires capacity > 0
    ensures AllTuples(pages) == tuples && indexTuples == |tuples|
    ensures forall i :: 0 <= i < |pages| ==> pages[i].Live? && 0 < |pages[i].tuples| <= capacity
    ensures forall i :: 0 <= i < |pages| - 1 ==> |Contents(pages[i])| == capacity
  {
    hide AllTuples;
    var state := new BuildState(capacity);
    var i := 0;
    while i < |tuples|
      invariant 0 <= i <= |tuples|
      invariant fresh(state) && state.Valid() && state.capacity == capacity
      invariant state.Indexed() == tuples[..i] && (i > 0 ==> state.count > 0)
    {
      state.BuildCallback(tuples[i]);
      i := i + 1;
    }
    assert tuples[..i] == tuples;
    AllTuplesAppend(state.written, Live(state.cached));
    if state.count > 0 {
      state.FlushCachedPage();
    }
    return state.written, state.indtuples;
  }
}

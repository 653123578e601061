/**
 Transaction ids in the heap check (contrib/amcheck/verify_heapam.c): widening a 32-bit id against the next
 full id, and `get_xid_status`, which may look up the commit status only of ids it found in range.
 Shared variables of the server are parameters: a call may see newer values than the cached ones.
 */
module HeapXid {

  const TWO31: nat := 0x8000_0000
  const TWO32: nat := 0x1_0000_0000
  const TWO64: nat := 0x1_0000_0000_0000_0000
  const FIRST_NORMAL: nat := 3

  type xid32 = x: int | 0 <= x < 0x1_0000_0000
  type fxid64 = x: int | 0 <= x < 0x1_0000_0000_0000_0000

  predicate Normal(x: int) { x >= FIRST_NORMAL }

  /** What the source asserts of the next full id: its low word is a normal id. */
  predicate NextOk(next: fxid64) { Normal(next % TWO32) }

  /** The difference of two 32-bit ids as a signed 32-bit integer. */
  function Diff(a: xid32, b: xid32): int {
    var d := (a - b) % TWO32;
    if d >= TWO31 then d - TWO32 else d
  }

  /** `FullTransactionIdFromXidAndCtx`; the subtraction wraps at 64 bits. */
  function Widen(xid: xid32, next: fxid64): fxid64
    requires NextOk(next)
  {
    if !Normal(xid) then xid
    else
      var diff := Diff(next % TWO32, xid);
      if diff > 0 && next - FIRST_NORMAL < diff then FIRST_NORMAL else (next - diff) % TWO64
  }

  /** Widening recovers every id near the next one from its low word. */
  lemma WidenRecovers(f: fxid64, next: fxid64)
    requires NextOk(next) && Normal(f % TWO32)
    requires next - TWO31 < f <= next + TWO31
    ensures Widen(f % TWO32, next) == f
  {
    var d := next - f;
    LowWords(next, f);
    assert Diff(next % TWO32, f % TWO32) == d;
    assert Normal(f);
    SmallResidue(f, TWO64);
  }

  lemma SmallResidue(x: int, m: nat)
    requires 0 <= x < m
    ensures x % m == x
  {
  }

  lemma LowWords(a: int, b: int)
    ensures (a % TWO32 - b % TWO32) % TWO32 == (a - b) % TWO32
  {
    var k := a / TWO32 - b / TWO32;
    assert a - b == (a % TWO32 - b % TWO32) + TWO32 * k;
    SameResidue(a % TWO32 - b % TWO32, k);
  }

  lemma SameResidue(x: int, k: int)
    ensures (x + TWO32 * k) % TWO32 == x % TWO32
  {
  }

  /** The next id less the signed difference has the low word it is to have. */
  lemma DifferenceKeepsLowWord(xid: xid32, next: fxid64)
    ensures var g := next - Diff(next % TWO32, xid);
      g % TWO32 == xid && next - TWO31 < g <= next + TWO31
  {
    var g := next - Diff(next % TWO32, xid);
    var k := if (next % TWO32 - xid) % TWO32 >= TWO31 then 1 else 0;
    var d := (next % TWO32 - xid) % TWO32;
    var q := (next % TWO32 - xid) / TWO32;
    assert d == next % TWO32 - xid - TWO32 * q;
    assert g == xid + TWO32 * (next / TWO32 + q + k);
    SameResidue(xid, next / TWO32 + q + k);
  }

  /** A normal id widens to a normal id. It keeps its low word and lies within 2^31 of the next id, round the end of 64 bits, unless it would precede the first one. */
  lemma WidenedIsNear(xid: xid32, next: fxid64)
    requires NextOk(next) && Normal(xid)
    ensures var f, g := Widen(xid, next), next - Diff(next % TWO32, xid);
      && Normal(f)
      && next - TWO31 < g <= next + TWO31
      && if g < FIRST_NORMAL then f == FIRST_NORMAL
         else f % TWO32 == xid && (f == g || f == g - TWO64)
  {
    var g := next - Diff(next % TWO32, xid);
    DifferenceKeepsLowWord(xid, next);
    if g >= TWO64 {
      SmallResidue(g - TWO64, TWO64);
      assert g % TWO64 == g - TWO64;
      var words: int := TWO32;
      SameResidue(g, -words);
    } else if g >= FIRST_NORMAL {
      SmallResidue(g, TWO64);
    }
  }

  /** The range of ids that the check goes by: the next id and the oldest one. */
  datatype Range = Range(next: fxid64, oldest: fxid64)

  predicate Within(f: fxid64, r: Range) { r.oldest <= f < r.next }

  /** The range that `get_xid_status` judges an id by: the cached one where the id lies in it, and otherwise one read anew. */
  function RangeFor(xid: xid32, cached: Range, next: fxid64, oldest: xid32): Range
    requires NextOk(cached.next) && NextOk(next)
  {
    if !Normal(xid) || Within(Widen(xid, cached.next), cached) then cached
    else Range(next, Widen(oldest, next))
  }

  /** A range as the server keeps it: less than half the 32-bit ids are in use at a time. */
  predicate ServerRange(r: Range) {
    NextOk(r.next) && Normal(r.oldest % TWO32) && r.next - TWO31 < r.oldest <= r.next
  }

  /**
   Every id of the server's range is judged by its true full id and found in range, however stale the cached range is,
   as long as the server has not moved on by half of the 32-bit ids since.
   */
  lemma LiveIdIsInRange(f: fxid64, cached: Range, server: Range)
    requires ServerRange(cached) && ServerRange(server)
    requires cached.next <= server.next <= cached.next + TWO31 && cached.oldest <= server.oldest
    requires Within(f, server) && Normal(f % TWO32)
    ensures var r := RangeFor(f % TWO32, cached, server.next, server.oldest % TWO32);
      NextOk(r.next) && Widen(f % TWO32, r.next) == f && Within(f, r)
  {
    hide Widen;
    WidenRecovers(f, cached.next);
    WidenRecovers(f, server.next);
    WidenRecovers(server.oldest, server.next);
  }

  /** An id that has left the server's range, and is no more than 2^31 behind it, is found out unless the cached range still held it. */
  lemma DeadIdIsFound(f: fxid64, cached: Range, server: Range)
    requires ServerRange(cached) && ServerRange(server)
    requires cached.next <= server.next <= cached.next + TWO31 && cached.oldest <= server.oldest
    requires Normal(f % TWO32) && server.next - TWO31 < f < server.oldest
    ensures var r := RangeFor(f % TWO32, cached, server.next, server.oldest % TWO32);
      NextOk(r.next) && Widen(f % TWO32, r.next) == f && (Within(f, r) <==> Within(f, cached))
  {
    hide Widen;
    WidenRecovers(f, cached.next);
    WidenRecovers(f, server.next);
    WidenRecovers(server.oldest, server.next);
  }

  datatype Violation = BoundsOk | Invalid | InFuture | PrecedesClusterMin | PrecedesRelMin

  datatype Status = Committed | IsCurrent | InProgress | Aborted

  /** What the caller gets: the violation, a status if one was asked for and found, and whether commit state was read. */
  datatype Answer = Answer(violation: Violation, status: seq<Status>, lookedUp: bool)

  /** The status that is found for an id when it is not cached: commit state below the horizon is gone, and its ids committed. */
  function Found(xid: xid32, next: fxid64, oldestClog: xid32, lookup: xid32 -> Status): Status
    requires NextOk(next)
  {
    if Widen(oldestClog, next) <= Widen(xid, next) then lookup(xid) else Committed
  }

  class HeapCheckContext {
    var nextFxid: fxid64
    var oldestFxid: fxid64
    var relfrozenFxid: fxid64
    var cachedXid: xid32
    var cachedStatus: Status
    /** For each id whose status was ever found, the one found last. */
    ghost var found: map<xid32, Status>

    ghost predicate Valid()
      reads this
    {
      NextOk(nextFxid) && (cachedXid != 0 ==> cachedXid in found && found[cachedXid] == cachedStatus)
    }

    ghost function Cached(): Range
      reads this
    {
      Range(nextFxid, oldestFxid)
    }

    constructor (next: fxid64, oldest: xid32, relfrozen: xid32)
      requires NextOk(next)
      ensures Valid() && Cached() == Range(next, Widen(oldest, next))
      ensures relfrozenFxid == Widen(relfrozen, next) && cachedXid == 0 && found == map[]
    {
      nextFxid, oldestFxid, relfrozenFxid := next, Widen(oldest, next), Widen(relfrozen, next);
      cachedXid, cachedStatus, found := 0, Committed, map[];
    }

    /** `update_cached_xid_range`. */
    method UpdateCachedRange(next: fxid64, oldest: xid32)
      requires NextOk(next)
      modifies `nextFxid, `oldestFxid
      ensures Cached() == Range(next, Widen(oldest, next))
    {
      nextFxid := next;
      oldestFxid := Widen(oldest, next);
    }

    ghost predicate InRange(f: fxid64)
      reads this
    {
      Within(f, Cached()) && relfrozenFxid <= f
    }

    /** `get_xid_status`; `lookup` is what the commit log and the running transactions would say. */
    method GetXidStatus(xid: xid32, wantStatus: bool, next: fxid64, oldest: xid32, oldestClog: xid32, lookup: xid32 -> Status)
      returns (a: Answer)
      requires Valid() && NextOk(next)
      modifies this
      ensures Valid() && relfrozenFxid == old(relfrozenFxid)
      // The range is read again exactly when the id fell outside the cached one.
      ensures Cached() == RangeFor(xid, old(Cached()), next, oldest)
      // The answer says where the id stands in the range.
      ensures xid == 0 ==> a.violation == Invalid
      ensures xid == 1 || xid == 2 ==> a.violation == BoundsOk
      ensures Normal(xid) ==>
        var f := Widen(xid, nextFxid);
        && (a.violation == BoundsOk <==> InRange(f))
        && (a.violation == InFuture <==> nextFxid <= f)
        && (a.violation == PrecedesClusterMin <==> f < nextFxid && f < oldestFxid)
      // A status comes with every id in range for which one is wanted, and with no other.
      ensures a.status != [] <==> wantStatus && a.violation == BoundsOk
      ensures a.status != [] && !Normal(xid) ==> a.status == [Committed]
      // It is the one that was found for the id now, or that was found for it last and is cached.
      ensures a.status != [] && Normal(xid) ==> xid in found && a.status == [found[xid]] && cachedXid == xid
      ensures found == if a.status != [] && Normal(xid) && xid != old(cachedXid)
        then old(found)[xid := Found(xid, nextFxid, oldestClog, lookup)] else old(found)
      ensures a.status == [] || !Normal(xid) ==> unchanged(`cachedXid) && unchanged(`cachedStatus)
      // What is found now is what the commit state says where it is read, and committed otherwise.
      ensures a.lookedUp ==> a.status == [lookup(xid)]
      ensures a.status != [] && Normal(xid) && xid != old(cachedXid) && !a.lookedUp ==> a.status == [Committed]
      // Commit state is read only for ids in range, not cached and not yet truncated away.
      ensures a.lookedUp <==>
        && a.status != [] && Normal(xid) && xid != old(cachedXid)
        && Widen(oldestClog, nextFxid) <= Widen(xid, nextFxid)
    {
      hide Widen;
      if xid == 0 { return Answer(Invalid, [], false); }
      if xid == 1 || xid == 2 {
        return Answer(BoundsOk, if wantStatus then [Committed] else [], false);
      }
      var fxid := Widen(xid, nextFxid);
      if !(oldestFxid <= fxid < nextFxid) {
        UpdateCachedRange(next, oldest);
        fxid := Widen(xid, nextFxid);
      }
      if nextFxid <= fxid { return Answer(InFuture, [], false); }
      if fxid < oldestFxid { return Answer(PrecedesClusterMin, [], false); }
      if fxid < relfrozenFxid { return Answer(PrecedesRelMin, [], false); }
      if !wantStatus { return Answer(BoundsOk, [], false); }
      if xid == cachedXid { return Answer(BoundsOk, [cachedStatus], false); }
      var status, lookedUp := Committed, false;
      var horizon := Widen(oldestClog, nextFxid);
      if horizon <= fxid {
        status, lookedUp := lookup(xid), true;
      }
      cachedXid, cachedStatus := xid, status;
      found := found[xid := status];
      return Answer(BoundsOk, [status], lookedUp);
    }
  }
}

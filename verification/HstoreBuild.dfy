/**
 Building an hstore in one allocation (contrib/hstore/hstore.h, `HS_COPYITEM`, `HS_ADDITEM`,
 `HS_FINALIZE`): entries are written from the front, strings behind the space reserved for a temporary
 number of pairs, and at the end the strings slide down over the entries that were not needed.
 */
module HstoreBuild {
  import opened HstoreFormat

  /** Memory with `s` written at position `at`. */
  function Splice(m: Str, at: nat, s: Str): (r: Str)
    requires at + |s| <= |m|
    ensures |r| == |m|
    ensures r[..at] == m[..at] && r[at..at + |s|] == s && r[at + |s|..] == m[at + |s|..]
  {
    m[..at] + s + m[at + |s|..]
  }

  lemma SpliceTwice(m: Str, at: nat, a: Str, b: Str)
    requires at + |a| + |b| <= |m|
    ensures Splice(Splice(m, at, a), at + |a|, b) == Splice(m, at, a + b)
    ensures b == [] ==> Splice(m, at, a) == Splice(m, at, a + b)
  {
    if b == [] { assert a + b == a; }
  }

  /** `memcpy`. */
  method CopyIn(mem: array<int>, at: nat, s: Str)
    requires at + |s| <= mem.Length
    modifies mem
    ensures mem[..] == Splice(old(mem[..]), at, s)
  {
    var i := 0;
    while i < |s|
      invariant 0 <= i <= |s|
      invariant forall j :: 0 <= j < mem.Length ==> mem[j] == if at <= j < at + i then s[j - at] else old(mem[j])
    {
      mem[at + i] := s[i];
      i := i + 1;
    }
  }

  /** `memmove` toward lower addresses; source and destination may overlap. */
  method MoveDown(mem: array<int>, to: nat, from: nat, n: nat)
    requires to <= from && from + n <= mem.Length
    modifies mem
    ensures mem[..to] == old(mem[..to]) && mem[to..to + n] == old(mem[from..from + n])
  {
    ghost var before := mem[..];
    var i := 0;
    while i < n
      invariant 0 <= i <= n
      invariant forall j :: 0 <= j < to ==> mem[j] == before[j]
      invariant forall j :: to <= j < to + i ==> mem[j] == before[j - to + from]
      invariant forall j :: from + i <= j < mem.Length ==> mem[j] == before[j]
    {
      mem[to + i] := mem[from + i];
      i := i + 1;
    }
    SlicesAgree(mem[..], before, to, from, n);
  }

  lemma SlicesAgree(m: Str, before: Str, to: nat, from: nat, n: nat)
    requires |m| == |before| && to <= from && from + n <= |m|
    requires forall j :: to <= j < to + n ==> m[j] == before[j - to + from]
    ensures m[to..to + n] == before[from..from + n]
  {
  }

  /** Memory with `w` at the front and `s` at `buf`. */
  predicate Laid(m: Str, buf: nat, w: Str, s: Str) {
    |w| <= buf && buf + |s| <= |m| && m[..|w|] == w && m[buf..buf + |s|] == s
  }

  /** Memory after a string is written at `s` and two words at `e`. */
  function Written(m: Str, s: nat, str: Str, e: nat, k: word, v: word): (r: Str)
    requires s + |str| <= |m| && e + 8 <= |m|
    ensures |r| == |m|
  {
    Splice(Splice(Splice(m, s, str), e, WordBytes(k)), e + 4, WordBytes(v))
  }

  method WriteItem(mem: array<int>, s: nat, str: Str, e: nat, k: word, v: word)
    requires s + |str| <= mem.Length && e + 8 <= mem.Length
    modifies mem
    ensures mem[..] == Written(old(mem[..]), s, str, e, k, v)
  {
    CopyIn(mem, s, str);
    CopyIn(mem, e, WordBytes(k));
    CopyIn(mem, e + 4, WordBytes(v));
  }

  /** Writing behind the strings and behind the entries extends both. */
  lemma LaidNext(m: Str, buf: nat, w: Str, s: Str, str: Str, k: word, v: word)
    requires Laid(m, buf, w, s) && |w| + 8 <= buf && buf + |s| + |str| <= |m|
    ensures Laid(Written(m, buf + |s|, str, |w|, k, v), buf, w + WordBytes(k) + WordBytes(v), s + str)
  {
    var m1 := Splice(m, buf + |s|, str);
    var m2 := Splice(m1, |w|, WordBytes(k));
    var m3 := Splice(m2, |w| + 4, WordBytes(v));
    FrontAfter(m, m1, m2, m3, |w|, WordBytes(k), WordBytes(v), buf + |s|, str);
    StringsAfter(m, m1, m2, m3, |w|, WordBytes(k), WordBytes(v), buf, |s|, str);
  }

  lemma FrontAfter(m: Str, m1: Str, m2: Str, m3: Str, e: nat, k: Str, v: Str, s: nat, str: Str)
    requires |k| == |v| == 4 && e + 8 <= s && s + |str| <= |m|
    requires m1 == Splice(m, s, str) && m2 == Splice(m1, e, k) && m3 == Splice(m2, e + 4, v)
    ensures m3[..e + 8] == m[..e] + k + v
  {
    assert m1[..e] == m1[..s][..e] == m[..s][..e] == m[..e];
    assert m3[..e + 8] == m3[..e + 4] + m3[e + 4..e + 8];
    assert m2[..e + 4] == m2[..e] + m2[e..e + 4];
  }

  lemma StringsAfter(m: Str, m1: Str, m2: Str, m3: Str, e: nat, k: Str, v: Str, buf: nat, at: nat, str: Str)
    requires |k| == |v| == 4 && e + 8 <= buf && buf + at + |str| <= |m|
    requires m1 == Splice(m, buf + at, str) && m2 == Splice(m1, e, k) && m3 == Splice(m2, e + 4, v)
    ensures m3[buf..buf + at + |str|] == m[buf..buf + at] + str
  {
    assert m3[buf..] == m3[e + 8..][buf - e - 8..] == m2[e + 8..][buf - e - 8..] == m2[buf..];
    assert m2[buf..] == m2[e + 4..][buf - e - 4..] == m1[e + 4..][buf - e - 4..] == m1[buf..];
    assert m3[buf..buf + at + |str|] == m3[buf..][..at + |str|] == m1[buf..][..at + |str|];
    assert m1[buf..buf + at] == m1[..buf + at][buf..] == m[..buf + at][buf..] == m[buf..buf + at];
  }

  /** The entries before the first one is marked, as bytes. */
  function EntryBytes(pairs: seq<Pair>): (w: Str)
    requires Fits(pairs)
    ensures |w| == 8 * |pairs|
  {
    WordsBytes(RawEntries(pairs))
  }

  predicate NextFits(pairs: seq<Pair>, p: Pair) { |Strings(pairs)| + |PairBytes(p)| < POS_LIMIT }

  lemma WordsTwo(ws: seq<word>, a: word, b: word)
    ensures WordsBytes(ws + [a, b]) == WordsBytes(ws) + WordBytes(a) + WordBytes(b)
  {
    assert (ws + [a, b])[..|ws| + 1] == ws + [a];
    assert (ws + [a])[..|ws|] == ws;
  }

  lemma StringsNone()
    ensures Strings([]) == []
  {
  }

  lemma StringsSnoc(pairs: seq<Pair>, p: Pair)
    ensures Strings(pairs + [p]) == Strings(pairs) + PairBytes(p)
  {
    assert (pairs + [p])[..|pairs|] == pairs;
  }

  lemma EntriesSnoc(pairs: seq<Pair>, p: Pair)
    requires NextFits(pairs, p)
    ensures Fits(pairs + [p])
    ensures RawEntries(pairs + [p]) ==
      RawEntries(pairs) + [KeyEntry(|Strings(pairs)|, p), ValueEntry(|Strings(pairs)|, p)]
  {
    StringsSnoc(pairs, p);
    assert (pairs + [p])[..|pairs|] == pairs;
  }

  lemma EntryBytesSnoc(pairs: seq<Pair>, p: Pair)
    requires NextFits(pairs, p) && Fits(pairs + [p])
    ensures EntryBytes(pairs + [p]) == EntryBytes(pairs)
      + WordBytes(KeyEntry(|Strings(pairs)|, p)) + WordBytes(ValueEntry(|Strings(pairs)|, p))
  {
    EntriesSnoc(pairs, p);
    WordsTwo(RawEntries(pairs), KeyEntry(|Strings(pairs)|, p), ValueEntry(|Strings(pairs)|, p));
  }

  /** Memory that holds `pairs`: `ed` entries at the front, and strings from `buf` up to `pd`. */
  ghost predicate Built(m: Str, buf: nat, pairs: seq<Pair>, ed: nat, pd: nat) {
    && Fits(pairs)
    && 4 * ed == |EntryBytes(pairs)| && pd == buf + |Strings(pairs)|
    && Laid(m, buf, EntryBytes(pairs), Strings(pairs))
  }

  /** The writes of `HS_COPYITEM` add a pair. */
  lemma BuiltNext(m: Str, buf: nat, pairs: seq<Pair>, ed: nat, pd: nat, p: Pair, k: word, v: word)
    requires Built(m, buf, pairs, ed, pd) && NextFits(pairs, p)
    requires 4 * ed + 8 <= buf && pd + |PairBytes(p)| <= |m|
    requires k == KeyEntry(pd - buf, p) && v == ValueEntry(pd - buf, p)
    ensures Built(Written(m, pd, PairBytes(p), 4 * ed, k, v), buf, pairs + [p], ed + 2, pd + |PairBytes(p)|)
  {
    LaidNext(m, buf, EntryBytes(pairs), Strings(pairs), PairBytes(p), k, v);
    StringsSnoc(pairs, p);
    EntryBytesSnoc(pairs, p);
  }

  lemma PairEntries(at: nat, p: Pair, k: word, v: word)
    requires at + |PairBytes(p)| < POS_LIMIT
    requires k == at + |p.key| && v == if p.val.Null? then k + ISNULL else k + |p.val.s|
    ensures k == KeyEntry(at, p) && v == ValueEntry(at, p)
  {
  }

  /** The key and behind it the value, if there is one. */
  method WriteStrings(mem: array<int>, at: nat, p: Pair) returns (n: nat)
    requires at + |PairBytes(p)| <= mem.Length
    modifies mem
    ensures mem[..] == Splice(old(mem[..]), at, PairBytes(p)) && n == |PairBytes(p)|
  {
    hide Splice;
    SpliceTwice(mem[..], at, p.key, ValueBytes(p.val));
    CopyIn(mem, at, p.key);
    n := |p.key|;
    if !p.val.Null? {
      CopyIn(mem, at + n, p.val.s);
      n := n + |p.val.s|;
    }
  }

  /** An hstore under construction. */
  class Builder {
    const mem: array<int>
    /** Where the string area starts under the temporary count. */
    const bufd: nat
    /** The number of entries written, and the end of the strings written. */
    var ed: nat
    var pd: nat
    ghost var pairs: seq<Pair>

    ghost predicate Valid()
      reads this, mem
    {
      Built(mem[..], bufd, pairs, ed, pd)
    }

    /** An allocation of `size` bytes behind the header, with room for `count` pairs of entries. */
    constructor (size: nat, count: nat)
      requires 8 * count <= size
      ensures Valid() && pairs == [] && mem.Length == size && bufd == 8 * count && fresh(mem)
    {
      mem := new int[size](_ => 0);
      bufd := 8 * count;
      ed, pd := 0, 8 * count;
      pairs := [];
    }

    /** `HS_COPYITEM`: the key and the value stand one behind the other in `item`. */
    method CopyItem(item: Str, keyLen: nat, isNull: bool, ghost p: Pair)
      requires Valid() && NextFits(pairs, p)
      requires 4 * ed + 8 <= bufd && pd + |item| <= mem.Length
      requires item == PairBytes(p) && keyLen == |p.key| && (isNull <==> p.val.Null?)
      modifies this, mem
      ensures Valid() && pairs == old(pairs) + [p]
    {
      var keyEnd: word := pd + keyLen - bufd;
      var valEnd: word := pd + |item| - bufd + if isNull then ISNULL else 0;
      BuiltNext(mem[..], bufd, pairs, ed, pd, p, keyEnd, valEnd);
      WriteItem(mem, pd, item, 4 * ed, keyEnd, valEnd);
      pd := pd + |item|;
      ed := ed + 2;
      pairs := pairs + [p];
    }

    /** `HS_ADDITEM`: the key and the value are written one after the other. */
    method AddItem(p: Pair)
      requires Valid() && NextFits(pairs, p)
      requires 8 * |pairs| + 8 <= bufd && bufd + |Strings(pairs)| + |PairBytes(p)| <= mem.Length
      modifies this, mem
      ensures Valid() && pairs == old(pairs) + [p]
    {
      hide Strings, EntryBytes, Splice, Laid, WordBytes;
      var keyEnd: word := pd + |p.key| - bufd;
      var valEnd: word := if p.val.Null? then keyEnd + ISNULL else keyEnd + |p.val.s|;
      PairEntries(pd - bufd, p, keyEnd, valEnd);
      BuiltNext(mem[..], bufd, pairs, ed, pd, p, keyEnd, valEnd);
      var n := WriteStrings(mem, pd, p);
      pd := pd + n;
      CopyIn(mem, 4 * ed, WordBytes(keyEnd));
      CopyIn(mem, 4 * ed + 4, WordBytes(valEnd));
      ed := ed + 2;
      pairs := pairs + [p];
    }

    /** `HS_FINALIZE`: the strings slide down when fewer pairs were written than reserved. */
    method Finalize() returns (h: HStore)
      requires Valid()
      modifies mem
      ensures Fits(pairs) && h == Encode(pairs)
    {
      hide Strings, WordsBytes, WordBytes, Entries, Splice, Laid;
      var count, buflen := ed / 2, pd - bufd;
      BuiltEntries(mem[..], bufd, pairs, ed, pd);
      if count > 0 {
        var first: word := ReadWord(mem[..], 0);
        CopyIn(mem, 0, WordBytes(first + ISFIRST));
      }
      ghost var m, w, s := mem[..], FinalBytes(pairs), Strings(pairs);
      var end := 8 * count;
      assert end == |w| && buflen == |s|;
      if end != bufd {
        MoveDown(mem, end, bufd, buflen);
      }
      LaidDown(m, mem[..], bufd, w, s);
      return HStore(count, mem[..end + buflen]);
    }
  }

  /** The entries with the mark, as bytes. */
  function FinalBytes(pairs: seq<Pair>): (w: Str)
    requires Fits(pairs)
    ensures |w| == 8 * |pairs|
  {
    WordsBytes(Entries(pairs))
  }

  /** Writing the first entry back with the mark leaves the final entries in memory. */
  lemma BuiltEntries(m: Str, buf: nat, pairs: seq<Pair>, ed: nat, pd: nat)
    requires Built(m, buf, pairs, ed, pd)
    ensures ed == 2 * |pairs| && 8 * |pairs| <= buf && pd <= |m|
    ensures pairs == [] ==> Laid(m, buf, FinalBytes(pairs), Strings(pairs))
    ensures pairs != [] ==>
      && 0 <= ReadWord(m, 0) < POS_LIMIT
      && Laid(Splice(m, 0, WordBytes(ReadWord(m, 0) + ISFIRST)), buf, FinalBytes(pairs), Strings(pairs))
  {
    hide Strings, RawEntries, WordsBytes, WordBytes, Splice, Laid, ReadWord, MarkFirst;
    LaidFits(m, buf, EntryBytes(pairs), Strings(pairs));
    if pairs != [] {
      FirstEntryIsSmall(pairs);
      MarkInMemory(m, buf, RawEntries(pairs), Strings(pairs));
    } else {
      NoEntries(pairs);
    }
  }

  lemma LaidFits(m: Str, buf: nat, w: Str, s: Str)
    requires Laid(m, buf, w, s)
    ensures |w| <= buf && buf + |s| <= |m|
  {
  }

  lemma NoEntries(pairs: seq<Pair>)
    requires pairs == []
    ensures FinalBytes(pairs) == EntryBytes(pairs)
  {
  }

  lemma MarkInMemory(m: Str, buf: nat, ws: seq<word>, s: Str)
    requires ws != [] && ws[0] < POS_LIMIT && Laid(m, buf, WordsBytes(ws), s)
    ensures ReadWord(m, 0) == ws[0]
    ensures Laid(Splice(m, 0, WordBytes(ws[0] + ISFIRST)), buf, WordsBytes(MarkFirst(ws)), s)
  {
    FirstWord(ws);
    FirstWord(MarkFirst(ws));
    FirstInMemory(m, buf, ws[0], WordsBytes(ws[1..]), s);
    LaidFirst(m, buf, WordBytes(ws[0]), WordBytes(ws[0] + ISFIRST), WordsBytes(ws[1..]), s);
  }

  /** After the move both parts stand one behind the other. */
  lemma LaidDown(m: Str, m': Str, buf: nat, w: Str, s: Str)
    requires Laid(m, buf, w, s) && |m'| == |m|
    requires m'[..|w|] == m[..|w|] && m'[|w|..|w| + |s|] == m[buf..buf + |s|]
    ensures m'[..|w| + |s|] == w + s
  {
    assert m'[..|w| + |s|] == m'[..|w|] + m'[|w|..|w| + |s|];
  }

  lemma FirstInMemory(m: Str, buf: nat, v: word, rest: Str, s: Str)
    requires Laid(m, buf, WordBytes(v) + rest, s)
    ensures ReadWord(m, 0) == v
  {
    var w := WordBytes(v) + rest;
    assert m[0..4] == m[..|w|][..4] == WordBytes(v);
    WordRoundTrip(v, m, 0);
  }

  lemma LaidFirst(m: Str, buf: nat, f: Str, f': Str, rest: Str, s: Str)
    requires Laid(m, buf, f + rest, s) && |f| == |f'|
    ensures Laid(Splice(m, 0, f'), buf, f' + rest, s)
  {
    var m', n := Splice(m, 0, f'), |f|;
    assert m[n..n + |rest|] == m[..n + |rest|][n..] == rest;
    assert m'[n..n + |rest|] == m'[n..][..|rest|] == m[n..][..|rest|] == rest;
    assert m'[..n + |rest|] == m'[..n] + m'[n..n + |rest|];
    assert m'[buf..buf + |s|] == m'[n..][buf - n..buf - n + |s|] == m[n..][buf - n..buf - n + |s|] == m[buf..buf + |s|];
  }

  lemma {:induction false} FirstWord(ws: seq<word>)
    requires ws != []
    ensures WordsBytes(ws) == WordBytes(ws[0]) + WordsBytes(ws[1..])
  {
    var n := |ws| - 1;
    if n == 0 {
      assert ws[..0] == [] && ws[1..] == [];
    } else {
      FirstWord(ws[..n]);
      assert ws[..n][1..] == ws[1..][..n - 1];
    }
  }
}

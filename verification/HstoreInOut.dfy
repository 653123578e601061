/**
 `hstore_out` and `hstore_in` (contrib/hstore/hstore_io.c) on packed values: the printer stays inside the
 buffer it sizes beforehand, and reading what it printed gives the same packed value back.
 */
module HstoreInOut {
  import opened Bytes
  import opened HstoreFormat
  import opened HstoreBuild
  import opened HstoreMap
  import opened HstoreOps
  import opened HstorePairs
  import opened HstoreText
  import opened HstoreParser

  // ----- the size of the buffer -----

  /** The space set aside for a pair, with every character escaped. */
  function PairRoom(p: Pair): nat {
    6 + 2 * |p.key| + 2 + if p.val.Null? then 2 else 2 * |p.val.s|
  }

  function Room(pairs: seq<Pair>): nat {
    if pairs == [] then 0 else PairRoom(pairs[0]) + Room(pairs[1..])
  }

  lemma RoomNext(pairs: seq<Pair>, i: nat)
    requires i < |pairs|
    ensures Room(pairs[i..]) == PairRoom(pairs[i]) + Room(pairs[i + 1..])
  {
    assert pairs[i..][1..] == pairs[i + 1..];
  }

  lemma {:induction false} StringsCons(pairs: seq<Pair>)
    requires pairs != []
    ensures |Strings(pairs)| == |PairBytes(pairs[0])| + |Strings(pairs[1..])|
  {
    var n := |pairs| - 1;
    if n == 0 {
      assert pairs[..0] == [] && pairs[1..] == [];
    } else {
      StringsCons(pairs[..n]);
      assert pairs[..n][1..] == pairs[1..][..n - 1];
    }
  }

  lemma {:induction false} RoomBound(pairs: seq<Pair>)
    ensures Room(pairs) <= 10 * |pairs| + 2 * |Strings(pairs)|
  {
    hide Strings;
    if pairs != [] {
      RoomBound(pairs[1..]);
      StringsCons(pairs);
    }
  }

  /** For every value that exists in memory the size is a positive 32-bit integer. */
  lemma RoomFitsInt(pairs: seq<Pair>)
    requires Fits(pairs) && VarSize(Encode(pairs)) <= MAX_ALLOC
    ensures Room(pairs) < 0x8000_0000
  {
    hide Room, Strings, WordsBytes, Entries;
    RoomBound(pairs);
  }

  // ----- writing -----

  /** `cpw`. */
  method Cpw(out: array<int>, at: nat, s: Str) returns (end: nat)
    requires at + 2 * |s| <= out.Length
    modifies out
    ensures at <= end <= at + 2 * |s| && out[..end] == old(out[..at]) + Escape(s)
  {
    var i := 0;
    end := at;
    assert s[0..] == s;
    while i < |s|
      invariant 0 <= i <= |s| && at <= end <= at + 2 * i
      invariant out[..end] + Escape(s[i..]) == old(out[..at]) + Escape(s)
    {
      EscapeNext(out[..end], s, i);
      ghost var w := out[..end];
      if s[i] == QUOTE || s[i] == BACKSLASH {
        out[end] := BACKSLASH;
        end := end + 1;
        assert out[..end] == w + [BACKSLASH];
      }
      ghost var w' := out[..end];
      out[end] := s[i];
      end := end + 1;
      assert out[..end] == w' + [s[i]];
      i := i + 1;
    }
    assert out[..end] + Escape(s[i..]) == out[..end];
  }

  lemma EscapeNext(w: Str, s: Str, i: nat)
    requires i < |s|
    ensures w + Escape(s[i..]) ==
      (if s[i] == QUOTE || s[i] == BACKSLASH then w + [BACKSLASH] else w) + [s[i]] + Escape(s[i + 1..])
  {
    assert s[i..][1..] == s[i + 1..];
  }

  /** Characters written one after the other. */
  method PutAll(out: array<int>, at: nat, s: Str) returns (end: nat)
    requires at + |s| <= out.Length
    modifies out
    ensures end == at + |s| && out[..end] == old(out[..at]) + s
  {
    CopyIn(out, at, s);
    end := at + |s|;
    assert out[..end] == out[..][..at] + out[..][at..end];
  }

  /** A string between quotes. */
  method PutQuoted(out: array<int>, at: nat, s: Str) returns (end: nat)
    requires at + 2 * |s| + 2 <= out.Length
    modifies out
    ensures at <= end <= at + 2 * |s| + 2 && out[..end] == old(out[..at]) + Quoted(s)
  {
    hide Escape;
    ghost var w := out[..at];
    end := PutAll(out, at, [QUOTE]);
    end := Cpw(out, end, s);
    end := PutAll(out, end, [QUOTE]);
    assert w + [QUOTE] + Escape(s) + [QUOTE] == w + Quoted(s);
  }

  /** The loop body of `hstore_out`. */
  method PutPair(out: array<int>, at: nat, p: Pair, last: bool) returns (end: nat)
    requires at + PairRoom(p) <= out.Length
    modifies out
    ensures at <= end <= at + PairRoom(p) - (if last then 2 else 0)
    ensures out[..end] == old(out[..at]) + PairText(p) + if last then [] else [COMMA, SPACE]
  {
    hide Quoted;
    ghost var w := out[..at];
    end := PutQuoted(out, at, p.key);
    end := PutAll(out, end, [EQUALS, GREATER]);
    if p.val.Null? {
      end := PutAll(out, end, [78, 85, 76, 76]);
    } else {
      end := PutQuoted(out, end, p.val.s);
    }
    assert out[..end] == w + PairText(p);
    if !last {
      end := PutAll(out, end, [COMMA, SPACE]);
    }
  }

  // ----- hstore_out -----

  datatype Shown = Text(text: Str) | NoMemory

  /** A pair as the decoding macros read it. */
  method PairAt(h: HStore, ghost pairs: seq<Pair>, i: nat) returns (p: Pair)
    requires Is(h, pairs) && i < |pairs|
    ensures p == pairs[i]
  {
    hide Encode, Strings, Sorted, Offset, Length, StringArea, Entry, IsNull, EndPos, StringOf;
    ReadsPair(pairs, i);
    var val := if IsNull(Entry(h, 2 * i + 1)) then Null else Value.Text(StringOf(h, 2 * i + 1));
    p := Pair(StringOf(h, 2 * i), val);
  }

  lemma PrintedNext(w: Str, pairs: seq<Pair>, i: nat)
    requires i < |pairs|
    ensures w + Printed(pairs[i..]) ==
      w + PairText(pairs[i]) + (if i + 1 == |pairs| then [] else [COMMA, SPACE]) + Printed(pairs[i + 1..])
  {
    hide PairText;
    assert pairs[i..][1..] == pairs[i + 1..];
  }

  /** `hstore_out`. */
  method HstoreOut(h: HStore, ghost pairs: seq<Pair>) returns (r: Shown)
    requires Is(h, pairs) && VarSize(h) <= MAX_ALLOC
    ensures r == if Room(pairs) > MAX_ALLOC then NoMemory else Shown.Text(Printed(pairs))
  {
    hide Strings, Sorted, Room, PairRoom, WordsBytes, Entries, Printed, PairText;
    RoomNone(pairs[|pairs|..]);
    var count := h.count;
    if count == 0 {
      RoomNone(pairs);
      return Shown.Text([]);
    }
    var buflen, i := 0, 0;
    assert pairs[0..] == pairs;
    while i < count
      invariant 0 <= i <= count && buflen + Room(pairs[i..]) == Room(pairs)
    {
      RoomNext(pairs, i);
      var p := PairAt(h, pairs, i);
      buflen := buflen + PairRoom(p);
      i := i + 1;
    }
    if buflen > MAX_ALLOC { return NoMemory; }
    var out := new int[buflen];
    var ptr := 0;
    i := 0;
    assert out[..0] + Printed(pairs[0..]) == Printed(pairs);
    while i < count
      invariant 0 <= i <= count && ptr + Room(pairs[i..]) + (if i == count then 1 else 0) <= out.Length
      invariant out[..ptr] + Printed(pairs[i..]) == Printed(pairs)
    {
      RoomNext(pairs, i);
      PrintedNext(out[..ptr], pairs, i);
      var p := PairAt(h, pairs, i);
      ptr := PutPair(out, ptr, p, i + 1 == count);
      i := i + 1;
    }
    assert out[..ptr] + Printed(pairs[count..]) == out[..ptr];
    ghost var w := out[..ptr];
    out[ptr] := 0;
    assert out[..ptr] == w;
    return Shown.Text(out[..ptr]);
  }

  lemma RoomNone(pairs: seq<Pair>)
    ensures pairs == [] ==> Room(pairs) == 0 && Printed(pairs) == []
  {
  }

  // ----- hstore_in -----

  datatype Input = Value(h: HStore) | Invalid(error: HstoreText.Error)

  /** `hstore_in`. */
  method HstoreIn(text: Str, sort: seq<Pair> -> seq<Pair>) returns (r: Input)
    requires NulFree(text)
    ensures match Parse(text, WKey, [], [])
      case Failed(e) => r == Invalid(e)
      case Pairs(p) =>
        var d := Distinct(if |p| < 2 then p else sort(p));
        if HEADER + 8 * |d| + |Strings(d)| > MAX_ALLOC then r == Invalid(OutOfMemory)
        else Fits(d) && r == Input.Value(Encode(d))
  {
    hide Parse, Strings, Distinct, WordsBytes, Entries;
    var state := new HSParser(text);
    var code := state.ParseHstore();
    if code.Error? { return Invalid(code.error); }
    var p := state.pairs;
    var sorted := if |p| < 2 then p else sort(p);
    var a := new Pair[|sorted|](i requires 0 <= i < |sorted| => sorted[i]);
    assert a[..|sorted|] == sorted;
    var n, buflen := UniquePairs(a, |sorted|);
    var packed := PackPairs(a[..n], buflen);
    if packed.AllocError? { return Invalid(OutOfMemory); }
    return Input.Value(packed.value);
  }

  // ----- reading what was printed -----

  predicate NulFreePair(p: Pair) { NulFree(p.key) && (p.val.Text? ==> NulFree(p.val.s)) }

  predicate NulFreePairs(pairs: seq<Pair>) { forall p <- pairs :: NulFreePair(p) }

  lemma {:induction false} RoomOfOne(pairs: seq<Pair>, p: Pair)
    requires p in pairs
    ensures PairRoom(p) <= Room(pairs)
  {
    if p != pairs[0] { RoomOfOne(pairs[1..], p); }
  }

  /** What could be printed can be read: the word buffer is large enough. */
  lemma PrintedIsReadable(pairs: seq<Pair>)
    requires NulFreePairs(pairs) && Room(pairs) <= MAX_ALLOC
    ensures ReadablePairs(pairs)
  {
    hide NulFree, Room;
    forall p | p in pairs ensures Readable(p.key) && ReadableValue(p.val) {
      RoomOfOne(pairs, p);
    }
  }

  lemma {:induction false} EscapeNulFree(s: Str)
    requires NulFree(s)
    ensures NulFree(Escape(s))
  {
    if s != [] { EscapeNulFree(s[1..]); }
  }

  lemma PairTextNulFree(p: Pair)
    requires NulFreePair(p)
    ensures NulFree(PairText(p))
  {
    hide Escape;
    EscapeNulFree(p.key);
    if p.val.Text? { EscapeNulFree(p.val.s); }
  }

  lemma {:induction false} PrintedNulFree(pairs: seq<Pair>)
    requires NulFreePairs(pairs)
    ensures NulFree(Printed(pairs))
  {
    hide PairText, NulFreePair;
    if pairs != [] {
      PairTextNulFree(pairs[0]);
      PrintedNulFree(pairs[1..]);
    }
  }

  lemma {:induction false} OnceEach(p: seq<Pair>, x: Pair)
    requires Sorted(p)
    ensures multiset(p)[x] <= 1
  {
    if p != [] {
      SortedTail(p);
      OnceEach(p[1..], x);
      assert p == [p[0]] + p[1..];
      AboveExcludes(p[0].key, p[1..]);
    }
  }

  lemma TwiceCounts(q: seq<Pair>, i: nat, j: nat)
    requires i < j < |q| && q[i] == q[j]
    ensures multiset(q)[q[i]] >= 2
  {
    assert q == q[..j] + q[j..];
    assert q[i] in q[..j] && q[j] in q[j..];
  }

  /** Sorting a list that is strictly sorted changes nothing. */
  lemma SortedPermutation(p: seq<Pair>, q: seq<Pair>)
    requires Sorted(p) && Ascending(q) && multiset(p) == multiset(q)
    ensures q == p
  {
    hide KeyCompare;
    forall x ensures x in p <==> x in q {
      assert x in p <==> x in multiset(p);
      assert x in q <==> x in multiset(q);
    }
    forall i, j | 0 <= i < j < |q| ensures Before(q[i].key, q[j].key) {
      if q[i].key == q[j].key {
        SameKeySamePair(p, q[i], q[j]);
        TwiceCounts(q, i, j);
        OnceEach(p, q[i]);
      }
      KeyCompareTotal(q[i].key, q[j].key);
    }
    SameMembers(p, q);
    MapDetermines(p, q);
  }

  lemma SameKeySamePair(p: seq<Pair>, x: Pair, y: Pair)
    requires Sorted(p) && x in p && y in p && x.key == y.key
    ensures x == y
  {
    MapHas(p, x);
    MapHas(p, y);
  }

  /**
   `hstore_in` undoes `hstore_out` exactly for values of at most 2^24 pairs; with more, the parser's array
   of pairs cannot grow far enough.
   */
  method OutThenIn(h: HStore, ghost pairs: seq<Pair>, sort: seq<Pair> -> seq<Pair>) returns (r: Input)
    requires Is(h, pairs) && VarSize(h) <= MAX_ALLOC && NulFreePairs(pairs) && Room(pairs) <= MAX_ALLOC
    requires SortsPairs(sort)
    ensures r == if |pairs| <= MAX_PAIRS then Input.Value(h) else Invalid(OutOfMemory)
  {
    hide Parse, Strings, Distinct, WordsBytes, Entries, Printed, NulFreePairs, Room, Sorted, ReadablePairs;
    var shown := HstoreOut(h, pairs);
    PrintedNulFree(pairs);
    PrintedIsReadable(pairs);
    PrintedReads(pairs, []);
    assert [] + pairs == pairs;
    if |pairs| >= 2 { SortedPermutation(pairs, sort(pairs)); }
    DistinctOfSorted(pairs);
    r := HstoreIn(shown.text, sort);
  }

  // ----- a value that can be printed but not read -----

  /** The number `i` in four digits from 1 to 128. */
  function Digits(i: nat): (d: Str)
    requires i < 0x1000_0000
    ensures |d| == 4
  {
    [1 + i / 0x20_0000, 1 + i / 0x4000 % 128, 1 + i / 128 % 128, 1 + i % 128]
  }

  lemma DigitsAscend(i: nat, j: nat)
    requires i < j < 0x1000_0000
    ensures Before(Digits(i), Digits(j))
  {
    var a, b := Digits(i), Digits(j);
    var k := if a[0] != b[0] then 0 else if a[1] != b[1] then 1 else if a[2] != b[2] then 2 else 3;
    DigitsOf(i);
    DigitsOf(j);
    assert a[k] < b[k];
    CommonPrefixUnique(a, b, k);
  }

  lemma DigitsOf(i: nat)
    requires i < 0x1000_0000
    ensures var d := Digits(i);
      i == 0x20_0000 * (d[0] - 1) + 0x4000 * (d[1] - 1) + 128 * (d[2] - 1) + (d[3] - 1)
      && forall k :: 0 <= k < 4 ==> 1 <= d[k] <= 128
  {
    assert i / 0x4000 == i / 128 / 128 && i / 0x20_0000 == i / 128 / 128 / 128;
    assert i / 0x20_0000 < 128;
  }

  /** Distinct keys, all with a null. */
  function Numbered(n: nat): (pairs: seq<Pair>)
    requires n <= 0x1000_0000
    ensures |pairs| == n && forall i :: 0 <= i < n ==> pairs[i] == Pair(Digits(i), Null)
  {
    seq(n, i requires 0 <= i < n => Pair(Digits(i), Null))
  }

  lemma NumberedSize(n: nat, i: nat)
    requires i <= n <= 0x1000_0000
    ensures Room(Numbered(n)[i..]) == 18 * (n - i)
    ensures |Strings(Numbered(n)[..i])| == 4 * i
  {
    hide Numbered, Strings, Digits;
    var p := Numbered(n);
    RoomFrom(p, i);
    StringsUpTo(p, i);
  }

  lemma {:induction false} RoomFrom(p: seq<Pair>, i: nat)
    requires i <= |p| && forall k :: 0 <= k < |p| ==> |p[k].key| == 4 && p[k].val == Null
    ensures Room(p[i..]) == 18 * (|p| - i)
    decreases |p| - i
  {
    if i < |p| {
      RoomFrom(p, i + 1);
      RoomNext(p, i);
    }
  }

  lemma {:induction false} StringsUpTo(p: seq<Pair>, i: nat)
    requires i <= |p| && forall k :: 0 <= k < |p| ==> |p[k].key| == 4 && p[k].val == Null
    ensures |Strings(p[..i])| == 4 * i
  {
    if i > 0 {
      StringsUpTo(p, i - 1);
      StringsNext(p, i - 1);
    } else {
      assert p[..0] == [];
    }
  }

  /** A value of 2^24 + 1 pairs that meets everything `OutThenIn` asks for. */
  lemma LargeValueExists()
    ensures var pairs := Numbered(MAX_PAIRS + 1);
      && Fits(pairs) && Is(Encode(pairs), pairs) && VarSize(Encode(pairs)) <= MAX_ALLOC
      && NulFreePairs(pairs) && Room(pairs) <= MAX_ALLOC && |pairs| > MAX_PAIRS
  {
    hide Numbered, Digits, Strings, WordsBytes, Entries, Room;
    var n := MAX_PAIRS + 1;
    var pairs := Numbered(n);
    NumberedSize(n, 0);
    NumberedSize(n, n);
    assert pairs[0..] == pairs && pairs[..n] == pairs;
    forall i, j | 0 <= i < j < n ensures Before(pairs[i].key, pairs[j].key) { DigitsAscend(i, j); }
    forall p | p in pairs ensures NulFreePair(p) {
      var i :| 0 <= i < n && pairs[i] == p;
      DigitsOf(i);
    }
  }
}

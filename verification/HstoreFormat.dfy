/**
 The packed representation of hstore values (contrib/hstore/hstore.h): a count, two 32-bit entries for
 each pair that hold the end positions of its key and value, and the strings one after the other.
 `Encode` says which bytes stand for a list of pairs; the macros that decode entries are shown to read
 those pairs back, and the macros that write entries to produce those bytes.
 */
module HstoreFormat {

  /** Strings and memory: bytes as numbers.  Nothing here depends on their being below 256. */
  type Str = seq<int>

  datatype Value = Null | Text(s: Str)
  datatype Pair = Pair(key: Str, val: Value)

  const POS_LIMIT: nat := 0x4000_0000      // HENTRY_POSMASK + 1
  const ISNULL: nat := 0x4000_0000
  const ISFIRST: nat := 0x8000_0000
  const NEWVERSION: nat := 0x8000_0000
  const MAX_ALLOC: nat := 0x3fff_ffff
  const HEADER: nat := 8

  /** A value in memory: the item count of `size_`, and the bytes after the eight header bytes. */
  datatype HStore = HStore(count: nat, data: Str)

  function VarSize(h: HStore): nat { HEADER + |h.data| }

  // ----- 32-bit words -----

  type word = v: int | 0 <= v < 0x1_0000_0000

  /** Byte `i` of a number, the low byte first. */
  function Digit(v: nat, i: nat): nat {
    if i == 0 then v % 256 else Digit(v / 256, i - 1)
  }

  /** A word in memory. */
  function WordBytes(v: word): (m: Str)
    ensures |m| == 4
  {
    seq(4, i requires 0 <= i < 4 => Digit(v, i))
  }

  function ReadWord(m: Str, at: nat): int
    requires at + 4 <= |m|
  {
    m[at] + 256 * m[at + 1] + 0x1_0000 * m[at + 2] + 0x100_0000 * m[at + 3]
  }

  lemma WordRoundTrip(v: word, m: Str, at: nat)
    requires at + 4 <= |m| && m[at..at + 4] == WordBytes(v)
    ensures ReadWord(m, at) == v
  {
    var w := m[at..at + 4];
    assert w[0] == v % 256;
    assert w[1] == Digit(v / 256, 0);
    assert w[2] == Digit(v / 256, 1) == Digit(v / 256 / 256, 0);
    assert w[3] == Digit(v / 256, 2) == Digit(v / 256 / 256, 1) == Digit(v / 256 / 256 / 256, 0);
  }

  /** Consecutive words in memory. */
  function WordsBytes(ws: seq<word>): (m: Str)
    ensures |m| == 4 * |ws|
  {
    if ws == [] then [] else WordsBytes(ws[..|ws| - 1]) + WordBytes(ws[|ws| - 1])
  }

  lemma {:induction false} WordsAt(ws: seq<word>, k: nat)
    requires k < |ws|
    ensures WordsBytes(ws)[4 * k..4 * k + 4] == WordBytes(ws[k])
  {
    var n := |ws| - 1;
    if k < n {
      WordsAt(ws[..n], k);
      assert WordsBytes(ws)[4 * k..4 * k + 4] == WordsBytes(ws[..n])[4 * k..4 * k + 4];
    }
  }

  lemma ReadWords(ws: seq<word>, rest: Str, k: nat)
    requires k < |ws|
    ensures ReadWord(WordsBytes(ws) + rest, 4 * k) == ws[k]
  {
    WordsAt(ws, k);
    SliceOfFront(WordsBytes(ws), rest, 4 * k, 4 * k + 4);
    WordRoundTrip(ws[k], WordsBytes(ws) + rest, 4 * k);
  }

  lemma SliceOfFront(a: Str, b: Str, i: nat, j: nat)
    requires i <= j <= |a|
    ensures (a + b)[i..j] == a[i..j]
  {
  }

  // ----- what the bytes of a list of pairs are -----

  function ValueBytes(v: Value): Str { if v.Null? then [] else v.s }

  function PairBytes(p: Pair): Str { p.key + ValueBytes(p.val) }

  /** The string area. */
  function Strings(pairs: seq<Pair>): Str {
    if pairs == [] then [] else Strings(pairs[..|pairs| - 1]) + PairBytes(pairs[|pairs| - 1])
  }

  predicate Fits(pairs: seq<Pair>) { |Strings(pairs)| < POS_LIMIT }

  /** The entries of a pair whose strings start at `at`. */
  function KeyEntry(at: nat, p: Pair): word
    requires at + |PairBytes(p)| < POS_LIMIT
  {
    at + |p.key|
  }

  function ValueEntry(at: nat, p: Pair): word
    requires at + |PairBytes(p)| < POS_LIMIT
  {
    at + |PairBytes(p)| + if p.val.Null? then ISNULL else 0
  }

  /** The entries before the first one is marked. */
  function RawEntries(pairs: seq<Pair>): (ws: seq<word>)
    requires Fits(pairs)
    ensures |ws| == 2 * |pairs|
  {
    if pairs == [] then []
    else
      var n := |pairs| - 1;
      var at := |Strings(pairs[..n])|;
      RawEntries(pairs[..n]) + [KeyEntry(at, pairs[n]), ValueEntry(at, pairs[n])]
  }

  lemma StringsNext(pairs: seq<Pair>, i: nat)
    requires i < |pairs|
    ensures Strings(pairs[..i + 1]) == Strings(pairs[..i]) + PairBytes(pairs[i])
  {
    assert pairs[..i + 1][..i] == pairs[..i];
  }

  /** A pair's strings lie in the string area right behind those of the pairs before it. */
  lemma {:induction false} StringsAt(pairs: seq<Pair>, i: nat)
    requires i < |pairs|
    ensures |Strings(pairs[..i])| + |PairBytes(pairs[i])| <= |Strings(pairs)|
    ensures Strings(pairs)[|Strings(pairs[..i])|..][..|PairBytes(pairs[i])|] == PairBytes(pairs[i])
  {
    var n := |pairs| - 1;
    if i == n {
      assert pairs[..i + 1] == pairs;
    } else {
      StringsAt(pairs[..n], i);
      assert pairs[..n][..i] == pairs[..i] && pairs[..n][i] == pairs[i];
      var a, k := |Strings(pairs[..i])|, |PairBytes(pairs[i])|;
      assert Strings(pairs)[a..][..k] == Strings(pairs[..n])[a..][..k];
    }
  }

  lemma {:induction false} EntriesAt(pairs: seq<Pair>, i: nat)
    requires Fits(pairs) && i < |pairs|
    ensures |Strings(pairs[..i])| + |PairBytes(pairs[i])| < POS_LIMIT
    ensures RawEntries(pairs)[2 * i] == KeyEntry(|Strings(pairs[..i])|, pairs[i])
    ensures RawEntries(pairs)[2 * i + 1] == ValueEntry(|Strings(pairs[..i])|, pairs[i])
  {
    hide Strings, PairBytes, KeyEntry, ValueEntry;
    StringsAt(pairs, i);
    var n := |pairs| - 1;
    StringsAt(pairs, n);
    if i < n {
      EntriesAt(pairs[..n], i);
      assert pairs[..n][..i] == pairs[..i] && pairs[..n][i] == pairs[i];
    }
  }

  /** `HENTRY_ISFIRST` on the first entry. */
  function MarkFirst(ws: seq<word>): (r: seq<word>)
    requires ws != [] ==> ws[0] < POS_LIMIT
    ensures |r| == |ws|
  {
    if ws == [] then ws else ws[0 := ws[0] + ISFIRST]
  }

  lemma FirstEntryIsSmall(pairs: seq<Pair>)
    requires Fits(pairs)
    ensures pairs != [] ==> RawEntries(pairs)[0] < POS_LIMIT
  {
    if pairs != [] { EntriesAt(pairs, 0); }
  }

  function Entries(pairs: seq<Pair>): (ws: seq<word>)
    requires Fits(pairs)
    ensures |ws| == 2 * |pairs|
  {
    FirstEntryIsSmall(pairs);
    MarkFirst(RawEntries(pairs))
  }

  /** The value in memory that stands for a list of pairs. */
  function Encode(pairs: seq<Pair>): HStore
    requires Fits(pairs)
  {
    HStore(|pairs|, WordsBytes(Entries(pairs)) + Strings(pairs))
  }

  // ----- the decoding macros -----

  predicate HasEntries(h: HStore) { 8 * h.count <= |h.data| }

  function Entry(h: HStore, k: nat): int
    requires HasEntries(h) && k < 2 * h.count
  {
    ReadWord(h.data, 4 * k)
  }

  /** `HSE_ENDPOS`, `HSE_ISNULL` and `HSE_ISFIRST`. */
  function EndPos(entry: int): nat { entry % POS_LIMIT }
  predicate IsNull(entry: int) { entry / ISNULL % 2 == 1 }
  predicate IsFirst(entry: int) { entry / ISFIRST % 2 == 1 }

  /** `HSE_OFF`: where an entry's string starts. */
  function Offset(h: HStore, k: nat): nat
    requires HasEntries(h) && k < 2 * h.count
  {
    if IsFirst(Entry(h, k)) || k == 0 then 0 else EndPos(Entry(h, k - 1))
  }

  /** `HSE_LEN`. */
  function Length(h: HStore, k: nat): int
    requires HasEntries(h) && k < 2 * h.count
  {
    EndPos(Entry(h, k)) - Offset(h, k)
  }

  /** `STRPTR`. */
  function StringArea(h: HStore): Str
    requires HasEntries(h)
  {
    h.data[8 * h.count..]
  }

  predicate HasString(h: HStore, k: nat) {
    HasEntries(h) && k < 2 * h.count && 0 <= Length(h, k) && Offset(h, k) + Length(h, k) <= |StringArea(h)|
  }

  /** The string of entry `k`: `HSTORE_KEY` for even and `HSTORE_VAL` for odd entries. */
  function StringOf(h: HStore, k: nat): Str
    requires HasString(h, k)
  {
    StringArea(h)[Offset(h, k)..][..Length(h, k)]
  }

  lemma EncodedArea(pairs: seq<Pair>)
    requires Fits(pairs)
    ensures HasEntries(Encode(pairs)) && StringArea(Encode(pairs)) == Strings(pairs)
  {
  }

  lemma EncodedEntry(pairs: seq<Pair>, k: nat)
    requires Fits(pairs) && k < 2 * |pairs|
    ensures HasEntries(Encode(pairs)) && Entry(Encode(pairs), k) == Entries(pairs)[k]
  {
    ReadWords(Entries(pairs), Strings(pairs), k);
  }

  /** The two entries of pair `i` as they are read. */
  lemma EntriesOf(pairs: seq<Pair>, i: nat)
    requires Fits(pairs) && i < |pairs|
    ensures var at := |Strings(pairs[..i])|;
      && at + |PairBytes(pairs[i])| < POS_LIMIT
      && EndPos(Entries(pairs)[2 * i]) == at + |pairs[i].key|
      && (IsFirst(Entries(pairs)[2 * i]) <==> i == 0)
      && EndPos(Entries(pairs)[2 * i + 1]) == at + |PairBytes(pairs[i])|
      && !IsFirst(Entries(pairs)[2 * i + 1])
      && (IsNull(Entries(pairs)[2 * i + 1]) <==> pairs[i].val.Null?)
  {
    hide Strings, RawEntries, EndPos, IsFirst, IsNull;
    EntriesAt(pairs, i);
    Flags(|Strings(pairs[..i])| + |pairs[i].key|);
    Flags(|Strings(pairs[..i])| + |PairBytes(pairs[i])|);
  }

  /** A position and the flags above it do not disturb each other. */
  lemma Flags(pos: nat)
    requires pos < POS_LIMIT
    ensures EndPos(pos) == pos && !IsFirst(pos) && !IsNull(pos)
    ensures EndPos(pos + ISFIRST) == pos && IsFirst(pos + ISFIRST)
    ensures EndPos(pos + ISNULL) == pos && IsNull(pos + ISNULL) && !IsFirst(pos + ISNULL)
  {
  }

  /** Where an entry's string lies, from what the entry and its predecessor say. */
  lemma PlaceOf(h: HStore, k: nat, from: nat, to: nat)
    requires HasEntries(h) && k < 2 * h.count && EndPos(Entry(h, k)) == to
    requires if IsFirst(Entry(h, k)) then from == 0 else k > 0 && EndPos(Entry(h, k - 1)) == from
    ensures Offset(h, k) == from && Length(h, k) == to - from
  {
  }

  lemma PlaceOfKey(pairs: seq<Pair>, i: nat)
    requires Fits(pairs) && i < |pairs|
    ensures HasEntries(Encode(pairs))
    ensures Offset(Encode(pairs), 2 * i) == |Strings(pairs[..i])| && Length(Encode(pairs), 2 * i) == |pairs[i].key|
  {
    EncodedEntry(pairs, 2 * i);
    EntriesOf(pairs, i);
    PreviousEnd(pairs, i);
    if i > 0 { EncodedEntry(pairs, 2 * i - 1); }
    PlaceOf(Encode(pairs), 2 * i, |Strings(pairs[..i])|, |Strings(pairs[..i])| + |pairs[i].key|);
  }

  lemma PlaceOfValue(pairs: seq<Pair>, i: nat)
    requires Fits(pairs) && i < |pairs|
    ensures HasEntries(Encode(pairs))
    ensures Offset(Encode(pairs), 2 * i + 1) == |Strings(pairs[..i])| + |pairs[i].key|
    ensures Length(Encode(pairs), 2 * i + 1) == |ValueBytes(pairs[i].val)|
    ensures IsNull(Entry(Encode(pairs), 2 * i + 1)) <==> pairs[i].val.Null?
  {
    EncodedEntry(pairs, 2 * i);
    EncodedEntry(pairs, 2 * i + 1);
    EntriesOf(pairs, i);
    PlaceOf(Encode(pairs), 2 * i + 1, |Strings(pairs[..i])| + |pairs[i].key|, |Strings(pairs[..i])| + |PairBytes(pairs[i])|);
  }

  lemma PreviousEnd(pairs: seq<Pair>, i: nat)
    requires Fits(pairs) && i < |pairs|
    ensures if i == 0 then |Strings(pairs[..i])| == 0 else EndPos(Entries(pairs)[2 * i - 1]) == |Strings(pairs[..i])|
  {
    if i > 0 {
      hide Strings, Entries, EndPos;
      EntriesOf(pairs, i - 1);
      StringsNext(pairs, i - 1);
    } else {
      assert pairs[..0] == [];
    }
  }

  /** Decoding what `Encode` wrote gives the pairs back. */
  lemma DecodePair(pairs: seq<Pair>, i: nat)
    requires Fits(pairs) && i < |pairs|
    ensures var h := Encode(pairs);
      && HasString(h, 2 * i) && StringOf(h, 2 * i) == pairs[i].key
      && HasString(h, 2 * i + 1) && StringOf(h, 2 * i + 1) == ValueBytes(pairs[i].val)
      && (IsNull(Entry(h, 2 * i + 1)) <==> pairs[i].val.Null?)
  {
    EncodedArea(pairs);
    PlaceOfKey(pairs, i);
    PlaceOfValue(pairs, i);
    SplitPair(pairs, i);
  }

  lemma SplitPair(pairs: seq<Pair>, i: nat)
    requires i < |pairs|
    ensures var at, p := |Strings(pairs[..i])|, pairs[i];
      && at + |PairBytes(p)| <= |Strings(pairs)|
      && Strings(pairs)[at..][..|p.key|] == p.key
      && Strings(pairs)[at + |p.key|..][..|ValueBytes(p.val)|] == ValueBytes(p.val)
  {
    hide Strings;
    StringsAt(pairs, i);
    SplitSlice(Strings(pairs), |Strings(pairs[..i])|, pairs[i].key, ValueBytes(pairs[i].val));
  }

  lemma SplitSlice(s: Str, at: nat, k: Str, v: Str)
    requires at + |k + v| <= |s| && s[at..][..|k + v|] == k + v
    ensures s[at..][..|k|] == k && s[at + |k|..][..|v|] == v
  {
    var both := s[at..][..|k + v|];
    assert s[at..][..|k|] == both[..|k|];
    assert s[at + |k|..][..|v|] == both[|k|..];
  }
}

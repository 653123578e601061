/**
 Reading values of the old hstore format (contrib/hstore/hstore_compat.c): the two validity tests, and the
 conversion that overwrites each old entry with two new ones in the same memory.  Memory is the bytes
 behind the eight header bytes; entries are laid out as on a little-endian machine.
 */
module HstoreUpgrade {
  import opened HstoreFormat
  import opened HstoreBuild
  import opened HstoreMap
  import opened HstoreOps

  // ----- old entries -----

  function KeyLen(m: Str, i: nat): nat
    requires 8 * i + 8 <= |m|
  {
    ReadWord(m, 8 * i) % 0x1_0000
  }

  function ValLen(m: Str, i: nat): nat
    requires 8 * i + 8 <= |m|
  {
    ReadWord(m, 8 * i) / 0x1_0000 % 0x1_0000
  }

  predicate ValNull(m: Str, i: nat)
    requires 8 * i + 8 <= |m|
  {
    ReadWord(m, 8 * i + 4) % 2 == 1
  }

  function Pos(m: Str, i: nat): nat
    requires 8 * i + 8 <= |m|
  {
    ReadWord(m, 8 * i + 4) / 2 % 0x8000_0000
  }

  /** The length of a value; a null has none, whatever its length field holds. */
  function ValueLen(m: Str, i: nat): nat
    requires 8 * i + 8 <= |m|
  {
    if ValNull(m, i) then 0 else ValLen(m, i)
  }

  /** Where the strings of the first `n` entries end if they are contiguous. */
  function LastPos(m: Str, n: nat): nat
    requires 8 * n <= |m|
  {
    if n == 0 then 0 else LastPos(m, n - 1) + KeyLen(m, n - 1) + ValueLen(m, n - 1)
  }

  predicate Contiguous(m: Str, n: nat) {
    8 * n <= |m| && forall i :: 0 <= i < n ==> Pos(m, i) == LastPos(m, i)
  }

  predicate KeysGrow(m: Str, n: nat) {
    8 * n <= |m| && forall i, j :: 0 <= i < n && j == i + 1 && j < n ==> KeyLen(m, i) <= KeyLen(m, j)
  }

  predicate OldValid(m: Str, count: nat) {
    Contiguous(m, count) && KeysGrow(m, count) && 8 * count + LastPos(m, count) <= |m|
  }

  /** `hstoreValidOldFormat`: 0 for not valid, 1 for valid with slop, 2 for exactly valid. */
  method ValidOldFormat(size: nat, m: Str) returns (v: int)
    ensures size >= NEWVERSION || size > 0xFFF_FFFF ==> v == 0
    ensures size == 0 ==> v == 2
    ensures 0 < size <= 0xFFF_FFFF ==>
      v == if !OldValid(m, size) then 0 else if 8 * size + LastPos(m, size) == |m| then 2 else 1
  {
    hide KeyLen, ValLen, Pos, ValNull;
    if size >= NEWVERSION { return 0; }
    if size == 0 { return 2; }
    if size > 0xFFF_FFFF { return 0; }
    if HEADER + 8 * size > HEADER + |m| { return 0; }
    if Pos(m, 0) != 0 {
      assert LastPos(m, 0) == 0;
      return 0;
    }
    var i := 1;
    while i < size
      invariant 1 <= i <= size && KeysGrow(m, i)
    {
      if KeyLen(m, i) < KeyLen(m, i - 1) { return 0; }
      i := i + 1;
    }
    var lastpos := 0;
    i := 0;
    while i < size
      invariant 0 <= i <= size && lastpos == LastPos(m, i) && Contiguous(m, i)
    {
      if Pos(m, i) != lastpos { return 0; }
      lastpos := lastpos + KeyLen(m, i) + if ValNull(m, i) then 0 else ValLen(m, i);
      i := i + 1;
    }
    var vsize := HEADER + 8 * size + lastpos;
    if vsize > HEADER + |m| { return 0; }
    if vsize != HEADER + |m| { return 1; }
    return 2;
  }

  // ----- what an old value stands for -----

  function OldPair(m: Str, count: nat, i: nat): Pair
    requires OldValid(m, count) && i < count && LastPos(m, i + 1) <= LastPos(m, count)
  {
    var s, k := m[8 * count..], Pos(m, i) + KeyLen(m, i);
    Pair(s[Pos(m, i)..k], if ValNull(m, i) then Null else Text(s[k..k + ValLen(m, i)]))
  }

  lemma {:induction false} LastPosGrows(m: Str, i: nat, n: nat)
    requires i <= n && 8 * n <= |m|
    ensures LastPos(m, i) <= LastPos(m, n)
  {
    if i < n { LastPosGrows(m, i, n - 1); }
  }

  /** The list that an old value stands for. */
  function OldPairs(m: Str, count: nat, n: nat): (p: seq<Pair>)
    requires OldValid(m, count) && n <= count
    ensures |p| == n
  {
    if n == 0 then []
    else
      LastPosGrows(m, n, count);
      OldPairs(m, count, n - 1) + [OldPair(m, count, n - 1)]
  }

  lemma SliceJoin(s: Str, a: nat, b: nat, c: nat)
    requires a <= b <= c <= |s|
    ensures s[a..b] + s[b..c] == s[a..c] && s[..a] + s[a..c] == s[..c]
  {
  }

  /** Where the strings of an old entry lie. */
  lemma OldBounds(m: Str, count: nat, i: nat)
    requires OldValid(m, count) && i < count
    ensures Pos(m, i) == LastPos(m, i) && LastPos(m, i + 1) == Pos(m, i) + KeyLen(m, i) + ValueLen(m, i)
    ensures LastPos(m, i + 1) <= LastPos(m, count) <= |m| - 8 * count
  {
    hide KeyLen, ValLen, Pos, ValNull, KeysGrow;
    LastPosGrows(m, i + 1, count);
  }

  /** The bytes of an old pair lie right behind those of the pairs before it. */
  lemma OldPairBytes(m: Str, count: nat, i: nat)
    requires OldValid(m, count) && i < count
    ensures LastPos(m, i) <= LastPos(m, i + 1) <= LastPos(m, count) <= |m[8 * count..]|
    ensures PairBytes(OldPair(m, count, i)) == m[8 * count..][LastPos(m, i)..LastPos(m, i + 1)]
    ensures |OldPair(m, count, i).key| == KeyLen(m, i)
  {
    hide KeyLen, ValLen, Pos, ValNull, OldValid, LastPos;
    OldBounds(m, count, i);
    var k := Pos(m, i) + KeyLen(m, i);
    SliceJoin(m[8 * count..], Pos(m, i), k, k + ValueLen(m, i));
  }

  /** The strings are contiguous, so the string area starts with them. */
  lemma {:induction false} OldStrings(m: Str, count: nat, n: nat)
    requires OldValid(m, count) && n <= count
    ensures LastPos(m, n) <= |m[8 * count..]| && Strings(OldPairs(m, count, n)) == m[8 * count..][..LastPos(m, n)]
  {
    hide OldPair, Strings, PairBytes, KeysGrow, Contiguous;
    LastPosGrows(m, n, count);
    if n == 0 {
      StringsNone();
    } else {
      hide LastPos;
      OldStrings(m, count, n - 1);
      OldPairBytes(m, count, n - 1);
      StringsSnoc(OldPairs(m, count, n - 1), OldPair(m, count, n - 1));
      SliceJoin(m[8 * count..], LastPos(m, n - 1), LastPos(m, n - 1), LastPos(m, n));
    }
  }

  // ----- the conversion -----

  lemma ReadBehind(m: Str, o: Str, at: nat, k: nat)
    requires |m| == |o| && at <= k && k + 4 <= |m| && m[at..] == o[at..]
    ensures ReadWord(m, k) == ReadWord(o, k)
  {
    assert forall j :: at <= j < |m| ==> m[j] == m[at..][j - at];
    assert forall j :: at <= j < |o| ==> o[j] == o[at..][j - at];
  }

  /** Two words written at the end of the part that is done. */
  lemma TwoWords(a: Str, m: Str, at: nat, k: Str, v: Str)
    requires |k| == 4 && |v| == 4 && at == |a| && at + 8 <= |m| && m[..at] == a
    ensures Splice(Splice(m, at, k), at + 4, v)[..at + 8] == a + k + v
    ensures Splice(Splice(m, at, k), at + 4, v)[at + 8..] == m[at + 8..]
  {
    var m1 := Splice(m, at, k);
    var m2 := Splice(m1, at + 4, v);
    assert m2[..at + 8] == m2[..at + 4] + m2[at + 4..at + 8];
    assert m1[..at + 4] == m1[..at] + m1[at..at + 4];
    assert m1[at + 8..] == m1[at + 4..][4..] == m[at + 4..][4..];
  }

  /** The new entries of an old entry. */
  lemma ConvertedEntry(m: Str, count: nat, i: nat)
    requires OldValid(m, count) && i < count && LastPos(m, count) < POS_LIMIT
    ensures var p := OldPairs(m, count, i); var x := OldPairs(m, count, i + 1)[i];
      && OldPairs(m, count, i + 1) == p + [x]
      && NextFits(p, x) && |Strings(p)| == Pos(m, i) && (x.val.Null? <==> ValNull(m, i))
      && KeyEntry(|Strings(p)|, x) == Pos(m, i) + KeyLen(m, i)
      && ValueEntry(|Strings(p)|, x) ==
         Pos(m, i) + KeyLen(m, i) + ValueLen(m, i) + if ValNull(m, i) then ISNULL else 0
  {
    hide KeyLen, ValLen, Pos, ValNull, KeysGrow, Strings;
    OldStrings(m, count, i);
    LastPosGrows(m, i, count);
    LastPosGrows(m, i + 1, count);
  }

  lemma SameEntry(m: Str, o: Str, i: nat)
    requires |m| == |o| && 8 * i + 8 <= |m| && m[8 * i..] == o[8 * i..]
    ensures Pos(m, i) == Pos(o, i) && KeyLen(m, i) == KeyLen(o, i) && ValLen(m, i) == ValLen(o, i)
    ensures ValNull(m, i) == ValNull(o, i)
  {
    hide ReadWord;
    ReadBehind(m, o, 8 * i, 8 * i);
    ReadBehind(m, o, 8 * i, 8 * i + 4);
  }

  lemma EntriesInRange(at: nat, x: Pair)
    requires at + |PairBytes(x)| < POS_LIMIT
    ensures KeyEntry(at, x) < POS_LIMIT && ValueEntry(at, x) - (if x.val.Null? then ISNULL else 0) < POS_LIMIT
  {
  }

  /** Memory `m'` in which the first `i` entries of `m` have been converted. */
  ghost predicate Converted(m: Str, m': Str, count: nat, i: nat)
    requires OldValid(m, count) && i <= count
  {
    var p := OldPairs(m, count, i);
    |m'| == |m| && Fits(p) && m'[..8 * i] == EntryBytes(p) && m'[8 * i..] == m[8 * i..]
  }

  lemma OldNone(m: Str, count: nat)
    requires OldValid(m, count)
    ensures 8 * count <= |m| && Converted(m, m, count, 0)
  {
  }

  lemma ConvertedNext(m: Str, m': Str, count: nat, i: nat, k: word, v: word)
    requires OldValid(m, count) && i < count && LastPos(m, count) < POS_LIMIT && Converted(m, m', count, i)
    requires k == (Pos(m', i) + KeyLen(m', i)) % POS_LIMIT
    requires v == (Pos(m', i) + KeyLen(m', i) + ValueLen(m', i)) % POS_LIMIT + if ValNull(m', i) then ISNULL else 0
    ensures Converted(m, Splice(Splice(m', 8 * i, WordBytes(k)), 8 * i + 4, WordBytes(v)), count, i + 1)
  {
    hide KeyLen, ValLen, Pos, ValNull, OldValid, OldPairs, Strings, Splice, LastPos, KeyEntry, ValueEntry, EntryBytes, WordBytes;
    OldNone(m, count);
    SameEntry(m', m, i);
    ConvertedEntry(m, count, i);
    var p, x := OldPairs(m, count, i), OldPairs(m, count, i + 1)[i];
    EntriesInRange(|Strings(p)|, x);
    assert k == KeyEntry(|Strings(p)|, x) && v == ValueEntry(|Strings(p)|, x);
    EntriesSnoc(p, x);
    EntryBytesSnoc(p, x);
    TwoWords(EntryBytes(p), m', 8 * i, WordBytes(k), WordBytes(v));
    assert m'[8 * i + 8..] == m'[8 * i..][8..] == m[8 * i..][8..] == m[8 * i + 8..];
  }

  /** The loop that overwrites the entries. */
  method ConvertEntries(mem: array<int>, count: nat)
    requires OldValid(mem[..], count) && LastPos(mem[..], count) < POS_LIMIT
    modifies mem
    ensures Converted(old(mem[..]), mem[..], count, count)
  {
    hide KeyLen, ValLen, Pos, ValNull, OldValid, OldPairs, Splice, LastPos, EntryBytes, Converted;
    ghost var m := mem[..];
    var i := 0;
    OldNone(m, count);
    while i < count
      invariant 0 <= i <= count && Converted(m, mem[..], count, i)
    {
      var pos, keylen, vallen, isnull := Pos(mem[..], i), KeyLen(mem[..], i), ValLen(mem[..], i), ValNull(mem[..], i);
      if isnull { vallen := 0; }
      var k: word := (pos + keylen) % POS_LIMIT;
      var v: word := (pos + keylen + vallen) % POS_LIMIT + if isnull then ISNULL else 0;
      ConvertedNext(m, mem[..], count, i, k, v);
      CopyIn(mem, 8 * i, WordBytes(k));
      CopyIn(mem, 8 * i + 4, WordBytes(v));
      i := i + 1;
    }
  }

  /** Memory behind the entries and strings does not disturb the size that `HS_FIXSIZE` computes. */
  lemma PaddedSize(pairs: seq<Pair>, pad: Str)
    requires Fits(pairs)
    ensures var h := HStore(|pairs|, Encode(pairs).data + pad);
      && HasEntries(h) && FixedSize(h) == |Encode(pairs).data|
      && h.data[..FixedSize(h)] == Encode(pairs).data
  {
    hide EndPos, ReadWord, Strings, Entries, WordsBytes;
    var n, h := |pairs|, HStore(|pairs|, Encode(pairs).data + pad);
    assert h.data == WordsBytes(Entries(pairs)) + (Strings(pairs) + pad);
    if n > 0 {
      ReadWords(Entries(pairs), Strings(pairs) + pad, 2 * n - 1);
      EntriesOf(pairs, n - 1);
      StringsNext(pairs, n - 1);
      assert pairs[..n] == pairs;
    } else {
      StringsNone();
    }
  }

  /** The old-format branch of `hstoreUpgrade`: the packed value of the list that the old value stands for. */
  method UpgradeOld(mem: array<int>, count: nat) returns (h: HStore)
    requires OldValid(mem[..], count) && HEADER + mem.Length <= MAX_ALLOC
    modifies mem
    ensures var pairs := old(OldPairs(mem[..], count, count)); Fits(pairs) && h == Encode(pairs)
    ensures |h.data| <= mem.Length && h.data == mem[..|h.data|]
  {
    hide OldValid, OldPairs, Strings, EntryBytes, Laid, Splice, FixedSize, WordsBytes, Entries, LastPos;
    ghost var m, pairs := mem[..], OldPairs(mem[..], count, count);
    OldSize(m, count);
    OldStrings(m, count, count);
    ConvertEntries(mem, count);
    OldBuilt(m, mem[..], count, pairs);
    BuiltEntries(mem[..], 8 * count, pairs, 2 * count, 8 * count + |Strings(pairs)|);
    if count > 0 {
      var first: word := ReadWord(mem[..], 0);
      CopyIn(mem, 0, WordBytes(first + ISFIRST));
    }
    ghost var pad := LaidPadded(mem[..], 8 * count, pairs);
    PaddedSize(pairs, pad);
    h := HStore(count, mem[..]);
    h := HStore(count, h.data[..FixedSize(h)]);
  }

  lemma OldSize(m: Str, count: nat)
    requires OldValid(m, count) && HEADER + |m| <= MAX_ALLOC
    ensures 8 * count <= |m| && LastPos(m, count) < POS_LIMIT
  {
    hide KeysGrow, Contiguous, LastPos;
  }

  lemma OldBuilt(m: Str, m': Str, count: nat, pairs: seq<Pair>)
    requires |m| == |m'| && 8 * count <= |m| && |pairs| == count && Fits(pairs)
    requires m'[..8 * count] == EntryBytes(pairs) && m'[8 * count..] == m[8 * count..]
    requires exists n :: 0 <= n <= |m[8 * count..]| && Strings(pairs) == m[8 * count..][..n]
    ensures Built(m', 8 * count, pairs, 2 * count, 8 * count + |Strings(pairs)|)
  {
    hide EntryBytes, Strings;
    var s := |Strings(pairs)|;
    assert m'[8 * count..8 * count + s] == m'[8 * count..][..s];
  }

  lemma LaidPadded(m: Str, buf: nat, pairs: seq<Pair>) returns (pad: Str)
    requires Fits(pairs) && buf == 8 * |pairs| && Laid(m, buf, FinalBytes(pairs), Strings(pairs))
    ensures m == Encode(pairs).data + pad
  {
    hide WordsBytes, Entries, Strings;
    pad := m[buf + |Strings(pairs)|..];
    assert m == m[..buf] + m[buf..buf + |Strings(pairs)|] + pad;
  }

  // ----- telling the formats apart -----

  /** An entry that ends no earlier than the one before it and is not marked as the first. */
  predicate EntryFollows(h: HStore, j: nat)
    requires HasEntries(h) && 0 < j < 2 * h.count
  {
    !IsFirst(Entry(h, j)) && EndPos(Entry(h, j - 1)) <= EndPos(Entry(h, j))
  }

  /** A key that is not null and no shorter than the one before it. */
  predicate KeyFollows(h: HStore, j: nat)
    requires HasEntries(h) && 0 < j < h.count
  {
    Length(h, 2 * j - 2) <= Length(h, 2 * j) && !IsNull(Entry(h, 2 * j))
  }

  predicate EndsGrow(h: HStore, n: nat) {
    HasEntries(h) && n <= 2 * h.count && forall j :: 0 < j < n ==> EntryFollows(h, j)
  }

  predicate LengthsGrow(h: HStore, n: nat) {
    HasEntries(h) && n <= h.count && forall j :: 0 < j < n ==> KeyFollows(h, j)
  }

  /** The structure of a value in the new format that lacks the version flag, with possible slop behind it. */
  predicate NewValid(m: Str, count: nat) {
    var h := HStore(count, m);
    && count > 0 && HasEntries(h) && IsFirst(Entry(h, 0)) && FixedSize(h) <= |m|
    && EndsGrow(h, 2 * count) && LengthsGrow(h, count)
  }

  /**
   `hstoreValidNewFormat`.  The source reads the last entry first, even one that lies behind the value; whatever
   it finds there, the size it computes is then too large, and the answer is 0.
   */
  method ValidNewFormat(size: nat, m: Str) returns (v: int)
    ensures size >= NEWVERSION || size % 0x1000_0000 == 0 ==> v == 2
    ensures size < NEWVERSION && size % 0x1000_0000 > 0 ==>
      var count := size % 0x1000_0000;
      v == if !NewValid(m, count) then 0 else if FixedSize(HStore(count, m)) == |m| then 2 else 1
  {
    hide Entry, EndPos, IsNull, IsFirst, Length, FixedSize;
    var count := size % 0x1000_0000;
    var h := HStore(count, m);
    if size >= NEWVERSION { return 2; }
    if count == 0 { return 2; }
    if 8 * count > |m| { return 0; }
    var vsize := HEADER + FixedSize(h);
    if !IsFirst(Entry(h, 0)) { return 0; }
    if vsize > HEADER + |m| { return 0; }
    var i := 1;
    while i < 2 * count
      invariant 1 <= i <= 2 * count && EndsGrow(h, i)
    {
      if IsFirst(Entry(h, i)) || EndPos(Entry(h, i)) < EndPos(Entry(h, i - 1)) {
        assert !EntryFollows(h, i);
        return 0;
      }
      i := i + 1;
    }
    i := 1;
    while i < count
      invariant 1 <= i <= count && LengthsGrow(h, i)
    {
      if Length(h, 2 * i) < Length(h, 2 * i - 2) || IsNull(Entry(h, 2 * i)) {
        assert !KeyFollows(h, i);
        return 0;
      }
      i := i + 1;
    }
    if vsize != HEADER + |m| { return 1; }
    return 2;
  }

  /** The first entry of the new reading carries the first flag when the old value's length has its top bit set. */
  lemma FirstFlagIsTopBit(m: Str, count: nat)
    requires 0 < count && 8 * count <= |m|
    ensures IsFirst(Entry(HStore(count, m), 0)) <==> ValLen(m, 0) >= 0x8000
  {
    hide ReadWord;
    var w := ReadWord(m, 0);
    assert ValLen(m, 0) == w / 0x1_0000 % 0x1_0000;
    assert w / 0x8000_0000 == w / 0x1_0000 / 0x8000;
  }

  /**
   A short old value is taken for a new one exactly when its first value is a null whose unused length
   field is 2^15 or more; every other short old value goes on to the format tests.
   */
  lemma ShortOldValue(m: Str, count: nat)
    requires OldValid(m, count) && 0 < count && HEADER + |m| < 0x8000
    ensures IsFirst(Entry(HStore(count, m), 0)) <==> ValNull(m, 0) && ValLen(m, 0) >= 0x8000
  {
    hide ReadWord, IsFirst, Entry, KeyLen, ValLen, ValNull;
    FirstFlagIsTopBit(m, count);
    LastPosGrows(m, 1, count);
    assert LastPos(m, 1) == KeyLen(m, 0) + ValueLen(m, 0);
  }

  /** What the caller gets: a count, the size behind the header that the value now claims, and its memory. */
  datatype Upgraded =
    | Result(count: nat, size: nat, mem: Str)
    | InvalidValue
    | ReadsOutside // the source looks at entries behind the value

  /** The result lies inside its memory and is the packed value `h`. */
  predicate IsValue(r: Upgraded, h: HStore) {
    r.Result? && r.size <= |r.mem| && HStore(r.count, r.mem[..r.size]) == h
  }

  /** The test by which `hstoreUpgrade` takes a short value for new without looking further. */
  predicate FastPath(m: Str) { 4 <= |m| && HEADER + |m| < 0x8000 && IsFirst(ReadWord(m, 0)) }

  /** The value as it stands, with the size that its last entry gives. */
  function TakenForNew(count: nat, m: Str): Upgraded {
    if HasEntries(HStore(count, m)) then Result(count, FixedSize(HStore(count, m)), m) else ReadsOutside
  }

  /** What `hstoreUpgrade` makes of a value with the header word `size`: taken for new as it stands, converted, or refused. */
  ghost predicate UpgradesTo(size: word, m: Str, r: Upgraded) {
    var count := size % 0x1000_0000;
    if size >= NEWVERSION then r == Result(count, |m|, m)
    else if size == 0 then r == TakenForNew(0, m)
    else if |m| < 4 then r == ReadsOutside
    else if FastPath(m) then r == TakenForNew(count, m)
    else if size == count && OldValid(m, count) then
      Fits(OldPairs(m, count, count)) && IsValue(r, Encode(OldPairs(m, count, count)))
    else if count == 0 || NewValid(m, count) then r == TakenForNew(count, m)
    else r == InvalidValue
  }

  /** `hstoreUpgrade`. */
  method Upgrade(size: word, mem: array<int>) returns (r: Upgraded)
    requires HEADER + mem.Length <= MAX_ALLOC
    modifies mem
    ensures UpgradesTo(size, old(mem[..]), r) && (r.Result? ==> r.mem == mem[..])
  {
    hide OldValid, NewValid, IsFirst, ReadWord, OldPairs, Encode, EndPos;
    var count := size % 0x1000_0000;
    if size >= NEWVERSION { return Result(count, mem.Length, mem[..]); }
    if size != 0 && mem.Length < 4 { return ReadsOutside; }
    if size == 0 || (HEADER + mem.Length < 0x8000 && IsFirst(ReadWord(mem[..], 0))) {
      return TakenForNew(count, mem[..]);
    }
    var validNew := ValidNewFormat(size, mem[..]);
    var validOld := ValidOldFormat(size, mem[..]);
    if validOld == 0 {
      if validNew != 0 {
        return TakenForNew(count, mem[..]);
      }
      return InvalidValue;
    }
    var h := UpgradeOld(mem, count);
    CountOf(old(OldPairs(mem[..], count, count)));
    r := Result(count, |h.data|, mem[..]);
  }

  lemma CountOf(pairs: seq<Pair>)
    requires Fits(pairs)
    ensures Encode(pairs) == HStore(|pairs|, Encode(pairs).data)
  {
  }

  // ----- when an old value comes out right -----

  /** The second word of an old value's first entry, when that entry is a null, is never that of a new entry. */
  lemma TakenForNewIsWrong(m: Str, count: nat, h: HStore)
    requires OldValid(m, count) && 0 < count && ValNull(m, 0)
    requires Fits(OldPairs(m, count, count)) && h == Encode(OldPairs(m, count, count))
    ensures !(|h.data| <= |m| && m[..|h.data|] == h.data)
  {
    hide Encode, ValLen, KeysGrow, OldPairs, Strings, Entries, ReadWord;
    var pairs := OldPairs(m, count, count);
    EncodedEntry(pairs, 1);
    FirstValueEntry(m, count, pairs);
    CountOf(pairs);
    assert LastPos(m, 0) == 0 && Pos(m, 0) == 0;
    assert ReadWord(m, 4) % 2 == 1 && ReadWord(m, 4) / 2 % 0x8000_0000 == 0;
    if |h.data| <= |m| && m[..|h.data|] == h.data { ReadFront(m, h.data, 4); }
  }

  lemma ReadFront(m: Str, front: Str, at: nat)
    requires |front| <= |m| && m[..|front|] == front && at + 4 <= |front|
    ensures ReadWord(m, at) == ReadWord(front, at)
  {
    assert forall j :: 0 <= j < |front| ==> m[j] == m[..|front|][j];
  }

  /** The value entry of a first pair that is null: its position is far below, its flag far above the old word. */
  lemma FirstValueEntry(m: Str, count: nat, pairs: seq<Pair>)
    requires OldValid(m, count) && 0 < count && ValNull(m, 0) && pairs == OldPairs(m, count, count) && Fits(pairs)
    ensures ISNULL <= Entries(pairs)[1] < ISNULL + 0x1_0000
  {
    hide ValLen, KeysGrow, Strings, OldPair;
    EntriesOf(pairs, 0);
    EntriesAt(pairs, 0);
    OldKeyLengths(m, count, count, 0);
    FirstIsNull(m, count, count);
    assert pairs[..0] == [];
    StringsNone();
  }

  lemma {:induction false} FirstIsNull(m: Str, count: nat, n: nat)
    requires OldValid(m, count) && 0 < n <= count && ValNull(m, 0)
    ensures OldPairs(m, count, n)[0].val == Null
  {
    hide OldValid, LastPos;
    if n > 1 { FirstIsNull(m, count, n - 1); }
  }

  /** A valid old value is small enough to count, and the fast path is all that can keep it from its conversion. */
  lemma OldOutcome(m: Str, count: nat, r: Upgraded)
    requires OldValid(m, count) && 0 < count && HEADER + |m| <= MAX_ALLOC && UpgradesTo(count, m, r)
    ensures Fits(OldPairs(m, count, count))
    ensures if FastPath(m) then r == TakenForNew(count, m) else IsValue(r, Encode(OldPairs(m, count, count)))
  {
    hide OldValid, OldPairs, Encode, IsFirst, ReadWord, TakenForNew, NewValid, LastPos, Fits, IsValue, Strings;
    OldCount(m, count);
  }

  lemma OldCount(m: Str, count: nat)
    requires OldValid(m, count) && HEADER + |m| <= MAX_ALLOC
    ensures 8 * count <= |m| && count % 0x1000_0000 == count && Fits(OldPairs(m, count, count))
  {
    hide OldPairs, Strings, KeyLen, LastPos, Contiguous, KeysGrow;
    OldSize(m, count);
    OldStrings(m, count, count);
  }

  lemma OldFastPath(m: Str, count: nat)
    requires OldValid(m, count) && 0 < count
    ensures FastPath(m) <==> HEADER + |m| < 0x8000 && ValNull(m, 0) && ValLen(m, 0) >= 0x8000
  {
    assert HasEntries(HStore(count, m)) && Entry(HStore(count, m), 0) == ReadWord(m, 0);
    hide OldValid, ValNull, ValLen, IsFirst, Entry, ReadWord, LastPos;
    if HEADER + |m| < 0x8000 { ShortOldValue(m, count); }
  }

  /**
   A valid old value comes out as the packed value of its list, inside its memory, if and only if it is not
   both short and led by a null with an unused length of 2^15 or more.
   */
  lemma UpgradeIsExact(m: Str, count: nat, r: Upgraded)
    requires OldValid(m, count) && 0 < count && HEADER + |m| <= MAX_ALLOC && UpgradesTo(count, m, r)
    ensures Fits(OldPairs(m, count, count))
    ensures IsValue(r, Encode(OldPairs(m, count, count))) <==>
      !(HEADER + |m| < 0x8000 && ValNull(m, 0) && ValLen(m, 0) >= 0x8000)
  {
    OldOutcome(m, count, r);
    OldFastPath(m, count);
    hide OldValid, OldPairs, Encode, ValNull, ValLen, FastPath, FixedSize, UpgradesTo;
    if FastPath(m) { TakenForNewIsWrong(m, count, Encode(OldPairs(m, count, count))); }
  }

  /** One pair with an empty key, a null value and the unused length 2^15. */
  const EMPTY_NULL: Str := [0, 0, 0, 128, 1, 0, 0, 0]

  lemma EmptyNullWords(m: Str)
    requires m == EMPTY_NULL
    ensures |m| == 8 && ReadWord(m, 0) == 0x8000_0000 && ReadWord(m, 4) == 1
  {
  }

  lemma EmptyNullIsOld(m: Str)
    requires |m| == 8 && ReadWord(m, 0) == 0x8000_0000 && ReadWord(m, 4) == 1
    ensures OldValid(m, 1) && OldPairs(m, 1, 1) == [Pair([], Null)]
  {
    hide ReadWord;
    assert KeyLen(m, 0) == 0 && ValNull(m, 0) && Pos(m, 0) == 0;
    assert LastPos(m, 0) == 0 && LastPos(m, 1) == 0;
    assert OldPairs(m, 1, 0) == [];
    var x := OldPair(m, 1, 0);
    assert x.key == [];
  }

  lemma EmptyNullIsFast(m: Str)
    requires |m| == 8 && ReadWord(m, 0) == 0x8000_0000 && ReadWord(m, 4) == 1
    ensures FastPath(m) && TakenForNew(1, m) == Result(1, 9, m)
  {
    hide ReadWord;
  }

  lemma FastResult(m: Str, r: Upgraded)
    requires FastPath(m) && UpgradesTo(1, m, r)
    ensures r == TakenForNew(1, m)
  {
    hide ReadWord, OldValid, OldPairs, IsFirst, TakenForNew, NewValid;
  }

  /** It is a valid old value that is taken for a new one, with a claimed size one byte past its memory. */
  lemma OldValueTakenForNew(r: Upgraded)
    requires UpgradesTo(1, EMPTY_NULL, r)
    ensures OldValid(EMPTY_NULL, 1) && OldPairs(EMPTY_NULL, 1, 1) == [Pair([], Null)]
    ensures r == Result(1, |EMPTY_NULL| + 1, EMPTY_NULL)
  {
    var m := EMPTY_NULL;
    EmptyNullWords(m);
    hide ReadWord, OldValid, OldPairs, FastPath, TakenForNew, NewValid, UpgradesTo;
    EmptyNullIsOld(m);
    EmptyNullIsFast(m);
    FastResult(m, r);
  }

  /** What the conversion writes passes the structural tests of the new format, with no slop. */
  lemma EncodeIsNewValid(pairs: seq<Pair>)
    requires Fits(pairs) && pairs != [] && forall i, j :: 0 <= i < |pairs| && j == i + 1 && j < |pairs| ==> |pairs[i].key| <= |pairs[j].key|
    ensures NewValid(Encode(pairs).data, |pairs|) && FixedSize(Encode(pairs)) == |Encode(pairs).data|
  {
    hide Encode, Entry, EndPos, IsNull, IsFirst, Length, Offset, FixedSize, Strings, Entries;
    var h := Encode(pairs);
    FixSizeIsIdentity(pairs);
    CountOf(pairs);
    forall k | 0 <= k < 2 * |pairs| ensures EntryShape(pairs, k) { EntryShapeHolds(pairs, k); }
    assert EntryShape(pairs, 0);
    forall j | 0 < j < 2 * |pairs| ensures EntryFollows(h, j) { assert EntryShape(pairs, j); }
    forall j | 0 < j < |pairs| ensures KeyFollows(h, j) {
      PlaceOfKey(pairs, j - 1);
      PlaceOfKey(pairs, j);
      assert EntryShape(pairs, 2 * j);
      assert |pairs[j - 1].key| <= |pairs[j].key|;
    }
  }

  /** Every packed value passes the source's own test of the format, without slop. */
  lemma PackedIsNewValid(h: HStore, pairs: seq<Pair>)
    requires Is(h, pairs) && pairs != []
    ensures NewValid(h.data, h.count) && FixedSize(h) == |h.data|
  {
    hide Encode, NewValid, FixedSize, Entries, Strings;
    CountOf(pairs);
    forall i, j | 0 <= i < |pairs| && j == i + 1 && j < |pairs| ensures |pairs[i].key| <= |pairs[j].key| {
      BeforeExactly(pairs[i].key, pairs[j].key);
    }
    EncodeIsNewValid(pairs);
  }

  lemma {:induction false} OldKeyLengths(m: Str, count: nat, n: nat, i: nat)
    requires OldValid(m, count) && i < n <= count
    ensures |OldPairs(m, count, n)[i].key| == KeyLen(m, i)
  {
    hide KeyLen, OldPair, OldValid, LastPos;
    if i < n - 1 { OldKeyLengths(m, count, n - 1, i); } else { OldPairBytes(m, count, i); }
  }

  lemma ConversionIsNewValid(m: Str, count: nat)
    requires OldValid(m, count) && 0 < count && HEADER + |m| <= MAX_ALLOC
    ensures var pairs := OldPairs(m, count, count);
      && Fits(pairs) && NewValid(Encode(pairs).data, count)
      && FixedSize(Encode(pairs)) == |Encode(pairs).data|
  {
    hide KeyLen, Strings, OldPairs, Encode, NewValid, FixedSize, LastPos, Contiguous;
    var pairs := OldPairs(m, count, count);
    OldSize(m, count);
    OldStrings(m, count, count);
    forall i, j | 0 <= i < count && j == i + 1 && j < count ensures |pairs[i].key| <= |pairs[j].key| {
      OldKeyLengths(m, count, count, i);
      OldKeyLengths(m, count, count, j);
    }
    EncodeIsNewValid(pairs);
  }

  /** An entry of a packed value: marked if it is the first, ending no earlier than the one before, a key not null. */
  predicate EntryShape(pairs: seq<Pair>, k: nat)
    requires Fits(pairs)
  {
    var h := Encode(pairs);
    && HasEntries(h) && k < 2 * h.count
    && (IsFirst(Entry(h, k)) <==> k == 0)
    && (k > 0 ==> EndPos(Entry(h, k - 1)) <= EndPos(Entry(h, k)))
    && (k % 2 == 0 ==> !IsNull(Entry(h, k)))
  }

  lemma EntryShapeHolds(pairs: seq<Pair>, k: nat)
    requires Fits(pairs) && k < 2 * |pairs|
    ensures EntryShape(pairs, k)
  {
    hide Entry, Entries, Strings;
    var i := k / 2;
    EncodedEntry(pairs, k);
    EntriesOf(pairs, i);
    KeyNotNull(pairs, i);
    if k > 0 {
      EncodedEntry(pairs, k - 1);
      PreviousEnd(pairs, i);
    }
  }

  lemma KeyNotNull(pairs: seq<Pair>, i: nat)
    requires Fits(pairs) && i < |pairs|
    ensures !IsNull(Entries(pairs)[2 * i])
  {
    hide Strings;
    EntriesAt(pairs, i);
    Flags(|Strings(pairs[..i])| + |pairs[i].key|);
  }
}

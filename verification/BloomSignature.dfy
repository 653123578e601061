/**
 Signatures of indexed rows and of searches (contrib/bloom/blutils.c, contrib/bloom/blscan.c).
 A signature is an array of 16-bit words; each value of a column sets the bits that the generator,
 seeded from the column number and the value's hash, picks.
 */
module BloomSignature {
  import opened BloomRandom

  const WORD_BITS: nat := 16

  /** A `BloomSignatureWord`, bit by bit. */
  type Word = w: seq<bool> | |w| == WORD_BITS witness ZERO_WORD
  const ZERO_WORD: seq<bool> := seq(WORD_BITS, _ => false)

  function And(a: Word, b: Word): Word { seq(WORD_BITS, k requires 0 <= k < WORD_BITS => a[k] && b[k]) }

  datatype Option<+T> = None | Some(value: T)

  /** `BloomOptions`, after validation: the length in words and the bits drawn for each column. */
  datatype Options = Options(length: nat, bitSize: seq<nat>)

  const INDEX_MAX_KEYS: nat := 32

  predicate ValidOptions(o: Options) { o.length > 0 && |o.bitSize| <= INDEX_MAX_KEYS }

  // ----- bits -----

  predicate HasBit(words: seq<Word>, i: nat)
    requires i < WORD_BITS * |words|
  {
    words[i / WORD_BITS][i % WORD_BITS]
  }

  /** `SETBIT`. */
  function SetBit(words: seq<Word>, i: nat): (r: seq<Word>)
    requires i < WORD_BITS * |words|
    ensures |r| == |words|
    ensures forall j :: 0 <= j < WORD_BITS * |words| ==> (HasBit(r, j) <==> HasBit(words, j) || j == i)
  {
    var w := i / WORD_BITS;
    words[w := words[w][i % WORD_BITS := true]]
  }

  /** The bits of `query` are all in `sign`. */
  ghost predicate Contains(sign: seq<Word>, query: seq<Word>)
    requires |sign| == |query|
  {
    forall i :: 0 <= i < WORD_BITS * |query| && HasBit(query, i) ==> HasBit(sign, i)
  }

  /** Masking leaves the query word exactly when each of its bits is there. */
  lemma MaskIsContainment(sign: seq<Word>, query: seq<Word>)
    requires |sign| == |query|
    ensures Contains(sign, query) <==> forall w :: 0 <= w < |query| ==> And(sign[w], query[w]) == query[w]
  {
    if Contains(sign, query) {
      forall w, k | 0 <= w < |query| && 0 <= k < WORD_BITS
        ensures And(sign[w], query[w])[k] == query[w][k]
      {
        var i := WORD_BITS * w + k;
        assert i / WORD_BITS == w && i % WORD_BITS == k;
        assert HasBit(query, i) ==> HasBit(sign, i);
      }
    }
    if forall w :: 0 <= w < |query| ==> And(sign[w], query[w]) == query[w] {
      forall i | 0 <= i < WORD_BITS * |query| && HasBit(query, i)
        ensures HasBit(sign, i)
      {
        assert And(sign[i / WORD_BITS], query[i / WORD_BITS])[i % WORD_BITS];
      }
    }
  }

  /** The word loop of `blgetbitmap`. */
  method Matches(sign: seq<Word>, query: seq<Word>) returns (res: bool)
    requires |sign| == |query|
    ensures res <==> Contains(sign, query)
  {
    MaskIsContainment(sign, query);
    res := true;
    var i := 0;
    while i < |query|
      invariant 0 <= i <= |query|
      invariant res && forall w :: 0 <= w < i ==> And(sign[w], query[w]) == query[w]
    {
      if And(sign[i], query[i]) != query[i] {
        return false;
      }
      i := i + 1;
    }
  }

  // ----- one value -----

  /** The seed for a column's value, as a word. */
  function SeedWord(attno: uint32, hash: bv32): bv32 {
    hash ^ AsWord(Next(Seeded(attno)) - 1)
  }

  function ValueSeed(attno: uint32, hash: bv32): uint32 { SeedWord(attno, hash) as int }

  /** Different hashes of a column's values give different seeds, and every word is the seed of some hash. */
  lemma SeedsDiffer(attno: uint32, hash: bv32, other: bv32)
    ensures SeedWord(attno, hash) == SeedWord(attno, other) <==> hash == other
    ensures SeedWord(attno, SeedWord(attno, hash)) == hash
  {
    var w := AsWord(Next(Seeded(attno)) - 1);
    Unmask(hash, other, w);
  }

  lemma Unmask(x: bv32, y: bv32, w: bv32)
    ensures x ^ w == y ^ w <==> x == y
    ensures x ^ w ^ w == x
  {
  }

  /** A drawn number as an unsigned word; -1 is all ones. */
  function AsWord(r: int): bv32
    requires -1 <= r < 0x8000_0000
  {
    if r < 0 then 0xFFFFFFFF else r as bv32
  }

  /** The `j`-th bit drawn for a seed, in a signature of `width` bits. */
  function Draw(seed: uint32, j: nat, width: nat): int
    requires width > 0
  {
    TruncRem(Steps(Seeded(seed), j + 1) - 1, width)
  }

  ghost predicate DrawnBefore(seed: uint32, n: nat, width: nat, i: int)
    requires width > 0
  {
    exists j :: 0 <= j < n && Draw(seed, j, width) == i
  }

  /** No index leaves the signature exactly when the seed is not one of the two dead ones; from those every index is -1. */
  lemma DrawInRange(seed: uint32, j: nat, width: nat)
    requires width > 1
    ensures if Seeded(seed) == 0 then Draw(seed, j, width) == -1 else 0 <= Draw(seed, j, width) < width
  {
    DrawRange(seed, j + 1);
    RemainderRange(Steps(Seeded(seed), j + 1) - 1, width);
  }

  lemma RemainderRange(a: int, b: int)
    requires b > 1 && a >= -1
    ensures if a == -1 then TruncRem(a, b) == -1 else 0 <= TruncRem(a, b) < b
  {
    if a >= 0 {
      assert a % b == a - b * (a / b);
    } else {
      assert 1 / b == 0;
    }
  }

  /** The indexes that `signValue` computes are all proper. */
  predicate WellSeeded(attno: uint32, hash: bv32, bits: nat) {
    bits == 0 || Seeded(ValueSeed(attno, hash)) != 0
  }

  /** The bit is among those that the value of a column sets. */
  ghost predicate ValueBit(o: Options, attno: uint32, hash: bv32, i: int)
    requires ValidOptions(o) && attno < |o.bitSize|
  {
    DrawnBefore(ValueSeed(attno, hash), o.bitSize[attno], o.length * WORD_BITS, i)
  }

  /** The first half of `signValue`: the column number, then the hash, seed the generator. */
  method Reseed(g: Generator, hash: bv32, attno: uint32) returns (seed: uint32)
    modifies g
    ensures seed == ValueSeed(attno, hash) && g.next == Seeded(seed)
  {
    g.MySrand(attno);
    var r := g.MyRand();
    seed := (hash ^ AsWord(r)) as int;
    g.MySrand(seed);
  }

  /** `signValue`: adds the value's bits to the signature, whatever state the generator was left in; it
      reports false where the bit drawn is -1, for which the source shifts a one by -1 into the first word. */
  method SignValue(g: Generator, o: Options, sign: seq<Word>, hash: bv32, attno: uint32) returns (ok: bool, out: seq<Word>)
    requires ValidOptions(o) && |sign| == o.length && attno < |o.bitSize|
    modifies g
    ensures |out| == |sign|
    ensures ok <==> WellSeeded(attno, hash, o.bitSize[attno])
    ensures ok ==> forall i :: 0 <= i < WORD_BITS * |sign| ==>
      (HasBit(out, i) <==> HasBit(sign, i) || ValueBit(o, attno, hash, i))
  {
    var seed := Reseed(g, hash, attno);
    out := sign;
    var width := o.length * WORD_BITS;
    var j := 0;
    while j < o.bitSize[attno]
      invariant 0 <= j <= o.bitSize[attno] && |out| == |sign|
      invariant g.next == Steps(Seeded(seed), j)
      invariant j > 0 ==> Seeded(seed) != 0
      invariant forall i :: 0 <= i < WORD_BITS * |sign| ==>
        (HasBit(out, i) <==> HasBit(sign, i) || DrawnBefore(seed, j, width, i))
    {
      var x := g.MyRand();
      var nBit := TruncRem(x, width);
      DrawInRange(seed, j, width);
      if nBit < 0 {
        return false, out;
      }
      DrawnNext(seed, j, width);
      out := SetBit(out, nBit);
      j := j + 1;
    }
    ok := true;
  }

  lemma DrawnNext(seed: uint32, n: nat, width: nat)
    requires width > 0
    ensures forall i :: DrawnBefore(seed, n + 1, width, i) <==> DrawnBefore(seed, n, width, i) || i == Draw(seed, n, width)
  {
    forall i
      ensures DrawnBefore(seed, n + 1, width, i) <==> DrawnBefore(seed, n, width, i) || i == Draw(seed, n, width)
    {
      if DrawnBefore(seed, n, width, i) {
        var j :| 0 <= j < n && Draw(seed, j, width) == i;
        assert 0 <= j < n + 1;
      }
      if i == Draw(seed, n, width) {
        assert 0 <= n < n + 1;
      }
    }
  }

  /** For every column there are hashes that the source cannot sign. */
  lemma DeadHashExists(attno: uint32, bits: nat)
    requires bits > 0
    ensures !WellSeeded(attno, !AsWord(Next(Seeded(attno)) - 1), bits)
  {
    var w := AsWord(Next(Seeded(attno)) - 1);
    assert !w ^ w == 0xFFFFFFFF;
    DeadSeeds(0xFFFFFFFF);
  }

  // ----- rows and searches -----

  const EMPTY: Word := ZERO_WORD

  /** `palloc0` of a signature. */
  function EmptySignature(o: Options): (r: seq<Word>)
    ensures |r| == o.length
    ensures forall i :: 0 <= i < WORD_BITS * |r| ==> !HasBit(r, i)
  {
    seq(o.length, _ => EMPTY)
  }

  /** A column's value, or the value searched for in it; the hash function is arbitrary. */
  datatype Item<V> = Item(attno: nat, value: V)

  predicate ItemsFit<V>(o: Options, items: seq<Item<V>>) {
    forall k :: 0 <= k < |items| ==> items[k].attno < |o.bitSize|
  }

  predicate AllWellSeeded<V>(o: Options, hash: (nat, V) -> bv32, items: seq<Item<V>>)
    requires ValidOptions(o) && ItemsFit(o, items)
  {
    forall k :: 0 <= k < |items| ==>
      WellSeeded(items[k].attno, hash(items[k].attno, items[k].value), o.bitSize[items[k].attno])
  }

  ghost predicate ItemBit<V>(o: Options, hash: (nat, V) -> bv32, item: Item<V>, i: int)
    requires ValidOptions(o) && item.attno < |o.bitSize|
  {
    ValueBit(o, item.attno, hash(item.attno, item.value), i)
  }

  /** The bit is set by one of the items. */
  ghost predicate ItemsBit<V>(o: Options, hash: (nat, V) -> bv32, items: seq<Item<V>>, i: int)
    requires ValidOptions(o) && ItemsFit(o, items)
  {
    exists k :: 0 <= k < |items| && ItemBit(o, hash, items[k], i)
  }

  ghost predicate IsSignature<V>(o: Options, hash: (nat, V) -> bv32, items: seq<Item<V>>, sign: seq<Word>)
    requires ValidOptions(o) && ItemsFit(o, items)
  {
    && |sign| == o.length
    && forall i :: 0 <= i < WORD_BITS * |sign| ==> (HasBit(sign, i) <==> ItemsBit(o, hash, items, i))
  }

  lemma SignatureGrows<V>(o: Options, hash: (nat, V) -> bv32, items: seq<Item<V>>, item: Item<V>, sign: seq<Word>, out: seq<Word>)
    requires ValidOptions(o) && ItemsFit(o, items) && item.attno < |o.bitSize| && IsSignature(o, hash, items, sign)
    requires |out| == |sign|
    requires forall i :: 0 <= i < WORD_BITS * |sign| ==> (HasBit(out, i) <==> HasBit(sign, i) || ItemBit(o, hash, item, i))
    ensures ItemsFit(o, items + [item]) && IsSignature(o, hash, items + [item], out)
  {
    var more := items + [item];
    forall i | 0 <= i < WORD_BITS * |sign|
      ensures HasBit(out, i) <==> ItemsBit(o, hash, more, i)
    {
      if ItemsBit(o, hash, items, i) {
        var k :| 0 <= k < |items| && ItemBit(o, hash, items[k], i);
        assert more[k] == items[k];
      }
      if ItemBit(o, hash, item, i) {
        assert more[|items|] == item;
      }
      if ItemsBit(o, hash, more, i) {
        var k :| 0 <= k < |more| && ItemBit(o, hash, more[k], i);
        assert k < |items| ==> items[k] == more[k];
      }
    }
  }

  /** The columns of a row that are not null, in order. */
  function Columns<V>(row: seq<Option<V>>): (items: seq<Item<V>>)
    ensures forall k :: 0 <= k < |items| ==> items[k].attno < |row| && row[items[k].attno] == Some(items[k].value)
    ensures forall c :: 0 <= c < |row| && row[c].Some? ==> Item(c, row[c].value) in items
  {
    if row == [] then []
    else
      var n := |row| - 1;
      var items := Columns(row[..n]);
      if row[n].Some? then items + [Item(n, row[n].value)] else items
  }

  /** `BloomFormTuple`: the signature of a row. */
  method FormTuple<V>(g: Generator, o: Options, hash: (nat, V) -> bv32, row: seq<Option<V>>) returns (ok: bool, sign: seq<Word>)
    requires ValidOptions(o) && |row| <= |o.bitSize|
    modifies g
    ensures ok <==> AllWellSeeded(o, hash, Columns(row))
    ensures ok ==> IsSignature(o, hash, Columns(row), sign)
  {
    sign := EmptySignature(o);
    var i := 0;
    while i < |row|
      invariant 0 <= i <= |row|
      invariant AllWellSeeded(o, hash, Columns(row[..i])) && IsSignature(o, hash, Columns(row[..i]), sign)
    {
      assert row[..i + 1][..i] == row[..i];
      if row[i].Some? {
        var item := Item(i, row[i].value);
        var fine, out := SignValue(g, o, sign, hash(i, row[i].value), i);
        assert Columns(row[..i + 1]) == Columns(row[..i]) + [item];
        if !fine {
          PrefixColumns(row, i + 1);
          return false, sign;
        }
        SignatureGrows(o, hash, Columns(row[..i]), item, sign, out);
        sign := out;
      }
      i := i + 1;
    }
    assert row[..i] == row;
    ok := true;
  }

  lemma {:induction false} PrefixColumns<V>(row: seq<Option<V>>, n: nat)
    requires n <= |row|
    ensures forall item <- Columns(row[..n]) :: item in Columns(row)
    decreases |row| - n
  {
    if n < |row| {
      assert row[..n + 1][..n] == row[..n];
      PrefixColumns(row, n + 1);
    } else {
      assert row[..n] == row;
    }
  }

  /** A scan key; a null argument matches nothing. */
  datatype ScanKey<V> = ScanKey(attno: nat, argument: Option<V>)

  function Searched<V>(keys: seq<ScanKey<V>>): (items: seq<Item<V>>)
    requires forall k <- keys :: k.argument.Some?
    ensures |items| == |keys|
    ensures forall k :: 0 <= k < |keys| ==> items[k] == Item(keys[k].attno, keys[k].argument.value)
  {
    seq(|keys|, k requires 0 <= k < |keys| => assert keys[k] in keys; Item(keys[k].attno, keys[k].argument.value))
  }

  /**
   No false negatives: whatever the hash functions, a search for any of a row's values, in any order and
   for any of its columns, asks only for bits that the row's signature has.
   */
  lemma NoFalseNegatives<V>(o: Options, hash: (nat, V) -> bv32, row: seq<Option<V>>, sign: seq<Word>,
                            keys: seq<ScanKey<V>>, query: seq<Word>)
    requires ValidOptions(o) && |row| <= |o.bitSize| && (forall k <- keys :: k.argument.Some? && k.attno < |row|)
    requires IsSignature(o, hash, Columns(row), sign) && IsSignature(o, hash, Searched(keys), query)
    requires forall k <- keys :: row[k.attno].Some? && hash(k.attno, k.argument.value) == hash(k.attno, row[k.attno].value)
    ensures Contains(sign, query)
  {
    forall i | 0 <= i < WORD_BITS * |query| && HasBit(query, i)
      ensures HasBit(sign, i)
    {
      SearchedBit(o, hash, row, keys, i);
    }
  }

  lemma SearchedBit<V>(o: Options, hash: (nat, V) -> bv32, row: seq<Option<V>>, keys: seq<ScanKey<V>>, i: int)
    requires ValidOptions(o) && |row| <= |o.bitSize| && (forall k <- keys :: k.argument.Some? && k.attno < |row|)
    requires forall k <- keys :: row[k.attno].Some? && hash(k.attno, k.argument.value) == hash(k.attno, row[k.attno].value)
    requires ItemsFit(o, Searched(keys)) && ItemsBit(o, hash, Searched(keys), i)
    ensures ItemsBit(o, hash, Columns(row), i)
  {
    var k :| 0 <= k < |keys| && ItemBit(o, hash, Searched(keys)[k], i);
    assert keys[k] in keys;
    RowHasBit(o, hash, row, Searched(keys)[k], i);
  }

  /** A bit of an item that hashes like the row's value in its column is a bit of the row. */
  lemma RowHasBit<V>(o: Options, hash: (nat, V) -> bv32, row: seq<Option<V>>, item: Item<V>, i: int)
    requires ValidOptions(o) && |row| <= |o.bitSize| && item.attno < |row| && row[item.attno].Some?
    requires hash(item.attno, item.value) == hash(item.attno, row[item.attno].value)
    requires ItemBit(o, hash, item, i)
    ensures ItemsBit(o, hash, Columns(row), i)
  {
    var own := Item(item.attno, row[item.attno].value);
    assert ItemBit(o, hash, own, i);
    var j :| 0 <= j < |Columns(row)| && Columns(row)[j] == own;
  }

  /** The search signature of `blgetbitmap`, or why there is none. */
  datatype Search = Search(sign: seq<Word>) | NullKey | IllSeeded

  method SearchSignature<V>(g: Generator, o: Options, hash: (nat, V) -> bv32, keys: seq<ScanKey<V>>) returns (r: Search)
    requires ValidOptions(o) && forall k <- keys :: k.attno < |o.bitSize|
    modifies g
    ensures r.Search? ==>
      && (forall k <- keys :: k.argument.Some?)
      && ItemsFit(o, Searched(keys)) && IsSignature(o, hash, Searched(keys), r.sign)
    ensures r.NullKey? ==> exists k <- keys :: k.argument.None?
    ensures r.IllSeeded? ==> exists k <- keys ::
      k.argument.Some? && !WellSeeded(k.attno, hash(k.attno, k.argument.value), o.bitSize[k.attno])
  {
    var sign := EmptySignature(o);
    var i := 0;
    while i < |keys|
      invariant 0 <= i <= |keys|
      invariant forall k <- keys[..i] :: k.argument.Some?
      invariant IsSignature(o, hash, Searched(keys[..i]), sign)
    {
      var key := keys[i];
      assert key in keys;
      if key.argument.None? {
        return NullKey;
      }
      var fine, out := SignValue(g, o, sign, hash(key.attno, key.argument.value), key.attno);
      if !fine {
        return IllSeeded;
      }
      var item := Item(key.attno, key.argument.value);
      SignatureGrows(o, hash, Searched(keys[..i]), item, sign, out);
      assert Searched(keys[..i + 1]) == Searched(keys[..i]) + [item];
      sign := out;
      i := i + 1;
    }
    assert keys[..i] == keys;
    return Search(sign);
  }
}

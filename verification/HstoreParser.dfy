/**
 The parser of hstore text as it runs (contrib/hstore/hstore_io.c, `HSParser`): one pointer into the text,
 a word buffer that doubles, and an array of pairs that doubles.  Each method is shown to compute the
 grammar of `HstoreText`, to stay inside the text and the buffer, and to run out of memory exactly when
 the grammar says so.
 */
module HstoreParser {
  import opened HstoreFormat
  import opened HstoreText

  /** A size after `k` doublings. */
  function Grown(start: nat, k: nat): nat { if k == 0 then start else 2 * Grown(start, k - 1) }

  lemma {:induction false} GrownMonotone(start: nat, j: nat, k: nat)
    requires j <= k
    ensures Grown(start, j) <= Grown(start, k)
  {
    if j < k { GrownMonotone(start, j, k - 1); }
  }

  lemma GrownLimits()
    ensures Grown(32, 24) == WORD_LIMIT && Grown(16, 20) == MAX_PAIRS
  {
    assert Grown(32, 5) == 1024 && Grown(32, 10) == 0x8000 && Grown(32, 15) == 0x10_0000 && Grown(32, 20) == 0x200_0000;
    assert Grown(16, 5) == 512 && Grown(16, 10) == 0x4000 && Grown(16, 15) == 0x8_0000;
  }

  /** The word buffer can double until it has `WORD_LIMIT` bytes. */
  lemma WordSizes(k: nat)
    requires Grown(32, k) <= WORD_LIMIT
    ensures 2 * Grown(32, k) > MAX_ALLOC <==> Grown(32, k) == WORD_LIMIT
    ensures Grown(32, k) < WORD_LIMIT ==> Grown(32, k + 1) <= WORD_LIMIT
  {
    GrownLimits();
    if k < 24 { GrownMonotone(32, k + 1, 24); } else { GrownMonotone(32, 24, k); }
  }

  /** The array of 40-byte pairs can double until it has `MAX_PAIRS` elements. */
  lemma PairSizes(k: nat)
    requires Grown(16, k) <= MAX_PAIRS
    ensures 40 * (2 * Grown(16, k)) > MAX_ALLOC <==> Grown(16, k) == MAX_PAIRS
    ensures Grown(16, k) < MAX_PAIRS ==> Grown(16, k + 1) <= MAX_PAIRS
  {
    GrownLimits();
    if k < 20 { GrownMonotone(16, k + 1, 20); } else { GrownMonotone(16, 20, k); }
  }

  /** What `get_val` and `parse_hstore` tell their caller. */
  datatype Code = Found | Absent | Error(error: HstoreText.Error)

  class HSParser {
    /** The text up to its terminating 0. */
    const text: Str
    var ptr: nat
    var word: array<int>
    var cur: nat
    var pairs: seq<Pair>
    var plen: nat
    ghost var wordDoublings: nat
    ghost var pairDoublings: nat

    constructor (t: Str)
      requires NulFree(t)
      ensures text == t
    {
      text := t;
      ptr, cur, pairs, plen := 0, 0, [], 16;
      word := new int[0];
    }

    ghost predicate WordValid()
      reads this
    {
      cur < word.Length && 32 <= word.Length == Grown(32, wordDoublings) <= WORD_LIMIT
    }

    ghost predicate PairsValid()
      reads this
    {
      |pairs| <= plen && 16 <= plen == Grown(16, pairDoublings) <= MAX_PAIRS
    }

    /** `RESIZEPRSBUF`: afterwards there is room for a byte and one more behind it. */
    method Resize() returns (ok: bool)
      requires WordValid()
      modifies `word, `wordDoublings
      ensures WordValid() && (word == old(word) || fresh(word))
      ensures word[..cur] == old(word[..cur])
      ensures ok <==> cur + 1 < WORD_LIMIT
      ensures ok ==> cur + 1 < word.Length
    {
      WordSizes(wordDoublings);
      if cur + 1 >= word.Length {
        if word.Length * 2 > MAX_ALLOC { return false; }
        var bigger := new int[word.Length * 2];
        var i := 0;
        while i < cur
          invariant 0 <= i <= cur && bigger[..i] == word[..i]
          modifies bigger
        {
          bigger[i] := word[i];
          i := i + 1;
        }
        word := bigger;
        wordDoublings := wordDoublings + 1;
      }
      return true;
    }

    /** A character behind the word. */
    method Put(c: int) returns (ok: bool)
      requires WordValid()
      modifies `word, `cur, `wordDoublings, word
      ensures WordValid() && (word == old(word) || fresh(word))
      ensures ok <==> old(cur) + 1 < WORD_LIMIT
      ensures ok ==> word[..cur] == old(word[..cur]) + [c]
    {
      ok := Resize();
      if ok {
        ghost var w := word[..cur];
        word[cur] := c;
        cur := cur + 1;
        assert word[..cur] == w + [c];
      }
    }

    /** The first character of a word, for which there is always room. */
    method PutFirst(c: int)
      requires WordValid() && cur == 0
      modifies `cur, word
      ensures WordValid() && cur == 1 && word[..cur] == [c]
    {
      word[0] := c;
      cur := 1;
    }

    /** `get_val`. */
    method GetValue(ignoreEq: bool) returns (code: Code, escaped: bool)
      requires NulFree(text) && ptr <= |text|
      modifies `ptr, `word, `cur, `wordDoublings
      ensures cur <= word.Length && fresh(word)
      ensures match GetVal(text[old(ptr)..], WaitVal, ignoreEq, [], false)
        case NoValue => code == Absent
        case Bad(e) => code == Error(e)
        case Word(w, esc, rest) => code == Found && word[..cur] == w && escaped == esc
                                   && ptr + 1 <= |text| && text[ptr + 1..] == rest
    {
      hide GetVal, Grown, Act, Head, NulFree;
      ghost var goal := GetVal(text[ptr..], WaitVal, ignoreEq, [], false);
      var st := WaitVal;
      FirstSize();
      word, cur, escaped, wordDoublings := new int[32], 0, false, 0;
      assert word[..cur] == [];
      while true
        invariant ptr <= |text| && fresh(word) && WordValid()
        invariant st == WaitVal ==> cur == 0
        invariant st != WaitVal ==> ptr > 0
        invariant GetVal(text[ptr..], st, ignoreEq, word[..cur], escaped) == goal
        decreases |text| - ptr
      {
        var c := Head(text[ptr..]);
        ghost var w := word[..cur];
        Step(text, ptr, st, ignoreEq, w, escaped);
        match Act(c, st, ignoreEq) {
          case Move(next) =>
            st := next;
          case OpenQuote =>
            escaped, st := true, InEscVal;
          case StoreFirst =>
            PutFirst(c);
            assert w + [c] == [c];
            st := InVal;
          case Store(next) =>
            var ok := Put(c);
            if !ok { return Error(OutOfMemory), escaped; }
            st := next;
          case Finish(after) =>
            if !after { ptr := ptr - 1; }
            return Found, escaped;
          case Stop =>
            return Absent, escaped;
          case Reject(e) =>
            return Error(e), escaped;
        }
        ptr := ptr + 1;
      }
    }

    /** The array of pairs doubles when it is full. */
    method ResizePairs() returns (ok: bool)
      requires PairsValid()
      modifies `plen, `pairDoublings
      ensures PairsValid()
      ensures ok <==> |pairs| < MAX_PAIRS
      ensures ok ==> |pairs| < plen
    {
      PairSizes(pairDoublings);
      if |pairs| >= plen {
        if 40 * (plen * 2) > MAX_ALLOC { return false; }
        plen, pairDoublings := plen * 2, pairDoublings + 1;
      }
      return true;
    }

    /** `parse_hstore`. */
    method ParseHstore() returns (code: Code)
      requires NulFree(text)
      modifies this
      ensures match Parse(text, WKey, [], [])
        case Pairs(p) => code == Found && pairs == p
        case Failed(e) => code == Error(e)
    {
      hide GetVal, Grown, Parse, ValueOf;
      FirstSize();
      var st, key: Str := WKey, [];
      pairs, plen, pairDoublings, ptr := [], 16, 0, 0;
      assert text[0..] == text;
      while true
        invariant ptr <= |text| && PairsValid() && (st == WVal ==> |pairs| < plen)
        invariant Parse(text[ptr..], st, key, pairs) == Parse(text, WKey, [], [])
        invariant st == WEq || st == WGt ==> |pairs| < plen
        decreases |text| - ptr
      {
        var c := Head(text[ptr..]);
        ParseStep(text, ptr, st, key, pairs);
        if st == WKey {
          var r, escaped := GetValue(false);
          if r == Absent { return Found; }
          if r.Error? { return r; }
          var ok := ResizePairs();
          if !ok { return Error(OutOfMemory); }
          if cur > MAX_STRING { return Error(TooLong); }
          key, st := word[..cur], WEq;
        } else if st == WEq {
          if c == EQUALS {
            st := WGt;
          } else if c == 0 {
            return Error(UnexpectedEnd);
          } else if !IsSpace(c) {
            return Error(SyntaxError);
          }
        } else if st == WGt {
          if c == GREATER {
            st := WVal;
          } else if c == 0 {
            return Error(UnexpectedEnd);
          } else {
            return Error(SyntaxError);
          }
        } else if st == WVal {
          var r, escaped := GetValue(true);
          if r == Absent { return Error(UnexpectedEnd); }
          if r.Error? { return r; }
          if cur > MAX_STRING { return Error(TooLong); }
          pairs := pairs + [Pair(key, ValueOf(word[..cur], escaped))];
          key, st := [], WDel;
        } else {
          if c == COMMA {
            st := WKey;
          } else if c == 0 {
            return Found;
          } else if !IsSpace(c) {
            return Error(SyntaxError);
          }
          key := [];
        }
        ptr := ptr + 1;
      }
    }
  }

  /** One step of `Parse` at a position of the text. */
  lemma ParseStep(text: Str, ptr: nat, st: PState, key: Str, acc: seq<Pair>)
    requires NulFree(text) && ptr <= |text|
    ensures Head(text[ptr..]) == 0 <==> ptr == |text|
    ensures st == WKey ==>
      Parse(text[ptr..], st, key, acc) ==
      match GetVal(text[ptr..], WaitVal, false, [], false)
      case NoValue => Pairs(acc)
      case Bad(e) => Failed(e)
      case Word(w, _, rest) =>
        if |acc| >= MAX_PAIRS then Failed(OutOfMemory)
        else if |w| > MAX_STRING then Failed(TooLong)
        else Parse(rest, WEq, w, acc)
    ensures st == WVal ==>
      Parse(text[ptr..], st, key, acc) ==
      match GetVal(text[ptr..], WaitVal, true, [], false)
      case NoValue => Failed(UnexpectedEnd)
      case Bad(e) => Failed(e)
      case Word(w, escaped, rest) =>
        if |w| > MAX_STRING then Failed(TooLong)
        else Parse(rest, WDel, [], acc + [Pair(key, ValueOf(w, escaped))])
    ensures st == WEq || st == WGt || st == WDel ==>
      Parse(text[ptr..], st, key, acc) ==
      var c := Head(text[ptr..]);
      if c == 0 then if st == WDel then Pairs(acc) else Failed(UnexpectedEnd)
      else if st == WEq && c == EQUALS then Parse(text[ptr + 1..], WGt, key, acc)
      else if st == WGt && c == GREATER then Parse(text[ptr + 1..], WVal, key, acc)
      else if st == WDel && c == COMMA then Parse(text[ptr + 1..], WKey, [], acc)
      else if st == WGt || !IsSpace(c) then Failed(SyntaxError)
      else Parse(text[ptr + 1..], st, if st == WDel then [] else key, acc)
  {
    hide GetVal, ValueOf;
    if ptr < |text| { assert text[ptr..][1..] == text[ptr + 1..]; }
  }

  lemma FirstSize()
    ensures Grown(32, 0) == 32 && Grown(16, 0) == 16
  {
  }

  /** One step of `GetVal` at a position of the text. */
  lemma Step(text: Str, ptr: nat, st: GvState, ignoreEq: bool, w: Str, escaped: bool)
    requires NulFree(text) && ptr <= |text|
    ensures var s := text[ptr..]; var c := Head(s);
      && (c == 0 <==> ptr == |text|)
      && GetVal(s, st, ignoreEq, w, escaped) == (
        match Act(c, st, ignoreEq)
        case Move(next) => GetVal(text[ptr + 1..], next, ignoreEq, w, escaped)
        case OpenQuote => GetVal(text[ptr + 1..], InEscVal, ignoreEq, w, true)
        case StoreFirst => GetVal(text[ptr + 1..], InVal, ignoreEq, w + [c], escaped)
        case Store(next) =>
          if |w| + 1 >= WORD_LIMIT then Bad(OutOfMemory)
          else GetVal(text[ptr + 1..], next, ignoreEq, w + [c], escaped)
        case Finish(after) => Word(w, escaped, text[if after then ptr + 1 else ptr..])
        case Stop => NoValue
        case Reject(e) => Bad(e))
  {
    hide Act;
    if ptr < |text| { assert text[ptr..][1..] == text[ptr + 1..]; }
  }
}

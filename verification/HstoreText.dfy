/**
 The text form of hstore values (contrib/hstore/hstore_io.c): what the parser (`get_val`, `parse_hstore`)
 accepts, what `hstore_out` prints, and that parsing undoes printing.
 */
module HstoreText {
  import opened HstoreFormat

  const QUOTE := 34
  const BACKSLASH := 92
  const EQUALS := 61
  const GREATER := 62
  const COMMA := 44
  const SPACE := 32

  /** `scanner_isspace`. */
  predicate IsSpace(c: int) { c == SPACE || 9 <= c <= 13 }

  /** The character a pointer into a C string points to; the string ends with 0. */
  function Head(s: Str): int { if s == [] then 0 else s[0] }

  // ----- get_val -----

  datatype Error = SyntaxError | UnexpectedEnd | TooLong | OutOfMemory

  datatype GvState = WaitVal | InVal | InEscVal | WaitEscIn | WaitEscEscIn

  /** A word, whether it was quoted, and the text at which the caller goes on; or the end of the text. */
  datatype Val = Word(w: Str, escaped: bool, rest: Str) | NoValue | Bad(error: Error)

  /** The word buffer doubles from 32 bytes while the allocator allows it, and keeps a byte in reserve. */
  const WORD_LIMIT: nat := 0x2000_0000

  /** What a character does in a state: change the state, store the character, or end the word. */
  datatype Action =
    | Move(st: GvState) | OpenQuote | StoreFirst | Store(st: GvState)
    | Finish(after: bool) | Stop | Reject(error: Error)

  function Act(c: int, st: GvState, ignoreEq: bool): (a: Action)
    ensures c == 0 ==> a.Stop? || a.Reject? || a == Finish(false)
    ensures a.Finish? && !a.after ==> st.InVal?
    ensures a.StoreFirst? ==> st.WaitVal?
    ensures a.Move? && a.st.WaitVal? ==> st.WaitVal?
    ensures a.Store? ==> !a.st.WaitVal?
  {
    match st
    case WaitVal =>
      if c == QUOTE then OpenQuote
      else if c == 0 then Stop
      else if c == EQUALS && !ignoreEq then Reject(SyntaxError)
      else if c == BACKSLASH then Move(WaitEscIn)
      else if !IsSpace(c) then StoreFirst
      else Move(WaitVal)
    case InVal =>
      if c == BACKSLASH then Move(WaitEscIn)
      else if c == EQUALS && !ignoreEq then Finish(false)
      else if c == COMMA && ignoreEq then Finish(false)
      else if IsSpace(c) then Finish(true)
      else if c == 0 then Finish(false)
      else Store(InVal)
    case InEscVal =>
      if c == BACKSLASH then Move(WaitEscEscIn)
      else if c == QUOTE then Finish(true)
      else if c == 0 then Reject(UnexpectedEnd)
      else Store(InEscVal)
    case WaitEscIn => if c == 0 then Reject(UnexpectedEnd) else Store(InVal)
    case WaitEscEscIn => if c == 0 then Reject(UnexpectedEnd) else Store(InEscVal)
  }

  function GetVal(s: Str, st: GvState, ignoreEq: bool, w: Str, escaped: bool): (r: Val)
    ensures r.Word? ==> |r.rest| <= |s| && (st.WaitVal? ==> |r.rest| < |s|)
    decreases |s|
  {
    match Act(Head(s), st, ignoreEq)
    case Move(next) => GetVal(s[1..], next, ignoreEq, w, escaped)
    case OpenQuote => GetVal(s[1..], InEscVal, ignoreEq, w, true)
    case StoreFirst => GetVal(s[1..], InVal, ignoreEq, w + [Head(s)], escaped)
    case Store(next) =>
      if |w| + 1 >= WORD_LIMIT then Bad(OutOfMemory)
      else GetVal(s[1..], next, ignoreEq, w + [Head(s)], escaped)
    case Finish(after) => Word(w, escaped, if after then s[1..] else s)
    case Stop => NoValue
    case Reject(e) => Bad(e)
  }

  // ----- parse_hstore -----

  datatype PState = WKey | WEq | WGt | WVal | WDel

  datatype Parsed = Pairs(pairs: seq<Pair>) | Failed(error: Error)

  const MAX_STRING: nat := 0x3FFF_FFFF    // HSTORE_MAX_KEY_LEN, HSTORE_MAX_VALUE_LEN

  /** The array of pairs, 40 bytes each, doubles from 16 while the allocator allows it. */
  const MAX_PAIRS: nat := 0x100_0000

  function Lower(c: int): int { if 65 <= c <= 90 then c + 32 else c }

  /** The unquoted word that means null, in either case. */
  predicate IsNullWord(w: Str) {
    |w| == 4 && Lower(w[0]) == 110 && Lower(w[1]) == 117 && Lower(w[2]) == 108 && Lower(w[3]) == 108
  }

  function ValueOf(w: Str, escaped: bool): Value {
    if !escaped && IsNullWord(w) then Null else Text(w)
  }

  function Parse(s: Str, st: PState, key: Str, acc: seq<Pair>): Parsed
    decreases |s|
  {
    var c := Head(s);
    match st
    case WKey =>
      (match GetVal(s, WaitVal, false, [], false)
       case NoValue => Pairs(acc)
       case Bad(e) => Failed(e)
       case Word(w, _, rest) =>
         if |acc| >= MAX_PAIRS then Failed(OutOfMemory)
         else if |w| > MAX_STRING then Failed(TooLong)
         else Parse(rest, WEq, w, acc))
    case WEq =>
      if c == EQUALS then Parse(s[1..], WGt, key, acc)
      else if c == 0 then Failed(UnexpectedEnd)
      else if !IsSpace(c) then Failed(SyntaxError)
      else Parse(s[1..], WEq, key, acc)
    case WGt =>
      if c == GREATER then Parse(s[1..], WVal, key, acc)
      else if c == 0 then Failed(UnexpectedEnd)
      else Failed(SyntaxError)
    case WVal =>
      (match GetVal(s, WaitVal, true, [], false)
       case NoValue => Failed(UnexpectedEnd)
       case Bad(e) => Failed(e)
       case Word(w, escaped, rest) =>
         if |w| > MAX_STRING then Failed(TooLong)
         else Parse(rest, WDel, [], acc + [Pair(key, ValueOf(w, escaped))]))
    case WDel =>
      if c == COMMA then Parse(s[1..], WKey, [], acc)
      else if c == 0 then Pairs(acc)
      else if !IsSpace(c) then Failed(SyntaxError)
      else Parse(s[1..], WDel, [], acc)
  }

  // ----- hstore_out -----

  /** `cpw`. */
  function Escape(s: Str): Str {
    if s == [] then []
    else (if s[0] == QUOTE || s[0] == BACKSLASH then [BACKSLASH, s[0]] else [s[0]]) + Escape(s[1..])
  }

  function Quoted(s: Str): Str { [QUOTE] + Escape(s) + [QUOTE] }

  function ValueText(v: Value): Str { if v.Null? then [78, 85, 76, 76] else Quoted(v.s) }

  function PairText(p: Pair): Str { Quoted(p.key) + [EQUALS, GREATER] + ValueText(p.val) }

  function Printed(pairs: seq<Pair>): Str {
    if pairs == [] then []
    else PairText(pairs[0]) + if |pairs| == 1 then [] else [COMMA, SPACE] + Printed(pairs[1..])
  }

  // ----- parsing undoes printing -----

  predicate NulFree(s: Str) { forall i :: 0 <= i < |s| ==> s[i] != 0 }

  /** A string that C can hold and that fits the word buffer. */
  predicate Readable(s: Str) { NulFree(s) && |s| < WORD_LIMIT }

  predicate ReadableValue(v: Value) { v.Null? || Readable(v.s) }

  lemma EscapeStep(c: int, tail: Str, ignoreEq: bool, w: Str)
    requires c != 0 && |w| + 1 < WORD_LIMIT
    ensures var shown := if c == QUOTE || c == BACKSLASH then [BACKSLASH, c] else [c];
      GetVal(shown + tail, InEscVal, ignoreEq, w, true) == GetVal(tail, InEscVal, ignoreEq, w + [c], true)
  {
    assert ([BACKSLASH, c] + tail)[1..] == [c] + tail;
    assert ([c] + tail)[1..] == tail;
  }

  lemma QuoteStep(rest: Str, ignoreEq: bool, w: Str)
    ensures GetVal([QUOTE] + rest, InEscVal, ignoreEq, w, true) == Word(w, true, rest)
  {
    assert ([QUOTE] + rest)[1..] == rest;
  }

  /** Inside quotes, the escaped form of a string reads as the string. */
  lemma {:induction false} EscapedReads(s: Str, rest: Str, ignoreEq: bool, w: Str)
    requires NulFree(s) && |w| + |s| < WORD_LIMIT
    ensures GetVal(Escape(s) + [QUOTE] + rest, InEscVal, ignoreEq, w, true) == Word(w + s, true, rest)
  {
    hide GetVal;
    if s == [] {
      QuoteStep(rest, ignoreEq, w);
      assert Escape(s) + [QUOTE] + rest == [QUOTE] + rest && w + s == w;
    } else {
      var c, tail := s[0], Escape(s[1..]) + [QUOTE] + rest;
      EscapedReads(s[1..], rest, ignoreEq, w + [c]);
      EscapeStep(c, tail, ignoreEq, w);
      assert w + [c] + s[1..] == w + s;
      var shown := if c == QUOTE || c == BACKSLASH then [BACKSLASH, c] else [c];
      assert Escape(s) + [QUOTE] + rest == shown + tail;
    }
  }

  lemma QuotedReads(s: Str, rest: Str, ignoreEq: bool)
    requires Readable(s)
    ensures GetVal(Quoted(s) + rest, WaitVal, ignoreEq, [], false) == Word(s, true, rest)
  {
    var text := Quoted(s) + rest;
    assert text[1..] == Escape(s) + [QUOTE] + rest;
    EscapedReads(s, rest, ignoreEq, []);
    assert [] + s == s;
  }

  /** A letter of an unquoted word. */
  lemma LetterReads(c: int, rest: Str, w: Str)
    requires 65 <= c <= 90 && |w| < 4
    ensures GetVal([c] + rest, InVal, true, w, false) == GetVal(rest, InVal, true, w + [c], false)
    ensures w == [] ==> GetVal([c] + rest, WaitVal, true, w, false) == GetVal(rest, InVal, true, [c], false)
  {
    assert ([c] + rest)[1..] == rest;
    if w == [] { assert w + [c] == [c]; }
  }

  lemma WordEnds(w: Str, rest: Str)
    requires rest == [] || rest[0] == COMMA
    ensures GetVal(rest, InVal, true, w, false) == Word(w, false, rest)
  {
  }

  /** The unquoted null, which ends at a comma or at the end of the text. */
  lemma NullReads(rest: Str)
    requires rest == [] || rest[0] == COMMA
    ensures GetVal([78, 85, 76, 76] + rest, WaitVal, true, [], false) == Word([78, 85, 76, 76], false, rest)
  {
    hide GetVal;
    var l1 := [76] + rest;
    var l2 := [76] + l1;
    var l3 := [85] + l2;
    assert [78, 85, 76, 76] + rest == [78] + l3;
    LetterReads(78, l3, []);
    LetterReads(85, l2, [78]);
    LetterReads(76, l1, [78, 85]);
    LetterReads(76, rest, [78, 85, 76]);
    assert [78] + [85] == [78, 85] && [78, 85] + [76] == [78, 85, 76] && [78, 85, 76] + [76] == [78, 85, 76, 76];
    WordEnds([78, 85, 76, 76], rest);
  }

  lemma ValueReads(v: Value, rest: Str)
    requires ReadableValue(v) && (rest == [] || rest[0] == COMMA)
    ensures exists w, escaped ::
      && GetVal(ValueText(v) + rest, WaitVal, true, [], false) == Word(w, escaped, rest)
      && ValueOf(w, escaped) == v && |w| <= MAX_STRING
  {
    if v.Null? {
      NullReads(rest);
    } else {
      QuotedReads(v.s, rest, true);
    }
  }

  /** One pair and what follows it. */
  lemma PairReads(p: Pair, rest: Str, acc: seq<Pair>)
    requires Readable(p.key) && ReadableValue(p.val) && (rest == [] || rest[0] == COMMA)
    ensures Parse(PairText(p) + rest, WKey, [], acc) ==
      if |acc| >= MAX_PAIRS then Failed(OutOfMemory) else Parse(rest, WDel, [], acc + [p])
  {
    hide GetVal, Quoted, Parse;
    var text := PairText(p) + rest;
    var tail := [EQUALS, GREATER] + (ValueText(p.val) + rest);
    assert text == Quoted(p.key) + tail;
    QuotedReads(p.key, tail, false);
    KeyStep(text, p.key, tail, acc);
    ArrowStep(ValueText(p.val) + rest, p.key, acc);
    ValueReads(p.val, rest);
    var w, escaped :|
      && GetVal(ValueText(p.val) + rest, WaitVal, true, [], false) == Word(w, escaped, rest)
      && ValueOf(w, escaped) == p.val && |w| <= MAX_STRING;
    ValueStep(ValueText(p.val) + rest, p.key, w, escaped, rest, acc);
  }

  lemma KeyStep(text: Str, k: Str, rest: Str, acc: seq<Pair>)
    requires GetVal(text, WaitVal, false, [], false) == Word(k, true, rest) && |k| <= MAX_STRING
    ensures Parse(text, WKey, [], acc) == if |acc| >= MAX_PAIRS then Failed(OutOfMemory) else Parse(rest, WEq, k, acc)
  {
    hide GetVal;
  }

  lemma ArrowStep(rest: Str, k: Str, acc: seq<Pair>)
    ensures Parse([EQUALS, GREATER] + rest, WEq, k, acc) == Parse(rest, WVal, k, acc)
  {
    assert ([EQUALS, GREATER] + rest)[1..] == [GREATER] + rest;
    assert ([GREATER] + rest)[1..] == rest;
  }

  lemma ValueStep(text: Str, k: Str, w: Str, escaped: bool, rest: Str, acc: seq<Pair>)
    requires GetVal(text, WaitVal, true, [], false) == Word(w, escaped, rest) && |w| <= MAX_STRING
    ensures Parse(text, WVal, k, acc) == Parse(rest, WDel, [], acc + [Pair(k, ValueOf(w, escaped))])
  {
    hide GetVal, ValueOf;
  }

  /** The comma and the space between two pairs. */
  lemma SeparatorStep(rest: Str, acc: seq<Pair>)
    ensures Parse([COMMA, SPACE] + rest, WDel, [], acc) == Parse(rest, WKey, [], acc)
  {
    assert ([COMMA, SPACE] + rest)[1..] == [SPACE] + rest;
    assert ([SPACE] + rest)[1..] == rest;
    assert GetVal([SPACE] + rest, WaitVal, false, [], false) == GetVal(rest, WaitVal, false, [], false);
  }

  predicate ReadablePairs(pairs: seq<Pair>) {
    forall p <- pairs :: Readable(p.key) && ReadableValue(p.val)
  }

  /** Printed pairs are read back exactly when the array of pairs can hold them. */
  lemma {:induction false} PrintedReads(pairs: seq<Pair>, acc: seq<Pair>)
    requires ReadablePairs(pairs) && |acc| <= MAX_PAIRS
    ensures Parse(Printed(pairs), WKey, [], acc) ==
      if |acc| + |pairs| <= MAX_PAIRS then Pairs(acc + pairs) else Failed(OutOfMemory)
  {
    hide Readable, ReadableValue, PairText;
    if pairs == [] {
      assert acc + pairs == acc;
    } else {
      var p, more := pairs[0], pairs[1..];
      assert p in pairs && forall q <- more :: q in pairs;
      var rest := if |pairs| == 1 then [] else [COMMA, SPACE] + Printed(more);
      PairReads(p, rest, acc);
      if |acc| < MAX_PAIRS {
        assert acc + [p] + more == acc + pairs;
        PrintedReads(more, acc + [p]);
        if |pairs| > 1 { SeparatorStep(Printed(more), acc + [p]); }
      }
    }
  }
}

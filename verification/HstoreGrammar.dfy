/**
 The language of hstore text (contrib/hstore/hstore_io.c, `get_val` and `parse_hstore`), given independently of the
 parser: words quoted or not, with escapes, and pairs with any white space.  The parser accepts exactly this language,
 and reads the pairs that are written.
 */
module HstoreGrammar {
  import opened HstoreFormat
  import opened HstoreText

  // ----- words -----

  /** A character of a word, as it is or behind a backslash. */
  datatype Piece = Plain(c: int) | Escaped(c: int)

  function PieceText(p: Piece): Str { if p.Plain? then [p.c] else [BACKSLASH, p.c] }

  function PiecesText(ps: seq<Piece>): Str { if ps == [] then [] else PieceText(ps[0]) + PiecesText(ps[1..]) }

  /** The characters meant. */
  function Chars(ps: seq<Piece>): (s: Str)
    ensures |s| == |ps|
  {
    if ps == [] then [] else [ps[0].c] + Chars(ps[1..])
  }

  /** What ends an unquoted word besides white space: in a key the equals sign, in a value the comma. */
  function Ender(value: bool): int { if value then COMMA else EQUALS }

  /** A character that can stand in an unquoted word behind its first. */
  predicate LaterOk(p: Piece, value: bool) {
    p.c != 0 && (p.Plain? ==> p.c != BACKSLASH && !IsSpace(p.c) && p.c != Ender(value))
  }

  /** One that can be the first: a quote would begin a quoted word; a value may begin with a comma. */
  predicate FirstOk(p: Piece, value: bool) {
    p.c != 0 && (p.Plain? ==> p.c != BACKSLASH && !IsSpace(p.c) && p.c != QUOTE && (!value ==> p.c != EQUALS))
  }

  predicate InQuotesOk(p: Piece) { p.c != 0 && (p.Plain? ==> p.c != BACKSLASH && p.c != QUOTE) }

  datatype Token = Bare(pieces: seq<Piece>) | InQuotes(pieces: seq<Piece>)

  predicate TokenOk(t: Token, value: bool) {
    && |t.pieces| < WORD_LIMIT
    && match t
       case Bare(ps) => ps != [] && FirstOk(ps[0], value) && forall i :: 0 < i < |ps| ==> LaterOk(ps[i], value)
       case InQuotes(ps) => forall p <- ps :: InQuotesOk(p)
  }

  function TokenText(t: Token): Str {
    match t
    case Bare(ps) => PiecesText(ps)
    case InQuotes(ps) => [QUOTE] + PiecesText(ps) + [QUOTE]
  }

  predicate Spaces(s: Str) { forall c <- s :: IsSpace(c) }

  /** What may follow an unquoted word. */
  predicate Ends(rest: Str, value: bool) { rest == [] || IsSpace(rest[0]) || rest[0] == Ender(value) }

  // ----- a word is read as it is meant -----

  lemma SpaceSkipped(c: int, rest: Str, value: bool)
    requires IsSpace(c)
    ensures GetVal([c] + rest, WaitVal, value, [], false) == GetVal(rest, WaitVal, value, [], false)
  {
    assert ([c] + rest)[1..] == rest;
  }

  lemma {:induction false} SpacesSkipped(lead: Str, rest: Str, value: bool)
    requires Spaces(lead)
    ensures GetVal(lead + rest, WaitVal, value, [], false) == GetVal(rest, WaitVal, value, [], false)
  {
    hide GetVal;
    if lead == [] {
      assert lead + rest == rest;
    } else {
      assert lead + rest == [lead[0]] + (lead[1..] + rest);
      SpaceSkipped(lead[0], lead[1..] + rest, value);
      SpacesSkipped(lead[1..], rest, value);
    }
  }

  lemma LaterRead(p: Piece, rest: Str, value: bool, w: Str)
    requires LaterOk(p, value) && |w| + 1 < WORD_LIMIT
    ensures GetVal(PieceText(p) + rest, InVal, value, w, false) == GetVal(rest, InVal, value, w + [p.c], false)
  {
    if p.Plain? {
      assert ([p.c] + rest)[1..] == rest;
    } else {
      assert ([BACKSLASH, p.c] + rest)[1..] == [p.c] + rest;
      assert ([p.c] + rest)[1..] == rest;
    }
  }

  lemma FirstRead(p: Piece, rest: Str, value: bool)
    requires FirstOk(p, value)
    ensures GetVal(PieceText(p) + rest, WaitVal, value, [], false) == GetVal(rest, InVal, value, [p.c], false)
  {
    assert [] + [p.c] == [p.c];
    if p.Plain? {
      assert ([p.c] + rest)[1..] == rest;
    } else {
      assert ([BACKSLASH, p.c] + rest)[1..] == [p.c] + rest;
      assert ([p.c] + rest)[1..] == rest;
    }
  }

  lemma QuotedRead(p: Piece, rest: Str, value: bool, w: Str)
    requires InQuotesOk(p) && |w| + 1 < WORD_LIMIT
    ensures GetVal(PieceText(p) + rest, InEscVal, value, w, true) == GetVal(rest, InEscVal, value, w + [p.c], true)
  {
    if p.Plain? {
      assert ([p.c] + rest)[1..] == rest;
    } else {
      assert ([BACKSLASH, p.c] + rest)[1..] == [p.c] + rest;
      assert ([p.c] + rest)[1..] == rest;
    }
  }

  /** What is left behind an unquoted word: a space that ends it is gone. */
  function Behind(rest: Str): Str { if rest != [] && IsSpace(rest[0]) then rest[1..] else rest }

  lemma BareEnd(rest: Str, value: bool, w: Str)
    requires Ends(rest, value)
    ensures GetVal(rest, InVal, value, w, false) == Word(w, false, Behind(rest))
  {
  }

  lemma PiecesParts(ps: seq<Piece>, rest: Str, w: Str)
    ensures ps == [] ==> PiecesText(ps) + rest == rest && w + Chars(ps) == w
    ensures ps != [] ==> PiecesText(ps) + rest == PieceText(ps[0]) + (PiecesText(ps[1..]) + rest)
    ensures ps != [] ==> w + [ps[0].c] + Chars(ps[1..]) == w + Chars(ps)
  {
    hide PieceText;
  }

  lemma {:induction false} LatersRead(ps: seq<Piece>, rest: Str, value: bool, w: Str)
    requires (forall p <- ps :: LaterOk(p, value)) && Ends(rest, value) && |w| + |ps| < WORD_LIMIT
    ensures GetVal(PiecesText(ps) + rest, InVal, value, w, false) == Word(w + Chars(ps), false, Behind(rest))
  {
    hide GetVal, LaterOk, PieceText, Ends, Behind, PiecesText, Chars;
    PiecesParts(ps, rest, w);
    if ps == [] {
      BareEnd(rest, value, w);
    } else {
      assert ps[0] in ps && forall p <- ps[1..] :: p in ps;
      LaterRead(ps[0], PiecesText(ps[1..]) + rest, value, w);
      LatersRead(ps[1..], rest, value, w + [ps[0].c]);
    }
  }

  lemma {:induction false} QuotedsRead(ps: seq<Piece>, rest: Str, value: bool, w: Str)
    requires (forall p <- ps :: InQuotesOk(p)) && |w| + |ps| < WORD_LIMIT
    ensures GetVal(PiecesText(ps) + ([QUOTE] + rest), InEscVal, value, w, true) == Word(w + Chars(ps), true, rest)
  {
    hide GetVal, InQuotesOk, PieceText, PiecesText, Chars;
    PiecesParts(ps, [QUOTE] + rest, w);
    if ps == [] {
      QuoteStep(rest, value, w);
    } else {
      assert ps[0] in ps && forall p <- ps[1..] :: p in ps;
      QuotedRead(ps[0], PiecesText(ps[1..]) + ([QUOTE] + rest), value, w);
      QuotedsRead(ps[1..], rest, value, w + [ps[0].c]);
    }
  }

  lemma OpenQuoteStep(rest: Str, value: bool)
    ensures GetVal([QUOTE] + rest, WaitVal, value, [], false) == GetVal(rest, InEscVal, value, [], true)
  {
    assert ([QUOTE] + rest)[1..] == rest;
  }

  /** A word is read with what it means, whatever white space stands before it, up to where it ends. */
  lemma TokenReads(lead: Str, t: Token, rest: Str, value: bool)
    requires Spaces(lead) && TokenOk(t, value) && (t.Bare? ==> Ends(rest, value))
    ensures GetVal(lead + (TokenText(t) + rest), WaitVal, value, [], false) ==
      Word(Chars(t.pieces), t.InQuotes?, if t.Bare? then Behind(rest) else rest)
  {
    hide GetVal, PieceText, Behind, Ends, LaterOk, FirstOk, InQuotesOk;
    SpacesSkipped(lead, TokenText(t) + rest, value);
    var ps := t.pieces;
    if t.Bare? {
      var more := PiecesText(ps[1..]) + rest;
      assert TokenText(t) + rest == PieceText(ps[0]) + more;
      FirstRead(ps[0], more, value);
      LatersRead(ps[1..], rest, value, [ps[0].c]);
      assert [ps[0].c] + Chars(ps[1..]) == Chars(ps);
    } else {
      assert TokenText(t) + rest == [QUOTE] + (PiecesText(ps) + ([QUOTE] + rest));
      OpenQuoteStep(PiecesText(ps) + ([QUOTE] + rest), value);
      QuotedsRead(ps, rest, value, []);
      assert [] + Chars(ps) == Chars(ps);
    }
  }

  // ----- pairs -----

  /** A pair as it is written: white space, key, white space, arrow, white space, value, white space. */
  datatype Form = Form(lead: Str, key: Token, mid: Str, gap: Str, val: Token, trail: Str)

  predicate FormOk(f: Form) {
    Spaces(f.lead) && TokenOk(f.key, false) && Spaces(f.mid) && Spaces(f.gap) && TokenOk(f.val, true) && Spaces(f.trail)
  }

  const ARROW: Str := [EQUALS, GREATER]

  function FormText(f: Form): Str {
    f.lead + (TokenText(f.key) + (f.mid + (ARROW + (f.gap + (TokenText(f.val) + f.trail)))))
  }

  /** The pair meant: only an unquoted word can be the null. */
  function Meant(f: Form): Pair { Pair(Chars(f.key.pieces), ValueOf(Chars(f.val.pieces), f.val.InQuotes?)) }

  /** A whole text: nothing but white space, or pairs with commas between them, and perhaps one more at the end. */
  datatype Written = Blank(spaces: Str) | Last(form: Form) | Then(form: Form, more: Written)

  predicate WrittenOk(r: Written) {
    match r
    case Blank(s) => Spaces(s)
    case Last(f) => FormOk(f)
    case Then(f, more) => FormOk(f) && WrittenOk(more)
  }

  function WrittenText(r: Written): Str {
    match r
    case Blank(s) => s
    case Last(f) => FormText(f)
    case Then(f, more) => FormText(f) + ([COMMA] + WrittenText(more))
  }

  function PairsMeant(r: Written): seq<Pair> {
    match r
    case Blank(_) => []
    case Last(f) => [Meant(f)]
    case Then(f, more) => [Meant(f)] + PairsMeant(more)
  }

  // ----- pairs are read as they are meant -----

  lemma {:induction false} MidSkipped(mid: Str, rest: Str, k: Str, acc: seq<Pair>)
    requires Spaces(mid)
    ensures Parse(mid + rest, WEq, k, acc) == Parse(rest, WEq, k, acc)
  {
    if mid == [] {
      assert mid + rest == rest;
    } else {
      assert mid[0] in mid && Head(mid + rest) == mid[0] && (mid + rest)[1..] == mid[1..] + rest;
      assert forall c <- mid[1..] :: c in mid;
      MidSkipped(mid[1..], rest, k, acc);
    }
  }

  lemma {:induction false} TrailSkipped(trail: Str, rest: Str, acc: seq<Pair>)
    requires Spaces(trail)
    ensures Parse(trail + rest, WDel, [], acc) == Parse(rest, WDel, [], acc)
  {
    if trail == [] {
      assert trail + rest == rest;
    } else {
      assert trail[0] in trail && Head(trail + rest) == trail[0] && (trail + rest)[1..] == trail[1..] + rest;
      assert forall c <- trail[1..] :: c in trail;
      TrailSkipped(trail[1..], rest, acc);
    }
  }

  /** White space that ends a word, or not, is skipped all the same. */
  lemma MidBehind(t: Token, mid: Str, rest: Str, k: Str, acc: seq<Pair>)
    requires Spaces(mid)
    ensures Parse(if t.Bare? then Behind(mid + (ARROW + rest)) else mid + (ARROW + rest), WEq, k, acc) == Parse(ARROW + rest, WEq, k, acc)
  {
    hide Parse;
    var all := mid + (ARROW + rest);
    MidSkipped(mid, ARROW + rest, k, acc);
    if mid != [] {
      assert all[0] == mid[0] && all[1..] == mid[1..] + (ARROW + rest);
      MidSkipped(mid[1..], ARROW + rest, k, acc);
    } else {
      assert all == ARROW + rest && all[0] == EQUALS;
    }
  }

  lemma TrailBehind(t: Token, trail: Str, rest: Str, acc: seq<Pair>)
    requires Spaces(trail) && (rest == [] || rest[0] == COMMA)
    ensures Parse(if t.Bare? then Behind(trail + rest) else trail + rest, WDel, [], acc) == Parse(rest, WDel, [], acc)
  {
    hide Parse;
    var all := trail + rest;
    TrailSkipped(trail, rest, acc);
    if trail != [] {
      assert all[0] == trail[0] && all[1..] == trail[1..] + rest;
      TrailSkipped(trail[1..], rest, acc);
    } else {
      assert all == rest;
    }
  }

  lemma EndsAfter(spaces: Str, rest: Str, value: bool)
    requires Spaces(spaces) && (rest == [] || rest[0] == Ender(value))
    ensures Ends(spaces + rest, value)
  {
    if spaces == [] { assert spaces + rest == rest; }
  }

  lemma KeyRead(text: Str, k: Str, quoted: bool, rest: Str, acc: seq<Pair>)
    requires GetVal(text, WaitVal, false, [], false) == Word(k, quoted, rest) && |k| < WORD_LIMIT && |acc| < MAX_PAIRS
    ensures Parse(text, WKey, [], acc) == Parse(rest, WEq, k, acc)
  {
    hide GetVal;
  }

  /** The tail of a pair behind its key. */
  function ValuePart(f: Form, rest: Str): Str { f.gap + (TokenText(f.val) + (f.trail + rest)) }

  lemma FormParts(f: Form, rest: Str)
    ensures FormText(f) + rest == f.lead + (TokenText(f.key) + (f.mid + (ARROW + ValuePart(f, rest))))
  {
    hide TokenText;
    var a, b, c, d := f.gap + (TokenText(f.val) + f.trail), f.mid, TokenText(f.key), f.lead;
    assert a + rest == ValuePart(f, rest);
    assert d + (c + (b + (ARROW + a))) + rest == d + (c + (b + (ARROW + (a + rest))));
  }

  /** One pair, and what follows it. */
  lemma FormReads(f: Form, rest: Str, acc: seq<Pair>)
    requires FormOk(f) && (rest == [] || rest[0] == COMMA) && |acc| < MAX_PAIRS
    ensures Parse(FormText(f) + rest, WKey, [], acc) == Parse(rest, WDel, [], acc + [Meant(f)])
  {
    hide Parse, GetVal, TokenOk, TokenText, FormText, Behind, Chars, Ends, ValueOf;
    FormParts(f, rest);
    var tail := ValuePart(f, rest);
    var behindKey := f.mid + (ARROW + tail);
    EndsAfter(f.mid, ARROW + tail, false);
    TokenReads(f.lead, f.key, behindKey, false);
    TokenIsShort(f.key, false);
    KeyRead(FormText(f) + rest, Chars(f.key.pieces), f.key.InQuotes?, if f.key.Bare? then Behind(behindKey) else behindKey, acc);
    MidBehind(f.key, f.mid, tail, Chars(f.key.pieces), acc);
    ArrowStep(tail, Chars(f.key.pieces), acc);
    EndsAfter(f.trail, rest, true);
    TokenReads(f.gap, f.val, f.trail + rest, true);
    TokenIsShort(f.val, true);
    ValueStep(tail, Chars(f.key.pieces), Chars(f.val.pieces), f.val.InQuotes?,
              if f.val.Bare? then Behind(f.trail + rest) else f.trail + rest, acc);
    TrailBehind(f.val, f.trail, rest, acc + [Meant(f)]);
  }

  lemma TokenIsShort(t: Token, value: bool)
    requires TokenOk(t, value)
    ensures |Chars(t.pieces)| < WORD_LIMIT <= MAX_STRING
  {
  }

  lemma CommaStep(rest: Str, acc: seq<Pair>)
    ensures Parse([COMMA] + rest, WDel, [], acc) == Parse(rest, WKey, [], acc)
    ensures Parse([], WDel, [], acc) == Pairs(acc)
  {
    assert ([COMMA] + rest)[1..] == rest;
  }

  lemma BlankReads(spaces: Str, acc: seq<Pair>)
    requires Spaces(spaces)
    ensures Parse(spaces, WKey, [], acc) == Pairs(acc)
  {
    SpacesSkipped(spaces, [], false);
    assert spaces + [] == spaces;
    assert GetVal([], WaitVal, false, [], false) == NoValue;
  }

  /** Every text of the language is read as the pairs it means, as many as the array of pairs can hold. */
  lemma {:induction false} WrittenReads(r: Written, acc: seq<Pair>)
    requires WrittenOk(r) && |acc| + |PairsMeant(r)| <= MAX_PAIRS
    ensures Parse(WrittenText(r), WKey, [], acc) == Pairs(acc + PairsMeant(r))
  {
    hide Parse, FormOk, FormText, Meant;
    match r
    case Blank(s) =>
      BlankReads(s, acc);
      assert acc + [] == acc;
    case Last(f) =>
      FormReads(f, [], acc);
      assert FormText(f) + [] == FormText(f);
      CommaStep([], acc + [Meant(f)]);
    case Then(f, more) =>
      FormReads(f, [COMMA] + WrittenText(more), acc);
      CommaStep(WrittenText(more), acc + [Meant(f)]);
      WrittenReads(more, acc + [Meant(f)]);
      assert acc + [Meant(f)] + PairsMeant(more) == acc + PairsMeant(r);
  }

  // ----- what is accepted is of the language -----

  /** The pieces of an unquoted word behind its first, up to where reading it ended. */
  lemma {:induction false} LatersWritten(s: Str, value: bool, w: Str) returns (ps: seq<Piece>, rest: Str)
    requires NulFree(s) && GetVal(s, InVal, value, w, false).Word? && |w| < WORD_LIMIT
    ensures (forall p <- ps :: LaterOk(p, value)) && |w| + |ps| < WORD_LIMIT && s == PiecesText(ps) + rest && Ends(rest, value)
    ensures GetVal(s, InVal, value, w, false) == Word(w + Chars(ps), false, Behind(rest))
    decreases |s|
  {
    var c := Head(s);
    if Ends(s, value) {
      ps, rest := [], s;
      BareEnd(s, value, w);
      PiecesParts([], s, w);
    } else {
      var p, after := LaterPiece(s, value, w);
      assert NulFree(after);
      hide GetVal, LaterOk, Ends, Behind, PiecesText, Chars, NulFree;
      var more;
      more, rest := LatersWritten(after, value, w + [p.c]);
      ps := [p] + more;
      assert ps[0] == p && ps[1..] == more;
      PiecesParts(ps, rest, w);
    }
  }

  lemma LaterPiece(s: Str, value: bool, w: Str) returns (p: Piece, after: Str)
    requires NulFree(s) && GetVal(s, InVal, value, w, false).Word? && |w| < WORD_LIMIT && !Ends(s, value)
    ensures LaterOk(p, value) && s == PieceText(p) + after && |after| < |s| && |w| + 1 < WORD_LIMIT
    ensures GetVal(s, InVal, value, w, false) == GetVal(after, InVal, value, w + [p.c], false)
  {
    if s[0] == BACKSLASH {
      assert GetVal(s, InVal, value, w, false) == GetVal(s[1..], WaitEscIn, value, w, false);
      p, after := Escaped(s[1]), s[2..];
      assert s[1..][1..] == after && s == [BACKSLASH, s[1]] + after;
    } else {
      p, after := Plain(s[0]), s[1..];
      assert s == [s[0]] + after;
    }
  }

  lemma QuotedPiece(s: Str, value: bool, w: Str) returns (p: Piece, after: Str)
    requires NulFree(s) && GetVal(s, InEscVal, value, w, true).Word? && |w| < WORD_LIMIT && Head(s) != QUOTE
    ensures InQuotesOk(p) && s == PieceText(p) + after && |after| < |s| && |w| + 1 < WORD_LIMIT
    ensures GetVal(s, InEscVal, value, w, true) == GetVal(after, InEscVal, value, w + [p.c], true)
  {
    if s[0] == BACKSLASH {
      assert GetVal(s, InEscVal, value, w, true) == GetVal(s[1..], WaitEscEscIn, value, w, true);
      p, after := Escaped(s[1]), s[2..];
      assert s[1..][1..] == after && s == [BACKSLASH, s[1]] + after;
    } else {
      p, after := Plain(s[0]), s[1..];
      assert s == [s[0]] + after;
    }
  }

  lemma {:induction false} QuotedsWritten(s: Str, value: bool, w: Str) returns (ps: seq<Piece>, rest: Str)
    requires NulFree(s) && GetVal(s, InEscVal, value, w, true).Word? && |w| < WORD_LIMIT
    ensures (forall p <- ps :: InQuotesOk(p)) && |w| + |ps| < WORD_LIMIT && s == PiecesText(ps) + ([QUOTE] + rest)
    ensures GetVal(s, InEscVal, value, w, true) == Word(w + Chars(ps), true, rest)
    decreases |s|
  {
    if Head(s) == QUOTE {
      ps, rest := [], s[1..];
      assert s == [QUOTE] + rest;
      QuoteStep(rest, value, w);
      PiecesParts([], s, w);
    } else {
      var p, after := QuotedPiece(s, value, w);
      assert NulFree(after);
      hide GetVal, InQuotesOk, PiecesText, Chars, NulFree;
      var more;
      more, rest := QuotedsWritten(after, value, w + [p.c]);
      ps := [p] + more;
      assert ps[0] == p && ps[1..] == more;
      PiecesParts(ps, [QUOTE] + rest, w);
    }
  }

  lemma FirstPiece(s: Str, value: bool) returns (p: Piece, after: Str)
    requires NulFree(s) && GetVal(s, WaitVal, value, [], false).Word? && s != [] && !IsSpace(s[0]) && s[0] != QUOTE
    ensures FirstOk(p, value) && s == PieceText(p) + after && |after| < |s|
    ensures GetVal(s, WaitVal, value, [], false) == GetVal(after, InVal, value, [p.c], false)
  {
    assert [] + [Head(s)] == [Head(s)];
    if s[0] == BACKSLASH {
      assert GetVal(s, WaitVal, value, [], false) == GetVal(s[1..], WaitEscIn, value, [], false);
      p, after := Escaped(s[1]), s[2..];
      assert s[1..][1..] == after && s == [BACKSLASH, s[1]] + after;
      assert [] + [s[1]] == [s[1]];
    } else {
      p, after := Plain(s[0]), s[1..];
      assert s == [s[0]] + after;
    }
  }

  lemma QuotedWritten(s: Str, value: bool) returns (t: Token, rest: Str)
    requires NulFree(s) && GetVal(s, WaitVal, value, [], false).Word? && s != [] && s[0] == QUOTE
    ensures TokenOk(t, value) && t.InQuotes? && s == TokenText(t) + rest
    ensures GetVal(s, WaitVal, value, [], false) == Word(Chars(t.pieces), true, rest)
  {
    hide GetVal, PiecesText, Chars, InQuotesOk;
    var inner := s[1..];
    assert s == [QUOTE] + inner;
    NulFreeParts(s, [QUOTE], inner);
    OpenQuoteStep(inner, value);
    var ps;
    ps, rest := QuotedsWritten(inner, value, []);
    t := InQuotes(ps);
    assert [] + Chars(ps) == Chars(ps);
    assert [QUOTE] + (PiecesText(ps) + ([QUOTE] + rest)) == [QUOTE] + PiecesText(ps) + [QUOTE] + rest;
  }

  lemma BareWritten(s: Str, value: bool) returns (t: Token, rest: Str)
    requires NulFree(s) && GetVal(s, WaitVal, value, [], false).Word? && s != [] && s[0] != QUOTE && !IsSpace(s[0])
    ensures TokenOk(t, value) && t.Bare? && Ends(rest, value) && s == TokenText(t) + rest
    ensures GetVal(s, WaitVal, value, [], false) == Word(Chars(t.pieces), false, Behind(rest))
  {
    hide GetVal, PiecesText, Chars, FirstOk, LaterOk, Ends, Behind, PieceText;
    var p, after := FirstPiece(s, value);
    NulFreeParts(s, PieceText(p), after);
    var more;
    more, rest := LatersWritten(after, value, [p.c]);
    var ps := [p] + more;
    t := Bare(ps);
    assert ps[0] == p && ps[1..] == more && forall i :: 0 < i < |ps| ==> ps[i] == more[i - 1] && ps[i] in more;
    PiecesParts(ps, rest, []);
    assert [] + [p.c] == [p.c] && [] + Chars(ps) == Chars(ps);
  }

  /** Every word that is read was written: white space, a word of the language, and what ends it. */
  lemma {:induction false} TokenWritten(s: Str, value: bool) returns (lead: Str, t: Token, rest: Str)
    requires NulFree(s) && GetVal(s, WaitVal, value, [], false).Word?
    ensures Spaces(lead) && TokenOk(t, value) && (t.Bare? ==> Ends(rest, value)) && s == lead + (TokenText(t) + rest)
    ensures GetVal(s, WaitVal, value, [], false) == Word(Chars(t.pieces), t.InQuotes?, if t.Bare? then Behind(rest) else rest)
    decreases |s|
  {
    assert s != [];
    hide GetVal, TokenOk, TokenText, Chars, Ends, Behind;
    if IsSpace(s[0]) {
      var inner := s[1..];
      assert s == [s[0]] + inner;
      NulFreeParts(s, [s[0]], inner);
      SpaceSkipped(s[0], inner, value);
      var lead0;
      lead0, t, rest := TokenWritten(inner, value);
      lead := [s[0]] + lead0;
      assert [s[0]] + (lead0 + (TokenText(t) + rest)) == lead + (TokenText(t) + rest);
    } else {
      lead := [];
      if s[0] == QUOTE { t, rest := QuotedWritten(s, value); } else { t, rest := BareWritten(s, value); }
      assert [] + (TokenText(t) + rest) == TokenText(t) + rest;
    }
  }

  lemma NulFreeParts(s: Str, a: Str, b: Str)
    requires NulFree(s) && s == a + b
    ensures NulFree(b)
  {
    forall i | 0 <= i < |b| ensures b[i] != 0 { assert s[|a| + i] == b[i]; }
  }

  /** Where no word is read, and no error made, there is only white space. */
  lemma {:induction false} BlankWritten(s: Str, value: bool)
    requires NulFree(s) && GetVal(s, WaitVal, value, [], false).NoValue?
    ensures Spaces(s)
    decreases |s|
  {
    if s != [] {
      NoWordIsSpace(s, value);
      SpaceSkipped(s[0], s[1..], value);
      assert s == [s[0]] + s[1..];
      BlankWritten(s[1..], value);
      assert forall c <- s :: c == s[0] || c in s[1..];
    }
  }

  lemma NoWordIsSpace(s: Str, value: bool)
    requires NulFree(s) && s != [] && GetVal(s, WaitVal, value, [], false).NoValue?
    ensures IsSpace(s[0])
  {
    if !IsSpace(s[0]) { StartedIsNoValue(s, value); }
  }

  /** Once a word has begun, there is a word or an error. */
  lemma {:induction false} BegunHasWord(s: Str, st: GvState, value: bool, w: Str, escaped: bool)
    requires !st.WaitVal?
    ensures !GetVal(s, st, value, w, escaped).NoValue?
    decreases |s|
  {
    match Act(Head(s), st, value)
    case Move(next) => BegunHasWord(s[1..], next, value, w, escaped);
    case Store(next) => if |w| + 1 < WORD_LIMIT { BegunHasWord(s[1..], next, value, w + [Head(s)], escaped); }
    case _ =>
  }

  lemma StartedIsNoValue(s: Str, value: bool)
    requires NulFree(s) && s != [] && !IsSpace(s[0])
    ensures !GetVal(s, WaitVal, value, [], false).NoValue?
  {
    match Act(Head(s), WaitVal, value)
    case Move(next) => BegunHasWord(s[1..], next, value, [], false);
    case OpenQuote => BegunHasWord(s[1..], InEscVal, value, [], true);
    case StoreFirst => BegunHasWord(s[1..], InVal, value, [] + [Head(s)], false);
    case _ =>
  }

  /** Between a key and its value there are white space and an arrow. */
  lemma {:induction false} ArrowWritten(s: Str, k: Str, acc: seq<Pair>) returns (mid: Str, tail: Str)
    requires Parse(s, WEq, k, acc).Pairs?
    ensures Spaces(mid) && s == mid + (ARROW + tail) && Parse(s, WEq, k, acc) == Parse(tail, WVal, k, acc)
    decreases |s|
  {
    if Head(s) == EQUALS {
      mid, tail := [], s[2..];
      assert Parse(s, WEq, k, acc) == Parse(s[1..], WGt, k, acc);
      assert s[1..][1..] == tail && s == ARROW + tail;
    } else {
      mid, tail := ArrowWritten(s[1..], k, acc);
      mid := [s[0]] + mid;
    }
  }

  /** Behind a value there is white space up to the end of the text or a comma. */
  lemma {:induction false} TrailWritten(s: Str, acc: seq<Pair>) returns (trail: Str, tail: Str)
    requires NulFree(s) && Parse(s, WDel, [], acc).Pairs?
    ensures Spaces(trail) && s == trail + tail && (tail == [] || tail[0] == COMMA)
    ensures Parse(s, WDel, [], acc) == if tail == [] then Pairs(acc) else Parse(tail[1..], WKey, [], acc)
    decreases |s|
  {
    if s == [] || s[0] == COMMA {
      trail, tail := [], s;
    } else {
      trail, tail := TrailWritten(s[1..], acc);
      trail := [s[0]] + trail;
    }
  }

  /** The white space behind a word, the one that ended it included. */
  lemma SpacesBehind(t: Token, rest: Str, value: bool, spaces: Str, tail: Str) returns (all: Str)
    requires Spaces(spaces) && (if t.Bare? then Behind(rest) else rest) == spaces + tail
    ensures Spaces(all) && rest == all + tail
  {
    all := if t.Bare? && rest != [] && IsSpace(rest[0]) then [rest[0]] + spaces else spaces;
  }

  /** The key that was read, and the arrow behind it. */
  lemma KeyWritten(s: Str, acc: seq<Pair>) returns (lead: Str, key: Token, mid: Str, tail: Str)
    requires NulFree(s) && Parse(s, WKey, [], acc).Pairs? && GetVal(s, WaitVal, false, [], false).Word?
    ensures Spaces(lead) && TokenOk(key, false) && Spaces(mid) && s == lead + (TokenText(key) + (mid + (ARROW + tail)))
    ensures |acc| < MAX_PAIRS && Parse(s, WKey, [], acc) == Parse(tail, WVal, Chars(key.pieces), acc)
  {
    hide TokenOk, TokenText, Chars, Ends, Behind;
    var rest;
    lead, key, rest := TokenWritten(s, false);
    var k, behind := Chars(key.pieces), if key.Bare? then Behind(rest) else rest;
    assert |acc| < MAX_PAIRS && Parse(s, WKey, [], acc) == Parse(behind, WEq, k, acc);
    var mid0;
    mid0, tail := ArrowWritten(behind, k, acc);
    mid := SpacesBehind(key, rest, false, mid0, ARROW + tail);
  }

  lemma TailNulFree(s: Str, a: Str, b: Str, c: Str, tail: Str)
    requires NulFree(s) && s == a + (b + (c + (ARROW + tail)))
    ensures NulFree(tail) && |tail| < |s|
  {
    assert a + (b + (c + (ARROW + tail))) == a + b + c + ARROW + tail;
    NulFreeParts(s, a + b + c + ARROW, tail);
  }

  /** One pair that was read. */
  lemma FormWritten(s: Str, acc: seq<Pair>) returns (f: Form, tail: Str)
    requires NulFree(s) && Parse(s, WKey, [], acc).Pairs? && GetVal(s, WaitVal, false, [], false).Word?
    ensures FormOk(f) && s == FormText(f) + tail && (tail == [] || tail[0] == COMMA) && |tail| < |s| && |acc| < MAX_PAIRS
    ensures Parse(s, WKey, [], acc) == if tail == [] then Pairs(acc + [Meant(f)]) else Parse(tail[1..], WKey, [], acc + [Meant(f)])
  {
    hide Parse, GetVal, TokenOk, TokenText, Chars, FormText, NulFree;
    var lead, key, mid, tail0 := KeyWritten(s, acc);
    TailNulFree(s, lead, TokenText(key), mid, tail0);
    var gap, val, trail;
    gap, val, trail, tail := ValueWritten(tail0, Chars(key.pieces), acc);
    f := Form(lead, key, mid, gap, val, trail);
    FormParts(f, tail);
  }

  lemma ValueWritten(s: Str, k: Str, acc: seq<Pair>) returns (gap: Str, val: Token, trail: Str, tail: Str)
    requires NulFree(s) && Parse(s, WVal, k, acc).Pairs?
    ensures Spaces(gap) && TokenOk(val, true) && Spaces(trail) && (tail == [] || tail[0] == COMMA)
    ensures s == gap + (TokenText(val) + (trail + tail)) && |tail| < |s|
    ensures var acc' := acc + [Pair(k, ValueOf(Chars(val.pieces), val.InQuotes?))];
      Parse(s, WVal, k, acc) == if tail == [] then Pairs(acc') else Parse(tail[1..], WKey, [], acc')
  {
    var rest;
    gap, val, rest := TokenWritten(s, true);
    var acc' := acc + [Pair(k, ValueOf(Chars(val.pieces), val.InQuotes?))];
    var behind := if val.Bare? then Behind(rest) else rest;
    assert Parse(s, WVal, k, acc) == Parse(behind, WDel, [], acc');
    BehindNulFree(s, gap, val, rest);
    TokenIsLong(val, true);
    hide TokenOk, TokenText, Chars, Ends, Behind, Parse, GetVal, NulFree, ValueOf;
    var trail0;
    trail0, tail := TrailWritten(behind, acc');
    trail := SpacesBehind(val, rest, true, trail0, tail);
  }

  lemma BehindNulFree(s: Str, lead: Str, t: Token, rest: Str)
    requires NulFree(s) && s == lead + (TokenText(t) + rest)
    ensures NulFree(rest) && NulFree(Behind(rest))
  {
    assert s == lead + TokenText(t) + rest;
    NulFreeParts(s, lead + TokenText(t), rest);
  }

  lemma TokenIsLong(t: Token, value: bool)
    requires TokenOk(t, value)
    ensures |TokenText(t)| > 0
  {
  }

  lemma TailParts(s: Str, a: Str, tail: Str)
    requires NulFree(s) && s == a + tail && tail != [] && tail[0] == COMMA
    ensures tail == [COMMA] + tail[1..] && s == a + ([COMMA] + tail[1..]) && NulFree(tail[1..])
  {
    NulFreeParts(s, a, tail);
    assert tail == [COMMA] + tail[1..];
    NulFreeParts(tail, [COMMA], tail[1..]);
  }

  lemma MeantMore(acc: seq<Pair>, f: Form, more: Written)
    ensures acc + [Meant(f)] + PairsMeant(more) == acc + PairsMeant(Then(f, more))
  {
  }

  /** Every text that is accepted is of the language, and means the pairs that are read. */
  lemma {:induction false} WrittenAs(s: Str, acc: seq<Pair>) returns (r: Written)
    requires NulFree(s) && Parse(s, WKey, [], acc).Pairs? && |acc| <= MAX_PAIRS
    ensures WrittenOk(r) && WrittenText(r) == s && |acc| + |PairsMeant(r)| <= MAX_PAIRS
    ensures Parse(s, WKey, [], acc) == Pairs(acc + PairsMeant(r))
    decreases |s|
  {
    if GetVal(s, WaitVal, false, [], false).NoValue? {
      BlankWritten(s, false);
      r := Blank(s);
      assert acc + [] == acc;
    } else {
      var f, tail := FormWritten(s, acc);
      hide Parse, FormOk, FormText, Meant, GetVal;
      if tail == [] {
        r := Last(f);
        assert FormText(f) + tail == FormText(f);
      } else {
        TailParts(s, FormText(f), tail);
        hide NulFree;
        var more := WrittenAs(tail[1..], acc + [Meant(f)]);
        r := Then(f, more);
        MeantMore(acc, f, more);
      }
    }
  }

  /** The parser accepts exactly the texts of the language that mean no more pairs than it can hold, and reads what they mean. */
  lemma ParseExactly(s: Str, pairs: seq<Pair>)
    requires NulFree(s)
    ensures Parse(s, WKey, [], []) == Pairs(pairs) <==>
      |pairs| <= MAX_PAIRS && exists r :: WrittenOk(r) && WrittenText(r) == s && PairsMeant(r) == pairs
  {
    hide Parse, WrittenOk, WrittenText, PairsMeant;
    if Parse(s, WKey, [], []) == Pairs(pairs) {
      var r := WrittenAs(s, []);
      assert [] + PairsMeant(r) == PairsMeant(r);
    }
    if |pairs| <= MAX_PAIRS && exists r :: WrittenOk(r) && WrittenText(r) == s && PairsMeant(r) == pairs {
      var r :| WrittenOk(r) && WrittenText(r) == s && PairsMeant(r) == pairs;
      WrittenReads(r, []);
      assert [] + PairsMeant(r) == PairsMeant(r);
    }
  }
}

/**
 Which of its two complaints about a text the parser of hstore makes (contrib/hstore/hstore_io.c): a syntax error
 when no continuation of the text could be read, an unexpected end when some could.
 */
module HstoreErrors {
  import opened HstoreFormat
  import opened HstoreText
  import opened HstoreGrammar

  // ----- a syntax error is final -----

  lemma HeadMore(s: Str, t: Str)
    requires s != []
    ensures Head(s + t) == Head(s) && (s + t)[1..] == s[1..] + t
  {
  }

  /** What was decided before the end of the text does not depend on what follows. */
  lemma {:induction false} DecidedStays(s: Str, t: Str, st: GvState, value: bool, w: Str, escaped: bool)
    requires NulFree(s)
    ensures var r, more := GetVal(s, st, value, w, escaped), GetVal(s + t, st, value, w, escaped);
      && (r.Word? && r.rest != [] ==> more == Word(r.w, r.escaped, r.rest + t))
      && (r.Bad? && r.error != UnexpectedEnd ==> more == r)
    decreases |s|
  {
    if s != [] {
      HeadMore(s, t);
      assert NulFree(s[1..]);
      match Act(Head(s), st, value)
      case Move(next) => DecidedStays(s[1..], t, next, value, w, escaped);
      case OpenQuote => DecidedStays(s[1..], t, InEscVal, value, w, true);
      case StoreFirst => DecidedStays(s[1..], t, InVal, value, w + [Head(s)], escaped);
      case Store(next) => if |w| + 1 < WORD_LIMIT { DecidedStays(s[1..], t, next, value, w + [Head(s)], escaped); }
      case _ =>
    }
  }

  /** No continuation of a text with a syntax error is read. */
  lemma {:induction false} SyntaxIsFinal(s: Str, t: Str, st: PState, key: Str, acc: seq<Pair>)
    requires NulFree(s) && Parse(s, st, key, acc) == Failed(SyntaxError)
    ensures Parse(s + t, st, key, acc) == Failed(SyntaxError)
    decreases |s|
  {
    if st.WKey? || st.WVal? {
      WordIsFinal(s, t, st, key, acc);
    } else if s != [] {
      HeadMore(s, t);
      assert NulFree(s[1..]);
      if st.WEq? {
        if s[0] == EQUALS { SyntaxIsFinal(s[1..], t, WGt, key, acc); } else if IsSpace(s[0]) { SyntaxIsFinal(s[1..], t, WEq, key, acc); }
      } else if st.WGt? {
        if s[0] == GREATER { SyntaxIsFinal(s[1..], t, WVal, key, acc); }
      } else {
        if s[0] == COMMA { SyntaxIsFinal(s[1..], t, WKey, [], acc); } else if IsSpace(s[0]) { SyntaxIsFinal(s[1..], t, WDel, [], acc); }
      }
    }
  }

  lemma {:induction false} WordIsFinal(s: Str, t: Str, st: PState, key: Str, acc: seq<Pair>)
    requires NulFree(s) && Parse(s, st, key, acc) == Failed(SyntaxError) && (st.WKey? || st.WVal?)
    ensures Parse(s + t, st, key, acc) == Failed(SyntaxError)
    decreases |s|, 0
  {
    DecidedStays(s, t, WaitVal, st.WVal?, [], false);
    var r := GetVal(s, WaitVal, st.WVal?, [], false);
    if r.Word? {
      RestNulFree(s, st.WVal?);
      if st.WKey? {
        SyntaxIsFinal(r.rest, t, WEq, r.w, acc);
      } else {
        SyntaxIsFinal(r.rest, t, WDel, [], acc + [Pair(key, ValueOf(r.w, r.escaped))]);
      }
    }
  }

  lemma RestNulFree(s: Str, value: bool)
    requires NulFree(s) && GetVal(s, WaitVal, value, [], false).Word?
    ensures NulFree(GetVal(s, WaitVal, value, [], false).rest)
  {
    hide GetVal, TokenText, TokenOk, Chars;
    var lead, tok, rest := TokenWritten(s, value);
    BehindNulFree(s, lead, tok, rest);
  }

  // ----- an unexpected end is open -----

  const EMPTY_VALUE: Str := [QUOTE, QUOTE]

  /** The rest of a pair behind its key. */
  const CLOSING: Str := [EQUALS, GREATER, QUOTE, QUOTE]

  /** Read, or too large for the parser. */
  predicate Acceptable(p: Parsed) { p.Pairs? || p == Failed(OutOfMemory) }

  /** What can follow a word without being taken for part of it or skipped. */
  predicate Follows(u: Str, value: bool) { NulFree(u) && if u == [] then value else u[0] == Ender(value) }

  lemma ClosedAtEnd(u: Str, st: GvState, value: bool, w: Str, escaped: bool) returns (t: Str)
    requires Follows(u, value) && GetVal([], st, value, w, escaped) == Bad(UnexpectedEnd)
    ensures NulFree(t)
    ensures var r := GetVal(t + u, st, value, w, escaped); r == Bad(OutOfMemory) || (r.Word? && r.rest == u)
  {
    if st.InEscVal? {
      t := [QUOTE];
      assert (t + u)[1..] == u;
    } else if st.WaitEscIn? {
      t := [120];
      assert (t + u)[1..] == u;
    } else {
      t := [120, QUOTE];
      assert (t + u)[1..] == [QUOTE] + u && ([QUOTE] + u)[1..] == u;
    }
  }

  /** A word that the end of the text cut off can be finished. */
  lemma {:induction false} WordCloses(s: Str, u: Str, st: GvState, value: bool, w: Str, escaped: bool) returns (t: Str)
    requires NulFree(s) && Follows(u, value) && GetVal(s, st, value, w, escaped) == Bad(UnexpectedEnd)
    ensures NulFree(t)
    ensures var r := GetVal(s + (t + u), st, value, w, escaped); r == Bad(OutOfMemory) || (r.Word? && r.rest == u)
    decreases |s|
  {
    if s == [] {
      t := ClosedAtEnd(u, st, value, w, escaped);
      assert s + (t + u) == t + u;
    } else {
      assert NulFree(s[1..]);
      match Act(Head(s), st, value) {
        case Move(next) => t := WordCloses(s[1..], u, next, value, w, escaped);
        case OpenQuote => t := WordCloses(s[1..], u, InEscVal, value, w, true);
        case StoreFirst => t := WordCloses(s[1..], u, InVal, value, w + [Head(s)], escaped);
        case Store(next) => t := WordCloses(s[1..], u, next, value, w + [Head(s)], escaped);
      }
      HeadMore(s, t + u);
    }
  }

  /** A word at the end of the text is the same when what follows ends it. */
  lemma {:induction false} WordFollowed(s: Str, u: Str, st: GvState, value: bool, w: Str, escaped: bool)
    requires NulFree(s) && Follows(u, value)
    requires var r := GetVal(s, st, value, w, escaped); r.Word? && r.rest == []
    ensures var r := GetVal(s, st, value, w, escaped); GetVal(s + u, st, value, w, escaped) == Word(r.w, r.escaped, u)
    decreases |s|
  {
    if s == [] {
      assert s + u == u;
    } else {
      HeadMore(s, u);
      assert NulFree(s[1..]);
      match Act(Head(s), st, value)
      case Move(next) => WordFollowed(s[1..], u, next, value, w, escaped);
      case OpenQuote => WordFollowed(s[1..], u, InEscVal, value, w, true);
      case StoreFirst => WordFollowed(s[1..], u, InVal, value, w + [Head(s)], escaped);
      case Store(next) => WordFollowed(s[1..], u, next, value, w + [Head(s)], escaped);
      case _ =>
    }
  }

  lemma EmptyValueReads(lead: Str, k: Str, acc: seq<Pair>)
    requires Spaces(lead)
    ensures Parse(lead + EMPTY_VALUE, WVal, k, acc).Pairs?
  {
    var tok := InQuotes([]);
    assert TokenText(tok) + [] == EMPTY_VALUE;
    TokenReads(lead, tok, [], true);
    ValueStep(lead + EMPTY_VALUE, k, [], true, [], acc);
    CommaStep([], acc + [Pair(k, ValueOf([], true))]);
  }

  lemma ClosingReads(k: Str, acc: seq<Pair>)
    ensures Parse(CLOSING, WEq, k, acc).Pairs? && Parse([GREATER] + EMPTY_VALUE, WGt, k, acc).Pairs?
  {
    EmptyValueReads([], k, acc);
    assert [] + EMPTY_VALUE == EMPTY_VALUE && ([GREATER] + EMPTY_VALUE)[1..] == EMPTY_VALUE;
    assert CLOSING == [EQUALS, GREATER] + EMPTY_VALUE;
    ArrowStep(EMPTY_VALUE, k, acc);
  }

  /** A key, whatever it is, followed by the rest of a pair. */
  lemma KeyClosed(s: Str, acc: seq<Pair>)
    requires NulFree(s)
    requires var r := GetVal(s, WaitVal, false, [], false); r == Bad(OutOfMemory) || (r.Word? && r.rest == CLOSING)
    ensures Acceptable(Parse(s, WKey, [], acc))
  {
    hide GetVal;
    if GetVal(s, WaitVal, false, [], false).Word? {
      var lead, tok, rest := TokenWritten(s, false);
      TokenIsShort(tok, false);
      ClosingReads(GetVal(s, WaitVal, false, [], false).w, acc);
    }
  }

  lemma ValueClosed(s: Str, k: Str, acc: seq<Pair>)
    requires NulFree(s)
    requires var r := GetVal(s, WaitVal, true, [], false); r == Bad(OutOfMemory) || (r.Word? && r.rest == [])
    ensures Acceptable(Parse(s, WVal, k, acc))
  {
    hide GetVal;
    var r := GetVal(s, WaitVal, true, [], false);
    if r.Word? {
      var lead, tok, rest := TokenWritten(s, true);
      TokenIsShort(tok, true);
      CommaStep([], acc + [Pair(k, ValueOf(r.w, r.escaped))]);
    }
  }

  lemma NulFreeMore(s: Str, t: Str)
    requires NulFree(s) && NulFree(t)
    ensures NulFree(s + t)
  {
  }

  /** A text that ended unexpectedly has a continuation that is read, but for the parser's limits. */
  lemma {:induction false} EndIsOpen(s: Str, st: PState, key: Str, acc: seq<Pair>) returns (t: Str)
    requires NulFree(s) && Parse(s, st, key, acc) == Failed(UnexpectedEnd)
    ensures NulFree(t) && Acceptable(Parse(s + t, st, key, acc))
    decreases |s|, 1
  {
    if st.WKey? {
      t := KeyIsOpen(s, acc);
    } else if st.WVal? {
      t := ValueIsOpen(s, key, acc);
    } else if s == [] {
      ClosingReads(key, acc);
      t := if st.WEq? then CLOSING else [GREATER] + EMPTY_VALUE;
      assert s + t == t;
    } else {
      assert NulFree(s[1..]);
      if st.WEq? {
        t := EndIsOpen(s[1..], if s[0] == EQUALS then WGt else WEq, key, acc);
      } else if st.WGt? {
        t := EndIsOpen(s[1..], WVal, key, acc);
      } else {
        t := EndIsOpen(s[1..], if s[0] == COMMA then WKey else WDel, [], acc);
      }
      HeadMore(s, t);
    }
  }

  lemma {:induction false} KeyIsOpen(s: Str, acc: seq<Pair>) returns (t: Str)
    requires NulFree(s) && Parse(s, WKey, [], acc) == Failed(UnexpectedEnd)
    ensures NulFree(t) && Acceptable(Parse(s + t, WKey, [], acc))
    decreases |s|, 0
  {
    var r := GetVal(s, WaitVal, false, [], false);
    if r.Bad? {
      var t0 := WordCloses(s, CLOSING, WaitVal, false, [], false);
      t := t0 + CLOSING;
      NulFreeMore(s, t);
      KeyClosed(s + t, acc);
    } else if r.rest == [] {
      t := CLOSING;
      WordFollowed(s, CLOSING, WaitVal, false, [], false);
      NulFreeMore(s, t);
      KeyClosed(s + t, acc);
    } else {
      RestNulFree(s, false);
      t := EndIsOpen(r.rest, WEq, r.w, acc);
      DecidedStays(s, t, WaitVal, false, [], false);
    }
  }

  lemma {:induction false} ValueIsOpen(s: Str, key: Str, acc: seq<Pair>) returns (t: Str)
    requires NulFree(s) && Parse(s, WVal, key, acc) == Failed(UnexpectedEnd)
    ensures NulFree(t) && Acceptable(Parse(s + t, WVal, key, acc))
    decreases |s|, 0
  {
    var r := GetVal(s, WaitVal, true, [], false);
    if r.NoValue? {
      t := EMPTY_VALUE;
      BlankWritten(s, true);
      EmptyValueReads(s, key, acc);
    } else if r.Bad? {
      t := WordCloses(s, [], WaitVal, true, [], false);
      assert t + [] == t;
      NulFreeMore(s, t);
      ValueClosed(s + t, key, acc);
    } else {
      RestNulFree(s, true);
      t := EndIsOpen(r.rest, WDel, [], acc + [Pair(key, ValueOf(r.w, r.escaped))]);
      DecidedStays(s, t, WaitVal, true, [], false);
    }
  }

  // ----- the two complaints -----

  lemma {:induction false} NeverTooLong(s: Str, st: PState, key: Str, acc: seq<Pair>)
    requires NulFree(s)
    ensures Parse(s, st, key, acc) != Failed(TooLong)
    decreases |s|
  {
    if st.WKey? || st.WVal? {
      var r := GetVal(s, WaitVal, st.WVal?, [], false);
      NoTooLongWord(s, WaitVal, st.WVal?, [], false);
      if r.Word? {
        var lead, tok, rest := TokenWritten(s, st.WVal?);
        TokenIsShort(tok, st.WVal?);
        RestNulFree(s, st.WVal?);
        if st.WKey? { NeverTooLong(r.rest, WEq, r.w, acc); } else { NeverTooLong(r.rest, WDel, [], acc + [Pair(key, ValueOf(r.w, r.escaped))]); }
      }
    } else if s != [] {
      assert NulFree(s[1..]);
      NeverTooLong(s[1..], WEq, key, acc);
      NeverTooLong(s[1..], WGt, key, acc);
      NeverTooLong(s[1..], WVal, key, acc);
      NeverTooLong(s[1..], WKey, [], acc);
      NeverTooLong(s[1..], WDel, [], acc);
    }
  }

  lemma {:induction false} NoTooLongWord(s: Str, st: GvState, value: bool, w: Str, escaped: bool)
    ensures GetVal(s, st, value, w, escaped) != Bad(TooLong)
    decreases |s|
  {
    match Act(Head(s), st, value)
    case Move(next) => NoTooLongWord(s[1..], next, value, w, escaped);
    case OpenQuote => NoTooLongWord(s[1..], InEscVal, value, w, true);
    case StoreFirst => NoTooLongWord(s[1..], InVal, value, w + [Head(s)], escaped);
    case Store(next) => if |w| + 1 < WORD_LIMIT { NoTooLongWord(s[1..], next, value, w + [Head(s)], escaped); }
    case _ =>
  }

  /** Some continuation of the text, perhaps none, is read, but for the parser's limits. */
  ghost predicate CanGoOn(s: Str) {
    exists t: Str :: NulFree(t) && Acceptable(Parse(s + t, WKey, [], []))
  }

  /**
   The parser calls a text a syntax error exactly when no continuation of it is read, and unexpectedly ended exactly when it
   is not read itself and some continuation is.
   */
  lemma ComplaintExactly(s: Str)
    requires NulFree(s)
    ensures Parse(s, WKey, [], []) == Failed(SyntaxError) <==> !CanGoOn(s)
    ensures Parse(s, WKey, [], []) == Failed(UnexpectedEnd) <==> !Acceptable(Parse(s, WKey, [], [])) && CanGoOn(s)
  {
    hide Parse;
    var p := Parse(s, WKey, [], []);
    NeverTooLong(s, WKey, [], []);
    if p == Failed(SyntaxError) {
      forall t: Str | NulFree(t) ensures !Acceptable(Parse(s + t, WKey, [], [])) { SyntaxIsFinal(s, t, WKey, [], []); }
    } else if p == Failed(UnexpectedEnd) {
      var t := EndIsOpen(s, WKey, [], []);
      assert CanGoOn(s);
    } else {
      var none: Str := [];
      assert s + none == s;
      assert p.Failed? ==> p.error == OutOfMemory;
      assert NulFree(none) && Acceptable(Parse(s + none, WKey, [], []));
    }
  }
}

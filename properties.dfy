/**
 * Properties of `Cleks_next`, proved about the functions of `Scan`: when it
 * reports the end of the input, how comments are skipped, the shape of each
 * kind of token, the order in which a candidate word is classified, and
 * what repeated calls produce.
 */
module Properties {
  import opened Wrappers
  import opened Tokens
  import opened Configuration
  import opened Recognizers
  import opened Scan

  /** `Cleks_next` reports the end of input (`End`) exactly when the input is exhausted before a token starts. */
  lemma EndIffExhausted(cfg: Config, consumed: seq<char> -> nat, buf: seq<char>, c: Cursor)
    requires ValidConfig(cfg) && c.index <= |buf|
    ensures NextToken(cfg, consumed, buf, c).0.End? <==> SkipTrivia(cfg, buf, c).Exhausted?
    ensures c.index >= |buf| ==> NextToken(cfg, consumed, buf, c) == (End, c)
  {
  }

  /** Input made only of whitespace, NUL and EOF characters gives the end of input (`End`). */
  lemma TrivialInputEnds(cfg: Config, consumed: seq<char> -> nat, buf: seq<char>, c: Cursor)
    requires ValidConfig(cfg) && c.index <= |buf|
    requires forall j :: c.index <= j < |buf| ==> Trimmable(cfg, buf[j])
    ensures NextToken(cfg, consumed, buf, c).0 == End
    ensures NextToken(cfg, consumed, buf, c).1.index == |buf|
  {
    if c.index < |buf| {
      var t := Trimmed(cfg, buf, c);
      assert t.index == |buf|;
    }
  }

  /**
   * A comment that opens where the trimmed cursor stands is skipped up to
   * and including the first occurrence of its closer after its opener, and
   * `Cleks_next` then starts again from there: trimming, comments, token.
   */
  lemma CommentRestarts(cfg: Config, consumed: seq<char> -> nat, buf: seq<char>, c: Cursor, t: Cursor, k: nat)
    requires ValidConfig(cfg) && c.index < |buf|
    requires t == Trimmed(cfg, buf, c) && t.index < |buf|
    requires FirstComment(cfg.comments, buf, t.index, 0) == Some(k)
    ensures var comment := cfg.comments[k];
      var body := t.index + |comment.startDel|;
      var s := SkipComment(cfg, buf, t, k);
      if s.Found? then
        FirstOccurrence(buf, body, s.at.index - |comment.endDel|, comment.endDel) && s.at.index <= |buf| &&
          NextToken(cfg, consumed, buf, c) == NextToken(cfg, consumed, buf, s.at)
      else
        NoOccurrence(buf, body, comment.endDel) &&
          NextToken(cfg, consumed, buf, c) == (Abort, Cursor(|buf|, s.at.loc))
  {
    TriviaAfterComment(cfg, buf, c);
    SkipCommentCloser(cfg, buf, t, k);
    var s := SkipComment(cfg, buf, t, k);
    if s.Found? {
      SameTriviaSameToken(cfg, consumed, buf, c, s.at);
    }
  }

  /** `Cleks_next` depends on the cursor only through where the whitespace-and-comment loop leaves it. */
  lemma SameTriviaSameToken(cfg: Config, consumed: seq<char> -> nat, buf: seq<char>, c: Cursor, a: Cursor)
    requires ValidConfig(cfg) && c.index <= |buf| && a.index <= |buf|
    requires SkipTrivia(cfg, buf, c) == SkipTrivia(cfg, buf, a)
    ensures NextToken(cfg, consumed, buf, c) == NextToken(cfg, consumed, buf, a)
  {
  }

  /** One round of the whitespace-and-comment loop: after a comment the loop starts again, or stops unterminated. */
  lemma TriviaAfterComment(cfg: Config, buf: seq<char>, c: Cursor)
    requires ValidConfig(cfg) && c.index < |buf|
    requires var t := Trimmed(cfg, buf, c);
      t.index < |buf| && FirstComment(cfg.comments, buf, t.index, 0).Some?
    ensures var t := Trimmed(cfg, buf, c);
      var k := FirstComment(cfg.comments, buf, t.index, 0).value;
      SkipTrivia(cfg, buf, c) ==
        match SkipComment(cfg, buf, t, k)
        case Found(a) => SkipTrivia(cfg, buf, a)
        case Missing(m) => Unterminated(m)
  {
  }

  /** The first offset from `from` on, up to the buffer's end, at which `str` occurs. */
  function FirstFrom(buf: seq<char>, from: nat, str: seq<char>): (r: Option<nat>)
    ensures r.Some? ==> from <= r.value <= |buf|
    decreases |buf| + 1 - from
  {
    if from > |buf| then None
    else if StartsWith(buf, from, str) then Some(from)
    else FirstFrom(buf, from + 1, str)
  }

  /** `FirstFrom` yields the first occurrence, and nothing exactly when there is no occurrence. */
  lemma {:induction false} FirstFromMeaning(buf: seq<char>, from: nat, str: seq<char>)
    ensures FirstFrom(buf, from, str).Some? ==> FirstOccurrence(buf, from, FirstFrom(buf, from, str).value, str)
    ensures FirstFrom(buf, from, str).None? <==> NoOccurrence(buf, from, str)
    decreases |buf| + 1 - from
  {
    if from <= |buf| && !StartsWith(buf, from, str) {
      FirstFromMeaning(buf, from + 1, str);
    }
  }

  /**
   * The input from offset `i` on holds only what the whitespace-and-comment
   * loop of `Cleks_next` skips: whitespace, NUL and EOF characters, and
   * comments, each opened by the first configured comment whose opener occurs
   * there and closed by the first occurrence of its closer after the opener
   * (`FirstFrom`, whose meaning `FirstFromMeaning` states).
   */
  ghost predicate OnlyTrivia(cfg: Config, buf: seq<char>, i: nat)
    requires ValidConfig(cfg)
    decreases |buf| - i
  {
    if i >= |buf| then true
    else if Trimmable(cfg, buf[i]) then OnlyTrivia(cfg, buf, i + 1)
    else
      match FirstComment(cfg.comments, buf, i, 0)
      case None => false
      case Some(k) =>
        var comment := cfg.comments[k];
        assert comment in cfg.comments;
        match FirstFrom(buf, i + |comment.startDel|, comment.endDel)
        case None => false
        case Some(f) => OnlyTrivia(cfg, buf, f + |comment.endDel|)
  }

  /** Trimming neither creates nor removes trivia: the input is trivia from the cursor exactly when it is from the trimmed cursor. */
  lemma {:induction false} OnlyTriviaTrimmed(cfg: Config, buf: seq<char>, c: Cursor)
    requires ValidConfig(cfg) && c.index <= |buf|
    ensures OnlyTrivia(cfg, buf, c.index) <==> OnlyTrivia(cfg, buf, Trimmed(cfg, buf, c).index)
    decreases |buf| - c.index
  {
    if c.index < |buf| && Trimmable(cfg, buf[c.index]) {
      OnlyTriviaTrimmed(cfg, buf, Advance(buf, c));
    }
  }

  /**
   * The whitespace-and-comment loop reaches the end of the buffer exactly
   * when everything from the cursor on is trivia.
   */
  lemma {:induction false} ExhaustedIffOnlyTrivia(cfg: Config, buf: seq<char>, c: Cursor)
    requires ValidConfig(cfg) && c.index <= |buf|
    ensures SkipTrivia(cfg, buf, c).Exhausted? <==> OnlyTrivia(cfg, buf, c.index)
    decreases |buf| - c.index, 1
  {
    if c.index < |buf| {
      var t := Trimmed(cfg, buf, c);
      OnlyTriviaTrimmed(cfg, buf, c);
      if t.index < |buf| {
        match FirstComment(cfg.comments, buf, t.index, 0)
        case None =>
        case Some(k) => ExhaustedAtComment(cfg, buf, c, t, k);
      }
    }
  }

  /** `Cleks__find_string` stops where `FirstFrom` finds the delimiter, and fails exactly when `FirstFrom` finds nothing. */
  lemma {:induction false} SearchStringFirstFrom(buf: seq<char>, c: Cursor, del: seq<char>)
    requires c.index <= |buf|
    ensures SearchString(buf, c, del).Found? <==> FirstFrom(buf, c.index, del).Some?
    ensures SearchString(buf, c, del).Found? ==> SearchString(buf, c, del).at.index == FirstFrom(buf, c.index, del).value
    decreases |buf| - c.index
  {
    if !StartsWith(buf, c.index, del) && c.index < |buf| {
      SearchStringFirstFrom(buf, Advance(buf, c), del);
    }
  }

  /** The comment loop searches for the closer from just past the opener and steps over the closer it finds. */
  lemma SkipCommentSearch(cfg: Config, buf: seq<char>, t: Cursor, k: nat)
    requires ValidConfig(cfg) && t.index <= |buf| && k < |cfg.comments|
    requires StartsWith(buf, t.index, cfg.comments[k].startDel)
    ensures var open := Skipped(buf, t, cfg.comments[k].startDel, 0);
      open.index == t.index + |cfg.comments[k].startDel| &&
      (SkipComment(cfg, buf, t, k).Found? <==> SearchString(buf, open, cfg.comments[k].endDel).Found?) &&
      (SkipComment(cfg, buf, t, k).Found? ==>
         SkipComment(cfg, buf, t, k).at.index == SearchString(buf, open, cfg.comments[k].endDel).at.index + |cfg.comments[k].endDel|)
  {
    var comment := cfg.comments[k];
    assert comment in cfg.comments;
    assert comment.startDel[0..] == comment.startDel;
    assert comment.endDel[0..] == comment.endDel;
  }

  /**
   * The comment loop closes a comment exactly where `FirstFrom` finds its
   * closer from `body`, just past the opener, and misses it exactly when
   * `FirstFrom` does.
   */
  lemma SkipCommentFirstFrom(cfg: Config, buf: seq<char>, t: Cursor, k: nat, body: nat)
    requires ValidConfig(cfg) && t.index <= |buf| && k < |cfg.comments|
    requires StartsWith(buf, t.index, cfg.comments[k].startDel)
    requires body == t.index + |cfg.comments[k].startDel|
    ensures SkipComment(cfg, buf, t, k).Found? <==> FirstFrom(buf, body, cfg.comments[k].endDel).Some?
    ensures SkipComment(cfg, buf, t, k).Found? ==>
      SkipComment(cfg, buf, t, k).at.index == FirstFrom(buf, body, cfg.comments[k].endDel).value + |cfg.comments[k].endDel|
  {
    SkipCommentSearch(cfg, buf, t, k);
    SearchStringFirstFrom(buf, Skipped(buf, t, cfg.comments[k].startDel, 0), cfg.comments[k].endDel);
  }

  /** At a comment opener the input is trivia exactly when the comment's closer occurs from `body` on and the input is trivia after it. */
  lemma OnlyTriviaAtComment(cfg: Config, buf: seq<char>, i: nat, k: nat, body: nat)
    requires ValidConfig(cfg) && i < |buf| && !Trimmable(cfg, buf[i])
    requires FirstComment(cfg.comments, buf, i, 0) == Some(k)
    requires body == i + |cfg.comments[k].startDel|
    ensures var after := FirstFrom(buf, body, cfg.comments[k].endDel);
      OnlyTrivia(cfg, buf, i) <==> (after.Some? && OnlyTrivia(cfg, buf, after.value + |cfg.comments[k].endDel|))
  {
  }

  /**
   * At a comment opener the input is trivia (`here`) exactly when the
   * comment loop closes the comment and the input is trivia after it (`next`).
   */
  lemma OnlyTriviaSkipsComment(cfg: Config, buf: seq<char>, t: Cursor, k: nat, here: bool, next: bool)
    requires ValidConfig(cfg) && t.index < |buf| && !Trimmable(cfg, buf[t.index])
    requires FirstComment(cfg.comments, buf, t.index, 0) == Some(k)
    requires here == OnlyTrivia(cfg, buf, t.index)
    requires var s := SkipComment(cfg, buf, t, k); next == (s.Found? && OnlyTrivia(cfg, buf, s.at.index))
    ensures here == next
  {
    var body := t.index + |cfg.comments[k].startDel|;
    OnlyTriviaAtComment(cfg, buf, t.index, k, body);
    SkipCommentFirstFrom(cfg, buf, t, k, body);
  }

  /** `ExhaustedIffOnlyTrivia` for a cursor whose trimmed position opens comment `k`. */
  lemma {:induction false} ExhaustedAtComment(cfg: Config, buf: seq<char>, c: Cursor, t: Cursor, k: nat)
    requires ValidConfig(cfg) && c.index < |buf|
    requires t == Trimmed(cfg, buf, c) && t.index < |buf|
    requires FirstComment(cfg.comments, buf, t.index, 0) == Some(k)
    ensures SkipTrivia(cfg, buf, c).Exhausted? <==> OnlyTrivia(cfg, buf, t.index)
    decreases |buf| - c.index, 0
  {
    TriviaAfterComment(cfg, buf, c);
    var s := SkipComment(cfg, buf, t, k);
    OnlyTriviaSkipsComment(cfg, buf, t, k, OnlyTrivia(cfg, buf, t.index), s.Found? && OnlyTrivia(cfg, buf, s.at.index));
    if s.Found? {
      ExhaustedIffOnlyTrivia(cfg, buf, s.at);
    }
  }

  /**
   * `Cleks_next` reports the end of the input exactly when everything from
   * the cursor on is whitespace, NUL/EOF characters and closed comments.
   */
  lemma TriviaOnlyEnds(cfg: Config, consumed: seq<char> -> nat, buf: seq<char>, c: Cursor)
    requires ValidConfig(cfg) && c.index <= |buf|
    ensures NextToken(cfg, consumed, buf, c).0 == End <==> OnlyTrivia(cfg, buf, c.index)
  {
    EndIffExhausted(cfg, consumed, buf, c);
    ExhaustedIffOnlyTrivia(cfg, buf, c);
  }

  /** The result of `Cleks_next` once the cursor stands on the first character of a token. */
  function TokenStart(cfg: Config, buf: seq<char>, c: Cursor): (t: Cursor)
    requires ValidConfig(cfg) && c.index <= |buf| && SkipTrivia(cfg, buf, c).Ready?
    ensures t.index < |buf|
  {
    SkipTrivia(cfg, buf, c).at
  }

  /**
   * String delimiters are tried first. A String token spans the text between
   * the opener and the first closer after it, has index 0 and the location of
   * the opener, and leaves the cursor just past the closer; with no closer in
   * the rest of the buffer `Cleks_next` fails its assertion.
   */
  lemma StringTokens(cfg: Config, consumed: seq<char> -> nat, buf: seq<char>, c: Cursor)
    requires ValidConfig(cfg) && c.index <= |buf| && SkipTrivia(cfg, buf, c).Ready?
    requires FirstString(cfg.strings, buf[TokenStart(cfg, buf, c).index], 0).Some?
    ensures var t := TokenStart(cfg, buf, c);
      var closer := cfg.strings[FirstString(cfg.strings, buf[t.index], 0).value].endDel;
      var (r, n) := NextToken(cfg, consumed, buf, c);
      (r.Abort? <==> forall j :: t.index < j < |buf| ==> buf[j] != closer) &&
      (r.Tok? <==> !r.Abort?) &&
      (r.Tok? ==>
         r.token.id == MakeId(Code(String), 0) && r.token.loc == t.loc &&
         r.token.start == t.index + 1 && r.token.end < |buf| && buf[r.token.end] == closer &&
         (forall j :: r.token.start <= j < r.token.end ==> buf[j] != closer) &&
         n.index == r.token.end + 1)
  {
    var t := TokenStart(cfg, buf, c);
    var k := FirstString(cfg.strings, buf[t.index], 0).value;
    assert cfg.strings[k] in cfg.strings;
  }

  /**
   * A character that opens no string but is a configured symbol is a Symbol
   * token of exactly that one character, with the index of the first equal
   * symbol in the configuration. `clekser_inc` moves the column on even when
   * the symbol is a newline.
   */
  lemma SymbolTokens(cfg: Config, consumed: seq<char> -> nat, buf: seq<char>, c: Cursor)
    requires ValidConfig(cfg) && c.index <= |buf| && SkipTrivia(cfg, buf, c).Ready?
    requires var ch := buf[TokenStart(cfg, buf, c).index];
      FirstString(cfg.strings, ch, 0).None? && FirstSymbol(cfg.symbols, ch, 0).Some?
    ensures var t := TokenStart(cfg, buf, c);
      var k := FirstSymbol(cfg.symbols, buf[t.index], 0).value;
      cfg.symbols[k] == buf[t.index] &&
      (forall j :: 0 <= j < k ==> cfg.symbols[j] != buf[t.index]) &&
      NextToken(cfg, consumed, buf, c) ==
        (Tok(Token(MakeId(Code(Symbol), Index32(k)), t.loc, t.index, t.index + 1)),
         Cursor(t.index + 1, Loc(t.loc.row, t.loc.column + 1)))
  {
  }

  /**
   * Any other character starts a candidate word that runs up to the first
   * character that ends a word: a symbol, whitespace, NUL/EOF, a string
   * opener or a comment opener. The candidate is then classified; the cursor
   * stops at its end, `clekser_inc` having moved the column once per character.
   */
  lemma WordTokens(cfg: Config, consumed: seq<char> -> nat, buf: seq<char>, c: Cursor)
    requires ValidConfig(cfg) && c.index <= |buf| && SkipTrivia(cfg, buf, c).Ready?
    requires var ch := buf[TokenStart(cfg, buf, c).index];
      FirstString(cfg.strings, ch, 0).None? && FirstSymbol(cfg.symbols, ch, 0).None?
    ensures var t := TokenStart(cfg, buf, c);
      var (r, n) := NextToken(cfg, consumed, buf, c);
      t.index < n.index <= |buf| && n.loc == Loc(t.loc.row, t.loc.column + (n.index - t.index)) &&
      EndsWord(cfg, buf, n.index) &&
      (forall j :: t.index <= j < n.index ==> !EndsWord(cfg, buf, j)) &&
      '\0' !in buf[t.index..n.index] &&
      match Classify(cfg, consumed, buf, t.index, n.index)
      case Some((ty, i)) => r == Tok(Token(MakeId(Code(ty), i), t.loc, t.index, n.index))
      case None => r == Unrecognized(t.loc, t.index, n.index)
  {
    var t := TokenStart(cfg, buf, c);
    assert !EndsWord(cfg, buf, t.index);
  }

  /**
   * The classification order of a candidate: a configured word first (the
   * first that the candidate is a prefix of, whatever the flags); then, each
   * only when its flag is set, integer, float, hex and binary; then Unknown
   * unless `CLEKS_FLAGS_NO_UNKNOWN` is set, in which case the candidate is
   * rejected. Every kind but Word gets index 0.
   */
  lemma ClassifyOrder(cfg: Config, consumed: seq<char> -> nat, buf: seq<char>, s: nat, e: nat)
    requires s <= e <= |buf|
    ensures var r := Classify(cfg, consumed, buf, s, e);
      var cand := buf[s..e];
      var word := FirstWord(cfg.words, cand, 0);
      var isInt := HasFlag(cfg, FLAGS_INTEGERS) && StrIsInt(cand);
      var isFloat := HasFlag(cfg, FLAGS_FLOATS) && StrIsFloat(consumed, buf[s..], e - s);
      var isHex := HasFlag(cfg, FLAGS_HEX) && StrIsHex(cand);
      var isBin := HasFlag(cfg, FLAGS_BIN) && StrIsBin(cand);
      (word.Some? ==> r == Some((Word, Index32(word.value)))) &&
      (r.Some? && r.value.0 == Word ==> word.Some?) &&
      (r == Some((Integer, 0)) <==> word.None? && isInt) &&
      (r == Some((Float, 0)) <==> word.None? && !isInt && isFloat) &&
      (r == Some((Hex, 0)) <==> word.None? && !isInt && !isFloat && isHex) &&
      (r == Some((Bin, 0)) <==> word.None? && !isInt && !isFloat && !isHex && isBin) &&
      (r == Some((Unknown, 0)) <==>
         word.None? && !isInt && !isFloat && !isHex && !isBin && !HasFlag(cfg, FLAGS_NO_UNKNOWN)) &&
      (r.None? <==>
         word.None? && !isInt && !isFloat && !isHex && !isBin && HasFlag(cfg, FLAGS_NO_UNKNOWN)) &&
      (r.Some? && r.value.0 != Word ==> r.value.1 == 0) &&
      (r.Some? ==> r.value.0 !in {String, Symbol})
  {
  }

  /**
   * With floats enabled, a hex literal that `strtod` consumes whole (C's
   * `strtod` reads hexadecimal floating constants) becomes a Float token: the
   * float test runs before the hex test.
   */
  lemma FloatShadowsHex(cfg: Config, consumed: seq<char> -> nat, buf: seq<char>, s: nat, e: nat)
    requires s <= e <= |buf| && FirstWord(cfg.words, buf[s..e], 0).None?
    requires HasFlag(cfg, FLAGS_FLOATS) && HasFlag(cfg, FLAGS_HEX)
    requires StrIsHex(buf[s..e]) && consumed(buf[s..]) == e - s
    ensures Classify(cfg, consumed, buf, s, e) == Some((Float, 0))
  {
    IntHexBinDisjoint(buf[s..e]);
  }

  /**
   * The tokens of repeated calls of `Cleks_next` from `c` until it stops
   * producing one, and the result that stopped it.
   */
  function Tokenize(cfg: Config, consumed: seq<char> -> nat, buf: seq<char>, c: Cursor): (r: (seq<Token>, NextResult))
    requires ValidConfig(cfg) && c.index <= |buf|
    ensures !r.1.Tok?
    ensures forall t :: t in r.0 ==> c.index <= t.start <= t.end <= |buf|
    decreases |buf| - c.index
  {
    var step := NextToken(cfg, consumed, buf, c);
    if step.0.Tok? then
      var rest := Tokenize(cfg, consumed, buf, step.1);
      ([step.0.token] + rest.0, rest.1)
    else ([], step.0)
  }

  /** Tokens in buffer order, without overlap. */
  predicate Ordered(ts: seq<Token>)
  {
    forall i, j :: 0 <= i < j < |ts| ==> ts[i].end <= ts[j].start
  }

  /** Tokens whose identities all name a token type. */
  predicate AllTyped(ts: seq<Token>)
  {
    forall i :: 0 <= i < |ts| ==> DecodeType(TypeOf(ts[i].id)).Some?
  }

  /** A token that ends before every token of an ordered sequence can be put in front of it. */
  lemma ConsOrdered(t: Token, rest: seq<Token>, bound: nat)
    requires t.end <= bound && Ordered(rest) && AllTyped(rest) && DecodeType(TypeOf(t.id)).Some?
    requires forall u :: u in rest ==> bound <= u.start
    ensures Ordered([t] + rest) && AllTyped([t] + rest)
  {
    var ts := [t] + rest;
    assert forall i :: 1 <= i < |ts| ==> ts[i] == rest[i - 1];
  }

  /**
   * Repeated calls of `Cleks_next` produce tokens in buffer order, without
   * overlap, each with a defined type.
   */
  lemma {:induction false} TokenizeOrdered(cfg: Config, consumed: seq<char> -> nat, buf: seq<char>, c: Cursor)
    requires ValidConfig(cfg) && c.index <= |buf|
    ensures Ordered(Tokenize(cfg, consumed, buf, c).0) && AllTyped(Tokenize(cfg, consumed, buf, c).0)
    decreases |buf| - c.index
  {
    var step := NextToken(cfg, consumed, buf, c);
    if step.0.Tok? {
      TokenizeOrdered(cfg, consumed, buf, step.1);
      var rest := Tokenize(cfg, consumed, buf, step.1).0;
      ConsOrdered(step.0.token, rest, step.1.index);
    }
  }

  /** `b` is `a` or a later place in the text: a later row, or the same row at a column not to the left. */
  predicate NotBefore(a: Loc, b: Loc)
  {
    b.row > a.row || (b.row == a.row && b.column >= a.column)
  }

  /**
   * Tracking a text never moves to an earlier place: a later row, or the
   * same row and a column not to the left. It keeps a 1-based location 1-based.
   */
  lemma TrackForward(loc: Loc, text: seq<char>)
    ensures NotBefore(loc, Track(loc, text))
    ensures Track(loc, text).row >= loc.row
    ensures loc.column >= 1 ==> Track(loc, text).column >= 1
  {
    TrackClosedForm(loc, text);
  }

  /** Skipping whitespace and comments never moves to an earlier place and keeps the column 1-based. */
  lemma {:induction false} SkipTriviaForward(cfg: Config, buf: seq<char>, c: Cursor)
    requires ValidConfig(cfg) && c.index <= |buf|
    ensures NotBefore(c.loc, SkipTrivia(cfg, buf, c).at.loc)
    ensures SkipTrivia(cfg, buf, c).at.loc.row >= c.loc.row
    ensures c.loc.column >= 1 ==> SkipTrivia(cfg, buf, c).at.loc.column >= 1
    decreases |buf| - c.index
  {
    if c.index < |buf| {
      var t := Trimmed(cfg, buf, c);
      TrackForward(c.loc, buf[c.index..t.index]);
      if t.index < |buf| && FirstComment(cfg.comments, buf, t.index, 0).Some? {
        var k := FirstComment(cfg.comments, buf, t.index, 0).value;
        var comment := cfg.comments[k];
        var open := Skipped(buf, t, comment.startDel, 0);
        TrackForward(t.loc, buf[t.index..open.index]);
        var f := SearchString(buf, open, comment.endDel);
        TrackForward(open.loc, buf[open.index..f.at.index]);
        if f.Found? {
          var a := Skipped(buf, f.at, comment.endDel, 0);
          TrackForward(f.at.loc, buf[f.at.index..a.index]);
          SkipTriviaForward(cfg, buf, a);
        }
      }
    }
  }

  /**
   * Lexing a token never moves the cursor to an earlier place, and keeps the
   * column 1-based. (That a token carries the location it starts at is part
   * of `LexAt`'s own contract.)
   */
  lemma LexAtForward(cfg: Config, consumed: seq<char> -> nat, buf: seq<char>, t: Cursor)
    requires ValidConfig(cfg) && t.index < |buf|
    requires !Trimmable(cfg, buf[t.index]) && FirstComment(cfg.comments, buf, t.index, 0).None?
    ensures var n := LexAt(cfg, consumed, buf, t).1;
      NotBefore(t.loc, n.loc) && n.loc.row >= t.loc.row && (t.loc.column >= 1 ==> n.loc.column >= 1)
  {
    match FirstString(cfg.strings, buf[t.index], 0)
    case Some(k) =>
      var closer := cfg.strings[k].endDel;
      assert cfg.strings[k] in cfg.strings;
      var open := Inc(t);
      var f := SearchChar(buf, open, closer);
      TrackForward(open.loc, buf[open.index..f.at.index]);
      assert NotBefore(t.loc, f.at.loc) && (t.loc.column >= 1 ==> f.at.loc.column >= 1);
      assert LexAt(cfg, consumed, buf, t).1 == if f.Found? then Inc(f.at) else f.at;
    case None =>
  }

  /**
   * `Cleks_next` never moves to an earlier place, a token starts no earlier
   * than where the call started and no later than where it ends, and a
   * 1-based location stays 1-based.
   */
  lemma NextForward(cfg: Config, consumed: seq<char> -> nat, buf: seq<char>, c: Cursor)
    requires ValidConfig(cfg) && c.index <= |buf|
    ensures var (r, n) := NextToken(cfg, consumed, buf, c);
      NotBefore(c.loc, n.loc) &&
      (r.Tok? ==> NotBefore(c.loc, r.token.loc) && NotBefore(r.token.loc, n.loc)) &&
      n.loc.row >= c.loc.row &&
      (r.Tok? ==> r.token.loc.row >= c.loc.row) &&
      (c.loc.column >= 1 ==> n.loc.column >= 1 && (r.Tok? ==> r.token.loc.column >= 1))
  {
    SkipTriviaForward(cfg, buf, c);
    var s := SkipTrivia(cfg, buf, c);
    if s.Ready? {
      LexAtForward(cfg, consumed, buf, s.at);
    }
  }

}

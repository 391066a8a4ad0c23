/**
 * The behaviour of `Cleks_next` and of its helpers, as functions of the
 * configuration, the buffer and the cursor. The class `Lexer.Scanner`
 * implements each of them with the loops of the C code and is proved equal
 * to them; the properties of the lexer are proved here about these functions.
 *
 * The buffer is `seq<char>` with `buffer_size == |buf|`. Several C loops read
 * `buffer[index]` without a bounds check and stop at the buffer's NUL
 * terminator; `CharAt` reads `'\0'` at and beyond `|buf|` to stand for it.
 */
module Scan {
  import opened Wrappers
  import opened Tokens
  import opened Configuration
  import opened Recognizers

  /** The scanner's position: the byte offset `index` and its location. */
  datatype Cursor = Cursor(index: nat, loc: Loc)

  /**
   * What one call of `Cleks_next` yields. `End` and `Unrecognized` are the two
   * ways it returns false (the second after printing an error); `Abort` is a
   * failed `cleks_assert`, which ends the process.
   */
  datatype NextResult =
    | Tok(token: Token)
    | End
    | Unrecognized(loc: Loc, start: nat, end: nat)
    | Abort

  /** `EOF` (-1) compared with a signed `char`: the byte 0xFF. */
  const EOF_CHAR: char := 'ÿ'

  /** `clekser__get_char`; at and beyond the buffer's size the terminator `'\0'` is read. */
  function CharAt(buf: seq<char>, i: nat): (ch: char)
  {
    if i < |buf| then buf[i] else '\0'
  }

  /** `cleks__is_special`. */
  predicate IsSpecial(ch: char)
  {
    ch == '\0' || ch == EOF_CHAR
  }

  /** `Cleks__is_whitespace`: the character is one of the configured whitespaces. */
  predicate IsWhitespace(cfg: Config, ch: char)
  {
    ch in cfg.whitespaces
  }

  /** `Cleks__is_symbol`: the character is one of the configured symbols. */
  predicate IsSymbol(cfg: Config, ch: char)
  {
    ch in cfg.symbols
  }

  /** True when the trim loop of `Cleks__trim_left` consumes this character. */
  predicate Trimmable(cfg: Config, ch: char)
  {
    IsWhitespace(cfg, ch) || IsSpecial(ch)
  }

  /** `clekser__check_line`: a newline moves to column 1 of the next row. */
  function NextLoc(loc: Loc, ch: char): (r: Loc)
  {
    if ch == '\n' then Loc(loc.row + 1, 1) else Loc(loc.row, loc.column + 1)
  }

  /** `clekser__check_line` followed by `index++`. */
  function Advance(buf: seq<char>, c: Cursor): (r: Cursor)
  {
    Cursor(c.index + 1, NextLoc(c.loc, CharAt(buf, c.index)))
  }

  /** `clekser_inc`: the column moves on whatever the character is, even `'\n'`. */
  function Inc(c: Cursor): (r: Cursor)
  {
    Cursor(c.index + 1, Loc(c.loc.row, c.loc.column + 1))
  }

  /** The location reached from `loc` by applying `clekser__check_line` to each character of `text`. */
  function Track(loc: Loc, text: seq<char>): (r: Loc)
    decreases |text|
  {
    if text == [] then loc else Track(NextLoc(loc, text[0]), text[1..])
  }

  /** Tracking over a concatenation is tracking over its parts in turn. */
  lemma {:induction false} TrackAppend(loc: Loc, a: seq<char>, b: seq<char>)
    ensures Track(loc, a + b) == Track(Track(loc, a), b)
    decreases |a|
  {
    if a != [] {
      assert (a + b)[1..] == a[1..] + b;
      TrackAppend(NextLoc(loc, a[0]), a[1..], b);
    } else {
      assert a + b == b;
    }
  }

  /** The number of newlines in a text. */
  function Newlines(text: seq<char>): (n: nat)
  {
    if text == [] then 0 else (if text[0] == '\n' then 1 else 0) + Newlines(text[1..])
  }

  /** The number of characters after the last newline of a text (all of them when it has none). */
  function LastLineLength(text: seq<char>): (n: nat)
  {
    if text == [] then 0
    else if text[|text| - 1] == '\n' then 0
    else LastLineLength(text[..|text| - 1]) + 1
  }

  /**
   * Location tracking in closed form: the row grows by the number of
   * newlines consumed; after a newline the column counts from 1, otherwise it
   * grows by the number of characters consumed.
   */
  lemma {:induction false} TrackClosedForm(loc: Loc, text: seq<char>)
    ensures Track(loc, text).row == loc.row + Newlines(text)
    ensures Track(loc, text).column ==
      if Newlines(text) == 0 then loc.column + |text| else LastLineLength(text) + 1
  {
    if text != [] {
      var init, last := text[..|text| - 1], text[|text| - 1];
      assert text == init + [last];
      TrackAppend(loc, init, [last]);
      TrackClosedForm(loc, init);
      NewlinesAppend(init, [last]);
      assert Newlines([last]) == if last == '\n' then 1 else 0;
      assert Track(Track(loc, init), [last]) == NextLoc(Track(loc, init), last);
      assert text[..|text| - 1] == init;
    }
  }

  lemma {:induction false} NewlinesAppend(a: seq<char>, b: seq<char>)
    ensures Newlines(a + b) == Newlines(a) + Newlines(b)
  {
    if a != [] {
      assert (a + b)[0] == a[0] && (a + b)[1..] == a[1..] + b;
      NewlinesAppend(a[1..], b);
    } else {
      assert a + b == b;
    }
  }

  /** The comparison loop of `Cleks__starts_with`, from the `k`-th character of `str`. */
  function MatchesFrom(buf: seq<char>, i: nat, str: seq<char>, k: nat): (r: bool)
    requires k <= |str|
    ensures r <==> k == |str| || (i + |str| <= |buf| && buf[i + k..i + |str|] == str[k..])
    decreases |str| - k
  {
    if k == |str| then true
    else if i + k >= |buf| || buf[i + k] != str[k] then false
    else
      var r := MatchesFrom(buf, i, str, k + 1);
      assert i + |str| <= |buf| ==>
        (buf[i + k..i + |str|] == str[k..] <==>
         buf[i + k] == str[k] && buf[i + k + 1..i + |str|] == str[k + 1..]);
      r
  }

  /**
   * `Cleks__starts_with`: `str` occurs at offset `i`, wholly inside the
   * buffer; the empty string occurs everywhere.
   */
  function StartsWith(buf: seq<char>, i: nat, str: seq<char>): (r: bool)
    ensures r <==> |str| == 0 || (i + |str| <= |buf| && buf[i..i + |str|] == str)
  {
    MatchesFrom(buf, i, str, 0)
  }

  /** The index of the first configured comment whose opener occurs at offset `i`, searching from `from`. */
  function FirstComment(comments: seq<Comment>, buf: seq<char>, i: nat, from: nat): (r: Option<nat>)
    requires from <= |comments|
    ensures r.Some? ==>
      from <= r.value < |comments| && StartsWith(buf, i, comments[r.value].startDel) &&
      forall j :: from <= j < r.value ==> !StartsWith(buf, i, comments[j].startDel)
    ensures r.None? ==> forall j :: from <= j < |comments| ==> !StartsWith(buf, i, comments[j].startDel)
    decreases |comments| - from
  {
    if from == |comments| then None
    else if StartsWith(buf, i, comments[from].startDel) then Some(from)
    else FirstComment(comments, buf, i, from + 1)
  }

  /** The index of the first configured string delimiter that opens with `ch`, searching from `from`. */
  function FirstString(strings: seq<StringDel>, ch: char, from: nat): (r: Option<nat>)
    requires from <= |strings|
    ensures r.Some? ==>
      from <= r.value < |strings| && strings[r.value].startDel == ch &&
      forall j :: from <= j < r.value ==> strings[j].startDel != ch
    ensures r.None? ==> forall j :: from <= j < |strings| ==> strings[j].startDel != ch
    decreases |strings| - from
  {
    if from == |strings| then None
    else if strings[from].startDel == ch then Some(from)
    else FirstString(strings, ch, from + 1)
  }

  /** The index of the first configured symbol equal to `ch`, searching from `from`. */
  function FirstSymbol(symbols: seq<char>, ch: char, from: nat): (r: Option<nat>)
    requires from <= |symbols|
    ensures r.Some? ==>
      from <= r.value < |symbols| && symbols[r.value] == ch &&
      forall j :: from <= j < r.value ==> symbols[j] != ch
    ensures r.None? ==> forall j :: from <= j < |symbols| ==> symbols[j] != ch
    decreases |symbols| - from
  {
    if from == |symbols| then None
    else if symbols[from] == ch then Some(from)
    else FirstSymbol(symbols, ch, from + 1)
  }

  /**
   * `memcmp(candidate, word, len(candidate)) == 0`. The comparison runs over
   * the candidate's length only; the candidate holds no NUL, so it differs from
   * a shorter word at that word's terminator. It therefore holds exactly when
   * the candidate is a prefix of the word.
   */
  predicate WordMatches(cand: seq<char>, word: seq<char>)
  {
    |cand| <= |word| && word[..|cand|] == cand
  }

  /**
   * `memcmp(a, b, |a|) == 0` as a byte loop that stops at the first
   * difference. Running out of `b` counts as a difference. That never
   * happens when `b` ends in a NUL that does not occur in `a`.
   */
  function MemcmpEqual(a: seq<char>, b: seq<char>, k: nat): (r: bool)
    requires k <= |a|
    decreases |a| - k
  {
    if k == |a| then true
    else if k >= |b| then false
    else a[k] == b[k] && MemcmpEqual(a, b, k + 1)
  }

  /**
   * The byte loop from position `k` succeeds exactly when `b` is at least as
   * long as `a` (if any byte is left to compare) and agrees with `a` at every
   * later position.
   */
  lemma {:induction false} MemcmpEqualFrom(a: seq<char>, b: seq<char>, k: nat)
    requires k <= |a|
    ensures MemcmpEqual(a, b, k) <==>
      (k < |a| ==> |a| <= |b|) && forall j :: k <= j < |a| ==> a[j] == b[j]
    decreases |a| - k
  {
    if k < |a| {
      MemcmpEqualFrom(a, b, k + 1);
    }
  }

  /**
   * The word test of `Cleks_next` compares the NUL-free candidate with the
   * word's bytes, its terminator included, over the candidate's length. It
   * therefore succeeds exactly when the candidate is a prefix of the word.
   */
  lemma WordMatchesMemcmp(cand: seq<char>, word: seq<char>)
    requires '\0' !in cand && CString(word)
    ensures WordMatches(cand, word) <==> MemcmpEqual(cand, word + ['\0'], 0)
  {
    var b := word + ['\0'];
    MemcmpEqualFrom(cand, b, 0);
    assert b[|word|] == '\0';
    if MemcmpEqual(cand, b, 0) && |cand| <= |word| {
      assert forall j :: 0 <= j < |cand| ==> word[..|cand|][j] == cand[j];
    }
    if WordMatches(cand, word) {
      assert forall j :: 0 <= j < |cand| ==> b[j] == word[..|cand|][j];
    }
  }

  /** The index of the first configured word that `cand` matches, searching from `from`. */
  function FirstWord(words: seq<seq<char>>, cand: seq<char>, from: nat): (r: Option<nat>)
    requires from <= |words|
    ensures r.Some? ==>
      from <= r.value < |words| && WordMatches(cand, words[r.value]) &&
      forall j :: from <= j < r.value ==> !WordMatches(cand, words[j])
    ensures r.None? ==> forall j :: from <= j < |words| ==> !WordMatches(cand, words[j])
    decreases |words| - from
  {
    if from == |words| then None
    else if WordMatches(cand, words[from]) then Some(from)
    else FirstWord(words, cand, from + 1)
  }

  /**
   * `Cleks__trim_left`: skip configured whitespace and NUL/EOF characters,
   * tracking the location. The loop is bounded by the buffer size.
   */
  function Trimmed(cfg: Config, buf: seq<char>, c: Cursor): (r: Cursor)
    requires c.index <= |buf|
    ensures c.index <= r.index <= |buf|
    ensures forall j :: c.index <= j < r.index ==> Trimmable(cfg, buf[j])
    ensures r.index == |buf| || !Trimmable(cfg, buf[r.index])
    ensures r.loc == Track(c.loc, buf[c.index..r.index])
    decreases |buf| - c.index
  {
    if c.index < |buf| && Trimmable(cfg, buf[c.index]) then
      var r := Trimmed(cfg, buf, Advance(buf, c));
      assert buf[c.index..r.index][1..] == buf[c.index + 1..r.index];
      r
    else c
  }

  /**
   * `Cleks__skip_string`: step over the characters of `str[k..]` while they
   * match the buffer.
   */
  function Skipped(buf: seq<char>, c: Cursor, str: seq<char>, k: nat): (r: Cursor)
    requires k <= |str| && c.index <= |buf| && CString(str)
    ensures c.index <= r.index <= |buf| && r.index - c.index <= |str| - k
    ensures r.loc == Track(c.loc, buf[c.index..r.index])
    ensures StartsWith(buf, c.index, str[k..]) ==> r.index == c.index + |str| - k
    decreases |str| - k
  {
    if k < |str| && CharAt(buf, c.index) == str[k] then
      assert c.index < |buf|;
      var r := Skipped(buf, Advance(buf, c), str, k + 1);
      assert buf[c.index..r.index][1..] == buf[c.index + 1..r.index];
      assert StartsWith(buf, c.index, str[k..]) ==> buf[c.index + 1..c.index + |str| - k] == str[k + 1..];
      r
    else
      c
  }

  /** Where a search for a delimiter stopped: on the delimiter, or at the buffer's end without it. */
  datatype Search = Found(at: Cursor) | Missing(at: Cursor)

  /**
   * `Cleks__find_string`: advance until `del` occurs at the cursor. Reaching
   * the buffer's end first fails its `cleks_assert`. The search does not look
   * for comments.
   */
  function SearchString(buf: seq<char>, c: Cursor, del: seq<char>): (r: Search)
    requires c.index <= |buf|
    ensures c.index <= r.at.index <= |buf|
    ensures r.Found? ==> StartsWith(buf, r.at.index, del)
    ensures r.Missing? ==> r.at.index == |buf| && !StartsWith(buf, |buf|, del)
    ensures forall j :: c.index <= j < r.at.index ==> !StartsWith(buf, j, del)
    ensures r.at.loc == Track(c.loc, buf[c.index..r.at.index])
    decreases |buf| - c.index
  {
    if StartsWith(buf, c.index, del) then Found(c)
    else if c.index >= |buf| then Missing(c)
    else
      var r := SearchString(buf, Advance(buf, c), del);
      assert buf[c.index..r.at.index][1..] == buf[c.index + 1..r.at.index];
      r
  }

  /**
   * `Cleks__find_char`: advance until the character at the cursor is `del`.
   * Reaching the buffer's end first fails its `cleks_assert`.
   */
  function SearchChar(buf: seq<char>, c: Cursor, del: char): (r: Search)
    requires c.index <= |buf| && del != '\0'
    ensures c.index <= r.at.index <= |buf|
    ensures r.Found? ==> r.at.index < |buf| && buf[r.at.index] == del
    ensures r.Missing? ==> r.at.index == |buf|
    ensures forall j :: c.index <= j < r.at.index ==> buf[j] != del
    ensures r.at.loc == Track(c.loc, buf[c.index..r.at.index])
    decreases |buf| - c.index
  {
    if CharAt(buf, c.index) == del then Found(c)
    else if c.index >= |buf| then Missing(c)
    else
      var r := SearchChar(buf, Advance(buf, c), del);
      assert buf[c.index..r.at.index][1..] == buf[c.index + 1..r.at.index];
      r
  }

  /** Where the whitespace-and-comment loop of `Cleks_next` left the cursor. */
  datatype Trivia =
    | Ready(at: Cursor)          // on the first character of a token
    | Exhausted(at: Cursor)      // at the buffer's end: no token
    | Unterminated(at: Cursor)   // a comment was not closed

  /** `str` occurs at offset `f` and nowhere from `from` up to `f`: `f` is its first occurrence from `from`. */
  predicate FirstOccurrence(buf: seq<char>, from: nat, f: int, str: seq<char>)
  {
    from <= f && StartsWith(buf, f, str) && forall j :: from <= j < f ==> !StartsWith(buf, j, str)
  }

  /** `str` occurs nowhere from offset `from` to the buffer's end. */
  predicate NoOccurrence(buf: seq<char>, from: nat, str: seq<char>)
  {
    forall j :: from <= j <= |buf| ==> !StartsWith(buf, j, str)
  }

  /** The comment skipped when comment `k` opens at the trimmed cursor `t`. */
  function SkipComment(cfg: Config, buf: seq<char>, t: Cursor, k: nat): (r: Search)
    requires ValidConfig(cfg) && t.index <= |buf| && k < |cfg.comments|
    requires StartsWith(buf, t.index, cfg.comments[k].startDel)
    ensures r.Found? ==> t.index < r.at.index <= |buf|
    ensures r.Missing? ==> r.at.index == |buf|
  {
    var comment := cfg.comments[k];
    assert comment in cfg.comments;
    var open := Skipped(buf, t, comment.startDel, 0);
    assert comment.startDel[0..] == comment.startDel;
    match SearchString(buf, open, comment.endDel)
    case Missing(m) => Missing(m)
    case Found(f) =>
      assert comment.endDel[0..] == comment.endDel;
      Found(Skipped(buf, f, comment.endDel, 0))
  }

  /**
   * The comment's closer is searched from just past its opener: a skipped
   * comment ends just past the first occurrence of its closer there, and an
   * unterminated one has no occurrence of it up to the buffer's end.
   */
  lemma SkipCommentCloser(cfg: Config, buf: seq<char>, t: Cursor, k: nat)
    requires ValidConfig(cfg) && t.index <= |buf| && k < |cfg.comments|
    requires StartsWith(buf, t.index, cfg.comments[k].startDel)
    ensures var r, body, closer := SkipComment(cfg, buf, t, k), t.index + |cfg.comments[k].startDel|, cfg.comments[k].endDel;
      r.Found? ==> FirstOccurrence(buf, body, r.at.index - |closer|, closer)
    ensures var r, body, closer := SkipComment(cfg, buf, t, k), t.index + |cfg.comments[k].startDel|, cfg.comments[k].endDel;
      r.Missing? ==> NoOccurrence(buf, body, closer)
  {
  }

  /**
   * Lines 187-208 of `Cleks_next`: stop at the buffer's end, trim, stop at the
   * buffer's end, skip the first comment that opens here (in configuration
   * order) and start again; leave the loop when no comment opens.
   */
  function SkipTrivia(cfg: Config, buf: seq<char>, c: Cursor): (r: Trivia)
    requires ValidConfig(cfg) && c.index <= |buf|
    ensures c.index <= r.at.index <= |buf|
    ensures r.Ready? ==>
      r.at.index < |buf| && !Trimmable(cfg, buf[r.at.index]) &&
      FirstComment(cfg.comments, buf, r.at.index, 0).None?
    ensures !r.Ready? ==> r.at.index == |buf|
    decreases |buf| - c.index
  {
    if c.index >= |buf| then Exhausted(c)
    else
      var t := Trimmed(cfg, buf, c);
      if t.index >= |buf| then Exhausted(t)
      else
        match FirstComment(cfg.comments, buf, t.index, 0)
        case None => Ready(t)
        case Some(k) =>
          match SkipComment(cfg, buf, t, k)
          case Missing(m) => Unterminated(m)
          case Found(after) => SkipTrivia(cfg, buf, after)
  }

  /**
   * True when the word scan of `Cleks_next` stops at offset `i`: a symbol,
   * whitespace, NUL/EOF, a string opener or the opener of a comment.
   */
  predicate EndsWord(cfg: Config, buf: seq<char>, i: nat)
  {
    var ch := CharAt(buf, i);
    IsSymbol(cfg, ch) || IsWhitespace(cfg, ch) || IsSpecial(ch) ||
    FirstString(cfg.strings, ch, 0).Some? ||
    FirstComment(cfg.comments, buf, i, 0).Some?
  }

  /** The greedy word scan of `Cleks_next` (lines 244-264): `clekser_inc` until `EndsWord`. */
  function WordEnd(cfg: Config, buf: seq<char>, c: Cursor): (r: Cursor)
    requires c.index <= |buf|
    ensures c.index <= r.index <= |buf| && EndsWord(cfg, buf, r.index)
    ensures forall j :: c.index <= j < r.index ==> !EndsWord(cfg, buf, j)
    ensures r.loc == Loc(c.loc.row, c.loc.column + (r.index - c.index))
    ensures '\0' !in buf[c.index..r.index]
    decreases |buf| - c.index
  {
    if EndsWord(cfg, buf, c.index) then c
    else
      var r := WordEnd(cfg, buf, Inc(c));
      assert buf[c.index..r.index] == [buf[c.index]] + buf[c.index + 1..r.index];
      r
  }

  /**
   * The classification of the candidate `buf[s..e]` (lines 267-297): the first
   * matching configured word; otherwise integer, float, hex, binary, each
   * gated by its flag; otherwise unknown unless `CLEKS_FLAGS_NO_UNKNOWN` is set.
   * `consumed` stands for `strtod`; the text it sees starts at the candidate.
   */
  function Classify(cfg: Config, consumed: seq<char> -> nat, buf: seq<char>, s: nat, e: nat): (r: Option<(TokenType, bv32)>)
    requires s <= e <= |buf|
  {
    var cand := buf[s..e];
    match FirstWord(cfg.words, cand, 0)
    case Some(k) => Some((Word, Index32(k)))
    case None =>
      if HasFlag(cfg, FLAGS_INTEGERS) && StrIsInt(cand) then Some((Integer, 0))
      else if HasFlag(cfg, FLAGS_FLOATS) && StrIsFloat(consumed, buf[s..], e - s) then Some((Float, 0))
      else if HasFlag(cfg, FLAGS_HEX) && StrIsHex(cand) then Some((Hex, 0))
      else if HasFlag(cfg, FLAGS_BIN) && StrIsBin(cand) then Some((Bin, 0))
      else if !HasFlag(cfg, FLAGS_NO_UNKNOWN) then Some((Unknown, 0))
      else None
  }

  /** Lines 213-297 of `Cleks_next`: lex the token that starts at the cursor. */
  function LexAt(cfg: Config, consumed: seq<char> -> nat, buf: seq<char>, c: Cursor): (r: (NextResult, Cursor))
    requires ValidConfig(cfg) && c.index < |buf|
    requires !Trimmable(cfg, buf[c.index]) && FirstComment(cfg.comments, buf, c.index, 0).None?
    ensures c.index < r.1.index <= |buf| || (r.0.Abort? && r.1.index == |buf|)
    ensures r.0.Tok? ==> c.index <= r.0.token.start <= r.0.token.end <= r.1.index
    ensures r.0.Tok? ==> r.0.token.loc == c.loc && DecodeType(TypeOf(r.0.token.id)).Some?
    ensures r.0.Unrecognized? ==> r.0.start == c.index < r.0.end == r.1.index
    ensures !r.0.End?
  {
    var ch := buf[c.index];
    match FirstString(cfg.strings, ch, 0)
    case Some(k) =>
      var closer := cfg.strings[k].endDel;
      assert cfg.strings[k] in cfg.strings;
      var open := Inc(c);
      (match SearchChar(buf, open, closer)
       case Missing(m) => (Abort, m)
       case Found(f) => (Tok(Token(MakeId(Code(String), 0), c.loc, open.index, f.index)), Inc(f)))
    case None =>
      match FirstSymbol(cfg.symbols, ch, 0)
      case Some(k) => (Tok(Token(MakeId(Code(Symbol), Index32(k)), c.loc, c.index, c.index + 1)), Inc(c))
      case None =>
        assert !EndsWord(cfg, buf, c.index);
        WordToken(cfg, consumed, buf, c)
  }

  /** Lines 241-297 of `Cleks_next`: scan the candidate word and classify it. */
  function WordToken(cfg: Config, consumed: seq<char> -> nat, buf: seq<char>, c: Cursor): (r: (NextResult, Cursor))
    requires c.index < |buf| && !EndsWord(cfg, buf, c.index)
    ensures c.index < r.1.index <= |buf| && EndsWord(cfg, buf, r.1.index)
    ensures r.0.Tok? || r.0.Unrecognized?
    ensures r.0.Tok? ==> r.0.token.loc == c.loc && r.0.token.start == c.index && r.0.token.end == r.1.index
    ensures r.0.Tok? ==> DecodeType(TypeOf(r.0.token.id)).Some?
    ensures r.0.Unrecognized? ==> r.0.loc == c.loc && r.0.start == c.index && r.0.end == r.1.index
  {
    var e := WordEnd(cfg, buf, c);
    match Classify(cfg, consumed, buf, c.index, e.index)
    case Some((t, i)) => (Tok(Token(MakeId(Code(t), i), c.loc, c.index, e.index)), e)
    case None => (Unrecognized(c.loc, c.index, e.index), e)
  }

  /**
   * `Cleks_next` from cursor `c`: the result and the new cursor. A token is
   * produced only by moving forward, lies between the old and the new cursor,
   * and has a defined type; "no token" leaves the cursor at the buffer's end.
   */
  function NextToken(cfg: Config, consumed: seq<char> -> nat, buf: seq<char>, c: Cursor): (r: (NextResult, Cursor))
    requires ValidConfig(cfg) && c.index <= |buf|
    ensures c.index <= r.1.index <= |buf|
    ensures r.0.Tok? ==> c.index <= r.0.token.start <= r.0.token.end <= r.1.index && c.index < r.1.index
    ensures r.0.Tok? ==> DecodeType(TypeOf(r.0.token.id)).Some?
    ensures r.0.Unrecognized? ==> c.index <= r.0.start < r.0.end == r.1.index
    ensures r.0.End? || r.0.Abort? ==> r.1.index == |buf|
  {
    match SkipTrivia(cfg, buf, c)
    case Exhausted(x) => (End, x)
    case Unterminated(x) => (Abort, x)
    case Ready(t) => LexAt(cfg, consumed, buf, t)
  }

  /**
   * The caller's `CleksToken` after `Cleks_next`. The end of input is reported
   * before the `memset` at line 210, so the token is left as it was. After the
   * `memset` the produced token is set; an unrecognised word sets nothing, so
   * the token stays all zero (the null span pointers are offsets 0 here). After
   * an abort the process has ended and the token is never read.
   */
  function CallerToken(prev: Token, r: NextResult): (t: Token)
  {
    match r
    case Tok(token) => token
    case Unrecognized(_, _, _) => Token(0, Loc(0, 0), 0, 0)
    case _ => prev
  }

  /**
   * After an unrecognised word the caller's token reads as a match of the first
   * configured word, at row 0 and column 0, with an empty span; after the end of
   * input it is still the token of the previous call.
   */
  lemma ZeroedTokenAfterUnrecognized(prev: Token, r: NextResult)
    ensures r.Unrecognized? ==>
      var t := CallerToken(prev, r);
      DecodeType(TypeOf(t.id)) == Some(Word) && IndexOf(t.id) == 0 &&
      t.loc == Loc(0, 0) && t.start == t.end
    ensures r.End? ==> CallerToken(prev, r) == prev
    ensures r.Tok? ==> CallerToken(prev, r) == r.token
  {
  }

}

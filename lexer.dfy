/**
 * `Clekser` and the operations that advance it: `Cleks_create`,
 * `Cleks_next`, `Cleks_expect` and the private helpers that move the cursor.
 * Each method runs the loops of the C code and is proved to leave the
 * scanner where the corresponding function of `Scan` says.
 */
module Lexer {
  import opened Wrappers
  import opened Tokens
  import opened Configuration
  import opened Recognizers
  import opened Scan

  /** What `Cleks_expect` yields: the token it writes, a `false` return, or an aborted process. */
  datatype ExpectResult = Accepted(token: Token) | Rejected | Aborted

  /**
   * `Clekser`. The buffer and the configuration are fixed for the scanner's
   * lifetime; the cursor `index` and the location `row`/`column` move.
   * `strtod` stands for libc's `strtod`: how many characters it consumes from
   * the text it is given.
   */
  class Scanner {
    const buffer: seq<char>
    const config: Config
    const strtod: seq<char> -> nat
    var index: nat
    var row: nat
    var column: nat

    /** The configuration is usable, the cursor is inside the buffer and the location is 1-based. */
    ghost predicate Valid()
      reads this
    {
      ValidConfig(config) && index <= |buffer| && row >= 1 && column >= 1
    }

    /** The cursor as a value. */
    function Position(): (r: Cursor)
      reads this
    {
      Cursor(index, Loc(row, column))
    }

    /** `Cleks_create`: the cursor starts at offset 0, row 1, column 1. */
    constructor (buffer: seq<char>, config: Config, strtod: seq<char> -> nat)
      requires ValidConfig(config)
      ensures Valid()
      ensures this.buffer == buffer && this.config == config && this.strtod == strtod
      ensures index == 0 && row == 1 && column == 1
    {
      this.buffer := buffer;
      this.config := config;
      this.strtod := strtod;
      index := 0;
      row := 1;
      column := 1;
    }

    /** `clekser__check_line` followed by `index++`. */
    method Step()
      requires Valid() && index < |buffer|
      modifies this
      ensures Valid()
      ensures Position() == Advance(buffer, old(Position()))
    {
      if buffer[index] == '\n' {
        row := row + 1;
        column := 1;
      } else {
        column := column + 1;
      }
      index := index + 1;
    }

    /** `clekser_inc`. */
    method Bump()
      requires Valid() && index < |buffer|
      modifies this
      ensures Valid()
      ensures Position() == Inc(old(Position()))
    {
      index := index + 1;
      column := column + 1;
    }

    /** `Cleks__trim_left`. */
    method TrimLeft()
      requires Valid()
      modifies this
      ensures Valid()
      ensures Position() == Trimmed(config, buffer, old(Position()))
    {
      while index < |buffer| && (IsWhitespace(config, buffer[index]) || IsSpecial(buffer[index]))
        invariant Valid()
        invariant Trimmed(config, buffer, Position()) == Trimmed(config, buffer, old(Position()))
        decreases |buffer| - index
      {
        Step();
      }
    }

    /** `Cleks__skip_string`. */
    method SkipString(str: seq<char>)
      requires Valid() && CString(str)
      modifies this
      ensures Valid()
      ensures Position() == Skipped(buffer, old(Position()), str, 0)
    {
      var k := 0;
      while k < |str| && CharAt(buffer, index) == str[k]
        invariant Valid() && k <= |str|
        invariant Skipped(buffer, Position(), str, k) == Skipped(buffer, old(Position()), str, 0)
        decreases |str| - k
      {
        Step();
        k := k + 1;
      }
    }

    /** `Cleks__find_string`; `found` is false where its `cleks_assert` fails. */
    method FindString(del: seq<char>) returns (found: bool)
      requires Valid()
      modifies this
      ensures Valid()
      ensures found == SearchString(buffer, old(Position()), del).Found?
      ensures Position() == SearchString(buffer, old(Position()), del).at
    {
      while !StartsWith(buffer, index, del)
        invariant Valid()
        invariant SearchString(buffer, Position(), del) == SearchString(buffer, old(Position()), del)
        decreases |buffer| - index
      {
        if index >= |buffer| {
          return false;
        }
        Step();
      }
      return true;
    }

    /** `Cleks__find_char`; `found` is false where its `cleks_assert` fails. */
    method FindChar(del: char) returns (found: bool)
      requires Valid() && del != '\0'
      modifies this
      ensures Valid()
      ensures found == SearchChar(buffer, old(Position()), del).Found?
      ensures Position() == SearchChar(buffer, old(Position()), del).at
    {
      while CharAt(buffer, index) != del
        invariant Valid()
        invariant SearchChar(buffer, Position(), del) == SearchChar(buffer, old(Position()), del)
        decreases |buffer| - index
      {
        if index >= |buffer| {
          return false;
        }
        Step();
      }
      return true;
    }

    /** The loop over the comments of `Cleks_next` (lines 195-198, 256-257): the first one that opens here. */
    method MatchComment() returns (k: Option<nat>)
      ensures k == FirstComment(config.comments, buffer, index, 0)
    {
      for i := 0 to |config.comments|
        invariant FirstComment(config.comments, buffer, index, i) == FirstComment(config.comments, buffer, index, 0)
      {
        if StartsWith(buffer, index, config.comments[i].startDel) {
          return Some(i);
        }
      }
      return None;
    }

    /** The loop over the string delimiters of `Cleks_next` (lines 213-215, 249-250): the first that opens with `ch`. */
    method MatchString(ch: char) returns (k: Option<nat>)
      ensures k == FirstString(config.strings, ch, 0)
    {
      for i := 0 to |config.strings|
        invariant FirstString(config.strings, ch, i) == FirstString(config.strings, ch, 0)
      {
        if config.strings[i].startDel == ch {
          return Some(i);
        }
      }
      return None;
    }

    /** The loop over the symbols of `Cleks_next` (lines 230-231): the first equal to `ch`. */
    method MatchSymbol(ch: char) returns (k: Option<nat>)
      ensures k == FirstSymbol(config.symbols, ch, 0)
    {
      for i := 0 to |config.symbols|
        invariant FirstSymbol(config.symbols, ch, i) == FirstSymbol(config.symbols, ch, 0)
      {
        if config.symbols[i] == ch {
          return Some(i);
        }
      }
      return None;
    }

    /** The loop over the words of `Cleks_next` (lines 267-269): the first that `buffer[s..e]` matches. */
    method MatchWord(s: nat, e: nat) returns (k: Option<nat>)
      requires s <= e <= |buffer|
      ensures k == FirstWord(config.words, buffer[s..e], 0)
    {
      for i := 0 to |config.words|
        invariant FirstWord(config.words, buffer[s..e], i) == FirstWord(config.words, buffer[s..e], 0)
      {
        if WordMatches(buffer[s..e], config.words[i]) {
          return Some(i);
        }
      }
      return None;
    }

    /**
     * Lines 187-208 of `Cleks_next`: trim, then skip the first comment that
     * opens here, until no comment opens or the buffer is exhausted.
     */
    method SkipSpaceAndComments() returns (t: Trivia)
      requires Valid()
      modifies this
      ensures Valid()
      ensures t == SkipTrivia(config, buffer, old(Position())) && Position() == t.at
    {
      ghost var trivia := SkipTrivia(config, buffer, Position());
      while true
        invariant Valid()
        invariant SkipTrivia(config, buffer, Position()) == trivia
        decreases |buffer| - index
      {
        if index >= |buffer| {
          return Exhausted(Position());
        }
        TrimLeft();
        if index >= |buffer| {
          return Exhausted(Position());
        }
        var k := MatchComment();
        if k.None? {
          return Ready(Position());
        }
        var comment := config.comments[k.value];
        assert comment in config.comments;
        SkipString(comment.startDel);
        var closed := FindString(comment.endDel);
        if !closed {
          return Unterminated(Position());
        }
        SkipString(comment.endDel);
      }
    }

    /** Lines 241-264 of `Cleks_next`: the greedy word scan, `clekser_inc` until a character ends the word. */
    method ScanWord()
      requires Valid()
      modifies this
      ensures Valid()
      ensures Position() == WordEnd(config, buffer, old(Position()))
    {
      while true
        invariant Valid()
        invariant WordEnd(config, buffer, Position()) == WordEnd(config, buffer, old(Position()))
        decreases |buffer| - index
      {
        var c := CharAt(buffer, index);
        if IsSymbol(config, c) || IsWhitespace(config, c) || IsSpecial(c) {
          break;
        }
        var sd := MatchString(c);
        if sd.Some? {
          break;
        }
        var cm := MatchComment();
        if cm.Some? {
          break;
        }
        Bump();
      }
    }

    /** Lines 265-297 of `Cleks_next`: the type and index the candidate `buffer[start..end]` gets, if any. */
    method ClassifyCandidate(start: nat, end: nat) returns (kind: Option<(TokenType, bv32)>)
      requires start <= end <= |buffer|
      ensures kind == Classify(config, strtod, buffer, start, end)
    {
      var cand := buffer[start..end];
      var w := MatchWord(start, end);
      if w.Some? {
        return Some((Word, Index32(w.value)));
      }
      if HasFlag(config, FLAGS_INTEGERS) && StrIsInt(cand) {
        return Some((Integer, 0));
      }
      if HasFlag(config, FLAGS_FLOATS) && StrIsFloat(strtod, buffer[start..], end - start) {
        return Some((Float, 0));
      }
      if HasFlag(config, FLAGS_HEX) && StrIsHex(cand) {
        return Some((Hex, 0));
      }
      if HasFlag(config, FLAGS_BIN) && StrIsBin(cand) {
        return Some((Bin, 0));
      }
      if !HasFlag(config, FLAGS_NO_UNKNOWN) {
        return Some((Unknown, 0));
      }
      return None;
    }

    /** Lines 241-297 of `Cleks_next`: scan the candidate word and classify it. */
    method LexWord() returns (r: NextResult)
      requires Valid() && index < |buffer| && !EndsWord(config, buffer, index)
      modifies this
      ensures Valid()
      ensures (r, Position()) == WordToken(config, strtod, buffer, old(Position()))
    {
      var start := index;
      var startLoc := Loc(row, column);
      ScanWord();
      var kind := ClassifyCandidate(start, index);
      match kind
      case Some((t, i)) =>
        r := Tok(Token(MakeId(Code(t), i), startLoc, start, index));
      case None =>
        r := Unrecognized(startLoc, start, index);
    }

    /** `Cleks_next`. */
    method Next() returns (r: NextResult)
      requires Valid()
      modifies this
      ensures Valid()
      ensures (r, Position()) == NextToken(config, strtod, buffer, old(Position()))
    {
      var trivia := SkipSpaceAndComments();
      if trivia.Exhausted? {
        return End;
      }
      if trivia.Unterminated? {
        return Abort;
      }
      var ch := buffer[index];
      // strings
      var s := MatchString(ch);
      if s.Some? {
        var closer := config.strings[s.value].endDel;
        assert config.strings[s.value] in config.strings;
        var startLoc := Loc(row, column);
        Bump();
        var start := index;
        var closed := FindChar(closer);
        if !closed {
          return Abort;
        }
        r := Tok(Token(MakeId(Code(String), 0), startLoc, start, index));
        Bump();
        return;
      }
      // symbols
      var y := MatchSymbol(ch);
      if y.Some? {
        r := Tok(Token(MakeId(Code(Symbol), Index32(y.value)), Loc(row, column), index, index + 1));
        Bump();
        return;
      }
      // words, numbers and unknown text
      r := LexWord();
    }

    /**
     * `Cleks_expect`: the next token, accepted when its type is the expected
     * one and its index is the expected one or the expected index is
     * `CLEKS_ANY_ID`. The caller's token is written only on acceptance.
     */
    method Expect(id: bv64) returns (r: ExpectResult)
      requires Valid()
      modifies this
      ensures Valid()
      ensures Position() == NextToken(config, strtod, buffer, old(Position())).1
      ensures var n := NextToken(config, strtod, buffer, old(Position())).0;
        (r.Accepted? <==> n.Tok? && IdMatches(n.token.id, id)) &&
        (r.Accepted? ==> r.token == n.token) &&
        (r.Aborted? <==> n.Abort?)
    {
      var next := Next();
      if next.Abort? {
        return Aborted;
      }
      if !next.Tok? {
        return Rejected;
      }
      var expectedType := TypeOf(id);
      var expectedIndex := IndexOf(id);
      if TypeOf(next.token.id) != expectedType || (expectedIndex != ANY_ID && IndexOf(next.token.id) != expectedIndex) {
        return Rejected;
      }
      return Accepted(next.token);
    }
  }

}

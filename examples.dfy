/**
 * The configuration of the repository's JSON example lexer
 * (`examples/json_lexer.c`), and concrete lexing facts about it.
 */
module Examples {
  import opened Tokens
  import opened Configuration
  import opened Scan
  import opened Wrappers
  import opened Extraction
  import opened Properties

  /** `JsonConfig`: words `true`, `false`, `null`; JSON's punctuation in enumerator order; double-quoted strings. */
  const JsonConfig: Config := Config(
    ["true", "false", "null"],
    "{}[],:",
    [],
    [StringDel('"', '"')],
    " \n",
    FLAGS_ALL)

  /** A `strtod` that converts nothing. */
  function NoFloat(text: seq<char>): (r: nat)
  {
    0
  }

  lemma JsonConfigValid()
    ensures ValidConfig(JsonConfig)
  {
  }

  /** Word matching compares only the candidate's length: `tr` is the word `true`. */
  lemma PrefixIsWord()
    ensures Classify(JsonConfig, NoFloat, "tr", 0, 2) == Some((Word, 0))
    ensures Classify(JsonConfig, NoFloat, "nul", 0, 3) == Some((Word, 2))
  {
    assert "tr"[0..2] == "tr" && "true"[..2] == "tr";
    assert FirstWord(JsonConfig.words, "tr", 0) == Some(0);
    assert "nul"[0..3] == "nul" && "null"[..3] == "nul";
    assert "true"[..3][0] == 't' && "false"[..3][0] == 'f';
    assert FirstWord(JsonConfig.words, "nul", 0) == Some(2);
    assert Index32(0) == 0 && Index32(2) == 2;
  }

  /** A lone sign is an integer token. */
  lemma LoneSignExample()
    ensures Classify(JsonConfig, NoFloat, "-", 0, 1) == Some((Integer, 0))
  {
    assert "-"[0..1] == "-";
    assert "true"[..1][0] == 't' && "false"[..1][0] == 'f' && "null"[..1][0] == 'n';
  }

  /** A word stops at a symbol. */
  lemma WordStopsAtSymbol()
    ensures WordEnd(JsonConfig, "ab,", Cursor(0, Loc(1, 1))) == Cursor(2, Loc(1, 3))
  {
    assert !EndsWord(JsonConfig, "ab,", 0) && !EndsWord(JsonConfig, "ab,", 1);
    assert EndsWord(JsonConfig, "ab,", 2);
  }

  /** A newline skipped as whitespace starts a new row at column 1. */
  lemma NewlineStartsRow()
    ensures Trimmed(JsonConfig, "\n b", Cursor(0, Loc(1, 1))) == Cursor(2, Loc(2, 2))
  {
  }

  /**
   * Under the JSON configuration, a buffer that opens with a double quote
   * lexes to the String token up to the first closing quote after it, and the
   * cursor moves past that quote.
   */
  lemma JsonStringAtStart(buf: seq<char>, close: nat)
    requires 1 <= close < |buf| && buf[0] == '"' && buf[close] == '"'
    requires forall j :: 1 <= j < close ==> buf[j] != '"'
    ensures var (r, n) := NextToken(JsonConfig, NoFloat, buf, Cursor(0, Loc(1, 1)));
      r == Tok(Token(MakeId(Code(String), 0), Loc(1, 1), 1, close)) && n.index == close + 1
  {
    var c := Cursor(0, Loc(1, 1));
    assert Trimmed(JsonConfig, buf, c) == c;
    assert SkipTrivia(JsonConfig, buf, c) == Ready(c);
    assert FirstString(JsonConfig.strings, buf[0], 0) == Some(0);
    StringTokens(JsonConfig, NoFloat, buf, c);
  }

  /** A string token spans the text between its delimiters, has index 0, and the cursor moves past the closer. */
  lemma StringTokenExample()
    ensures var (r, n) := NextToken(JsonConfig, NoFloat, "\"ab\"", Cursor(0, Loc(1, 1)));
      r == Tok(Token(MakeId(Code(String), 0), Loc(1, 1), 1, 3)) && n.index == 4
  {
    JsonStringAtStart("\"ab\"", 3);
  }

  /**
   * The closer search does not skip escapes: in `"a\"b"` the String token
   * ends at the escaped quote, so its span is `a` and a lone backslash, which
   * `Cleks_extract` cannot decode.
   */
  lemma EscapedQuoteEndsString()
    ensures var buf := "\"a\\\"b\"";
      var (r, n) := NextToken(JsonConfig, NoFloat, buf, Cursor(0, Loc(1, 1)));
      r == Tok(Token(MakeId(Code(String), 0), Loc(1, 1), 1, 3)) &&
      buf[r.token.start..r.token.end] == "a\\" && !Extractable(buf, r.token)
  {
    var buf := "\"a\\\"b\"";
    JsonStringAtStart(buf, 3);
    assert buf[1..3] == "a\\";
    assert "a\\"[1..] == "\\";
  }
}

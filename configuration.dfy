/**
 * The lexer configuration (`CleksConfig`): an immutable value the caller
 * declares once. Every collection is searched in declaration order.
 */
module Configuration {

  /** `CleksComment`: a comment opens with `startDel` and closes with `endDel`. */
  datatype Comment = Comment(startDel: seq<char>, endDel: seq<char>)

  /** `CleksString`: a string opens with `startDel` and closes with `endDel`. */
  datatype StringDel = StringDel(startDel: char, endDel: char)

  /** `CleksConfig`; the C element counts are the lengths of the sequences. */
  datatype Config = Config(
    words: seq<seq<char>>,
    symbols: seq<char>,
    comments: seq<Comment>,
    strings: seq<StringDel>,
    whitespaces: seq<char>,
    flags: bv8)

  const FLAGS_INTEGERS: bv8 := 0x1
  const FLAGS_FLOATS: bv8 := 0x2
  const FLAGS_HEX: bv8 := 0x4
  const FLAGS_BIN: bv8 := 0x8
  const FLAGS_ALL: bv8 := 0xF
  const FLAGS_NO_UNKNOWN: bv8 := 0x10

  /** True when the flag bits `f` are all set in the configuration. */
  predicate HasFlag(cfg: Config, f: bv8)
  {
    cfg.flags & f != 0
  }

  /** A C string: the text before its terminating NUL holds no NUL. */
  predicate CString(s: seq<char>)
  {
    '\0' !in s
  }

  /**
   * What a configuration must be for the lexer to behave:
   * words and comment delimiters are C strings; a comment's two delimiters
   * are not both empty (with both empty the comment loop of `Cleks_next`
   * never ends); a string closer is not NUL (a NUL closer would be found at
   * the buffer's terminator and the cursor would step past the buffer).
   */
  predicate ValidConfig(cfg: Config)
  {
    (forall w :: w in cfg.words ==> CString(w)) &&
    (forall c :: c in cfg.comments ==>
       CString(c.startDel) && CString(c.endDel) && |c.startDel| + |c.endDel| > 0) &&
    (forall s :: s in cfg.strings ==> s.endDel != '\0')
  }

}

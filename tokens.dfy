/**
 * Token identities, locations and tokens.
 *
 * A token identity (`CleksTokenID`) is one unsigned 64-bit word: the token
 * type sits in the high 32 bits and the definition index in the low 32 bits.
 * The model keeps that packing, as bit-vector operations, because it is the
 * representation the lexer's callers depend on.
 */
module Tokens {
  import opened Wrappers

  /** `CleksTokenType`, in declaration order. */
  datatype TokenType = Word | Symbol | String | Integer | Float | Hex | Bin | Unknown

  /** `CLEKS_TOKEN_TYPE_COUNT`. */
  const TOKEN_TYPE_COUNT: bv32 := 8

  /** `CLEKS_ANY_ID`: the index wildcard accepted by `Expect`. */
  const ANY_ID: bv32 := 0xFFFF_FFFF

  /** The enumerator value of a token type. */
  function Code(t: TokenType): (c: bv32)
    ensures c < TOKEN_TYPE_COUNT
    ensures DecodeType(c) == Some(t)
  {
    match t
    case Word => 0
    case Symbol => 1
    case String => 2
    case Integer => 3
    case Float => 4
    case Hex => 5
    case Bin => 6
    case Unknown => 7
  }

  /** The token type an enumerator value names, if it names one. */
  function DecodeType(c: bv32): (r: Option<TokenType>)
    ensures r.Some? <==> c < TOKEN_TYPE_COUNT
  {
    if c == 0 then Some(Word)
    else if c == 1 then Some(Symbol)
    else if c == 2 then Some(String)
    else if c == 3 then Some(Integer)
    else if c == 4 then Some(Float)
    else if c == 5 then Some(Hex)
    else if c == 6 then Some(Bin)
    else if c == 7 then Some(Unknown)
    else None
  }

  /** Distinct token types have distinct enumerator values. */
  lemma CodeInjective(s: TokenType, t: TokenType)
    ensures Code(s) == Code(t) <==> s == t
  {
    assert DecodeType(Code(s)) == Some(s) && DecodeType(Code(t)) == Some(t);
  }

  /** `cleks_token_type(id)`: the high 32 bits. */
  function TypeOf(id: bv64): (t: bv32)
  {
    (id >> 32) as bv32
  }

  /** `cleks_token_index(id)`: the low 32 bits. */
  function IndexOf(id: bv64): (i: bv32)
  {
    (id & 0xFFFF_FFFF) as bv32
  }

  /** `cleks_token(type, index)`: pack a type and an index into one identity. */
  function MakeId(t: bv32, i: bv32): (id: bv64)
    ensures TypeOf(id) == t && IndexOf(id) == i
  {
    ((t as bv64) << 32) | (i as bv64)
  }

  /** Every identity is the packing of its own type and index. */
  lemma IdRoundTrip(id: bv64)
    ensures MakeId(TypeOf(id), IndexOf(id)) == id
  {
  }

  /** The conversion of a `size_t` index to `CleksTokenIndex` (`uint32_t`) truncates. */
  function Index32(i: nat): (r: bv32)
  {
    (i % 0x1_0000_0000) as bv32
  }

  /**
   * The test of `Cleks_expect`: the types agree, and the indices agree unless
   * the expected index is the wildcard.
   */
  predicate IdMatches(got: bv64, expected: bv64)
  {
    TypeOf(got) == TypeOf(expected) &&
    (IndexOf(expected) == ANY_ID || IndexOf(got) == IndexOf(expected))
  }

  /** A wildcard identity matches exactly the identities of its type. */
  lemma AnyIdMatchesType(got: bv64, t: bv32)
    ensures IdMatches(got, MakeId(t, ANY_ID)) <==> TypeOf(got) == t
  {
  }

  /** A specific identity matches only itself, and only when its index is not the wildcard. */
  lemma ExactIdMatches(got: bv64, t: bv32, i: bv32)
    requires i != ANY_ID
    ensures IdMatches(got, MakeId(t, i)) <==> got == MakeId(t, i)
  {
    IdRoundTrip(got);
  }

  /** `CleksLoc` without its file name: 1-based row and column. */
  datatype Loc = Loc(row: nat, column: nat)

  /**
   * `CleksToken`: an identity, the location of its first character and the
   * span `[start, end)` as offsets into the scanned buffer.
   */
  datatype Token = Token(id: bv64, loc: Loc, start: nat, end: nat)

}

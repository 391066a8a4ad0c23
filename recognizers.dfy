/**
 * The numeric-literal recognisers `Cleks__str_is_int`, `Cleks__str_is_hex`,
 * `Cleks__str_is_bin` and `Cleks__str_is_float`, each applied to the whole
 * candidate span `s`.
 */
module Recognizers {

  /** `isdigit` on the ASCII range. */
  predicate IsDigit(ch: char)
  {
    '0' <= ch <= '9'
  }

  /** `isxdigit` on the ASCII range. */
  predicate IsHexDigit(ch: char)
  {
    IsDigit(ch) || 'a' <= ch <= 'f' || 'A' <= ch <= 'F'
  }

  predicate IsBinDigit(ch: char)
  {
    ch == '0' || ch == '1'
  }

  predicate IsSign(ch: char)
  {
    ch == '-' || ch == '+'
  }

  /** The digit loop of `Cleks__str_is_int`, one character at a time. */
  function AllDigits(s: seq<char>): (r: bool)
    ensures r <==> forall k :: 0 <= k < |s| ==> IsDigit(s[k])
  {
    if s == [] then true else IsDigit(s[0]) && AllDigits(s[1..])
  }

  /** The digit loop of `Cleks__str_is_hex`. */
  function AllHexDigits(s: seq<char>): (r: bool)
    ensures r <==> forall k :: 0 <= k < |s| ==> IsHexDigit(s[k])
  {
    if s == [] then true else IsHexDigit(s[0]) && AllHexDigits(s[1..])
  }

  /** The digit loop of `Cleks__str_is_bin`. */
  function AllBinDigits(s: seq<char>): (r: bool)
    ensures r <==> forall k :: 0 <= k < |s| ==> IsBinDigit(s[k])
  {
    if s == [] then true else IsBinDigit(s[0]) && AllBinDigits(s[1..])
  }

  /**
   * `Cleks__str_is_int`: a non-empty span, an optional sign, then decimal
   * digits only. Only an empty span is rejected up front, so a lone sign passes.
   */
  function StrIsInt(s: seq<char>): (r: bool)
    ensures r <==>
      |s| >= 1 && (IsDigit(s[0]) || IsSign(s[0])) &&
      forall k :: 1 <= k < |s| ==> IsDigit(s[k])
  {
    if |s| == 0 then false
    else if IsSign(s[0]) then
      assert forall k :: 1 <= k < |s| ==> s[k] == s[1..][k - 1];
      AllDigits(s[1..])
    else AllDigits(s)
  }

  /** `Cleks__str_is_hex`: at least three characters, the prefix `0x`, then hex digits only. */
  function StrIsHex(s: seq<char>): (r: bool)
    ensures r <==>
      |s| >= 3 && s[0] == '0' && s[1] == 'x' &&
      forall k :: 2 <= k < |s| ==> IsHexDigit(s[k])
  {
    if |s| < 3 || s[0] != '0' || s[1] != 'x' then false
    else
      assert forall k :: 2 <= k < |s| ==> s[k] == s[2..][k - 2];
      AllHexDigits(s[2..])
  }

  /** `Cleks__str_is_bin`: at least three characters, the prefix `0b`, then `0`/`1` only. */
  function StrIsBin(s: seq<char>): (r: bool)
    ensures r <==>
      |s| >= 3 && s[0] == '0' && s[1] == 'b' &&
      forall k :: 2 <= k < |s| ==> IsBinDigit(s[k])
  {
    if |s| < 3 || s[0] != '0' || s[1] != 'b' then false
    else
      assert forall k :: 2 <= k < |s| ==> s[k] == s[2..][k - 2];
      AllBinDigits(s[2..])
  }

  /**
   * `Cleks__str_is_float`. The C code calls `strtod` on the text that starts at
   * the candidate (and runs on to the buffer's terminator) and accepts when the
   * conversion stops exactly at the candidate's end. `strtod` itself, which is
   * locale-dependent floating-point parsing in libc, is the parameter
   * `consumed`: how many characters it consumes from a text.
   */
  predicate StrIsFloat(consumed: seq<char> -> nat, text: seq<char>, len: nat)
  {
    consumed(text) == len
  }

  /** A lone sign is accepted as an integer; the empty span is not. */
  lemma LoneSignIsInt()
    ensures StrIsInt("-") && StrIsInt("+") && !StrIsInt("")
  {
  }

  /**
   * The integer, hex and binary grammars accept disjoint sets of spans, so
   * among them the order in which `Cleks_next` tries them decides nothing.
   */
  lemma IntHexBinDisjoint(s: seq<char>)
    ensures !(StrIsInt(s) && StrIsHex(s))
    ensures !(StrIsInt(s) && StrIsBin(s))
    ensures !(StrIsHex(s) && StrIsBin(s))
  {
    if StrIsInt(s) && |s| >= 3 {
      assert IsDigit(s[1]);
    }
  }

}

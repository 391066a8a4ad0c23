/**
 * `Cleks_extract`: copy the text of a token into a caller buffer as a
 * NUL-terminated string, decoding C backslash escapes for String tokens.
 *
 * The token's `start`/`end` pointers are offsets into `source`, the buffer
 * the token was lexed from.
 */
module Extraction {
  import opened Wrappers
  import opened Tokens

  /** The escape table of `Cleks_extract`: the byte a known escape letter stands for. */
  function DecodeEscape(ch: char): (r: Option<char>)
    ensures r.Some? <==> ch in "'\"?\\abfnrtv"
    ensures r.Some? ==> r.value != '\0'
  {
    match ch
    case '\'' => Some('\'')
    case '"' => Some('"')
    case '?' => Some('?')
    case '\\' => Some('\\')
    case 'a' => Some('\U{7}')
    case 'b' => Some('\U{8}')
    case 'f' => Some('\U{c}')
    case 'n' => Some('\n')
    case 'r' => Some('\r')
    case 't' => Some('\t')
    case 'v' => Some('\U{b}')
    case _ => None
  }

  /** The escape letter that `DecodeEscape` maps to `ch`, if one does. */
  function EncodeEscape(ch: char): (r: Option<char>)
    ensures r.Some? ==> DecodeEscape(r.value) == Some(ch)
    ensures r.None? ==> ch != '\\'
  {
    match ch
    case '\'' => Some('\'')
    case '"' => Some('"')
    case '?' => Some('?')
    case '\\' => Some('\\')
    case '\U{7}' => Some('a')
    case '\U{8}' => Some('b')
    case '\U{c}' => Some('f')
    case '\n' => Some('n')
    case '\r' => Some('r')
    case '\t' => Some('t')
    case '\U{b}' => Some('v')
    case _ => None
  }

  /**
   * Every backslash, read left to right, has a character after it. Without
   * this the decoding loop of `Cleks_extract` reads the character at the
   * token's end and then runs past it.
   */
  predicate EscapesComplete(s: seq<char>)
    decreases |s|
  {
    if s == [] then true
    else if s[0] == '\\' then |s| >= 2 && EscapesComplete(s[2..])
    else EscapesComplete(s[1..])
  }

  /**
   * The decoding loop of `Cleks_extract`: a known escape becomes the one
   * byte it stands for, an unknown one keeps its backslash and its
   * character, any other character is copied. Decoding never lengthens.
   * A lone trailing backslash, which the C loop cannot decode (it reads past
   * the span), is kept here; `Extract` excludes it.
   */
  function Unescape(s: seq<char>): (r: seq<char>)
    ensures |r| <= |s|
    decreases |s|
  {
    if s == [] then []
    else if s[0] == '\\' && |s| >= 2 then Piece(s) + Unescape(s[2..])
    else [s[0]] + Unescape(s[1..])
  }

  /** What an escape at the front of `s` decodes to. */
  function Piece(s: seq<char>): (r: seq<char>)
    requires |s| >= 2
    ensures 1 <= |r| <= 2
  {
    match DecodeEscape(s[1])
    case Some(b) => [b]
    case None => ['\\', s[1]]
  }

  /** How many characters of `s` the decoding loop consumes in one round: two for an escape, else one. */
  function Width(s: seq<char>): (w: nat)
    requires s != []
    ensures 1 <= w <= |s|
  {
    if s[0] == '\\' && |s| >= 2 then 2 else 1
  }

  /** What one round of the decoding loop writes for the front of `s`. */
  function Decoded(s: seq<char>): (r: seq<char>)
    requires s != []
    ensures |r| <= Width(s)
  {
    if s[0] == '\\' && |s| >= 2 then Piece(s) else [s[0]]
  }

  /** The escaping a C programmer writes: each byte with an escape letter becomes a backslash pair. */
  function Escape(s: seq<char>): (r: seq<char>)
    ensures |s| <= |r| <= 2 * |s|
  {
    if s == [] then []
    else
      (match EncodeEscape(s[0])
       case Some(l) => ['\\', l]
       case None => [s[0]]) + Escape(s[1..])
  }

  /** Decoding undoes escaping, and escaped text never ends in a lone backslash. */
  lemma {:induction false} UnescapeEscape(s: seq<char>)
    ensures EscapesComplete(Escape(s)) && Unescape(Escape(s)) == s
  {
    if s != [] {
      UnescapeEscape(s[1..]);
      var e := Escape(s);
      match EncodeEscape(s[0])
      case Some(l) =>
        assert e == ['\\', l] + Escape(s[1..]);
        assert e[2..] == Escape(s[1..]);
      case None =>
        assert e == [s[0]] + Escape(s[1..]);
        assert e[1..] == Escape(s[1..]);
    }
  }

  /** Text without a backslash decodes to itself. */
  lemma {:induction false} NoBackslashUnchanged(s: seq<char>)
    requires '\\' !in s
    ensures EscapesComplete(s) && Unescape(s) == s
  {
    if s != [] {
      assert s == [s[0]] + s[1..];
      NoBackslashUnchanged(s[1..]);
    }
  }

  /** Decoding a concatenation decodes its parts in turn, when the first part does not end in a lone backslash. */
  lemma {:induction false} UnescapeAppend(a: seq<char>, b: seq<char>)
    requires EscapesComplete(a)
    ensures Unescape(a + b) == Unescape(a) + Unescape(b)
    decreases |a|
  {
    if a == [] {
      assert a + b == b;
    } else if a[0] == '\\' {
      var ab := a + b;
      assert ab[0] == '\\' && ab[1] == a[1] && ab[2..] == a[2..] + b;
      assert Piece(ab) == Piece(a);
      UnescapeAppend(a[2..], b);
      var d, ua, ub := Piece(a), Unescape(a[2..]), Unescape(b);
      assert d + (ua + ub) == (d + ua) + ub;
    } else {
      var ab := a + b;
      assert ab[0] == a[0] && ab[1..] == a[1..] + b;
      UnescapeAppend(a[1..], b);
      var d, ua, ub := [a[0]], Unescape(a[1..]), Unescape(b);
      assert d + (ua + ub) == (d + ua) + ub;
    }
  }

  /** Decoding a NUL-free text yields a NUL-free text: no escape decodes to NUL. */
  lemma {:induction false} UnescapeKeepsCString(s: seq<char>)
    ensures '\0' !in s ==> '\0' !in Unescape(s)
    decreases |s|
  {
    if s != [] && '\0' !in s {
      var w := Width(s);
      assert forall k :: 0 <= k < |s[w..]| ==> s[w..][k] == s[k + w];
      assert s[0] in s && (w == 2 ==> s[1] in s);
      UnescapeKeepsCString(s[w..]);
    }
  }

  /** A C string read from a character array: everything before the first NUL. */
  function UntilNul(s: seq<char>): (r: seq<char>)
    ensures |r| <= |s| && r == s[..|r|] && '\0' !in r
    ensures |r| < |s| ==> s[|r|] == '\0'
  {
    if s == [] || s[0] == '\0' then []
    else
      var r := [s[0]] + UntilNul(s[1..]);
      assert r[1..] == UntilNul(s[1..]);
      r
  }

  /** A C string read from `a + b` stops inside `a` when `b` starts with NUL. */
  lemma {:induction false} UntilNulStopsAtNul(a: seq<char>, b: seq<char>)
    requires b != [] && b[0] == '\0'
    ensures UntilNul(a + b) == UntilNul(a)
  {
    if a == [] {
      assert a + b == b;
    } else {
      assert (a + b)[0] == a[0] && (a + b)[1..] == a[1..] + b;
      UntilNulStopsAtNul(a[1..], b);
    }
  }

  /** True when the token's identity names the String type. */
  predicate IsString(t: Token)
  {
    TypeOf(t.id) == Code(String)
  }

  /** What a token's span must be for `Cleks_extract`: inside the buffer, and for a String token without a trailing lone backslash. */
  predicate Extractable(source: seq<char>, t: Token)
  {
    t.start <= t.end <= |source| &&
    (IsString(t) ==> EscapesComplete(source[t.start..t.end]))
  }

  /**
   * The string `Cleks_extract` leaves in the caller's buffer, before its
   * NUL: the decoded span of a String token, the span itself otherwise, in
   * both cases cut at a NUL inside the span.
   */
  function Extracted(source: seq<char>, t: Token): (v: seq<char>)
    requires Extractable(source, t)
    ensures |v| <= t.end - t.start && '\0' !in v
    ensures '\0' !in source[t.start..t.end] && !IsString(t) ==> v == source[t.start..t.end]
    ensures '\0' !in source[t.start..t.end] && IsString(t) ==> v == Unescape(source[t.start..t.end])
  {
    var span := source[t.start..t.end];
    if IsString(t) then
      UnescapeKeepsCString(span);
      UntilNul(Unescape(span))
    else UntilNul(span)
  }

  /** `sprintf`/`snprintf` with `"%s"`: write the C string held in `src`, and its NUL, to the front of `dest`. */
  method WriteCString(src: seq<char>, dest: array<char>)
    requires |UntilNul(src)| < dest.Length
    modifies dest
    ensures var v := UntilNul(src);
      dest[..|v| + 1] == v + ['\0'] && dest[|v| + 1..] == old(dest[|v| + 1..])
  {
    var v := UntilNul(src);
    var i := 0;
    while i < |v|
      invariant i <= |v|
      invariant dest[..i] == v[..i]
      invariant dest[i..] == old(dest[i..])
    {
      dest[i] := v[i];
      i := i + 1;
    }
    dest[i] := '\0';
    assert v[..i] == v;
  }

  /** Decoding from offset `pr` of `source` is one round of the loop followed by decoding the rest. */
  lemma UnescapeFrom(source: seq<char>, pr: nat, end: nat)
    requires pr < end <= |source| && EscapesComplete(source[pr..end])
    ensures var rest := source[pr..end];
      pr + Width(rest) <= end && EscapesComplete(source[pr + Width(rest)..end]) &&
      Unescape(rest) == Decoded(rest) + Unescape(source[pr + Width(rest)..end])
  {
    var rest := source[pr..end];
    assert rest[Width(rest)..] == source[pr + Width(rest)..end];
  }

  /** `n` NUL characters: an array fresh from `memset(_, 0, n)`. */
  function Nuls(n: nat): (r: seq<char>)
    ensures |r| == n && forall k :: 0 <= k < n ==> r[k] == '\0'
  {
    seq(n, _ => '\0')
  }

  lemma NulsSuffix(s: seq<char>, i: nat, j: nat)
    requires i <= j <= |s| && s[i..] == Nuls(|s| - i)
    ensures s[j..] == Nuls(|s| - j)
  {
    assert forall k :: 0 <= k < |s| - j ==> s[j..][k] == s[i..][k + j - i];
  }

  /**
   * One round of the decoding loop of `Cleks_extract`: read at `pr`, write
   * at `pw`, and move both on.
   */
  method DecodeStep(source: seq<char>, pr: nat, end: nat, temp: array<char>, pw: nat) returns (pr': nat, pw': nat)
    requires pr < end <= |source| && EscapesComplete(source[pr..end])
    requires pw + (end - pr) <= temp.Length
    modifies temp
    ensures pr' == pr + Width(source[pr..end]) && pw' == pw + |Decoded(source[pr..end])|
    ensures temp[..pw'] == old(temp[..pw]) + Decoded(source[pr..end])
    ensures temp[pw'..] == old(temp[pw'..])
  {
    ghost var rest := source[pr..end];
    assert rest[0] == source[pr];
    pr', pw' := pr, pw;
    if source[pr'] == '\\' {
      assert rest[1] == source[pr + 1];
      pr' := pr' + 1;
      match DecodeEscape(source[pr'])
      case Some(b) =>
        temp[pw'] := b;
      case None =>
        temp[pw'] := '\\';
        pw' := pw' + 1;
        temp[pw'] := source[pr'];
    } else {
      temp[pw'] := source[pr'];
    }
    pr' := pr' + 1;
    pw' := pw' + 1;
  }

  /**
   * One round of the decoding loop keeps its invariant: what is written so
   * far followed by the decoding of what is left is the decoding of the
   * whole span.
   */
  lemma DecodeStepKeepsInvariant(source: seq<char>, pr: nat, pr': nat, end: nat, done: seq<char>, written: seq<char>)
    requires pr < end <= |source| && EscapesComplete(source[pr..end])
    requires pr' == pr + Width(source[pr..end])
    requires written == done + Decoded(source[pr..end])
    ensures pr' <= end && EscapesComplete(source[pr'..end])
    ensures written + Unescape(source[pr'..end]) == done + Unescape(source[pr..end])
  {
    var rest := source[pr..end];
    UnescapeFrom(source, pr, end);
    var d, u := Decoded(rest), Unescape(source[pr + Width(rest)..end]);
    assert (done + d) + u == done + (d + u);
  }

  /**
   * The decoding loop of `Cleks_extract`: decode `source[start..end]` into
   * the zero-filled `temp` with a read offset `pr` and a write offset `pw`.
   */
  method DecodeInto(source: seq<char>, start: nat, end: nat, temp: array<char>) returns (pw: nat)
    requires start <= end <= |source| && EscapesComplete(source[start..end])
    requires end - start < temp.Length && temp[..] == Nuls(temp.Length)
    modifies temp
    ensures pw < temp.Length && temp[..pw] == Unescape(source[start..end])
    ensures temp[pw..] == Nuls(temp.Length - pw)
  {
    var pr := start;
    pw := 0;
    ghost var target := Unescape(source[start..end]);
    while pr != end
      invariant start <= pr <= end && pw <= pr - start
      invariant EscapesComplete(source[pr..end])
      invariant temp[..pw] + Unescape(source[pr..end]) == target
      invariant temp[pw..] == Nuls(temp.Length - pw)
      decreases end - pr
    {
      ghost var before, pr0, pw0 := temp[..], pr, pw;
      ghost var done := temp[..pw] + Unescape(source[pr..end]);
      pr, pw := DecodeStep(source, pr, end, temp, pw);
      DecodeStepKeepsInvariant(source, pr0, pr, end, before[..pw0], temp[..pw]);
      NulsSuffix(before, pw0, pw);
      assert temp[..pw] + Unescape(source[pr..end]) == done;
    }
    assert source[end..end] == [];
  }

  /**
   * `Cleks_extract`. It fails, writing nothing, when the token or the buffer
   * is null or the span does not fit with its NUL. Otherwise it writes
   * `Extracted` and a NUL to the front of `dest`; the rest of `dest` is
   * untouched.
   */
  method Extract(source: seq<char>, token: Option<Token>, dest: array?<char>) returns (ok: bool)
    requires token.Some? ==> Extractable(source, token.value)
    modifies dest
    ensures ok <==> token.Some? && dest != null && token.value.end - token.value.start < dest.Length
    ensures ok ==>
      var v := Extracted(source, token.value);
      dest != null && |v| < dest.Length &&
      dest[..|v| + 1] == v + ['\0'] && dest[|v| + 1..] == old(dest[|v| + 1..])
    ensures !ok && dest != null ==> dest[..] == old(dest[..])
  {
    if token.None? || dest == null {
      return false;
    }
    var t := token.value;
    var len := t.end - t.start;
    if len >= dest.Length {
      return false;
    }
    if IsString(t) {
      var temp := new char[len + 1](_ => '\0');
      var pw := DecodeInto(source, t.start, t.end, temp);
      assert temp[..] == temp[..pw] + temp[pw..];
      UntilNulStopsAtNul(temp[..pw], temp[pw..]);
      WriteCString(temp[..], dest);
    } else {
      WriteCString(source[t.start..t.end], dest);
    }
    return true;
  }

  /** A known escape becomes the one byte it stands for. */
  lemma KnownEscapeExample()
    ensures Unescape("a\\nb") == "a\nb"
  {
    var s := "a\\nb";
    assert s[1..] == "\\nb" && s[1..][2..] == "b" && "b"[1..] == [];
    assert Unescape("b") == "b";
    assert Unescape("\\nb") == "\n" + "b";
  }

  /** An escaped double quote decodes to a double quote. */
  lemma QuoteEscapeExample()
    ensures Unescape("\\\"x") == "\"x"
  {
    var s := "\\\"x";
    assert s[2..] == "x" && "x"[1..] == [];
    assert Unescape("x") == "x";
  }

  /** An unknown escape keeps both its characters. */
  lemma UnknownEscapeExample()
    ensures Unescape("\\q") == "\\q"
  {
    assert "\\q"[2..] == [];
  }

  /** A span that ends in a lone backslash is not decodable. */
  lemma TrailingBackslashExample()
    ensures !EscapesComplete("ab\\")
  {
    assert "ab\\"[1..] == "b\\" && "b\\"[1..] == "\\";
  }
}

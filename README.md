# cleks lexer engine, modelled in Dafny

This project models the lexer engine of `cleks2.h`, a header-only C library.
A caller configures the lexer with words, symbols, comment delimiters, string
delimiters, whitespace characters and flags. A `Clekser` then walks a
caller-owned buffer and produces one token per call of `Cleks_next`. Each token
has a packed 64-bit identity (the token type in the high half, the index of the
matching definition in the low half), a row/column location and a span
`[start, end)` of the buffer. `Cleks_expect` checks the next token against an
expected identity. `Cleks_extract` copies a token's text into a caller buffer
and decodes C escapes in String tokens.

The model has these modules:

- `Wrappers`: `Option`.
- `Tokens`: the token types, the identity packing macros (`cleks_token`,
  `cleks_token_type`, `cleks_token_index`, `CLEKS_ANY_ID`) as 64-bit
  bit-vector operations, `CleksLoc` and `CleksToken`.
- `Configuration`: `CleksConfig` as an immutable value, the flag constants,
  and `ValidConfig`, which says what a configuration must be for the lexer to
  behave.
- `Recognizers`: `Cleks__str_is_int`, `Cleks__str_is_hex` and
  `Cleks__str_is_bin`. `Cleks__str_is_float` is a comparison against the
  number of characters `strtod` consumes, which is a parameter.
- `Scan`: every helper of `Cleks_next`, and `Cleks_next` itself (`NextToken`),
  as functions of the configuration, the buffer and a cursor
  (offset, row, column). `Cleks__is_whitespace`, `Cleks__is_symbol` and
  `cleks__is_special` are the predicates `IsWhitespace`, `IsSymbol` and
  `IsSpecial`. `Cleks__set_token` is the construction of a `Token` value in
  `LexAt` and `WordToken`.
- `Lexer`: the class `Scanner`, which is `Clekser`. Its fields `index`, `row`
  and `column` are updated in place by methods that run the loops of the C
  code. Each method is proved to leave the scanner exactly where the
  corresponding `Scan` function says.
- `Extraction`: `Cleks_extract`. The `pr`/`pw` decoding loop runs over a
  zero-filled temporary array. The result is then written into the caller's
  array. The method is proved to write the decoding of the span, cut at its
  first NUL and NUL-terminated.
- `Properties`: the lexer's behaviour, proved about `NextToken`:
  - when it reports the end of input;
  - how comments restart the trimming;
  - the exact shape of String, Symbol and word tokens;
  - the classification order;
  - that repeated calls produce ordered, non-overlapping, typed tokens;
  - that locations never move to an earlier place: the row never decreases, within a row the column never decreases, and a 1-based column stays 1-based.
- `Examples`: concrete facts about the repository's JSON configuration.

The buffer is a `seq<char>` whose length is `buffer_size`. Several C loops read
`buffer[index]` with no bounds check and stop at the NUL terminator. The model
reads `'\0'` at and beyond the buffer's length. A failed `cleks_assert`, which
ends the process, is the result `Abort`. When `Cleks_next` returns false it is
one of two results: `End` (no more input) or `Unrecognized` (an unknown word
with `CLEKS_FLAGS_NO_UNKNOWN` set). The two differ in what the caller's token
holds afterwards. `End` returns before the `memset` of the token (cleks2.h:210),
so the token is left as it was. `Unrecognized` returns after it, so the token
is all zero and reads as the first configured word at 0:0 (`Scan.CallerToken`).

### Where the code differs from its description

The model follows the code in each of these cases:

- **Word matching is a prefix match.** The word comparison is
  `memcmp(candidate, word, len(candidate))` (cleks2.h:269). So a candidate
  matches every configured word it is a prefix of. With the words `true`,
  `false` and `null`, the candidates `tr` and `nul` are Word tokens
  (`Examples.PrefixIsWord`).
- **A lone sign is an integer.** `Cleks__str_is_int` rejects only the empty
  span (cleks2.h:471). So `-` and `+` are Integer tokens.
- **Floats before hex.** The float test runs before the hex test. `strtod`
  reads hexadecimal floating constants, so with both flags set a hex literal
  becomes a Float token (`Properties.FloatShadowsHex`).
- **String tokens have index 0.** This holds whichever delimiter opened them
  (cleks2.h:222).
- **`clekser_inc` moves only the column,** even past a newline symbol or a
  newline inside a word (cleks2.h:46).
- **Searches ignore comments.** The searches for a string closer and for a
  comment closer do not look for comments (cleks2.h:408-428).
- **The string closer search ignores escapes.** `Cleks__find_char` stops at
  the first closing character (cleks2.h:220). A string containing `\"` ends
  at the escaped quote, and its span ends in a lone backslash, which
  `Cleks_extract` cannot decode (`Examples.EscapedQuoteEndsString`). The
  lexer itself therefore produces spans outside what `Cleks_extract` accepts.
- **There is no Field token kind** in this header.

## Model

| member | source | states |
|---|---|---|
| Tokens.Code | cleks2.h:69-79 | each token type's enumerator value is below `CLEKS_TOKEN_TYPE_COUNT` and decodes back to that type |
| Tokens.DecodeType | cleks2.h:69-79 | a 32-bit value names a token type exactly when it is below `CLEKS_TOKEN_TYPE_COUNT` |
| Tokens.CodeInjective | cleks2.h:69-79 | two token types have the same enumerator value only when they are the same type |
| Tokens.TypeOf | cleks2.h:55 | no contract of its own: `cleks_token_type` keeps the high 32 bits; what it recovers is stated by `Tokens.MakeId` and `Tokens.IdRoundTrip` |
| Tokens.IndexOf | cleks2.h:57 | no contract of its own: `cleks_token_index` keeps the low 32 bits; what it recovers is stated by `Tokens.MakeId` and `Tokens.IdRoundTrip` |
| Tokens.MakeId | cleks2.h:55-58 | `cleks_token(t, i)` has type `t` and index `i` for every 32-bit `t` and `i` |
| Tokens.IdRoundTrip | cleks2.h:55-58 | every 64-bit identity is the packing of its own type and index |
| Tokens.Index32 | cleks2.h:430-436 | no contract of its own: the `size_t` definition index passed as `uint32_t` is reduced modulo 2^32 |
| Tokens.IdMatches | cleks2.h:305-306 | no contract of its own: the test of `Cleks_expect`; its meaning is stated by `Tokens.AnyIdMatchesType` and `Tokens.ExactIdMatches` |
| Tokens.AnyIdMatchesType | cleks2.h:62 | an expected identity with index `CLEKS_ANY_ID` accepts exactly the identities of its type |
| Tokens.ExactIdMatches | cleks2.h:306 | an expected identity with any other index accepts only itself |
| Configuration.ValidConfig | cleks2.h:121-133 | no contract of its own: what the lexer needs of a `CleksConfig` (C-string words and delimiters, comments not empty at both ends, no NUL string closer); every lexer member requires it |
| Configuration.CString | cleks2.h:121-133 | no contract of its own: a C string holds no NUL before its terminator; `ValidConfig` asks it of every word and delimiter |
| Configuration.HasFlag | cleks2.h:276-292 | no contract of its own: the `config.flags & FLAG` tests; their effect on classification is stated by `Properties.ClassifyOrder` |
| Recognizers.AllDigits | cleks2.h:473-475 | the digit loop succeeds exactly when every character is a decimal digit |
| Recognizers.AllHexDigits | cleks2.h:490-492 | the digit loop succeeds exactly when every character is a hex digit |
| Recognizers.AllBinDigits | cleks2.h:500-504 | the digit loop succeeds exactly when every character is `0` or `1` |
| Recognizers.StrIsInt | cleks2.h:469-477 | a span is an integer exactly when it is non-empty, starts with a digit or a sign, and has only digits after that |
| Recognizers.IsDigit | cleks2.h:474 | no contract of its own: `isdigit` on ASCII; its use is stated by `Recognizers.StrIsInt` |
| Recognizers.IsHexDigit | cleks2.h:491 | no contract of its own: `isxdigit` on ASCII; its use is stated by `Recognizers.StrIsHex` |
| Recognizers.IsBinDigit | cleks2.h:502 | no contract of its own: the `0`/`1` test; its use is stated by `Recognizers.StrIsBin` |
| Recognizers.IsSign | cleks2.h:472 | no contract of its own: the optional leading `-` or `+`; its use is stated by `Recognizers.StrIsInt` |
| Recognizers.StrIsHex | cleks2.h:486-494 | a span is hex exactly when it has at least three characters, starts with `0x` and has only hex digits after that |
| Recognizers.StrIsBin | cleks2.h:496-506 | a span is binary exactly when it has at least three characters, starts with `0b` and has only `0`/`1` after that |
| Recognizers.StrIsFloat | cleks2.h:479-484 | no contract of its own: a float exactly when `strtod` stops at the candidate's end; its place in the classification is stated by `Properties.ClassifyOrder` and `Properties.FloatShadowsHex` |
| Recognizers.LoneSignIsInt | cleks2.h:471-472 | a lone `-` or `+` is an integer; the empty span is not |
| Recognizers.IntHexBinDisjoint | cleks2.h:276-291 | no span is accepted by two of the integer, hex and binary recognisers |
| Scan.CharAt | cleks2.h:47 | no contract of its own: the character at the cursor, and the terminator `'\0'` at or beyond the buffer's size |
| Scan.IsSpecial | cleks2.h:51 | no contract of its own: NUL or `EOF` |
| Scan.IsWhitespace | cleks2.h:440-447 | no contract of its own: the character is one of the configured whitespaces |
| Scan.IsSymbol | cleks2.h:449-456 | no contract of its own: the character is one of the configured symbols |
| Scan.Trimmable | cleks2.h:393 | no contract of its own: the condition of the trim loop; what trimming does is stated by `Scan.Trimmed` |
| Scan.NextLoc | cleks2.h:49 | no contract of its own: `clekser__check_line`; its effect over a text is stated by `Scan.TrackClosedForm` and `Lexer.Scanner.Step` |
| Scan.Advance | cleks2.h:49 | no contract of its own: `clekser__check_line` and the index step; stated by `Lexer.Scanner.Step` |
| Scan.Inc | cleks2.h:46 | no contract of its own: `clekser_inc`; stated by `Lexer.Scanner.Bump` and used by `Properties.SymbolTokens` and `Scan.WordEnd` |
| Scan.Track | cleks2.h:49 | no contract of its own: `clekser__check_line` over each character of a text; stated by `Scan.TrackAppend` and `Scan.TrackClosedForm` |
| Scan.TrackAppend | cleks2.h:49 | tracking the location over a concatenation is tracking over its parts in turn |
| Scan.TrackClosedForm | cleks2.h:49 | after consuming a text, the row has grown by its number of newlines; the column counts from 1 after its last newline, or has grown by its length when it has none |
| Scan.NewlinesAppend | cleks2.h:49 | the newlines of a concatenation are those of its parts |
| Scan.Newlines | cleks2.h:49 | no contract of its own: the number of newlines of a text, as used in `Scan.TrackClosedForm` |
| Scan.LastLineLength | cleks2.h:49 | no contract of its own: the characters after the last newline, as used in `Scan.TrackClosedForm` |
| Scan.MatchesFrom | cleks2.h:463-465 | the comparison loop from position `k` succeeds exactly when the rest of the string lies inside the buffer at that offset |
| Scan.StartsWith | cleks2.h:458-467 | `str` occurs at offset `i` wholly inside the buffer, or is empty |
| Scan.FirstComment | cleks2.h:195-198 | the result is the first comment, in configuration order, whose opener occurs here; none opens when it is absent |
| Scan.FirstString | cleks2.h:213-215 | the result is the first string delimiter, in configuration order, that opens with the character; none does when it is absent |
| Scan.FirstSymbol | cleks2.h:230-231 | the result is the first symbol, in configuration order, equal to the character; none is when it is absent |
| Scan.WordMatches | cleks2.h:269 | no contract of its own: the candidate is a prefix of the word; `Scan.WordMatchesMemcmp` proves this is what the `memcmp` test computes |
| Scan.MemcmpEqual | cleks2.h:269 | no contract of its own: `memcmp(a, b, len(a)) == 0` as a byte loop stopping at the first difference |
| Scan.MemcmpEqualFrom | cleks2.h:269 | the byte loop from position `k` succeeds exactly when `b` is long enough and every later byte of `a` equals the byte of `b` at the same position |
| Scan.WordMatchesMemcmp | cleks2.h:269 | for a NUL-free candidate and a C-string word, the `memcmp` over the candidate's length against the word and its terminator succeeds exactly when the candidate is a prefix of the word |
| Scan.FirstWord | cleks2.h:267-269 | the result is the first configured word the candidate matches over the candidate's length; none matches when it is absent |
| Scan.Trimmed | cleks2.h:389-397 | trimming skips exactly a maximal run of whitespace/NUL/EOF characters, bounded by the buffer, and tracks the location over it |
| Scan.Skipped | cleks2.h:399-406 | skipping a string steps over at most its length, tracks the location, and steps over all of it when it occurs at the cursor |
| Scan.SearchString | cleks2.h:408-417 | the search stops at the first offset where the delimiter occurs, or at the buffer's end (a failed assertion) when there is none; the location is tracked over what it passed |
| Scan.SearchChar | cleks2.h:419-428 | the search stops at the first occurrence of the character, or at the buffer's end (a failed assertion) when there is none; the location is tracked over what it passed |
| Scan.SkipComment | cleks2.h:198-202 | skipping a comment moves forward, ending inside the buffer when a closer is found and at the buffer's end when none is (a failed assertion); where it ends is stated by `Scan.SkipCommentCloser` |
| Scan.FirstOccurrence | cleks2.h:408-417 | no contract of its own: `str` occurs at `f` and nowhere between `from` and `f` |
| Scan.NoOccurrence | cleks2.h:408-417 | no contract of its own: `str` occurs nowhere from `from` to the buffer's end |
| Scan.SkipCommentCloser | cleks2.h:198-202 | a found comment ends just past the first occurrence of its closer after its opener; an unterminated one has no occurrence of its closer after its opener |
| Scan.SkipTrivia | cleks2.h:187-208 | the whitespace/comment loop either stops on a character that is not trimmable and opens no comment, or stops at the buffer's end |
| Scan.EndsWord | cleks2.h:244-262 | no contract of its own: the stop condition of the word loop (symbol, whitespace, NUL/EOF, string opener, comment opener); stated by `Scan.WordEnd` and `Properties.WordTokens` |
| Scan.WordEnd | cleks2.h:244-264 | the word scan stops at the first character that ends a word, moves the column once per character scanned, and the candidate it scans holds no NUL |
| Scan.Classify | cleks2.h:267-297 | no contract of its own: the classification chain; its order is stated by `Properties.ClassifyOrder` and its loops by `Lexer.Scanner.ClassifyCandidate` |
| Scan.LexAt | cleks2.h:213-297 | lexing a token moves the cursor forward; a token lies between the old and the new cursor, has the start location and a defined type; a result that does not move the cursor on is an abort at the buffer's end (which input aborts is stated by `Properties.StringTokens`) |
| Scan.WordToken | cleks2.h:241-297 | a word candidate becomes a token or an unrecognised span with the start location, spanning exactly the scanned word |
| Scan.NextToken | cleks2.h:183-298 | one call moves forward; a token lies inside the consumed text and has a defined type; End and Abort leave the cursor at the buffer's end |
| Scan.CallerToken | cleks2.h:188-210 | no contract of its own: the caller's token after `Cleks_next`; stated by `Scan.ZeroedTokenAfterUnrecognized` |
| Scan.ZeroedTokenAfterUnrecognized | cleks2.h:210-297 | after an unrecognised word the caller's token reads as the first configured word at row 0, column 0, with an empty span; after the end of input it is the previous token; a produced token is handed back |
| Lexer.Scanner.constructor | cleks2.h:177-181 | a new scanner is at offset 0, row 1, column 1 |
| Lexer.Scanner.Step | cleks2.h:49 | a newline moves to column 1 of the next row, any other character moves the column on; the offset moves by one |
| Lexer.Scanner.Bump | cleks2.h:46 | the offset and the column move by one, whatever the character |
| Lexer.Scanner.TrimLeft | cleks2.h:389-397 | the loop leaves the scanner where `Trimmed` says |
| Lexer.Scanner.SkipString | cleks2.h:399-406 | the loop leaves the scanner where `Skipped` says |
| Lexer.Scanner.FindString | cleks2.h:408-417 | the loop leaves the scanner where `SearchString` says; it reports failure exactly when the delimiter is missing |
| Lexer.Scanner.FindChar | cleks2.h:419-428 | the loop leaves the scanner where `SearchChar` says; it reports failure exactly when the character is missing |
| Lexer.Scanner.MatchComment | cleks2.h:195-198 | the loop finds the comment `FirstComment` names |
| Lexer.Scanner.MatchString | cleks2.h:213-215 | the loop finds the delimiter `FirstString` names |
| Lexer.Scanner.MatchSymbol | cleks2.h:230-231 | the loop finds the symbol `FirstSymbol` names |
| Lexer.Scanner.MatchWord | cleks2.h:267-269 | the loop finds the word `FirstWord` names |
| Lexer.Scanner.SkipSpaceAndComments | cleks2.h:187-208 | the loop ends with the outcome and position `SkipTrivia` gives |
| Lexer.Scanner.ScanWord | cleks2.h:241-264 | the word loop leaves the scanner where `WordEnd` says |
| Lexer.Scanner.ClassifyCandidate | cleks2.h:265-297 | the classification chain yields what `Classify` gives |
| Lexer.Scanner.LexWord | cleks2.h:241-297 | the result and new position are those of `WordToken` |
| Lexer.Scanner.Next | cleks2.h:183-298 | the result and new position are those of `NextToken` |
| Lexer.Scanner.Expect | cleks2.h:300-312 | the scanner moves as `Cleks_next` does; a token is accepted exactly when the next result is a token whose type equals the expected type and whose index equals the expected index or the index is `CLEKS_ANY_ID`; only an accepted token is handed back; an abort of `Cleks_next` is an abort |
| Extraction.DecodeEscape | cleks2.h:326-337 | exactly the eleven letters `' " ? \ a b f n r t v` are known escapes; none decodes to NUL |
| Extraction.EncodeEscape | cleks2.h:326-337 | every escape letter it gives decodes back to the character; a backslash always has one |
| Extraction.Unescape | cleks2.h:324-349 | decoding never lengthens a text |
| Extraction.EscapesComplete | cleks2.h:325-326 | no contract of its own: every backslash has a character after it, so the decoding loop reaches the span's end and never steps past it; part of `Extract`'s precondition through `Extractable` |
| Extraction.Piece | cleks2.h:326-341 | an escape writes one or two characters: the decoded character, or the backslash and the letter kept; which letters decode is stated by `Extraction.DecodeEscape` |
| Extraction.Width | cleks2.h:325-347 | one round of the loop reads one character, or two for an escape, never past the span |
| Extraction.Decoded | cleks2.h:326-346 | one round writes no more characters than it reads; that the rounds add up to `Unescape` is stated by `Extraction.DecodeStepKeepsInvariant` |
| Extraction.Escape | cleks2.h:326-337 | escaping at most doubles a text |
| Extraction.UnescapeEscape | cleks2.h:319-349 | decoding undoes escaping, and escaped text has no lone trailing backslash |
| Extraction.NoBackslashUnchanged | cleks2.h:344-346 | text without a backslash decodes to itself |
| Extraction.UnescapeAppend | cleks2.h:324-349 | decoding a concatenation decodes its parts in turn when the first part has no lone trailing backslash |
| Extraction.UnescapeKeepsCString | cleks2.h:326-342 | decoding a text without NUL gives a text without NUL |
| Extraction.UntilNul | cleks2.h:350-353 | the C string read from an array is the prefix before its first NUL |
| Extraction.Nuls | cleks2.h:320-321 | the zero-filled temporary buffer: exactly `n` characters, each NUL |
| Extraction.UntilNulStopsAtNul | cleks2.h:320-321 | the C string read from a zero-filled tail stops before the tail |
| Extraction.Extracted | cleks2.h:319-354 | the extracted text is no longer than the span and has no NUL; without a NUL in the span it is the span itself, or its decoding for a String token |
| Extraction.IsString | cleks2.h:319 | no contract of its own: the `CLEKS_STRING` test; that only String tokens are decoded is stated by `Extraction.Extracted` and `Extraction.Extract` |
| Extraction.Extractable | cleks2.h:319-326 | no contract of its own: the span lies inside the source and, for a String token, `EscapesComplete` holds; `Extract`'s precondition |
| Extraction.WriteCString | cleks2.h:350-353 | the copy writes the C string and its NUL to the front of the destination and nothing else |
| Extraction.DecodeStep | cleks2.h:325-348 | one round of the loop appends one decoded piece at `pw` and moves `pr` past the characters it read |
| Extraction.DecodeStepKeepsInvariant | cleks2.h:324-349 | one round keeps the loop invariant: what is written, followed by the decoding of the rest, is the decoding of the whole span |
| Extraction.DecodeInto | cleks2.h:320-349 | the loop leaves exactly the decoding of the span at the front of the zero-filled temporary, followed by zeros |
| Extraction.Extract | cleks2.h:314-356 | it fails exactly when the token or the buffer is null or the span does not fit with its NUL, and then writes nothing; otherwise it writes `Extracted` and a NUL and leaves the rest of the buffer alone |
| Extraction.KnownEscapeExample | cleks2.h:334 | `a\nb` decodes to `a`, newline, `b` |
| Extraction.QuoteEscapeExample | cleks2.h:328 | an escaped double quote decodes to a double quote |
| Extraction.UnknownEscapeExample | cleks2.h:338-341 | an unknown escape keeps its backslash and its letter |
| Extraction.TrailingBackslashExample | cleks2.h:325-326 | a span ending in a lone backslash is outside what `Cleks_extract` can decode |
| Properties.EndIffExhausted | cleks2.h:187-192 | `Cleks_next` reports the end of input (`End`) exactly when the input is exhausted before a token starts, and at once when the cursor is at the end |
| Properties.TrivialInputEnds | cleks2.h:187-192 | input of only whitespace, NUL and EOF gives the end of input (`End`) and consumes everything |
| Properties.CommentRestarts | cleks2.h:194-207 | a comment is skipped through the first occurrence of its closer after its opener and lexing restarts there; with no closer it aborts |
| Properties.SameTriviaSameToken | cleks2.h:187-298 | two cursors that the whitespace/comment loop leaves at the same place give the same result of `Cleks_next` |
| Properties.TriviaAfterComment | cleks2.h:187-207 | one round of the whitespace/comment loop: after a skipped comment the loop starts again from where it ended; an unterminated comment stops it |
| Properties.FirstFrom | cleks2.h:408-417 | a search finds an offset between the start and the buffer's end; what it finds is stated by `Properties.FirstFromMeaning` |
| Properties.FirstFromMeaning | cleks2.h:408-417 | the search finds the first occurrence from its start, and finds nothing exactly when the string occurs nowhere from there to the buffer's end |
| Properties.OnlyTrivia | cleks2.h:187-207 | no contract of its own: an independent definition of input made only of whitespace, NUL/EOF and comments closed by the first closer after their opener |
| Properties.OnlyTriviaTrimmed | cleks2.h:189 | trimming whitespace, NUL and EOF does not change whether the rest is only trivia |
| Properties.SearchStringFirstFrom | cleks2.h:408-417 | `Cleks__find_string` stops on the first occurrence of the delimiter and fails exactly when there is none |
| Properties.SkipCommentSearch | cleks2.h:200-205 | a comment is searched for its closer from just past its opener, and a found closer is stepped over |
| Properties.SkipCommentFirstFrom | cleks2.h:200-205 | a comment is closed exactly when its closer occurs after the opener, and ends just past the first such closer |
| Properties.OnlyTriviaAtComment | cleks2.h:196-205 | at a comment opener, the rest is only trivia exactly when the closer occurs and the input after the first closer is only trivia |
| Properties.OnlyTriviaSkipsComment | cleks2.h:196-205 | at a comment opener, the rest is only trivia exactly when the loop closes the comment and the input after it is only trivia |
| Properties.ExhaustedAtComment | cleks2.h:187-207 | `Properties.ExhaustedIffOnlyTrivia` at a cursor whose trimmed position opens a comment |
| Properties.ExhaustedIffOnlyTrivia | cleks2.h:187-207 | the whitespace/comment loop runs to the end of the buffer exactly when the rest of the input is only trivia |
| Properties.TriviaOnlyEnds | cleks2.h:187-207 | `Cleks_next` reports the end of input (`End`) exactly when the rest of the input is only whitespace, NUL/EOF and closed comments; the other way it returns false, an unrecognised word (cleks2.h:296-297), is not `End` |
| Properties.StringTokens | cleks2.h:213-227 | a String token spans the text between the opener and the first closer, has index 0 and the opener's location, and leaves the cursor past the closer; with no closer it aborts |
| Properties.SymbolTokens | cleks2.h:228-238 | a symbol that opens no string is a one-character Symbol token indexed by the first equal symbol; the cursor moves one column |
| Properties.WordTokens | cleks2.h:239-297 | any other character starts a NUL-free candidate running up to the first word-ending character; the result is its classification |
| Properties.ClassifyOrder | cleks2.h:267-297 | the candidate becomes the first matching word regardless of flags; otherwise Integer, Float, Hex, Bin in that order, each only with its flag; otherwise Unknown, or rejection under `CLEKS_FLAGS_NO_UNKNOWN`; every kind but Word has index 0 |
| Properties.FloatShadowsHex | cleks2.h:280-287 | with floats and hex enabled, a hex literal that `strtod` consumes whole is a Float token |
| Properties.Tokenize | cleks2.h:183-298 | repeated calls stop at a non-token result, and every token lies inside the buffer after the start |
| Properties.TokenizeOrdered | cleks2.h:183-298 | repeated calls produce tokens in buffer order, without overlap, each with a defined type |
| Properties.NotBefore | cleks2.h:49 | no contract of its own: one location is the same as or later than another (a later row, or the same row and a column not to the left); used by the four lemmas below |
| Properties.TrackForward | cleks2.h:49 | consuming text never moves to an earlier place (`NotBefore`), never decreases the row and keeps the column 1-based |
| Properties.SkipTriviaForward | cleks2.h:187-208 | skipping whitespace and comments never moves to an earlier place, never decreases the row and keeps the column 1-based |
| Properties.LexAtForward | cleks2.h:213-297 | lexing a token never moves to an earlier place, never decreases the row and keeps the column 1-based |
| Properties.NextForward | cleks2.h:183-298 | `Cleks_next` never moves to an earlier place, a token starts no earlier than where the call started and no later than where it leaves the cursor, and locations stay 1-based |
| Examples.JsonConfigValid | examples/json_lexer.c:21-73 | the JSON configuration satisfies `ValidConfig` |
| Examples.PrefixIsWord | cleks2.h:267-272 | under the JSON configuration `tr` is the word `true` and `nul` the word `null` |
| Examples.LoneSignExample | cleks2.h:276-279 | under the JSON configuration `-` is an Integer token |
| Examples.WordStopsAtSymbol | cleks2.h:244-264 | the word scan of `ab,` stops at the comma |
| Examples.NewlineStartsRow | cleks2.h:389-397 | trimming past a newline and a space ends at row 2, column 2 |
| Examples.JsonStringAtStart | cleks2.h:213-227 | under the JSON configuration a buffer opening with a quote gives the String token up to the first closing quote, at row 1, column 1, and the cursor moves past that quote |
| Examples.StringTokenExample | cleks2.h:213-227 | `"ab"` is a String token spanning `ab` at row 1, column 1, with the cursor after the closing quote |
| Examples.EscapedQuoteEndsString | cleks2.h:213-227 | in `"a\"b"` the String token ends at the escaped quote; its span is `a` and a lone backslash, which `Cleks_extract` cannot decode |

## Left out

- Printing and diagnostics (`Cleks_print`, `Cleks_print_default`, `CleksTokenTypeNames`, the ANSI, debug and error macros) are not modelled, because they only format output.
- The `print_fn` callback is not modelled, because it is a foreign function pointer.
- `cleks_assert`'s `exit(1)` is the result `Abort` (or `Aborted` from `Expect`), not process termination.
- `strtod`, inside `Cleks__str_is_float`, is the parameter `strtod`/`consumed`: the number of characters it consumes from the text at the candidate, because libc's floating-point parsing is locale-dependent.
- The null-pointer assertions of `Cleks_create`, `Cleks_next` and the helpers are not modelled, because sequences and objects here are never null; `Cleks_extract`'s null checks are modelled through `Option` and a nullable array.
- The `filename` of `CleksLoc` is not modelled, because the lexer only copies it.
- The caller's `CleksToken` is modelled by `Scan.CallerToken` rather than as memory: the null span pointers left by the `memset` at cleks2.h:210 are offsets 0, and the `Lexer.Scanner` methods return the result as a value instead of writing a token.
- Scan.Skipped: C's `Cleks__skip_string` also compares against the string's terminating NUL, and reads on past the string when the buffer holds a NUL there; the model stops at the string's length.
- Scan.Trimmed: C's trim loop treats the NUL terminator as skippable and relies on the buffer checks after it; the model bounds the loop at the buffer's length.
- `EOF_CHAR`: `EOF` (-1) is compared with a `char`, which the model takes to be signed, so the byte 0xFF is special; where `char` is unsigned no character equals `EOF` and 0xFF is an ordinary word character.
- Buffer characters stand for bytes: the model does not restrict them to 0..0xFF, and `isdigit`/`isxdigit` on a negative `char` (undefined in C) are the ASCII tests.
- Tokens.Index32: carries no contract, because stating its reduction modulo 2^32 as an ensures over bit-vectors is beyond what the verifier proves quickly; the definition is the reduction itself.
- Rows and columns are unbounded naturals; `size_t` wrap-around is not modelled, because no realistic buffer reaches it.
- Extraction.Extract: requires `start <= end <= |source|`, because in C a reversed span wraps `size_t`.
- Extraction.Extract: requires that a String span not end in a lone backslash, because the C loop then reads past the span and does not stop; `Extraction.Unescape` itself keeps such a backslash.
- Extraction.WriteCString: `snprintf`'s size argument (the decoded length plus two) never limits what is written, because the decoded text always fits, so the model writes the whole C string.
- The example lexers and `examples/utils.h` are not modelled, beyond the JSON configuration in `Examples`, because they are configuration data and file I/O and several target a different version of the header.
- ValidConfig excludes NUL inside configured words and delimiters, a comment whose opener and closer are both empty (the comment loop of `Cleks_next` never ends) and a NUL string closer (it is found at the terminator and the cursor steps past the buffer).

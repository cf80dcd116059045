# gunny-rs core, modelled in Dafny

gunny-rs is a static-site toolkit. It has two crates:

- **gunnyscript** holds a hand-written lexer for GunnyScript, the
  configuration language, and its number and UTF-8 helpers.
- **gunny** holds the schema types, the data values loaded from
  JSON/YAML/Markdown, the rendering context, and the project configuration.

This project models the parts of both crates whose behaviour can be stated
exactly, and proves properties of them.

- `utf8.dfy` (module `Utf8`) holds the lead-byte width table
  `UTF8_CHAR_WIDTH`. It is proved, entry by entry, equal to the ranges of
  section 4 of RFC 3629. The module also defines well-formed UTF-8, which is
  what a Rust `&str` guarantees. On top of that it defines the
  "character walk" that the lexer's look-ahead performs: which positions are
  character boundaries, how many characters and newline characters lie
  between two boundaries, and when the walk terminates.
- `parser.dfy` (module `Parser`) models the lexer:
  - The rolling match buffer. `slice_rotl` and `slice_push` are methods that
    change an `array<u8>` in place, both as written and corrected. The scan
    below pushes with `slice_push` as written.
  - `Peek::from_slice`, as a method with a `while` loop over the same array.
    It is proved equal to a recursive specification `PeekSpec`. The lemmas
    about `PeekSpec` state that the result is exactly `src[from..pos]`, with
    its newline count, its character bound, its stop-on-`until` rule, and
    its `IncompleteUtf8Char` failure.
  - `Peek::starts_with`.
  - The `Lexer` class. Its fields `src`, `pos` and `line` are updated by
    `advance`, `try_parse_comment_or_docstring` and `Iterator::next`. Each
    method is proved against a specification function: `CommentSpec` and
    `NextSpec`.
  - The `todo!()` value and identifier parsers stay abstract. `next`
    returns an `Unimplemented(<parser>)` item that names the parser the
    byte is handed to.
- `parser_tests.dfy` (module `ParserTests`) states the lexer's own tests
  (`comment_and_whitespace_lexing`, `unexpected_char`) as lemmas about
  `NextSpec`. It also states the general lemmas behind them over ASCII
  input.
- `encoding.dfy` (module `Encoding`) models `Utf8Decoder::decode_char`.
  - The decoder is a method that takes bytes from a `Bytes` cursor object
    one `get_u8` at a time. Its result and the remaining cursor are proved
    equal to the function `DecodeSpec`.
  - The bit formulas follow the code exactly: continuation bytes are neither
    masked nor checked.
- `number.rs`'s `Number` is `number.dfy` (module `ScriptNumber`):
  - the accessors `as_u64`, `as_i64` and `as_fixed`;
  - the `FromStr` dispatch on `0x`, `.`, `-` and a leading `0`;
  - Rust's `from_str_radix`/`parse` as a specified digit loop.

  `I64F64` is an integer count of 2^-64 units.
- `value.dfy` (module `GunnyValue`) covers the schema types:
  - `ValueType::relaxed_eq`;
  - the SQLite column mapping;
  - the `Display`/`FromStr` type names;
  - `SupportedFormat::from_str`;
  - `Value::get_type` and the `as_*` accessors.
- `data.dfy` (module `GunnyData`) covers:
  - `split_front_matter`, with `str::split` modelled and proved lossless;
  - the equality and checked conversions of `data::Number`;
  - the `Value` accessors and `From` conversions.
- `context.dfy` (module `GunnyContext`) models `Context`'s template and
  view registration tables as a class. Its methods are proved against the
  specification functions `RegisterTemplateSpec` and `RegisterViewSpec`.
- `config.dfy` (module `GunnyConfig`) models `Config` as a class over a
  `map`. It has `set`, `get`, `remove`, `contains_key`, `with`, and the
  conversion to a JSON object.
- `ints.dfy` and `wrappers.dfy` hold the integer ranges (`u64`, `i64`,
  `I64F64`) and the `Option`/`Result` types.

The lexer follows the code in `gunnyscript/src/parser.rs`. That code is
lexer scaffolding: a whitespace/comment/docstring skipper with a dispatch
table whose value parsers are `todo!()`. The repository's design describes a
complete event-based parser (object start/end, property names, simple
values, doc-comment lines), but none of that exists in the code, so none of
it is modelled.

## Model

| member | source | states |
|---|---|---|
| `Utf8.RowValue` | gunnyscript/src/encoding.rs:15-33 | each row of the width table: 1 for 0x00-0x7F, 0 for 0x80-0xC1, 2 for 0xC2-0xDF, 3 for 0xE0-0xEF, 4 for 0xF0-0xF4, 0 for 0xF5-0xFF |
| `Utf8.TableIsWidth` | gunnyscript/src/parser.rs:286-304 | the 256-entry table, flattened from its sixteen rows, gives for every byte the width of that byte's RFC 3629 lead-byte range |
| `Utf8.AlignedAppend` | gunnyscript/src/parser.rs:222-226 | stepping over one more whole character keeps the range on character boundaries, adds one character, and adds one newline exactly when the character is the byte `\n` |
| `Utf8.ValidFromIsValidUtf8` | gunnyscript/src/parser.rs:39-41 | walking well-formedness from a position is the same as the suffix from there being well-formed UTF-8 (what a `&str` guarantees) |
| `Utf8.ValidNewlines` | gunnyscript/src/parser.rs:224-226 | in well-formed text, the newline characters the walk counts are exactly the `\n` bytes of the range |
| `Utf8.ValidPrefix` | gunnyscript/src/parser.rs:139-140 | a whole number of characters cut from well-formed text is well-formed on its own |
| `Utf8.ValidWalkable` | gunnyscript/src/parser.rs:216-222 | well-formed text never presents a width-0 lead byte, so the walk reaches the end |
| `Parser.PushedIsShiftThenWrite` | gunnyscript/src/parser.rs:266-282 | the buffer after a push is the shift by the character's length followed by writing the character into the tail; an empty buffer stays empty |
| `Parser.SliceRotl` | gunnyscript/src/parser.rs:255-263 | in place, every byte moves `n` places left; a buffer no longer than `n` is unchanged |
| `Parser.SliceRotlAsWritten` | gunnyscript/src/parser.rs:255-263 | in place, the loop from `len-n-1` to `len-2` copies each next byte down, so only the last `n` bytes move, by one place |
| `Parser.SlicePush` | gunnyscript/src/parser.rs:266-282 | with the corrected rotation, in place, the buffer becomes its last bytes followed by `ch` when `ch` is shorter, otherwise the first bytes of `ch`; an empty buffer is unchanged |
| `Parser.WriteTailInPlace` | gunnyscript/src/parser.rs:272-281 | in place, `ch` is written from `len - |ch|` (or from 0 when `ch` is not shorter), stopping at the end of the buffer |
| `Parser.SlicePushAsWritten` | gunnyscript/src/parser.rs:266-282 | in place, the buffer becomes the rotation as written followed by writing `ch` into the tail; an empty buffer is unchanged |
| `Parser.PushAsWrittenAgreesOnShortBuffers` | gunnyscript/src/parser.rs:255-282 | for buffers of at most two bytes (the program's patterns `\n` and `*/`) the rotation and push as written equal the intended ones |
| `Parser.PushTwo` | gunnyscript/src/parser.rs:255-282 | as written, pushing into a two-byte buffer keeps its last byte and the character's first byte, or the character's first two bytes when it has two or more |
| `Parser.PushAsWrittenKeepsOldestByte` | gunnyscript/src/parser.rs:260-261 | pushing `[4]` into `[1,2,3]` gives `[2,3,4]` as intended but `[1,3,4]` as written |
| `Parser.NewMatchBuffer` | gunnyscript/src/parser.rs:215 | a fresh array of `C` zero bytes |
| `Parser.PeekLoopIncomplete` | gunnyscript/src/parser.rs:218-221 | a lead byte whose character runs past the end fails with `IncompleteUtf8Char` at `start_line` plus the newlines seen so far |
| `Parser.PeekOneChar` | gunnyscript/src/parser.rs:217-232 | one pass of the loop body: the cursor moves past the whole character, the line count grows iff it is `\n`, the array buffer is pushed with its bytes by `slice_push` as written when `until` is non-empty, and the loop stops iff the buffer then equals `until` |
| `Parser.PeekFromSlice` | gunnyscript/src/parser.rs:205-239 | the loop over the array buffer returns exactly `PeekSpec`, the recursive scan |
| `Parser.PeekLoopOk` | gunnyscript/src/parser.rs:216-233 | a successful scan ends on a character boundary at or after its start, its line count is the newline characters in between, and with `len >= 0` it reads at most `len` characters |
| `Parser.PeekLoopErr` | gunnyscript/src/parser.rs:218-221 | a failing scan fails only with `IncompleteUtf8Char`, at a lead byte whose character runs past the end, located at `start_line` plus the newlines before that byte |
| `Parser.PeekOutcome` | gunnyscript/src/parser.rs:212-238 | `from_slice` returns a peek whose slice is exactly `src[from..pos]` for a boundary `pos`, with `from` recorded, `lines` the newlines in the slice and at most `len` characters, or else the located `IncompleteUtf8Char` failure |
| `Parser.PeekLoopValid` | gunnyscript/src/parser.rs:216-222 | on well-formed text the scan never fails, and an unbounded scan terminates |
| `Parser.PeekValid` | gunnyscript/src/parser.rs:212-238 | on well-formed text `from_slice` succeeds, its `lines` equals the number of `\n` bytes in the slice, and the text after it is well-formed |
| `Parser.PeekProgress` | gunnyscript/src/parser.rs:216-222 | before the end of well-formed text, a peek with `len != 0` takes at least one byte |
| `Parser.PeekLine` | gunnyscript/src/parser.rs:138-147 | an unbounded peek until `\n` takes the text up to and including the first newline, or to the end when there is none; it counts the newlines and is valid UTF-8, so the `from_utf8` check cannot fail |
| `Parser.StartsWith` | gunnyscript/src/parser.rs:241-251 | true iff the slice is at least as long as the pattern and agrees with it byte by byte |
| `Parser.PeekKeepsValid` | gunnyscript/src/parser.rs:132 | any peek over well-formed text succeeds with `from == pos` and stops on a character boundary, leaving well-formed text |
| `Parser.CommentSpec` | gunnyscript/src/parser.rs:131-154 | a successful comment or docstring moves the cursor forward and stays on a character boundary of the input |
| `Parser.CommentCases` | gunnyscript/src/parser.rs:132-150 | with the three-character look-ahead: `///` gives the docstring after those bytes, otherwise `/*` skips to `*/`, otherwise `//` skips to the newline, otherwise `UnexpectedChar` on the current line without moving |
| `Parser.DocstringRestOfLine` | gunnyscript/src/parser.rs:136-142 | the docstring token is exactly the bytes after `///` up to and including the first newline (or to the end), the lexer moves past them, and the line grows by their newlines |
| `Parser.LineCommentRestOfLine` | gunnyscript/src/parser.rs:146-153 | a line comment is skipped up to and including the first newline or to the end, without a token, and the line grows by its newlines |
| `Parser.BlockCommentPeek` | gunnyscript/src/parser.rs:144-145 | the unbounded peek until `*/` from a `/*` over well-formed text succeeds and takes the text up to and including the first `*/` whose `/` comes after the opener (so `/*/` does not close), or all the text when there is none, counting its newlines |
| `Parser.BlockCommentRest` | gunnyscript/src/parser.rs:144-153 | a block comment over well-formed text is skipped without a token up to and including that first `*/`, or to the end of the input when it is never closed, and the line grows by its `\n` bytes; whatever follows is left for the next round |
| `Parser.NextRound` | gunnyscript/src/parser.rs:55-113 | a round that carries on has moved strictly forward on a boundary; a round that stops returns an item |
| `Parser.PeekOne` | gunnyscript/src/parser.rs:56 | the one-character look-ahead at `pos` is exactly that character's bytes, with one line iff it is `\n` |
| `Parser.BlankRound` | gunnyscript/src/parser.rs:64-66 | a whitespace byte is committed alone, adding a line iff it is `\n` |
| `Parser.BlankInputEnds` | gunnyscript/src/parser.rs:55-115 | input that is only spaces, tabs, CR and LF from the cursor on yields no item: `next` ends at the end of the input with the line advanced by the number of `\n` bytes |
| `Parser.BracketRepeats` | gunnyscript/src/parser.rs:97-100 | as written, `next` on a bracket returns its token with the position and line unchanged, so every later call returns it again |
| `Parser.BracketRound` | gunnyscript/src/parser.rs:97-100 | a round that stops on a bracket token read a one-byte bracket and did not move |
| `Parser.NextRoundIntended` | gunnyscript/src/parser.rs:55-113 | with brackets consuming their byte, every round that returns a token has moved forward |
| `Parser.NextIntended` | gunnyscript/src/parser.rs:54-116 | with brackets consuming their byte, every token `next` returns moves the lexer on |
| `Parser.BracketConsumed` | gunnyscript/src/parser.rs:97-100 | with the correction, a bracket gives its token once and the lexer moves to the next byte on the same line |
| `Parser.Lexer.constructor` | gunnyscript/src/parser.rs:39-49 | a lexer over well-formed input starts at position 0 on line `START_LINE` |
| `Parser.Lexer.Advance` | gunnyscript/src/parser.rs:120-129 | demands `peek.from == pos` (the program panics otherwise); the position grows by the slice length and the line by the peek's lines |
| `Parser.Lexer.ParseDocstringLine` | gunnyscript/src/parser.rs:138-142 | result and new state are `DocstringSpec` of the old state |
| `Parser.Lexer.SkipComment` | gunnyscript/src/parser.rs:144-153 | result and new state are `SkipSpec` of the old state |
| `Parser.Lexer.TryParseCommentOrDocstring` | gunnyscript/src/parser.rs:131-154 | result and new state are `CommentSpec` of the old state |
| `Parser.Lexer.CommentBranch` | gunnyscript/src/parser.rs:133-153 | given the three-character look-ahead, result and new state are `CommentSpec` of the old state |
| `Parser.Lexer.NextRoundStep` | gunnyscript/src/parser.rs:56-113 | one pass of the `while` loop in `next` is `NextRound` of the old state |
| `Parser.Lexer.Next` | gunnyscript/src/parser.rs:54-116 | the item returned and the new position and line are `NextSpec` of the old state |
| `ParserTests.UnexpectedEmojiTest` | gunnyscript/src/parser.rs:347-354 | the four-byte emoji fails with `UnexpectedChar` on line 1 |
| `ParserTests.UnexpectedDollarTest` | gunnyscript/src/parser.rs:347-354 | `$` fails with `UnexpectedChar` on line 1 |
| `ParserTests.UnexpectedAfterBlanksTest` | gunnyscript/src/parser.rs:347-354 | `   $` skips the blanks and fails with `UnexpectedChar` on line 1 |
| `ParserTests.WhitespaceTest` | gunnyscript/src/parser.rs:315-317 | `" "`, `"\r"` and `" \t\r"` yield no item |
| `ParserTests.PeekAscii` | gunnyscript/src/parser.rs:216-233 | over ASCII, a peek of at most `len` characters without `until` takes `len` bytes or all that is left, counting their newlines |
| `ParserTests.PeekThree` | gunnyscript/src/parser.rs:132 | over ASCII without newlines, the three-character look-ahead is the first three bytes, or all of them |
| `ParserTests.SlashRound` | gunnyscript/src/parser.rs:67-72 | on `/` at any position, a skipped comment carries on from after it and a docstring stops with its token |
| `ParserTests.LineCommentSkipped` | gunnyscript/src/parser.rs:146-153 | a `//` comment running to the end of ASCII input yields no item |
| `ParserTests.LineCommentOutcome` | gunnyscript/src/parser.rs:146-153 | such a comment is skipped to the end of the input on the same line |
| `ParserTests.LineCommentBranch` | gunnyscript/src/parser.rs:146-147 | input starting with `//` but not `///` takes the line-comment branch |
| `ParserTests.SkipToEnd` | gunnyscript/src/parser.rs:147 | skipping to a newline over ASCII text without one commits all of it |
| `ParserTests.DocstringLexed` | gunnyscript/src/parser.rs:133-142 | an ASCII `///` line without a newline gives one docstring token of the text after `///`, then the iteration ends |
| `ParserTests.DocstringBranch` | gunnyscript/src/parser.rs:133-136 | input starting with `///` takes the docstring branch after the three bytes |
| `ParserTests.DocstringToEnd` | gunnyscript/src/parser.rs:138-142 | the rest of a docstring line running to the end of ASCII input is all of it |
| `ParserTests.LineCommentTest` | gunnyscript/src/parser.rs:318 | `// A comment` yields no item |
| `ParserTests.DocstringTest` | gunnyscript/src/parser.rs:320 | `/// Docstring` yields the docstring ` Docstring` and then ends |
| `ParserTests.PeekToCommentEnd` | gunnyscript/src/parser.rs:227-231 | an unbounded peek until `*/` over ASCII text whose first `*/` ends the input takes all of it, counting the newlines on the way (the general case is `Parser.BlockCommentPeek`) |
| `ParserTests.SkipToCommentEnd` | gunnyscript/src/parser.rs:144-145 | skipping an ASCII `/* ... */` whose first terminator is at its end commits all of it |
| `ParserTests.BlockCommentSkipped` | gunnyscript/src/parser.rs:144-153 | such a block comment yields no item and moves the line on by its newlines |
| `ParserTests.BlockCommentBranch` | gunnyscript/src/parser.rs:144-145 | input starting with `/*` takes the block-comment branch |
| `ParserTests.BlockCommentTest` | gunnyscript/src/parser.rs:319 | the three-line block comment of the test yields no item |
| `ParserTests.PeekThreeAt` | gunnyscript/src/parser.rs:132 | over ASCII text with three bytes left, the three-character look-ahead at any position is those three bytes |
| `ParserTests.CommentBranchAt` | gunnyscript/src/parser.rs:132-150 | at a `/` in ASCII text, `/*` takes the block-comment branch, `///` the docstring branch after the three bytes, and `//` followed by anything else the line-comment branch |
| `ParserTests.BlockCommentRound` | gunnyscript/src/parser.rs:67-72 | a round of `next` on a block comment in ASCII text carries on from just after its first terminator |
| `ParserTests.LineCommentRound` | gunnyscript/src/parser.rs:67-72 | a round of `next` on a `//` comment in ASCII text carries on from just after its newline |
| `ParserTests.DocstringRound` | gunnyscript/src/parser.rs:67-72 | a round of `next` on `///` in ASCII text stops with the docstring token of the rest of the line, newline included, just after that newline |
| `ParserTests.CommentsTrace` | gunnyscript/src/parser.rs:55-72 | over any ASCII text laid out as that test input (a blank, a block comment, two `///` lines, a blank, a line comment, then only blanks), `next` yields the two docstring lines' texts in order and then ends |
| `ParserTests.MixedCommentsTest` | gunnyscript/src/parser.rs:321-335 | the last test input (a newline, a three-line block comment, two docstring lines, a blank line, a line comment and sixteen spaces) yields ` A multi-line\n`, then ` docstring\n`, then ends |
| `ParserTests.IntendedBracketsTest` | gunnyscript/src/parser.rs:97-98 | with the correction, `{}` lexes to object start, object end, and the end of the iteration |
| `Encoding.Bytes.constructor` | gunnyscript/src/encoding.rs:39 | a cursor over the given bytes |
| `Encoding.Bytes.HasRemaining` | gunnyscript/src/encoding.rs:41 | true iff bytes remain |
| `Encoding.Bytes.Remaining` | gunnyscript/src/encoding.rs:50 | the number of bytes left |
| `Encoding.Bytes.GetU8` | gunnyscript/src/encoding.rs:44 | takes and returns the first byte |
| `Encoding.CharFrom` | gunnyscript/src/encoding.rs:73 | succeeds exactly on Unicode scalar values (no surrogate, at most 0x10FFFF) and keeps the value |
| `Encoding.DecodeSpec` | gunnyscript/src/encoding.rs:39-75 | the decoder takes at most the bytes there are, at least one from a non-empty cursor, and exactly the lead byte's width when it returns a character |
| `Encoding.DecodeChar` | gunnyscript/src/encoding.rs:39-75 | the result and the bytes left in the cursor are those of `DecodeSpec` |
| `Encoding.DecodeEmpty` | gunnyscript/src/encoding.rs:40-43 | an empty cursor gives `Ok(None)` and takes nothing |
| `Encoding.DecodeInvalidLead` | gunnyscript/src/encoding.rs:44-48 | a byte 0x80-0xC1 or 0xF5-0xFF gives `InvalidUtf8` after taking just that byte |
| `Encoding.DecodeIncomplete` | gunnyscript/src/encoding.rs:49-52 | too few bytes after a lead byte give `Ok(None)` with the lead byte already taken |
| `Encoding.DecodeAscii` | gunnyscript/src/encoding.rs:53-55 | an ASCII byte decodes to itself and takes one byte |
| `Encoding.DecodeConsumption` | gunnyscript/src/encoding.rs:44-70 | which bytes each outcome takes: one on an invalid lead, the lead alone when incomplete, the whole width otherwise |
| `Encoding.DecodeComplete` | gunnyscript/src/encoding.rs:53-74 | a complete sequence of a valid lead byte is taken whole and decodes to its computed (unmasked) value when that is a scalar value, and to `InvalidUtf8` when it is not |
| `Encoding.DecodeNonScalar` | gunnyscript/src/encoding.rs:73 | two examples of the failing case: `ED 20 00` computes the surrogate 0xD800 and `F4 90 80 80` computes 0x192080, and both are `InvalidUtf8` after taking the whole width |
| `Encoding.DecodeAcceptsEncodedSurrogate` | gunnyscript/src/encoding.rs:60-63 | the encoded surrogate `ED A0 80` is not refused: unmasked, it computes U+F880 |
| `Encoding.DecodeUnmaskedCounterexample` | gunnyscript/src/encoding.rs:56-59 | `C4 80`, the encoding of U+0100, decodes as written to U+0180 |
| `Encoding.DecodeIntended` | gunnyscript/src/encoding.rs:54-73 | the masked decoder takes at most the bytes there are |
| `Encoding.EncodeDecodes` | gunnyscript/src/encoding.rs:54-70 | masking the continuation bytes of any RFC 3629 encoding gives back the scalar value, and the lead byte's width is the encoding's length |
| `Encoding.DecodeIntendedRoundTrip` | gunnyscript/src/encoding.rs:39-75 | the masked decoder reads back every encoded character, taking exactly its bytes, whatever follows |
| `ScriptNumber.AsU64` | gunnyscript/src/number.rs:22-40 | unsigned gives itself, signed iff non-negative, fixed iff strictly positive and whole (so fixed zero gives `None`) |
| `ScriptNumber.AsI64` | gunnyscript/src/number.rs:42-60 | unsigned iff strictly below `i64::MAX`, signed always, fixed iff whole, each keeping its value |
| `ScriptNumber.AsI64Intended` | gunnyscript/src/number.rs:44-50 | unsigned values up to and including `i64::MAX` convert; other variants as written |
| `ScriptNumber.AsI64RefusesMax` | gunnyscript/src/number.rs:45 | `i64::MAX` held unsigned is refused as written and accepted by the intended bound |
| `ScriptNumber.AsFixed` | gunnyscript/src/number.rs:62-68 | integers become the same value in fixed point and fixed stays as it is, for unsigned values that fit |
| `ScriptNumber.FixedRoundTrip` | gunnyscript/src/number.rs:22-68 | an integer converted to fixed point and back is itself, except that `as_u64` refuses zero |
| `ScriptNumber.VariantsDiffer` | gunnyscript/src/number.rs:14-19 | the derived equality distinguishes `Unsigned(1)`, `Signed(1)` and `Fixed(1)` |
| `ScriptNumber.ToDigit` | gunnyscript/src/number.rs:91 | a digit's value is below the radix |
| `ScriptNumber.Accumulate` | gunnyscript/src/number.rs:89-119 | the digit loop's result stays within the target type, and an error is never `Empty` |
| `ScriptNumber.FromStrRadix` | gunnyscript/src/number.rs:89-119 | the result is within the target type, and `Empty` is returned exactly on empty text |
| `ScriptNumber.AccumulateReaches` | gunnyscript/src/number.rs:89-119 | the digit loop succeeds iff every character is a digit and the positional value stays within the type, and returns that value; otherwise it reports the matching overflow |
| `ScriptNumber.DigitsParse` | gunnyscript/src/number.rs:101-107 | unsigned digits parse to their positional value when it fits, and to `PosOverflow` otherwise |
| `ScriptNumber.NegativeDigitsParse` | gunnyscript/src/number.rs:95-99 | a minus sign and digits parse to the negated value when it fits an `i64`, and to `NegOverflow` otherwise |
| `ScriptNumber.FromStr` | gunnyscript/src/number.rs:74-86 | the dispatch: text starting with `0x` gives an unsigned value or `InvalidHexNumber`; otherwise text with `.` gives exactly the fixed-point reader's value or its error; otherwise a leading `-` gives a signed value or `InvalidSignedNumber`, a leading `0` with more after it an unsigned value or `InvalidOctalNumber`, and anything else an unsigned value or `InvalidUnsignedNumber`; conversely a signed result came from text starting with `-`, a fixed one from text with `.` |
| `ScriptNumber.OctalLeadingZero` | gunnyscript/src/number.rs:81-82 | a leading `0` does not change an octal value |
| `ScriptNumber.DecimalRoundTrip` | gunnyscript/src/number.rs:83-84 | every `u64` written in decimal parses back to itself |
| `ScriptNumber.NegativeRoundTrip` | gunnyscript/src/number.rs:79-80 | every negative `i64` written after `-` parses back to itself |
| `ScriptNumber.HexRoundTrip` | gunnyscript/src/number.rs:75-76 | every `u64` written in hexadecimal after `0x` parses back to itself |
| `ScriptNumber.OctalRoundTrip` | gunnyscript/src/number.rs:115-119 | every `u64` written in octal after a `0` parses back to itself |
| `ScriptNumber.FromStrErrors` | gunnyscript/src/number.rs:74-119 | empty text, a bare `0x`, a bare `-` and `08` give their own error variants, and `0x+f` is accepted |
| `ScriptNumber.FromStrOverflow` | gunnyscript/src/number.rs:101-107 | a decimal value above `u64::MAX` is `InvalidUnsignedNumber(PosOverflow)` |
| `ScriptNumber.FromStrFixed` | gunnyscript/src/number.rs:109-113 | text with `.` not starting with `0x` is whatever the fixed-point reader makes of it, success or error |
| `GunnyValue.RelaxedEq` | gunny/src/value.rs:116-157 | true whenever the types are equal or either is `Unknown`; an array or map matches only an array or map (or `Unknown`) |
| `GunnyValue.RelaxedEqAsymmetric` | gunny/src/value.rs:131-156 | `Option<Bool>` matches `Bool`, but `Bool` against `Option<Bool>` reaches the panic |
| `GunnyValue.RelaxedEqOnPlainTypes` | gunny/src/value.rs:116-157 | on types without `Option` and `Unknown`, the comparison is plain equality |
| `GunnyValue.ToSqliteNullableIgnoresOptions` | gunny/src/value.rs:164-182 | the column type is that of the type under all options, with `NOT NULL` decided by the caller's flag alone; an `Unknown` under options is an error |
| `GunnyValue.ToSqliteNeverNullable` | gunny/src/value.rs:160-182 | every column `to_sqlite` produces ends in ` NOT NULL`, so `Option<Bool>` is `BOOL NOT NULL` |
| `GunnyValue.ToSqliteIntendedNullability` | gunny/src/value.rs:164-182 | with the intended mapping, a column is nullable exactly when its type is an `Option` |
| `GunnyValue.TypeNameRoundTrip` | gunny/src/value.rs:51-89 | every simple type's name reads back as that type, `Float` reads as `Fixed`, and `Unknown` is refused |
| `GunnyValue.CompositeNamesUnparsed` | gunny/src/value.rs:87-94 | the names of option, array and map types go to the unimplemented composite parser |
| `GunnyValue.FormatIgnoresCase` | gunny/src/value.rs:197-206 | each format's extension names it in any case; upper-casing never changes the result, and an unknown name is an error carrying the text as given |
| `GunnyValue.KelvinSignMarkdown` | gunny/src/value.rs:198-203 | `MAR\u{212A}DOWN` (with the Kelvin sign) names Markdown |
| `GunnyValue.LeastKey` | gunny/src/value.rs:291-297 | the first value of a map is under the least key in the order of `String` |
| `GunnyValue.GuessedTypeMatchesSchema` | gunny/src/value.rs:273-299 | the guessed type of a value that conforms to a schema type relaxed-matches it without panicking |
| `GunnyValue.UnwrapsMatches` | gunny/src/value.rs:132-139 | a type that is a simple type under options relaxed-matches that simple type |
| `GunnyValue.AccessorsFollowType` | gunny/src/value.rs:301-347 | each accessor succeeds exactly on values of its type under options; signed and unsigned convert into each other under the stated bounds |
| `GunnyValue.AsSignedRefusesMax` | gunny/src/value.rs:313-319 | `i64::MAX` held unsigned is refused as written and accepted by the intended bound |
| `GunnyValue.AsSignedIntendedExact` | gunny/src/value.rs:309-323 | with the intended bound, `as_signed` succeeds on every integer that fits, under options, keeping its value |
| `GunnyValue.EmptyValues` | gunny/src/value.rs:275-297 | a missing option and empty collections have `Unknown` inside, and every accessor gives `None` on a missing option |
| `GunnyData.SplitJoin` | gunny/src/data.rs:258-259 | splitting on the delimiter loses nothing: the pieces joined with it give the text back, and no piece holds it |
| `GunnyData.NonEmpty` | gunny/src/data.rs:260 | the kept pieces are no more than the pieces and none is empty |
| `GunnyData.NoDelimiterNoFrontMatter` | gunny/src/data.rs:254-267 | text not starting with `---\n` or `---\r\n` has no front matter and is all body |
| `GunnyData.DecidedBy` | gunny/src/data.rs:256-264 | text starting with a delimiter has front matter iff its non-empty pieces are exactly two, and then they are the front matter and the body |
| `GunnyData.FrontMatterOfDocument` | gunny/src/data.rs:258-264 | delimiter, front matter, delimiter, body gives exactly that front matter and body |
| `GunnyData.FurtherDelimiterNoFrontMatter` | gunny/src/data.rs:262-267 | a further delimiter in the body leaves the whole text as body |
| `GunnyData.EmptyBodyNoFrontMatter` | gunny/src/data.rs:262-267 | an empty body leaves the whole text as body |
| `GunnyData.TrailingDelimiterDropped` | gunny/src/data.rs:258-264 | a delimiter at the very end leaves an empty piece, which is dropped |
| `GunnyData.TestDocument` | gunny/src/data.rs:441-452 | the test document's front matter is its two YAML lines and its body is the rest |
| `GunnyData.FrontMatterShape` | gunny/src/data.rs:254-268 | whenever front matter is found, the text is delimiters, the front matter, delimiters, the body, delimiters, with both parts non-empty and free of the delimiter |
| `GunnyData.NumberEq` | gunny/src/data.rs:343-362 | numbers are equal only within one variant, integers by value |
| `GunnyData.EqI64` | gunny/src/data.rs:408-415 | only a signed number with that value equals an `i64` |
| `GunnyData.EqU64` | gunny/src/data.rs:417-424 | only an unsigned number with that value equals a `u64` |
| `GunnyData.CheckedConversions` | gunny/src/data.rs:326-340 | `as_i64` succeeds on signed and on unsigned up to `i64::MAX`, `as_u64` on unsigned and non-negative signed; each result equals the number, and converting back gives it again |
| `GunnyData.EqualNumbersConvertEqually` | gunny/src/data.rs:326-362 | equal integer numbers convert equally |
| `GunnyData.EmptyObject` | gunny/src/data.rs:32-34 | an object with no keys |
| `GunnyData.AsBool` | gunny/src/data.rs:77-82 | `Some` exactly on a boolean, with its value |
| `GunnyData.AsStr` | gunny/src/data.rs:84-89 | `Some` exactly on a string, with its value |
| `GunnyData.AsI64` | gunny/src/data.rs:98-103 | `None` unless a number, and then the number's `as_i64` |
| `GunnyData.AsU64` | gunny/src/data.rs:105-110 | `None` unless a number, and then the number's `as_u64` |
| `GunnyData.FromVec` | gunny/src/data.rs:143-150 | an array of the converted elements, in order |
| `GunnyData.FromMap` | gunny/src/data.rs:152-172 | an object with the same keys, each value converted |
| `GunnyData.ConversionsReadBack` | gunny/src/data.rs:113-141 | each `From` conversion is read back by its accessor, and the other accessors give `None` |
| `GunnyContext.AlreadyRegistered` | gunny/src/context.rs:51-58 | a registered name whose content hash is recorded under it is accepted again and nothing changes |
| `GunnyContext.DuplicateNameRefused` | gunny/src/context.rs:51-62 | a registered name changes nothing, and is refused with `TemplateAlreadyExists` exactly when its hash is not recorded under that name |
| `GunnyContext.NewNameRecorded` | gunny/src/context.rs:64-66 | a new name records its hash first; the name is registered iff the template compiles, and otherwise the error is the compile error |
| `GunnyContext.RegisterTwice` | gunny/src/context.rs:38-67 | registering the same template under the same name a second time is accepted and changes nothing |
| `GunnyContext.LatestNamePerHash` | gunny/src/context.rs:65 | the same content under a second name overwrites the hash entry, which keeps only the latest name |
| `GunnyContext.FailedCompileLeavesHash` | gunny/src/context.rs:65-66 | a template that fails to compile leaves its hash recorded under a name that is not registered |
| `GunnyContext.RegisterViewKeepsNames` | gunny/src/context.rs:71-79 | a taken name is refused with `ViewAlreadyExists` and nothing changes; otherwise the view is added under its name and the others are kept, every view staying filed under its own name |
| `GunnyContext.Context.constructor` | gunny/src/context.rs:21-29 | empty tables |
| `GunnyContext.Context.RegisterTemplate` | gunny/src/context.rs:38-67 | the result and the new tables are `RegisterTemplateSpec` of the old ones; the views are unchanged |
| `GunnyContext.Context.RegisterView` | gunny/src/context.rs:71-79 | the result and the new views are `RegisterViewSpec` of the old ones; the template tables are unchanged |
| `GunnyConfig.SetAllContents` | gunny/src/config.rs:31-40 | after a sequence of sets, the keys are the old ones plus those set, each set key holding its last value and every other key its old one |
| `GunnyConfig.Config.constructor` | gunny/src/config.rs:10-11 | no entries |
| `GunnyConfig.Config.ContainsKey` | gunny/src/config.rs:26-28 | true iff `get` finds a value |
| `GunnyConfig.Config.Get` | gunny/src/config.rs:43-45 | the key's value, or `None` when the key is absent |
| `GunnyConfig.Config.Set` | gunny/src/config.rs:31-40 | returns the previous value and stores the serialized one, leaving every other key; a serialization failure is an error that changes nothing |
| `GunnyConfig.Config.Remove` | gunny/src/config.rs:48-50 | returns the value that was there; afterwards the key is gone and every other key keeps its value |
| `GunnyConfig.Config.With` | gunny/src/config.rs:15-22 | `set`, then the configuration itself |
| `GunnyConfig.Config.ToJson` | gunny/src/config.rs:58-62 | an object with exactly the configuration's entries |
| `GunnyConfig.ChainedWith` | gunny/src/config.rs:15-22 | a chain of `with` calls on a default configuration holds exactly the keys given, each with its last value |
| `GunnyConfig.ConfigTest` | gunny/src/config.rs:73-79 | the test's three `with` calls give its three keys with their values |

## Left out

- The value and identifier parsers of the lexer (`try_parse_null` through `parse_date`) are `todo!()`. `next` hands the byte over as an `Unimplemented` item naming the parser and does not move. Their results are not modelled.
- `Lexer`'s memoized `len` field is not a separate field: it is always the length of `src`.
- Lexer input is well-formed UTF-8 (a `&str`). Because of that, the docstring's `Utf8Error` branch and `Peek`'s `IncompleteUtf8Char` are proved unreachable from the lexer, though the peek lemmas cover them. An unbounded `Peek` over arbitrary bytes needs the walk to terminate, which a width-0 byte would prevent; this is a precondition.
- `Parser.NextSpec`: its own contract states only that the position stays on a boundary of the input. What `next` returns is stated by the lemmas about it: `BlankInputEnds`, `BracketRepeats`, `CommentCases` and the tests.
- `Utf8Decoder` is not a separate type: `decode_char` is a method over the `Bytes` cursor class, which models only `has_remaining`, `remaining` and `get_u8` of the bytes crate.
- `Fixed::from_str` (decimal fixed-point parsing) is a parameter of `FromStr`, because it belongs to the `fixed` crate. `from_str_radix` and `parse` are modelled as their documented digit loop (an optional `+`, a `-` for signed types, digits of the radix, overflow checks).
- `Fixed::from_num` panics on unsigned values above the largest whole `I64F64`. This is a precondition of `ScriptNumber.AsFixed`.
- `GunnyValue.RelaxedEq`: the panic on two different simple types is a precondition (`RelaxedEqDefined`), and the lemmas name the inputs that reach it.
- `str::to_lowercase` is modelled for ASCII letters and the Kelvin sign only. Other characters that lower-case to the ASCII letters of a format name do not exist, so the format lookup is not affected.
- The order of map keys used by `get_type` (the least key of a `BTreeMap<String, _>`) is the lexicographic order of characters, which equals the order of their UTF-8 bytes.
- Floating point: `data::Number::Float` payloads are 64-bit patterns, and their equality is a parameter. `as_f64` in both crates is left out.
- The serde, JSON, YAML and TOML conversions, `load_as`, `load_from_file`, `Value::from_str` and `parse_markdown` are left out (foreign libraries and file I/O). `Config::set`'s `serde_json::to_value` is a parameter that may fail.
- `Config::iter` is left out: it visits the map in arbitrary order, which the map model does not have.
- In `Context`, the Handlebars registry is a set of template names. Compiling a template and `sha256` are parameters. The `debug!` logging, view loading, and rendering (file system, glob, Handlebars, JavaScript) are left out.
- Integers are unbounded in the model. `u64`, `i64` and `I64F64` are ranges of `int`, and every bound the code checks is written out. No operation in the modelled code wraps around.

## Findings

| source | as written | input that shows it | evidently intended | confidence | as-written member | corrected member |
|---|---|---|---|---|---|---|
| gunnyscript/src/encoding.rs:56-70 | continuation bytes are ORed in without masking off their `10` marker bits | `C4 80` (U+0100) decodes to U+0180; `ED A0 80` (a surrogate) is accepted as U+F880 | `b & 0x3F` on each continuation byte, so every RFC 3629 encoding decodes to its scalar value | high (not executed) | `Encoding.DecodeUnmaskedCounterexample` | `Encoding.DecodeIntendedRoundTrip` |
| gunnyscript/src/number.rs:45 | `as_i64` accepts an unsigned value only when `u < i64::MAX` | `Unsigned(9223372036854775807)` gives `None` | `u <= i64::MAX`, as `data::Number::as_i64` does with `i64::try_from` | high (not executed) | `ScriptNumber.AsI64RefusesMax` | `ScriptNumber.AsI64Intended` |
| gunny/src/value.rs:315 | `as_signed` accepts an unsigned value only when `u < i64::MAX` | `Value::Unsigned(9223372036854775807)` gives `None` | `u <= i64::MAX` | high (not executed) | `GunnyValue.AsSignedRefusesMax` | `GunnyValue.AsSignedIntendedExact` |
| gunny/src/value.rs:169-180 | an `Option` passes `nullable = true` to its inner type, but its own call still appends the suffix chosen by its caller's flag | `Option<Bool>` maps to `BOOL NOT NULL` | an optional column is nullable: `Option<Bool>` maps to `BOOL` | high (not executed) | `GunnyValue.ToSqliteNeverNullable` | `GunnyValue.ToSqliteIntendedNullability` |
| gunnyscript/src/parser.rs:260-261 | `slice_rotl` moves only the last `n` bytes one place left instead of every byte `n` places | pushing `[4]` into `[1,2,3]` gives `[1,3,4]` | a rolling window: `[2,3,4]`; the two patterns the lexer uses are at most two bytes long, where both agree (`Parser.PushAsWrittenAgreesOnShortBuffers`) | medium (not executed) | `Parser.PushAsWrittenKeepsOldestByte` | `Parser.SlicePush` |
| gunnyscript/src/parser.rs:97-100 | a bracket token is returned without moving past the bracket | `{` is returned by every call of `next`, so the iteration never ends | the bracket is consumed like every other token | high (not executed) | `Parser.BracketRepeats` | `Parser.BracketConsumed` |

The lexer methods (`Parser.Lexer.Next`) model the bracket behaviour as written.
The scan (`Parser.PeekFromSlice` and `PeekSpec`) likewise pushes with
`Parser.SlicePushAsWritten`. The lexer's patterns are at most two bytes
long, so by `Parser.PushAsWrittenAgreesOnShortBuffers` this is the push
`Parser.SlicePush` would give. `Parser.PushTwo` is that push on the
two-byte buffer of `*/`.
`NextIntended` is the corrected specification next to it. The decoder method
(`Encoding.DecodeChar`) also follows the code as written, while the round trip
is proved for `DecodeIntended`.

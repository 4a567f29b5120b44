# folly string utilities: a model in Dafny

This project models the byte-string routines of folly's `String` library that
`folly/test/StringTest.cpp` exercises, with proofs of what those tests assert
and of the general laws behind them:

- **URI percent-encoding.** `uriEscape` and `uriUnescape` work in the modes
  ALL, QUERY and PATH. `uriEscape` writes lower-case `%XX`. QUERY writes `+`
  for a space, and PATH lets `/` through. `uriUnescape` reads `%XX` in either
  case and maps `+` to a space only in QUERY mode. A truncated or non-hex
  `%` sequence is an error. This is the percent-encoding of section 2.1 of
  RFC 3986, plus the form-style `+`.
- **C escapes.** `cEscape` writes `\\`, `\"`, `\?`, `\n`, `\r` and `\t`, and
  writes a three-digit octal escape for every other byte outside 32..126.
  `cUnescape` reads the C one-letter escapes, octal escapes of up to three
  digits and `\x` escapes of any number of hex digits. A hex or octal value
  is cut to eight bits. In strict mode, the test's and the library's
  default, a trailing `\`, a bare `\x` and an unknown escape are errors. In
  lenient mode they are copied through.
- **`backslashify`.** Control bytes, bytes above `~` and the backslash become
  `\r`, `\n`, `\t`, `\a`, `\b`, `\0`, `\\`, or `\xHH` in hex style.
- **Hex.** `hexlify` writes two lower-case digits per byte and always
  succeeds. It can append to its output or replace it. `unhexlify` reads
  pairs of digits of either case. It fails on an odd length, leaving the
  output alone, and on a pair that is not two hex digits, after resizing
  the output.
- **Splitting.** `split(delim, input, out, ignoreEmpty)` appends to `out`
  the pieces between non-overlapping occurrences of a one- or many-byte
  delimiter, found left to right. An empty delimiter, or one longer than the
  input, leaves the input whole, and `ignoreEmpty` drops empty pieces. The
  fixed-arity `split<exact>(delim, input, outs...)` either fills exactly `n`
  outputs or, without `exact`, lets the last output take the rest.
- **`join`.** The elements with the separator between each two of them.

Byte strings are `seq<byte>`, where `byte` is the subset of `char` below 256.
This lets the tests' string literals stand for byte strings. The value-returning
forms (`cEscape<std::string>(…)`, `join(':', v)`) are pure functions. The
output-parameter forms are methods on a caller-owned buffer class:
`Buffers.ByteString` stands for a `std::string`/`fbstring` and
`Buffers.StringVector` for a vector of pieces. Their loops follow the library's
and are proved against the pure functions. A failing call in the library
throws `std::invalid_argument`; here it returns an `Err`, a `Fail` outcome or
`false`.

The library sources (`folly/String.h`, `folly/String-inl.h`, `folly/String.cpp`
and the escape-table generator) are not part of this model. The behaviour of
these routines is the test file's, and where the tests leave something open
(the exact escape tables, lenient `cUnescape`, the signed-`char` arithmetic of
`hexlify`, the left-to-right delimiter scan, when `split<exact>` fails) the
model follows folly's published implementation of the same routines.

Files:

- `wrappers.dfy`: `Option`, `Result`, `Outcome`.
- `bytes.dfy`: the byte type, the `hexValues` and hex-digit tables, and
  printability.
- `buffers.dfy`: the buffer classes.
- One file per routine family: `uri.dfy`, `cescape.dfy`, `backslashify.dfy`,
  `hex.dfy`, `split.dfy`, `join.dfy`.

## Model

| member | source | states |
|---|---|---|
| Bytes.HexTable | folly/test/StringTest.cpp:188-192 | a byte has a value below 16 exactly when it is a digit 0-9 or a letter A-F or a-f, as `isHex` says |
| Bytes.LowerHex | folly/test/StringTest.cpp:134-140 | the digit written for a nibble is a lower-case hex digit that reads back as that nibble |
| UriEscapes.UriEscapeByte | folly/test/StringTest.cpp:134-140 | one byte's escape is printable, is the byte itself exactly when the mode lets the byte through, and is otherwise one or three bytes |
| UriEscapes.UriEscapeSeparators | folly/test/StringTest.cpp:134-140 | `,` becomes `%2c` in every mode; space becomes `+` in QUERY and `%20` otherwise; `/` stays in PATH and becomes `%2f` otherwise |
| UriEscapes.UriEscape | folly/test/StringTest.cpp:158-185 | every escaped byte is printable (the `expectPrintable` bound) and the output is between one and three times the input's length |
| UriEscapes.UriEscapeAppend | folly/test/StringTest.cpp:167-185 | escaping works byte by byte: the escape of a concatenation is the concatenation of the escapes |
| UriEscapes.UriEscapeInto | folly/test/StringTest.cpp:175-181 | `uriEscape(in, out)` appends the escape of `in` to what `out` held |
| UriEscapes.UriUnescapeUriEscape | folly/test/StringTest.cpp:167-185 | for every input and every mode, unescaping the escape gives the input back (the two-byte loop, for all lengths) |
| UriEscapes.UriUnescapeEscapedByte | folly/test/StringTest.cpp:167-185 | the escape of one byte unescapes to that byte whatever follows it |
| UriEscapes.PercentDecoding | folly/test/StringTest.cpp:195-216 | `%XY` unescapes exactly when X and Y are both hex digits of either case, then to the single byte of value XY; otherwise it fails with the invalid-digit error |
| UriEscapes.UriUnescapeInto | folly/test/StringTest.cpp:142-156 | `uriUnescape(in, out)` succeeds exactly when the value form does and then appends its result; on failure it reports the value form's error and `out` keeps its old contents as a prefix |
| UriEscapes.UriEscapeAllExample | folly/test/StringTest.cpp:135 | `hello, /world` escapes to `hello%2c%20%2fworld` in ALL mode |
| UriEscapes.UriEscapePathExample | folly/test/StringTest.cpp:136-137 | in PATH mode it escapes to `hello%2c%20/world` |
| UriEscapes.UriEscapeQueryExample | folly/test/StringTest.cpp:138-139 | in QUERY mode it escapes to `hello%2c+%2fworld` |
| UriEscapes.UriUnescapePlainExample | folly/test/StringTest.cpp:143 | text without `%` unescapes to itself |
| UriEscapes.UriUnescapeAllExample | folly/test/StringTest.cpp:144 | `hello%2c%20%2fworld` unescapes to `hello, /world` |
| UriEscapes.UriUnescapePlusExample | folly/test/StringTest.cpp:145 | outside QUERY mode `+` stays: `hello%2c+%2fworld` gives `hello,+/world` |
| UriEscapes.UriUnescapeQueryExample | folly/test/StringTest.cpp:146-147 | in QUERY mode `+` becomes a space: the same input gives `hello, /world` |
| UriEscapes.UriUnescapeSlashExamples | folly/test/StringTest.cpp:148-149 | `%2f` and `%2F` both unescape to `/` |
| UriEscapes.UriUnescapeErrorExamples | folly/test/StringTest.cpp:150-155 | `hello%` and `hello%2` fail as incomplete, `hello%2g` fails as an invalid digit |
| CEscapes.CEscapeByte | folly/test/StringTest.cpp:108-113 | one byte's escape is printable and is the byte itself exactly when the escape table lets it through |
| CEscapes.CEscape | folly/test/StringTest.cpp:108-113 | the escaped text is printable and between one and four times the input's length |
| CEscapes.CEscapeAppend | folly/test/StringTest.cpp:108-113 | escaping works byte by byte over concatenation |
| CEscapes.CEscapeInto | folly/test/StringTest.cpp:108-113 | `cEscape(str, out)` appends the escape of `str` to `out` |
| CEscapes.OctalEscapeValue | folly/test/StringTest.cpp:112 | the three octal digits written for a non-printable byte accumulate back to that byte |
| CEscapes.OctalRun | folly/test/StringTest.cpp:120 | an octal escape takes the leading octal digits, at most three, and stops at the first other byte |
| CEscapes.HexRun | folly/test/StringTest.cpp:121 | a hex escape takes every leading hex digit, with no bound on their number |
| CEscapes.ReadOctal | folly/test/StringTest.cpp:120 | the octal-digit loop stops where `OctalRun` says and yields the digits' value cut to eight bits |
| CEscapes.ReadHex | folly/test/StringTest.cpp:121 | the hex-digit loop stops where `HexRun` says and yields the digits' value cut to eight bits |
| CEscapes.UnescapeSequence | folly/test/StringTest.cpp:116-131 | the loop body at a backslash succeeds exactly when the escape sequence there is valid, appends what it stands for and moves past it; on failure it appends nothing and reports the error |
| CEscapes.CUnescapeInto | folly/test/StringTest.cpp:116-131 | `cUnescape(str, out, strict)` succeeds exactly when the value form does and then appends its result; on failure it reports the value form's error and keeps `out`'s old contents as a prefix |
| CEscapes.CUnescapeCEscape | folly/test/StringTest.cpp:116-124 | for every input, strict or not, unescaping the escape gives the input back |
| CEscapes.CUnescapeEscapedByte | folly/test/StringTest.cpp:116-124 | the escape of one byte unescapes to that byte whatever follows it |
| CEscapes.CUnescapeNoBackslash | folly/test/StringTest.cpp:117 | text without a backslash unescapes to itself |
| CEscapes.CUnescapeLenientSucceeds | folly/test/StringTest.cpp:126-131 | the failures are strict-mode only: lenient unescaping never fails |
| CEscapes.CUnescapeStrictAgrees | folly/test/StringTest.cpp:116-131 | where strict unescaping succeeds, lenient unescaping gives the same bytes |
| CEscapes.CUnescapeFailsAfter | folly/test/StringTest.cpp:126-131 | a failing escape sequence after plain text makes the whole call fail with that sequence's error |
| CEscapes.HexEscapeReads | folly/test/StringTest.cpp:121-124 | `\x` and the two digits of a byte, not followed by another hex digit, read back as that byte |
| CEscapes.CEscapePlainExample | folly/test/StringTest.cpp:109 | `hello world` escapes to itself |
| CEscapes.CEscapeQuoteExample | folly/test/StringTest.cpp:110-111 | a backslash and a double quote get a backslash in front |
| CEscapes.CEscapeNewlineExample | folly/test/StringTest.cpp:112 | a newline is written `\n` |
| CEscapes.CEscapeOctalExample | folly/test/StringTest.cpp:113 | bytes 0xff and 0xfe are written `\377\376` |
| CEscapes.CUnescapePlainExample | folly/test/StringTest.cpp:117 | `hello world` unescapes to itself |
| CEscapes.CUnescapeQuoteExample | folly/test/StringTest.cpp:118-119 | `\\` and `\"` unescape to a backslash and a quote |
| CEscapes.CUnescapeNewlineExample | folly/test/StringTest.cpp:120 | `\n` unescapes to a newline |
| CEscapes.CUnescapeOctalNewlineExample | folly/test/StringTest.cpp:121 | `\012` unescapes to a newline |
| CEscapes.CUnescapeHexNewlineExample | folly/test/StringTest.cpp:122 | `\x0a` unescapes to a newline |
| CEscapes.CUnescapeOctalPairExample | folly/test/StringTest.cpp:123 | `\377\376` unescapes to bytes 0xff and 0xfe |
| CEscapes.CUnescapeHexPairExample | folly/test/StringTest.cpp:124 | `\xff\xfe` unescapes to bytes 0xff and 0xfe |
| CEscapes.CUnescapeErrorExamples | folly/test/StringTest.cpp:126-131 | strictly, `hello\` fails as an incomplete escape, `hello\x` as an incomplete hex escape and `hello\q` as an invalid escape |
| CEscapes.CUnescapeLenientExamples | folly/test/StringTest.cpp:126-131 | leniently, the same three inputs come back unchanged |
| Backslashing.BackslashifyByte | folly/test/StringTest.cpp:995-1000 | one byte's rendering is printable and is the byte itself exactly when the byte needs no escape |
| Backslashing.Backslashify | folly/test/StringTest.cpp:995-1000 | the rendering is printable and between one and four times the input's length |
| Backslashing.BackslashifyAppend | folly/test/StringTest.cpp:995-1000 | rendering works byte by byte over concatenation |
| Backslashing.BackslashifyInto | folly/test/StringTest.cpp:995-1000 | `backslashify(input, output, hex_style)` replaces `output` with the rendering of `input` |
| Backslashing.NamedUnescapeNamedEscape | folly/test/StringTest.cpp:998 | every short escape letter names one byte and is never `x` |
| Backslashing.UnbackslashifyByte | folly/test/StringTest.cpp:995-1000 | one byte's rendering reads back as that byte whatever follows it |
| Backslashing.UnbackslashifyBackslashify | folly/test/StringTest.cpp:995-1000 | in either style nothing is lost: reading the rendering back gives the input |
| Backslashing.BackslashifyPlainRun | folly/test/StringTest.cpp:997 | text that needs no escape renders as itself |
| Backslashing.BackslashifyPlainExample | folly/test/StringTest.cpp:997 | `abc` renders as `abc` |
| Backslashing.BackslashifyReturnExamples | folly/test/StringTest.cpp:998-999 | `abc\r` renders as `abc\r` (backslash, `r`), and in hex style as `abc\x0d` |
| Backslashing.BackslashifyNulExample | folly/test/StringTest.cpp:1000 | two NUL bytes render as `\0\0` |
| HexCoding.SignedChar | folly/test/StringTest.cpp:959-962 | a byte read as a signed `char` lies in -128..127 and is the byte modulo 256 |
| HexCoding.HighNibble | folly/test/StringTest.cpp:959-965 | the arithmetic shift and mask of the signed `char` give the byte's high nibble, also for bytes 0xff and 0xb6 |
| HexCoding.LowNibble | folly/test/StringTest.cpp:959-965 | the mask of the signed `char` gives the low nibble |
| HexCoding.Hexlify | folly/test/StringTest.cpp:953-966 | two output bytes per input byte: the digit of its high nibble, then of its low nibble |
| HexCoding.HexlifyDigits | folly/test/StringTest.cpp:953-966 | every output byte is a lower-case hex digit |
| HexCoding.HexlifyAppend | folly/test/StringTest.cpp:953-966 | the digits of a concatenation are the concatenation of the digits |
| HexCoding.HexlifyInto | folly/test/StringTest.cpp:953-966 | `hexlify(input, output, append)` returns true and leaves the digits of `input` after the old contents when appending, alone otherwise |
| HexCoding.Unhexlify | folly/test/StringTest.cpp:968-993 | reading succeeds exactly on an even length of hex digits of either case, and `hexlify` of what it reads writes the input back with its letters in lower case |
| HexCoding.UnhexlifyInto | folly/test/StringTest.cpp:968-993 | `unhexlify(input, output)` returns true exactly when the value form succeeds, and then `output` holds its bytes; an odd length leaves `output` untouched; a bad pair leaves it resized to half the input |
| HexCoding.UnhexlifyHexlify | folly/test/StringTest.cpp:953-980 | for every input, reading back the digits `hexlify` wrote gives the input |
| HexCoding.DigitsOfHexPair | folly/test/StringTest.cpp:968-984 | the byte of a digit pair has those two digits, lower-cased |
| HexCoding.LowerDigit | folly/test/StringTest.cpp:968-984 | the lower-case form of a hex digit has the same value and leaves non-letters alone |
| HexCoding.HexlifyTextExample | folly/test/StringTest.cpp:954-957 | `0123` hexlifies to `30313233` |
| HexCoding.HexlifyBinaryExample | folly/test/StringTest.cpp:959-965 | `a`, NUL, `c`, 0xff, `e`, 0xb6, `g` hexlify to `610063ff65b667` |
| HexCoding.UnhexlifyExamples | folly/test/StringTest.cpp:969-992 | `30313233` gives `0123`, and `x` and `xy` fail |
| HexCoding.UnhexlifyBinaryExample | folly/test/StringTest.cpp:974-984 | `610063ff65b667` gives the seven bytes `a`, NUL, `c`, 0xff, `e`, 0xb6, `g` |
| Joining.Join | folly/test/StringTest.cpp:926-951 | for a non-empty list the output length is the elements' total plus one separator between each two elements |
| Joining.JoinEmptySeparator | folly/test/StringTest.cpp:945-947 | an empty separator concatenates the elements |
| Joining.JoinSnoc | folly/test/StringTest.cpp:926-951 | one more element adds one separator and that element at the end |
| Joining.JoinAppend | folly/test/StringTest.cpp:926-951 | joining two non-empty lists puts exactly one separator where they meet |
| Joining.JoinEmptyEnds | folly/test/StringTest.cpp:949-950 | empty first and last elements leave a separator at each end |
| Joining.JoinInto | folly/test/StringTest.cpp:926-951 | `join(sep, elems, output)` replaces `output` with the joined elements |
| Joining.JoinEmptyExample | folly/test/StringTest.cpp:929-931 | an empty list joins to an empty string |
| Joining.JoinTrailingExample | folly/test/StringTest.cpp:933-937 | `1`, `23`, `456`, `` with `:` gives `1:23:456:` |
| Joining.JoinSeparatorExample | folly/test/StringTest.cpp:939-943 | `1`, `23`, `456` with `-*-` gives `1-*-23-*-456` |
| Joining.JoinCharsExample | folly/test/StringTest.cpp:945-947 | the letters of `facebook` with an empty separator give `facebook` |
| Joining.JoinWrappedExample | folly/test/StringTest.cpp:949-950 | the same letters between two empty elements, with `_`, give `_f_a_c_e_b_o_o_k_` |
| Splitting.MatchAtSlice | folly/test/StringTest.cpp:620-624 | the delimiter occurs at a position exactly when the bytes there equal it |
| Splitting.FindFromFirst | folly/test/StringTest.cpp:855-896 | the search finds the first occurrence at or after its start, and reports none only when there is none |
| Splitting.JoinPieces | folly/test/StringTest.cpp:551-691 | nothing is lost: the pieces joined with the delimiter give the input back |
| Splitting.PiecesAvoid | folly/test/StringTest.cpp:620-635 | no piece contains the delimiter |
| Splitting.PiecesFind | folly/test/StringTest.cpp:551-691 | the first piece ends at the first occurrence and the rest are the pieces of what follows it; without an occurrence the input is one piece |
| Splitting.PiecesCount | folly/test/StringTest.cpp:576-588 | with a one-byte delimiter, without `ignoreEmpty`, there is one piece more than there are delimiter bytes |
| Splitting.PiecesJoin | folly/test/StringTest.cpp:737-750 | splitting at a byte the elements do not contain undoes joining them with it |
| Splitting.ScanLonger | folly/test/StringTest.cpp:633-635 | a delimiter longer than the input leaves the input whole |
| Splitting.SplitEmptyDelimiter | folly/test/StringTest.cpp:627-630 | an empty delimiter gives the input as one piece, none for an empty input with `ignoreEmpty` |
| Splitting.SplitEmptyInput | folly/test/StringTest.cpp:638-653 | an empty input gives one empty piece, or none with `ignoreEmpty` |
| Splitting.NonEmptyDrops | folly/test/StringTest.cpp:590-607 | dropping empty pieces keeps every non-empty piece and adds nothing |
| Splitting.SplitIgnoreEmpty | folly/test/StringTest.cpp:590-607 | with `ignoreEmpty` the output is exactly the non-empty pieces |
| Splitting.NonEmptyAppend | folly/test/StringTest.cpp:590-607 | dropping empty pieces works piece by piece, in order |
| Splitting.SplitInto | folly/test/StringTest.cpp:609-616 | `split(delim, input, out, ignoreEmpty)` appends the pieces to what `out` held, clearing nothing |
| Splitting.SplitFixed | folly/test/StringTest.cpp:855-896 | a successful fixed split fills exactly `n` outputs |
| Splitting.SplitFixedExact | folly/test/StringTest.cpp:863-895 | for a non-empty delimiter, `split<true>` succeeds exactly when there are `n` pieces, and then the outputs are the pieces |
| Splitting.SplitFixedLoose | folly/test/StringTest.cpp:858-889 | for a non-empty delimiter, `split<false>` succeeds exactly when there are at least `n` pieces; the first `n - 1` outputs are the first pieces and the last holds the rest, delimiters included |
| Splitting.SplitFixedEmptyDelimiter | folly/test/StringTest.cpp:855-896 | with an empty delimiter `split<true>` always fails, and `split<false>` leaves every output but the last empty and puts the whole input in the last |
| Splitting.SplitCommaExample | folly/test/StringTest.cpp:555-574 | `a,b,c` splits into `a`, `b`, `c` |
| Splitting.SplitEmptyPieceExamples | folly/test/StringTest.cpp:576-600 | `a,,c` gives `a`, ``, `c`, and `a`, `c` with `ignoreEmpty` |
| Splitting.SplitRunsExample | folly/test/StringTest.cpp:602-616 | `,,a,,c,,,` with `ignoreEmpty` gives `a`, `c` |
| Splitting.PiecesMultiByteExample | folly/test/StringTest.cpp:620-624 | `dabcabkdbkab` at `ab` gives `d`, `c`, `kdbk` and a trailing empty piece |
| Splitting.SplitMultiByteExample | folly/test/StringTest.cpp:620-624 | with `ignoreEmpty` that is `d`, `c`, `kdbk` |
| Splitting.SplitLongDelimiterExample | folly/test/StringTest.cpp:633-635 | `asfds` at a longer delimiter stays whole |
| Splitting.SplitLeadingExample | folly/test/StringTest.cpp:656-658 | `abcdefg` at `a` with `ignoreEmpty` gives `bcdefg` |
| Splitting.SplitBaseExample | folly/test/StringTest.cpp:661-668 | `All, , your base, are , , belong to us` at `, ` with `ignoreEmpty` gives four pieces |
| Splitting.PiecesBaseExample | folly/test/StringTest.cpp:669-676 | without `ignoreEmpty` it gives six, two of them empty |
| Splitting.SplitPartialExample | folly/test/StringTest.cpp:679-684 | `, Facebook, rul,es!, ` with `ignoreEmpty` gives `Facebook`, `rul,es!` |
| Splitting.PiecesPartialExample | folly/test/StringTest.cpp:685-690 | without `ignoreEmpty` it gives ``, `Facebook`, `rul,es!`, `` |
| Splitting.SplitRoundsExample | folly/test/StringTest.cpp:737-740 | `a_b,c_d` at `,` gives `a_b`, `c_d` |
| Splitting.SplitRoundsPiecesExample | folly/test/StringTest.cpp:741-749 | each of those at `_` gives its two letters |
| Splitting.SplitDashExample | folly/test/StringTest.cpp:834-836 | `a-b-c-d-f-e` at `-` gives six pieces |
| Splitting.SplitFixedFourExamples | folly/test/StringTest.cpp:858-863 | `a.b.c.d` fills four outputs in either form |
| Splitting.SplitFixedOneExample | folly/test/StringTest.cpp:861 | `a` fills one output without `exact` |
| Splitting.SplitFixedPairExample | folly/test/StringTest.cpp:884-886 | `a.b` fills `a` and `b` without `exact` |
| Splitting.SplitFixedThreeExamples | folly/test/StringTest.cpp:864-881 | `a.b.c` fills `a`, `b`, `c` in either form, and two outputs fail under `exact` |
| Splitting.SplitFixedRestExample | folly/test/StringTest.cpp:873-875 | `a.b.c` into two outputs without `exact` leaves `b.c` in the last |
| Splitting.SplitFixedShortExamples | folly/test/StringTest.cpp:872-895 | `a.b` fails into three outputs and into one under `exact`, fits one without it; `a` fails into two in either form |

## Left out

- Buffer reservation (`reserve`), allocators, and the difference between `std::string` and `fbstring` and between `std::vector` and `fbvector` are not modelled. Both vector kinds in the split tests are the same `Buffers.StringVector`.
- StringPiece aliasing is not modelled. Pieces are values here, so the test that pieces point into the input (folly/test/StringTest.cpp:817-823) has no counterpart.
- `splitTo` into a `std::set` through an inserter (folly/test/StringTest.cpp:825-832) is not modelled: a set inserter is outside the vector-appending core.
- The fixed-arity split's variadic output references are modelled as an `Option` of a sequence of `n` values, and `false` assigns none.
- Split with conversion of fields to `int` and `double` (folly/test/StringTest.cpp:898-924) is not modelled: numeric parsing, floating point and `std::range_error`.
- The `join` overloads over `int` and `char` elements (folly/test/StringTest.cpp:939-947) are modelled on the elements' decimal or one-byte text. The number-to-text conversion is not modelled.
- The exhaustive test loops (folly/test/StringTest.cpp:167-185 and 195-216) are not transcribed. `UriEscapes.UriUnescapeUriEscape` and `UriEscapes.PercentDecoding` state the same facts for every input.
- UriEscapes.UriUnescapeInto: on failure only the old contents being a prefix of `out` is stated, not the partially decoded bytes the library leaves behind.
- CEscapes.CUnescapeInto: on failure only the old contents being a prefix of `out` is stated, not the partially decoded bytes.
- HexCoding.UnhexlifyInto: after a bad digit pair only the length of `output` is stated, not which pairs were already written.
- Splitting.PiecesCount: the count of pieces is stated only for one-byte delimiters. For longer ones the non-overlapping count is not expressed as a function.
- `prettyPrint` and `prettyToDouble` are not modelled: floating-point scaling and rounding.
- `stringPrintf` and `stringAppendf` are not modelled: C varargs formatting.
- `humanify` is not modelled: its thresholds are not given by the tests.
- `hexDump` is not modelled: a column layout with two vectors.
- `errnoStr` and `demangle` are not modelled: calls into libc and the C++ ABI.
- The benchmarks, their random input generation and the test runner `main` are not modelled: timing, randomness and test plumbing.
- No failure of memory allocation or exception other than the documented `std::invalid_argument` results is modelled.

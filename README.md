# jsontokenizer in Dafny

A model of `tokenizer.go`, the streaming JSON lexer of jsontokenizer, and
proofs about it. The tokenizer reads its input through a fixed buffer
`buf` with a read cursor `bufp` and a fill end `bufe`, refilling the buffer
from an `io.Reader` whenever it runs out. It hands out one token at a time
(`Token`), and it streams the payload of a number or a string to an
`io.Writer` (`ReadNumber`, `ReadString`). It never validates document
structure and never decodes escapes.

The project has five modules:

- `Lexicon` (lexicon.dfy) holds the byte type, the two 256-entry tables
  `lookup` and `toklookup` as functions, the token kinds and the error kinds.
- `Streams` (streams.dfy) models the two ends of the tokenizer:
  - a `Source` value lists the bytes the reader will still deliver, how many
    of them each read delivers, and whether the reader fails instead of
    reporting EOF once the bytes run out;
  - a `Sink` value holds the bytes written so far and the room left before
    writes fail.
- `Scanning` (scanning.dfy) states what each operation does on the stream
  of bytes not yet consumed, independently of buffer boundaries:
  - `SkipWs` is the whitespace `peek` skips;
  - `NumRun` is the number `ReadNumber` copies;
  - `CloseAt` is where `ReadString` stops, using the one-previous-byte escape
    rule;
  - `WordMatch` and `ReadWordSpec` describe `readWord`;
  - `Lex` describes `Token`.

  The module also proves, for each of these, what it means, how it behaves
  when the stream is split in two, and round trips.
- `Extraction` (extraction.dfy) carries the facts that the loops establish
  one buffer at a time. It also defines `Extracted`, the promise of both
  extractors, including the write-failure paths.
- `JsonTokenizer` (tokenizer.dfy) holds the class `Tokenizer`, with fields
  `src`, `buf` (an `array`), `bufp` and `bufe`, and one method per function
  of the source.
  - The ghost function `Remaining()` is `buf[bufp..bufe]` followed by the
    bytes the source still holds.
  - Every method keeps the cursor invariant `Valid()`.
  - Every method states its effect as the prefix of `Remaining()` it
    consumes and what it returns or writes, through the `Scanning`
    functions.

  Loop bodies that do several things are split into helper methods that run
  the same statements in the same order, so that each proof stays small:
  - `SkipBuffered` for `peek`'s inner loop;
  - `MatchByte` and `Fill` for `readWord`;
  - `NumberRound`, `NumberChunk` and `FindRunEnd` for `ReadNumber`;
  - `StringRound`, `StringChunk` and `FindClose` for `ReadString`;
  - `ReadLiteral` and `Consume` for the branches of `Token`.

Because every contract is stated on the stream rather than on the buffer,
the results of `Token`, `ReadNumber` and `ReadString` do not depend on the
buffer size or on how the reader splits its reads, with two exceptions,
both as in the source; see "Left out":
- the invalid-JSON error of `Token` carries `buf[bufp:bufe]`
  (tokenizer.go:98), the bytes buffered from the offending one on, so its
  payload depends on the buffer;
- after a failed write, where the input resumes depends on the buffer.

Two behaviours of the code are easy to misread:
- **Escaped backslash before a quote.** `ReadString` consults only the
  single byte before a quote (tokenizer.go:144). So in `"a\\"` the final
  quote follows a backslash and does not close the string, although the
  backslash is itself escaped. `Scanning.QuoteAfterBackslash` proves this
  for every such payload.
- **Extraction after the end of input.** After the input is used up,
  `ReadNumber` returns `(0, nil)` rather than EOF, because a refill that
  finds EOF ends an extraction successfully (tokenizer.go:127-130). Only
  `Token` reports EOF again (`Scanning.LexEndOfInput`). `ReadString`
  cannot be called there at all: with `bufp == bufe == 0` its `t.bufp++`
  makes the slice `t.buf[t.bufp:t.bufe]` invalid (tokenizer.go:140, 143)
  and Go panics. `Tokenizer.ReadString` requires `bufp < bufe`, which
  `Token` guarantees when it returns TokString.

## Model

| member | source | states |
|---|---|---|
| Lexicon.TablesAgree | tokenizer.go:48-62 | a byte that `toklookup` maps to a number is a number byte of `lookup` and is not `+`; no whitespace byte is a lead byte or a literal's first letter |
| Streams.Source.ReadSize | tokenizer.go:212-214 | a read into the buffer delivers at least one byte and at most the buffer's length and the bytes pending, and exactly the size the reader chose when that fits |
| Streams.Sink.Write | tokenizer.go:114-117 | a write appends the accepted prefix of its argument; it fails exactly when the argument does not fit, and then it has accepted exactly the room that was left and reports a write failure |
| Lexicon.Lookup | tokenizer.go:48-53 | the `lookup` table: `'s'` for tab, newline, carriage return and space, `'#'` for `+ - . 0-9 E e`, zero for every other byte |
| Lexicon.IsWs | tokenizer.go:49 | a byte is whitespace when `lookup` gives `'s'` |
| Lexicon.IsNumByte | tokenizer.go:50-52 | a byte may appear in a number when `lookup` gives `'#'` |
| Lexicon.TokLookup | tokenizer.go:54-62 | the `toklookup` table: the six structural bytes, `"` to TokString, `-` and the digits to TokNumber, TokNull (not mapped) for the rest |
| Streams.Source.After | tokenizer.go:214 | after a read of `k` bytes the reader still holds exactly the bytes after them, and whether it fails at the end is unchanged |
| Scanning.SkipWs | tokenizer.go:196-209 | the number of whitespace bytes `peek` skips at the front of the stream, never more than the stream holds |
| Scanning.NumRun | tokenizer.go:109-134 | the length of the number `ReadNumber` copies from the front of the stream, never more than the stream holds |
| Scanning.CloseAt | tokenizer.go:142-164 | the index of the quote that ends the string under the one-previous-byte rule, or the stream's length; never more than the stream holds |
| Scanning.WordMatch | tokenizer.go:174-189 | how many leading bytes of the stream agree with the literal; never more than either holds |
| Scanning.ReadWordSpec | tokenizer.go:173-192 | `readWord` on the stream: its error and the number of bytes it consumed, never more than the stream holds |
| Scanning.LeadOf | tokenizer.go:88-104 | what `Token` does with the lead byte: consume a structural byte, leave a quote or number lead, match `true`/`false`/`null`, or report invalid JSON |
| Scanning.Lex | tokenizer.go:82-106 | `Token` on the stream: the token, the error and the number of bytes consumed, never more than the stream holds |
| Scanning.LexWord | tokenizer.go:92-96 | a literal branch of `Token`: the literal's token with `readWord`'s error, consuming the whitespace and the matched bytes |
| Scanning.SkipWsSpan | tokenizer.go:197-203 | every byte `peek` skips is whitespace, and the byte it stops on is not |
| Scanning.SkipWsIs | tokenizer.go:197-203 | a whitespace run followed by a non-whitespace byte or by the end is exactly what `peek` skips |
| Scanning.SkipWsAppend | tokenizer.go:196-209 | where the whitespace ends does not depend on where the stream is split between the buffer and the next refill |
| Scanning.NumRunSpan | tokenizer.go:110-113 | every byte of the copied number is in `{+ - . 0-9 E e}`, and the byte after it is not |
| Scanning.NumRunIs | tokenizer.go:110-113 | a run of number bytes followed by another byte or by the end is exactly the copied number |
| Scanning.NumRunAppend | tokenizer.go:109-134 | where a number ends does not depend on where the stream is split across refills |
| Scanning.CloseAtSpan | tokenizer.go:143-151 | no byte before the stop is a quote preceded by a non-backslash, and the stop is such a quote unless the input ended |
| Scanning.CloseAtIs | tokenizer.go:143-151 | the first quote not immediately preceded by a backslash is where the string stops |
| Scanning.CloseAtAppend | tokenizer.go:138-164 | where a string stops does not depend on the split, provided the previous byte `prev` is carried across the refill |
| Scanning.WordMatchSpan | tokenizer.go:174-189 | the matched bytes agree with the literal, and the byte where the match stops differs from it |
| Scanning.WordMatchIs | tokenizer.go:174-189 | a common prefix ending in a disagreement, or where the literal or the input ends, is exactly the match |
| Scanning.WordMatchNext | tokenizer.go:185-188 | after `i` matched bytes, the match stops at `i` if and only if byte `i` differs from the literal |
| Scanning.WordReadAt | tokenizer.go:173-192 | `readWord` succeeds after the whole literal, reports "expected w got EOF" (or the read error) when the input ends first, and otherwise reports the expected word, the byte found and its index |
| Scanning.LexEndPath | tokenizer.go:83-86 | when `peek` finds no token, `Token` returns TokNull with the source's end error and consumes all the whitespace |
| Scanning.LexLiteralPath | tokenizer.go:89-96 | for `t`, `f` and `n`, `Token` returns the literal's token with `readWord`'s outcome, never an invalid-byte error |
| Scanning.LexOneBytePath | tokenizer.go:100-104 | a structural byte is returned as its token and consumed, and a quote or number lead byte is returned and left in place |
| Scanning.LexUnmappedPath | tokenizer.go:97-98 | any other lead byte is an invalid-JSON error carrying a non-empty prefix of the rest, with nothing consumed beyond the whitespace |
| Scanning.LexAfterWhitespace | tokenizer.go:82-88 | whitespace in front of a token changes nothing but how many bytes are consumed |
| Scanning.LexEndOfInput | tokenizer.go:194-210 | `Token` reports EOF if and only if only whitespace is left; it then consumes everything, so the next call reports EOF again |
| Scanning.LexClassifies | tokenizer.go:88-105 | structural bytes are consumed alone with their token; `"` gives TokString and `-` and digits give TokNumber, both with nothing consumed; any other unmapped byte except `t`, `f` and `n` is an invalid-JSON error |
| Scanning.LexLiteral | tokenizer.go:89-96 | a complete `true`, `false` or `null` is returned with its token, no error, and exactly its bytes consumed, whatever follows |
| Scanning.LexTruncatedLiteral | tokenizer.go:175-180 | a literal cut short by the end of input reports "expected w got EOF" and consumes what there was |
| Scanning.LexPayloadLead | tokenizer.go:100-104 | after TokNumber the number run at the cursor is non-empty, and after TokString the cursor is on the opening quote |
| Scanning.NumberRoundTrip | tokenizer.go:108-135 | a number made of number bytes and followed by another byte or by the end is copied exactly |
| Scanning.StringRoundTrip | tokenizer.go:137-165 | a payload with no closing quote and no final backslash, followed by a quote, is copied exactly |
| Scanning.QuoteAfterBackslash | tokenizer.go:144 | a quote right after a backslash never closes the string, even when that backslash is itself escaped |
| Extraction.SkipStops | tokenizer.go:197-203 | when the whitespace ends inside the buffer, `peek` returns the byte it ends on, with the stream from that byte left |
| Extraction.SkipPasses | tokenizer.go:196-208 | when the whole buffer is whitespace, the skip continues into the bytes the next refill brings |
| Extraction.SkipEnd | tokenizer.go:205-206 | when the source is exhausted, everything `peek` passed was whitespace and it reports the end error |
| Extraction.WordStep | tokenizer.go:185-188 | the byte at the cursor is the next byte of the stream; it either extends the literal's match or ends it there |
| Extraction.ExitAt | tokenizer.go:114-120 | when the payload ends inside the buffer, the extractor keeps its promise: a whole write and the cursor past the terminator, or a failed partial write |
| Extraction.ExitWriteFailed | tokenizer.go:122-126 | a failed write of the buffered part ends the extraction with the bytes accepted counted and no further consumption |
| Extraction.WroteAll | tokenizer.go:122-127 | writing the whole buffer extends the copied prefix by exactly the buffered bytes |
| Extraction.ExitEnd | tokenizer.go:127-133 | a payload that runs to the end of input was written whole; this is success after EOF and the read error otherwise |
| Extraction.NumberStep | tokenizer.go:110-126 | one buffer of `ReadNumber` either ends the extraction as promised or extends the copied prefix of the number |
| Extraction.StringStep | tokenizer.go:143-156 | one buffer of `ReadString` either ends the extraction as promised or extends the copied prefix of the string, carrying `prev` |
| Extraction.NumberOutcome | tokenizer.go:109-134 | one round of `ReadNumber`, refill included, either stops with the extractor's promise kept or keeps the loop invariant |
| Extraction.StringOutcome | tokenizer.go:142-164 | one round of `ReadString`, refill included, either stops with the extractor's promise kept or keeps the loop invariant |
| JsonTokenizer.Tokenizer.NewWithSize | tokenizer.go:77-80 | a fresh buffer of the given size with both cursors at 0, so the remaining input is the source's |
| JsonTokenizer.Tokenizer.New | tokenizer.go:72-75 | the same with the default size of 64 bytes |
| JsonTokenizer.Tokenizer.Reset | tokenizer.go:167-171 | both cursors are zeroed and the source rebound, with the same buffer, so the remaining input is exactly the new source's |
| JsonTokenizer.Tokenizer.Refill | tokenizer.go:212-217 | `bufp` becomes 0 and the next read fills `buf[0..bufe]`; the unconsumed input is unchanged apart from the discarded buffer; an exhausted source gives its end error with `bufe` 0 |
| JsonTokenizer.Tokenizer.Peek | tokenizer.go:194-210 | skips exactly the leading whitespace of the remaining input across refills, and leaves the cursor on the returned byte, or reports the end error with everything consumed |
| JsonTokenizer.Tokenizer.SkipBuffered | tokenizer.go:197-204 | the inner scan of `peek` moves the cursor to the first non-whitespace buffered byte if there is one, and otherwise leaves it |
| JsonTokenizer.Tokenizer.Token | tokenizer.go:82-106 | returns and consumes what `Lex` prescribes for the remaining input; an invalid-JSON error carries exactly the buffered bytes from the cursor; a string or number leaves a byte under the cursor |
| JsonTokenizer.Tokenizer.Consume | tokenizer.go:101 | the structural byte under the cursor is consumed |
| JsonTokenizer.Tokenizer.ReadLiteral | tokenizer.go:89-99 | the `case 0` branch of `Token` returns what `Lex` prescribes: a literal's token with `readWord`'s outcome, or the invalid-JSON error with the buffered bytes |
| JsonTokenizer.Tokenizer.ReadWord | tokenizer.go:173-192 | consumes the matched prefix of the literal across refills and returns the error `ReadWordSpec` prescribes |
| JsonTokenizer.Tokenizer.MatchByte | tokenizer.go:175-188 | one byte of `readWord`: on a match it consumes the byte and the match grows; otherwise it returns `readWord`'s final error |
| JsonTokenizer.Tokenizer.Fill | tokenizer.go:175-183 | refills only an exhausted buffer, so that a byte is buffered unless the input ended with the source's end error |
| JsonTokenizer.Tokenizer.ReadNumber | tokenizer.go:108-135 | writes exactly the maximal number run at the front of the remaining input and leaves the cursor after it; the end of input is not an error; a write failure stops at once with `n` counting the accepted bytes |
| JsonTokenizer.Tokenizer.NumberRound | tokenizer.go:109-134 | one pass of `ReadNumber`'s outer loop either stops with the promise kept or keeps the invariant with fewer bytes pending |
| JsonTokenizer.Tokenizer.FindRunEnd | tokenizer.go:110-113 | the scan finds the length of the number run in the buffered bytes |
| JsonTokenizer.Tokenizer.NumberChunk | tokenizer.go:110-127 | writes the buffered number run; it moves the cursor to the run's end if the run ends in the buffer, refills if it does not, and neither after a failed write |
| JsonTokenizer.Tokenizer.ReadString | tokenizer.go:137-165 | skips the opening quote, writes exactly the bytes before the first quote not preceded by a backslash (`prev` carried across refills) and consumes that quote; the end of input is not an error; a write failure stops at once |
| JsonTokenizer.Tokenizer.StringRound | tokenizer.go:142-164 | one pass of `ReadString`'s outer loop either stops with the promise kept or keeps the invariant with fewer bytes pending |
| JsonTokenizer.Tokenizer.FindClose | tokenizer.go:143-151 | the scan finds the closing quote in the buffered bytes from `prev`, and the byte before it |
| JsonTokenizer.Tokenizer.StringChunk | tokenizer.go:143-157 | writes the buffered part of the string; if the quote is in the buffer it moves the cursor past it even after a failed write, and otherwise refills unless the write failed |

## Left out

- The `Tokenizer` interface type (tokenizer.go:29-39) is not modelled. The class `Tokenizer` is its only implementation.
- `io.Reader` and `io.Writer` are values in the model, not foreign objects:
  - a `Source` lists the bytes still to come, the size of each read, and whether the end is EOF or a read error;
  - a `Sink` fails only by running out of room.
  
  A writer that fails for any other reason is not modelled.
- A `Read` that returns `(0, nil)` or `(n > 0, err)` is not modelled. Every read returns bytes with no error, or no bytes with EOF or a read error. With `(0, nil)`, `readWord` would compare a stale buffer byte; with `(n > 0, EOF)`, the extractors would stop without consuming the bytes delivered.
- JsonTokenizer.Tokenizer.NewWithSize: requires a positive size. With an empty buffer, every read returns `(0, nil)`, which is excluded above.
- JsonTokenizer.Tokenizer.ReadString: requires `bufp < bufe`, because the source's `t.bufp++` followed by `t.buf[t.bufp:t.bufe]` fails otherwise. `Token` guarantees it after returning TokString.
- JsonTokenizer.Tokenizer.ReadNumber: after a failed write, the position where the stream resumes is stated only as a bound: at most `n` bytes consumed. The exact position is the start of the buffer whose write failed, which depends on where the reads split the input.
- JsonTokenizer.Tokenizer.ReadString: the same bound after a failed write, unless the closing quote was in the buffer. In that case the cursor is exactly past the quote.
- Error messages are the fields of the `Error` datatype: the word, the byte and the index, or the invalid bytes. The `fmt` formatting (tokenizer.go:98, 179, 186) is not modelled.
- `Lex` gives an invalid-JSON error the whole rest of the stream. `Token`'s contract pins it to the buffered part, as the source does. It is not stated on the stream because it depends on the refill boundaries.
- Benchmarks and the comparison with `encoding/json` are not part of this model.

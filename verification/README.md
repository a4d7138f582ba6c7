# Verified models of library code in a Go 1.26 tree

This project models pieces of the Go library and of its wasm host glue, and proves what their
comments and callers rely on. `dafny verify dfyconfig.toml` checks everything.

- **Fused multiply-add** (`Bits`, `Float64`, `Fma`, `FmaCorrect`). Words are bounded naturals, a
  float64 is worth a real number, and `RoundsTo(v, k)` says that the finite pattern `k` (or the one
  of infinity) is nearest to `v` among all patterns, ties to the even one (IEEE 754-2008, sections
  4.3.1 and 5.4.1). A two-word number `m` with a sticky low bit stands for any real strictly between
  its even neighbours (`Sticky`); alignment, cancellation and gradual underflow keep that relation,
  and the final rounding does not depend on which of these reals it was.
- **Rounding on raw bits** (`Floor`, `FloorCorrect`): truncation and the two roundings to an integer
  (section 5.9), for every bit pattern.
- **Cancellation tree** (`Context`, `ContextInv`, `ContextProof`, `ContextCalls`, `ContextTheorems`). A state machine
  whose steps are what a goroutine does between two operations on a `mu`, an atomic or a channel.
  Each call runs as a stack of frames; any number of calls interleave. `Inv` is kept by every step,
  and the theorems are about every state of every run, `ContextCalls` about what a call has done when it
  returns.
- **Pipe** (`Pipe`, `PipeProof`, `PipeTheorems`, `PipeCalls`). Any number of read, write and close calls; the two
  unbuffered channels are steps of two calls at once, and any reader sending on `rdCh` may meet any
  writer receiving from it: that they are always partners is proved. Two logs are kept: the writes in
  the order they took `wrMu`, the reads in the order they received from `wrCh`.
- **Buffered input** (`Source`, `Split`, `SplitFits`, `Scanner`, `BufReader`, `ReadRune`, `Tokens`). A reader is
  an arbitrary script of answers (data, emptiness, errors); data that does not fit is delivered
  later, so every way of cutting an input up is some script. The classes are the source's, with its
  fields; they are proved against the plain stream of the bytes they hold followed by those the
  script has left. `Tokens` spells out the tokens and lines of given texts. UTF-8 is that of sections 3 and 4 of RFC 3629 (`Utf8`).
- **Buffered output** (`BufWriter`), over an underlying writer that takes any prefix it likes.
- **HTML character references** (`Html`, `HtmlTheorems`). The in-place pass against a decoder that
  reads left to right and writes to a fresh buffer. The entity tables enter as maps about which only
  `Narrow` (no replacement is wider than its reference) and, for the round trip, the entries `amp;`,
  `lt;` and `gt;` are assumed. `Reference` describes what the code does, not what WHATWG asks for.
- **Search, split, join, replace** (`Search`, `SplitJoin`, `SplitLaws`). What depends on the processor is a
  parameter (`Arch`).
- **Reference table of the wasm host** (`WasmRefs`) and **integer formatter** (`Format`).

`Arrays` holds Go's `copy`, `Wrappers` the option type. `Took(all, data, rest)` in `BufReader` says
that a call that found the stream `all` took `data` from its front and left `rest`.

Where the code differs from what its comments suggest, the exact condition is proved:

- `go/src/html/escape.go:107-110` keeps "&#" as text when "no characters matched". It does so exactly if no
  digit follows, unless the text is "&#x;" or "&#X;", which has none and is decoded to U+FFFD, and
  also if a single decimal digit follows that no ';' ends (`HtmlTheorems.NumericKept`,
  `KeptWithoutDigits`).
- `ReadRune` of `bufio.Reader` decodes what comes before the next error. That is the first rune of
  the whole stream exactly if it is complete there or the stream starts with a bad byte
  (`BufReader.BufReader.ReadRune`); `BufReader.ReadCutRune` is an input where it is not. For sources
  with one final error (`Steady`) it always is.
- `bytes.Join` panics for "output length overflow" also when the separator is as long as the largest
  int divided by one less than the pieces, where the output may just fit (`SplitJoin.Join`,
  `PanicsEarly`).

One simplification: a goroutine that saw no done channel and queued for `mu` in `Done` (also by way
of `Err`) is modelled as no longer needing `mu` once the channel is there. It holds no lock then, so
it can be part of no chain of waits.

## Model

| member | source | states |
|---|---|---|
| FmaCorrect.FmaCorrectlyRounded | go/src/math/fma.go:95-182 | for all finite non-zero x, y, z the bits returned are those of the exact x*y+z rounded once to nearest, ties to even (subnormals and overflow to infinity included), with the right sign, and +0 on exact cancellation |
| FmaCorrect.FmaOtherwise | go/src/math/fma.go:98-117 | exactly which operands leave x*y+z or x*y to the processor; with finite non-zero factors an infinite or NaN addend is returned unchanged |
| FmaCorrect.CompressSticky | go/src/math/fma.go:39-63 | shifting right and folding the lost bits into bit 0 keeps standing for the same real number, so no later rounding can change |
| Fma.ShrCompressValue | go/src/math/fma.go:43-63 | the branches of shrcompress compute one two-word shift with a sticky bit, for every shift count |
| Fma.ShlPairValue | go/src/math/fma.go:27-31 | shl is the two-word left shift wherever nothing is lost |
| FmaCorrect.SplitValue | go/src/math/fma.go:76-91 | exponent and mantissa of split multiply out to the value of the float, normal or subnormal |
| FmaCorrect.Normalize62Value | go/src/math/fma.go:132-135 | moving the product's top bit to bit 62 of the high word does not change what it is worth |
| FmaCorrect.SumStandsFor | go/src/math/fma.go:147-167 | after alignment, addition or subtraction and renormalisation, the one word left stands for the exact sum |
| FmaCorrect.PackRounds | go/src/math/fma.go:169-182 | rounding and packing a word that stands for r gives the pattern that r rounds to |
| Float64.RoundsToUnique | go/src/math/fma.go:93-95 | a magnitude rounds to exactly one bit pattern, so correct rounding determines the result |
| FloorCorrect.TruncCorrect | go/src/math/floor.go:68-82 | every finite pattern becomes the integer part with the sign kept; infinities and NaNs are unchanged |
| FloorCorrect.RoundCorrect | go/src/math/floor.go:90-121 | every finite pattern becomes the nearest integer, halves away from zero; the simple definition in the comment |
| FloorCorrect.RoundToEvenCorrect | go/src/math/floor.go:128-158 | every finite pattern becomes the nearest integer, halves to the even one |
| FloorCorrect.NearestInteger | go/src/math/floor.go:83-90 | the two reference roundings are at least as near as any other integer and differ only on ties |
| FloorCorrect.OddBit | go/src/math/floor.go:140-149 | the bit tested for oddness is the low bit of the integer part, also for 1 <= abs(x) < 2 where it is a bit of the exponent field |
| Context.Value | go/src/context/context.go:775-806 | the lookup loop finds the innermost matching wrapper, WithoutCancel hiding every cancelCtx above it |
| Context.LookupCancelKey | go/src/context/context.go:382-397 | looking up the private key finds exactly the cancelCtx to which Done is delegated |
| Context.LookupUserKey | go/src/context/context.go:775-806 | a user key finds the value of the innermost WithValue that has it, through every other wrapper, and nothing if none has it |
| ContextProof.StepKept | go/src/context/context.go:475-579 | every step of cancel, propagateCancel, removeChild, Done, Err and Cause keeps the invariant |
| ContextProof.BeginKept | go/src/context/context.go:240-360 | so does every new WithCancel, WithDeadline, AfterFunc, CancelFunc, timer or stop call |
| ContextProof.RunInv | go/src/context/context.go:352-579 | the invariant holds in every state of every interleaving |
| ContextCalls.RegisteredExactly | go/src/context/context.go:475-529 | in every run, a context counts as registered exactly if no goroutine is in propagateCancel for it any more |
| ContextCalls.CancelReturned | go/src/context/context.go:549-579 | when a CancelFunc, timer or stop call has returned, its context has an error, a closed Done channel and no children, and f of an AfterFunc was started or stopped |
| ContextCalls.RemovedFromParent | go/src/context/context.go:399-413 | when a cancel with removal that did the cancelling has returned, the context is not among its parent's children (or the parent is cancelled too), and never comes back |
| ContextCalls.StoppedNeverStarts | go/src/context/context.go:330-340 | after a stop that returned true, f is never started |
| ContextCalls.StartedAfterCancel | go/src/context/context.go:352-360 | f is started only after the context was cancelled and its children dealt with |
| ContextCalls.CallsAllowed | go/src/context/context.go:240-350 | the model lets every call begin as soon as the contexts it is about have been handed out |
| ContextTheorems.PropagationComplete | go/src/context/context.go:475-579 | once a cancelled context is unlocked, everything below it for which propagateCancel has returned is cancelled with its Done closed, and each AfterFunc below it was started or stopped exactly once |
| ContextTheorems.CancelReaches | go/src/context/context.go:475-579 | by the time a CancelFunc, timer or stop call has returned, everything below its context whose creating calls have returned is cancelled with its Done closed, and f of each AfterFunc was started unless an earlier stop call stopped it |
| ContextTheorems.Created | go/src/context/context.go:240-280 | a call that makes a context makes it of that kind below that parent, for good |
| ContextTheorems.DoneDelivered | go/src/context/context.go:448-461 | the channel that Done returns is never replaced, so it is the one that is closed |
| ContextTheorems.WrittenOnce | go/src/context/context.go:549-579 | error and cause of a context, once written, never change, nor do its parent and its done channel; a closed Done stays closed |
| ContextTheorems.CancelledFrom | go/src/context/context.go:549-579 | a context's error and cause are, together, those that an earlier call was given to cancel it or an ancestor; without a cause of its own the error is the cause |
| ContextTheorems.ObservedConsistently | go/src/context/context.go:352-372 | Done closed only with an error set, cause set exactly with the error, and for an AfterFunc the starts of f plus the successful stops never exceed one |
| ContextTheorems.AnsweredTruly | go/src/context/context.go:463-471 | Err (and Cause, lines 288-304) return nil only for a context that is not cancelled; anything else they return only once Done is closed, and it is the context's error (or cause) |
| ContextTheorems.NoFallback | go/src/context/context.go:475-528 | among this package's contexts propagateCancel never reaches the goroutine fallback or the nil-error panic |
| ContextTheorems.LockOrder | go/src/context/context.go:352-413 | while holding one context's mu a goroutine waits only for the mu of a strict descendant |
| ContextTheorems.NoCycle | go/src/context/context.go:475-579 | in no reachable state do goroutines wait for locks in a circle |
| ContextTheorems.Progress | go/src/context/context.go:463-471 | while some call has not returned, some goroutine can step; in particular the wait in Err always ends |
| PipeProof.StepKept | go/src/io/pipe.go:50-124 | every step of every call keeps the pipe's invariant |
| PipeTheorems.BytesInOrder | go/src/io/pipe.go:50-96 | the bytes received, in rendezvous order, are the consumed prefixes of the writes, in wrMu order, plus at most those of one unacknowledged read |
| PipeTheorems.OneServed | go/src/io/pipe.go:56-63 | at most one read is between wrCh and rdCh, and it works on what is left of the one write that waits on rdCh |
| PipeProof.Partners | go/src/io/pipe.go:86-91 | whoever meets on rdCh are that read and that write, and the count is in range |
| PipeTheorems.WriteResult | go/src/io/pipe.go:76-96 | a write never slices out of range; without an error it was wholly consumed, with one it was not (or was empty) and the pipe was closed |
| PipeTheorems.ReadResult | go/src/io/pipe.go:50-65 | a read returns the count of what it copied, or no bytes and an error after a close |
| PipeTheorems.ClosedMovesNothing | go/src/io/pipe.go:50-55 | a call that starts after the pipe was closed moves no bytes and enters no log |
| PipeTheorems.FirstErrorStays | go/src/io/pipe.go:17-33 | each end keeps the first error stored and the pipe never reopens |
| PipeCalls.WriteEndError | go/src/io/pipe.go:98-105 | the error of the write end is the argument of an earlier close of it, io.EOF for nil |
| PipeCalls.ReadEndError | go/src/io/pipe.go:67-74 | the error of the read end is the argument of an earlier close of it, io.ErrClosedPipe for nil |
| PipeCalls.CloseReturned | go/src/io/pipe.go:67-105 | by the time a close has returned, that end has an error and done is closed |
| PipeCalls.ReadErrorIs | go/src/io/pipe.go:108-114 | a read that fails reports the write end's error if it loaded no error of the read end before, and else io.ErrClosedPipe |
| PipeCalls.WriteErrorIs | go/src/io/pipe.go:117-123 | the same for writes |
| PipeCalls.ReadAfterClose | go/src/io/pipe.go:125-135 | a read that starts after the write end was closed returns no bytes and the write end's error, as long as the read end is open |
| PipeCalls.EofAfterClose | go/src/io/pipe.go:164-168 | that is io.EOF if the write end was closed without an error |
| PipeCalls.WriteAfterClose | go/src/io/pipe.go:155-162 | a write that starts after the read end was closed consumes nothing and returns the read end's error, as long as the write end is open |
| PipeCalls.ClosedPipeAfterClose | go/src/io/pipe.go:137-141 | that is io.ErrClosedPipe if the read end was closed without an error |
| PipeCalls.ReadFrom | go/src/io/pipe.go:57-60 | a read without an error met one write, and got what that write had left or a full buffer of it |
| PipeCalls.WriteMet | go/src/io/pipe.go:84-95 | a write without an error, even of no bytes, was taken by at least one read |
| PipeTheorems.Progress | go/src/io/pipe.go:50-105 | once the pipe is closed some pending call can always go on, and before that a pending read and a pending write are never both stuck |
| Source.Reader.Read | go/src/bufio/scan.go:215-229 | the reader under the buffers: a chunk of the script into the free part of the array |
| Source.AnsweredDelivers | go/src/bufio/bufio.go:111-125 | reading in pieces delivers the same bytes |
| Split.LinesStable | go/src/bufio/scan.go:358-372 | what ScanLines finds in a prefix it would find in any longer input, and the rest has the remaining lines |
| Split.WordsStable | go/src/bufio/scan.go:403-427 | the same for ScanWords, although it never asks whether the last rune is complete |
| Split.RunesStable | go/src/bufio/scan.go:312-342 | the same for ScanRunes; each token is the UTF-8 form of the rune a range loop sees |
| Split.SplitLast | go/src/bufio/scan.go:297-427 | at the end of the input every remaining token is found |
| Scanner.ScanWordsLoop | go/src/bufio/scan.go:403-427 | the two loops of ScanWords compute the split function |
| SplitFits.FitsKept | go/src/bufio/scan.go:196-201 | if the tokens of an input fit a buffer, so do those of what is left after a token |
| SplitFits.LinesFit | go/src/bufio/scan.go:196-201 | lines fit exactly if each is shorter than the maximum |
| SplitFits.WordsFit | go/src/bufio/scan.go:196-201 | words fit exactly if each, with the white space that ends it, has at most that many bytes |
| SplitFits.RunesFit | go/src/bufio/scan.go:196-201 | four bytes are enough for runes |
| Scanner.Scanner.constructor | go/src/bufio/scan.go:89-95 | defaults: ScanLines, 64 KiB, no buffer yet |
| Scanner.Scanner.TrySplit | go/src/bufio/scan.go:145-179 | the split of the buffered bytes gives the next token of the whole input, or shows that more is needed |
| Scanner.Scanner.MakeRoom | go/src/bufio/scan.go:188-214 | shifting and doubling lose nothing and leave room to read; ErrTooLong exactly if the buffer is full of pending bytes and may not grow, which never happens when the tokens fit |
| Scanner.Scanner.ReadMore | go/src/bufio/scan.go:215-238 | reading appends to the pending bytes and gives up only after more than 100 empty reads |
| Scanner.Scanner.Scan | go/src/bufio/scan.go:139-240 | returns the first token of the whole remaining input, or false at its end with no error |
| Scanner.ScanAll | go/src/bufio/scan.go:139-240 | the usual loop yields exactly the tokens of the whole input |
| Scanner.ScanInput | go/src/bufio/scan.go:89-240 | for lines, words, runes and bytes, the tokens depend only on the input, not on how the reader cuts it |
| Tokens.LineTokens | go/src/bufio/scan.go:345-372 | a line without newlines in it, ended by "\r\n" or "\n", is the next token of ScanLines, with no part of the line end |
| Tokens.LastLineToken | go/src/bufio/scan.go:345-372 | the last line needs no newline and loses a '\r' at its end; an empty one gives no token |
| Tokens.ByteTokens | go/src/bufio/scan.go:297-302 | the tokens of ScanBytes are the bytes |
| Tokens.RuneTokens | go/src/bufio/scan.go:312-342 | the tokens of ScanRunes on the UTF-8 form of any runes are the forms of these runes |
| Tokens.BadByteToken | go/src/bufio/scan.go:325-342 | a byte that starts no rune is the token U+FFFD |
| Tokens.WordTokens | go/src/bufio/scan.go:377-427 | a word of any runes without the property White_Space, ended by one with it, is the next token of ScanWords |
| Tokens.WhiteSkipped | go/src/bufio/scan.go:403-413 | leading white space is in no token |
| Tokens.LastWordToken | go/src/bufio/scan.go:403-427 | the last word needs no white space after it |
| BufReader.BufReader.Fill | go/src/bufio/bufio.go:99-127 | slides and appends, the stream unchanged |
| BufReader.BufReader.Peek | go/src/bufio/bufio.go:143-170 | a prefix of the stream, nothing consumed; short only at the end or with ErrBufferFull |
| BufReader.BufReader.Discard | go/src/bufio/bufio.go:177-207 | consumes exactly the bytes it counts |
| BufReader.BufReader.Read | go/src/bufio/bufio.go:216-263 | the next bytes of the stream into p, by way of the buffer or directly: as many buffered bytes as fit if there are any, and else those of one read of the source |
| BufReader.BufReader.ReadByte | go/src/bufio/bufio.go:267-279 | the next byte, or none and the source's error at the end |
| BufReader.BufReader.UnreadByte | go/src/bufio/bufio.go:286-301 | succeeds exactly if there is a last byte and room for it, and then that byte is next again |
| BufReader.BufReader.ReadRune | go/src/bufio/bufio.go:306-319 | for every source, consumes the first rune of the stream up to the next error, not just of what is buffered; that is the first rune of the whole stream exactly if it is complete there or the stream starts with a bad byte |
| BufReader.BufReader.WholeRune | go/src/bufio/bufio.go:303-319 | the condition under which a prefix of a stream determines its first rune, in both directions |
| BufReader.ReadCutRune | go/src/bufio/bufio.go:303-319 | an error between the bytes of U+4F60: the first ReadRune returns U+FFFD with size 1, although the stream starts with U+4F60 |
| BufReader.BufReader.UnreadRune | go/src/bufio/bufio.go:325-333 | puts the bytes of the last rune back |
| BufReader.BufReader.ReadSlice | go/src/bufio/bufio.go:348-387 | up to the first delimiter; without one, all to the end of the stream or of a full buffer |
| BufReader.BufReader.ReadLine | go/src/bufio/bufio.go:405-438 | a line without its end, or a fragment of one that fills the buffer but for a '\r' put back; that is next again and never out of the buffer |
| BufReader.ReadLines | go/src/bufio/bufio.go:405-438 | fragments joined until isPrefix is false or the end are exactly the lines, for every buffer size and chunking |
| Tokens.LinesRead | go/src/bufio/bufio.go:427-437 | the lines that ReadLine gives lose "\r\n" or "\n" at their ends |
| Tokens.LastLineRead | go/src/bufio/bufio.go:427-437 | an unterminated last line is given as it is, with a '\r' it may end in |
| BufReader.PartLine | go/src/bufio/bufio.go:405-421 | cutting a line where ReadLine does never splits "\r\n" |
| BufReader.ReadBytes | go/src/bufio/bufio.go:447-489 | for every source, everything up to and including the first delimiter, or what there is up to an error; with one final error, to the end |
| BufReader.ReadUnread | go/src/bufio/bufio.go:216-301 | Read then UnreadByte gives back exactly the last byte |
| BufReader.ReadUnreadByte | go/src/bufio/bufio.go:267-301 | ReadByte then UnreadByte leaves the stream as it was |
| BufReader.ReadUnreadRune | go/src/bufio/bufio.go:306-333 | ReadRune then UnreadRune leaves the stream as it was |
| BufReader.ReadUnreadSlice | go/src/bufio/bufio.go:286-387 | ReadSlice then UnreadByte gives back the last byte of the line |
| ReadRune.RuneReader.ReadByte | go/src/fmt/scan.go:314-326 | pending bytes first, then the reader's |
| ReadRune.RuneReader.ReadRune | go/src/fmt/scan.go:330-367 | the next rune of the whole stream, U+FFFD for a bad byte; leftovers never reorder input or overflow pendBuf |
| ReadRune.RuneReader.UnreadRune | go/src/fmt/scan.go:369-376 | the rune read last is next again |
| ReadRune.ReadRunes | go/src/fmt/scan.go:314-367 | reading to the end gives the runes of decoding the whole input at once |
| BufWriter.Writer.Flush | go/src/bufio/bufio.go:635-656 | forwards a prefix of the buffer and keeps the rest; reports exactly the earlier error, the underlying writer's, or io.ErrShortWrite if that took too little |
| BufWriter.Writer.Write | go/src/bufio/bufio.go:676-697 | exactly the counted prefix of p is accepted; what fits the buffer is not forwarded; after an error nothing is accepted or forwarded |
| BufWriter.Writer.WriteString | go/src/bufio/bufio.go:747-778 | the same for strings |
| BufWriter.Writer.WriteByte | go/src/bufio/bufio.go:701-711 | the byte is accepted, or an error is returned and nothing is |
| BufWriter.Writer.WriteRune | go/src/bufio/bufio.go:715-741 | the UTF-8 form of the rune is accepted, also into a buffer too small for it |
| BufWriter.Writer.ReadFrom | go/src/bufio/bufio.go:784-828 | the bytes taken from the reader are the bytes accepted, in order; with a nil error they are all up to where the reader reported io.EOF |
| BufWriter.Run | go/src/bufio/bufio.go:604-828 | over any run of calls, ReadFrom and Reset included, what was forwarded followed by the buffer is what the calls since the last Reset reported as accepted; a run that starts after an error accepts and forwards nothing before a Reset |
| Utf8.DecodeStable | go/src/bufio/bufio.go:306-319 | a full rune decodes the same whatever follows |
| Utf8.DecodeEncode | go/src/bufio/scan.go:306-342 | decoding and encoding again gives the same bytes unless the input was in error |
| Utf8.EncodeDecode | go/src/bufio/bufio.go:306-319 | an encoded rune is decoded to itself whatever follows, and no shorter part of it is a full rune |
| Utf8.EncodeForm | go/src/bufio/bufio.go:715-741 | the UTF-8 form of every rune, in literals |
| Utf8.FullRuneExactly | go/src/fmt/scan.go:342-352 | a sequence is full exactly if no continuation changes its first rune |
| Utf8.RunesOfText | go/src/fmt/scan.go:314-367 | decoding the UTF-8 form of any runes gives these runes |
| Html.UnescapeEntity | go/src/html/escape.go:56-164 | writes the decoded reference at dst, leaves everything before dst and from the new src on as it was, and dst stays at or below src |
| Html.ReferenceNarrow | go/src/html/escape.go:56-164 | no numeric or named reference decodes to more bytes than it has |
| Html.ScanNumber | go/src/html/escape.go:74-106 | the digit loop computes the spelled number modulo 2^32 as a signed rune |
| Html.FindPrefix | go/src/html/escape.go:149-157 | the longest name that is a proper prefix, at most six bytes |
| Html.UnescapeString | go/src/html/escape.go:187-214 | the in-place pass equals decoding left to right into a fresh buffer |
| HtmlTheorems.EscapeRead | go/src/html/escape.go:166-172 | each of the five references that escaping writes is read back as its character, whatever follows |
| HtmlTheorems.EscapeRoundTrip | go/src/html/escape.go:174-186 | unescaping an escaped string gives the string |
| HtmlTheorems.EscapedSafe | go/src/html/escape.go:166-180 | escaped text has none of the characters less-than, greater-than and the two quotes, and '&' only where one of the five references starts |
| HtmlTheorems.PlainKept | go/src/html/escape.go:174-180 | text without the five characters is not changed |
| HtmlTheorems.NumberRead | go/src/html/escape.go:68-121 | every rune written as a decimal or hexadecimal reference is decoded to its UTF-8 form; exactly 0 and the Windows-1252 range come out as something else |
| HtmlTheorems.NumberDecoded | go/src/html/escape.go:74-121 | any decimal or hexadecimal digits, with or without ';', decode to the rune they spell modulo 2^32, by the Windows-1252 table for 0x80 to 0x9F and to U+FFFD for 0 and what is no rune |
| HtmlTheorems.NameDecoded | go/src/html/escape.go:123-164 | a name decodes to its entry in the first table, else to the two runes of its entry in the second, in order, else by its longest known proper prefix of two to six bytes, else not at all |
| HtmlTheorems.NumericKept | go/src/html/escape.go:68-110 | a text "&#..." stays text exactly if no digit follows and it is not "&#x;", or a single decimal digit follows without ';' |
| HtmlTheorems.KeptWithoutDigits | go/src/html/escape.go:107-110 | the comment's rule, text exactly if no characters matched, holds if and only if the text is neither "&#x;" without a digit nor a lone decimal digit without ';' |
| HtmlTheorems.LoneDigitKept | go/src/html/escape.go:107-110 | the one family of failing inputs: "&#" and one decimal digit stay text without ';', also at the end of the text |
| HtmlTheorems.NoDigitDecoded | go/src/html/escape.go:107-121 | the other one: "&#x;" and "&#X;" are decoded to U+FFFD |
| Search.Index | go/src/bytes/bytes.go:1281-1366 | every branch, loop and fallback returns the least index of a match, or -1 |
| Search.IndexOfLeast | go/src/bytes/bytes.go:1280-1282 | the reference search returns the least match or -1 |
| SplitJoin.Count | go/src/bytes/bytes.go:57-74 | the number of separators a scan from the left finds; for an empty one, runes plus one |
| SplitJoin.Explode | go/src/bytes/bytes.go:34-53 | one piece for each rune up to the limit |
| SplitJoin.GenSplit | go/src/bytes/bytes.go:381-409 | fills the preallocated slice with exactly the pieces between the first separators |
| SplitJoin.SplitSeq | go/src/bytes/iter.go:34-61 | yields the pieces that Split and SplitAfter return, up to where the consumer stops |
| SplitJoin.JoinPieces | go/src/bytes/bytes.go:411-439 | joining what was split, with any limit, gives the text back |
| SplitJoin.JoinAfterPieces | go/src/bytes/bytes.go:422-445 | with separators kept, the pieces are the text |
| SplitJoin.JoinRunePieces | go/src/bytes/bytes.go:34-53 | the pieces of an explosion are the text |
| SplitJoin.PiecesFree | go/src/bytes/bytes.go:431-439 | no piece holds a separator, and there is one more piece than separators |
| SplitLaws.SplitCuts | go/src/bytes/bytes.go:381-445 | for every limit, the number of pieces, that each but the last ends at the first separator there is (saved bytes included), and that the last has none unless the limit was reached |
| SplitLaws.SplitRunesCut | go/src/bytes/bytes.go:34-53 | for an empty separator and every limit, the number of pieces, and that each but the last is one rune |
| SplitJoin.Join | go/src/bytes/bytes.go:561-591 | the pieces with the separator between them in a buffer filled exactly; panics if and only if the length of the result overflows or the separator's length is the largest int divided by one less than the pieces |
| SplitJoin.PanicsExactly | go/src/bytes/bytes.go:571-582 | the test before the loop and those in it amount to that condition |
| SplitJoin.PanicsEarly | go/src/bytes/bytes.go:571-575 | an input whose result would just fit, and Join panics |
| SplitJoin.Replace | go/src/bytes/bytes.go:1155-1192 | replaces the first n instances (or between runes) in a preallocated buffer that is filled exactly |
| SplitLaws.ReplaceFirst | go/src/bytes/bytes.go:1155-1192 | for every limit, the first match is replaced and then the rest with a limit one less; nothing for limit 0 or without a match |
| SplitLaws.ReplaceNothing | go/src/bytes/bytes.go:1180-1189 | for an empty old text likewise, the new one going before each rune and after the last, up to the limit |
| SplitLaws.ReplaceLength | go/src/bytes/bytes.go:1170-1171 | the length of the result, from the number of matches or runes and the limit |
| SplitJoin.ReplaceAllIsSplitJoin | go/src/bytes/bytes.go:1194-1201 | replacing all is splitting and joining with the new separator |
| SplitJoin.InterleavedJoin | go/src/bytes/bytes.go:1149-1154 | replacing the empty text puts the new one around every rune |
| WasmRefs.Host.constructor | go/lib/wasm/wasm_exec.js:485-503 | the tables as run sets them up, the seven reserved values among them, are consistent |
| WasmRefs.Host.StoreValue | go/lib/wasm/wasm_exec.js:148-195 | the tables stay consistent, the word loads as the value stored, a value Go already holds keeps its id, reserved values have theirs, and objects, strings, symbols and functions have the type flags 1 to 4 |
| WasmRefs.Host.FinalizeRef | go/lib/wasm/wasm_exec.js:313-323 | with Go finalizing only what it holds: counts follow, an id is freed exactly with its last reference, reserved and held entries are untouched |
| WasmRefs.Host.LoadOutstanding | go/lib/wasm/wasm_exec.js:134-146 | loading through an outstanding reference gives the value it was stored for |
| Format.Fmt.FmtInteger | go/src/fmt/format.go:197-324 | never writes outside its buffer of 68 or 3+wid+prec bytes, and appends padding, sign, prefixes, zeros and digits in that order |
| Format.BodyFits | go/src/fmt/format.go:203-213 | the bound on the buffer, for every 64-bit value, base, flags, width and precision |
| Format.TextSpelled | go/src/fmt/format.go:196-324 | for every int64 or uint64 argument, in literal bytes: the text is spaces, '-' exactly for a negative argument (else what plus and space ask for), the prefixes 0o, 0b, 0, 0x or 0X, digits of the base that spell the absolute value, spaces; zeros lead only to reach the precision or zero-padded width, spaces stand on one side and only fill the width |
| Format.TextBlank | go/src/fmt/format.go:220-230 | 0 with precision 0 is as many spaces as the width |
| Format.TextWidth | go/src/fmt/format.go:92-108 | the blank text included, the result has at least wid runes |
| Format.Fmt.Pad | go/src/fmt/format.go:92-108 | any bytes, padded with the padding byte on the left or on the right up to the width, counted in runes |
| Format.FilledRunes | go/src/fmt/format.go:92-108 | the padded text has the greater of the width and its own number of runes, also when its bytes are not UTF-8 |
| Format.FilledBytes | go/src/fmt/format.go:65-108 | padding is spaces on the right under '-', else zeros or spaces on the left |
| Format.Fmt.WritePadding | go/src/fmt/format.go:65-90 | appends zeros or spaces |

## Left out

- FmaCorrect.FmaCorrectlyRounded: the early returns that leave x*y+z or x*y to the processor (zero, infinite or NaN operands) are named, not modelled.
- FloorCorrect.TruncCorrect: processor-specific implementations of Trunc and the multiplication-based Floor and Ceil are not part of this model.
- ContextTheorems.PropagationComplete: contexts and hooks of other packages (the AfterFunc interface, the watching goroutine, stopCtx) are not part of this model; neither are clocks: a deadline that has passed is a cancel call, a later one a timer that may fire at any time, and the shortcut for an earlier parent deadline is a plain child.
- ContextTheorems.Progress: says that some goroutine can step, not that a scheduler lets it.
- Context.Value: Deadline, String and the panics on nil parents are not modelled.
- PipeTheorems.Progress: likewise about being able to step, without fairness; slices passed to the pipe are values, so a caller changing its buffer during a write is not seen.
- Scanner.Scanner.Scan: for a custom split function only the bookkeeping (stickiness of errors, legality of advances, the final token) is proved; Bytes and Text are the token snapshot.
- Scanner.ScanInput: reads are of a well-behaved reader that ends in io.EOF with at most 100 empty reads in a row.
- BufReader.BufReader.Read: a reader that returns a negative or excessive count (a panic) is excluded by the io.Reader contract; WriteTo, Reset and sharing of an existing Reader are not modelled.
- BufReader.BufReader.Peek: which error comes first when one is pending while data stays buffered is stated only for sources with one final error; returned slices are snapshots.
- BufReader.BufReader.UnreadByte: nothing is claimed right after ReadLine, whose put-back of '\r' does not update the last byte.
- ReadRune.RuneReader.ReadRune: non-EOF errors in the middle of a rune are not part of the stream claim; after UnreadRune the size is that of the rune in UTF-8, not of the bytes it came from.
- BufWriter.Writer.WriteString: the io.StringWriter and io.ReaderFrom fast paths are not modelled.
- Html.UnescapeString: the entity tables themselves are not part of this model; their narrowness is the hypothesis.
- Search.Index: bytealg.Index, IndexRabinKarp, IndexByte and Count are taken at their specification, the first match or the number of matches.
- SplitJoin.GenSplit: capacities of the returned slices and their sharing with s are not modelled.
- WasmRefs.Host.FinalizeRef: a finalize of a reference that Go does not hold is excluded; memory is a word, not bytes of a DataView.
- Format.Fmt.FmtInteger: bases other than 2, 8, 10 and 16 (a panic) and verb 'O' with a base other than 8 do not occur at the callers and are excluded; fmtUnicode and the float, string and quote formatters are not modelled.
- Expvar, reflection-driven printing, flags, logging, errors, maps, cmp, image and embed would only add easy members or need a semantics of reflection.

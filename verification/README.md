# Go standard library: a verified model of its subtle parts

This project models algorithms and protocols of the Go standard library, and of one program from its
documentation, and proves what they are for. The modules follow the source packages; each can be read alone.

- **Floating point on bit patterns** (`Arith`, `Word`, `Double`, `FMA`, `Sqrt`, `Mod`, `Floor`). A double is a 64-bit
  integer; its exact value is an integer multiple of a small power of two. Correct rounding (sections 4.3.1 and 5.4.1
  of IEEE 754-2008) is stated by comparison with every other double. The fused multiply-add rounds the exact sum once;
  the square root is the closest double; the remainder is exact; `Ldexp` undoes `Frexp` on every bit pattern; and the
  bit tricks of `Round` and `RoundToEven` round to integers.
- **Protocols as interleaved steps** (`Context`, `Pipe`, `Expvar`, `ExpvarTable`, `ExpvarCalls`). Every critical
  section, channel handoff and atomic operation is one step of a state machine; the theorems hold in every reachable
  state, with any number of calls. Every error of a context is traced to the call that gave it, every Read of a pipe
  takes all it can, and every run of an expvar.Map is one of a plain map. All calls of package context and of
  expvar.Map are also proved to return, within a number of steps known beforehand, and so are Reads and Writes that
  have a partner.
- **Buffering that must be invisible** (`IO`, `Scanner`, `SplitFuncs`, `Reader`, `Writer`, `Buffer`, `RuneReader`,
  with `TextLines` and `Utf8`). Readers deliver chunks of any size and may fail, sinks may write short and fail.
  Each class has a plain byte sequence as its abstract value, and its methods are proved against that.
- **Search** (`Solitaire`, `Bytes`). A mutating backtracking solver is sound and complete and puts the board back;
  Rabin-Karp finds exactly the first or last match.
- **Printers and parsers that undo each other** (`MediaType`, `EncodedWord`, `Html`). Round trips for every input,
  with the parsers' own loops proved equal to recursive specifications. What the parsers make of texts that no
  printer of the library writes is in `Parameters` (any layout), `Continuations` (values in numbered parts),
  `Headers` (words among other text) and `WordText` (which texts decode).

`Common` and `SortedKeys` hold what several modules use. `dafny verify dfyconfig.toml` checks everything.

## Where the code and its documentation disagree

The model follows the code. Each disagreement is a theorem with an exact condition.

- `math.FMA` gets the sign of a zero wrong on two families of inputs: an exactly zero sum whose product is negative
  gives -0, where the standard wants +0, and a negative product of at most half the smallest double with +0 added
  gives +0, where it wants -0. On all other operands, infinities and NaNs included, it conforms (`FMA.FMAConforms`,
  with the inputs in `FMA.FMANegativeZero` and `FMA.FMALostSign`).
- `expvar.Map`: a `Set` that finds its key, overtaken by a `Delete`, stores a value that `Do` never shows, that no
  later `Set` lists and no `Delete` removes. It happens exactly then (`Expvar.LostWhen`, `LostStays`, `LostKey`).
- `bytes.Buffer.UnreadByte` is documented to fail when the last read returned no bytes or an error. After
  `ReadBytes` it always succeeds, which is what is documented if and only if the delimiter was there; on an empty
  buffer it may bring an older byte back (`Buffer.LineUnread`). After `Grow` it may succeed and give nothing back:
  the byte read comes back exactly if others are unread and nothing had to be moved (`Buffer.GrowUnread`).
- `bytes.Buffer.WriteRune` and `bufio.Writer.WriteRune` write a negative rune as its lowest byte, not as an encoding;
  it is an encoding exactly when the rune is not negative (`Utf8.RuneBytesEncode`).
- `bufio.Reader.UnreadByte` after `Discard` puts the byte before the discarded ones back; the input is restored
  exactly when that byte equals the last one discarded (`Reader.DiscardUnread`, for any number of bytes).
- `bufio.Reader.Read` is documented to give a count of zero with an error. A read at least as large as the empty buffer
  passes on bytes and an error that come together; no other does (`Reader.Reader.Read`).
- `bufio.Reader.ReadLine` drops a carriage return only before a newline, `bufio.ScanLines` also at the very end; the
  two agree exactly on inputs that do not end in one (`Reader.KeptLinesAreLines`).
- `mime.ParseMediaType` documents that trailing semicolons are ignored, but one makes it forget every parameter that
  is encoded or continued; the result is the same exactly when putting those together adds nothing
  (`MediaType.SemicolonAfter`), which for printed text means that no value needs encoding
  (`MediaType.TrailingSemicolon`).
- `mime.WordDecoder.DecodeHeader` is documented to fail only if `CharsetReader` does. Without a `CharsetReader` it
  fails exactly if some word of the header that can be decoded names a character set it does not know
  (`EncodedWord.DecodingFails`).
- `fmt`'s `readRune` loses the bytes of an unfinished rune when its reader fails other than by ending; it reports an
  error exactly then or at the end (`RuneReader.RuneReader.ReadRune`). Its `UnreadRune`, whose error says that no
  rune is available, succeeds before any read, and rune 0 comes out (`RuneReader.UnreadFirst`).

Two things are nowhere promised but easy to expect. `html.UnescapeString` takes the number of a reference modulo
2^32, so that a number beyond Unicode may come out as any rune; it becomes U+FFFD exactly if the remainder is 0, a
surrogate, beyond Unicode, or that rune (`Html.WhenReplaced`). And `mime.WordEncoder.Encode` leaves plain text alone
even where it looks like an encoded-word, and then decoding changes it. Plain text comes back exactly if the decoder
meets no word in it (`EncodedWord.PlainRound`, `EncodedWord.PlainWord`).

## Model

| member | source | states |
|---|---|---|
| Double.RoundShiftNearest | src/math/fma.go:157-167 | the rounding used throughout is to a nearest multiple, and to the even one on ties |
| Double.StickyCompose | src/math/fma.go:39-63 | two sticky shifts in a row are one |
| Double.StickyRound | src/math/fma.go:39-63 | a sticky shift that leaves two bits or more below the rounding position does not change the rounded result |
| Double.GridNearest | src/math/fma.go:157-169 | rounding to the spacing of the value's binade beats every other double, up to the carry into the next binade |
| Double.OverflowNearest | src/math/fma.go:158-161 | from 2^1024 on infinity is the correctly rounded result |
| Double.NearestUnique | src/math/fma.go:93-95 | at most one bit pattern is the correctly rounded result |
| Double.InfiniteIff | src/math/fma.go:158-161 | the correctly rounded result is infinite exactly from halfway between the largest double and 2^1024 on |
| FMA.ShlWideCorrect | src/math/fma.go:27-31 | the two-word left shift multiplies by 2^n for every n below 128 whose result fits, wrapped shift counts included |
| FMA.ShrWideCorrect | src/math/fma.go:33-37 | the two-word right shift is the quotient by 2^n, and the bits lost are those the callers test |
| FMA.ShrCompressCorrect | src/math/fma.go:39-63 | for every n the result is the sticky shift of the two-word value |
| FMA.LzWideCorrect | src/math/fma.go:65-71 | the leading zeros give the position of the top bit of a nonzero two-word value |
| FMA.SplitCorrect | src/math/fma.go:73-91 | sign, exponent and a mantissa with its top bit at position 52 denote the exact value, subnormals included |
| FMA.ProductCorrect | src/math/fma.go:110-128 | the normalized two-word product denotes x*y exactly and has its sign |
| FMA.AddendCorrect | src/math/fma.go:112-122 | the shifted mantissa of z denotes z exactly |
| FMA.OrderCorrect | src/math/fma.go:130-133 | comparing exponents and words compares the exact magnitudes |
| FMA.CombineSum | src/math/fma.go:135-145 | the add branch leaves the exact sum, shifted so that its top bit is at 62, with one sticky bit |
| FMA.CombineDifference | src/math/fma.go:146-155 | so does the subtract branch for the exact difference, however many leading bits cancel |
| FMA.NoLoss | src/math/fma.go:146-154 | when more than one leading bit cancels, aligning has not lost anything |
| FMA.RoundTrick | src/math/fma.go:167 | the branch-free expression rounds to nearest even at bit 10 |
| FMA.Denormalize | src/math/fma.go:162-166 | the shift for a subnormal result is a sticky shift |
| FMA.RoundedOnce | src/math/fma.go:157-169 | rounding the sticky mantissa is rounding the exact value, once |
| FMA.RoundCorrect | src/math/fma.go:157-169 | the packed bits have the sign and are the nearest double, with carry into the exponent, gradual underflow and overflow |
| FMA.FusedCorrect | src/math/fma.go:130-169 | from any two normalized terms to the correctly rounded sum, or to the product's signed zero when the sum is zero |
| FMA.FMACorrect | src/math/fma.go:93-170 | for all nonzero finite x, y, z the result is x*y+z rounded once to nearest even; an exact zero sum gives zero with the product's sign |
| FMA.FMASpecialCases | src/math/fma.go:98-106 | with a zero, an infinity or a NaN among the operands the result is what IEEE 754 asks for, NaN and the sign of zero included, if and only if it is not a vanishing negative product to which +0 is added |
| FMA.FMAConforms | src/math/fma.go:93-170 | for all operands: IEEE 754 is met if and only if the input belongs to neither of the two families that get the sign of a zero wrong |
| FMA.FMANegativeZero | src/math/fma.go:146-169 | (-1)*1+1 gives -0, which the standard does not allow |
| FMA.FMALostSign | src/math/fma.go:98-101 | (-2^-1074)*2^-1074+0 gives +0, where the standard asks for -0 |
| FMA.TimesNearest | src/math/fma.go:98-101 | the built-in product is the exact one rounded, and vanishes exactly up to half the smallest double |
| Double.RoundToZero | src/math/fma.go:98-101 | rounding gives zero exactly up to half the smallest double |
| Sqrt.Sqrt | src/math/sqrt.go:85-144 | zeros, NaN and +Inf come back, negative numbers give NaN, and any other root is strictly closer to the result than to any other double |
| Sqrt.PositiveRoot | src/math/sqrt.go:107-143 | the closest double, for every positive finite x |
| Sqrt.ShiftUp | src/math/sqrt.go:110-116 | the loop brings a subnormal's top bit to position 52 and keeps its value |
| Sqrt.Normalize | src/math/sqrt.go:107-119 | mantissa and unbiased exponent denote x exactly |
| Sqrt.EvenExponent | src/math/sqrt.go:120-125 | after doubling for an odd exponent, x is the integer radicand times an exact square of a power of two |
| Sqrt.RootBits | src/math/sqrt.go:124-137 | q is the integer square root of the scaled mantissa, and the remainder is zero exactly when the root is exact |
| Sqrt.Decide | src/math/sqrt.go:129-134 | the comparison t <= ix decides whether the root has the bit r |
| Sqrt.NoWrap | src/math/sqrt.go:128-137 | no sum or difference of the loop wraps around |
| Sqrt.Rounded | src/math/sqrt.go:138-142 | the extra bit rounds to the closest double; a tie cannot happen |
| Sqrt.ClosestUnique | src/math/sqrt.go:138-142 | only one double is closest to the root |
| Sqrt.RootOfSquare | src/math/sqrt.go:85-92 | the root of a representable square is the number squared |
| Mod.NormalizeParts | src/math/bits.go:54-62 | a nonzero finite x becomes a normal number of the same sign and mantissa, with the exponent that keeps the value |
| Mod.FrexpCorrect | src/math/frexp.go:18-33 | the fraction lies in [1/2, 1), has f's sign, and times 2^exp is f exactly; zeros, infinities and NaNs come back with exponent 0 |
| Mod.LdexpCorrect | src/math/ldexp.go:16-45 | the double nearest to frac*2^exp, ties to even, with overflow and gradual underflow, for every exp |
| Mod.LdexpFrexp | src/math/ldexp.go:16-45 | Ldexp undoes Frexp for every bit pattern |
| Mod.LdexpExact | src/math/mod.go:40 | multiplying by 2^k is exact while the result stays finite |
| Mod.SubtractExact | src/math/mod.go:40 | the difference of doubles within a factor of two is a double |
| Mod.LargestMultiple | src/math/mod.go:36-39 | comparing the fractions picks k with y*2^k <= r < y*2^(k+1) |
| Mod.Iteration | src/math/mod.go:35-41 | every pass picks that k, and scaling and subtraction are exact |
| Mod.Mod | src/math/mod.go:23-46 | the special cases; otherwise the loop ends with exactly abs(x) mod abs(y) and x's sign, negative zero included |
| Floor.RoundCorrect | src/math/floor.go:58-93 | Round gives the nearest integer, halves away from zero, with the sign kept; infinities and NaNs stay |
| Floor.RoundToEvenCorrect | src/math/floor.go:95-131 | RoundToEven gives the nearest integer, ties to even, with the sign kept; infinities and NaNs stay |
| Floor.BumpedBits | src/math/floor.go:87-90 | adding below the point and clearing the fraction rounds the mantissa, a carry goes into the exponent, the sign is not reached |
| Floor.RoundsDiffer | src/math/floor.go:58-131 | the two agree on every finite number but those halfway above an even integer |
| Context.NextInv | src/context/context.go:250-490 | every step of every call keeps the invariant; errors, closed channels and settled contexts stay |
| Context.NewInv | src/context/context.go:232-244 | creating a context under a finished parent |
| Context.MakeInv | src/context/context.go:360-368 | the first Done makes the channel and changes nothing else |
| Context.AddInv | src/context/context.go:264-275 | a child is registered only with a parent that is not cancelled |
| Context.HoldInv | src/context/context.go:265-268 | propagateCancel cancels the child while it holds a cancelled parent's mutex |
| Context.AcquireInv | src/context/context.go:398-402 | cancel goes on only where no error is set |
| Context.SetErrInv | src/context/context.go:403 | the error is set once |
| Context.CloseInv | src/context/context.go:404-408 | the channel is closed once, or becomes closedchan |
| Context.LeaveInv | src/context/context.go:409-414 | the mutex is released only when no child is left to be cancelled |
| Context.DeleteInv | src/context/context.go:316-326 | a cancelled child leaves its parent's set |
| Context.ArmInv | src/context/context.go:448-454 | the timer is set only while there is no error |
| Context.DisarmInv | src/context/context.go:484-489 | the last section of timerCtx.cancel stops the timer |
| Context.Propagation | src/context/context.go:230-326 | in every reachable state: once a context has an error and its mutex is free, every finished descendant has an error and a closed channel (`Context.ErrorCause` says which error) |
| Context.ErrorCause | src/context/context.go:230-490 | in every run the error of a context is one given to a call of cancel from outside, for itself or a context above it, and every context between the two has the same; a context never cancelled from outside has its parent's |
| Context.BlamedNext | src/context/context.go:250-490 | every step keeps that: an error is only ever set to one asked for, or handed down from the parent |
| Context.ClosedIffErr | src/context/context.go:344-408 | outside the critical section of cancel, Done is closed if and only if Err is not nil |
| Context.CancelReturns | src/context/context.go:394-419 | a call of cancel that has returned leaves its context, and every finished descendant of it, cancelled |
| Context.DoneIsOne | src/context/context.go:360-368 | Done gives the same channel for ever, and it is closed at most once |
| Context.TimerArmed | src/context/context.go:430-490 | the timer that WithDeadline sets stays until the context is cancelled |
| Context.RunKeeps | src/context/context.go:344-419 | over any run errors never change, channels are made once and closed once, settled contexts stay settled |
| Context.CallsAreSafe | src/context/context.go:394-408 | no channel is closed twice, cancel never gets a nil error, and the goroutine branch of propagateCancel is never reached |
| Context.LockOrder | src/context/context.go:265-275 | a call made while a mutex is held concerns a child of the context it belongs to |
| Context.CleanedUp | src/context/context.go:414-490 | when the call that cancelled a context has returned, its timer is stopped and a live parent no longer lists it |
| Context.NoDeadlock | src/context/context.go:250-490 | as long as a call is running, some call can take a step |
| Context.StepWorks | src/context/context.go:250-490 | every step of a running call uses up some of a bounded amount of work, which counts the children still to be visited |
| Context.RunsEnd | src/context/context.go:250-490 | without new calls from outside every run is at most that long |
| Context.CallsReturn | src/context/context.go:250-490 | every call of cancel and propagateCancel returns: a run can go on until all have, and cannot go on for ever |
| Context.AtRest | src/context/context.go:230-326 | when all calls have returned no mutex is held and every finished descendant of a cancelled context is cancelled |
| Pipe.NextInv | src/io/pipe.go:50-121 | every step of every Read, Write and close keeps the invariant |
| Pipe.CountMatches | src/io/pipe.go:57-61 | the count sent back can only reach the Write whose slice was copied |
| Pipe.BytesInOrder | src/io/pipe.go:84-104 | in every reachable state the bytes handed to readers are the prefixes consumed from the Writes, in wrMu order, and the handoffs of each Write are its own prefix; nothing is lost or doubled by a close |
| Pipe.HandedByNext | src/io/pipe.go:84-104 | every step keeps the handoffs of each Write equal to the prefix consumed from it |
| Pipe.WriteResult | src/io/pipe.go:84-112 | a Write returns the number of bytes that its handoffs hold, and they are that prefix of its data; a nil error means all of it, and that at least one Read was met, even for no data; an error is the reader's or ErrClosedPipe, after a close |
| Pipe.ReadResult | src/io/pipe.go:50-73 | a Read without an error got the bytes of one handoff and there is no other for it (how many: `Pipe.ReadsTakeAll`); with an error, the writer's or ErrClosedPipe, it got none |
| Pipe.ReadsTakeAll | src/io/pipe.go:50-65 | in every reachable state each handoff took all that the Write had left, or as much as the buffer of the Read holds |
| Pipe.CountNeverStuck | src/io/pipe.go:57-61 | a Read that has copied can always return |
| Pipe.ClosesStay | src/io/pipe.go:15-33 | a close is final and the first error given to each end stays |
| Pipe.RunErrors | src/io/pipe.go:15-33 | after any run the error of each end is that of the first close of that end, with ErrClosedPipe and EOF standing for nil |
| Pipe.ReadsAfterClose | src/io/pipe.go:50-73 | a Read begun after a close gets nothing and returns the error of the first CloseWrite, or ErrClosedPipe once the reader is closed |
| Pipe.WritesAfterClose | src/io/pipe.go:75-112 | a Write begun after a close delivers nothing and returns the error of the first CloseRead, or ErrClosedPipe once the writer is closed |
| Pipe.StepWorks | src/io/pipe.go:50-112 | every step of a running call uses up some of a bounded amount of work |
| Pipe.CallsReturn | src/io/pipe.go:50-112 | without new calls a run is at most that long, and it can go on as long as a Read and a Write are both under way, or one of them after a close |
| Pipe.CloseReleases | src/io/pipe.go:50-121 | a close can be made in any state, and then all calls can return |
| Pipe.Exchange | src/io/pipe.go:50-112 | in an idle open pipe a Write and a Read exchange as many bytes as fit, and both return when that is all |
| Solitaire.JumpEffect | doc/play/solitaire.go:54-63 | a jump removes one peg and keeps the border |
| Solitaire.SolvableStep | doc/play/solitaire.go:79-110 | a board can be solved if and only if it is won or some jump leads to one that can |
| Solitaire.Game.constructor | doc/play/solitaire.go:31-46 | center is the only hole, or -1 |
| Solitaire.Game.Move | doc/play/solitaire.go:50-63 | moves exactly when the jump is legal; no index leaves the board |
| Solitaire.Game.Unmove | doc/play/solitaire.go:65-70 | takes the jump back |
| Solitaire.Game.Solve | doc/play/solitaire.go:72-110 | ends, leaves the board as it was, and returns true if and only if some sequence of legal jumps wins |
| Solitaire.JumpsAreStraight | doc/play/solitaire.go:11-29 | with the two illegal columns no jump runs over the end of a row |
| Bytes.RollBack | src/bytes/bytes.go:129-132 | the reversed hash of a window from that of the window after it |
| Bytes.RollForward | src/internal/bytealg/bytealg.go:114-117 | the hash of a window from that of the window before it |
| Bytes.RollMod | src/bytes/bytes.go:130-132 | the wrapping uint32 steps agree with that modulo 2^32 |
| Bytes.HashStrBytes | src/internal/bytealg/bytealg.go:35-48 | the polynomial hash and the factor for the digit that leaves, modulo 2^32 |
| Bytes.HashStrRevBytes | src/internal/bytealg/bytealg.go:69-82 | the same for the reversed text |
| Bytes.LastIndexByte | src/bytes/bytes.go:140-148 | the greatest position of the byte, or -1 |
| Bytes.LastIndex | src/bytes/bytes.go:103-138 | the greatest match position, or -1, for all inputs: the hash never hides a match |
| Bytes.IndexRabinKarpBytes | src/internal/bytealg/bytealg.go:103-124 | the least match position, or -1 |
| Bytes.Skip | src/bytes/bytes.go:1146-1153 | skipping to the next first byte passes over no match |
| Bytes.IndexShort | src/bytes/bytes.go:1105-1140 | the least match position, or -1, wherever it gives up skipping |
| Bytes.IndexLong | src/bytes/bytes.go:1141-1175 | the same with Rabin-Karp to fall back on |
| Bytes.Index | src/bytes/bytes.go:1090-1176 | the least match position, or -1, for all inputs and machines |
| IO.Source.Read | src/io/io.go:50-79 | chunks in order, of any size that fits; an error only when nothing is left |
| IO.Sink.Write | src/io/io.go:81-92 | a prefix is taken; without an error at least one byte; every answer is kept |
| TextLines.IndexUnique | src/bufio/scan.go:354-356 | the first newline is the only one with none before it |
| TextLines.PrintedLines | src/bufio/scan.go:337-364 | the lines of a text printed with newlines, each with a carriage return before it or not, are those that were printed, and one more if something follows |
| Utf8.DecodePrefix | src/unicode/utf8/utf8.go:100-196 | what is decoded from a full rune does not depend on what follows |
| Utf8.DecodeShort | src/unicode/utf8/utf8.go:100-196 | less than a full rune is at most three bytes, decodes as an error of width one, and continues with continuation bytes |
| Utf8.DecodeEncode | src/unicode/utf8/utf8.go:317-370 | decoding undoes encoding, for every valid rune and whatever follows |
| Utf8.EncodeDecode | src/unicode/utf8/utf8.go:151-196 | a decoded rune is valid and encodes to the bytes it came from |
| Utf8.DecodeError | src/unicode/utf8/utf8.go:151-196 | decoding fails with width one if and only if no encoding begins there |
| Utf8.RuneBytesEncode | src/bytes/buffer.go:277-290 | WriteRune writes the encoding exactly when the rune is not negative |
| Scanner.JudgeFinal | src/bufio/scan.go:135-172 | for a stable split function a token or an error found in any window that fits is the answer |
| Scanner.JudgeSkip | src/bufio/scan.go:135-189 | dropping what it skips in any window keeps the answer |
| Scanner.JudgeIsSplit | src/bufio/scan.go:135-172 | an answer is what the split function says of all the input at once |
| Scanner.JudgeFits | src/bufio/scan.go:190-209 | an input that fits the largest buffer is never too long for sure |
| Scanner.Scanner.constructor | src/bufio/scan.go:87-93 | nothing scanned yet; the limit is the larger of the first buffer and the maximum, and the bounds that Scan needs hold |
| Scanner.Scanner.SetErr | src/bufio/scan.go:251-256 | the first error other than EOF stays |
| Scanner.Scanner.Advance | src/bufio/scan.go:237-249 | the window moves exactly for a legal count; otherwise there is an error |
| Scanner.Scanner.MakeRoom | src/bufio/scan.go:182-209 | the data stays while the buffer slides or grows; ErrTooLong only if it fills the largest buffer |
| Scanner.Scanner.Fill | src/bufio/scan.go:211-233 | the window grows by what is read; progress, the reader's error or ErrNoProgress |
| Scanner.Scanner.Ask | src/bufio/scan.go:145-172 | the effect of each kind of answer of the split function, empty tokens and the panic included |
| Scanner.Scanner.Scan | src/bufio/scan.go:126-235 | with a stable split function the token, the end or ErrTooLong follow from the remaining bytes and the limit, not from the chunks or the buffer; an input that exactly fills the limit may go either way |
| Scanner.ScanAll | src/bufio/scan.go:126-235 | over a whole run the tokens are a course determined by the bytes; without ErrTooLong the reader's own error ends it |
| SplitFuncs.LinesStable | src/bufio/scan.go:344-364 | ScanLines is stable, always progresses and never fails |
| SplitFuncs.LinesJudged | src/bufio/scan.go:344-364 | the answer for lines: the first line if it ends within the limit |
| SplitFuncs.LinesCourse | src/bufio/scan.go:344-364 | a course is the lines of the input, cut short exactly by a line that does not fit |
| SplitFuncs.NewScanner | src/bufio/scan.go:87-93 | a scanner for lines, with no buffer yet and 64 kilobytes at most, ready to scan |
| SplitFuncs.AllLines | src/bufio/scan.go:87-133 | from a reader to its lines: all of them if none is too long, with the error that Err returns |
| SplitFuncs.ReadLines | src/bufio/scan.go:344-364 | if every line with its end is within the limit and the last below it, scanning yields exactly the lines and no ErrTooLong, for every chunking and first buffer; a line beyond the limit gives ErrTooLong after a prefix |
| SplitFuncs.BytesStable | src/bufio/scan.go:287-294 | ScanBytes is stable, always progresses and never fails |
| SplitFuncs.BytesCourse | src/bufio/scan.go:287-294 | scanning yields every byte and is never too long |
| SplitFuncs.RunesStable | src/bufio/scan.go:298-334 | ScanRunes is stable, although it looks at unfinished encodings |
| SplitFuncs.RunesCourse | src/bufio/scan.go:298-334 | scanning yields the runes that direct decoding yields, errors as U+FFFD |
| SplitFuncs.SkipSpaces | src/bufio/scan.go:396-404 | the first loop finds the end of the leading spaces |
| SplitFuncs.FindSpace | src/bufio/scan.go:405-412 | the second loop finds the first space and its width |
| SplitFuncs.WordsLoop | src/bufio/scan.go:391-419 | the loops compute the split function ScanWords |
| SplitFuncs.WordsStable | src/bufio/scan.go:391-419 | ScanWords is stable, although its windows may end within a rune |
| SplitFuncs.WordsJudged | src/bufio/scan.go:391-419 | exactly when a word can be found within the limit |
| SplitFuncs.WordsCourse | src/bufio/scan.go:391-419 | scanning yields the words of the input, never an empty one, cut short exactly by a word that does not fit |
| SplitFuncs.SpaceIsWhite | src/bufio/scan.go:367-388 | the test for spaces is the White_Space property of Unicode |
| SplitFuncs.SpacedWords | src/bufio/scan.go:390-419 | the words of a text are those it was made of, whatever white space stands before, between and after them |
| Reader.LineInPieces | src/bufio/bufio.go:388-403 | a line can be cut anywhere but between CR and NL |
| Reader.KeptLinesAreLines | src/bufio/bufio.go:388-421 | ReadLine's lines are the scanner's lines if and only if the input does not end in CR |
| Reader.Reader.constructor | src/bufio/bufio.go:44-64 | an empty reader with a buffer of at least 16 bytes |
| Reader.Reader.Fill | src/bufio/bufio.go:86-115 | sliding and reading keep the bytes still to come; progress or an error |
| Reader.Reader.Peek | src/bufio/bufio.go:123-157 | the next n bytes, which stay; fewer only with an error, ErrBufferFull exactly for n beyond the buffer; within what is buffered it reads nothing |
| Reader.Reader.Discard | src/bufio/bufio.go:159-190 | skips n bytes, or fewer with an error, and leaves the last byte stale; within what is buffered it reads nothing |
| Reader.Reader.Read | src/bufio/bufio.go:192-243 | the next bytes of the input, whichever path they take; data and an error together only past the buffer; from at most one read underneath, and none where something is buffered |
| Reader.Reader.ReadByte | src/bufio/bufio.go:245-259 | the next byte, or an error with nothing lost; a buffered byte is given without reading |
| Reader.Reader.UnreadByte | src/bufio/bufio.go:261-281 | succeeds exactly with a byte to put back and room for it, and then that byte comes first |
| Reader.Reader.ReadRune | src/bufio/bufio.go:283-302 | the rune that decoding the whole input gives, for every chunking; a buffered rune is given without reading |
| Reader.Reader.UnreadRune | src/bufio/bufio.go:304-316 | succeeds exactly while the size of a rune read is remembered, and puts its bytes back |
| Reader.Reader.ReadSlice | src/bufio/bufio.go:321-370 | up to the first delimiter; otherwise all that is buffered and an error; a buffered line is given without reading |
| Reader.Reader.ReadLine | src/bufio/bufio.go:372-421 | a line without its end, or a prefix that joins with the rest to the line, even when CR NL straddles the buffer's end |
| Reader.Reader.CollectFragments | src/bufio/bufio.go:423-453 | full buffers and a rest that are the input through the first delimiter, and their length |
| Reader.Reader.ReadBytes | src/bufio/bufio.go:455-473 | the shortest part of the input that ends in the delimiter, or all of it and an error |
| Reader.JoinLine | src/bufio/bufio.go:372-421 | joining the prefixes gives exactly the next line |
| Reader.ReadAllLines | src/bufio/bufio.go:372-421 | reading on gives exactly the lines of the input, for every buffer and chunking |
| Reader.ReadUnread | src/bufio/bufio.go:245-281 | ReadByte and UnreadByte cancel out |
| Reader.ReadUnreadRune | src/bufio/bufio.go:283-316 | ReadRune and UnreadRune cancel out |
| Reader.DiscardUnread | src/bufio/bufio.go:164-281 | after reading a byte and discarding n, UnreadByte puts the byte read before the rest; that restores the input if and only if it equals the last byte discarded, and happens exactly if there are more than n bytes |
| Writer.Writer.constructor | src/bufio/bufio.go:565-586 | nothing held; a buffer of the size asked for or the default |
| Writer.Writer.Reset | src/bufio/bufio.go:591-597 | starts over on another sink |
| Writer.Writer.Flush | src/bufio/bufio.go:599-621 | what is accepted never changes; a nil error means all of it is in the sink; after an error the sink is left alone; it asks the sink once, for all it holds, and its error is the answer's, or ErrShortWrite for a short one |
| Writer.Writer.Write | src/bufio/bufio.go:629-655 | exactly the bytes reported are accepted, all of them without an error; after an error the sink is left alone; an error comes of the sink's last answer, and what fits the buffer does not reach the sink |
| Writer.Writer.WriteString | src/bufio/bufio.go:699-719 | the same |
| Writer.Writer.WriteByte | src/bufio/bufio.go:657-668 | the byte is accepted or there is an error; the sink is asked only when the buffer is full |
| Writer.Writer.WriteRune | src/bufio/bufio.go:670-697 | the same for a rune's bytes, also where the buffer is smaller than a rune; the sink is asked only where four bytes might not fit |
| Writer.Writer.ReadFrom | src/bufio/bufio.go:721-768 | exactly the bytes counted have moved from the reader into what is accepted; a nil error means the reader is at its end; what fits the buffer does not reach the sink |
| Writer.WriteAll | src/bufio/bufio.go:552-721 | over a run of writes and a flush the sink has a prefix of what was written, and all of it without an error; the error is one of before or comes of the sink's last answer, and without one the sink has made none |
| Buffer.Amortized | src/bytes/buffer.go:114-150 | the copying in one grow is paid for by what was set aside and two units for each byte |
| Buffer.Buffer.constructor | src/bytes/buffer.go:16-24 | the zero value is empty |
| Buffer.Buffer.Reset | src/bytes/buffer.go:94-101 | empties |
| Buffer.Buffer.Truncate | src/bytes/buffer.go:79-92 | keeps the first n unread bytes; panics exactly outside the range |
| Buffer.Buffer.TryGrowByReslice | src/bytes/buffer.go:103-112 | succeeds exactly if the capacity allows it, and the unread bytes stay |
| Buffer.Buffer.GrowBy | src/bytes/buffer.go:114-150 | room for n bytes after the unread ones, at exactly the cost and capacity of the branch taken; the bytes already read stay exactly if nothing is moved |
| Buffer.Buffer.Grow | src/bytes/buffer.go:152-163 | reserves without changing the contents; panics exactly for a negative count, and then changes nothing |
| Buffer.Buffer.Write | src/bytes/buffer.go:165-175 | appends; copying stays paid for |
| Buffer.Buffer.WriteByte | src/bytes/buffer.go:259-271 | appends one byte |
| Buffer.Buffer.WriteRune | src/bytes/buffer.go:273-290 | appends the rune's bytes, though room for four is made |
| Buffer.Buffer.ReadFrom | src/bytes/buffer.go:195-218 | appends everything the reader has; EOF is no error |
| Buffer.Buffer.WriteTo | src/bytes/buffer.go:232-257 | moves a prefix to the sink, and all of it without an error; the error is that of the one answer, or ErrShortWrite |
| Buffer.Buffer.Read | src/bytes/buffer.go:292-312 | takes as many bytes as there are and fit; EOF exactly if there are none and some are wanted |
| Buffer.Buffer.Next | src/bytes/buffer.go:314-330 | takes the next n bytes, or all |
| Buffer.Buffer.ReadByte | src/bytes/buffer.go:332-344 | takes the first byte, or EOF |
| Buffer.Buffer.ReadRune | src/bytes/buffer.go:346-367 | takes the first rune as decoding gives it, or EOF |
| Buffer.Buffer.ReadBytes | src/bytes/buffer.go:402-429 | takes the bytes through the first delimiter, or all and EOF |
| Buffer.Buffer.UnreadByte | src/bytes/buffer.go:387-400 | succeeds exactly after a read, and gives the byte before the read position back if there is one |
| Buffer.Buffer.UnreadRune | src/bytes/buffer.go:369-383 | succeeds exactly after ReadRune, and gives its bytes back |
| Buffer.LineUnread | src/bytes/buffer.go:387-429 | UnreadByte after ReadBytes always succeeds; that is as documented if and only if the delimiter is in the buffer |
| Buffer.GrowUnread | src/bytes/buffer.go:152-400 | after ReadByte and Grow, UnreadByte reports success exactly if bytes are unread, and gives the byte back exactly if growing moves nothing |
| Buffer.Do | src/bytes/buffer.go:79-429 | each of thirteen operations, unread methods and Grow included, is that on a queue of bytes that remembers what the last read took |
| Buffer.Run | src/bytes/buffer.go:79-429 | so is any run of them from the zero value, and all copying on growing together is at most twice the bytes written or asked for |
| Buffer.PlainQueue | src/bytes/buffer.go:79-429 | without unread methods the run is that of a plain queue |
| Buffer.ReadThenUnread | src/bytes/buffer.go:332-400 | a read and the unread that fits it leave the queue as it was |
| SortedKeys.InsertSorted | src/expvar/expvar.go:140-152 | insertion keeps the list strictly sorted and adds exactly the key |
| SortedKeys.RemoveSorted | src/expvar/expvar.go:212-216 | removal keeps the list strictly sorted and takes exactly the key |
| SortedKeys.SortedUnique | src/mime/mediatype.go:37-41 | strictly sorted lists of the same keys are the same, so that the order in which a map is walked does not matter |
| SortedKeys.Split | src/sort/search.go:94-103 | all keys before the place found are below the key, all others not |
| Expvar.LocksKept | src/expvar/expvar.go:141-229 | readers and a writer exclude each other, and each call knows whether it holds the lock |
| Expvar.ListedKept | src/expvar/expvar.go:141-217 | every listed key is stored; a key on its way into or out of the list has one call in charge of it |
| Expvar.IteratesKept | src/expvar/expvar.go:219-229 | a Do sees a prefix of the list, and the list stays while it runs |
| Expvar.SummedKept | src/expvar/expvar.go:60-93 | the value of a cell stays the total of its log, through the atomic add and the compare-and-swap loop |
| Expvar.AllFollowKept | src/expvar/expvar.go:160-229 | every call goes on with what it was called for: a returned Add or AddFloat has added its own delta to a cell of its kind, or found another kind |
| Expvar.CountedKept | src/expvar/expvar.go:60-207 | the log of each cell stays, as a multiset, the deltas of the calls that have added to it |
| Expvar.AdditionsCounted | src/expvar/expvar.go:60-207 | after any run no addition is lost or made twice: each value is the total of exactly the deltas of the calls that added to it, and a returned Add or AddFloat is one of these or found a variable of another kind |
| Expvar.InvKept | src/expvar/expvar.go:141-229 | every step of every Set, Add, AddFloat, Delete and Do keeps all of that |
| Expvar.DoIsSafe | src/expvar/expvar.go:219-229 | after any run the keys are strictly sorted and stored, Do's type assertion has never failed, and each Do has seen the whole list |
| Expvar.NotStuck | src/expvar/expvar.go:141-229 | a call that waits for the lock waits for one that can go on |
| Expvar.LostWhen | src/expvar/expvar.go:160-172 | a stored key becomes invisible exactly by Set's final store to a key deleted since the lookup |
| Expvar.LostStays | src/expvar/expvar.go:160-217 | and stays so under every further step |
| Expvar.LostKey | src/expvar/expvar.go:160-217 | a run of two Sets and a Delete that does it |
| ExpvarCalls.StepWorks | src/expvar/expvar.go:82-229 | every step of a call leaves less to do, though it may cost others another turn of the compare-and-swap loop or one more key to look at |
| ExpvarCalls.CallsReturn | src/expvar/expvar.go:82-229 | every Set, Add, AddFloat, Delete and Do returns: without new calls a run is at most that long, and it can go on until all have returned |
| ExpvarTable.Linearized | src/expvar/expvar.go:141-229 | every run is one of a plain map: replaying the effects of the calls in order gives the table at every key, each lookup finds what is there at its turn, and each returned Set, Add, AddFloat, Delete and Do has made exactly the effects it stands for, on its own key |
| ExpvarTable.StepReplays | src/expvar/expvar.go:141-229 | every step has at most one effect on the table, and it is the one recorded |
| ExpvarTable.RunReplays | src/expvar/expvar.go:141-229 | so the table after any run is the replay of its effects |
| ExpvarTable.SetAlone | src/expvar/expvar.go:160-172 | a Set running alone ends with its variable under its key and changes nothing else; the key is listed |
| ExpvarTable.AddAlone | src/expvar/expvar.go:174-207 | an Add or AddFloat running alone adds to the variable under its key, leaves one of another kind as it is, and stores and lists a new one where there is none |
| ExpvarTable.DeleteAlone | src/expvar/expvar.go:209-217 | a Delete running alone takes exactly its key out of table and list, if it is listed |
| Html.EntityShrinks | src/html/escape.go:56-164 | what a reference stands for is never longer than its text |
| Html.UnescapeEntity | src/html/escape.go:53-164 | reads the reference at src and writes what it stands for at dst; dst stays at most src, and what follows is not touched |
| Html.UnescapeNext | src/html/escape.go:197-212 | one pass of the loop keeps written part plus the meaning of the rest |
| Html.UnescapeString | src/html/escape.go:182-214 | the in-place rewrite computes the recursive meaning, for every text |
| Html.RoundTrip | src/html/escape.go:166-187 | unescaping undoes escaping, for every text |
| Html.EscapedIsClean | src/html/escape.go:166-180 | escaped text has no quote and no angle bracket |
| Html.EscapeNothing | src/html/escape.go:166-180 | text is left as it is if and only if it has none of the five characters |
| Html.DigitIsAt | src/html/escape.go:84-100 | which the decimal and hexadecimal digits are, with their values |
| Html.AlphanumericIs | src/html/escape.go:123-134 | what a name is made of: letters and digits |
| Html.NumericReference | src/html/escape.go:69-121 | `&#` with any decimal digits, or `&#x` or `&#X` with hexadecimal ones, with a semicolon or without, is read as the rune that the number stands for, exactly if the text has more than three bytes |
| Html.RuneReference | src/html/escape.go:69-121 | a rune written in decimal or hexadecimal digits is read as that rune |
| Html.RepairIs | src/html/escape.go:112-118 | the number is taken modulo 2^32; 0, surrogates and what is beyond Unicode become U+FFFD, 0x80 to 0x9F the Windows-1252 characters |
| Html.WhenReplaced | src/html/escape.go:78-118 | up to the largest int32 a number becomes U+FFFD exactly as documented; beyond it, exactly if the remainder does |
| Html.LoneAmpersand | src/html/escape.go:56-142 | an ampersand that begins no reference stays |
| Html.NamedReference | src/html/escape.go:123-164 | a name stands for its one or two runes; failing that, its longest prefix of two to six bytes that is a name of its own does; failing that, the text stays |
| RuneReader.LeftoverOf | src/fmt/scan.go:359-363 | at most three bytes are left over, all but the last of them continuation bytes |
| RuneReader.RuneReader.ReadByte | src/fmt/scan.go:312-326 | the next byte, left over or read; nothing is reordered |
| RuneReader.RuneReader.ReadRune | src/fmt/scan.go:328-367 | the next rune of direct decoding and its width, the rune put back first; an error exactly at the end or on a failure within a rune |
| RuneReader.RuneReader.UnreadRune | src/fmt/scan.go:369-376 | succeeds exactly while no rune is put back, also before any read |
| RuneReader.ReadAll | src/fmt/scan.go:301-376 | all runes of the stream, one put back first, one U+FFFD for each bad byte, for every chunking; for a reader that fails, those up to the rune it fails in, and its error |
| RuneReader.ReadUnread | src/fmt/scan.go:328-376 | ReadRune and UnreadRune cancel out |
| RuneReader.UnreadFirst | src/fmt/scan.go:369-376 | unreading before any read makes rune 0 come out, without touching the input |
| MediaType.NeedsEncodingByRunes | src/mime/encodedword.go:42-49 | looking at the runes and looking at the bytes is the same |
| MediaType.TokenStops | src/mime/mediatype.go:267-280 | a token is consumed up to the first other character |
| MediaType.UnquoteQuoted | src/mime/mediatype.go:88-99 | reading a quoted string undoes quoting |
| MediaType.PercentRound | src/mime/mediatype.go:62-79 | unescaping undoes percent-encoding, which yields a token |
| MediaType.EncodedRound | src/mime/mediatype.go:240-261 | decoding undoes the extended form with its character set |
| MediaType.ParamRound | src/mime/mediatype.go:326-352 | one parameter is read as it was written, in each of its three forms |
| MediaType.ListRound | src/mime/mediatype.go:159-194 | so are all of them, whatever follows them that ends there or begins with a semicolon |
| MediaType.StitchRound | src/mime/mediatype.go:196-235 | putting the extended parameters together gives the map back |
| MediaType.RoundTrip | src/mime/mediatype.go:15-237 | parsing undoes formatting: lower-case type, the same parameters, no error, for lower-case names without a star and values of any bytes |
| MediaType.TrailingSemicolon | src/mime/mediatype.go:166-171 | with a semicolon at the end exactly the parameters that need no encoding survive |
| MediaType.SemicolonAfter | src/mime/mediatype.go:159-235 | after any text whose parameters are read to the end, a semicolon leaves the plain parameters only; the result is the same if and only if putting the others together adds nothing |
| MediaType.PartsDiffer | src/mime/mediatype.go:210-217 | numbered parts have different names, so that joining them ends |
| MediaType.FormatMediaType | src/mime/mediatype.go:15-102 | the type and each parameter in the order of their names, or nothing if something is not a token; parsing the result gives type and parameters back |
| MediaType.WritePercent | src/mime/mediatype.go:62-79 | writing plain runs in one piece percent-encodes each byte that needs it |
| MediaType.WriteQuoted | src/mime/mediatype.go:88-99 | likewise for quoting |
| MediaType.Unescape | src/mime/mediatype.go:354-391 | counting first and filling an array of just that length decodes, or fails on a bad escape |
| MediaType.ReadValue | src/mime/mediatype.go:282-324 | the loop reads a token or a quoted string |
| MediaType.JoinParts | src/mime/mediatype.go:208-234 | the loop joins the numbered parts up to the first that is missing; what they mean is `Continuations.JoinedIs` |
| MediaType.StitchAll | src/mime/mediatype.go:196-235 | the order in which the map is walked does not matter |
| MediaType.ParseMediaType | src/mime/mediatype.go:130-238 | the loop parses as specified, duplicates and malformed parameters included; what that is, is `Parameters.HeaderReads`, `Parameters.HeaderRefused` and `Continuations.PartsRound` |
| Parameters.UnitsRead | src/mime/mediatype.go:292-324 | a quoted string says what its bytes say: a backslash escapes a special character and stands for itself before any other; it ends at the first quote that is not escaped, and fails at a line break or the end |
| Parameters.Units | src/mime/mediatype.go:292-324 | every text is such bytes up to a quote, a line break or its end |
| Parameters.UnclosedIs | src/mime/mediatype.go:314-324 | reading fails if and only if no quote closes the string |
| Parameters.TypeChecked | src/mime/mediatype.go:104-122 | the type is accepted exactly if it is a token, or two with a slash between them |
| Parameters.BadType | src/mime/mediatype.go:140-150 | otherwise the result is an error and nothing else |
| Parameters.EntriesRead | src/mime/mediatype.go:159-194 | parameters in any layout, with blanks wherever they may be, names in any case and values as tokens or quoted strings, are read as the names in lower case and the values |
| Parameters.HeaderReads | src/mime/mediatype.go:130-238 | a whole header likewise; it is refused as a duplicate if and only if two names differ at most in case |
| Parameters.NotSemi | src/mime/mediatype.go:327-330 | text after the parameters that does not begin with a semicolon is no parameter |
| Parameters.NoName | src/mime/mediatype.go:332-338 | nor is a semicolon without a token after it, unless nothing follows it |
| Parameters.NoEquals | src/mime/mediatype.go:340-344 | nor a name without an equals sign |
| Parameters.ValueMissing | src/mime/mediatype.go:344-350 | nor one whose value is neither a token nor a closed quoted string |
| Parameters.HeaderRefused | src/mime/mediatype.go:159-173 | after any parameters such a text gives the type with an error |
| Continuations.HeadRound | src/mime/mediatype.go:240-261 | decoding undoes percent-encoding with either character set, in any case, and any language |
| Continuations.ExtendedReads | src/mime/mediatype.go:240-261 | the extended form is decoded if and only if its character set is known, in any case, and its text is percent-encoded |
| Continuations.ExtendedForm | src/mime/mediatype.go:240-245 | nothing without two ticks is decoded |
| Continuations.CollectIs | src/mime/mediatype.go:208-234 | parts that stand under their numbers, each plain or percent-encoded, the first encoded one with the character set, are put together up to the first that is missing |
| Continuations.JoinedIs | src/mime/mediatype.go:196-235 | the encoded whole goes before the parts; one that cannot be decoded counts as nothing |
| Continuations.PartsRound | src/mime/mediatype.go:130-238 | a header with a value in any number of parts, plain, quoted or percent-encoded, in any order and layout and among other parameters, parses to those parameters and the name with the parts put together |
| EncodedWord.Base64Round | src/mime/encodedword.go:82-110 | decoding undoes base64, whose text has no question mark and the standard length |
| EncodedWord.QRound | src/mime/encodedword.go:143-157 | decoding undoes the Q encoding, whose text has no question mark |
| EncodedWord.RoundTrip | src/mime/encodedword.go:238-312 | decoding the words of any division of a text puts the text together again |
| EncodedWord.WordRound | src/mime/encodedword.go:325-354 | a single word in any character set decodes to the converted text, or to an error if there is no conversion |
| EncodedWord.PlainRound | src/mime/encodedword.go:32-45 | text that needs no encoding is decoded to itself if and only if nothing in it decodes as a word |
| EncodedWord.PlainWord | src/mime/encodedword.go:32-45 | plain text that is a word for one letter, and is decoded to that letter |
| EncodedWord.DecodingFails | src/mime/encodedword.go:238-354 | decoding fails if and only if some word it meets names a character set it does not know |
| EncodedWord.CutAtBoundary | src/mime/encodedword.go:94-107 | cutting between runes does not change the runes |
| EncodedWord.ShortWords | src/mime/encodedword.go:70-79 | every word is at most 75 characters |
| EncodedWord.WriteQString | src/mime/encodedword.go:143-157 | the Q encoding, byte by byte |
| EncodedWord.QEncode | src/mime/encodedword.go:112-141 | words of at most 75 characters that divide the text, no rune between two of them, and a new word only where the next rune does not fit |
| EncodedWord.BEncode | src/mime/encodedword.go:81-110 | the same in base64 |
| EncodedWord.Encode | src/mime/encodedword.go:32-68 | text that needs no encoding is unchanged, and comes back if nothing in it decodes; any other decodes to itself, byte for byte, under both encodings, in short words that divide no rune and are each as full as can be; with another character set it is one word, decoded to the converted text |
| EncodedWord.QDecodeLoop | src/mime/encodedword.go:371-398 | the loop decodes as specified and fits the array |
| EncodedWord.DecodeHeaderLoop | src/mime/encodedword.go:238-312 | the loop decodes as specified: white space between words goes, what does not decode stays (`Headers.GapsRound`) |
| Headers.GapsRound | src/mime/encodedword.go:238-312 | for words of any content in either encoding, of either letter case and any character set, and gaps without `=?`: the first and the last gap are kept, one between two words is kept whole unless it is only space, tab, CR and NL, and then it goes; decoding fails if and only if a character set is unknown |
| Headers.AnyHeader | src/mime/encodedword.go:238-312 | every header is made up of openings `=?`, each followed by a character set, a letter and a text or not by these, and is decoded as they say: words that decode go to their content, everything else stays, but for white gaps between two words that decode |
| Headers.HeaderSpelled | src/mime/encodedword.go:250-312 | so does the rest of a header after a word or after text |
| Headers.Latin1Runes | src/mime/encodedword.go:329-332 | ISO 8859-1 content becomes the runes with the numbers of its bytes |
| Headers.AsciiRunes | src/mime/encodedword.go:333-340 | US-ASCII content keeps its ASCII bytes, and each other byte becomes U+FFFD |
| WordText.QAccepts | src/mime/encodedword.go:371-398 | Q text is decoded exactly if its bytes are printable or tab, CR or NL and each equals sign has two hexadecimal digits after it |
| WordText.QPlain | src/mime/encodedword.go:371-398 | text without escapes stands for itself |
| WordText.QEscapes | src/mime/encodedword.go:371-398 | an underscore is a space, and an equals sign with two digits a byte |
| WordText.PercentAccepts | src/mime/mediatype.go:354-391 | percent-encoded text is decoded if and only if every percent sign has two hexadecimal digits after it |
| WordText.PercentEscapes | src/mime/mediatype.go:374-391 | the two digits are a byte, and all else stands for itself |
| WordText.HexDigits | src/mime/encodedword.go:400-424 | the hexadecimal digits, in either case, and nothing else, with their values |
| WordText.Base64Accepts | src/mime/encodedword.go:314-323 | base64 text is decoded exactly if it is groups of four characters of the alphabet, the last padded with one or two equals signs or none |
| WordText.Base64Alphabet | src/mime/encodedword.go:314-323 | which the 64 characters are, with their values |
| WordText.QuotesWhere | src/mime/mediatype.go:82-99 | a value is quoted if and only if it is neither a token nor to be encoded |
| WordText.QuotedLength | src/mime/mediatype.go:88-99 | quoting adds a byte for each quote and backslash, and for nothing else |
| WordText.PercentLength | src/mime/mediatype.go:62-79 | percent-encoding adds two bytes for each byte that is no attribute character, and for nothing else |
| WordText.AttributeAlphabet | src/mime/mediatype.go:64-68 | these are the characters of a token but `*`, `'` and `%` |
| WordText.UpperHex | src/mime/mediatype.go:73-75 | the digits written are upper-case |
| WordText.OtherLetters | src/mime/encodedword.go:314-323 | no letter but B and Q, in either case, names an encoding |
| WordText.NeedsEncodingIs | src/mime/encodedword.go:42-49 | text needs encoding if and only if it has something other than printable ASCII and tabs |
| WordText.LowerCase | src/mime/mediatype.go:23-45 | letters go to lower case, and nothing else changes |
| WordText.BlankAscii | src/mime/mediatype.go:145-162 | what white space is, in ASCII |
| WordText.TokenAlphabet | src/mime/grammar.go:11-26 | what a token is made of: letters, digits and seventeen marks |

## Left out

Parts of the modelled files:

- FMA: which NaN a built-in operator returns; that a compiler may fuse the built-in x*y+z by itself.
- Exponents and lengths are unbounded integers; the sums of exponents of doubles stay far inside 32 bits, and the
  guards against lengths near the largest int (`ErrTooLarge`, `maxInt`) are not modelled.
- `Floor`, `Ceil` and `Trunc` of the same file as `Round`: they only combine `Modf` with an addition.
- context: custom implementations of `Context`, and with them the goroutine branch of `propagateCancel`; `Value`,
  `String`, and the wall clock (a timer that fires is a call that may start at any time).
- io.Pipe: which of two ready select cases is taken, and which waiting call gets a mutex, is left open, as in the
  language.
- solitaire: printing the boards.
- bytes.Index: the search a machine may have of its own is taken as correct; its thresholds are parameters.
- IO.Source.Read: a reader repeats its error once it has failed, and makes at most `mostIdle` empty reads in a row;
  where the code gives up on empty reads the theorems say so in terms of `mostIdle`. Readers and writers that break
  the contracts of package io, and a reader underneath a bufio.Reader that itself returns `ErrBufferFull`, are
  excluded.
- Scanner: tokens are values, so that a token's being overwritten by the next Scan does not show; calling `Buffer` or
  `Split` too late.
- Reader and Writer: the shortcuts to another `WriterTo`, `ReaderFrom`, bufio.Reader or bufio.Writer; `Reader.Reset`;
  slices returned are values, so that their sharing the buffer does not show.
- Buffer: buffers made from a given slice or string, `WriteString`, `ReadString` and `String`, which only convert, and
  the panic of `Next` for a negative count.
- Buffer.Buffer.ReadFrom: does not bound the copying by the bytes read alone, because 512 bytes are reserved for each
  read; like `WriteTo` it is not among the operations of `Buffer.Run`.
- expvar: `Init` while other calls run; `Int.Set` and `Float.Set`, which overwrite a cell; additions are a parameter, so
  that rounding is not the point; the JSON text.
- Html: the table of named references is a parameter, assumed not to name anything longer than its text and to know
  `amp;`, `lt;` and `gt;`; the branch for attributes, which a constant switches off.
- MediaType: white space and letter case outside ASCII; the texts of the errors of a malformed type.
- MediaType.RoundTrip: not for names with a star or an upper-case letter, because the parser gives such names a
  meaning or another case.
- EncodedWord: line breaks within base64 text, letter case outside ASCII in names of character sets, a
  `CharsetReader`, `WordDecoder.Decode` for a single word, and encodings other than the two the package defines.
- RuneReader: the counting layer above it.

Whole files:

- The transcendental functions of package math: their claims are error bounds of real analysis.
- The rest of package bytes (splitting, joining, trimming, mapping): loops over `Index` and `DecodeRune`.
- Formatting of integers in fmt, the bounds of image buffers, the prime sieve and the handle table of the WebAssembly
  glue: independent of what is here.
- Reflection, networking, processes, devices and assembly.

# iohttpparser: a verified model of the HTTP/1.1 wire core

iohttpparser turns an accumulated byte buffer into a request, response or header block, decides how
the body is framed, and decodes chunked bodies inside the caller's buffer. It allocates nothing and
does no I/O. This project models its three layers and the scanner backends, and proves what they
promise to a consumer that reads requests off a connection.

`dafny verify dfyconfig.toml` checks everything.

## How the model is laid out

| file | part of the library |
|---|---|
| `Bytes.dfy`, `Types.dfy` | octets, character classes, policies, limits, spans |
| `Spelling.dfy`, `Numbers.dfy` | text and numbers as they are written: characters, names, hexadecimal and decimal digits |
| `Scanner.dfy` | scalar, SSE4.2 and AVX2 searches, dispatch |
| `Words.dfy` | the two validators that read 64-bit words |
| `HeadSpec.dfy`, `Head.dfy` | the head parser: functions of buffer and offset, and the parser in its own form |
| `HeadGrammar.dfy`, `StartGrammar.dfy` | what a head is, on its octets |
| `HeadRuns.dfy` | growing buffers, schedules of calls |
| `HeadSpans.dfy`, `HeadPolicy.dfy`, `HeadPrint.dfy`, `HeadReprint.dfy` | spans, policies, serialisation |
| `ChunkSpec.dfy`, `ChunkDecoder.dfy` | the chunked decoder: one octet at a time, and in place |
| `ChunkGrammar.dfy`, `ChunkTrailers.dfy` | the grammar of chunked bodies, trailers |
| `SemanticsSpec.dfy`, `FramingRule.dfy` | framing in terms of kinds of fields, and the rule in literal names, codes and numbers |
| `Semantics.dfy`, `SemanticsLaws.dfy` | the scans that decide it, its laws |
| `FixedBody.dfy`, `Pipeline.dfy` | fixed-length bodies, requests back to back |
| `Arrival.dfy`, `ArrivalCuts.dfy`, `ArrivalLaws.dfy` | the same with octets arriving in pieces: the consumer, which cuts matter, what is delivered |
| `Consumer.dfy` | that consumer as an object |

Pointers are offsets into one buffer, `NULL` plus zero length is the span `(0, 0)`. A parser state,
a request, a response, a chunked decoder and a fixed decoder are classes whose methods update their
fields; the header array and the decoder's buffer are arrays. Each such method is proved against a
function of its inputs, and the theorems are proved about the function. Where the source writes one
loop body or one scan inline several times, the model has it once, as a method of its own. The
byte order of the machine, the compiled-in backends and the capability level are parameters, so
every result holds for all of them.

The main results:

- **Pipelining.** Any list of well-formed requests (no body, Content-Length body, chunked body with
  trailers) serialised back to back comes out of the consumer's loop as that list, bodies included,
  with nothing left over; and whatever follows the list is treated as if it stood alone.
- **Arrival in pieces.** On any octets at all, well formed or not, a consumer that resumes parser and
  decoder as pieces come in ends where it would end had everything come at once, and hands up the
  same requests, if and only if no piece ends between the CR and the LF of a head line of exactly
  the limit (unless what follows is refused anyway). So a list of well-formed requests is delivered
  under every schedule if and only if none of its lines takes up its whole limit.
- **Exact heads.** One-shot calls accept exactly the octets that are a head, with exactly its parts:
  the method that its first word names, the version, code and reason, every header line with its
  continuation lines, and the value that ends with the last of them. Every other status has its
  exact condition on the octets too.
- **Exact framing.** A message is accepted, and its body delimited, exactly as a rule in literal
  field names, option words, status codes and numbers says.
- **Incremental equals one-shot.** For every schedule of growing prefixes, mode and policy.
- **Exact grammar.** The chunked decoder completes on exactly the inputs that begin with a sentence
  of the chunked grammar, however they are cut into slices, and reports an error exactly when no
  continuation could be accepted.
- **In-place decoding** computes the octet-at-a-time decoder, with payload in front, leftover
  right behind it and nothing else moved, despite overlapping copies.
- **Parse and print** undo each other in both directions.
- **Framing** is a rule about the fields that does not depend on header order or on how list values
  are spread over lines, and relaxing the policy never changes an accepted message.
- **Fast equals simple.** The borrow masks of the word-at-a-time validators are exact, and all
  scanner backends give the same answers.

Properties that hold with an exception, stated with the exception:

- Beside Incomplete, `TooLong` is the only verdict that more input can change. It is final in every extension if and
  only if the offending line is finished, or bare LF is allowed and the line is not the limit plus a
  CR (`TooLongIsFinal`). On each extension the new verdict is given case by case
  (`TooLongIsAlmostStable`): a bare LF makes the line an Error where bare LF is rejected
  (`BareLfAfterOverlong`, for example `LettersThenBareLf`), and only the LF behind the limit plus a CR can lead to anything else
  (`TooLongRecovers`). Of the lines of exactly the limit, those the parser takes do that, header
  lines, continuations and request lines alike (`LimitLineRecovers`, `LimitRequestLineRecovers`).
- For the same reason one cut of the arriving octets matters exactly there (`CutExactly`,
  `TightExactly`), a schedule changes something exactly when it has such a boundary (`AnySchedule`),
  and delivery under every schedule fails for exactly the lists with a line of exactly the limit
  (`EveryScheduleDelivers`). The octets alone tell a caller where such a boundary could be
  (`CutIsVisible`, `CarefulSchedule`).
- The status of a finished body is the leftover count exactly up to `INT_MAX` and otherwise depends
  on the count modulo 2^32 (`StatusIsLeftover`); a body with 2^32 - 2 octets behind it reads as
  Incomplete (`HugeLeftoverMisreports`).
- Canonicalising an accepted head preserves it exactly when every canonical line keeps the limit
  (`ReprintParsesTheSame`); accepted heads without room for the canonical space exist
  (`NoRoomForTheSpace`, `NoRoomHappens`).
- The two trailer paths both succeed if and only if the trailer lines are header lines that fit the
  capacity, and then they agree (`TrailerPathsMeet`). On every other trailer section the decoder
  succeeds alone (`DecoderSkipsMore`); the header parser succeeds alone only where bare LF is
  allowed (`ParserTakesBareLf`), exactly on the sections it accepts with a bare LF in them
  (`DecoderFollowsParser`).

Where code and comments differ the code is followed: the request-line limit is documented as
including CRLF (`include/iohttpparser/ihtp_types.h:33`) but compared without it
(`src/ihtp_parser.c:451-454`), and the decoder's documented "value = undecoded trailing bytes"
(`include/iohttpparser/ihtp_body.h:53`) is the cast count.

## Model

| member | source | states |
|---|---|---|
| Words.MaskExact | src/ihtp_parser.c:250-254 | for both limits and both byte orders, the two borrow masks of a word are zero exactly when none of its eight octets offends |
| Words.FieldWordIsClean | src/ihtp_parser.c:296-306 | the word test of the field-text loop passes exactly when no octet is below SP or DEL |
| Words.TargetWordIsClean | src/ihtp_parser.c:250-256 | the word test of the target loop passes exactly when no octet is SP, below it, or DEL |
| Words.FieldTextIsValid | src/ihtp_parser.c:279-343 | true exactly when every octet is HTAB or at least SP and not DEL, for every length |
| Words.RequestTargetIsValid | src/ihtp_parser.c:235-277 | true exactly when every octet is above SP and not DEL, or an allowed SP |
| Scanner.FirstOfIsUnique | src/ihtp_scanner_scalar.c:165-179 | "first delimiter or the end" determines the answer of a search |
| Scanner.BuildTable | src/ihtp_scanner_scalar.c:167-171 | the lookup table marks exactly the delimiters |
| Scanner.FindCharScalar | src/ihtp_scanner_scalar.c:165-179 | the first index holding a delimiter, or the length |
| Scanner.CompareEqualAny | src/ihtp_scanner_sse42.c:30-36 | the first octet of a 16-octet block equal to any needle octet, else 16 |
| Scanner.FindCharSse42 | src/ihtp_scanner_sse42.c:16-49 | the same answer as the scalar search, through blocks, tail and the fallback for 0 or more than 16 delimiters |
| Scanner.FindCharAvx2 | src/ihtp_scanner_avx2.c:16-44 | the same answer as the scalar search, through 32-octet blocks and tail |
| Scanner.IsTokenScalar | src/ihtp_scanner_scalar.c:181-189 | true exactly when every octet is a token character; true for the empty string |
| Scanner.IsTokenSse42 | src/ihtp_scanner_sse42.c:51-55 | the same answer |
| Scanner.IsTokenAvx2 | src/ihtp_scanner_avx2.c:46-66 | the same answer, through blocks and tail |
| Scanner.SelectVtable | src/ihtp_scanner_scalar.c:78-100 | both operations come from one backend: AVX2 exactly when compiled in and bit 1 is set, else SSE4.2 exactly when compiled in and bit 0 is set, else scalar |
| Scanner.FindChar | src/ihtp_scanner_scalar.c:128-131 | every dispatch table gives the first delimiter |
| Scanner.IsToken | src/ihtp_scanner_scalar.c:133-136 | every dispatch table gives the all-octets test |
| Head.ParserState.constructor | src/ihtp_parser.c:116-126 | start line first, except in headers mode; cursor zero |
| Head.ParserState.Reset | src/ihtp_parser.c:128-137 | back to the initial phase of the same mode |
| Head.FindLineEnd | src/ihtp_parser.c:141-168 | the line up to the first LF, a CR before it belonging to the ending; bare LF by policy |
| HeadSpec.LineAtCases | src/ihtp_parser.c:141-168 | a line is unfinished exactly when no LF follows, refused exactly when bare LF is rejected and its first LF has no CR, and otherwise found with exactly that length and ending |
| Spelling.TokenChars | src/ihtp_scanner_scalar.c:19-54 | a token character is a digit, a letter or one of the fifteen marks, letter by letter |
| StartGrammar.MethodLookup | src/ihtp_parser.c:43-114 | the lookup undoes the names of the nine methods and gives Unknown exactly for every other token |
| StartGrammar.RequestLineExactly | src/ihtp_parser.c:430-502 | which octets are an accepted request line, with which spans, method and version, and which are unfinished or too long |
| StartGrammar.StatusLineExactly | src/ihtp_parser.c:372-427 | which octets are an accepted status line, with which version, code and reason, and which are unfinished |
| HeadGrammar.SectionTaken | src/ihtp_parser.c:516-588 | header lines with their continuation lines are read as fields whose values end with the text of the last continuation |
| HeadGrammar.BlockExactly | src/ihtp_parser.c:506-594 | a header block has a status, an end and fields if and only if its octets are the lines of those fields, continuations included, up to a line that ends it in that way |
| HeadGrammar.TooManyExactly | src/ihtp_parser.c:563-573 | too many headers if and only if the capacity is used up and one more complete line begins with a name and a colon, whatever its value |
| StartGrammar.HeadExactly | src/ihtp_parser.c:617-823 | a head is accepted with given parts and length if and only if the octets begin with that head, in every mode |
| StartGrammar.RefusalExactly | src/ihtp_parser.c:617-728 | every other status is that of the start line or of the line at which the header block stops |
| Head.FindHeaderNameColon | src/ihtp_parser.c:170-197 | found exactly when the text before the first colon is a non-empty token |
| Head.FindMethodSpace | src/ihtp_parser.c:199-221 | found exactly when the text before the first SP is a non-empty token |
| Head.FindLastChar | src/ihtp_parser.c:223-233 | the last occurrence |
| Head.TrimAndValidateFieldValue | src/ihtp_parser.c:345-370 | the value without outer whitespace, valid exactly when it is text |
| Head.RequestLineParts | src/ihtp_parser.c:456-501 | accepts exactly METHOD SP target SP version with the target ending at the last SP, and stores its spans |
| Head.ParseRequestLineInto | src/ihtp_parser.c:431-502 | status, end and spans of the request line at an offset, including both length checks |
| Head.StatusLineParts | src/ihtp_parser.c:383-423 | accepts exactly HTTP/1.x SP code SP reason with a code from 100 to 599, and stores its parts |
| Head.ParseStatusLineInto | src/ihtp_parser.c:372-427 | status, end and parts of the status line at an offset; no length limit |
| Head.FoldLine | src/ihtp_parser.c:550-561 | only the last header changes, and its value ends where the continuation line ends |
| Head.FieldLine | src/ihtp_parser.c:563-586 | only the next slot changes; name, then count, then value decide the status |
| Head.HeaderLine | src/ihtp_parser.c:516-588 | one round of the header loop, on every branch |
| Head.ParseHeaderBlock | src/ihtp_parser.c:506-594 | the whole loop; on errors the count and the position do not move and finished headers keep their spans |
| Head.ParseRequestStateful | src/ihtp_parser.c:617-671 | one stateful call performs one transition of the parser, in every phase and for the wrong mode |
| Head.ParseResponseStateful | src/ihtp_parser.c:673-728 | the same for responses |
| Head.ParseHeadersStateful | src/ihtp_parser.c:730-771 | the same for headers on their own, with the caller's capacity |
| Head.ParseRequest | src/ihtp_parser.c:775-787 | a one-shot call is one stateful call from a fresh state into a zeroed structure; it accepts exactly the octets that begin with a request head of at most 64 fields, with exactly its method, spans and length, and reports too many headers exactly when a 65th named line follows |
| Head.ParseResponse | src/ihtp_parser.c:791-803 | the same for responses |
| Head.ParseHeaders | src/ihtp_parser.c:807-823 | the same for headers, with the caller's capacity |
| HeadSpec.Advance | src/ihtp_parser.c:629-670 | a call ends Done with the cursor as consumed length, or waiting inside the buffer, or Failed; nothing is consumed unless Ok |
| HeadRuns.LineExtends | src/ihtp_parser.c:141-168 | a terminated line reads the same in every longer buffer |
| HeadRuns.StartLineExtends | src/ihtp_parser.c:372-502 | an accepted or malformed start line stays so in every longer buffer |
| HeadRuns.BlockExtends | src/ihtp_parser.c:506-594 | a decided block is final, and an incomplete one can be resumed where it stopped, folds included |
| HeadRuns.DecidedIsStable | src/ihtp_parser.c:775-823 | Ok, Error and TooManyHeaders of a one-shot call hold, with all outputs, for every extension of the buffer |
| HeadRuns.OverlongTailIn | src/ihtp_parser.c:141-168 | what an overlong unfinished line is in every longer buffer: a line of the limit, a refused bare LF, or overlong |
| HeadRuns.OverlongTailRecovers | src/ihtp_parser.c:441-454 | an overlong unterminated line can still become acceptable if and only if it is the limit plus its CR |
| HeadRuns.OverlongTailStays | src/ihtp_parser.c:441-454 | it stays overlong in every extension if and only if bare LF is allowed and it is not the limit plus a CR |
| HeadRuns.TooLongIsAlmostStable | src/ihtp_parser.c:441-454 | the verdict of a one-shot call on every extension of a buffer that was TooLong: TooLong, or Error on a rejected bare LF, or judged afresh when a line of exactly the limit gets its LF |
| HeadRuns.TooLongIsFinal | src/ihtp_parser.c:528-543 | TooLong holds in every extension if and only if the offending line is finished, or bare LF is allowed and the line is not the limit plus a CR |
| HeadRuns.TooLongRecovers | src/ihtp_parser.c:528-543 | the verdict becomes other than TooLong or Error only when the line is the limit plus its CR and the next octet is LF |
| HeadRuns.BareLfAfterOverlong | src/ihtp_parser.c:162-164 | every unfinished line that is too long and does not end in CR turns from TooLong into Error when an LF follows, where bare LF is rejected |
| HeadRuns.LettersThenBareLf | src/ihtp_parser.c:162-164 | examples of every length over the limit, which do not end at the limit |
| HeadRuns.StoppedAtLineInProgress | src/ihtp_parser.c:506-594 | an unfinished offending line is the one behind the last LF of the buffer |
| HeadRuns.ResumeAgrees | src/ihtp_parser.c:637-670 | a stateful call after an incomplete one answers like a one-shot call on the longer buffer |
| HeadRuns.IncrementalEqualsOneShot | src/ihtp_parser.c:617-823 | for every schedule of growing prefixes, as long as earlier calls were Incomplete, a stateful call has the status of a one-shot call and, on Ok and Incomplete, its state, spans and consumed length |
| HeadRuns.FirstDecisionWins | src/ihtp_parser.c:629-635 | after the first decided call of a schedule every later call repeats it with the same state |
| HeadSpans.BlockTiles | src/ihtp_parser.c:506-594 | without folding, header lines fill the block gap-free as name, colon, OWS, value, OWS, line ending, up to an empty line |
| HeadSpans.BlockOrdered | src/ihtp_parser.c:506-594 | with or without folding, spans are in order, disjoint and inside the block, names are non-empty tokens, and the count never exceeds the maximum |
| HeadSpans.RequestTiles | src/ihtp_parser.c:431-594 | an accepted request is exactly its request line, its header lines and an empty line, and these are the consumed octets |
| HeadSpans.ResponseTiles | src/ihtp_parser.c:372-594 | an accepted response is exactly its status line, its header lines and an empty line, and these are the consumed octets |
| HeadSpans.HeadersOrdered | src/ihtp_parser.c:617-823 | for every mode and policy the start-line spans, then the header spans, are in order, disjoint and inside the consumed octets |
| HeadPolicy.HeadRelaxes | src/ihtp_parser.c:141-168 | an accepted or incomplete head is the same under every weaker policy |
| HeadPrint.PrintedBlock | src/ihtp_parser.c:506-594 | a canonical header section parses to the spans of its fields, at any offset and behind any headers |
| HeadPrint.ParsePrinted | src/ihtp_parser.c:372-594 | parsing the serialisation of a valid head followed by anything gives back its parts and consumes exactly it, for requests, status lines 100 to 599 and every policy |
| HeadReprint.AcceptedIsShapely | src/ihtp_parser.c:372-594 | everything accepted without folding consists of valid tokens, targets, codes and trimmed text |
| HeadReprint.PrintedOverlong | src/ihtp_parser.c:540-543 | a canonical head with a header line over the limit is too long |
| HeadReprint.ReprintParsesTheSame | src/ihtp_parser.c:372-594 | canonicalising an accepted head keeps all its parts, if and only if every canonical line keeps the limit |
| HeadReprint.NoRoomForTheSpace | src/ihtp_parser.c:540-543 | a head with a line of exactly the limit and no space behind the colon is accepted with all its parts, and its canonical form is too long |
| HeadReprint.NoRoomHappens | src/ihtp_parser.c:540-543 | such a request exists |
| HeadReprint.LimitLineRecovers | src/ihtp_parser.c:528-586 | in every mode, behind any complete lines so far, any line of exactly the limit is too long before its LF arrives (or refused as a fold), and after it the parser waits for more if and only if it takes the line |
| HeadReprint.LimitRequestLineRecovers | src/ihtp_parser.c:441-502 | the same for any request line of exactly the limit, spaces in the target included |
| ChunkSpec.SoundStep | src/ihtp_body_decoder.c:82-86 | the accumulator update cannot exceed 64 bits |
| ChunkSpec.SoundRun | src/ihtp_body_decoder.c:56-222 | in every reachable state the size is below 16 to the digit count with at most 16 digits, chunk data has octets left, and the trailer counter is one of four values |
| ChunkSpec.TotalCountsPayload | src/ihtp_body_decoder.c:134 | total_decoded counts payload octets only, modulo its width |
| ChunkSpec.RunSplit | src/ihtp_body_decoder.c:46-223 | feeding a then b equals feeding both: Incomplete goes on, completion only gains leftover, errors stay |
| ChunkSpec.SplitInvariance | src/ihtp_body_decoder.c:46-223 | from any state, any cutting into slices gives the same payload, verdict, final state and end of body |
| ChunkSpec.RunData | src/ihtp_body_decoder.c:124-139 | moving chunk data in bulk equals single steps |
| ChunkDecoder.MoveDown | src/ihtp_body_decoder.c:130 | an overlapping move delivers the source and disturbs neither earlier payload nor unread input |
| ChunkDecoder.StatusIsLeftover | src/ihtp_body_decoder.c:117 | the status of every completed run is the leftover count if and only if the count is at most INT_MAX, and reads as success, Error or Incomplete by the count modulo 2^32 |
| ChunkDecoder.HugeLeftoverMisreports | src/ihtp_body_decoder.c:113-117 | an empty body with 2^32 - 2, 2^32 - 1 or 2^32 octets behind it completes and reports Incomplete, Error or nothing left |
| ChunkDecoder.Chunked.constructor | include/iohttpparser/ihtp_body.h:22-32 | a zeroed decoder is in the start state |
| ChunkDecoder.Chunked.SizeOctet | src/ihtp_body_decoder.c:58-89 | one octet of a size line, with the 64-bit accumulator never wrapping |
| ChunkDecoder.Chunked.Frame | src/ihtp_body_decoder.c:91-210 | one octet of extension, line endings and trailers |
| ChunkDecoder.Chunked.CopyData | src/ihtp_body_decoder.c:124-139 | the available payload joins the payload so far; unread octets stay |
| ChunkDecoder.Chunked.Finish | src/ihtp_body_decoder.c:113-117 | leftover octets follow the payload unchanged |
| ChunkDecoder.Chunked.Round | src/ihtp_body_decoder.c:56-219 | every round consumes input or ends the call |
| ChunkDecoder.Chunked.Decode | src/ihtp_body_decoder.c:46-223 | a call computes the octet-at-a-time decoder: payload in front, leftover behind it, size unchanged on errors, nothing beyond the slice touched |
| ChunkGrammar.ExtendDescribes | src/ihtp_body_decoder.c:56-210 | each accepted octet extends a well-formed prefix by itself and its payload; the accumulator is the value of the digits read |
| ChunkGrammar.CompletesOnSentence | src/ihtp_body_decoder.c:58-219 | whatever a completed decoder consumed is a sentence of the grammar whose payload it returned |
| ChunkGrammar.SentenceCompletes | src/ihtp_body_decoder.c:58-219 | decoding any encoding followed by anything returns its payload and stops at its end |
| ChunkGrammar.DecoderAcceptsGrammar | src/ihtp_body_decoder.c:46-223 | a fresh decoder completes if and only if the input begins with a sentence, with or without trailers |
| ChunkGrammar.NeedsMoreOnPrefix | src/ihtp_body_decoder.c:221-222 | a decoder that asks for more has read a well-formed prefix that accounts for its state and payload |
| ChunkGrammar.RejectsExactlyTheHopeless | src/ihtp_body_decoder.c:58-210 | an error is reported if and only if no continuation of the input could complete |
| Numbers.HexValueSpells | src/ihtp_body_decoder.c:33-66 | a digit string is read as n if and only if it spells n in the alphabets 0 to f and 0 to F, case by case and with leading zeros or without |
| Numbers.SizesFit | src/ihtp_body_decoder.c:58-89 | every number of 64 bits is written in at most sixteen such digits, in either case |
| Numbers.ChunkBySize | src/ihtp_body_decoder.c:56-157 | a chunk whose size line spells the length of its data is consumed with exactly that data |
| Numbers.SizeLineSpells | src/ihtp_body_decoder.c:58-105 | after a size line that spells n the decoder waits for exactly n octets |
| Numbers.LongSizeRefused | src/ihtp_body_decoder.c:61-63 | more than sixteen digits are refused, whatever they spell |
| Numbers.OneChunkBody | src/ihtp_body_decoder.c:46-223 | one such chunk, the line 0 and the empty line are a complete body with that data, whatever follows |
| ChunkTrailers.BlockIsTrailer | src/ihtp_body_decoder.c:160-208 | the trailer machine completes at the end of every header block accepted with CRLF line endings |
| ChunkTrailers.TrailerPathsAgree | src/ihtp_body_decoder.c:106-118 | decoder without trailers plus header parser consumes as much as decoder with trailers, with the same payload |
| ChunkTrailers.BlockTakesTrailers | src/ihtp_parser.c:506-594 | the header parser takes a trailer section, behind any headers and whatever follows, if and only if every line is within the limit and a field or an allowed continuation and the fields fit; then it stops at its end |
| ChunkTrailers.DecoderTakesTrailers | src/ihtp_body_decoder.c:106-208 | behind the last chunk a decoder with trailer handling completes if and only if a trailer section follows, at the end of that section and with the same payload |
| ChunkTrailers.TrailerPathsMeet | src/ihtp_body_decoder.c:106-208 | for every policy both paths succeed if and only if a section of header lines that fit follows, and then agree; the decoder succeeds alone on every other section |
| ChunkTrailers.DecoderFollowsParser | src/ihtp_body_decoder.c:160-208 | when the header parser accepts the trailer section, the decoder completes if and only if every LF the parser consumed comes behind a CR |
| ChunkTrailers.DecoderSkipsMore | src/ihtp_body_decoder.c:188-199 | every trailer line without colon is skipped by the decoder and refused by the header parser |
| ChunkTrailers.ParserTakesBareLf | src/ihtp_parser.c:162-168 | where bare LF is allowed the header parser ends a trailer section at a bare LF that the decoder refuses |
| Semantics.EqualsIgnoreCase | src/ihtp_semantics.c:18-62 | equality up to ASCII case |
| Semantics.ScanStep | src/ihtp_semantics.c:97-150 | one turn of a comma scan yields the next trimmed element, and a final comma yields an empty one |
| Semantics.ParseContentLength | src/ihtp_semantics.c:66-87 | succeeds exactly on non-empty decimal numbers below 2^64, with their value and no intermediate overflow |
| Numbers.LengthSpells | src/ihtp_semantics.c:66-87 | a Content-Length value is valid if and only if it spells a number below 2^64 in decimal, and it is read as that number |
| Semantics.ParseCoding | src/ihtp_semantics.c:118-141 | a coding is a token with optional parameters, and chunked takes none |
| Semantics.ParseTransferEncoding | src/ihtp_semantics.c:89-159 | accepts exactly lists of valid codings; reports how many are chunked and whether the last is |
| Semantics.ParseConnection | src/ihtp_semantics.c:161-206 | accepts exactly lists of tokens; each flag is set exactly when its option occurs here or before |
| Semantics.ParseExpect | src/ihtp_semantics.c:208-226 | accepts every non-blank value; only 100-continue counts |
| Semantics.ParseTrailer | src/ihtp_semantics.c:228-265 | accepts exactly lists of tokens |
| Semantics.Absorb | src/ihtp_semantics.c:430-467 | one header shared by requests and responses keeps the flags true to the fields so far, or shows they are malformed |
| Semantics.AbsorbRequest | src/ihtp_semantics.c:297-344 | the same with Host and Expect |
| Semantics.ApplyRequestSemantics | src/ihtp_semantics.c:269-400 | a request is accepted if and only if its fields keep the rule in literal names, with exactly the rule's body, length and flags; parse results are untouched |
| Semantics.ConcludeRequest | src/ihtp_semantics.c:347-399 | the checks and decisions after the loop give the rule's verdict and outcome |
| Semantics.ApplyResponseSemantics | src/ihtp_semantics.c:404-515 | the same for responses, including values kept from before the call: no body exactly for codes 100 to 199, 204 and 304, otherwise chunked, fixed or until close by the fields |
| Semantics.ConcludeResponse | src/ihtp_semantics.c:470-514 | the response verdict, body mode, persistence and protocol switch |
| FramingRule.KindIsName | src/ihtp_semantics.c:297-344 | each of the seven field names, in any case, has its own role and no other name has it |
| FramingRule.RequestByRule | src/ihtp_semantics.c:269-400 | the verdict on a request in literal names: codings, lengths, options, exactly one Host under HTTP/1.1, non-blank Expect values, chunked last and once |
| FramingRule.RequestOutcomeByRule | src/ihtp_semantics.c:347-399 | body, length, persistence, upgrade, continue and trailer flag of a request in literal names |
| FramingRule.ResponseByRule | src/ihtp_semantics.c:404-515 | the verdict on a response in literal names |
| FramingRule.ResponseOutcomeByRule | src/ihtp_semantics.c:470-514 | body mode by status code, coding and length, and the flags, of a response |
| FramingRule.HostRequired | src/ihtp_semantics.c:352-357 | an accepted HTTP/1.1 request has exactly one Host field and it is not empty |
| FramingRule.HostAlone | src/ihtp_semantics.c:329-333 | with that field alone an HTTP/1.1 request is accepted without a body and stays open |
| FramingRule.ExpectAlone | src/ihtp_semantics.c:334-338 | an Expect field is no Host and sets nothing but the continue flag |
| SemanticsLaws.RequestReordering | src/ihtp_semantics.c:294-400 | reordering headers, with Transfer-Encoding and Expect lines in their own order, changes neither verdict nor outcome |
| SemanticsLaws.ResponseReordering | src/ihtp_semantics.c:427-514 | the same for responses, with only Transfer-Encoding lines in their own order |
| SemanticsLaws.ChunkedOnceAndLast | src/ihtp_semantics.c:352-377 | in an accepted request with Transfer-Encoding, chunked is the last coding of all lines and no other, and the body is chunked even beside Content-Length |
| SemanticsLaws.ElementsJoinOws | src/ihtp_semantics.c:97-150 | joining two values with a comma and optional whitespace joins their element lists |
| SemanticsLaws.ListSplits | src/ihtp_semantics.c:97-150 | the elements of a list are its comma-free parts without the whitespace around them, empty ones included |
| SemanticsLaws.EveryValueIsList | src/ihtp_semantics.c:97-150 | every value is such a list |
| SemanticsLaws.FieldLinesCombine | src/ihtp_semantics.c:89-265 | merging all Transfer-Encoding, Connection or Trailer lines into one line anywhere changes nothing that requests or responses depend on, as section 5.3 of RFC 9110 requires |
| SemanticsLaws.RelaxingKeepsMessages | src/ihtp_semantics.c:348-350 | a request or response that goes through keeps spans, length, body mode and flags, and still goes through, under every weaker policy |
| FixedBody.FixedDecoder.constructor | src/ihtp_body_decoder.c:227-233 | everything remains, nothing seen |
| FixedBody.FixedDecoder.Consume | src/ihtp_body_decoder.c:235-252 | too much changes nothing; otherwise remaining and seen keep their sum, and Ok means none remain |
| Pipeline.ChunkedRequestsExist | src/ihtp_semantics.c:369-371 | every chunked encoding, trailers included, is the body of a well-formed request |
| Pipeline.SizedRequestsExist | src/ihtp_semantics.c:372-374 | every body whose length a Content-Length value announces is the body of a well-formed request |
| Pipeline.OneMessage | bench/bench_extended_contract.c:161-206 | each stage stops exactly at its boundary, whatever follows the message |
| Pipeline.DrainsThenContinues | bench/bench_extended_contract.c:161-206 | a serialised list in front of any octets is recovered and the rest treated as if alone |
| Pipeline.PipelineRoundTrip | bench/bench_extended_contract.c:161-206 | requests serialised back to back are recovered as that list, bodies included, with nothing left |
| Pipeline.AcceptedHeadInside | src/ihtp_parser.c:617-671 | every span of an accepted request can be read from the buffer |
| Pipeline.ReadBody | src/ihtp_body_decoder.c:46-252 | the decoder chosen by the body mode delivers the body and stops at its end |
| Pipeline.TakeTurn | bench/bench_extended_contract.c:176-193 | stateful parse, semantics and decoder together take one message |
| Pipeline.DrainLoop | bench/bench_extended_contract.c:161-206 | the loop with one reset parser state computes the recovery that the round trip is about |
| Arrival.HeadingIsOneShot | docs/en/05-consumer-contracts.md:46-50 | a resumed head parse leads where a one-shot parse of the accumulated buffer leads |
| ArrivalCuts.CutExactly | docs/en/05-consumer-contracts.md:46-50 | on any octets, cutting an arrival in two changes the connection or what it hands up if and only if the cut falls between the CR and the LF of a head line of exactly the limit and what follows is not refused anyway |
| ArrivalCuts.CutIsHarmless | docs/en/05-consumer-contracts.md:46-50 | a cut is harmless for every continuation if and only if it does not follow the CR of such a line |
| ArrivalCuts.TightExactly | src/ihtp_parser.c:441-543 | such a line is one that the parser takes behind complete lines, or as request line, and that takes up its whole limit |
| ArrivalCuts.CutIsVisible | src/ihtp_parser.c:528-543 | such a cut has a CR before it, an LF after it, and more than the limit of octets since the last LF |
| ArrivalCuts.AnySchedule | docs/en/06-parser-state.md:31-35 | on any octets, pieces arriving one by one do what their concatenation would if and only if no boundary is such a cut |
| ArrivalCuts.CarefulSchedule | docs/en/06-parser-state.md:31-35 | they do so in particular when no boundary separates a CR from an LF with more than the limit of octets since the last LF |
| ArrivalLaws.ArriveIsDrain | docs/en/07-body-decoder.md:34-39 | on any octets a fresh connection hands up the requests that the loop over the whole stream takes, and is fresh again if and only if nothing is left |
| ArrivalLaws.PiecesMatchDrain | docs/en/06-parser-state.md:31-35 | the same for octets arriving in pieces, unless a piece ends between the CR and the LF of a head line of exactly the limit |
| ArrivalLaws.PartialHead | src/ihtp_parser.c:430-594 | a canonical head without a line of exactly the limit is incomplete wherever it is cut off |
| ArrivalLaws.EveryScheduleDelivers | docs/en/05-consumer-contracts.md:46-50 | a list of well-formed requests is delivered under every arrival schedule if and only if no request or header line takes up its whole limit |
| Consumer.Connection.constructor | docs/en/06-parser-state.md:31-35 | a new connection is fresh |
| Consumer.Connection.ParseHead | docs/en/05-consumer-contracts.md:46-50 | a stateful call on the accumulated buffer answers like a one-shot call |
| Consumer.Connection.JudgeHead | docs/en/05-consumer-contracts.md:46-50 | semantics are applied right after an accepted head and its body mode selects the decoder |
| Consumer.Connection.ReadFixed | src/ihtp_body_decoder.c:235-252 | a fixed-length body is counted across arrivals |
| Consumer.Connection.ReadChunks | docs/en/07-body-decoder.md:34-39 | one decoder is reused across arrivals, payload is collected and trailing octets go on to the next head |
| Consumer.Connection.Receive | docs/en/05-consumer-contracts.md:46-50 | an arrival leaves the connection, and hands up the requests, exactly as the consumer function says |

## Left out

- Head.ParseRequestLineInto: the request-line fields are unspecified when the line is refused, because the source writes them as far as it understood the line.
- Head.ParseStatusLineInto: likewise for the status-line fields.
- Head.ParseHeaderBlock: array slots past the count, and the value of the last earlier header after a refused block, are unspecified, as the caller must not read them.
- Semantics.ApplyRequestSemantics: framing fields are unspecified on Error, because the source may have written some of them before it refuses.
- Semantics.ApplyResponseSemantics: likewise.
- ChunkDecoder.Chunked.Decode: after an error the octets between the payload written and the refused octet are unspecified.
- Pipeline.DrainLoop: at most INT_MAX octets at a time, the range in which the decoder's status is the leftover count.
- Consumer.Connection.Receive: at most INT_MAX octets pending at a time, as for the loop over the whole stream; body octets are copied to a buffer of their own before they are decoded in place.
- Null pointers, and a null policy standing for the strict one: references are never null and the policy is always given.
- Pointer identity, and lengths near the end of the address space: spans are offsets and their differences plain integers.
- Method names as strings, version functions and named policy presets beyond the strict one.
- CPU feature detection and lazy set-up of the dispatch table: the level is an arbitrary input.
- Performance counters.
- The SSE comparison instruction is a function with its documented result, not a bit-level model.
- Upgraded protocols, CONNECT tunnels, 100-continue replies, URI structure, content codings and chunk-extension contents.

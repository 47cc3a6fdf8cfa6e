# Proofs about aiohttp's wire formats, streams, pool and jar

This project models the stateful cores of aiohttp and proves what they promise.

- **HTTP/1.1 wire codec** (`Hex`, `Headers`, `PayloadMachine`, `PayloadParser`, `PayloadRuns`, `ChunkGrammar`,
  `HttpWriter`, `Requests`, `HeadGrammar`, `HeaderLists`, `HttpMachine`, `HttpParser`, `WireHeads`, `Framing`,
  `WireRoundTrip`, `SizedRoundTrip`, `Pipelines`, `ChunkDelivery`, `CutSensitivity`). A connection read one byte at a
  time is the reference; the incremental parsers, with their tails, pauses and queue limit, are proved to follow it on
  any fragmentation, and a one-shot decoder of the chunk grammar agrees with it. Which heads and size lines are accepted,
  and how the bytes behind a head are read, is said from the grammar and the headers alone.
  `StreamWriter`'s coalescing paths are proved to put the plain message on the wire, and what it prints is read back, end
  to end, from the pieces written to the chunks that a reader of the body gets.
- **StreamReader** (`Streams`). A deque of blocks with an offset, a cursor and recorded chunk ends, fed again in the
  middle of its own reads, is a plain byte queue.
- **Multipart** (`BodyParts`, `MultipartWriter`, `MultipartReader`, `MultipartBoundary`, `MultipartRoundTrip`, `Base64`).
  The sliding-window search returns exactly the part before the delimiter on every pattern of short reads; reading a
  message in pieces equals reading it at once; parts are read back exactly when they cannot be mistaken and the content
  type carries the boundary; the computed size is the number of bytes sent; base64 of a body written in pieces is base64
  of the whole.
- **Connection pool** (`ConnectionPool`, `ConnectionReuse`, `Connector`). Every run between two suspension points is one
  atomic step of a state machine; any number of calls, holders and clean-ups interleave. The methods of `BaseConnector`
  are proved to be those steps; the bounds, the order of waiters and the fate of each connection are proved for every
  reachable state.
- **Flow control** (`FlowControl`). The server's bounded pipelining queue and its two reasons to pause the transport, on
  top of the request parser.
- **Cookie jar** (`CookieMatching`, `CookieJar`, `CookieRules`). The lookup by enumerated domains and paths equals a scan,
  the morsel cache is coherent, lazy expiry is exact, and each cookie lives and is sent as its attributes say.

A byte is a `char`; an instant is an `int`. The environment appears only as arbitrary input: fragments and short reads,
a finite script of a payload's reactions, the rest of a connection that may be delivered in the middle of a read, the
clock, the set of connections still connected, the shuffled order of queues, what a compressor returns. Each parser is
modelled in strict mode (`lax=False`, separator CRLF).

Some promises do not hold as one might state them; for these there is a counterexample and the exact condition:

- A partial line of a body that is over the limit is rejected as soon as there is more input. So a cut inside such a line
  shows, unless an overlong line is ahead anyway (`PayloadRuns.ReceiveUnpaused`, `PayloadRuns.RejectedAnywayIff`,
  `PayloadRuns.ExactLimitLineIsCutSensitive`).
- A head line of exactly the permitted length is an error once it is cut between its CR and its LF, and only there
  (`CutSensitivity.CutLineIsOverlongIff`, `CutSensitivity.ExactLineCutInItsEnd`).
- What follows a closing message, or a body error that is swallowed, depends on whether it comes in the same call
  (`HttpParser.HttpRequestParser.FeedData` says exactly how; `CutSensitivity` has the inputs).
- The total connection limit is not a bound on acquired connections: it is exceeded exactly when an idle connection is
  reused at the limit (`ConnectionPool.TotalLimitOfRuns`, `ConnectionPool.TotalLimitCanBeExceeded`).
- `as_bytes` and `write` of a multipart message agree exactly if every base64 part is empty
  (`MultipartWriters.EncodedPartsDiffer`, `MultipartWriters.EncodedPart`).
- Not every boundary that a writer takes carries its messages (`MultipartRoundTrips.BoundaryCarriesMessagesIff`): it is
  cut at a semicolon, escapes are never undone, outer blanks are stripped (`MultipartBoundaries.SemicolonCuts`,
  `MultipartBoundaries.EscapesStay`, `MultipartBoundaries.OuterBlanksGo`), and one that ends in a tab is never found
  (`MultipartRoundTrips.FinalTabIsNeverFound`).
- A form-data part that holds the delimiter is cut short (`MultipartRoundTrips.FormDataIsMistakable`).
- A cookie set without a domain is for its host only, unless one of the same name with another path expires: that takes the
  mark of both (`CookieRules.SetAndSee`, `CookieRules.MarkIsLost`).
- The jar's path rule is that of section 5.1.4 of RFC 6265 exactly for paths that do not end in two slashes
  (`CookieMatching.PathRuleIsRfcIff`), and a session cookie keeps the deadline of the cookie it replaces
  (`CookieJars.UpdateAndCheck`, `CookieJars.SessionCookieExpires`).

## Model

| member | source | states |
|---|---|---|
| Hex.HexRoundTrip | aiohttp/http_writer.py:125-130 | a printed chunk size is hexadecimal digits only, reads back as the same number, and holds nothing that could end the size line early |
| Hex.DigitValues | aiohttp/http_parser.py:991-999 | each of the sixteen digits is worth its position, in either case |
| Hex.CaseIgnored | aiohttp/http_parser.py:999 | the case of the digits does not matter |
| Hex.ZerosIgnored | aiohttp/http_parser.py:999 | nor do zeros in front |
| Hex.FromHexIff | aiohttp/http_parser.py:993-999 | a size is read as `n` if and only if it is the printed `n` in any case with any zeros in front |
| Headers.HeadersParser.ParseHeaders | aiohttp/http_parser.py:167-241 | the loop over header lines accepts the list, or raises the error, that reading line by line up to the empty line gives |
| Headers.LineRoundTrip | aiohttp/http_parser.py:177-233 | one printed header line is read back as the same header if and only if name and value are well formed and the name is not a repeated singleton |
| Headers.SerializedLines | aiohttp/http_writer.py:381-385 | a printed block is the status line and the header lines, each ended by CRLF, and one empty line; with no header there is one empty line too many |
| Headers.HeaderRoundTrip | aiohttp/http_writer.py:372-385 | a printed header list is read back unchanged if and only if every name is a token, every value has no outer blanks and no singleton header is repeated |
| Requests.DecimalRoundTrip | aiohttp/multipart.py:1029-1032 | a printed length is a number again, the same one |
| Requests.ZerosInFront | aiohttp/http_parser.py:396-408 | zeros in front of a number do not matter, and each digit is worth its position |
| HeadGrammar.TokenChars | aiohttp/http_parser.py:81-84 | a name or a method holds exactly the characters that section 5.6.2 of RFC 9110 permits |
| HeadGrammar.PermittedChars | aiohttp/http_parser.py:86-88 | a value holds exactly what section 5.5 of RFC 9110 permits |
| HeadGrammar.CaseFolding | aiohttp/http_parser.py:598-602 | lower case maps the 26 letters and nothing else |
| HeadGrammar.LineIsParsed | aiohttp/http_parser.py:177-237 | a line is accepted, as this name and value, if and only if it is a field line by section 5 of RFC 9112 and repeats no singleton; one that does is a bad message, anything else an invalid header |
| HeadGrammar.BlockIsParsedIff | aiohttp/http_parser.py:167-241 | a block of any lines is accepted, as this list, if and only if each line is a field line of it and none repeats a singleton |
| HeadGrammar.NoRepeats | aiohttp/http_parser.py:236-237 | what is accepted never has two lengths, codings, hosts or other singletons |
| HeadGrammar.VersionIff | aiohttp/http_parser.py:89 | exactly `HTTP/`, a digit, a dot and a digit are a version, the one they say |
| HeadGrammar.RequestLineIff | aiohttp/http_parser.py:648-697 | for every line of three words: which are request lines, what they mean, and the error of each that is none |
| HeadGrammar.TwoWords | aiohttp/http_parser.py:650-654 | a line of fewer words is none |
| HeaderLists.SplitJoined | aiohttp/http_parser.py:598-602 | splitting a list undoes joining it, unless a part holds the separator |
| HeaderLists.ListTokenIff | aiohttp/http_parser.py:598-602 | a name is found in a list exactly if it is one of its elements, in any case and with any blanks around it |
| HeaderLists.ChunkedIff | aiohttp/http_parser.py:732-745 | a transfer coding is accepted exactly if its last element is `chunked` and no other one is |
| WireHeads.RunPrintedHead | aiohttp/http_parser.py:362-394 | the lines of a printed head are gathered up to its empty line and parsed there |
| WireHeads.EmptyLinesAreSkipped | aiohttp/http_parser.py:371-378 | empty lines before a request line are skipped |
| WireHeads.HeadLimits | aiohttp/http_parser.py:379-388 | a line over the limit is an error, and so is one more than permitted; any other is one more line of the head |
| Framing.MessageFacts | aiohttp/http_parser.py:578-729 | what a printed head means: its headers in order, the method, target and version of its request line, whether it is chunked, closes the connection, asks for a switch or is compressed |
| Framing.HeadIsRefused | aiohttp/http_parser.py:396-413 | a head is refused for a coding that is not `chunked` once and last or stands beside a length, for a missing host, a length that is no number and the old WebSocket key |
| Framing.NothingFollows | aiohttp/http_parser.py:421-425 | without a coding and a length, and to HEAD in any case, the next request follows at once, or the protocol that is switched to |
| Framing.LengthFollows | aiohttp/http_parser.py:426-455 | with a length the next so many bytes are the body, whatever they are, and reading goes on right behind them |
| Framing.TunnelFollows | aiohttp/http_parser.py:456-476 | behind CONNECT without a body everything is payload, without end |
| PayloadMachine.RunAppend | aiohttp/http_parser.py:921-1099 | reading a body in two pieces is reading it in one |
| PayloadMachine.RunExtends | aiohttp/http_parser.py:921-1099 | what was delivered of a body is never taken back: bytes, chunk starts and chunk ends only grow |
| PayloadMachine.RunLine | aiohttp/http_parser.py:972-1011 | a size or trailer line in progress is completed by its first CRLF and by nothing else |
| PayloadMachine.RunData | aiohttp/http_parser.py:1014-1033 | chunk data is delivered up to its announced size, then the chunk ends |
| PayloadMachine.RunDataEnd | aiohttp/http_parser.py:1036-1051 | after chunk data exactly CRLF is accepted; anything else is a transfer-encoding error |
| PayloadParser.HttpPayloadParser.PauseReading | aiohttp/http_parser.py:896-897 | a pause changes nothing of what the parser stands for |
| PayloadParser.HttpPayloadParser.FeedLength | aiohttp/http_parser.py:935-951 | length framing follows the reference on any piece of input, through any pauses |
| PayloadParser.HttpPayloadParser.FeedUntilEof | aiohttp/http_parser.py:1085-1099 | framing by end of file hands everything over, through any pauses, and ends only once the end was reported |
| PayloadParser.HttpPayloadParser.FeedChunked | aiohttp/http_parser.py:953-1082 | chunked framing follows the reference on any piece of input, through any pauses; errors and leftover are those of the reference |
| PayloadParser.HttpPayloadParser.FeedEof | aiohttp/http_parser.py:899-919 | the end of the connection completes an until-EOF body, unless its payload has paused, and is an error in the middle of any other |
| PayloadParser.HttpPayloadParser.FeedData | aiohttp/http_parser.py:921-1099 | whatever the payload answers, the parser stays on the reference run of all it was given; it raises exactly where that run fails, or on re-entry with an overlong partial line; every stop on a pause uses up a request to pause |
| PayloadRuns.FeedFragments | aiohttp/http_parser.py:921-1099 | the same for a sequence of fragments with pauses requested in between; where it departs from the reference it rejects the body at a cut inside an overlong line, with what had been delivered up to there |
| PayloadRuns.Receive | aiohttp/http_parser.py:896-1099 | for every cut of the input, every schedule of pauses and every script of answers, bytes, chunk positions, verdict and leftover are those of one uninterrupted pass, or else the body is rejected at a cut that falls inside an overlong line, with what had been delivered up to there |
| PayloadRuns.ReceiveUntilEof | aiohttp/http_parser.py:896-919 | until end of file, for every cut, schedule and script, the payload gets all the bytes and then the end |
| PayloadRuns.ReceiveUnpaused | aiohttp/http_parser.py:953-1082 | the exception is exact: a parser that is never paused rejects the body at the first cut inside an overlong line, with what had been delivered so far, and otherwise observes the uninterrupted pass; the two observations are the same if and only if there is no such cut or an overlong line is ahead in the input anyway |
| PayloadRuns.RejectedAnywayIff | aiohttp/http_parser.py:956-1059 | after such a cut the uninterrupted pass ends with the same rejection and the same bytes if and only if the rest of the input holds an overlong line before another chunk or another error |
| PayloadRuns.LongLineIff | aiohttp/http_parser.py:973-1059 | what such an input is: the line itself, or after a last chunk one of the trailer lines, is over its limit |
| PayloadRuns.ExactLimitLineIsCutSensitive | aiohttp/http_parser.py:956-967 | an input on which they differ: a size line of exactly the permitted length is accepted whole, and cut between CR and LF it is not |
| ChunkGrammar.GrammarAgrees | aiohttp/http_parser.py:953-1082 | the one-shot recursive decoder of the chunk grammar accepts, rejects and waits on the same inputs as the incremental reference, with the same bytes, chunk positions, leftover and error |
| ChunkGrammar.DecodePrinted | aiohttp/http_writer.py:125-130 | the decoder inverts the printer: printed chunks and a last chunk decode to the pieces, with what follows as leftover |
| ChunkGrammar.RunPrinted | aiohttp/http_writer.py:125-130 | so does the incremental reference |
| ChunkGrammar.SizeLineIff | aiohttp/http_parser.py:970-999 | a line announces `n` if and only if it spells `n`, possibly with an extension free of line feeds, within the limit; which error any other line is |
| ChunkGrammar.DecodeSpelled | aiohttp/http_parser.py:953-1082 | the chunks of any sender, however their sizes are spelled and extended, and any trailers that can be printed: exactly the data is delivered, chunk by chunk, and what follows is left |
| ChunkGrammar.RunSpelled | aiohttp/http_parser.py:953-1082 | so it is for the incremental reference |
| HttpWriter.StreamWriter.WriteHeaders | aiohttp/http_writer.py:223-232 | nothing is sent yet; the block is pending exactly if every line is safe, and otherwise nothing changes |
| HttpWriter.StreamWriter.SendHeaders | aiohttp/http_writer.py:234-247 | a pending block is sent once |
| HttpWriter.StreamWriter.Write | aiohttp/http_writer.py:168-221 | the message grows by the piece, cut to the declared length, as a chunk when chunked; an empty piece adds nothing; a pending block goes out first, whether merged or not |
| HttpWriter.StreamWriter.SendHeadersWithPayload | aiohttp/http_writer.py:132-166 | every merged form is the block, the piece and, at the end, the terminator |
| HttpWriter.StreamWriter.SetEof | aiohttp/http_writer.py:249-274 | pending headers go out with exactly one terminator when chunked |
| HttpWriter.StreamWriter.WriteEof | aiohttp/http_writer.py:276-352 | the last piece and exactly one terminator follow, once, compressed or not, whichever path runs |
| HttpWriter.CutIsPrefix | aiohttp/http_writer.py:195-204 | the pieces cut to a declared length are together the first so many bytes of all of them |
| HttpWriter.BodyIs | aiohttp/http_writer.py:195-205 | the body is what was written, cut to the declared length, and then the last piece of `write_eof` |
| HttpWriter.RenderBody | aiohttp/http_writer.py:125-130 | the plain body is the chunk encoding of the nonempty pieces, or their concatenation |
| HttpWriter.SendMessage | aiohttp/http_writer.py:132-352 | coalescing refines plain output: for any writes and either ending the transport receives one header block, the plain body and, when chunked, exactly one terminator; a block with forbidden characters sends nothing |
| HttpMachine.RunHttpAppend | aiohttp/http_parser.py:329-576 | reading a connection in two pieces is reading it in one |
| HttpMachine.RunHeadLine | aiohttp/http_parser.py:362-394 | a head line in progress is completed by its first CRLF |
| HttpMachine.RunInBody | aiohttp/http_parser.py:543-576 | inside a body the connection follows the body, and goes on with its leftover |
| HttpMachine.RunHttpMessages | aiohttp/http_parser.py:348-576 | messages are only ever added |
| HttpParser.HttpRequestParser.PauseReading | aiohttp/http_parser.py:303-305 | a pause changes nothing of what the parser stands for |
| HttpParser.HttpRequestParser.MessageConsumed | aiohttp/http_parser.py:307-310 | one slot is freed, never below none |
| HttpParser.HttpRequestParser.EmitMessage | aiohttp/http_parser.py:390-531 | a complete head becomes one message and the body that its framing calls for, or the error of parsing it |
| HttpParser.HttpRequestParser.HeadTurn | aiohttp/http_parser.py:357-541 | one head line, with one limit for all head lines: the parser moves along the reference, or stores a partial line, or raises where the reference breaks, the line is too long or a message of the same call closes the connection |
| HttpParser.HttpRequestParser.BodyTurn | aiohttp/http_parser.py:543-576 | one turn in a body: it follows the reference, goes on behind the body, raises the two errors that are passed on, and closes the body on any other, with which the rest of the input is lost |
| HttpParser.HttpRequestParser.FeedData | aiohttp/http_parser.py:329-576 | one call on any input: the parser stays on the reference run of all it was fed, through pauses and a full queue, except that a swallowed body error takes the rest of the call with it; it raises only where the reference breaks, a partial head line is too long or more of a head follows a closing message of the same call, and then does so unless input is held back; otherwise every message is out; messages are counted and never exceed the queue limit; behind a switch of protocols the rest of the input is returned, all of it; a call that only holds input back uses up a pause or a body |
| HttpParser.EmittedIsPrefix | aiohttp/http_parser.py:352-361 | what was emitted is always an initial part of what an unlimited, unpaused parser emits on the same bytes |
| HttpParser.ParseFragments | aiohttp/http_parser.py:329-576 | over any sequence of fragments with messages consumed in between, as long as no body error is swallowed, the parser is on the reference run of all of them, or has raised for one of these reasons |
| HttpParser.Drain | aiohttp/http_parser.py:307-310 | from any state behind accepted input, finitely many calls with no input bring out all that is held back, if the queue is emptied meanwhile |
| CutSensitivity.ClosingInOneCall | aiohttp/http_parser.py:348-370 | a request that closes the connection and another one in the same call: an error |
| CutSensitivity.ClosingInTwoCalls | aiohttp/http_parser.py:348-370 | the same bytes in two calls: two messages |
| CutSensitivity.CutLineIsOverlongIff | aiohttp/http_parser.py:533-535 | a cut inside a permitted head line makes it overlong if and only if the line is exactly as long as permitted and the cut is between its CR and its LF |
| CutSensitivity.ExactLineInOneCall | aiohttp/http_parser.py:390-531 | a request line of exactly the permitted length is a message when it comes in one call |
| CutSensitivity.ExactLineCutInItsEnd | aiohttp/http_parser.py:533-535 | the same line up to its CR is an error |
| CutSensitivity.SwallowedErrorTakesTheCall | aiohttp/http_parser.py:543-576 | what follows a swallowed body error is lost in the same call and read as a message in the next |
| WireRoundTrip.ChunksRoundTrip | aiohttp/http_writer.py:125-166 | on the reference, a printed chunked request is exactly one message with its headers and its pieces as body, and reading goes on right after it |
| WireRoundTrip.BadSizeLine | aiohttp/http_parser.py:988-998 | a size line that announces nothing breaks the connection, or is swallowed with what follows if it is too long |
| WireRoundTrip.MissingCrlf | aiohttp/http_parser.py:1034-1046 | chunk data without its CRLF breaks the connection, the data being delivered |
| WireRoundTrip.BadTrailer | aiohttp/http_parser.py:1048-1082 | a trailer line that is no field line breaks the connection, one that is too long is swallowed |
| WireRoundTrip.FailedBody | aiohttp/http_parser.py:543-561 | of the errors of a body two break the connection, the others are swallowed with what follows |
| SizedRoundTrip.PrintedLength | aiohttp/http_parser.py:396-408 | a printed `Content-Length` declares the number that was printed |
| SizedRoundTrip.BodyRoundTrip | aiohttp/http_parser.py:421-455 | on the reference, a printed request with as many bytes as it declares is exactly one message with its headers and those bytes as body, or none, and reading goes on right after it |
| SizedRoundTrip.FittingExample | aiohttp/http_parser.py:421-455 | there is such a request |
| Pipelines.PipelineRoundTrip | aiohttp/http_parser.py:350-576 | pipelined messages, chunked or of declared length, none but the last closing the connection or handing it over, are read one after the other, each as it was printed |
| Pipelines.CutIsQuiet | aiohttp/http_parser.py:956-967 | no cut of such messages falls where the outcome depends on it |
| Pipelines.FragmentsAreRegular | aiohttp/http_parser.py:329-576 | so every fragmentation of them is regular input |
| Pipelines.SendAndReceive | aiohttp/http_parser.py:329-576 | end to end: what StreamWriter sends for a request, in chunks or with a declared length, in any fragments, with any queue limit, any pauses and any schedule of consumption, is read as exactly one message with the same header pairs, whose body is the concatenated pieces, with nothing left over and nothing held back |
| Pipelines.SendAndReceiveAll | aiohttp/http_parser.py:329-576 | end to end for several pipelined messages, a writer each, in chunks or with a declared length: in any fragments, with any queue limit and any pauses, and with any numbers of messages consumed between the fragments, all of them come out in order with all their bodies |
| Pipelines.ReceiveAll | aiohttp/http_parser.py:329-576 | the reading half: whatever the cuts and whatever is consumed in between, after the queue has been emptied and pauses are over, exactly the printed messages have been read |
| WireRoundTrip.AcceptableExample | aiohttp/http_parser.py:648-729 | there is a request that these results speak about |
| ChunkDelivery.Tell | aiohttp/streams.py:285-347 | the body that the parser delivers, told to a reader in any blocks, leaves it with the concatenated pieces and their ends |
| ChunkDelivery.ReadPieces | aiohttp/streams.py:468-506 | from there `readchunk` returns the pieces one by one, each flagged as the end of a chunk |
| ChunkDelivery.SendAndReadChunks | aiohttp/streams.py:468-506 | so from writer to reader the nonempty pieces of a chunked request are what `readchunk` returns, whatever the fragments, the pauses and the blocks |
| Streams.StreamReader.FeedData | aiohttp/streams.py:285-303 | bytes are appended to the queue; size, cursor and total keep agreeing |
| Streams.StreamReader.BeginHttpChunkReceiving | aiohttp/streams.py:305-311 | chunk ends are recorded from now on, unless data came first, which raises |
| Streams.StreamReader.EndHttpChunkReceiving | aiohttp/streams.py:313-347 | the end is recorded at the current total unless it is already the last one; recorded ends stay strictly increasing |
| Streams.StreamReader.ResumeReading | aiohttp/streams.py:567-572 | whatever the connection feeds at this point, the queue only grows at its end |
| Streams.StreamReader.UnreadData | aiohttp/streams.py:266-283 | the bytes are back in front of the queue, and the cursor is behind them |
| Streams.StreamReader.ReadNowaitChunk | aiohttp/streams.py:544-573 | at most one block, off the front of the queue, although the connection may refill it before the call returns |
| Streams.StreamReader.ReadNowaitAll | aiohttp/streams.py:575-585 | exactly what was buffered at the call |
| Streams.StreamReader.ReadNowait | aiohttp/streams.py:587-595 | the first bytes of the queue, as many as asked unless it runs empty |
| Streams.StreamReader.ReadAny | aiohttp/streams.py:453-466 | all that is buffered, if anything is; none only at the end of file, with nothing left |
| Streams.StreamReader.Read | aiohttp/streams.py:422-451 | at most the bytes asked for, all of them if so many were buffered; none only at the end of file |
| Streams.StreamReader.ReadExactly | aiohttp/streams.py:508-521 | all the bytes asked for, unless the end of file comes first |
| Streams.StreamReader.ReadToEnd | aiohttp/streams.py:422-451 | everything up to the end of file, with nothing left |
| Streams.StreamReader.ReadUntil | aiohttp/streams.py:381-420 | for one separator byte, the shortest prefix of the queue that ends in it, whatever the blocks; without one, everything up to the end of file; over the limit it raises |
| Streams.StreamReader.NextChunkEnd | aiohttp/streams.py:480-492 | the first recorded chunk end is never behind the cursor, so it is never skipped and the result ends exactly there |
| Streams.StreamReader.ReadChunk | aiohttp/streams.py:468-506 | a flagged result ends exactly at a recorded chunk end; an unflagged empty one only comes at the end of file |
| Streams.ReplayConserves | aiohttp/streams.py:544-595 | a byte queue into which nothing is put back hands out what was in it and what arrived, in order and completely |
| Streams.Session | aiohttp/streams.py:266-595 | over any sequence of reads and unreads, fed in between and in the middle of them, the reader has exactly the effects of a plain byte queue |
| BodyParts.FindInPrefix | aiohttp/multipart.py:422-428 | searching a window that covers the first occurrence, from any start not behind it, finds it, and a window that does not cover it finds nothing |
| BodyParts.WindowSettles | aiohttp/multipart.py:422-440 | one step of the search either returns exactly the bytes before the delimiter and leaves the stream at it, or loses nothing and leaves the delimiter ahead |
| BodyParts.BodyPartReader.FillChunk | aiohttp/multipart.py:408-417 | a delimiter's length of bytes, or all that is left; it raises at the third report of the end |
| BodyParts.BodyPartReader.ReadChunkFromStream | aiohttp/multipart.py:397-440 | it raises only if no delimiter is ahead; at the end exactly the bytes before the first delimiter have been returned and the stream is at it |
| BodyParts.BodyPartReader.ReadChunkFromLength | aiohttp/multipart.py:387-395 | at most the bytes the declared length still allows |
| BodyParts.BodyPartReader.ReadChunk | aiohttp/multipart.py:343-385 | on a well-formed part it never fails, every call for at least one byte makes progress, and once it reports the end everything before the delimiter, or the declared length, has been returned; only without a declared length must the size be a delimiter's |
| BodyParts.BodyPartReader.Read | aiohttp/multipart.py:319-341 | exactly what is left of the part that the stream holds, however much of it was read before, for every pattern of short reads; it fails if and only if there is none or what is left is over the size limit |
| BodyParts.BodyPartReader.Release | aiohttp/multipart.py:471-476 | the rest of a part is skipped, however much was read before; it fails if and only if the part is malformed |
| MultipartWriters.PrintHeaders | aiohttp/payload.py:198-206 | the header block of a part, refused if and only if a header has a forbidden character |
| MultipartWriters.SizeOf | aiohttp/multipart.py:1067-1086 | a size is the number of bytes of the message and of those sent, nested writers included; there is one exactly if every part is unencoded and of known size |
| MultipartWriters.AsBytes | aiohttp/multipart.py:1103-1128 | all parts as they are, framed, and the closing boundary |
| MultipartWriters.Write | aiohttp/multipart.py:1130-1157 | what is sent is every part framed, encoded ones as the encoding writer puts them out, and the closing boundary; it stops exactly if form data lacks a name or a header cannot be printed |
| MultipartWriters.Encode | aiohttp/multipart.py:1144-1152 | the encoding writer on the writes of a part: for base64 the code of all that was written, or of what a compressor made of it |
| MultipartWriters.PlainIsSent | aiohttp/multipart.py:1103-1157 | with no encoded part at any depth, the bytes sent are the bytes of the message |
| MultipartWriters.EncodedPartsDiffer | aiohttp/multipart.py:1103-1157 | for messages encoded with base64 only, nested ones included, the bytes sent are the bytes of the message if and only if every encoded part is empty |
| MultipartWriters.EncodedPart | aiohttp/multipart.py:1010-1035 | a part on which they differ: appended with Content-Transfer-Encoding base64 and the body `a`, it is sent as `YQ==` |
| MultipartWriters.SetHeaderSets | aiohttp/multipart.py:1032 | setting a header sets it and no other |
| MultipartWriters.MultipartWriter.AppendPayload | aiohttp/multipart.py:999-1035 | form data refuses exactly the framing headers and gets a name; otherwise unknown encodings are refused, the headers decide how the part is encoded, and an unencoded part of known size declares it |
| MultipartReaders.MultipartReader.ReadUntilFirstBoundary | aiohttp/multipart.py:835-845 | the first boundary line after any preamble, or none |
| MultipartReaders.MultipartReader.ReadBoundary | aiohttp/multipart.py:847-868 | the next line is a boundary line; after the last one the epilogue lines are kept as a parent expects them |
| MultipartReaders.MultipartReader.ReadHeaders | aiohttp/multipart.py:870-882 | the header block up to the empty line, within the limits on lines and their number |
| MultipartReaders.MultipartReader.MaybeReleaseLastPart | aiohttp/multipart.py:884-890 | the stream is right after the last part, whatever had been read of it |
| MultipartReaders.MultipartReader.Next | aiohttp/multipart.py:730-764 | the next part of the message, or its end, whatever was read of the part before; it fails exactly if the message is broken there |
| MultipartReaders.ReadAll | aiohttp/multipart.py:701-764 | reading all parts from any short reads gives what reading the whole message at once gives |
| MultipartReaders.OpenReader | aiohttp/multipart.py:671-689 | a reader goes by what the content type says, and refuses it if it is not multipart or has no boundary of at most 70 characters |
| MultipartReaders.Receive | aiohttp/multipart.py:671-764 | from the content type and any short reads of the bytes comes what reading the whole message at once gives |
| MultipartBoundaries.ParameterBack | aiohttp/helpers.py:332-338 | of `boundary=value` a reader takes the value up to a semicolon, without blanks and quotes at its ends |
| MultipartBoundaries.BoundaryBack | aiohttp/multipart.py:949-978 | the boundary that the writer puts in the content type is the one the reader gets if and only if it holds no semicolon, quote or backslash and has no blank at either end |
| MultipartBoundaries.TypeBack | aiohttp/multipart.py:918 | the content type of a writer is one of multipart, and the subtype is read back |
| MultipartBoundaries.SemicolonCuts | aiohttp/helpers.py:332 | a boundary is cut at its first semicolon |
| MultipartBoundaries.EscapesStay | aiohttp/multipart.py:974-978 | what was escaped stays so |
| MultipartBoundaries.OuterBlanksGo | aiohttp/helpers.py:338 | blanks at the ends are stripped off |
| MultipartBoundaries.RefusedIff | aiohttp/multipart.py:910-978 | a boundary is refused if and only if it is too long or has a byte that is neither a tab nor printable ASCII |
| MultipartRoundTrips.SentIsText | aiohttp/multipart.py:1130-1157 | the bytes sent are the parts in order, each framed, and the closing boundary |
| MultipartRoundTrips.DelimiterAfter | aiohttp/multipart.py:422-428 | the delimiter after a body is the first one unless one lies inside CRLF + body: it cannot overlap itself |
| MultipartRoundTrips.PartBack | aiohttp/multipart.py:343-440 | a part is read back exactly if its declared length is right or, without one, the delimiter does not occur in CRLF + body |
| MultipartRoundTrips.HeadersBack | aiohttp/multipart.py:870-882 | the header block of a part is read back exactly if its headers can be |
| MultipartRoundTrips.RoundTrip | aiohttp/multipart.py:730-764 | a message is read back as its parts, in order, whatever follows it, if and only if the headers of each can be and its body is unmistakable and not too big |
| MultipartRoundTrips.SurroundedRoundTrip | aiohttp/multipart.py:816-868 | so it is with any lines before it and after it that are no boundary lines and fit |
| MultipartRoundTrips.BlockLimits | aiohttp/multipart.py:870-882 | a header line over the limit, or one too many, and there is no part |
| MultipartRoundTrips.FinalTabIsNeverFound | aiohttp/multipart.py:835-868 | a boundary that ends in a tab never opens a part |
| MultipartRoundTrips.MessageRoundTrip | aiohttp/multipart.py:730-764 | with the boundary that the content type carries, a message comes back if and only if its parts are faithful and, should there be any, the boundary does not end in a tab |
| MultipartRoundTrips.LostBoundaryLosesTheEmptyMessage | aiohttp/multipart.py:681-689 | when the reader gets another boundary, not even the empty message comes back |
| MultipartRoundTrips.BoundaryCarriesMessagesIff | aiohttp/multipart.py:949-978 | all messages whose parts can come back do so if and only if the boundary holds no semicolon, quote or backslash, has no blank at either end and does not end in a tab |
| MultipartRoundTrips.FinalBlankLosesAll | aiohttp/multipart.py:835-868 | with blanks after the boundary its lines still open the parts, but every message is lost at its last line |
| MultipartRoundTrips.SendAndReceive | aiohttp/multipart.py:1130-1157 | end to end, the boundary taken from the content type: what a writer sends, cut into any reads, comes back as its parts if and only if they are faithful, when the reader gets the boundary and that does not end in a tab; when it gets another one, even the empty message is lost |
| MultipartRoundTrips.DeclaredLengthBack | aiohttp/multipart.py:1029-1032 | the length a mixed writer declares is the one its reader goes by |
| MultipartRoundTrips.SizedPartsAreFaithful | aiohttp/multipart.py:350-351 | so a sized nonempty part of a mixed message that is not too big may hold anything, the delimiter included |
| MultipartRoundTrips.FormDataIsMistakable | aiohttp/multipart.py:286-288 | in form data, which has no declared lengths, it may not |
| Base64.RoundTrip | aiohttp/multipart.py:1214-1217 | decoding the one-shot encoding gives the octets back (section 4 of RFC 4648) |
| Base64.Alphabet | aiohttp/multipart.py:1214-1217 | the digits are those of table 1 of RFC 4648 |
| Base64.DigitsAreBits | aiohttp/multipart.py:1231-1236 | four digits are the 24 bits of three octets, the first the most significant |
| Base64.EncodeIsLonger | aiohttp/multipart.py:1231-1236 | only nothing is encoded as itself; any other code is longer |
| Base64.EncodeAppend | aiohttp/multipart.py:1231-1236 | a cut between groups of three does not show in the code |
| Base64.MultipartPayloadWriter.Write | aiohttp/multipart.py:1219-1240 | all whole groups of what was handed over are on the wire and at most two bytes are held back |
| Base64.MultipartPayloadWriter.WriteEof | aiohttp/multipart.py:1208-1217 | the wire holds the encoding of everything handed over |
| Base64.SendAll | aiohttp/multipart.py:1208-1240 | for any split into writes, the bytes emitted are the one-shot encoding of the whole, or of all that a compressor produced |
| ConnectionPool.ReuseKeeps | aiohttp/connector.py:686-701 | a reused connection had no holder before, and moves from the idle ones of its host to the acquired ones |
| ConnectionPool.BeginKeeps | aiohttp/connector.py:593-600 | a connection is made only for a host with a free slot and nothing idle, which keeps the per-host bound and the total limit |
| ConnectionPool.UnbookKeeps | aiohttp/connector.py:742-752 | giving a connection back leaves its host a slot free |
| ConnectionPool.PooledKeeps | aiohttp/connector.py:773 | pooling it fills that slot at most, and nothing is pooled twice |
| ConnectionPool.EnqueueKeeps | aiohttp/connector.py:643-651 | a first-time waiter goes behind all others, a retry in front of them |
| ConnectionPool.DequeueKeeps | aiohttp/connector.py:663-668 | leaving a queue keeps the order of the rest |
| ConnectionPool.WakesExactlyOne | aiohttp/connector.py:716-740 | whatever the shuffle, exactly one unfinished waiter of a key with a free slot is completed, the first of its queue, if there is one, and none otherwise; nothing but finished waiters leaves a queue |
| ConnectionPool.GiveBackWakesOne | aiohttp/connector.py:742-753 | so a release, or a creation that fails, wakes exactly one waiter that can go on, if there is one |
| ConnectionPool.StepKeeps | aiohttp/connector.py:573-784 | every step of every actor keeps the bound, the books, exclusive ownership and the order of the queues |
| ConnectionPool.ReachableBound | aiohttp/connector.py:524-547 | in every reachable state of every interleaving, what a host has acquired and what is idle for it is within the per-host limit |
| ConnectionPool.ReachableExclusive | aiohttp/connector.py:674-701 | in every reachable state, a connection about to be reused has no holder |
| ConnectionPool.ReachableQueues | aiohttp/connector.py:632-672 | in every reachable state each queue holds retries and then first-time waiters in the order of arrival, and every call with an unfinished future is in the queue of its key |
| ConnectionPool.CreationWithinLimit | aiohttp/connector.py:585-600 | a call that makes a connection leaves no more acquired than the total limit |
| ConnectionPool.ExceedsIffOvertakes | aiohttp/connector.py:578-583 | a step exceeds the total limit if and only if it reuses an idle connection at the limit |
| ConnectionPool.TotalLimitOfRuns | aiohttp/connector.py:573-630 | a run stays within the total limit if and only if it contains no such step |
| ConnectionPool.TotalLimitCanBeExceeded | aiohttp/connector.py:578-583 | there is such a run |
| ConnectionReuse.GivenBack | aiohttp/connector.py:755-784 | a connection given back to be kept is the last idle one of its key, as of now; one that is to be closed is idle for no key |
| ConnectionReuse.ClosedStaysGone | aiohttp/connector.py:766-771 | and is never idle or held again in any later state of any run |
| ConnectionReuse.OnlyReleaseAddsIdle | aiohttp/connector.py:773 | no other step makes a connection idle |
| ConnectionReuse.OnlyAliveAreReused | aiohttp/connector.py:674-701 | whoever holds a connection after a step held it before, or it is new, or it was idle for the key, still connected and not for too long |
| ConnectionReuse.FirstAliveIsReused | aiohttp/connector.py:674-701 | of these a call takes the first, and the ones before it are dropped |
| ConnectionReuse.WaitsIffFull | aiohttp/connector.py:573-600 | a call waits if and only if nothing alive is idle for its key and a limit that is set is reached |
| ConnectionReuse.CleanupDropsTheDead | aiohttp/connector.py:376-413 | a clean-up drops exactly what is no longer alive and keeps the order of the rest |
| ConnectionReuse.CloseLeavesNothing | aiohttp/connector.py:453-515 | closing leaves nothing idle or acquired, and no call waiting for a future that nobody finishes |
| Connector.BaseConnector.AvailableConnections | aiohttp/connector.py:524-547 | at least 1 exactly if one more connection keeps every limit that is set; with a total limit, exactly as many more as it says would |
| Connector.BaseConnector.Get | aiohttp/connector.py:674-714 | the first usable idle connection of the key, those before it dropped |
| Connector.BaseConnector.Connect | aiohttp/connector.py:573-600 | the run up to the first suspension is the step of the state machine; it reuses exactly if something is usable, and what it hands out had no holder |
| Connector.BaseConnector.Resume | aiohttp/connector.py:653-672 | the run after a wait is the step; a call that waits again is first in its queue |
| Connector.BaseConnector.Created | aiohttp/connector.py:617-630 | the placeholder gives way to the connection, unless the connector was closed |
| Connector.BaseConnector.ReleaseWaiter | aiohttp/connector.py:716-740 | the loops over the shuffled queues are the step |
| Connector.BaseConnector.ReleaseAcquired | aiohttp/connector.py:742-753 | the connection leaves both sets and the next waiter is looked for |
| Connector.BaseConnector.Abandon | aiohttp/connector.py:611-613 | a failed creation gives its slot back |
| Connector.BaseConnector.Release | aiohttp/connector.py:755-784 | the connection goes back to the pool, or is closed |
| Connector.BaseConnector.Cleanup | aiohttp/connector.py:376-413 | exactly the usable idle connections are kept, in order |
| Connector.BaseConnector.CloseImmediately | aiohttp/connector.py:453-515 | the pool is emptied and every unfinished waiter is cancelled; the per-host sets stay |
| FlowControl.RequestHandler.PauseReading | aiohttp/base_protocol.py:66-78 | the transport is paused, for a body |
| FlowControl.RequestHandler.ResumeReading | aiohttp/base_protocol.py:84-104 | whatever the reparse calls back, at any depth, in the end the transport is paused exactly if a body or the queue holds it |
| FlowControl.RequestHandler.EndOfBody | aiohttp/streams.py:230-231 | so too when the end of a body resumes reading without a reparse |
| FlowControl.RequestHandler.DataReceived | aiohttp/web_protocol.py:460-500 | messages are queued in order, an error of the parser as exactly one more behind what the callbacks queued, and the handler is not upgraded then; a full queue pauses the transport; the parser's count is the length of the queue; what is behind a switch of protocols is kept |
| FlowControl.RequestHandler.ResumeMsgQueueReading | aiohttp/web_protocol.py:522-537 | what was held back is read first; the queue stays paused only if that filled it again |
| FlowControl.RequestHandler.NextMessage | aiohttp/web_protocol.py:673-685 | the first message is taken, a slot is freed, and a paused queue that runs low is resumed |
| FlowControl.LimitOnlyDelays | aiohttp/http_parser.py:352-361 | without errors, what was taken off the queue and what is in it are an initial part of what an unlimited parser emits on the same bytes; the parser's count is exact and at most 32 |
| FlowControl.EverythingIsOut | aiohttp/web_protocol.py:485-491 | unless the parser stopped at a full queue or a body waits for its reader, nothing is delayed at all |
| FlowControl.BehindTheSwitch | aiohttp/web_protocol.py:496-500 | what is kept behind a switch of protocols is all that the reference has there |
| FlowControl.Serve | aiohttp/web_protocol.py:460-537 | over whole connections, in any order of events: transport and reasons agree, a paused queue is more than half full, so an empty one is never stalled, and with an empty queue and no body waiting every message was handed out; after an error, the messages up to it are those of the reference, and it is one that the reference raises |
| CookieMatching.DomainsAreDotSuffixes | aiohttp/cookiejar.py:443-446 | the domains looked up are exactly the suffixes of the host at its dots, the shortest first |
| CookieMatching.ProbedDomainsAreAccepted | aiohttp/cookiejar.py:498-512 | for a host that is no IP address, the nonempty domains looked up are exactly those that domain-match (section 5.1.3 of RFC 6265) |
| CookieMatching.EmptyDomainIsProbed | aiohttp/cookiejar.py:443-446 | the empty domain is looked up exactly for a host that ends in a dot, though it never matches |
| CookieMatching.PathsAreSlashPrefixes | aiohttp/cookiejar.py:448-449 | the paths looked up are exactly the prefixes of the request path at its slashes, the shortest first |
| CookieMatching.JarAcceptsWhatRfcAccepts | aiohttp/cookiejar.py:464-466 | every path that section 5.1.4 of RFC 6265 accepts is accepted |
| CookieMatching.PathRuleIsRfcIff | aiohttp/cookiejar.py:464-466 | the two rules agree on all requests if and only if the cookie path does not end in two slashes |
| CookieMatching.IpAddressIff | aiohttp/helpers.py:482-492 | a host counts as an IP address exactly if it holds a colon, or digits and dots only and a digit |
| CookieJars.StoredIsAllowed | aiohttp/cookiejar.py:340-371 | what is stored has an absolute path and a domain that the host may set (section 5.3 of RFC 6265) |
| CookieJars.DeadlineIsLatestIff | aiohttp/cookiejar.py:374-386 | of all the cookies set for one domain, path and name, the deadline recorded is the one the latest came with if and only if it came with one or there was none before |
| CookieJars.LatestIsLast | aiohttp/cookiejar.py:388-393 | of several cookies for one domain, path and name the last one is kept |
| CookieJars.UpdateAndCheck | aiohttp/cookiejar.py:323-395 | so after update_cookies the latest cookie lives by the deadline it came with if and only if it came with one or there was none before |
| CookieJars.SessionCookieExpires | aiohttp/cookiejar.py:374-395 | a session cookie that replaces one with max-age keeps the old deadline and is not sent once that has passed |
| CookieRules.SetAndAsk | aiohttp/cookiejar.py:374-386 | from update_cookies to filter_cookies: a cookie with no earlier deadline is there when asked for if and only if its lifetime is not over, by max-age counted from when it was set and capped, by expires only without one, and for good without either |
| CookieRules.WhatIsStored | aiohttp/cookiejar.py:340-393 | everything a cookie says is stored, but for a lifetime that cannot be read and a path that is not absolute |
| CookieRules.WhichDomain | aiohttp/cookiejar.py:340-356 | under the domain it gives, without a dot in front, or else the host |
| CookieRules.AcceptedIff | aiohttp/cookiejar.py:357-360 | it is accepted if and only if the domain is the host or, unless that is an IP address, one that it is below |
| CookieRules.DefaultPathIsRfc | aiohttp/cookiejar.py:361-371 | the default path is that of section 5.1.4 of RFC 6265 |
| CookieRules.HostOnlyIff | aiohttp/cookiejar.py:455-457 | a stored cookie is sent to its own host only if and only if it carries the mark or the host is an IPv6 address |
| CookieRules.SetAndSee | aiohttp/cookiejar.py:308-313 | a cookie without a domain is for its host only if and only if no cookie of that host and name expires in the call, whatever its path |
| CookieRules.MarkIsLost | aiohttp/cookiejar.py:308-313 | there is a run in which it is sent to another host for that reason |
| CookieJars.IndexIsScan | aiohttp/cookiejar.py:448-479 | per name the lookups yield the cookie that a scan over all stored ones would choose: the longest domain, then the longest path; there always is one if any would be sent |
| CookieJars.SendsByTheRfc | aiohttp/cookiejar.py:455-469 | for a cookie with a domain and an ordinary path, that scan sends it exactly by the rules of section 5.4 of RFC 6265 |
| CookieJars.Heapify | aiohttp/cookiejar.py:283-288 | the same entries, the earliest first |
| CookieJars.CookieJar.DeleteCookies | aiohttp/cookiejar.py:308-313 | exactly the named cookies, their morsels, marks and deadlines are gone |
| CookieJars.CookieJar.ExpireCookie | aiohttp/cookiejar.py:315-321 | the deadline is recorded and has its entry in the heap |
| CookieJars.CookieJar.Compact | aiohttp/cookiejar.py:275-288 | every recorded deadline keeps its entry |
| CookieJars.CookieJar.PopDue | aiohttp/cookiejar.py:290-303 | exactly the cookies whose recorded deadline has passed are found, despite stale and duplicate entries |
| CookieJars.CookieJar.DoExpiration | aiohttp/cookiejar.py:265-306 | exactly the cookies whose recorded deadline has passed are removed |
| CookieJars.CookieJar.UpdateCookies | aiohttp/cookiejar.py:323-395 | of the new cookies that are accepted the last for each key is stored, with the last deadline given; what is due is removed; all else is as before, and an IP address sets nothing; the cache stays coherent if morsels are set under their own keys |
| CookieJars.CookieJar.BuildOrCached | aiohttp/cookiejar.py:471-479 | cached or not, the morsel is the one built from the stored cookie |
| CookieJars.CookieJar.FilterCookies | aiohttp/cookiejar.py:397-481 | what is due is removed; then every name gets the scan's choice or else the shared cookie, and the cache stays coherent |
| CookieJars.CookieJar.ClearWhere | aiohttp/cookiejar.py:235-247 | exactly the cookies that are due or unwanted are removed |
| CookieJars.CookieJar.Clear | aiohttp/cookiejar.py:226-233 | everything is gone |

## Left out

Contracts weaker than the code, and why:

- HttpParser.HttpRequestParser.FeedData: the agreement with the reference assumes `max_line_size == max_field_size`, as by default; with two limits the code applies the first to the first line of every call.
- HttpParser.HttpRequestParser.HeadTurn: the same assumption.
- HttpParser.HttpRequestParser.BodyTurn: a payload that itself raises, as one that decompresses may (http_parser.py:1120-1189), is not modelled; its error would be swallowed with the rest of the call, as every error of a body is but the two that are passed on.
- HttpParser.ParseFragments: the same assumption, and no swallowed body error in any of the calls, whose outcomes `FeedData` states one by one.
- Pipelines.SendAndReceive: like the other results of `WireRoundTrip`, `SizedRoundTrip` and `ChunkDelivery` it needs at least one header and lines strictly below the limits, for the two reasons proved in `Headers.SerializedLines` and `PayloadRuns.ExactLimitLineIsCutSensitive`; it covers requests in chunks or with a declared length that the parser accepts, without compression.
- ChunkDelivery.SendAndReadChunks: reads after the body has been handed over; reading in between, where a block may come before its chunk ends, is covered by `Streams` for any order of events.
- Streams.StreamReader.ReadUntil: one-byte separators only; the code looks for a longer one in each block by itself.
- HttpWriter.StreamWriter.WriteEof: `drain` and the `buffer_size` and `output_size` counters are not stated; what a compressor returns is arbitrary, so the compressed body is stated in terms of it.
- FlowControl.LimitOnlyDelays: speaks of runs without parse errors and without swallowed body errors; `Serve` says what precedes an error, and after it the parser's messages are arbitrary.
- FlowControl.RequestHandler.DataReceived: callbacks made while input is parsed are run before the parser's own turn; that the input behind a switch is kept is stated for calls without callbacks.
- CookieJars.CookieJar.UpdateCookies: claims a coherent cache only for morsels that are set under their own keys. `max-age` and `expires` come as the numbers they are read as. That stored morsels are the caller's own objects is not captured.
- ConnectionPool.GiveBackWakesOne: a waiter that is cancelled after it was woken does not pass its wake-up on, so no claim is made that every waiter is eventually served.
- MultipartWriters.Write: what a compressor and the quoted-printable encoder put out comes with the part, their code being elsewhere.
- MultipartReaders.MultipartReader.Next: a part that is itself multipart, a base64 part and a form-data part that names the default charset count as broken.
- MultipartRoundTrips.RoundTrip: parts that are themselves multipart, base64 parts and form-data parts that name the default charset are excluded, and the reader's limits are kept.
- MultipartRoundTrips.SendAndReceive: for a boundary that the content type does not carry it says what is read, but for messages with parts only `MultipartRoundTrips.FinalBlankLosesAll` says that it is nothing: a body could hold lines with the boundary that the reader got. The subtype holds no semicolon.

Not modelled:

- Lax parsing, the response parser and debug switching, which depend on how the input is cut.
- `HttpParser.feed_eof`, when a `StreamReader` above its high-water mark pauses the connection, its exceptions, timers, end-of-file callbacks and the resuming of a paused chunked payload by the protocol.
- Hand-over of unread lines between nested multipart readers, the base64 realignment loop of `read_chunk`, `readline` of a part, charsets and content decoding; quoted-printable.
- WebSocket data and the protocol's close and keep-alive timers.
- Sockets, TLS, proxies, tracing callbacks other than as points where a call may fail, the list of transports kept for a double close.
- Cookie files, the parsing of cookie strings and dates, which scheme or origin counts as secure, and how a morsel is quoted: they are parameters or come as their results.
- Whether a request target has a scheme, and whether a content disposition names the default charset: parameters.

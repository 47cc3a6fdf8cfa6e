/** `HttpPayloadParser` (http_parser.py), strict mode: incremental framing by length, chunks or
    end of file, with partial lines kept in a tail, and with pauses and "more data available"
    answers from the payload at arbitrary moments. */
module PayloadParser {
  import opened ByteStrings
  import Hex
  import opened Headers
  import opened PayloadMachine

  /** One reaction of the payload object: it holds more decompressed data, it asks the
      protocol (and so this parser) to pause. */
  datatype Answer = Answer(more: bool, pause: bool)

  const QUIET := Answer(false, false)

  /** The payload object (`StreamReader` or `DeflateBuffer`) as seen by the parser: a log of
      what it is given, and a finite but otherwise arbitrary script of its reactions. */
  class Payload {
    var got: Delivery
    var answers: seq<Answer>

    constructor (answers: seq<Answer>)
      ensures got == NOTHING && this.answers == answers
    {
      got := NOTHING;
      this.answers := answers;
    }

    method Answered() returns (a: Answer)
      modifies this`answers
      ensures a.more || a.pause ==> |answers| < |old(answers)|
      ensures |answers| <= |old(answers)|
    {
      if answers == [] { return QUIET; }
      a := answers[0];
      answers := answers[1..];
    }

    method FeedData(data: Bytes) returns (a: Answer)
      requires !got.eof // "feed_data after feed_eof"
      modifies this
      ensures got == old(got).Add(data)
      ensures a.more || a.pause ==> |answers| < |old(answers)|
      ensures |answers| <= |old(answers)|
    {
      got := got.Add(data);
      a := Answered();
    }

    method BeginHttpChunkReceiving()
      modifies this`got
      ensures got == old(got).Begin()
    {
      got := got.Begin();
    }

    method EndHttpChunkReceiving() returns (pause: bool)
      modifies this
      ensures got == old(got).End()
      ensures pause ==> |answers| < |old(answers)|
      ensures |answers| <= |old(answers)|
    {
      got := got.End();
      var a := Answered();
      pause := a.pause;
    }

    method FeedEof()
      modifies this`got
      ensures got == old(got).Eof()
    {
      got := got.Eof();
    }
  }

  datatype PayloadState = PayloadComplete | PayloadNeedsInput | PayloadHasPendingInput

  datatype ParseState = ParseLength | ParseChunked | ParseUntilEof

  datatype ChunkState = ChunkedSize | ChunkedChunk | ChunkedChunkEof | Trailers

  datatype FeedResult = Fed(state: PayloadState, rest: Bytes) | Raised(error: HttpError)

  /** How one branch of the chunked loop ends: fall through to the next, start the loop again,
      return, or raise. */
  datatype Branch = Onward | Continue | Return(state: PayloadState) | Throw(error: HttpError)

  class HttpPayloadParser {
    const limits: Limits
    const kind: ParseState
    const payload: Payload
    const headersParser: HeadersParser
    var length: nat
    const lengthExpected: nat
    var paused: bool
    var chunk: ChunkState
    var chunkSize: nat
    var chunkTail: Bytes
    var moreDataAvailable: bool
    var trailerLines: seq<Bytes>
    var done: bool
    var eofPending: bool
    ghost var live: bool // neither complete nor failed

    /** The reference state of what has been processed so far, with nothing in the tail. */
    ghost function Core(): Body
      reads this, payload
    {
      match kind
      case ParseLength => if length > 0 then Length(payload.got, length) else Finished(payload.got.Eof(), "")
      case ParseUntilEof => UntilEof(payload.got)
      case ParseChunked =>
        match chunk
        case ChunkedSize => Line(payload.got, SizeLine, "")
        case ChunkedChunk => if chunkSize > 0 then Data(payload.got, chunkSize) else DataEnd(payload.got.End(), false)
        case ChunkedChunkEof => DataEnd(payload.got, false)
        case Trailers => Line(payload.got, TrailerLine(trailerLines), "")
    }

    ghost function At(input: Bytes): Body
      reads this, payload
    {
      Run(limits, Core(), input)
    }

    /** The reference state this parser stands for: what it would reach on the bytes it was
        fed if it were never paused. */
    ghost function Ref(): Body
      reads this, payload
    {
      At(chunkTail)
    }

    /** What holds between two branches of the chunked loop. */
    ghost predicate Between()
      reads this
    {
      && (moreDataAvailable ==> chunk == ChunkedChunk)
      && (chunk == ChunkedChunk && chunkSize == 0 ==> moreDataAvailable)
      && (chunk != Trailers ==> trailerLines == [])
    }

    ghost predicate Valid()
      reads this, payload
    {
      && live
      && !payload.got.eof
      && (kind.ParseLength? ==> (length == 0 ==> moreDataAvailable) && (length > 0 ==> chunkTail == ""))
      && (kind.ParseUntilEof? ==> chunkTail == "" && !done)
      && (kind.ParseChunked? ==>
          && Between()
          && (chunk == ChunkedSize || chunk == Trailers ==> Find(chunkTail, CRLF) == -1)
          && (chunk == ChunkedChunkEof ==> chunkTail == "" || chunkTail == "\r"))
    }

    /** The check made on re-entry (lines 958-967): the partial line kept in the tail is over
        the limit. */
    predicate TailTooLong()
      reads this
    {
      && kind.ParseChunked? && chunkTail != "" && chunk != ChunkedChunk
      && |chunkTail| > if chunk == Trailers then limits.maxFieldSize else limits.maxLineSize
    }

    /** For a message that has a body: `chunked`, a positive length, or neither. */
    constructor (payload: Payload, length: Option<nat>, chunked: bool, headersParser: HeadersParser, limits: Limits)
      requires payload.got == NOTHING
      requires !chunked && length.Some? ==> length.value > 0
      ensures Valid() && this.payload == payload && this.limits == limits
      ensures kind == if chunked then ParseChunked else if length.Some? then ParseLength else ParseUntilEof
      ensures !paused && !moreDataAvailable && !done && !eofPending && chunkTail == ""
      ensures Ref() ==
        if chunked then Line(NOTHING, SizeLine, "")
        else if length.Some? then Length(NOTHING, length.value)
        else UntilEof(NOTHING)
    {
      this.payload, this.headersParser, this.limits := payload, headersParser, limits;
      this.length := if !chunked && length.Some? then length.value else 0;
      this.lengthExpected := if !chunked && length.Some? then length.value else 0;
      kind := if chunked then ParseChunked else if length.Some? then ParseLength else ParseUntilEof;
      paused, chunk, chunkSize, chunkTail := false, ChunkedSize, 0, "";
      moreDataAvailable, trailerLines, done, eofPending, live := false, [], false, false, true;
      new;
      NoCrlf("");
    }

    method PauseReading()
      requires Valid()
      modifies this`paused
      ensures Valid() && Ref() == old(Ref()) && paused
    {
      paused := true;
    }

    /** A pause that was not there in a state with `n` answers left has used one up. */
    predicate PauseAccounted(wasPaused: bool, n: nat)
      reads this, payload
    {
      |payload.answers| <= n && (paused && !wasPaused ==> |payload.answers| < n)
    }

    /** A call that stops on a pause clears it, and that pause was there before the call or
        used up an answer: with finitely many answers, resuming stops only finitely often. */
    predicate PauseSpent(wasPaused: bool, n: nat)
      reads this, payload
    {
      && !paused && |payload.answers| <= n && (wasPaused || |payload.answers| < n)
      && (kind.ParseChunked? ==> chunk == ChunkedChunk)
    }

    /** Everything that has been accepted has also been handed over. */
    ghost predicate CaughtUp()
      reads this, payload
    {
      && Ref().out == payload.got && !moreDataAvailable
      && !Ref().Failed? && !Ref().Finished?
    }

    /** The loop shared by the length, until-EOF and end-of-file paths: ask the payload for more
        until it has none or a pause intervenes. */
    method Drain() returns (stopped: bool)
      requires !payload.got.eof
      modifies this`paused, this`moreDataAvailable, payload
      ensures payload.got == old(payload.got)
      ensures stopped == moreDataAvailable
      ensures PauseAccounted(old(paused), old(|payload.answers|))
      ensures stopped ==>
        !paused && (old(paused) || |payload.answers| < old(|payload.answers|)) &&
        |payload.answers| <= old(|payload.answers|)
    {
      while moreDataAvailable
        invariant payload.got == old(payload.got)
        invariant PauseAccounted(old(paused), old(|payload.answers|))
        decreases |payload.answers|, moreDataAvailable
      {
        if paused {
          paused := false;
          return true;
        }
        var a := payload.FeedData("");
        assert old(payload.got).data + "" == old(payload.got).data;
        moreDataAvailable := a.more;
        if a.pause { paused := true; }
      }
      return false;
    }

    method FeedPayload(data: Bytes)
      requires !payload.got.eof
      modifies this`paused, this`moreDataAvailable, payload
      ensures payload.got == old(payload.got).Add(data)
      ensures PauseAccounted(old(paused), old(|payload.answers|))
      ensures moreDataAvailable ==> |payload.answers| < old(|payload.answers|)
    {
      var a := payload.FeedData(data);
      moreDataAvailable := a.more;
      if a.pause { paused := true; }
    }

    /** Length framing (lines 935-951). */
    method FeedLength(data: Bytes) returns (r: FeedResult)
      requires Valid() && kind.ParseLength?
      modifies this, payload
      ensures r.Fed? && |r.rest| <= old(|chunkTail|) + |data| && eofPending == old(eofPending)
      ensures r.state != PayloadComplete ==> Valid() && r.rest == "" && Ref() == Run(limits, old(Ref()), data)
      ensures r.state == PayloadNeedsInput ==> CaughtUp() && PauseAccounted(old(paused), old(|payload.answers|))
      ensures r.state == PayloadHasPendingInput ==> PauseSpent(old(paused), old(|payload.answers|))
      ensures r.state == PayloadComplete ==> Run(limits, old(Ref()), data) == Finished(payload.got, r.rest)
    {
      hide Run;
      RunAppend(limits, Core(), chunkTail, data);
      var input := chunkTail + data;
      chunkTail := "";
      var required := length;
      LengthStep(payload.got, required, input);
      length := if |input| > required then 0 else required - |input|;
      FeedPayload(Take(input, required));
      var rest := Drop(input, required);
      var stopped := Drain();
      if stopped {
        chunkTail := rest;
        AtNothing();
        if length == 0 { RunAbsorbed(limits, Core(), rest); }
        return Fed(PayloadHasPendingInput, "");
      }
      if length == 0 {
        payload.FeedEof();
        live := false;
        return Fed(PayloadComplete, rest);
      }
      AtNothing();
      return Fed(PayloadNeedsInput, "");
    }

    lemma LengthStep(out: Delivery, required: nat, input: Bytes)
      ensures Run(limits, if required > 0 then Length(out, required) else Finished(out.Eof(), ""), input) ==
        if required > |input| then Length(out.Add(Take(input, required)), required - |input|)
        else Finished(out.Add(Take(input, required)).Eof(), Drop(input, required))
      ensures required > |input| ==> Drop(input, required) == ""
    {
      if required > 0 {
        RunLength(limits, out, required, input);
      } else {
        RunAbsorbed(limits, Finished(out.Eof(), ""), input);
        assert out.Add("") == out && input[..0] == "" && input[0..] == input;
      }
    }

    /** Until-EOF framing (lines 1085-1097). */
    method FeedUntilEof(data: Bytes) returns (r: FeedResult)
      requires Valid() && kind.ParseUntilEof?
      modifies this, payload
      ensures r.Fed? && r.rest == "" && (r.state != PayloadComplete ==> eofPending == old(eofPending))
      ensures r.state != PayloadComplete ==> Valid() && Ref() == Run(limits, old(Ref()), data) && done == old(done)
      ensures r.state == PayloadNeedsInput ==> CaughtUp() && PauseAccounted(old(paused), old(|payload.answers|))
      ensures r.state == PayloadHasPendingInput ==> PauseSpent(old(paused), old(|payload.answers|))
      ensures r.state == PayloadNeedsInput ==> !old(eofPending)
      ensures |payload.answers| <= old(|payload.answers|)
      ensures r.state == PayloadComplete ==>
        old(eofPending) && done && Run(limits, old(Ref()), data) == UntilEof(old(payload.got).Add(data)) &&
        payload.got == old(payload.got).Add(data).Eof()
    {
      hide Run;
      AtNothing();
      RunUntilEof(limits, payload.got, data);
      FeedPayload(data);
      var stopped := Drain();
      AtNothing();
      if stopped {
        return Fed(PayloadHasPendingInput, "");
      }
      if eofPending {
        payload.FeedEof();
        done, eofPending, live := true, false, false;
        return Fed(PayloadComplete, "");
      }
      return Fed(PayloadNeedsInput, "");
    }

    /** `feed_eof`: only an until-EOF body may end here, and it waits for a paused payload. */
    method FeedEof() returns (raised: Option<HttpError>)
      requires Valid()
      modifies this, payload
      ensures kind.ParseLength? <==> raised == Some(ContentLengthError)
      ensures kind.ParseChunked? <==> raised == Some(TransferEncodingError)
      ensures raised.None? <==> kind.ParseUntilEof?
      ensures raised.None? ==> payload.got == if done then old(payload.got).Eof() else old(payload.got)
      ensures raised.None? && !done ==> Valid() && eofPending && moreDataAvailable && !paused
    {
      match kind
      case ParseUntilEof =>
        eofPending := true;
        var stopped := Drain();
        if stopped { return None; }
        payload.FeedEof();
        done, eofPending, live := true, false, false;
        return None;
      case ParseLength => return Some(ContentLengthError);
      case ParseChunked => return Some(TransferEncodingError);
    }

    // ---- the chunked branches ----------------------------------------------------------------

    ghost predicate InLoop()
      reads this, payload
    {
      kind.ParseChunked? && live && !payload.got.eof && Between() && chunkTail == ""
    }

    /** A branch leaves the parser on course for `goal`, the reference outcome of all the input. */
    ghost predicate OnCourse(goal: Body, b: Branch, rest: Bytes)
      reads this, payload
    {
      match b
      case Onward => InLoop() && At(rest) == goal
      case Continue => InLoop() && At(rest) == goal
      case Return(PayloadNeedsInput) => Valid() && Ref() == goal && CaughtUp()
      case Return(PayloadHasPendingInput) => Valid() && Ref() == goal
      case Return(PayloadComplete) => goal == Finished(payload.got, rest)
      case Throw(e) => goal == Failed(payload.got, e)
    }

    /** The checks on a size line (lines 977-1001). */
    method ParseSizeLine(line: Bytes) returns (r: Result<nat, HttpError>)
      ensures r == ChunkSizeOf(limits, line)
    {
      if |line| > limits.maxLineSize { return Err(LineTooLong); }
      var i := IndexOf(line, ';');
      var sizeB := line;
      if i >= 0 {
        sizeB := line[..i];
        if '\n' in line[i..] { return Err(TransferEncodingError); }
      }
      if !Hex.IsHex(sizeB) { return Err(TransferEncodingError); }
      return Ok(Hex.FromHex(sizeB));
    }

    /** PARSE_CHUNKED_SIZE (lines 973-1011). */
    method ReadSize(input: Bytes) returns (b: Branch, rest: Bytes)
      requires InLoop() && chunk == ChunkedSize
      modifies this`chunk, this`chunkSize, this`chunkTail, payload`got
      ensures OnCourse(old(At(input)), b, rest)
      ensures |rest| <= |input|
      ensures b.Onward? ==> |rest| < |input| && (chunk == Trailers || chunk == ChunkedChunk)
      ensures !b.Continue? && (b.Return? ==> b.state == PayloadNeedsInput && rest == "")
    {
      hide Run, Find, ChunkSizeOf;
      assert "" + input == input;
      NoCrlf("");
      RunLine(limits, payload.got, SizeLine, "", input);
      var pos := Find(input, CRLF);
      if pos < 0 {
        chunkTail := input;
        return Return(PayloadNeedsInput), "";
      }
      FindInside(input, CRLF);
      rest := input[pos + 2..];
      var size := ParseSizeLine(input[..pos]);
      if size.Err? {
        RunFailed(payload.got, size.error, rest);
        return Throw(size.error), rest;
      }
      if size.value == 0 {
        chunk := Trailers;
      } else {
        chunk, chunkSize := ChunkedChunk, size.value;
        payload.BeginHttpChunkReceiving();
      }
      return Onward, rest;
    }

    /** PARSE_CHUNKED_CHUNK (lines 1014-1033). */
    method ReadChunk(input: Bytes) returns (b: Branch, rest: Bytes)
      requires InLoop() && chunk == ChunkedChunk
      modifies this, payload
      ensures OnCourse(old(At(input)), b, rest)
      ensures b.Onward? ==> |rest| <= |input| && chunk == ChunkedChunkEof
      ensures PauseAccounted(old(paused), old(|payload.answers|))
      ensures eofPending == old(eofPending) && |rest| <= |input|
      ensures b == Return(PayloadHasPendingInput) ==> old(paused) && !paused && chunk == ChunkedChunk
      ensures b.Continue? ==> |payload.answers| < old(|payload.answers|)
      ensures b.Return? ==> rest == "" && b.state != PayloadComplete
      ensures !b.Throw?
    {
      hide Run, Find;
      if paused {
        paused := false;
        chunkTail := input;
        return Return(PayloadHasPendingInput), "";
      }
      var required := chunkSize;
      ChunkStep(payload.got, required, input);
      chunkSize := if |input| > required then 0 else required - |input|;
      FeedPayload(Take(input, required));
      rest := Drop(input, required);
      if moreDataAvailable {
        AtNothing();
        return Continue, rest;
      }
      if chunkSize > 0 {
        paused := false;
        AtNothing();
        return Return(PayloadNeedsInput), "";
      }
      chunk := ChunkedChunkEof;
      var pause := payload.EndHttpChunkReceiving();
      if pause { paused := true; }
      return Onward, rest;
    }

    /** PARSE_CHUNKED_CHUNK_EOF (lines 1036-1051). */
    method ReadChunkEof(input: Bytes) returns (b: Branch, rest: Bytes)
      requires InLoop() && chunk == ChunkedChunkEof
      modifies this`chunk, this`chunkTail
      ensures OnCourse(old(At(input)), b, rest)
      ensures |rest| <= |input|
      ensures b.Onward? ==> |rest| < |input| && chunk == ChunkedSize
      ensures !b.Continue? && (b.Return? ==> b.state == PayloadNeedsInput && rest == "")
    {
      hide Run;
      RunDataEnd(limits, payload.got, input);
      if CRLF <= input {
        chunk := ChunkedSize;
        return Onward, input[2..];
      }
      if |input| >= 2 || input != CRLF[..|input|] {
        return Throw(TransferEncodingError), input;
      }
      assert input == "" || input == "\r";
      chunkTail := input;
      return Return(PayloadNeedsInput), "";
    }

    /** PARSE_TRAILERS (lines 1053-1082). */
    method ReadTrailer(input: Bytes) returns (b: Branch, rest: Bytes)
      requires InLoop() && chunk == Trailers
      modifies this`trailerLines, this`chunkTail, payload`got
      ensures OnCourse(old(At(input)), b, rest)
      ensures |rest| <= |input|
      ensures b.Onward? ==> |rest| < |input| && chunk == Trailers
      ensures !b.Continue? &&
        (b.Return? ==> b.state != PayloadHasPendingInput && (b.state == PayloadNeedsInput ==> rest == ""))
    {
      hide Run, Find, Parse;
      assert "" + input == input;
      NoCrlf("");
      RunLine(limits, payload.got, TrailerLine(trailerLines), "", input);
      var pos := Find(input, CRLF);
      if pos < 0 {
        chunkTail := input;
        return Return(PayloadNeedsInput), "";
      }
      FindInside(input, CRLF);
      var line := input[..pos];
      rest := input[pos + 2..];
      if |line| > limits.maxFieldSize {
        RunFailed(payload.got, LineTooLong, rest);
        return Throw(LineTooLong), rest;
      }
      trailerLines := trailerLines + [line];
      if |trailerLines| > limits.maxTrailers {
        RunFailed(payload.got, BadHttpMessage, rest);
        return Throw(BadHttpMessage), rest;
      }
      if trailerLines[|trailerLines| - 1] == "" {
        var trailers := headersParser.ParseHeaders(trailerLines);
        trailerLines := [];
        if trailers.Err? {
          RunFailed(payload.got, trailers.error, rest);
          return Throw(trailers.error), rest;
        }
        RunAbsorbed(limits, Finished(payload.got.Eof(), ""), rest);
        assert "" + rest == rest;
        payload.FeedEof();
        return Return(PayloadComplete), rest;
      }
      return Onward, rest;
    }

    /** One turn of the chunked loop: each branch falls through to the next. */
    method ChunkedTurn(input: Bytes) returns (b: Branch, rest: Bytes)
      requires InLoop()
      modifies this, payload
      ensures OnCourse(old(At(input)), b, rest)
      ensures PauseAccounted(old(paused), old(|payload.answers|))
      ensures b.Onward? || b.Continue? ==> |payload.answers| < old(|payload.answers|) || |rest| < |input|
      ensures b == Return(PayloadHasPendingInput) ==> PauseSpent(old(paused), old(|payload.answers|))
      ensures b.Return? && b.state != PayloadComplete ==> rest == ""
      ensures eofPending == old(eofPending) && |rest| <= |input|
    {
      hide Run, Find;
      b, rest := Onward, input;
      if chunk == ChunkedSize {
        b, rest := ReadSize(rest);
      }
      if b.Onward? && chunk == ChunkedChunk {
        b, rest := ReadChunk(rest);
      }
      if b.Onward? && chunk == ChunkedChunkEof {
        b, rest := ReadChunkEof(rest);
      }
      if b.Onward? && chunk == Trailers {
        b, rest := ReadTrailer(rest);
      }
    }

    /** Chunked framing (lines 953-1082). */
    method FeedChunked(data: Bytes) returns (r: FeedResult)
      requires Valid() && kind.ParseChunked?
      modifies this, payload
      ensures eofPending == old(eofPending) && (r.Fed? ==> |r.rest| <= old(|chunkTail|) + |data|)
      ensures Run(limits, old(Ref()), data).Failed? ==> r.Raised? || r.state == PayloadHasPendingInput
      ensures r.Raised? && !old(TailTooLong()) ==> Run(limits, old(Ref()), data) == Failed(payload.got, r.error)
      ensures old(TailTooLong()) ==> r == Raised(LineTooLong) && payload.got == old(payload.got)
      ensures r.Fed? && r.state != PayloadComplete ==> Valid() && r.rest == "" && Ref() == Run(limits, old(Ref()), data)
      ensures r.Fed? && r.state == PayloadNeedsInput ==>
        CaughtUp() && PauseAccounted(old(paused), old(|payload.answers|))
      ensures r.Fed? && r.state == PayloadHasPendingInput ==> PauseSpent(old(paused), old(|payload.answers|))
      ensures r.Fed? && r.state == PayloadComplete ==> Run(limits, old(Ref()), data) == Finished(payload.got, r.rest)
    {
      hide Run, Find;
      if TailTooLong() {
        live := false;
        return Raised(LineTooLong);
      }
      RunAppend(limits, Core(), chunkTail, data);
      var input := chunkTail + data;
      chunkTail := "";
      ghost var goal := At(input);
      while input != "" || moreDataAvailable
        invariant InLoop() && At(input) == goal
        invariant eofPending == old(eofPending) && |input| <= old(|chunkTail|) + |data|
        invariant PauseAccounted(old(paused), old(|payload.answers|))
        decreases |payload.answers|, |input|
      {
        var b;
        b, input := ChunkedTurn(input);
        if b.Throw? {
          live := false;
          return Raised(b.error);
        }
        if b.Return? {
          live := b.state != PayloadComplete;
          return Fed(b.state, input);
        }
      }
      AtNothing();
      return Fed(PayloadNeedsInput, "");
    }

    lemma ChunkStep(out: Delivery, required: nat, input: Bytes)
      ensures Run(limits, if required > 0 then Data(out, required) else DataEnd(out.End(), false), input) ==
        if required > |input| then Data(out.Add(Take(input, required)), required - |input|)
        else Run(limits, DataEnd(out.Add(Take(input, required)).End(), false), Drop(input, required))
      ensures required > |input| ==> Drop(input, required) == ""
    {
      if required > 0 {
        RunData(limits, out, required, input);
      } else {
        assert out.Add("") == out && input[..0] == "" && input[0..] == input;
      }
    }

    lemma RunFailed(out: Delivery, e: HttpError, rest: Bytes)
      ensures Run(limits, Failed(out, e), rest) == Failed(out, e)
    {
      RunAbsorbed(limits, Failed(out, e), rest);
    }

    /** `feed_data` (lines 921-1099). Whatever the payload answers and however often it pauses,
        the parser stays on the reference run of the bytes it was given; it raises exactly when
        that run fails (or on re-entry with an overlong partial line), and reports completion
        with exactly the reference leftover. */
    method FeedData(data: Bytes) returns (r: FeedResult)
      requires Valid()
      modifies this, payload
      ensures r.Fed? ==> |r.rest| <= old(|chunkTail|) + |data|
      ensures r.Fed? && r.state != PayloadComplete ==> eofPending == old(eofPending)
      ensures r.Fed? && r.state != PayloadComplete ==> Valid() && r.rest == "" && Ref() == Run(limits, old(Ref()), data)
      ensures r.Fed? && r.state == PayloadNeedsInput ==>
        CaughtUp() && PauseAccounted(old(paused), old(|payload.answers|))
      ensures r.Fed? && r.state == PayloadHasPendingInput ==> PauseSpent(old(paused), old(|payload.answers|))
      ensures r.Fed? && r.state == PayloadComplete && !kind.ParseUntilEof? ==>
        Run(limits, old(Ref()), data) == Finished(payload.got, r.rest)
      ensures r.Fed? && r.state == PayloadComplete && kind.ParseUntilEof? ==>
        old(eofPending) && r.rest == "" && payload.got == Run(limits, old(Ref()), data).out.Eof()
      ensures old(TailTooLong()) ==> r == Raised(LineTooLong) && payload.got == old(payload.got)
      ensures r.Raised? && !old(TailTooLong()) ==> Run(limits, old(Ref()), data) == Failed(payload.got, r.error)
      ensures Run(limits, old(Ref()), data).Failed? ==> r.Raised? || r.state == PayloadHasPendingInput
    {
      hide Run;
      match kind
      case ParseLength => LengthNeverFails(data); r := FeedLength(data);
      case ParseChunked => r := FeedChunked(data);
      case ParseUntilEof =>
        AtNothing();
        RunUntilEof(limits, payload.got, data);
        r := FeedUntilEof(data);
    }

    lemma LengthNeverFails(data: Bytes)
      requires kind.ParseLength?
      ensures !Run(limits, Ref(), data).Failed?
    {
      RunAppend(limits, Core(), chunkTail, data);
      LengthStep(payload.got, length, chunkTail + data);
    }

    lemma AtNothing()
      ensures At("") == Core()
    {
    }
  }
}

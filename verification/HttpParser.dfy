/** `HttpParser.feed_data` for requests (http_parser.py): lines and bodies are consumed from
    arbitrary fragments, pauses and the message-queue limit hold input back, and the parser is
    proved to follow the byte-at-a-time connection reference throughout. */
module HttpParser {
  import opened ByteStrings
  import opened Headers
  import opened Requests
  import opened PayloadMachine
  import opened PayloadRuns
  import opened PayloadParser
  import opened HttpMachine

  datatype ParserResult =
    | Parsed(messages: seq<Request>, upgraded: bool, rest: Bytes)
    | ParserRaised(error: HttpError)

  /** Of the messages after the first `n`, one that closes the connection is followed by more of a
      head. */
  predicate ClosesEarly(n: nat, c: Conn) {
    exists i :: n <= i < |Messages(c)| && Messages(c)[i].shouldClose && Past(c, i + 1)
  }

  /** A partial head line over the limit. */
  predicate OverlongHead(cfg: Config, c: Conn) { c.Head? && |c.text| > cfg.maxLineSize }

  /** Where a call of `feed_data` leads. An overlong partial line of a body is an error as soon as there
      is more input, and one that is swallowed with that input. */
  function CallGoal(cfg: Config, s: Conn, tooLong: bool, data: Bytes): Conn {
    if tooLong && s.InBody? then Dropped(Entries(s), s.thenUpgrade) else RunHttp(cfg, s, data)
  }

  /** The step from `before` to `after` loses no input: the limits for request lines and headers are
      the same, and no body error is swallowed. */
  predicate Regular(cfg: Config, before: Conn, after: Conn) {
    && cfg.maxLineSize == cfg.maxFieldSize
    && !(before.InBody? && Overlong(before.lim, before.body))
    && !after.Dropped?
  }

  /** Why a call raises: the reference breaks, a partial head line is too long, or a message emitted in
      this call, one after the first `n`, closes the connection and more of a head follows. */
  predicate Raises(cfg: Config, n: nat, goal: Conn, e: HttpError) {
    || (goal.Broken? && goal.error == e)
    || (e == LineTooLong && OverlongHead(cfg, goal))
    || (e == BadHttpMessage && ClosesEarly(n, goal))
  }

  /** One turn of the loop: input consumed, possibly with a message; everything stored until
      more input arrives; or an error. */
  datatype Turn = Next(rest: Bytes, message: Option<Request>) | Hold | Fail(error: HttpError)

  /** The messages of a call, `n` having been emitted before: none but the last closes the connection. */
  predicate EmittedSince(emitted: seq<Request>, n: nat, messages: seq<Request>, shouldClose: bool) {
    && |emitted| == n + |messages| && messages == emitted[n..]
    && (forall i :: 0 <= i < |messages| - 1 ==> !messages[i].shouldClose)
    && (shouldClose <==> messages != [] && messages[|messages| - 1].shouldClose)
  }

  lemma EmittedNext(emitted: seq<Request>, n: nat, messages: seq<Request>, m: Request)
    requires EmittedSince(emitted, n, messages, false)
    ensures EmittedSince(emitted + [m], n, messages + [m], m.shouldClose)
  {
    assert (emitted + [m])[n..] == emitted[n..] + [m];
  }

  function AsSeq(m: Option<Request>): seq<Request> { if m.Some? then [m.value] else [] }

  lemma SinceFacts(emitted: seq<Request>, n: nat, messages: seq<Request>, shouldClose: bool)
    requires EmittedSince(emitted, n, messages, shouldClose)
    ensures |emitted| == n + |messages| && messages == emitted[n..]
  {
  }

  lemma NothingEmitted(emitted: seq<Request>)
    ensures EmittedSince(emitted, |emitted|, [], false)
  {
  }

  /** The head calls for a body, or for a tunnel. */
  predicate HasBody(m: Request) { FrameOf(m).Ok? && (FrameOf(m).value.Framed? || FrameOf(m).value.Tunnel?) }

  class HttpRequestParser {
    const cfg: Config
    const maxMsgQueueSize: nat // 0 = no limit
    const headersParser: HeadersParser
    var lines: seq<Bytes>
    var tail: Bytes
    var upgraded: bool
    var pendingUpgrade: bool
    var payloadParser: HttpPayloadParser?
    var payloadHasMoreData: bool
    var msgInFlight: nat
    ghost var log: seq<Entry> // finished messages with their bodies
    ghost var current: seq<Request> // the message whose body is being read
    ghost var handedBack: Bytes // input returned after a switch of protocols
    ghost var failed: bool

    ghost predicate Valid()
      reads this, payloadParser, if payloadParser != null then {payloadParser.payload} else {}
    {
      && !failed
      && ((payloadParser == null && upgraded) || handedBack == "")
      && (if payloadParser == null then
            && current == [] && !pendingUpgrade && !payloadHasMoreData
            && (upgraded ==> lines == [] && tail == "")
          else
            && |current| == 1 && HasBody(current[0])
            && lines == [] && tail == "" && payloadParser.Valid() && !payloadParser.eofPending
            && (pendingUpgrade ==> !upgraded) && (upgraded ==> payloadParser.kind.ParseUntilEof?)
            && (payloadHasMoreData || !(payloadParser.Ref().Finished? || payloadParser.Ref().Failed?)))
    }

    /** The connection state of what has been consumed, the tail aside. */
    ghost function Core(): Conn
      requires Valid()
      reads this, payloadParser, if payloadParser != null then {payloadParser.payload} else {}
    {
      if payloadParser != null then
        BodyState(cfg, log, current[0], payloadParser.limits, payloadParser.Ref(), pendingUpgrade)
      else if upgraded then Switched(log, handedBack)
      else Head(log, lines, "")
    }

    /** The connection state this parser stands for: what it would reach on the bytes it was fed
        with no pause and no queue limit. */
    ghost function Ref(): Conn
      requires Valid()
      reads this, payloadParser, if payloadParser != null then {payloadParser.payload} else {}
    {
      RunHttp(cfg, Core(), tail)
    }

    /** Nothing the input so far calls for is still to be emitted or delivered. */
    ghost predicate UpToDate()
      requires Valid()
      reads this, payloadParser, if payloadParser != null then {payloadParser.payload} else {}
    {
      Emitted() == Messages(Ref()) && Entries(Core()) == Entries(Ref())
    }

    /** The messages emitted so far. */
    ghost function Emitted(): seq<Request>
      reads this
    {
      RequestsOf(log) + current
    }

    constructor (cfg: Config, maxMsgQueueSize: nat)
      ensures Valid() && Ref() == Head([], [], "") && Emitted() == [] && msgInFlight == 0 && payloadParser == null
      ensures this.cfg == cfg && this.maxMsgQueueSize == maxMsgQueueSize && !upgraded && UpToDate()
    {
      this.cfg, this.maxMsgQueueSize := cfg, maxMsgQueueSize;
      headersParser := new HeadersParser(cfg.maxFieldSize);
      lines, tail, upgraded, pendingUpgrade := [], "", false, false;
      payloadParser, payloadHasMoreData, msgInFlight := null, false, 0;
      log, current, handedBack, failed := [], [], "", false;
    }

    /** `pause_reading` */
    method PauseReading()
      requires Valid() && payloadParser != null
      modifies payloadParser
      ensures Valid() && Ref() == old(Ref()) && (old(UpToDate()) ==> UpToDate()) && payloadParser.paused
    {
      payloadParser.PauseReading();
    }

    /** `message_consumed`: the protocol has taken a message off its queue. */
    method MessageConsumed()
      requires Valid()
      modifies this`msgInFlight
      ensures Valid() && Ref() == old(Ref()) && Emitted() == old(Emitted()) && (old(UpToDate()) ==> UpToDate())
      ensures msgInFlight == if old(msgInFlight) > 0 then old(msgInFlight) - 1 else 0
    {
      if msgInFlight > 0 { msgInFlight := msgInFlight - 1; }
    }

    /** Input is being held back: by a full message queue, or by a body that waits for its reader. */
    predicate HoldsBack()
      reads this
    {
      payloadHasMoreData || (payloadParser == null && !upgraded && QueueFull() && tail != "")
    }

    predicate QueueFull()
      reads this
    {
      maxMsgQueueSize > 0 && msgInFlight >= maxMsgQueueSize
    }

    static lemma FramedLength(m: Request)
      ensures FrameOf(m).Ok? && FrameOf(m).value.Framed? ==>
        FrameOf(m).value.chunked || (FrameOf(m).value.length.Some? && FrameOf(m).value.length.value > 0)
    {
    }

    /** A payload with an arbitrary finite script of reactions, and its parser. */
    method OpenBody(lim: Limits, chunked: bool, length: Option<nat>)
      requires !chunked && length.Some? ==> length.value > 0
      modifies this`payloadParser
      ensures payloadParser != null && fresh(payloadParser) && fresh(payloadParser.payload)
      ensures payloadParser.Valid() && payloadParser.limits == lim && !payloadParser.eofPending &&
        payloadParser.chunkTail == ""
      ensures payloadParser.Ref() == Start(chunked, length)
      ensures !chunked && length.None? ==> payloadParser.kind.ParseUntilEof?
    {
      var answers: seq<Answer> := *;
      var payload := new Payload(answers);
      payloadParser := new HttpPayloadParser(payload, length, chunked, headersParser, lim);
    }

    /** Set up the body the framing calls for (lines 412-527). */
    method BeginBody(m: Request, framing: Framing, lim: Limits)
      requires Valid() && payloadParser == null && !upgraded && tail == "" && lines == []
      requires FrameOf(m) == Ok(framing)
      modifies this`payloadParser, this`pendingUpgrade, this`upgraded, this`current, this`log
      ensures Valid() && Core() == AfterHead(old(log), m, framing, lim)
      ensures Emitted() == old(Emitted()) + [m]
      ensures payloadParser == null ||
        (fresh(payloadParser) && fresh(payloadParser.payload) && payloadParser.chunkTail == "")
    {
      hide RunHttp, FrameOf, Run, HttpPayloadParser.Valid, HttpPayloadParser.Ref, HttpPayloadParser.Core;
      RequestsOfSnoc(log, Entry(m, NOTHING));
      FramedLength(m);
      match framing {
        case Framed(chunked, length, thenUpgrade) =>
          OpenBody(lim, chunked, length);
          pendingUpgrade, current := thenUpgrade, [m];
        case Tunnel =>
          OpenBody(lim, false, None);
          upgraded, current := true, [m];
        case SwitchNow =>
          upgraded := true;
          log := log + [Entry(m, NOTHING)];
        case NoBody =>
          log := log + [Entry(m, NOTHING)];
      }
    }

    /** A complete head (lines 390-531): parse it, choose the framing, emit the message. */
    method EmitMessage() returns (r: Result<Request, HttpError>)
      requires Valid() && payloadParser == null && !upgraded && tail == "" && lines != []
      modifies this
      ensures r.Err? ==> HeadDone(cfg, old(log), old(lines)) == Broken(old(log), r.error)
      ensures r.Ok? ==> Valid() && tail == "" && lines == [] && Core() == HeadDone(cfg, old(log), old(lines))
      ensures r.Ok? ==> Emitted() == old(Emitted()) + [r.value] && !payloadHasMoreData
      ensures r.Ok? ==>
        payloadParser == null ||
        (fresh(payloadParser) && fresh(payloadParser.payload) && payloadParser.chunkTail == "")
      ensures r.Ok? ==> msgInFlight == old(msgInFlight) + if maxMsgQueueSize > 0 then 1 else 0
      ensures handedBack == old(handedBack)
    {
      hide ParseMessage, FrameOf, RunHttp, Run, AfterHead, BodyState;
      var msg := ParseMessage(lines, cfg.hasScheme);
      var lim := LimitsAfter(cfg, lines);
      lines := [];
      if msg.Err? { return Err(msg.error); }
      var framing := FrameOf(msg.value);
      if framing.Err? { return Err(framing.error); }
      BeginBody(msg.value, framing.value, lim);
      if maxMsgQueueSize > 0 { msgInFlight := msgInFlight + 1; }
      return Ok(msg.value);
    }

    /** One line of a head (lines 357-392, 532-536); `shouldClose` says that a message emitted in
        this call closes the connection. */
    method HeadTurn(input: Bytes, shouldClose: bool, maxLineLength: nat) returns (t: Turn, maxLineLength': nat)
      requires Valid() && payloadParser == null && !upgraded && tail == ""
      requires maxLineLength == cfg.maxLineSize || maxLineLength == cfg.maxFieldSize
      modifies this
      ensures maxLineLength' == maxLineLength || maxLineLength' == cfg.maxFieldSize
      ensures var goal := RunHttp(cfg, old(Core()), input);
        && (t.Next? ==> Valid() && |t.rest| < |input| && tail == "" && !payloadHasMoreData)
        && (t.Next? && cfg.maxLineSize == cfg.maxFieldSize ==> RunHttp(cfg, Core(), t.rest) == goal)
        && (t.Hold? ==>
              Valid() && Ref() == goal && payloadParser == null && !upgraded && goal.Head? &&
                !OverlongHead(cfg, goal) && UpToDate()
              && goal.lines == lines == old(lines) && !payloadHasMoreData)
        && (t.Fail? && cfg.maxLineSize == cfg.maxFieldSize ==>
              || (goal.Broken? && goal.error == t.error)
              || (t.error == LineTooLong && OverlongHead(cfg, goal))
              || (t.error == BadHttpMessage && shouldClose && Past(goal, |old(Emitted())|)))
      ensures t.Next? ==> if t.message.Some? then lines == [] else payloadParser == null
      ensures t.Next? && shouldClose ==> t.message.None? && lines == []
      ensures t.Next? ==> Emitted() == old(Emitted()) + AsSeq(t.message)
      ensures t.Hold? ==> Emitted() == old(Emitted()) && msgInFlight == old(msgInFlight)
      ensures t.Next? ==>
        payloadParser == null ||
        (fresh(payloadParser) && fresh(payloadParser.payload) && payloadParser.chunkTail == "")
      ensures t.Next? ==> msgInFlight == old(msgInFlight) + if t.message.Some? && maxMsgQueueSize > 0 then 1 else 0
      ensures handedBack == old(handedBack)
    {
      hide RunHttp, Find, HeadDone, Run;
      maxLineLength' := maxLineLength;
      assert "" + input == input;
      NoCrlf("");
      RunHeadLine(cfg, log, lines, "", input);
      var pos := Find(input, CRLF);
      if pos == -1 {
        tail := input;
        if |tail| > cfg.maxLineSize { failed := true; return Fail(LineTooLong), maxLineLength'; }
        return Hold, maxLineLength';
      }
      FindInside(input, CRLF);
      var line, rest := input[..pos], input[pos + 2..];
      if pos == 0 && lines == [] { return Next(rest, None), maxLineLength'; }
      ghost var n := HeadLine(cfg, log, lines, line);
      if shouldClose {
        NonEmptyHeadLinePast(cfg, log, lines, line, |log|);
        RunHttpPast(cfg, n, rest, |log|);
        failed := true;
        return Fail(BadHttpMessage), maxLineLength';
      }
      if n.Broken? { RunHttpStopped(cfg, n, rest); }
      if |line| > maxLineLength { failed := true; return Fail(LineTooLong), maxLineLength'; }
      lines := lines + [line];
      maxLineLength' := cfg.maxFieldSize;
      if |lines| > cfg.maxHeaders { failed := true; return Fail(BadHttpMessage), maxLineLength'; }
      if line != "" { return Next(rest, None), maxLineLength'; }
      var msg := EmitMessage();
      if msg.Err? { failed := true; return Fail(msg.error), maxLineLength'; }
      return Next(rest, Some(msg.value)), maxLineLength';
    }

    lemma UntilEofNeverFails()
      requires Valid() && payloadParser != null && payloadParser.kind.ParseUntilEof?
      ensures forall s :: Run(payloadParser.limits, payloadParser.Ref(), s).UntilEof?
    {
      hide Run;
      payloadParser.AtNothing();
      forall s ensures Run(payloadParser.limits, payloadParser.Ref(), s).UntilEof? {
        RunUntilEof(payloadParser.limits, payloadParser.payload.got, s);
      }
    }

    /** What is left to read leads to the goal, or is lost with a swallowed error. */
    ghost predicate Leads(goal: Conn, input: Bytes)
      requires Valid()
      reads this, payloadParser, if payloadParser != null then {payloadParser.payload} else {}
    {
      || RunHttp(cfg, Core(), input) == goal
      || (goal.Dropped? && input == "" && payloadParser == null && Core() == Resumed(goal))
    }

    /** The body branch (lines 543-576). */
    method BodyTurn(input: Bytes) returns (t: Turn)
      requires Valid() && payloadParser != null
      modifies this, payloadParser, payloadParser.payload
      ensures var goal := CallGoal(cfg, old(Core()), old(payloadParser.TailTooLong()), input);
        && (t.Next? ==>
          Valid() && payloadParser == null && tail == "" && !payloadHasMoreData && t.message.None? &&
          Leads(goal, t.rest))
        && (t.Hold? ==>
          Valid() && Core() == goal && tail == "" && payloadParser == old(payloadParser) &&
          (goal.Broken? || goal.Dropped? ==> payloadHasMoreData))
        && (t.Fail? ==> goal.Broken? && goal.error == t.error)
      ensures t.Next? ==> |t.rest| <= old(|payloadParser.chunkTail|) + |input|
      ensures !t.Fail? ==> lines == []
      ensures t.Hold? && payloadHasMoreData ==>
        payloadParser.PauseSpent(old(payloadParser.paused), old(|payloadParser.payload.answers|))
      ensures !t.Fail? ==> Emitted() == old(Emitted())
      ensures msgInFlight == old(msgInFlight) && handedBack == old(handedBack)
    {
      hide RunHttp, Run, AfterBody, BodyState, HasBody, Find, Overlong, Leads, HttpPayloadParser.Between,
        HttpPayloadParser.Core, HttpPayloadParser.Valid, HttpPayloadParser.Ref;
      ghost var body, tooLong := payloadParser.Ref(), payloadParser.TailTooLong();
      if payloadParser.kind.ParseUntilEof? { UntilEofNeverFails(); }
      if tooLong { TooLongIsInBody(); }
      RunInBody(cfg, log, current[0], payloadParser.limits, body, pendingUpgrade, input);
      BodyStates(payloadParser.limits, Run(payloadParser.limits, body, input));
      var r := payloadParser.FeedData(input);
      payloadHasMoreData := r == Fed(PayloadHasPendingInput, "");
      if r.Fed? && r.state != PayloadComplete { return Hold; }
      t := EndBody(r, CallGoal(cfg, old(Core()), tooLong, input));
    }

    /** The body is over, or raised an error that ends it unless it is one of the two passed on. */
    method EndBody(r: FeedResult, ghost goal: Conn) returns (t: Turn)
      requires payloadParser != null && |current| == 1 && lines == [] && tail == "" && !failed && handedBack == ""
      requires !upgraded && !payloadHasMoreData
      requires var log' := log + [Entry(current[0], payloadParser.payload.got)];
        match r
        case Fed(_, rest) => goal == RunHttp(cfg, AfterBody(log', pendingUpgrade), rest)
        case Raised(e) =>
          goal == if PassedOn(e) then Broken(log', e) else Dropped(log', pendingUpgrade)
      modifies this`log, this`current, this`payloadParser, this`upgraded, this`pendingUpgrade, this`failed
      ensures t.Next? ==> Valid() && payloadParser == null && t.message.None? && Leads(goal, t.rest)
      ensures t.Next? ==> Emitted() == old(Emitted()) && t.rest == if r.Fed? then r.rest else ""
      ensures t.Fail? ==> goal.Broken? && goal.error == t.error
      ensures !t.Hold?
    {
      hide RunHttp, AfterBody;
      var rest := "";
      match r {
        case Raised(e) => if PassedOn(e) { failed := true; return Fail(e); }
        case Fed(_, left) => rest := left;
      }
      CloseBody();
      return Next(rest, None);
    }

    static predicate PassedOn(e: HttpError) { e == InvalidHeader || e == TransferEncodingError }

    lemma BodyStates(lim: Limits, body: Body)
      requires |current| == 1
      ensures var s, all :=
        BodyState(cfg, log, current[0], lim, body, pendingUpgrade), log + [Entry(current[0], body.out)];
        match body
        case Finished(_, rest) => s == RunHttp(cfg, AfterBody(all, pendingUpgrade), rest)
        case Failed(_, e) => s == if PassedOn(e) then Broken(all, e)
          else Dropped(all, pendingUpgrade)
        case _ => s == InBody(log, current[0], lim, body, pendingUpgrade)
    {
      hide RunHttp, AfterBody;
    }

    lemma TooLongIsInBody()
      requires Valid() && payloadParser != null && payloadParser.TailTooLong()
      ensures Core().InBody? && Overlong(payloadParser.limits, payloadParser.Ref())
      ensures Core() == InBody(log, current[0], payloadParser.limits, payloadParser.Ref(), pendingUpgrade)
      ensures payloadParser.Ref().out == payloadParser.payload.got
    {
      hide RunHttp, Run;
      RefOfPartialLine(payloadParser);
    }

    /** The body has been read: back to heads, or over to the upgraded protocol (lines 569-576). */
    method CloseBody()
      requires payloadParser != null && |current| == 1 && lines == [] && tail == "" && !failed && handedBack == ""
      requires !upgraded && !payloadHasMoreData
      modifies this`log, this`current, this`payloadParser, this`upgraded, this`pendingUpgrade
      ensures Valid() && payloadParser == null
      ensures Core() == AfterBody(old(log) + [Entry(old(current)[0], old(payloadParser.payload.got))],
        old(pendingUpgrade))
      ensures Emitted() == old(Emitted())
    {
      RequestsOfSnoc(log, Entry(current[0], payloadParser.payload.got));
      log := log + [Entry(current[0], payloadParser.payload.got)];
      current := [];
      payloadParser := null;
      if pendingUpgrade { upgraded, pendingUpgrade := true, false; }
    }

    lemma TooLongIsIrregular(goal: Conn)
      requires Valid() && payloadParser != null && payloadParser.TailTooLong()
      ensures !Regular(cfg, Ref(), goal)
    {
      hide RunHttp, Run;
      TooLongIsInBody();
      RunHttpNothing(cfg, Core());
    }

    /** More of a head after a closing message of this call. */
    lemma CloseIsEarly(input: Bytes, n: nat)
      requires Valid() && payloadParser == null && !upgraded
      requires |Emitted()| > n && Emitted()[|Emitted()| - 1].shouldClose
      ensures var goal := RunHttp(cfg, Core(), input); Past(goal, |Emitted()|) ==> ClosesEarly(n, goal)
    {
      hide RunHttp, Past;
      RunHttpMessages(cfg, Core(), input);
      var goal, k := RunHttp(cfg, Core(), input), |Emitted()|;
      assert Messages(Core()) == Emitted();
      assert Messages(goal)[k - 1].shouldClose;
    }

    /** When everything is out and nothing of a head followed a closing message, none closes early. */
    lemma NoneClosesEarly(goal: Conn, n: nat, messages: seq<Request>)
      requires Messages(goal) == Emitted() && |Emitted()| == n + |messages| && messages == Emitted()[n..]
      requires forall i :: 0 <= i < |messages| - 1 ==> !messages[i].shouldClose
      requires messages != [] && messages[|messages| - 1].shouldClose ==>
        !goal.Broken? && (goal.Head? ==> goal.lines == [])
      ensures !ClosesEarly(n, goal)
    {
      forall i | n <= i < |Messages(goal)| && Messages(goal)[i].shouldClose ensures !Past(goal, i + 1) {
        assert messages[i - n].shouldClose;
      }
    }

    ghost function Weight(input: Bytes): nat
      reads this, payloadParser
    {
      |input| + if payloadParser == null then 0 else |payloadParser.chunkTail|
    }

    predicate TailTooLong()
      reads this, payloadParser
    {
      payloadParser != null && payloadParser.TailTooLong()
    }

    /** The limits for request lines and headers are the same. */
    predicate EvenLimits() { cfg.maxLineSize == cfg.maxFieldSize }

    /** The goal of a call, `input` being what it still has to read. */
    ghost predicate OnCourse(goal: Conn, input: Bytes)
      requires Valid()
      reads this, payloadParser, if payloadParser != null then {payloadParser.payload} else {}
    {
      if TailTooLong() && (input != "" || payloadHasMoreData) then goal == CallGoal(cfg, Core(), true, input)
      else Leads(goal, input)
    }

    /** One turn of the loop away from the two places where it just stops; `n` messages had been emitted
        before this call. */
    method OneTurn(input: Bytes, shouldClose: bool, maxLineLength: nat, ghost goal: Conn, ghost n: nat)
      returns (t: Turn, maxLineLength': nat)
      requires Valid() && tail == "" && (payloadParser != null || (!upgraded && !QueueFull()))
      requires input != "" || payloadHasMoreData
      requires maxLineLength == cfg.maxLineSize || maxLineLength == cfg.maxFieldSize
      requires EvenLimits() ==> OnCourse(goal, input)
      requires shouldClose ==> |Emitted()| > n && Emitted()[|Emitted()| - 1].shouldClose && lines == []
      modifies this, payloadParser, if payloadParser != null then {payloadParser.payload} else {}
      ensures maxLineLength' == cfg.maxLineSize || maxLineLength' == cfg.maxFieldSize
      ensures t.Next? ==> Valid() && tail == "" && (EvenLimits() ==> OnCourse(goal, t.rest))
      ensures t.Next? ==>
        Weight(t.rest) < old(Weight(input)) ||
        (Weight(t.rest) == old(Weight(input)) && old(payloadParser != null) && payloadParser == null)
      ensures t.Next? ==> payloadParser == null || (fresh(payloadParser) && fresh(payloadParser.payload))
      ensures t.Next? ==> Emitted() == old(Emitted()) + AsSeq(t.message)
      ensures t.Next? && t.message.None? ==> payloadParser == null
      ensures t.Next? && (shouldClose || t.message.Some?) ==> lines == []
      ensures t.Next? && shouldClose ==> t.message.None?
      ensures t.Next? ==> msgInFlight == old(msgInFlight) + if t.message.Some? && maxMsgQueueSize > 0 then 1 else 0
      ensures t.Next? && t.message.Some? && maxMsgQueueSize > 0 ==> old(msgInFlight) < maxMsgQueueSize
      ensures t.Hold? ==>
        Valid() && Emitted() == old(Emitted()) && msgInFlight == old(msgInFlight) &&
        payloadParser == old(payloadParser)
      ensures t.Hold? && EvenLimits() ==>
        Ref() == goal && (goal.Broken? || goal.Dropped? || OverlongHead(cfg, goal) ==> HoldsBack())
      ensures t.Hold? ==> lines == old(lines) && (!HoldsBack() ==> UpToDate() && (Ref().Head? ==> Ref().lines == lines))
      ensures t.Hold? && HoldsBack() ==>
        payloadParser != null &&
          payloadParser.PauseSpent(old(payloadParser.paused), old(|payloadParser.payload.answers|))
      ensures t.Fail? && EvenLimits() ==> Raises(cfg, n, goal, t.error)
      ensures handedBack == old(handedBack)
    {
      hide RunHttp, ClosesEarly, Past, Run;
      if payloadParser == null {
        if shouldClose { CloseIsEarly(input, n); }
        t, maxLineLength' := HeadTurn(input, shouldClose, maxLineLength);
      } else {
        t := BodyTurn(input);
        maxLineLength' := maxLineLength;
        if t.Hold? {
          RunHttpNothing(cfg, Core());
          if !payloadHasMoreData { AtRest(); }
        }
      }
    }

    lemma AtRest()
      requires Valid() && !payloadHasMoreData
      ensures !Core().Broken? && !Core().Dropped? && !OverlongHead(cfg, Core())
      ensures Core().Head? ==> Core().lines == lines
      ensures Ref() == Core() ==> UpToDate()
    {
      if payloadParser != null { RequestsOfSnoc(log, Entry(current[0], payloadParser.Ref().out)); }
    }

    /** Since the call began nothing was emitted, and either the same body goes on after using up a pause
        or the body is over. */
    twostate predicate Nearer()
      requires old(payloadParser) != null
      reads this, payloadParser, if payloadParser != null then {payloadParser.payload} else {}
    {
      payloadParser == null ||
      (payloadParser == old(payloadParser)
       && payloadParser.PauseSpent(old(payloadParser.paused), old(|payloadParser.payload.answers|)))
    }

    /** How a call of `feed_data` ends on the way to `goal`, `n` messages having been emitted before. */
    ghost predicate Ends(r: ParserResult, n: nat, goal: Conn)
      reads this, payloadParser, if payloadParser != null then {payloadParser.payload} else {}
    {
      match r
      case ParserRaised(e) => Raises(cfg, n, goal, e)
      case Parsed(_, _, _) =>
        && Valid() && Ref() == (if goal.Dropped? && !HoldsBack() then Resumed(goal) else goal)
        && (goal.Broken? || OverlongHead(cfg, goal) || ClosesEarly(n, goal) ==> HoldsBack())
    }

    lemma ClosedBy(n: nat, messages: seq<Request>, shouldClose: bool)
      requires EmittedSince(Emitted(), n, messages, shouldClose) && shouldClose
      ensures |Emitted()| > n && Emitted()[|Emitted()| - 1].shouldClose
    {
    }

    lemma EndsWell(r: ParserResult, n: nat, goal: Conn, messages: seq<Request>, shouldClose: bool)
      requires r.Parsed? && Valid() && (!HoldsBack() ==> UpToDate())
      requires EmittedSince(Emitted(), n, messages, shouldClose) && (shouldClose ==> lines == [])
      requires Ref() == if goal.Dropped? && !HoldsBack() then Resumed(goal) else goal
      requires goal.Broken? || OverlongHead(cfg, goal) ==> HoldsBack()
      requires !HoldsBack() && goal.Head? ==> goal.lines == lines
      ensures Ends(r, n, goal)
    {
      hide RunHttp, OverlongHead, Past, ClosesEarly;
      if !HoldsBack() { NoneClosesEarly(goal, n, messages); }
    }

    lemma RaisesEnds(n: nat, goal: Conn, e: HttpError)
      requires Raises(cfg, n, goal, e)
      ensures Ends(ParserRaised(e), n, goal)
    {
    }

    lemma LeadsThere(goal: Conn, input: Bytes)
      requires Valid() && payloadParser == null && input != "" && OnCourse(goal, input)
      ensures RunHttp(cfg, Core(), input) == goal
    {
    }

    /** The message queue is full: the rest of the input waits. */
    method HoldTail(input: Bytes, ghost goal: Conn, ghost n: nat, messages: seq<Request>, ghost shouldClose: bool)
      returns (r: ParserResult)
      requires Valid() && tail == "" && payloadParser == null && !upgraded && QueueFull() && input != ""
      requires EvenLimits() ==> OnCourse(goal, input)
      requires EmittedSince(Emitted(), n, messages, shouldClose) && (shouldClose ==> lines == [])
      modifies this`tail
      ensures r == Parsed(messages, upgraded, input)
      ensures Valid() && HoldsBack() && Emitted() == old(Emitted()) && (EvenLimits() ==> Ends(r, n, goal))
      ensures HandsBack(r)
    {
      hide RunHttp, OverlongHead, ClosesEarly;
      if EvenLimits() { LeadsThere(goal, input); }
      tail := input;
      return Parsed(messages, upgraded, input);
    }

    /** After a switch of protocols what is returned as rest is the unread input, all of it. */
    twostate predicate HandsBack(r: ParserResult)
      requires r.Parsed?
      reads this
    {
      handedBack == old(handedBack) + if upgraded then r.rest else ""
    }

    /** After a switch of protocols the input is handed back unread. */
    method HandBack(input: Bytes, ghost goal: Conn, ghost n: nat, messages: seq<Request>, ghost shouldClose: bool)
      returns (r: ParserResult)
      requires Valid() && tail == "" && payloadParser == null && upgraded && input != ""
      requires EvenLimits() ==> OnCourse(goal, input)
      requires EmittedSince(Emitted(), n, messages, shouldClose) && (shouldClose ==> lines == [])
      modifies this`handedBack
      ensures r == Parsed(messages, upgraded, input)
      ensures Valid() && UpToDate() && !HoldsBack() && Emitted() == old(Emitted()) &&
        (EvenLimits() ==> Ends(r, n, goal))
      ensures HandsBack(r)
    {
      hide RunHttp, ClosesEarly, Past;
      if EvenLimits() { LeadsThere(goal, input); }
      RunHttpStopped(cfg, Core(), input);
      handedBack := handedBack + input;
      RunHttpNothing(cfg, Core());
      r := Parsed(messages, upgraded, input);
      if EvenLimits() { EndsWell(r, n, goal, messages, shouldClose); }
    }

    lemma NothingPending()
      requires Valid() && payloadParser == null
      ensures !payloadHasMoreData
    {
    }

    /** The input is used up. */
    lemma UsedUp(r: ParserResult, n: nat, goal: Conn, messages: seq<Request>, shouldClose: bool)
      requires r.Parsed? && Valid() && tail == "" && !payloadHasMoreData
      requires EmittedSince(Emitted(), n, messages, shouldClose) && (shouldClose ==> lines == [])
      ensures UpToDate() && !HoldsBack()
      ensures EvenLimits() && OnCourse(goal, "") ==> Ends(r, n, goal)
    {
      hide RunHttp, Past, ClosesEarly, Ends;
      RefAtRest();
      AtRest();
      if EvenLimits() && OnCourse(goal, "") { EndsWell(r, n, goal, messages, shouldClose); }
    }

    /** How a turn leaves the parser when the call goes on: the messages of the call and where it stands. */
    ghost predicate GoesOn(goal: Conn, input: Bytes, n: nat, messages: seq<Request>, shouldClose: bool)
      reads this, payloadParser, if payloadParser != null then {payloadParser.payload} else {}
    {
      && Valid() && tail == "" && (EvenLimits() ==> OnCourse(goal, input))
      && EmittedSince(Emitted(), n, messages, shouldClose) && (shouldClose ==> lines == [])
    }

    /** How it leaves the parser when the call ends here. */
    ghost predicate Stops(goal: Conn, n: nat, messages: seq<Request>, r: ParserResult)
      reads this, payloadParser, if payloadParser != null then {payloadParser.payload} else {}
    {
      && (EvenLimits() ==> Ends(r, n, goal))
      && (r.Parsed? ==>
            Valid() && r.messages == messages && r.upgraded == upgraded && |Emitted()| == n + |messages| &&
            messages == Emitted()[n..] && (!HoldsBack() ==> UpToDate()))
    }

    /** One turn of the loop of `feed_data`: the call ends, or goes on with what is left of the input and
        perhaps a message. */
    method LoopTurn(input: Bytes, messages: seq<Request>, shouldClose: bool, maxLineLength: nat,
                    ghost goal: Conn, ghost n: nat)
      returns (stopped: Option<ParserResult>, rest: Bytes, m: Option<Request>, maxLineLength': nat)
      requires GoesOn(goal, input, n, messages, shouldClose) && (input != "" || payloadHasMoreData)
      requires maxLineLength == cfg.maxLineSize || maxLineLength == cfg.maxFieldSize
      modifies this, payloadParser, if payloadParser != null then {payloadParser.payload} else {}
      ensures maxLineLength' == cfg.maxLineSize || maxLineLength' == cfg.maxFieldSize
      ensures stopped.Some? ==> Stops(goal, n, messages, stopped.value)
      ensures stopped.Some? && stopped.value.Parsed? ==>
        Emitted() == old(Emitted()) && msgInFlight == old(msgInFlight) && payloadParser == old(payloadParser)
      ensures stopped.Some? && stopped.value.Parsed? && HoldsBack() && !old(payloadParser == null && QueueFull()) ==>
        payloadParser != null &&
        payloadParser.PauseSpent(old(payloadParser.paused), old(|payloadParser.payload.answers|))
      ensures stopped.None? ==>
        GoesOn(goal, rest, n, messages + AsSeq(m), if m.Some? then m.value.shouldClose else shouldClose)
      ensures stopped.None? ==>
        Weight(rest) < old(Weight(input)) ||
        (Weight(rest) == old(Weight(input)) && old(payloadParser != null) && payloadParser == null)
      ensures stopped.None? ==> payloadParser == null || (fresh(payloadParser) && fresh(payloadParser.payload))
      ensures stopped.None? ==> Emitted() == old(Emitted()) + AsSeq(m)
      ensures stopped.None? && m.None? ==> payloadParser == null
      ensures stopped.None? ==> msgInFlight == old(msgInFlight) + if m.Some? && maxMsgQueueSize > 0 then 1 else 0
      ensures stopped.None? && m.Some? && maxMsgQueueSize > 0 ==> old(msgInFlight) < maxMsgQueueSize
      ensures stopped.None? ==> handedBack == old(handedBack)
      ensures stopped.Some? && stopped.value.Parsed? ==> HandsBack(stopped.value)
    {
      hide RunHttp, ClosesEarly, OverlongHead, Run, Valid, Core, Ends, OnCourse, Leads, UpToDate, Raises, EvenLimits,
        EmittedSince, Emitted, Ref;
      stopped, rest, m, maxLineLength' := None, input, None, maxLineLength;
      if payloadParser == null { NothingPending(); }
      SinceFacts(Emitted(), n, messages, shouldClose);
      if payloadParser == null && !upgraded && QueueFull() {
        var r := HoldTail(input, goal, n, messages, shouldClose);
        return Some(r), rest, m, maxLineLength';
      }
      if payloadParser == null && upgraded {
        var r := HandBack(input, goal, n, messages, shouldClose);
        return Some(r), rest, m, maxLineLength';
      }
      if shouldClose { ClosedBy(n, messages, shouldClose); }
      ghost var emitted := Emitted();
      var t: Turn;
      t, maxLineLength' := OneTurn(input, shouldClose, maxLineLength, goal, n);
      match t
      case Fail(e) =>
        if EvenLimits() { RaisesEnds(n, goal, e); }
        stopped := Some(ParserRaised(e));
      case Hold =>
        var r := Parsed(messages, upgraded, "");
        if EvenLimits() { EndsWell(r, n, goal, messages, shouldClose); }
        stopped := Some(r);
      case Next(left, message) =>
        rest, m := left, message;
        if message.Some? {
          EmittedNext(emitted, n, messages, message.value);
        } else {
          assert messages + [] == messages && emitted + [] == emitted;
        }
    }

    /** The loop of `feed_data` (lines 350-576). */
    method Consume(data: Bytes, ghost goal: Conn) returns (r: ParserResult)
      requires Valid() && tail == "" && (EvenLimits() ==> OnCourse(goal, data))
      modifies this, payloadParser, if payloadParser != null then {payloadParser.payload} else {}
      ensures r.Parsed? ==> Valid() && Emitted() == old(Emitted()) + r.messages && r.upgraded == upgraded
      ensures r.Parsed? ==>
        payloadParser == null || payloadParser == old(payloadParser) ||
          (fresh(payloadParser) && fresh(payloadParser.payload))
      ensures r.Parsed? && !HoldsBack() ==> UpToDate()
      ensures EvenLimits() ==> Ends(r, |old(Emitted())|, goal)
      ensures r.Parsed? && r.messages == [] && HoldsBack() && !old(payloadParser == null && QueueFull()) ==>
        old(payloadParser) != null && Nearer()
      ensures r.Parsed? && maxMsgQueueSize > 0 ==> msgInFlight == old(msgInFlight) + |r.messages|
      ensures r.Parsed? && maxMsgQueueSize > 0 && old(msgInFlight) <= maxMsgQueueSize ==> msgInFlight <= maxMsgQueueSize
      ensures r.Parsed? ==> HandsBack(r)
    {
      hide Valid, Ends, OnCourse, UpToDate, EvenLimits, EmittedSince, Emitted, HoldsBack;
      var input := data;
      var messages: seq<Request> := [];
      var shouldClose := false;
      var maxLineLength := cfg.maxLineSize;
      ghost var n := |Emitted()|;
      NothingEmitted(Emitted());
      while input != "" || payloadHasMoreData
        invariant GoesOn(goal, input, n, messages, shouldClose) && Emitted() == old(Emitted()) + messages
        invariant maxMsgQueueSize > 0 ==> msgInFlight == old(msgInFlight) + |messages|
        invariant maxMsgQueueSize > 0 && old(msgInFlight) <= maxMsgQueueSize ==> msgInFlight <= maxMsgQueueSize
        invariant maxLineLength == cfg.maxLineSize || maxLineLength == cfg.maxFieldSize
        invariant handedBack == old(handedBack)
        invariant payloadParser == null || payloadParser == old(payloadParser) ||
          (fresh(payloadParser) && fresh(payloadParser.payload))
        invariant messages == [] && payloadParser != null ==>
          payloadParser == old(payloadParser) && payloadParser.paused == old(payloadParser.paused)
          && payloadParser.payload.answers == old(payloadParser.payload.answers)
        decreases Weight(input), payloadParser != null
      {
        hide GoesOn;
        var stopped, m;
        stopped, input, m, maxLineLength := LoopTurn(input, messages, shouldClose, maxLineLength, goal, n);
        if stopped.Some? { return stopped.value; }
        assert old(Emitted()) + messages + AsSeq(m) == old(Emitted()) + (messages + AsSeq(m));
        messages := messages + AsSeq(m);
        if m.Some? { shouldClose := m.value.shouldClose; }
      }
      r := Parsed(messages, upgraded, "");
      UsedUp(r, n, goal, messages, shouldClose);
    }

    lemma RefAtRest()
      requires Valid() && tail == ""
      ensures Ref() == Core() && RunHttp(cfg, Core(), "") == Core()
    {
      RunHttpNothing(cfg, Core());
    }

    /** There is more input, and the partial line kept of a body is already over its limit. */
    predicate Rejects(data: Bytes)
      reads this, payloadParser
    {
      TailTooLong() && (data != "" || payloadHasMoreData)
    }

    /** `feed_data` (lines 329-576). With one limit for all head lines, the parser stays on the reference
        run of everything it was fed, however payload pauses and the queue limit interrupt it; only an
        error in a body that is swallowed takes the rest of the call's input with it. It raises only
        where the reference breaks, a partial head line is over the limit or more of a head follows a
        closing message in the same call, and it does so unless it still holds input back. A call that
        emits nothing and holds input back has used up a pause or a body. */
    method FeedData(data: Bytes) returns (r: ParserResult)
      requires Valid()
      modifies this, payloadParser, if payloadParser != null then {payloadParser.payload} else {}
      ensures r.Parsed? ==> Valid() && Emitted() == old(Emitted()) + r.messages && r.upgraded == upgraded
      ensures r.Parsed? ==>
        payloadParser == null || payloadParser == old(payloadParser) ||
          (fresh(payloadParser) && fresh(payloadParser.payload))
      ensures r.Parsed? && !HoldsBack() ==> UpToDate()
      ensures EvenLimits() ==> Ends(r, |old(Emitted())|, CallGoal(cfg, old(Ref()), old(Rejects(data)), data))
      ensures var s := old(Ref()); var goal := RunHttp(cfg, s, data);
        Regular(cfg, s, goal) ==> Ends(r, |old(Emitted())|, goal) && (r.Parsed? ==> Ref() == goal)
      ensures r.Parsed? && r.messages == [] && HoldsBack() && !old(payloadParser == null && QueueFull()) ==>
        old(payloadParser) != null && Nearer()
      ensures r.Parsed? && maxMsgQueueSize > 0 ==> msgInFlight == old(msgInFlight) + |r.messages|
      ensures r.Parsed? && maxMsgQueueSize > 0 && old(msgInFlight) <= maxMsgQueueSize ==> msgInFlight <= maxMsgQueueSize
      ensures r.Parsed? ==> HandsBack(r)
    {
      hide RunHttp, ClosesEarly, Overlong, OverlongHead, Run;
      ghost var before := Ref();
      ghost var goal := CallGoal(cfg, before, Rejects(data), data);
      if TailTooLong() {
        TooLongIsIrregular(RunHttp(cfg, before, data));
        TooLongIsInBody();
        RunHttpNothing(cfg, Core());
      }
      RunHttpAppend(cfg, Core(), tail, data);
      var input := tail + data;
      tail := "";
      r := Consume(input, goal);
    }
  }

  // ---- whole connections -------------------------------------------------------------------

  const START: Conn := Head([], [], "")

  /** The connection after the first `i` fragments, read in one piece. */
  function After(cfg: Config, fragments: seq<Bytes>, i: nat): Conn
    requires i <= |fragments|
  {
    RunHttp(cfg, START, Concat(fragments[..i]))
  }

  predicate RegularCuts(cfg: Config, fragments: seq<Bytes>) {
    forall i :: 0 <= i < |fragments| ==> Regular(cfg, After(cfg, fragments, i), After(cfg, fragments, i + 1))
  }

  lemma AfterNext(cfg: Config, fragments: seq<Bytes>, i: nat)
    requires i < |fragments|
    ensures After(cfg, fragments, i + 1) == RunHttp(cfg, After(cfg, fragments, i), fragments[i])
  {
    hide RunHttp;
    assert fragments[..i + 1] == fragments[..i] + [fragments[i]];
    ConcatSnoc(fragments[..i], fragments[i]);
    RunHttpAppend(cfg, START, Concat(fragments[..i]), fragments[i]);
  }

  /** What has been emitted is always an initial part of what an unlimited, unpaused parser emits
      on the same bytes. */
  lemma EmittedIsPrefix(p: HttpRequestParser)
    requires p.Valid()
    ensures p.Emitted() <= Messages(p.Ref())
  {
    hide RunHttp, HttpRequestParser.Valid, HttpRequestParser.Core, Messages, HttpRequestParser.Emitted;
    EmittedByCore(p);
    RunHttpMessages(p.cfg, p.Core(), p.tail);
  }

  lemma EmittedByCore(p: HttpRequestParser)
    requires p.Valid()
    ensures p.Emitted() <= Messages(p.Core())
  {
    hide RunHttp, BodyState, HasBody, PayloadMachine.Run;
    if p.payloadParser != null {
      var body, m := p.payloadParser.Ref(), p.current[0];
      p.BodyStates(p.payloadParser.limits, body);
      RequestsOfSnoc(p.log, Entry(m, body.out));
      if body.Finished? {
        RunHttpMessages(p.cfg, AfterBody(p.log + [Entry(m, body.out)], p.pendingUpgrade), body.rest);
      }
    }
  }

  lemma RaisesFrom(cfg: Config, n: nat, goal: Conn, e: HttpError)
    requires Raises(cfg, n, goal, e)
    ensures Raises(cfg, 0, goal, e)
  {
    hide Past, Messages;
  }

  /** One fragment after another, with queued messages consumed in between: `consumed[i]` of
      them after fragment `i`. */
  method ParseFragments(parser: HttpRequestParser, fragments: seq<Bytes>, consumed: seq<nat>)
    returns (messages: seq<Request>, raised: Option<HttpError>, used: nat)
    requires parser.Valid() && parser.Ref() == START && parser.Emitted() == [] && parser.payloadParser == null
    requires parser.msgInFlight == 0 && RegularCuts(parser.cfg, fragments)
    modifies parser
    ensures used <= |fragments|
    ensures raised.None? ==> used == |fragments| && parser.Valid() && parser.Emitted() == messages
    ensures raised.None? ==> parser.Ref() == RunHttp(parser.cfg, START, Concat(fragments))
    ensures raised.None? ==> messages <= Messages(parser.Ref())
    ensures raised.None? ==>
      parser.payloadParser == null || (fresh(parser.payloadParser) && fresh(parser.payloadParser.payload))
    ensures raised.None? && parser.maxMsgQueueSize > 0 ==>
      parser.msgInFlight <= |messages| && parser.msgInFlight <= parser.maxMsgQueueSize
    ensures raised.None? && consumed == [] && fragments != [] && !parser.HoldsBack() ==> parser.UpToDate()
    ensures raised.Some? ==>
      Raises(parser.cfg, 0, After(parser.cfg, fragments, used), raised.value)
  {
    hide RunHttp, OverlongHead, Messages, ClosesEarly, Raises, Overlong;
    messages, raised, used := [], None, 0;
    RunHttpNothing(parser.cfg, START);
    while used < |fragments|
      invariant used <= |fragments| && raised.None?
      invariant parser.Valid() && parser.Ref() == After(parser.cfg, fragments, used) && parser.Emitted() == messages
      invariant parser.maxMsgQueueSize > 0 ==>
        parser.msgInFlight <= |messages| && parser.msgInFlight <= parser.maxMsgQueueSize
      invariant consumed == [] && used > 0 && !parser.HoldsBack() ==> parser.UpToDate()
      invariant parser.payloadParser == null || (fresh(parser.payloadParser) && fresh(parser.payloadParser.payload))
    {
      AfterNext(parser.cfg, fragments, used);
      ghost var n := |parser.Emitted()|;
      var r := parser.FeedData(fragments[used]);
      used := used + 1;
      if r.ParserRaised? {
        RaisesFrom(parser.cfg, n, After(parser.cfg, fragments, used), r.error);
        raised := Some(r.error);
        return;
      }
      messages := messages + r.messages;
      if used <= |consumed| {
        for k := 0 to consumed[used - 1]
          invariant parser.Valid() && parser.Ref() == After(parser.cfg, fragments, used) && parser.Emitted() == messages
          invariant parser.maxMsgQueueSize > 0 ==>
            parser.msgInFlight <= |messages| && parser.msgInFlight <= parser.maxMsgQueueSize
          invariant parser.payloadParser == null || (fresh(parser.payloadParser) && fresh(parser.payloadParser.payload))
        {
          parser.MessageConsumed();
        }
      }
    }
    assert fragments[..used] == fragments;
    EmittedIsPrefix(parser);
  }

  /** Reading on from here neither raises nor depends on how often it is interrupted, once the first `n`
      messages are out. */
  predicate Smooth(cfg: Config, n: nat, c: Conn) {
    && cfg.maxLineSize == cfg.maxFieldSize
    && !(c.InBody? && Overlong(c.lim, c.body))
    && !c.Broken? && !OverlongHead(cfg, c) && !ClosesEarly(n, c)
  }

  lemma SmoothNeverRaises(cfg: Config, n: nat, c: Conn, k: nat, e: HttpError)
    requires Smooth(cfg, n, c) && n <= k
    ensures !Raises(cfg, k, c, e)
  {
    hide Past, Messages;
  }

  lemma SmoothLater(cfg: Config, n: nat, c: Conn, k: nat)
    requires Smooth(cfg, n, c) && n <= k
    ensures Smooth(cfg, k, c)
  {
    hide Past, Messages;
  }

  /** What is left of the pauses of the body that is being read. */
  ghost function PausesLeft(p: HttpRequestParser): nat
    reads p, p.payloadParser, if p.payloadParser != null then {p.payloadParser.payload} else {}
  {
    if p.payloadParser == null then 0
    else 2 * |p.payloadParser.payload.answers| + (if p.payloadParser.paused then 1 else 0) + 1
  }

  /** What the parser holds back comes out after finitely many calls of `feed_data` with no input, if
      the queue is emptied meanwhile. */
  method Drain(parser: HttpRequestParser) returns (messages: seq<Request>)
    requires parser.Valid() && Smooth(parser.cfg, |parser.Emitted()|, parser.Ref())
    requires parser.maxMsgQueueSize > 0 ==> parser.msgInFlight <= parser.maxMsgQueueSize
    modifies parser, parser.payloadParser, if parser.payloadParser != null then {parser.payloadParser.payload} else {}
    ensures parser.Valid() && !parser.HoldsBack() && parser.UpToDate()
    ensures parser.Ref() == if old(parser.Ref()).Dropped? then Resumed(old(parser.Ref())) else old(parser.Ref())
    ensures parser.Emitted() == old(parser.Emitted()) + messages == Messages(parser.Ref())
    ensures parser.payloadParser == null || parser.payloadParser == old(parser.payloadParser)
      || (fresh(parser.payloadParser) && fresh(parser.payloadParser.payload))
  {
    hide RunHttp, Smooth, Messages, HttpRequestParser.Core, HttpRequestParser.Ref, HttpRequestParser.Valid;
    ghost var goal, n := parser.Ref(), |parser.Emitted()|;
    if parser.payloadParser == null && parser.QueueFull() { parser.MessageConsumed(); }
    messages := Continue(parser, goal, n);
    while parser.HoldsBack()
      invariant parser.Valid() && (!parser.HoldsBack() ==> parser.UpToDate())
      invariant parser.Ref() == if goal.Dropped? && !parser.HoldsBack() then Resumed(goal) else goal
      invariant parser.Emitted() == old(parser.Emitted()) + messages <= Messages(goal)
      invariant parser.maxMsgQueueSize > 0 ==> parser.msgInFlight <= parser.maxMsgQueueSize
      invariant parser.payloadParser == null || parser.payloadParser == old(parser.payloadParser)
        || (fresh(parser.payloadParser) && fresh(parser.payloadParser.payload))
      decreases |Messages(goal)| - |parser.Emitted()|, parser.HoldsBack(), PausesLeft(parser)
    {
      if parser.payloadParser == null { parser.MessageConsumed(); }
      RunHttpNothing(parser.cfg, goal);
      var r := Continue(parser, goal, n);
      messages := messages + r;
    }
    if goal.Dropped? { ResumedMessages(goal); }
  }

  lemma ResumedMessages(c: Conn)
    requires c.Dropped?
    ensures Messages(Resumed(c)) == Messages(c)
  {
  }

  /** One of these calls. */
  method Continue(parser: HttpRequestParser, ghost goal: Conn, ghost n: nat) returns (messages: seq<Request>)
    requires parser.Valid() && parser.Ref() == goal && Smooth(parser.cfg, n, goal) && n <= |parser.Emitted()|
    requires parser.maxMsgQueueSize > 0 ==> parser.msgInFlight <= parser.maxMsgQueueSize
    requires parser.payloadParser == null ==> !parser.QueueFull()
    modifies parser, parser.payloadParser, if parser.payloadParser != null then {parser.payloadParser.payload} else {}
    ensures parser.Valid() && (!parser.HoldsBack() ==> parser.UpToDate())
    ensures parser.Ref() == if goal.Dropped? && !parser.HoldsBack() then Resumed(goal) else goal
    ensures parser.Emitted() == old(parser.Emitted()) + messages <= Messages(goal)
    ensures parser.maxMsgQueueSize > 0 ==> parser.msgInFlight <= parser.maxMsgQueueSize
    ensures parser.payloadParser == null || parser.payloadParser == old(parser.payloadParser)
      || (fresh(parser.payloadParser) && fresh(parser.payloadParser.payload))
    ensures messages == [] && parser.HoldsBack() ==> PausesLeft(parser) < old(PausesLeft(parser))
  {
    hide RunHttp, Smooth, Messages, HttpRequestParser.Core, HttpRequestParser.Ref, HttpRequestParser.Valid, Raises,
      OverlongHead, ClosesEarly, HttpRequestParser.UpToDate;
    ghost var k := |parser.Emitted()|;
    RunHttpNothing(parser.cfg, goal);
    if parser.TailTooLong() { TooLongIsNotSmooth(parser, n); }
    SmoothIsEven(parser.cfg, n, goal);
    var r := parser.FeedData("");
    if r.ParserRaised? { SmoothNeverRaises(parser.cfg, n, goal, k, r.error); }
    EmittedIsPrefix(parser);
    if goal.Dropped? { ResumedMessages(goal); }
    return r.messages;
  }

  lemma SmoothIsEven(cfg: Config, n: nat, c: Conn)
    requires Smooth(cfg, n, c)
    ensures cfg.maxLineSize == cfg.maxFieldSize
  {
  }

  lemma TooLongIsNotSmooth(p: HttpRequestParser, n: nat)
    requires p.Valid() && p.TailTooLong()
    ensures !Smooth(p.cfg, n, p.Ref())
  {
    hide RunHttp, PayloadMachine.Run, ClosesEarly;
    p.TooLongIsInBody();
    RunHttpNothing(p.cfg, p.Core());
  }
}

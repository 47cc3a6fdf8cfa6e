/** Inputs on which the outcome of `HttpParser.feed_data` depends on how they are cut into calls: what
    follows a message that closes the connection, a head line of exactly the permitted length, and what
    follows a body error that is swallowed. */
module CutSensitivity {
  import opened ByteStrings
  import opened Headers
  import opened Requests
  import opened PayloadMachine
  import opened HttpMachine
  import opened HttpParser
  import opened WireHeads
  import opened Framing
  import opened WireRoundTrip
  import HeadGrammar

  const GET_LINE: Bytes := "GET / HTTP/1.0"
  const GET: Bytes := GET_LINE + CRLF + CRLF
  const GET_REQUEST := Request("GET", "/", Version(1, 0), [], true, None, false, false)

  lemma GetLineParses(hasScheme: Bytes -> bool)
    ensures ParseRequestLine(GET_LINE, hasScheme) == Ok(RequestLine("GET", "/", Version(1, 0)))
  {
    hide ParseRequestLine, ParseVersion, IsToken, Upper;
    GetVerb();
    ExampleVersion();
    HeadGrammar.RequestLineIff("GET", "/", "HTTP/1.0", hasScheme);
    assert "GET" + " " + ("/" + " " + "HTTP/1.0") == GET_LINE;
  }

  lemma GetVerb()
    ensures IsToken("GET") && Upper("GET") == "GET"
  {
  }

  lemma GetParses(hasScheme: Bytes -> bool)
    ensures ParseMessage([GET_LINE, ""], hasScheme) == Ok(GET_REQUEST) && FrameOf(GET_REQUEST) == Ok(NoBody)
  {
    hide ParseRequestLine, HasListToken, Lower;
    GetLineParses(hasScheme);
    NoTokens("close");
    NoTokens("keep-alive");
    NoTokens("upgrade");
    NothingLowered();
    assert [GET_LINE, ""][1..] == [""];
    assert Parse([""]) == Ok([]);
  }

  /** A request without a body is one more message, and reading goes on behind it. */
  lemma GetIsRead(cfg: Config, log: seq<Entry>, rest: Bytes)
    requires cfg.maxLineSize >= |GET_LINE| && cfg.maxHeaders >= 2
    ensures RunHttp(cfg, Head(log, [], ""), GET + rest) ==
      RunHttp(cfg, Head(log + [Entry(GET_REQUEST, NOTHING)], [], ""), rest)
  {
    hide RunHttp, ParseMessage, FrameOf;
    GetParses(cfg.hasScheme);
    assert GET + rest == GET_LINE + CRLF + ("" + CRLF + rest);
    assert '\r' !in GET_LINE;
    OneLine(cfg, log, [], GET_LINE, "" + CRLF + rest);
    assert [] + [GET_LINE] == [GET_LINE] && [GET_LINE] + [""] == [GET_LINE, ""];
    OneLine(cfg, log, [GET_LINE], "", rest);
  }

  function Gets(n: nat): seq<Entry> { seq(n, i => Entry(GET_REQUEST, NOTHING)) }

  lemma GetsAreRead(cfg: Config)
    requires cfg.maxLineSize >= |GET_LINE| && cfg.maxHeaders >= 2
    ensures RunHttp(cfg, START, GET) == Head(Gets(1), [], "")
    ensures RunHttp(cfg, Head(Gets(1), [], ""), GET) == Head(Gets(2), [], "")
    ensures RunHttp(cfg, START, GET + GET) == Head(Gets(2), [], "")
  {
    hide RunHttp;
    assert [] + [Entry(GET_REQUEST, NOTHING)] == Gets(1) && Gets(1) + [Entry(GET_REQUEST, NOTHING)] == Gets(2);
    assert GET + "" == GET;
    GetIsRead(cfg, [], "");
    GetIsRead(cfg, Gets(1), "");
    GetIsRead(cfg, [], GET);
    RunHttpNothing(cfg, Head(Gets(1), [], ""));
    RunHttpNothing(cfg, Head(Gets(2), [], ""));
  }

  /** Nothing is held back when there is neither a body nor a queue limit. */
  lemma NothingIsHeld(p: HttpRequestParser, n: nat)
    requires p.Valid() && p.maxMsgQueueSize == 0 && p.Ref().Head? && p.Ref().log == Gets(n)
    ensures !p.HoldsBack()
  {
    hide RunHttp;
    EmittedIsPrefix(p);
    if p.payloadParser != null {
      var k := |p.Emitted()| - 1;
      assert p.Emitted()[k] == p.current[0] && Messages(p.Ref())[k] == GET_REQUEST;
      GetParses(p.cfg.hasScheme);
    }
  }

  lemma EarlyIff(n: nat, k: nat)
    ensures ClosesEarly(n, Head(Gets(k), [], "")) <==> n + 1 < k
  {
    var c := Head(Gets(k), [], "");
    if n + 1 < k { assert Messages(c)[n].shouldClose && Past(c, n + 1); }
  }

  /** `GET / HTTP/1.0` closes the connection. A second one after it is an error in the same call ... */
  method ClosingInOneCall(hasScheme: Bytes -> bool) returns (r: ParserResult)
    ensures r == ParserRaised(BadHttpMessage)
  {
    hide RunHttp, ClosesEarly, HttpRequestParser.Valid, HttpRequestParser.Core, HttpRequestParser.Ref,
      HttpRequestParser.UpToDate;
    var cfg := Config(8190, 8190, 128, hasScheme);
    GetsAreRead(cfg);
    EarlyIff(0, 2);
    var parser := new HttpRequestParser(cfg, 0);
    r := parser.FeedData(GET + GET);
    if r.Parsed? { NothingIsHeld(parser, 2); }
  }

  /** ... and a message in the next. */
  method ClosingInTwoCalls(hasScheme: Bytes -> bool) returns (first: ParserResult, second: ParserResult)
    ensures first.Parsed? && first.messages == [GET_REQUEST]
    ensures second.Parsed? && second.messages == [GET_REQUEST]
  {
    hide RunHttp, ClosesEarly, HttpRequestParser.Valid, HttpRequestParser.Core, HttpRequestParser.Ref, Messages, Gets;
    var cfg := Config(8190, 8190, 128, hasScheme);
    GetsAreRead(cfg);
    GetMessages();
    EarlyIff(0, 1);
    EarlyIff(1, 2);
    var parser := new HttpRequestParser(cfg, 0);
    first := parser.FeedData(GET);
    NothingIsHeld(parser, 1);
    second := parser.FeedData(GET);
    NothingIsHeld(parser, 2);
    SameTail([GET_REQUEST], second.messages, [GET_REQUEST]);
  }

  lemma SameTail<T>(front: seq<T>, a: seq<T>, b: seq<T>)
    requires front + a == front + b
    ensures a == b
  {
    assert (front + a)[|front|..] == a && (front + b)[|front|..] == b;
  }

  lemma GetMessages()
    ensures Messages(Head(Gets(1), [], "")) == [GET_REQUEST]
    ensures Messages(Head(Gets(2), [], "")) == [GET_REQUEST, GET_REQUEST] == [GET_REQUEST] + [GET_REQUEST]
  {
  }

  // ---- a line of exactly the permitted length ----------------------------------------------------

  /** A permitted head line is taken for an overlong one exactly when it is as long as permitted and the
      cut is between its CR and its LF. */
  lemma CutLineIsOverlongIff(cfg: Config, log: seq<Entry>, before: seq<Bytes>, line: Bytes, p: Bytes)
    requires '\r' !in line && |line| <= cfg.maxLineSize && p <= line + CRLF && p != line + CRLF
    ensures OverlongHead(cfg, RunHttp(cfg, Head(log, before, ""), p)) <==>
      |line| == cfg.maxLineSize && p == line + "\r"
  {
    hide RunHttp;
    PartOfLine(cfg, log, before, line, p);
    if |p| == |line| + 1 { assert p == (line + CRLF)[..|p|] == line + "\r"; }
  }

  lemma NothingIsEarly(text: Bytes)
    ensures !ClosesEarly(0, Head([], [], text)) && Gets(0) == []
  {
  }

  /** Where `GET / HTTP/1.0` is as long as a line may be, the request is a message in one call ... */
  method ExactLineInOneCall(hasScheme: Bytes -> bool) returns (r: ParserResult)
    ensures r.Parsed? && r.messages == [GET_REQUEST]
  {
    hide RunHttp, ClosesEarly, HttpRequestParser.Valid, HttpRequestParser.Core, HttpRequestParser.Ref, Messages, Gets;
    var cfg := Config(|GET_LINE|, |GET_LINE|, 2, hasScheme);
    GetsAreRead(cfg);
    GetMessages();
    EarlyIff(0, 1);
    var parser := new HttpRequestParser(cfg, 0);
    r := parser.FeedData(GET);
    NothingIsHeld(parser, 1);
    SameTail([], r.messages, [GET_REQUEST]);
  }

  /** ... and an error as soon as it is cut between its CR and its LF. */
  method ExactLineCutInItsEnd(hasScheme: Bytes -> bool) returns (r: ParserResult)
    ensures r == ParserRaised(LineTooLong)
  {
    hide RunHttp, ClosesEarly, OverlongHead, HttpRequestParser.Valid, HttpRequestParser.Core, HttpRequestParser.Ref;
    var cfg := Config(|GET_LINE|, |GET_LINE|, 2, hasScheme);
    CutLineIsOverlongIff(cfg, [], [], GET_LINE, GET_LINE + "\r");
    PartOfLine(cfg, [], [], GET_LINE, GET_LINE + "\r");
    NothingIsEarly(GET_LINE + "\r");
    var parser := new HttpRequestParser(cfg, 0);
    r := parser.FeedData(GET_LINE + "\r");
    if r.Parsed? { NothingIsHeld(parser, 0); }
  }

  // ---- a swallowed error -------------------------------------------------------------------------

  /** Feed, and read on until nothing is held back. */
  method FeedAndDrain(parser: HttpRequestParser, data: Bytes, ghost goal: Conn) returns (messages: seq<Request>)
    requires parser.Valid() && parser.maxMsgQueueSize == 0 && !parser.Ref().InBody?
    requires goal == RunHttp(parser.cfg, parser.Ref(), data) && Smooth(parser.cfg, |parser.Emitted()|, goal)
    requires goal.Dropped? ==> Smooth(parser.cfg, |parser.Emitted()|, Resumed(goal)) && !Resumed(goal).Dropped?
    modifies parser, parser.payloadParser, if parser.payloadParser != null then {parser.payloadParser.payload} else {}
    ensures parser.Valid() && parser.Emitted() == old(parser.Emitted()) + messages == Messages(parser.Ref())
    ensures parser.Ref() == if goal.Dropped? then Resumed(goal) else goal
    ensures parser.payloadParser == null || parser.payloadParser == old(parser.payloadParser)
      || (fresh(parser.payloadParser) && fresh(parser.payloadParser.payload))
  {
    hide RunHttp, Smooth, Raises, OverlongHead, ClosesEarly, HttpRequestParser.Valid, HttpRequestParser.Core,
      HttpRequestParser.Ref, HttpRequestParser.Emitted, HttpRequestParser.UpToDate;
    ghost var n := |parser.Emitted()|;
    SmoothIsEven(parser.cfg, n, goal);
    var r := parser.FeedData(data);
    if r.ParserRaised? { SmoothNeverRaises(parser.cfg, n, goal, n, r.error); }
    SmoothLater(parser.cfg, n, parser.Ref(), |parser.Emitted()|);
    var more := Drain(parser);
    messages := r.messages + more;
    if goal.Dropped? { ResumedMessages(goal); }
  }

  const PUT_HEADERS := [CHUNKED_HEADER]
  const PUT: Bytes := Terminated(HeadLines(EXAMPLE_LINE, PUT_HEADERS))
  const LONG: Bytes := "0000000000000000000000000000000"

  lemma LongIsTooLong(lim: Limits, rest: Bytes)
    requires lim.maxLineSize < |LONG|
    ensures PayloadMachine.Run(lim, Line(NOTHING, SizeLine, ""), LONG + CRLF + rest) == Failed(NOTHING, LineTooLong)
  {
    hide PayloadMachine.Run, Find;
    var full := LONG + CRLF + rest;
    assert "" + full == full;
    NoCrlf("");
    assert '\r' !in LONG;
    FirstCrlf(full, |LONG|);
    RunLine(lim, NOTHING, SizeLine, "", full);
    assert full[..|LONG|] == LONG;
    RunAbsorbed(lim, Failed(NOTHING, LineTooLong), full[|LONG| + 2..]);
  }

  /** A chunked request whose first size line is too long: the body error is swallowed. */
  lemma PutIsDropped(cfg: Config, rest: Bytes) returns (m: Request)
    requires cfg.maxLineSize == cfg.maxFieldSize == 30 && cfg.maxHeaders >= 4
    ensures RunHttp(cfg, START, PUT + (LONG + CRLF + rest)) == Dropped([Entry(m, NOTHING)], false)
    ensures MessageOf(cfg, EXAMPLE_LINE, PUT_HEADERS) == Ok(m)
  {
    hide RunHttp, Accepted, Acceptable, WithinLimits, HeadWithin, MessageOf, Terminated, MessageAt, Switches, HeadLines,
      LimitsAfter, PayloadMachine.Run;
    PutIsAccepted(cfg);
    m := MessageAt(cfg, EXAMPLE_LINE, PUT_HEADERS);
    var lim := LimitsAfter(cfg, HeadLines(EXAMPLE_LINE, PUT_HEADERS));
    assert lim.maxLineSize == cfg.maxLineSize by { LineLimitStays(cfg, HeadLines(EXAMPLE_LINE, PUT_HEADERS)); }
    LongIsTooLong(lim, rest);
    FailedBody(cfg, [], EXAMPLE_LINE, PUT_HEADERS, LONG + CRLF + rest, NOTHING, LineTooLong);
    PutIsNoUpgrade();
    assert [] + [Entry(m, NOTHING)] == [Entry(m, NOTHING)];
  }

  lemma PutIsAccepted(cfg: Config)
    requires cfg.maxLineSize == cfg.maxFieldSize == 30 && cfg.maxHeaders >= 4
    ensures Acceptable(cfg, EXAMPLE_LINE, PUT_HEADERS) && Accepted(cfg, EXAMPLE_LINE, PUT_HEADERS)
    ensures HeadWithin(cfg, EXAMPLE_LINE, PUT_HEADERS)
  {
    hide Accepted, HeadWithin;
    AcceptableExample(cfg);
  }

  lemma LineLimitStays(cfg: Config, lines: seq<Bytes>)
    ensures LimitsAfter(cfg, lines).maxLineSize == cfg.maxLineSize
  {
  }

  lemma PutIsNoUpgrade()
    ensures !Switches(PUT_HEADERS)
  {
    hide HasListToken, Lower, Has;
    OnlyHeader(CHUNKED_HEADER, "connection");
  }

  /** After such a request, `GET` in the same call is lost with the error, and in the next one it is a
      message. */
  method SwallowedErrorTakesTheCall(hasScheme: Bytes -> bool) returns (together: seq<Request>, apart: seq<Request>)
    ensures |together| == 1 && apart == together + [GET_REQUEST]
  {
    hide RunHttp, HttpRequestParser.Valid, HttpRequestParser.Core, HttpRequestParser.Ref, Smooth, MessageOf, Messages,
      HttpRequestParser.Emitted;
    var cfg := Config(30, 30, 10, hasScheme);
    ghost var m := PutIsDropped(cfg, GET);
    ghost var m' := PutIsDropped(cfg, "");
    DroppedIsSmooth(cfg, m);
    var one := new HttpRequestParser(cfg, 0);
    together := FeedAndDrain(one, PUT + (LONG + CRLF + GET), Dropped([Entry(m, NOTHING)], false));
    var two := new HttpRequestParser(cfg, 0);
    apart := FeedAndDrain(two, PUT + (LONG + CRLF + ""), Dropped([Entry(m, NOTHING)], false));
    SameTail([], together, [m]);
    SameTail([], apart, [m]);
    ghost var log := [Entry(m, NOTHING)];
    GetIsRead(cfg, log, "");
    assert GET + "" == GET;
    RunHttpNothing(cfg, Head(log + [Entry(GET_REQUEST, NOTHING)], [], ""));
    var more := FeedAndDrain(two, GET, Head(log + [Entry(GET_REQUEST, NOTHING)], [], ""));
    SameTail([m], more, [GET_REQUEST]);
    apart := apart + more;
  }

  lemma DroppedIsSmooth(cfg: Config, m: Request)
    requires cfg.maxLineSize == cfg.maxFieldSize
    ensures var log := [Entry(m, NOTHING)];
      && Smooth(cfg, 0, Dropped(log, false)) && Smooth(cfg, 0, Head(log, [], ""))
      && Smooth(cfg, 1, Head(log + [Entry(GET_REQUEST, NOTHING)], [], ""))
      && Resumed(Dropped(log, false)) == Head(log, [], "")
      && Messages(Head(log, [], "")) == [m]
      && Messages(Head(log + [Entry(GET_REQUEST, NOTHING)], [], "")) == [m] + [GET_REQUEST]
  {
    var log := [Entry(m, NOTHING)];
    assert !ClosesEarly(0, Dropped(log, false)) && !ClosesEarly(0, Head(log, [], ""));
    assert !ClosesEarly(1, Head(log + [Entry(GET_REQUEST, NOTHING)], [], ""));
  }
}

/** How the bytes behind a request head are read, said from the headers alone: which heads are refused,
    and whether a body of declared length, chunks, a tunnel, another protocol or the next request
    follows (lines 400-531 and 578-729 of http_parser.py). */
module Framing {
  import opened ByteStrings
  import opened Headers
  import opened Requests
  import opened PayloadMachine
  import opened PayloadRuns
  import opened HttpMachine
  import opened WireHeads

  // ---- what a head says --------------------------------------------------------------------------

  predicate Lists(hs: seq<Header>, header: Bytes, token: Bytes) {
    Get(hs, header).Some? && HasListToken(Get(hs, header).value, token)
  }

  /** A coding other than `chunked` at the end and only there, or one beside a length. */
  predicate BadCoding(hs: seq<Header>) {
    var te := Get(hs, "transfer-encoding");
    te.Some? && (!ChunkedOnceAndLast(te.value) || Has(hs, "content-length"))
  }

  predicate BadLength(hs: seq<Header>) {
    var length := Get(hs, "content-length");
    length.Some? && !IsNumber(length.value)
  }

  function LineOf(cfg: Config, statusLine: Bytes, hs: seq<Header>): RequestLine
    requires Printable(cfg, statusLine, hs)
  {
    ParseRequestLine(statusLine, cfg.hasScheme).value
  }

  predicate Hostless(line: RequestLine, hs: seq<Header>) { line.version == Version(1, 1) && !Has(hs, "host") }

  predicate Accepted(cfg: Config, statusLine: Bytes, hs: seq<Header>) {
    && Printable(cfg, statusLine, hs) && !BadCoding(hs) && !Hostless(LineOf(cfg, statusLine, hs), hs)
    && !BadLength(hs) && !Has(hs, "sec-websocket-key1")
  }

  /** The declared length; none declares 0. */
  function Declared(hs: seq<Header>): nat
    requires !BadLength(hs)
  {
    match Get(hs, "content-length") case None => 0 case Some(v) => NumberOf(v)
  }

  /** `Connection` lists `upgrade`, and `Upgrade` names a protocol that can be switched to. */
  predicate Switches(hs: seq<Header>) {
    && Lists(hs, "connection", "upgrade")
    && Get(hs, "upgrade").Some? && Lower(Get(hs, "upgrade").value) in {"tcp", "websocket"}
  }

  /** HTTP/1.0 closes unless asked to stay, later versions stay unless asked to close. */
  predicate Closes(line: RequestLine, hs: seq<Header>) {
    || Lists(hs, "connection", "close")
    || (!Lists(hs, "connection", "keep-alive") && (line.version.major == 0 || line.version == Version(1, 0)))
  }

  lemma NoTokens(token: Bytes)
    requires token != ""
    ensures !HasListToken("", token)
  {
    assert Split("", ',') == [""];
    assert Strip("") == "";
  }

  lemma LowerIsAscii(s: Bytes)
    requires IsAscii(Lower(s))
    ensures IsAscii(s)
  {
    forall i | 0 <= i < |s| ensures s[i] < 128 as char { assert Lower(s)[i] == LowerChar(s[i]); }
  }

  lemma SwitchesIff(hs: seq<Header>)
    ensures var conn := Get(hs, "connection");
      Switches(hs) <==>
        && HasListToken(if conn.Some? then conn.value else "", "upgrade")
        && Get(hs, "upgrade").Some? && Get(hs, "upgrade").value != "" && SupportedUpgrade(hs)
  {
    hide HasListToken, Lower, IsAscii;
    NoTokens("upgrade");
    if Get(hs, "upgrade").Some? && Lower(Get(hs, "upgrade").value) in {"tcp", "websocket"} {
      ProtocolsAreAscii();
      LowerIsAscii(Get(hs, "upgrade").value);
      NothingLowered();
    }
  }

  lemma ProtocolsAreAscii()
    ensures IsAscii("tcp") && IsAscii("websocket")
  {
  }

  lemma HeadParts(statusLine: Bytes, hs: seq<Header>)
    requires Parsable(hs, []) && AllSafe(statusLine, hs)
    ensures HeadLines(statusLine, hs)[0] == statusLine && Parse(HeadLines(statusLine, hs)[1..]) == Ok(hs)
  {
    hide Parsable, Parse;
    HeaderRoundTrip(hs);
    assert HeadLines(statusLine, hs)[1..] == HeaderLines(hs) + [""];
  }

  /** What `parse_message` makes of a printed head. */
  lemma MessageFacts(cfg: Config, statusLine: Bytes, hs: seq<Header>)
    requires Printable(cfg, statusLine, hs)
    ensures var r, line := MessageOf(cfg, statusLine, hs), LineOf(cfg, statusLine, hs);
      if BadCoding(hs) || Hostless(line, hs) then r == Err(BadHttpMessage)
      else
        && r.Ok? && r.value.headers == hs
        && RequestLine(r.value.verb, r.value.path, r.value.version) == line
        && (r.value.chunked <==> Has(hs, "transfer-encoding"))
        && (r.value.shouldClose <==> Closes(line, hs))
        && (r.value.upgrade && SupportedUpgrade(hs) <==> Switches(hs))
        && r.value.compression == Compressed(hs)
  {
    hide ParseRequestLine, Parse, Parsable, AllSafe, HasListToken, ChunkedOnceAndLast, SupportedUpgrade, Lower, IsAscii,
      Switches;
    HeadParts(statusLine, hs);
    NoTokens("close");
    NoTokens("keep-alive");
    SwitchesIff(hs);
    GetSomeIffHas(hs, "transfer-encoding");
    PlainIsUncompressed();
  }

  /** The coding of the content, if it is one that can be undone. */
  function Compressed(hs: seq<Header>): Option<Bytes> {
    match Get(hs, "content-encoding")
    case None => None
    case Some(v) => if IsAscii(v) && Lower(v) in ["gzip", "deflate", "br", "zstd"] then Some(v) else None
  }

  lemma PlainIsUncompressed()
    ensures Lower("") !in ["gzip", "deflate", "br", "zstd"]
  {
  }

  // ---- what follows it ---------------------------------------------------------------------------

  /** What a head is refused for: its coding, a missing host, its length or the old WebSocket key. */
  lemma HeadIsRefused(cfg: Config, log: seq<Entry>, statusLine: Bytes, hs: seq<Header>, s: Bytes)
    requires Printable(cfg, statusLine, hs) && HeadWithin(cfg, statusLine, hs)
    ensures var c := RunHttp(cfg, Head(log, [], ""), Terminated(HeadLines(statusLine, hs)) + s);
      && (BadCoding(hs) || Hostless(LineOf(cfg, statusLine, hs), hs) ==> c == Broken(log, BadHttpMessage))
      && (!BadCoding(hs) && !Hostless(LineOf(cfg, statusLine, hs), hs) && !Accepted(cfg, statusLine, hs) ==>
            c == Broken(log, InvalidHeader))
  {
    hide RunHttp, Printable, HeadWithin, Terminated, ParseMessage, Switches, Closes, BadCoding, Hostless, Compressed,
      SupportedUpgrade;
    RunPrintedHead(cfg, log, statusLine, hs, s);
    MessageFacts(cfg, statusLine, hs);
    var c := HeadDone(cfg, log, HeadLines(statusLine, hs));
    if c.Broken? { RunHttpStopped(cfg, c, s); }
  }

  /** The message of an accepted head. */
  function MessageAt(cfg: Config, statusLine: Bytes, hs: seq<Header>): (m: Request)
    requires Accepted(cfg, statusLine, hs)
    ensures m.headers == hs && MessageOf(cfg, statusLine, hs) == Ok(m)
    ensures RequestLine(m.verb, m.path, m.version) == LineOf(cfg, statusLine, hs)
    ensures m.shouldClose <==> Closes(LineOf(cfg, statusLine, hs), hs)
  {
    hide Closes, MessageOf;
    MessageFacts(cfg, statusLine, hs);
    MessageOf(cfg, statusLine, hs).value
  }

  /** The connection right behind an accepted head, by what the head says. */
  function Behind(cfg: Config, log: seq<Entry>, statusLine: Bytes, hs: seq<Header>): Conn
    requires Accepted(cfg, statusLine, hs)
  {
    var m, lim := MessageAt(cfg, statusLine, hs), LimitsAfter(cfg, HeadLines(statusLine, hs));
    if Has(hs, "transfer-encoding") && m.verb != "HEAD"
    then InBody(log, m, lim, Line(NOTHING, SizeLine, ""), Switches(hs))
    else if Declared(hs) > 0 && m.verb != "HEAD" then InBody(log, m, lim, Length(NOTHING, Declared(hs)), Switches(hs))
    else if m.verb == "CONNECT" then InBody(log, m, lim, UntilEof(NOTHING), false)
    else AfterBody(log + [Entry(m, NOTHING)], Switches(hs))
  }

  lemma RunAccepted(cfg: Config, log: seq<Entry>, statusLine: Bytes, hs: seq<Header>, s: Bytes)
    requires Accepted(cfg, statusLine, hs) && HeadWithin(cfg, statusLine, hs)
    ensures RunHttp(cfg, Head(log, [], ""), Terminated(HeadLines(statusLine, hs)) + s) ==
      RunHttp(cfg, Behind(cfg, log, statusLine, hs), s)
  {
    hide RunHttp, Printable, HeadWithin, Terminated, ParseMessage, Switches, Closes, Hostless, Compressed, BadLength,
      SupportedUpgrade, IsNumber, NumberOf;
    RunPrintedHead(cfg, log, statusLine, hs, s);
    MessageFacts(cfg, statusLine, hs);
    GetSomeIffHas(hs, "content-length");
    GetSomeIffHas(hs, "transfer-encoding");
    assert Get(hs, "content-length").Some? ==> IsNumber(Get(hs, "content-length").value) by { LengthIsNumber(hs); }
  }

  lemma LengthIsNumber(hs: seq<Header>)
    requires !BadLength(hs)
    ensures Get(hs, "content-length").Some? ==> IsNumber(Get(hs, "content-length").value)
  {
  }

  /** Without a coding and a length, and to HEAD in any case, the next request follows, or what comes is
      for the protocol that is switched to. */
  lemma NothingFollows(cfg: Config, log: seq<Entry>, statusLine: Bytes, hs: seq<Header>, s: Bytes)
    requires Accepted(cfg, statusLine, hs) && HeadWithin(cfg, statusLine, hs)
    requires LineOf(cfg, statusLine, hs).verb == "HEAD" ||
      (!Has(hs, "transfer-encoding") && Declared(hs) == 0 && LineOf(cfg, statusLine, hs).verb != "CONNECT")
    ensures var log' := log + [Entry(MessageAt(cfg, statusLine, hs), NOTHING)];
      RunHttp(cfg, Head(log, [], ""), Terminated(HeadLines(statusLine, hs)) + s) ==
      if Switches(hs) then Switched(log', s) else RunHttp(cfg, Head(log', [], ""), s)
  {
    hide RunHttp, Accepted, HeadWithin, Terminated, Switches, MessageAt;
    RunAccepted(cfg, log, statusLine, hs, s);
    RunHttpStopped(cfg, Switched(log + [Entry(MessageAt(cfg, statusLine, hs), NOTHING)], ""), s);
    assert "" + s == s;
  }

  /** A declared length is that of the body, whatever the bytes are; reading goes on right behind it. */
  lemma LengthFollows(cfg: Config, log: seq<Entry>, statusLine: Bytes, hs: seq<Header>, body: Bytes, s: Bytes)
    requires Accepted(cfg, statusLine, hs) && HeadWithin(cfg, statusLine, hs)
    requires !Has(hs, "transfer-encoding") && Declared(hs) == |body| > 0 && LineOf(cfg, statusLine, hs).verb != "HEAD"
    ensures var log' := log + [Entry(MessageAt(cfg, statusLine, hs), Delivery(body, [], [], true))];
      RunHttp(cfg, Head(log, [], ""), Terminated(HeadLines(statusLine, hs)) + (body + s)) ==
      if Switches(hs) then Switched(log', s) else RunHttp(cfg, Head(log', [], ""), s)
  {
    hide RunHttp, Run, Accepted, HeadWithin, Terminated, Switches, MessageAt;
    RunAccepted(cfg, log, statusLine, hs, body + s);
    var b := Behind(cfg, log, statusLine, hs);
    RunInBody(cfg, log, b.request, b.lim, b.body, b.thenUpgrade, body + s);
    RunLength(b.lim, NOTHING, |body|, body + s);
    assert (body + s)[..|body|] == body && (body + s)[|body|..] == s && "" + body == body;
    RunHttpStopped(cfg, Switched(log + [Entry(b.request, Delivery(body, [], [], true))], ""), s);
    assert "" + s == s;
  }

  /** Behind CONNECT without a body everything is payload, without end. */
  lemma TunnelFollows(cfg: Config, log: seq<Entry>, statusLine: Bytes, hs: seq<Header>, s: Bytes)
    requires Accepted(cfg, statusLine, hs) && HeadWithin(cfg, statusLine, hs)
    requires !Has(hs, "transfer-encoding") && Declared(hs) == 0 && LineOf(cfg, statusLine, hs).verb == "CONNECT"
    ensures var c := RunHttp(cfg, Head(log, [], ""), Terminated(HeadLines(statusLine, hs)) + s);
      Entries(c) == log + [Entry(MessageAt(cfg, statusLine, hs), Delivery(s, [], [], false))] && c.InBody?
  {
    hide RunHttp, Run, Accepted, HeadWithin, Terminated, Switches, MessageAt;
    RunAccepted(cfg, log, statusLine, hs, s);
    var b := Behind(cfg, log, statusLine, hs);
    RunInBody(cfg, log, b.request, b.lim, b.body, b.thenUpgrade, s);
    RunUntilEof(b.lim, NOTHING, s);
    assert "" + s == s;
  }
}

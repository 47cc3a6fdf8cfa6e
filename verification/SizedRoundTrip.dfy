/** Requests whose body has the declared length, or none: the counterpart of `WireRoundTrip`. */
module SizedRoundTrip {
  import opened ByteStrings
  import opened Headers
  import opened Requests
  import opened PayloadMachine
  import opened PayloadRuns
  import opened HttpMachine
  import opened HttpParser
  import opened WireHeads
  import opened Framing
  import opened WireRoundTrip

  /** The body is as long as the head says; that of HEAD is empty whatever it says, and CONNECT without a
      body opens a tunnel. */
  predicate Fitting(cfg: Config, statusLine: Bytes, hs: seq<Header>, body: Bytes) {
    && Accepted(cfg, statusLine, hs)
    && var verb := LineOf(cfg, statusLine, hs).verb;
      if verb == "HEAD" then body == ""
      else !Has(hs, "transfer-encoding") && Declared(hs) == |body| && (verb == "CONNECT" ==> body != "")
  }

  /** What `Content-Length` declares when it is printed. */
  lemma PrintedLength(hs: seq<Header>, n: nat)
    requires Get(hs, "content-length") == Some(Decimal(n))
    ensures !BadLength(hs) && Declared(hs) == n
  {
    DecimalRoundTrip(n);
  }

  function SizedWire(statusLine: Bytes, hs: seq<Header>, body: Bytes): Bytes {
    Terminated(HeadLines(statusLine, hs)) + body
  }

  /** The body in one delivery without chunks; nothing is delivered when there is none. */
  function SizedEntry(cfg: Config, statusLine: Bytes, hs: seq<Header>, body: Bytes): Entry
    requires Accepted(cfg, statusLine, hs)
  {
    Entry(MessageAt(cfg, statusLine, hs), if body == "" then NOTHING else Delivery(body, [], [], true))
  }

  /** On the reference, such a request is exactly one message with its headers and its body, and reading
      goes on right behind it. */
  lemma BodyRoundTrip(cfg: Config, log: seq<Entry>, statusLine: Bytes, hs: seq<Header>, body: Bytes, rest: Bytes)
    requires Fitting(cfg, statusLine, hs, body) && HeadWithin(cfg, statusLine, hs)
    ensures RunHttp(cfg, Head(log, [], ""), SizedWire(statusLine, hs, body) + rest) ==
      RunHttp(cfg, AfterBody(log + [SizedEntry(cfg, statusLine, hs, body)], Switches(hs)), rest)
  {
    hide RunHttp, Accepted, HeadWithin, Terminated, MessageAt, Switches, HeadLines;
    Assoc(Terminated(HeadLines(statusLine, hs)), body, rest);
    var log' := log + [SizedEntry(cfg, statusLine, hs, body)];
    RunHttpStopped(cfg, Switched(log', ""), rest);
    assert "" + rest == rest;
    if body == "" {
      NothingFollows(cfg, log, statusLine, hs, rest);
    } else {
      LengthFollows(cfg, log, statusLine, hs, body, rest);
    }
  }

  /** Stopping anywhere in it leaves no overlong line. */
  lemma StopInSized(cfg: Config, log: seq<Entry>, statusLine: Bytes, hs: seq<Header>, body: Bytes, p: Bytes)
    requires Fitting(cfg, statusLine, hs, body) && HeadWithin(cfg, statusLine, hs)
    requires p <= SizedWire(statusLine, hs, body)
    ensures var c := RunHttp(cfg, Head(log, [], ""), p);
      !OverlongHead(cfg, c) && !(c.InBody? && Overlong(c.lim, c.body))
  {
    hide RunHttp, Run, HeadWithin, Terminated, MessageAt, Switches, HeadLines, Accepted;
    var head := Terminated(HeadLines(statusLine, hs));
    FittingIsPrintable(cfg, statusLine, hs, body);
    if |p| < |head| {
      assert p == SizedWire(statusLine, hs, body)[..|p|] == head[..|p|];
      StopInHead(cfg, log, statusLine, hs, p);
    } else {
      PrefixBehind(head, body, p);
      var q := p[|head|..];
      if |q| == |body| {
        assert q == body && p == SizedWire(statusLine, hs, body) && p + "" == p;
        BodyRoundTrip(cfg, log, statusLine, hs, body, "");
        RunHttpNothing(cfg, AfterBody(log + [SizedEntry(cfg, statusLine, hs, body)], Switches(hs)));
      } else {
        StopInSizedBody(cfg, log, statusLine, hs, body, q);
      }
    }
  }

  lemma FittingIsPrintable(cfg: Config, statusLine: Bytes, hs: seq<Header>, body: Bytes)
    requires Fitting(cfg, statusLine, hs, body)
    ensures Printable(cfg, statusLine, hs)
  {
  }

  lemma StopInSizedBody(cfg: Config, log: seq<Entry>, statusLine: Bytes, hs: seq<Header>, body: Bytes, q: Bytes)
    requires Fitting(cfg, statusLine, hs, body) && HeadWithin(cfg, statusLine, hs) && |q| < |body|
    ensures var c := RunHttp(cfg, Head(log, [], ""), Terminated(HeadLines(statusLine, hs)) + q);
      c.InBody? && !Overlong(c.lim, c.body)
  {
    hide RunHttp, Run, HeadWithin, Terminated, MessageAt, Switches, HeadLines, Accepted;
    RunAccepted(cfg, log, statusLine, hs, q);
    var b := Behind(cfg, log, statusLine, hs);
    RunInBody(cfg, log, b.request, b.lim, b.body, b.thenUpgrade, q);
    RunLength(b.lim, NOTHING, |body|, q);
  }

  const LENGTH_TWO := Header("content-length", "2")

  lemma ExampleLength()
    ensures Get([LENGTH_TWO], "content-length") == Some(Decimal(2)) && Parsable([LENGTH_TWO], [])
    ensures AllSafe(EXAMPLE_LINE, [LENGTH_TWO])
  {
    hide IsTokenChar;
    assert Decimal(2) == "2";
    assert Lower("content-length") == "content-length" && [LENGTH_TWO][1..] == [];
    LengthIsToken();
  }

  lemma LengthIsToken()
    ensures IsToken("content-length")
  {
  }

  /** There is such a request: `PUT / HTTP/1.0` with two bytes. */
  lemma FittingExample(cfg: Config, body: Bytes)
    requires |body| == 2
    ensures Fitting(cfg, EXAMPLE_LINE, [LENGTH_TWO], body)
  {
    hide ParseRequestLine, Parsable, AllSafe, Has, Decimal;
    ExampleLineParses(cfg.hasScheme);
    ExampleLength();
    PrintedLength([LENGTH_TWO], 2);
    OnlyHeader(LENGTH_TWO, "transfer-encoding");
    OnlyHeader(LENGTH_TWO, "sec-websocket-key1");
  }
}

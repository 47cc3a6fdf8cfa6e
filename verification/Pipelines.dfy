/** Several requests on one connection, chunked or of declared length, from one `StreamWriter` each to
    one `HttpParser`, in any fragments. */
module Pipelines {
  import opened ByteStrings
  import opened Headers
  import opened Requests
  import opened PayloadMachine
  import opened PayloadRuns
  import opened ChunkGrammar
  import opened HttpMachine
  import opened HttpParser
  import opened WireHeads
  import opened Framing
  import opened WireRoundTrip
  import opened SizedRoundTrip
  import HttpWriter

  /** What is printed for one request. */
  datatype Sending =
    | Chunks(statusLine: Bytes, hs: seq<Header>, pieces: seq<Bytes>)
    | Whole(statusLine: Bytes, hs: seq<Header>, body: Bytes)
  {
    function OnWire(): Bytes {
      match this
      case Chunks(_, _, _) => Wire(statusLine, hs, pieces)
      case Whole(_, _, _) => SizedWire(statusLine, hs, body)
    }
  }

  /** The parser accepts it, and all its lines are below the limits. */
  predicate Carried(cfg: Config, m: Sending) {
    match m
    case Chunks(statusLine, hs, pieces) =>
      Acceptable(cfg, statusLine, hs) && WithinLimits(cfg, statusLine, hs, pieces) && AllNonEmpty(pieces)
    case Whole(statusLine, hs, body) => Fitting(cfg, statusLine, hs, body) && HeadWithin(cfg, statusLine, hs)
  }

  lemma CarriedHead(cfg: Config, m: Sending)
    requires Carried(cfg, m)
    ensures Accepted(cfg, m.statusLine, m.hs) && HeadWithin(cfg, m.statusLine, m.hs)
  {
    hide Accepted, HeadWithin;
  }

  lemma CarriedIsSafe(cfg: Config, m: Sending)
    requires Carried(cfg, m)
    ensures AllSafe(m.statusLine, m.hs) && cfg.maxLineSize == cfg.maxFieldSize
  {
    CarriedHead(cfg, m);
  }

  function Wires(ms: seq<Sending>): Bytes { if ms == [] then "" else ms[0].OnWire() + Wires(ms[1..]) }

  /** No message but the last closes the connection or hands it over. */
  predicate Pipelined(cfg: Config, ms: seq<Sending>) {
    (forall i :: 0 <= i < |ms| ==> Carried(cfg, ms[i])) && forall i :: 0 <= i < |ms| - 1 ==> GoesOn(cfg, ms[i])
  }

  predicate GoesOn(cfg: Config, m: Sending) {
    Carried(cfg, m) && !Switches(m.hs) && !MessageFor(cfg, m).shouldClose
  }

  /** The message the head stands for. */
  function MessageFor(cfg: Config, m: Sending): (r: Request)
    requires Carried(cfg, m)
    ensures r.headers == m.hs
  {
    CarriedHead(cfg, m);
    MessageAt(cfg, m.statusLine, m.hs)
  }

  /** What is received of it: the chunks, or the body in one. */
  function EntryOf(cfg: Config, m: Sending): (e: Entry)
    requires Carried(cfg, m)
    ensures e.request == MessageFor(cfg, m)
  {
    match m
    case Chunks(statusLine, hs, pieces) => Received(cfg, statusLine, hs, pieces)
    case Whole(statusLine, hs, body) => SizedEntry(cfg, statusLine, hs, body)
  }

  /** One request, and what follows it. */
  lemma RunOne(cfg: Config, log: seq<Entry>, m: Sending, rest: Bytes)
    requires Carried(cfg, m)
    ensures RunHttp(cfg, Head(log, [], ""), m.OnWire() + rest) ==
      RunHttp(cfg, AfterBody(log + [EntryOf(cfg, m)], Switches(m.hs)), rest)
  {
    hide RunHttp, Acceptable, WithinLimits, Fitting, HeadWithin, Wire, SizedWire, Switches, AfterBody;
    match m
    case Chunks(statusLine, hs, pieces) => ChunksRoundTrip(cfg, log, statusLine, hs, pieces, rest);
    case Whole(statusLine, hs, body) => BodyRoundTrip(cfg, log, statusLine, hs, body, rest);
  }

  lemma StopInOne(cfg: Config, log: seq<Entry>, m: Sending, p: Bytes)
    requires Carried(cfg, m) && p <= m.OnWire()
    ensures var c := RunHttp(cfg, Head(log, [], ""), p);
      !OverlongHead(cfg, c) && !(c.InBody? && Overlong(c.lim, c.body))
  {
    hide RunHttp, Acceptable, WithinLimits, Fitting, HeadWithin, Wire, SizedWire, OverlongHead, Overlong;
    match m
    case Chunks(statusLine, hs, pieces) => StopInWire(cfg, log, statusLine, hs, pieces, p);
    case Whole(statusLine, hs, body) => StopInSized(cfg, log, statusLine, hs, body, p);
  }

  function ReceivedAll(cfg: Config, ms: seq<Sending>): (es: seq<Entry>)
    requires Pipelined(cfg, ms)
    ensures |es| == |ms|
  {
    seq(|ms|, i requires 0 <= i < |ms| => EntryOf(cfg, ms[i]))
  }

  /** The connection after these messages. */
  function EndOf(cfg: Config, log: seq<Entry>, ms: seq<Sending>): Conn
    requires Pipelined(cfg, ms)
  {
    if ms == [] then Head(log, [], "")
    else AfterBody(log + ReceivedAll(cfg, ms), Switches(ms[|ms| - 1].hs))
  }

  lemma PipelinedRest(cfg: Config, ms: seq<Sending>)
    requires Pipelined(cfg, ms) && ms != []
    ensures Pipelined(cfg, ms[1..]) && ReceivedAll(cfg, ms) == [EntryOf(cfg, ms[0])] + ReceivedAll(cfg, ms[1..])
  {
    hide Carried, GoesOn, EntryOf, MessageFor, Switches;
    RestIsPipelined(cfg, ms);
  }

  lemma RestIsPipelined(cfg: Config, ms: seq<Sending>)
    requires Pipelined(cfg, ms) && ms != []
    ensures Pipelined(cfg, ms[1..])
  {
    hide Carried, GoesOn;
    forall i | 0 <= i < |ms[1..]| ensures Carried(cfg, ms[1..][i]) { assert ms[1..][i] == ms[i + 1]; }
    forall i | 0 <= i < |ms[1..]| - 1 ensures GoesOn(cfg, ms[1..][i]) { assert ms[1..][i] == ms[i + 1]; }
  }

  /** One message, and what follows it. */
  lemma FirstOfPipeline(cfg: Config, log: seq<Entry>, ms: seq<Sending>, rest: Bytes)
    requires Pipelined(cfg, ms) && |ms| > 1
    ensures RunHttp(cfg, Head(log, [], ""), ms[0].OnWire() + rest) ==
      RunHttp(cfg, Head(log + [EntryOf(cfg, ms[0])], [], ""), rest)
  {
    hide RunHttp, Carried, EntryOf, MessageFor, Sending.OnWire, Switches;
    RunOne(cfg, log, ms[0], rest);
    assert GoesOn(cfg, ms[0]);
  }

  /** Pipelined messages are read one after the other, each as it was printed. */
  lemma {:induction false} PipelineRoundTrip(cfg: Config, log: seq<Entry>, ms: seq<Sending>, rest: Bytes)
    requires Pipelined(cfg, ms)
    ensures RunHttp(cfg, Head(log, [], ""), Wires(ms) + rest) == RunHttp(cfg, EndOf(cfg, log, ms), rest)
    decreases |ms|
  {
    hide RunHttp, Carried, GoesOn, EntryOf, Switches, AfterBody, ReceivedAll, Sending.OnWire, MessageFor;
    if ms == [] {
      assert "" + rest == rest;
    } else {
      PipelinedRest(cfg, ms);
      Assoc(ms[0].OnWire(), Wires(ms[1..]), rest);
      if |ms| == 1 {
        LastOfPipeline(cfg, log, ms, rest);
      } else {
        FirstOfPipeline(cfg, log, ms, Wires(ms[1..]) + rest);
        PipelineRoundTrip(cfg, log + [EntryOf(cfg, ms[0])], ms[1..], rest);
        Assoc(log, [EntryOf(cfg, ms[0])], ReceivedAll(cfg, ms[1..]));
      }
    }
  }

  lemma LastOfPipeline(cfg: Config, log: seq<Entry>, ms: seq<Sending>, rest: Bytes)
    requires Pipelined(cfg, ms) && |ms| == 1
    ensures Wires(ms) == ms[0].OnWire()
    ensures RunHttp(cfg, Head(log, [], ""), Wires(ms) + rest) == RunHttp(cfg, EndOf(cfg, log, ms), rest)
  {
    hide RunHttp, Carried, EntryOf, MessageFor, Sending.OnWire, Switches;
    assert ms[1..] == [];
    assert ms[0].OnWire() + "" == ms[0].OnWire();
    RunOne(cfg, log, ms[0], rest);
    assert ReceivedAll(cfg, ms) == [EntryOf(cfg, ms[0])];
  }

  lemma {:induction false} StopInWires(cfg: Config, log: seq<Entry>, ms: seq<Sending>, p: Bytes)
    requires Pipelined(cfg, ms) && p <= Wires(ms)
    ensures var c := RunHttp(cfg, Head(log, [], ""), p);
      !OverlongHead(cfg, c) && !(c.InBody? && Overlong(c.lim, c.body))
    decreases |ms|
  {
    hide RunHttp, GoesOn, EntryOf, Overlong, Carried, Sending.OnWire;
    if ms == [] {
      RunHttpNothing(cfg, Head(log, [], ""));
    } else {
      var first := ms[0].OnWire();
      if |p| <= |first| {
        assert p == Wires(ms)[..|p|] == first[..|p|];
        StopInOne(cfg, log, ms[0], p);
      } else {
        var q := p[|first|..];
        assert p[..|first|] == Wires(ms)[..|first|] == first && p == first + q;
        assert q == Wires(ms)[|first|..][..|q|];
        if |ms| == 1 { LastOfPipeline(cfg, log, ms, ""); }
        FirstOfPipeline(cfg, log, ms, q);
        PipelinedRest(cfg, ms);
        StopInWires(cfg, log + [EntryOf(cfg, ms[0])], ms[1..], q);
      }
    }
  }

  lemma EndIsFinal(cfg: Config, ms: seq<Sending>)
    requires Pipelined(cfg, ms)
    ensures var end := RunHttp(cfg, START, Wires(ms));
      && end == EndOf(cfg, [], ms)
      && !end.Broken? && !end.Dropped? && !Past(end, |ms|) && Messages(end) == RequestsOf(ReceivedAll(cfg, ms))
  {
    hide RunHttp, Carried, GoesOn, EntryOf, Switches, ReceivedAll;
    PipelineRoundTrip(cfg, [], ms, "");
    assert Wires(ms) + "" == Wires(ms) && [] + ReceivedAll(cfg, ms) == ReceivedAll(cfg, ms);
    RunHttpNothing(cfg, EndOf(cfg, [], ms));
  }

  /** A message that closes is the last one, so nothing comes after it. */
  lemma OnlyLastCloses(cfg: Config, ms: seq<Sending>, i: nat)
    requires Pipelined(cfg, ms) && i < |ms| && RequestsOf(ReceivedAll(cfg, ms))[i].shouldClose
    ensures i == |ms| - 1
  {
    hide Carried, Switches;
    assert i < |ms| - 1 ==> GoesOn(cfg, ms[i]);
  }

  /** A cut after `p` leaves the connection in a state from which the outcome does not depend on
      the cut. */
  predicate Quiet(cfg: Config, c: Conn) {
    && !c.Broken? && !c.Dropped? && !OverlongHead(cfg, c) && !(c.InBody? && Overlong(c.lim, c.body)) &&
      !ClosesEarly(0, c)
  }

  /** No cut of printed messages falls where the outcome depends on it. */
  lemma CutIsQuiet(cfg: Config, ms: seq<Sending>, p: Bytes)
    requires Pipelined(cfg, ms) && p <= Wires(ms)
    ensures Quiet(cfg, RunHttp(cfg, START, p))
  {
    hide RunHttp, OverlongHead, Overlong, Past, Messages, Pipelined, ReceivedAll, EndOf, Wires;
    StopInWires(cfg, [], ms, p);
    var c, more := RunHttp(cfg, START, p), Wires(ms)[|p|..];
    assert p + more == Wires(ms);
    RunHttpAppend(cfg, START, p, more);
    EndIsFinal(cfg, ms);
    if c.Broken? || c.Dropped? { RunHttpStopped(cfg, c, more); }
    RunHttpMessages(cfg, c, more);
    if ClosesEarly(0, c) {
      var i :| 0 <= i < |Messages(c)| && Messages(c)[i].shouldClose && Past(c, i + 1);
      RunHttpPast(cfg, c, more, i + 1);
      OnlyLastCloses(cfg, ms, i);
    }
  }

  // ---- the writer and the parser -----------------------------------------------------------

  lemma FragmentsAreRegular(cfg: Config, ms: seq<Sending>, fragments: seq<Bytes>)
    requires Pipelined(cfg, ms) && Concat(fragments) == Wires(ms)
    ensures ms != [] ==> RegularCuts(cfg, fragments)
    ensures forall i :: 0 <= i <= |fragments| ==> Quiet(cfg, After(cfg, fragments, i))
  {
    hide RunHttp, Quiet, Pipelined, Wires, Regular;
    forall i | 0 <= i <= |fragments| ensures Quiet(cfg, After(cfg, fragments, i)) {
      assert fragments == fragments[..i] + fragments[i..];
      ConcatAppend(fragments[..i], fragments[i..]);
      CutIsQuiet(cfg, ms, Concat(fragments[..i]));
    }
    if ms != [] {
      PipelinedLimits(cfg, ms);
      forall i | 0 <= i < |fragments| ensures Regular(cfg, After(cfg, fragments, i), After(cfg, fragments, i + 1)) {
        QuietIsRegular(cfg, After(cfg, fragments, i), After(cfg, fragments, i + 1));
      }
    }
  }

  lemma QuietIsRegular(cfg: Config, before: Conn, after: Conn)
    requires Quiet(cfg, before) && Quiet(cfg, after) && cfg.maxLineSize == cfg.maxFieldSize
    ensures Regular(cfg, before, after)
  {
  }

  lemma {:induction false} NonEmptyPieces(pieces: seq<Bytes>)
    ensures AllNonEmpty(HttpWriter.NonEmpty(pieces)) && Concat(HttpWriter.NonEmpty(pieces)) == Concat(pieces)
  {
    if pieces != [] {
      var front, last := pieces[..|pieces| - 1], pieces[|pieces| - 1];
      NonEmptyPieces(front);
      assert pieces == front + [last];
      ConcatSnoc(front, last);
      ConcatSnoc(HttpWriter.NonEmpty(front), last);
      assert last == "" ==> HttpWriter.NonEmpty(pieces) == HttpWriter.NonEmpty(front);
    }
  }

  /** The plain message of the writer is the wire form the parser is proved on. */
  lemma PlainIsWire(statusLine: Bytes, hs: seq<Header>, chunked: bool, pieces: seq<Bytes>)
    requires AllSafe(statusLine, hs) && hs != []
    ensures HttpWriter.PlainMessage(Serialize(statusLine, hs).value, chunked, pieces) ==
      if chunked then Wire(statusLine, hs, HttpWriter.NonEmpty(pieces)) else SizedWire(statusLine, hs, Concat(pieces))
  {
    hide AllSafe, Terminated, EncodeChunks, HeadLines, Concat;
    SerializedLines(statusLine, hs);
    assert Terminated(HeadLines(statusLine, hs)) + "" == Terminated(HeadLines(statusLine, hs));
    assert HeadLines(statusLine, hs) == [statusLine] + HeaderLines(hs) + [""] by { LinesAre(statusLine, hs); }
    Assoc(Terminated(HeadLines(statusLine, hs)), EncodeChunks(HttpWriter.NonEmpty(pieces)), LAST_CHUNK);
    assert SizedWire(statusLine, hs, Concat(pieces)) + "" == SizedWire(statusLine, hs, Concat(pieces));
  }

  lemma LinesAre(statusLine: Bytes, hs: seq<Header>)
    ensures HeadLines(statusLine, hs) == [statusLine] + HeaderLines(hs) + [""]
  {
  }

  lemma QuietIsSmooth(cfg: Config, c: Conn)
    requires Quiet(cfg, c) && cfg.maxLineSize == cfg.maxFieldSize
    ensures Smooth(cfg, 0, c)
  {
  }

  /** The bytes of pipelined messages in any fragments, with `consumed[i]` messages taken from the queue
      after fragment `i`; then the queue is emptied and what the parser held back is read. */
  method ReceiveAll(parser: HttpRequestParser, ghost ms: seq<Sending>, fragments: seq<Bytes>, consumed: seq<nat>)
    returns (messages: seq<Request>)
    requires parser.Valid() && parser.Ref() == START && parser.Emitted() == [] && parser.payloadParser == null
    requires parser.msgInFlight == 0 && ms != [] && Pipelined(parser.cfg, ms) && Concat(fragments) == Wires(ms)
    modifies parser
    ensures parser.Valid() && parser.Ref() == EndOf(parser.cfg, [], ms) && !parser.HoldsBack()
    ensures messages == RequestsOf(ReceivedAll(parser.cfg, ms)) && parser.log == ReceivedAll(parser.cfg, ms)
  {
    hide RunHttp, Pipelined, Quiet, RegularCuts, OverlongHead, Messages, ReceivedAll, EndOf, Smooth, Raises;
    WiresNotEmpty(ms);
    FragmentsAreRegular(parser.cfg, ms, fragments);
    PipelinedLimits(parser.cfg, ms);
    var raised, used;
    messages, raised, used := ParseFragments(parser, fragments, consumed);
    ghost var c := After(parser.cfg, fragments, used);
    QuietIsSmooth(parser.cfg, c);
    if raised.Some? { SmoothNeverRaises(parser.cfg, 0, c, 0, raised.value); }
    assert fragments[..used] == fragments;
    EndIsFinal(parser.cfg, ms);
    EndIsOpen(parser.cfg, ms);
    SmoothLater(parser.cfg, 0, c, |parser.Emitted()|);
    var more := Drain(parser);
    messages := messages + more;
    NoBodyLeft(parser);
  }

  lemma PipelinedLimits(cfg: Config, ms: seq<Sending>)
    requires ms != [] && Pipelined(cfg, ms)
    ensures cfg.maxLineSize == cfg.maxFieldSize
  {
    hide Carried, GoesOn;
    CarriedIsSafe(cfg, ms[0]);
  }

  /** What is asked of the writer for one message, and what that puts on the wire: chunks, or the body as
      it is, cut to a declared length. */
  datatype Outgoing = Outgoing(statusLine: Bytes, hs: seq<Header>, chunked: bool, length: Option<nat>,
    pieces: seq<Bytes>, ending: HttpWriter.Ending)
  {
    function Body(): seq<Bytes> { HttpWriter.BodyPieces(length, pieces, ending) }

    function Sent(): Sending {
      if chunked then Chunks(statusLine, hs, HttpWriter.NonEmpty(Body())) else Whole(statusLine, hs, Concat(Body()))
    }
  }

  /** End to end: what `StreamWriter` puts on the wire for a request with chunks or with a declared length,
      whichever way the message is ended and however its pieces are coalesced, is read by `HttpParser`
      from any fragments, whatever its queue limit, whenever messages are consumed and however the
      payload pauses, as exactly one message with the same header pairs, whose body is the
      concatenation of the pieces. */
  method SendAndReceive(cfg: Config, queueLimit: nat, skipWritelines: bool, o: Outgoing, fragments: seq<Bytes>,
                        consumed: seq<nat>)
    returns (sent: Bytes, messages: seq<Request>, parser: HttpRequestParser)
    requires Carried(cfg, o.Sent()) && o.hs != []
    ensures fresh(parser)
    ensures var received := EntryOf(cfg, o.Sent());
      Concat(fragments) == sent ==>
        && messages == [received.request] && received.request.headers == o.hs
        && parser.log == [received] && received.body.data == Concat(o.Body())
        && parser.Valid() && parser.Ref() == AfterBody([received], Switches(o.hs)) && !parser.HoldsBack()
  {
    hide RunHttp, Carried, EntryOf, MessageFor, Sending.OnWire, Switches, Outgoing.Sent, Outgoing.Body, AllSafe, Wires;
    ghost var m := o.Sent();
    SentFor(o);
    CarriedIsSafe(cfg, m);
    sent := SendAll(skipWritelines, [o]);
    parser := new HttpRequestParser(cfg, queueLimit);
    messages := [];
    if Concat(fragments) != sent { return; }
    OneSending(cfg, m);
    BodyOf(cfg, o);
    assert AllSent([o]) == [m];
    messages := ReceiveAll(parser, [m], fragments, consumed);
  }

  lemma SentFor(o: Outgoing)
    ensures o.Sent().statusLine == o.statusLine && o.Sent().hs == o.hs
  {
  }

  /** The body that is received is the one that was written. */
  lemma BodyOf(cfg: Config, o: Outgoing)
    requires Carried(cfg, o.Sent())
    ensures EntryOf(cfg, o.Sent()).body.data == Concat(o.Body())
  {
    hide Acceptable, WithinLimits, Fitting, HeadWithin, DeliverPieces, MessageAt;
    NonEmptyPieces(o.Body());
    if o.chunked {
      DeliveredData(NOTHING, HttpWriter.NonEmpty(o.Body()));
      assert "" + Concat(o.Body()) == Concat(o.Body());
    }
  }

  lemma OneSending(cfg: Config, m: Sending)
    requires Carried(cfg, m)
    ensures Pipelined(cfg, [m]) && Wires([m]) == m.OnWire()
    ensures ReceivedAll(cfg, [m]) == [EntryOf(cfg, m)] && RequestsOf([EntryOf(cfg, m)]) == [EntryOf(cfg, m).request]
    ensures EndOf(cfg, [], [m]) == AfterBody([EntryOf(cfg, m)], Switches(m.hs))
  {
    hide Carried, GoesOn, Switches, AfterBody, EntryOf, MessageFor, Sending.OnWire;
    assert [m][1..] == [] && m.OnWire() + "" == m.OnWire();
    assert [] + ReceivedAll(cfg, [m]) == ReceivedAll(cfg, [m]) == [EntryOf(cfg, m)];
  }

  function AllSent(outs: seq<Outgoing>): seq<Sending> { seq(|outs|, i requires 0 <= i < |outs| => outs[i].Sent()) }

  lemma {:induction false} WiresSnoc(ms: seq<Sending>, m: Sending)
    ensures Wires(ms + [m]) == Wires(ms) + m.OnWire()
  {
    if ms == [] {
      assert ([] + [m])[1..] == [] && [] + [m] == [m];
    } else {
      assert (ms + [m])[1..] == ms[1..] + [m];
      WiresSnoc(ms[1..], m);
      Assoc(ms[0].OnWire(), Wires(ms[1..]), m.OnWire());
    }
  }

  /** Several messages, one writer each, on the same transport. */
  method SendAll(skipWritelines: bool, outs: seq<Outgoing>) returns (sent: Bytes)
    requires forall i :: 0 <= i < |outs| ==> AllSafe(outs[i].statusLine, outs[i].hs) && outs[i].hs != []
    ensures sent == Wires(AllSent(outs))
  {
    hide AllSafe, Wires, Serialize, HttpWriter.PlainMessage, HttpWriter.BodyPieces, Sending.OnWire, Outgoing.Sent;
    NoWires();
    var transport := new HttpWriter.Transport();
    for i := 0 to |outs|
      invariant fresh(transport) && !transport.closing && transport.written == Wires(AllSent(outs[..i]))
    {
      var o := outs[i];
      var ok := HttpWriter.SendMessage(transport, skipWritelines, o.statusLine, o.hs, o.chunked, o.length, o.pieces,
        o.ending);
      OnWireOf(o);
      assert AllSent(outs[..i + 1]) == AllSent(outs[..i]) + [o.Sent()];
      WiresSnoc(AllSent(outs[..i]), o.Sent());
    }
    assert outs[..|outs|] == outs;
    return transport.written;
  }

  lemma NoWires()
    ensures Wires(AllSent([])) == ""
  {
  }

  lemma OnWireOf(o: Outgoing)
    requires AllSafe(o.statusLine, o.hs) && o.hs != []
    ensures HttpWriter.PlainMessage(Serialize(o.statusLine, o.hs).value, o.chunked,
      HttpWriter.BodyPieces(o.length, o.pieces, o.ending)) == o.Sent().OnWire()
  {
    hide AllSafe, Serialize, HttpWriter.PlainMessage, HttpWriter.BodyPieces, HttpWriter.NonEmpty, Wire, SizedWire;
    PlainIsWire(o.statusLine, o.hs, o.chunked, o.Body());
  }

  lemma PipelinedIsSafe(cfg: Config, outs: seq<Outgoing>)
    requires Pipelined(cfg, AllSent(outs))
    ensures forall i :: 0 <= i < |outs| ==> AllSafe(outs[i].statusLine, outs[i].hs)
  {
    hide Carried, GoesOn, AllSafe, Outgoing.Sent;
    forall i | 0 <= i < |outs| ensures AllSafe(outs[i].statusLine, outs[i].hs) {
      assert Carried(cfg, AllSent(outs)[i]);
      CarriedIsSafe(cfg, outs[i].Sent());
      SentFor(outs[i]);
    }
  }

  /** End to end for pipelined requests: however the bytes of several messages are cut, however often
      reading is interrupted and whenever messages are consumed, each of them is read as it was printed,
      with its body. */
  method SendAndReceiveAll(cfg: Config, queueLimit: nat, skipWritelines: bool, outs: seq<Outgoing>,
    fragments: seq<Bytes>, consumed: seq<nat>)
    returns (sent: Bytes, messages: seq<Request>, parser: HttpRequestParser)
    requires outs != [] && Pipelined(cfg, AllSent(outs)) && forall i :: 0 <= i < |outs| ==> outs[i].hs != []
    ensures fresh(parser)
    ensures var all := ReceivedAll(cfg, AllSent(outs));
      Concat(fragments) == sent ==>
        && messages == RequestsOf(all) && parser.log == all
        && parser.Valid() && parser.Ref() == EndOf(cfg, [], AllSent(outs)) && !parser.HoldsBack()
  {
    hide RunHttp, Pipelined, Quiet, RegularCuts, OverlongHead, Messages, ReceivedAll, EndOf, AllSafe;
    PipelinedIsSafe(cfg, outs);
    sent := SendAll(skipWritelines, outs);
    parser := new HttpRequestParser(cfg, queueLimit);
    messages := [];
    if Concat(fragments) != sent { return; }
    messages := ReceiveAll(parser, AllSent(outs), fragments, consumed);
  }

  lemma WiresNotEmpty(ms: seq<Sending>)
    requires ms != []
    ensures Wires(ms) != ""
  {
    hide Sending.OnWire;
    WireNotEmpty(ms[0]);
  }

  lemma EndIsOpen(cfg: Config, ms: seq<Sending>)
    requires Pipelined(cfg, ms)
    ensures var end := EndOf(cfg, [], ms); (end.Head? || end.Switched?) && end.log == ReceivedAll(cfg, ms)
  {
    hide Switches, Carried, GoesOn, EntryOf;
    assert [] + ReceivedAll(cfg, ms) == ReceivedAll(cfg, ms);
  }

  /** Once the connection is past its bodies, everything is in the log. */
  lemma NoBodyLeft(p: HttpRequestParser)
    requires p.Valid() && !p.HoldsBack() && p.UpToDate() && (p.Ref().Head? || p.Ref().Switched?)
    ensures p.log == p.Ref().log
  {
    hide RunHttp;
    RunHttpNothing(p.cfg, p.Core());
  }

  lemma WireNotEmpty(m: Sending)
    ensures m.OnWire() != ""
  {
  }
}

/** From `StreamWriter` to `HttpParser`: a chunked request printed by the writer is read back as one
    message with the same headers and the same body, and no cut inside it leaves an overlong line. */
module WireRoundTrip {
  import opened ByteStrings
  import Hex
  import opened Headers
  import opened Requests
  import opened PayloadMachine
  import opened PayloadRuns
  import opened ChunkGrammar
  import opened HttpMachine
  import opened HttpParser
  import opened WireHeads
  import opened Framing
  import HeadGrammar

  /** A request that the parser accepts, with the chunked coding and a method that has a body. */
  predicate Acceptable(cfg: Config, statusLine: Bytes, hs: seq<Header>) {
    && Accepted(cfg, statusLine, hs) && Has(hs, "transfer-encoding")
    && LineOf(cfg, statusLine, hs).verb != "HEAD"
  }

  /** Every line stays strictly below the limits, which leave room for one trailer line. */
  predicate WithinLimits(cfg: Config, statusLine: Bytes, hs: seq<Header>, pieces: seq<Bytes>) {
    && HeadWithin(cfg, statusLine, hs) && |hs| + 3 <= cfg.maxHeaders
    && (forall i :: 0 <= i < |pieces| ==> |Hex.ToHex(|pieces[i]|)| < cfg.maxLineSize)
  }

  // ---- the body ----------------------------------------------------------------------------

  /** As `Fits`, but strictly below the limits. */
  predicate FitsStrictly(lim: Limits, pieces: seq<Bytes>) {
    && lim.maxTrailers >= 1 && lim.maxLineSize >= 2 && lim.maxFieldSize >= 1
    && forall i :: 0 <= i < |pieces| ==> pieces[i] != "" && |Hex.ToHex(|pieces[i]|)| < lim.maxLineSize
  }

  lemma PartOfSizeLine(lim: Limits, out: Delivery, line: Bytes, p: Bytes)
    requires '\r' !in line && p <= line + CRLF && |p| < |line| + 2
    ensures Run(lim, Line(out, SizeLine, ""), p) == Line(out, SizeLine, p)
  {
    hide Run, Find;
    assert "" + p == p;
    NoCrlf("");
    forall i | 0 <= i < |p| - 1 ensures p[i] != '\r' || p[i + 1] != '\n' { assert p[i] == line[i]; }
    NoCrlf(p);
    RunLine(lim, out, SizeLine, "", p);
  }

  lemma WholeSizeLine(lim: Limits, out: Delivery, n: nat, s: Bytes)
    requires |Hex.ToHex(n)| <= lim.maxLineSize
    ensures Run(lim, Line(out, SizeLine, ""), Hex.ToHex(n) + CRLF + s) ==
      Run(lim, if n == 0 then Line(out, TrailerLine([]), "") else Data(out.Begin(), n), s)
  {
    hide Run, Find, ChunkSizeOf, Hex.ToHex;
    var line := Hex.ToHex(n);
    var full := line + CRLF + s;
    assert "" + full == full;
    NoCrlf("");
    PrintedSizeLine(lim, n, s);
    RunLine(lim, out, SizeLine, "", full);
    assert full[..|line|] == line && full[|line| + 2..] == s;
  }

  lemma StopInLastChunk(lim: Limits, out: Delivery, p: Bytes)
    requires FitsStrictly(lim, []) && p <= LAST_CHUNK
    ensures !Overlong(lim, Run(lim, Line(out, SizeLine, ""), p))
  {
    hide Run, Find;
    assert Hex.ToHex(0) == "0";
    var first := "0" + CRLF;
    assert LAST_CHUNK == first + CRLF;
    if |p| < 3 {
      assert p == LAST_CHUNK[..|p|] == first[..|p|];
      PartOfSizeLine(lim, out, "0", p);
    } else {
      var q := p[3..];
      assert p[..3] == LAST_CHUNK[..3] == first;
      assert q == LAST_CHUNK[3..][..|q|] == CRLF[..|q|];
      assert p == first + q;
      WholeSizeLine(lim, out, 0, q);
      StopInTrailers(lim, out, q);
    }
  }

  lemma StopInTrailers(lim: Limits, out: Delivery, p: Bytes)
    requires FitsStrictly(lim, []) && p <= CRLF
    ensures !Overlong(lim, Run(lim, Line(out, TrailerLine([]), ""), p))
  {
    hide Run, Find;
    assert "" + p == p;
    NoCrlf("");
    if |p| < 2 {
      NoCrlf(p);
      RunLine(lim, out, TrailerLine([]), "", p);
    } else {
      assert p == CRLF;
      FirstCrlf(p, 0);
      RunLine(lim, out, TrailerLine([]), "", p);
      assert p[..0] == "" && p[2..] == "";
      EmptyTrailer(lim, out);
      RunNothing(lim, Finished(out.Eof(), ""));
    }
  }

  /** Stopping anywhere inside a printed chunked body leaves no overlong partial line. */
  lemma {:induction false} StopInChunks(lim: Limits, out: Delivery, pieces: seq<Bytes>, p: Bytes)
    requires FitsStrictly(lim, pieces) && p <= EncodeChunks(pieces) + LAST_CHUNK
    ensures !Overlong(lim, Run(lim, Line(out, SizeLine, ""), p))
    decreases |pieces|
  {
    hide Run, EncodeChunk, Hex.ToHex, Overlong;
    if pieces == [] {
      assert "" + LAST_CHUNK == LAST_CHUNK;
      StopInLastChunk(lim, out, p);
    } else {
      var tail := EncodeChunks(pieces[1..]) + LAST_CHUNK;
      assert EncodeChunks(pieces) + LAST_CHUNK == EncodeChunk(pieces[0]) + tail;
      var rest := StopInChunk(lim, out, pieces[0], tail, p);
      if rest.Some? {
        StopInChunks(lim, out.Begin().Add(pieces[0]).End(), pieces[1..], rest.value);
      }
    }
  }

  /** One chunk: either the input stops inside it, or the run goes on behind it. */
  lemma StopInChunk(lim: Limits, out: Delivery, piece: Bytes, tail: Bytes, p: Bytes) returns (rest: Option<Bytes>)
    requires piece != "" && |Hex.ToHex(|piece|)| < lim.maxLineSize && p <= EncodeChunk(piece) + tail
    ensures rest.None? ==> !Overlong(lim, Run(lim, Line(out, SizeLine, ""), p))
    ensures rest.Some? ==> rest.value <= tail
    ensures rest.Some? ==>
      Run(lim, Line(out, SizeLine, ""), p) == Run(lim, Line(out.Begin().Add(piece).End(), SizeLine, ""), rest.value)
  {
    hide Run, Hex.ToHex;
    var line := Hex.ToHex(|piece|);
    Hex.HexRoundTrip(|piece|);
    var first := line + CRLF;
    assert EncodeChunk(piece) + tail == first + (piece + (CRLF + tail));
    if |p| < |first| {
      assert p == (first + (piece + (CRLF + tail)))[..|p|] == first[..|p|];
      PartOfSizeLine(lim, out, line, p);
      return None;
    }
    PrefixBehind(first, piece + (CRLF + tail), p);
    var q := p[|first|..];
    WholeSizeLine(lim, out, |piece|, q);
    RunData(lim, out.Begin(), |piece|, q);
    if |q| < |piece| { return None; }
    PrefixBehind(piece, CRLF + tail, q);
    var n := q[|piece|..];
    assert q[..|piece|] == piece;
    RunDataEnd(lim, out.Begin().Add(piece).End(), n);
    if |n| < 2 {
      assert n == (CRLF + tail)[..|n|] == CRLF[..|n|];
      return None;
    }
    PrefixBehind(CRLF, tail, n);
    assert n[..2] == CRLF;
    return Some(n[2..]);
  }

  lemma PrefixBehind(first: Bytes, more: Bytes, p: Bytes)
    requires p <= first + more && |p| >= |first|
    ensures p == first + p[|first|..] && p[|first|..] <= more
  {
    assert p[..|first|] == (first + more)[..|first|] == first;
    assert p[|first|..] == (first + more)[|first|..][..|p| - |first|];
  }

  // ---- the whole message -------------------------------------------------------------------

  function Wire(statusLine: Bytes, hs: seq<Header>, pieces: seq<Bytes>): Bytes {
    Terminated(HeadLines(statusLine, hs)) + (EncodeChunks(pieces) + LAST_CHUNK)
  }

  /** The connection right after the head. */
  function BodyStart(cfg: Config, log: seq<Entry>, statusLine: Bytes, hs: seq<Header>): Conn
    requires Acceptable(cfg, statusLine, hs)
  {
    InBody(log, MessageAt(cfg, statusLine, hs), LimitsAfter(cfg, HeadLines(statusLine, hs)),
      Line(NOTHING, SizeLine, ""), Switches(hs))
  }

  lemma RunHead(cfg: Config, log: seq<Entry>, statusLine: Bytes, hs: seq<Header>, s: Bytes)
    requires Acceptable(cfg, statusLine, hs) && HeadWithin(cfg, statusLine, hs)
    ensures RunHttp(cfg, Head(log, [], ""), Terminated(HeadLines(statusLine, hs)) + s) ==
      RunHttp(cfg, BodyStart(cfg, log, statusLine, hs), s)
  {
    hide RunHttp, Accepted, HeadWithin, Terminated, MessageAt, Switches;
    RunAccepted(cfg, log, statusLine, hs, s);
  }

  lemma LimitsFit(cfg: Config, statusLine: Bytes, hs: seq<Header>, pieces: seq<Bytes>)
    requires WithinLimits(cfg, statusLine, hs, pieces) && AllNonEmpty(pieces)
    ensures FitsStrictly(LimitsAfter(cfg, HeadLines(statusLine, hs)), pieces)
    ensures Fits(LimitsAfter(cfg, HeadLines(statusLine, hs)), pieces)
  {
    hide Hex.ToHex;
    LinesOf(hs);
  }

  /** What is received of a printed message. */
  function Received(cfg: Config, statusLine: Bytes, hs: seq<Header>, pieces: seq<Bytes>): Entry
    requires Acceptable(cfg, statusLine, hs)
  {
    Entry(MessageAt(cfg, statusLine, hs), DeliverPieces(NOTHING, pieces).Eof())
  }

  /** Wire round trip on the reference: a printed chunked request is exactly one more message with
      the printed headers, whose body is the pieces, one HTTP chunk each; what follows on the
      connection is read from there. */
  lemma ChunksRoundTrip(cfg: Config, log: seq<Entry>, statusLine: Bytes, hs: seq<Header>, pieces: seq<Bytes>,
    rest: Bytes)
    requires Acceptable(cfg, statusLine, hs) && WithinLimits(cfg, statusLine, hs, pieces) && AllNonEmpty(pieces)
    ensures var entry := Received(cfg, statusLine, hs, pieces);
      && entry.request.headers == hs
      && entry.body.data == Concat(pieces)
      && RunHttp(cfg, Head(log, [], ""), Wire(statusLine, hs, pieces) + rest) ==
           RunHttp(cfg, AfterBody(log + [entry], Switches(hs)), rest)
  {
    hide RunHttp, Run, Acceptable, WithinLimits, HeadWithin, EncodeChunks, Terminated, DeliverPieces, MessageAt,
      Switches, AfterBody;
    Rooms(cfg, statusLine, hs, pieces);
    LimitsFit(cfg, statusLine, hs, pieces);
    var entry := Received(cfg, statusLine, hs, pieces);
    var b := BodyStart(cfg, log, statusLine, hs);
    var body := EncodeChunks(pieces) + LAST_CHUNK + rest;
    assert Wire(statusLine, hs, pieces) + rest == Terminated(HeadLines(statusLine, hs)) + body;
    RunHead(cfg, log, statusLine, hs, body);
    RunInBody(cfg, log, b.request, b.lim, b.body, b.thenUpgrade, body);
    RunPrinted(b.lim, pieces, rest);
    DeliveredData(NOTHING, pieces);
    assert "" + Concat(pieces) == Concat(pieces);
  }

  lemma StopInWire(cfg: Config, log: seq<Entry>, statusLine: Bytes, hs: seq<Header>, pieces: seq<Bytes>, p: Bytes)
    requires Acceptable(cfg, statusLine, hs) && WithinLimits(cfg, statusLine, hs, pieces) && AllNonEmpty(pieces)
    requires p <= Wire(statusLine, hs, pieces)
    ensures var c := RunHttp(cfg, Head(log, [], ""), p);
      !OverlongHead(cfg, c) && !(c.InBody? && Overlong(c.lim, c.body))
  {
    hide RunHttp, Run, Acceptable, WithinLimits, HeadWithin, EncodeChunks, Terminated, Overlong, HeadLines;
    var head, whole := Terminated(HeadLines(statusLine, hs)), Wire(statusLine, hs, pieces);
    Rooms(cfg, statusLine, hs, pieces);
    if |p| < |head| {
      assert p == whole[..|p|] == head[..|p|];
      StopInHead(cfg, log, statusLine, hs, p);
    } else {
      PrefixBehind(head, EncodeChunks(pieces) + LAST_CHUNK, p);
      RunHead(cfg, log, statusLine, hs, p[|head|..]);
      StopInBody(cfg, log, statusLine, hs, pieces, p[|head|..]);
    }
  }

  lemma Rooms(cfg: Config, statusLine: Bytes, hs: seq<Header>, pieces: seq<Bytes>)
    requires Acceptable(cfg, statusLine, hs) && WithinLimits(cfg, statusLine, hs, pieces)
    ensures HeadWithin(cfg, statusLine, hs) && Printable(cfg, statusLine, hs)
  {
  }

  lemma StopInBody(cfg: Config, log: seq<Entry>, statusLine: Bytes, hs: seq<Header>, pieces: seq<Bytes>, n: Bytes)
    requires Acceptable(cfg, statusLine, hs) && WithinLimits(cfg, statusLine, hs, pieces) && AllNonEmpty(pieces)
    requires n <= EncodeChunks(pieces) + LAST_CHUNK
    ensures var c := RunHttp(cfg, BodyStart(cfg, log, statusLine, hs), n);
      !OverlongHead(cfg, c) && !(c.InBody? && Overlong(c.lim, c.body))
  {
    hide RunHttp, Run, Acceptable, WithinLimits, EncodeChunks, Overlong, MessageAt, Switches;
    LimitsFit(cfg, statusLine, hs, pieces);
    var b := BodyStart(cfg, log, statusLine, hs);
    RunInBody(cfg, log, b.request, b.lim, b.body, b.thenUpgrade, n);
    StopInChunks(b.lim, NOTHING, pieces, n);
    var body := Run(b.lim, b.body, n);
    if body.Finished? {
      var more := (EncodeChunks(pieces) + LAST_CHUNK)[|n|..];
      assert n + more == EncodeChunks(pieces) + LAST_CHUNK + "";
      RunAppend(b.lim, b.body, n, more);
      RunAbsorbed(b.lim, body, more);
      RunPrinted(b.lim, pieces, "");
      assert body.rest == "";
      RunHttpNothing(cfg, AfterBody(log + [Entry(b.request, body.out)], b.thenUpgrade));
    }
  }

  // ---- bodies that are not well formed -----------------------------------------------------------

  /** Two of the errors in a body break the connection, and the others are swallowed. */
  lemma FailedBody(cfg: Config, log: seq<Entry>, statusLine: Bytes, hs: seq<Header>, input: Bytes, out: Delivery,
    e: HttpError)
    requires Acceptable(cfg, statusLine, hs) && HeadWithin(cfg, statusLine, hs)
    requires Run(LimitsAfter(cfg, HeadLines(statusLine, hs)), Line(NOTHING, SizeLine, ""), input) == Failed(out, e)
    ensures var log' := log + [Entry(MessageAt(cfg, statusLine, hs), out)];
      RunHttp(cfg, Head(log, [], ""), Terminated(HeadLines(statusLine, hs)) + input) ==
      if e == InvalidHeader || e == TransferEncodingError then Broken(log', e) else Dropped(log', Switches(hs))
  {
    hide RunHttp, Run, Accepted, HeadWithin, Terminated, MessageAt, Switches, HeadLines, Has, LimitsAfter;
    var b := BodyStart(cfg, log, statusLine, hs);
    RunHead(cfg, log, statusLine, hs, input);
    RunInBody(cfg, log, b.request, b.lim, b.body, b.thenUpgrade, input);
  }

  /** A size line that is none breaks the connection; one that is too long is swallowed with all that
      follows in the same call. */
  lemma BadSizeLine(cfg: Config, log: seq<Entry>, statusLine: Bytes, hs: seq<Header>, line: Bytes, s: Bytes)
    requires Acceptable(cfg, statusLine, hs) && HeadWithin(cfg, statusLine, hs) && '\r' !in line
    requires forall n: nat :: !Announces(LimitsAfter(cfg, HeadLines(statusLine, hs)), line, n)
    ensures var c := RunHttp(cfg, Head(log, [], ""), Terminated(HeadLines(statusLine, hs)) + (line + CRLF + s));
      var log' := log + [Entry(MessageAt(cfg, statusLine, hs), NOTHING)];
      c == if |line| > cfg.maxLineSize then Dropped(log', Switches(hs)) else Broken(log', TransferEncodingError)
  {
    hide RunHttp, Run, Acceptable, HeadWithin, Terminated, MessageAt, Switches, HeadLines, Announces, Find, ChunkSizeOf;
    var lim := LimitsAfter(cfg, HeadLines(statusLine, hs));
    var r := ChunkSizeOf(lim, line);
    if r.Ok? { SizeLineIff(lim, line, r.value); }
    SizeLineIff(lim, line, 0);
    RefusedSizeLine(lim, line, s, r.error);
    FailedBody(cfg, log, statusLine, hs, line + CRLF + s, NOTHING, r.error);
  }

  lemma RefusedSizeLine(lim: Limits, line: Bytes, s: Bytes, e: HttpError)
    requires '\r' !in line && ChunkSizeOf(lim, line) == Err(e)
    ensures Run(lim, Line(NOTHING, SizeLine, ""), line + CRLF + s) == Failed(NOTHING, e)
  {
    hide Run, Find, ChunkSizeOf;
    var full := line + CRLF + s;
    assert "" + full == full;
    NoCrlf("");
    FirstCrlf(full, |line|);
    RunLine(lim, NOTHING, SizeLine, "", full);
    assert full[..|line|] == line;
    RunAbsorbed(lim, Failed(NOTHING, e), full[|line| + 2..]);
  }

  /** Chunk data that is not ended by CRLF breaks the connection; the data has been delivered. */
  lemma MissingCrlf(cfg: Config, log: seq<Entry>, statusLine: Bytes, hs: seq<Header>, c: Spelled, s: Bytes)
    requires Acceptable(cfg, statusLine, hs) && HeadWithin(cfg, statusLine, hs)
    requires Sound(LimitsAfter(cfg, HeadLines(statusLine, hs)), c) && |s| >= 2 && !(CRLF <= s)
    ensures
      RunHttp(cfg, Head(log, [], ""), Terminated(HeadLines(statusLine, hs)) + (c.line + CRLF + (c.data + s))) ==
      Broken(log + [Entry(MessageAt(cfg, statusLine, hs), NOTHING.Begin().Add(c.data).End())], TransferEncodingError)
  {
    hide RunHttp, Run, Acceptable, HeadWithin, Terminated, MessageAt, Switches, HeadLines, Announces, LimitsAfter;
    var lim := LimitsAfter(cfg, HeadLines(statusLine, hs));
    DataRuns(lim, c, s);
    RunDataEnd(lim, NOTHING.Begin().Add(c.data).End(), s);
    FailedBody(cfg, log, statusLine, hs, c.line + CRLF + (c.data + s), NOTHING.Begin().Add(c.data).End(),
      TransferEncodingError);
  }

  lemma DataRuns(lim: Limits, c: Spelled, s: Bytes)
    requires Sound(lim, c)
    ensures Run(lim, Line(NOTHING, SizeLine, ""), c.line + CRLF + (c.data + s)) ==
      Run(lim, DataEnd(NOTHING.Begin().Add(c.data).End(), false), s)
  {
    hide Run, Find, ChunkSizeOf, Announces;
    var input := c.line + CRLF + (c.data + s);
    EndsAtCrlf(lim, c.line, |c.data|, c.data + s);
    assert "" + input == input;
    NoCrlf("");
    RunLine(lim, NOTHING, SizeLine, "", input);
    assert input[..|c.line|] == c.line && input[|c.line| + 2..] == c.data + s;
    RunData(lim, NOTHING.Begin(), |c.data|, c.data + s);
    assert (c.data + s)[..|c.data|] == c.data && (c.data + s)[|c.data|..] == s;
  }

  /** A trailer line that is no field line breaks the connection; one that is too long is swallowed. */
  lemma BadTrailer(cfg: Config, log: seq<Entry>, statusLine: Bytes, hs: seq<Header>, line: Bytes, s: Bytes)
    requires Acceptable(cfg, statusLine, hs) && HeadWithin(cfg, statusLine, hs) && |hs| + 4 <= cfg.maxHeaders
    requires '\r' !in line && line != "" && forall h :: !HeadGrammar.IsFieldLine(line, h)
    ensures
      var c := RunHttp(cfg, Head(log, [], ""), Terminated(HeadLines(statusLine, hs)) +
        (Hex.ToHex(0) + CRLF + (line + CRLF + ("" + CRLF + s))));
      var log' := log + [Entry(MessageAt(cfg, statusLine, hs), NOTHING)];
      c == if |line| > cfg.maxFieldSize then Dropped(log', Switches(hs)) else Broken(log', InvalidHeader)
  {
    hide RunHttp, Run, Acceptable, HeadWithin, Terminated, MessageAt, Switches, HeadLines, HeadGrammar.IsFieldLine,
      Hex.ToHex, LimitsAfter;
    var lim, trailers := LimitsAfter(cfg, HeadLines(statusLine, hs)), line + CRLF + ("" + CRLF + s);
    TrailerRoom(cfg, statusLine, hs);
    WholeSizeLine(lim, NOTHING, 0, trailers);
    RefusedTrailer(lim, line, s);
    FailedBody(cfg, log, statusLine, hs, Hex.ToHex(0) + CRLF + trailers, NOTHING,
      if |line| > cfg.maxFieldSize then LineTooLong else InvalidHeader);
  }

  lemma TrailerRoom(cfg: Config, statusLine: Bytes, hs: seq<Header>)
    requires |hs| + 4 <= cfg.maxHeaders && HeadWithin(cfg, statusLine, hs)
    ensures var lim := LimitsAfter(cfg, HeadLines(statusLine, hs));
      lim.maxTrailers >= 2 && lim.maxLineSize >= 2 && lim.maxFieldSize == cfg.maxFieldSize && |Hex.ToHex(0)| == 1
  {
    LinesOf(hs);
  }

  lemma OneTrailerLine(lim: Limits, before: seq<Bytes>, line: Bytes, s: Bytes)
    requires '\r' !in line
    ensures Run(lim, Line(NOTHING, TrailerLine(before), ""), line + CRLF + s) ==
      Run(lim, TrailerLineDone(lim, NOTHING, before, line), s)
  {
    hide Run, Find, TrailerLineDone;
    var full := line + CRLF + s;
    assert "" + full == full;
    NoCrlf("");
    FirstCrlf(full, |line|);
    RunLine(lim, NOTHING, TrailerLine(before), "", full);
    assert full[..|line|] == line && full[|line| + 2..] == s;
  }

  lemma NoFieldLine(line: Bytes)
    requires line != "" && forall h :: !HeadGrammar.IsFieldLine(line, h)
    ensures Parse([line, ""]) == Err(InvalidHeader)
  {
    hide HeadGrammar.IsFieldLine, ParseLine;
    HeadGrammar.LineIsParsed(line, [], Header("", ""));
    var r := ParseLine(line, []);
    if r.Ok? { HeadGrammar.LineIsParsed(line, [], r.value); }
  }

  lemma RefusedTrailer(lim: Limits, line: Bytes, s: Bytes)
    requires lim.maxTrailers >= 2 && '\r' !in line && line != ""
    requires forall h :: !HeadGrammar.IsFieldLine(line, h)
    ensures Run(lim, Line(NOTHING, TrailerLine([]), ""), line + CRLF + ("" + CRLF + s)) ==
      Failed(NOTHING, if |line| > lim.maxFieldSize then LineTooLong else InvalidHeader)
  {
    hide Run, HeadGrammar.IsFieldLine, Parse;
    OneTrailerLine(lim, [], line, "" + CRLF + s);
    OneTrailerLine(lim, [line], "", s);
    assert [] + [line] == [line] && [line] + [""] == [line, ""];
    NoFieldLine(line);
    RunAbsorbed(lim, Failed(NOTHING, LineTooLong), "" + CRLF + s);
    RunAbsorbed(lim, Failed(NOTHING, InvalidHeader), s);
  }

  // ---- a request the results above speak about ---------------------------------------------------

  const EXAMPLE_LINE: Bytes := "PUT / HTTP/1.0"
  const CHUNKED_HEADER := Header("transfer-encoding", "chunked")

  lemma ExampleVersion()
    ensures ParseVersion("HTTP/1.0") == Some(Version(1, 0)) && IsToken("PUT") && Upper("PUT") == "PUT"
  {
    assert "HTTP/1.0"[..5] == "HTTP/";
  }

  lemma ExampleLineParses(hasScheme: Bytes -> bool)
    ensures ParseRequestLine(EXAMPLE_LINE, hasScheme) == Ok(RequestLine("PUT", "/", Version(1, 0)))
  {
    hide ParseRequestLine, ParseVersion, IsToken, Upper;
    ExampleVersion();
    HeadGrammar.RequestLineIff("PUT", "/", "HTTP/1.0", hasScheme);
    assert "PUT" + " " + ("/" + " " + "HTTP/1.0") == EXAMPLE_LINE;
  }

  lemma ExampleToken()
    ensures IsChunkedToken("chunked")
  {
    hide Strip;
    StripFixpoints("chunked");
    assert Lower("chunked") == "chunked";
  }

  lemma ExampleCoding()
    ensures ChunkedOnceAndLast("chunked")
  {
    hide IsChunkedToken;
    var te: Bytes := "chunked";
    assert Split(te, ',') == [te];
    ExampleToken();
    assert [te][1..] == [];
  }

  lemma OnlyHeader(h: Header, other: Bytes)
    requires |other| != |h.name|
    ensures Get([h], other) == None && !Has([h], other)
  {
    assert |Lower(h.name)| != |other|;
    assert [h][1..] == [];
  }

  lemma ExampleFraming()
    ensures !BadCoding([CHUNKED_HEADER]) && !BadLength([CHUNKED_HEADER]) && Has([CHUNKED_HEADER], "transfer-encoding")
  {
    hide ChunkedOnceAndLast, Get, Has, Lower;
    OnlyHeader(CHUNKED_HEADER, "content-length");
    ExampleCoding();
    ExampleName();
    GetSomeIffHas([CHUNKED_HEADER], "transfer-encoding");
  }

  lemma ExampleName()
    ensures Get([CHUNKED_HEADER], "transfer-encoding") == Some("chunked")
  {
    assert Lower("transfer-encoding") == "transfer-encoding";
  }

  lemma ExampleParsable()
    ensures Parsable([CHUNKED_HEADER], [])
  {
    hide Lower, IsToken;
    assert IsToken("transfer-encoding") by { ExampleNameIsToken(); }
    assert [CHUNKED_HEADER][1..] == [];
  }

  lemma ExampleNameIsToken()
    ensures IsToken("transfer-encoding")
  {
  }

  lemma ExampleSafe()
    ensures AllSafe(EXAMPLE_LINE, [CHUNKED_HEADER])
  {
  }

  /** There is such a request: `PUT / HTTP/1.0` with the chunked coding. */
  lemma AcceptableExample(cfg: Config)
    requires cfg.maxLineSize == cfg.maxFieldSize >= 27 && cfg.maxHeaders >= 4
    ensures Acceptable(cfg, EXAMPLE_LINE, [CHUNKED_HEADER]) && WithinLimits(cfg, EXAMPLE_LINE, [CHUNKED_HEADER], ["x"])
  {
    hide ParseRequestLine, BadCoding, BadLength, Parsable, AllSafe, Has;
    ExampleLineParses(cfg.hasScheme);
    ExampleParsable();
    ExampleSafe();
    ExampleFraming();
    OnlyHeader(CHUNKED_HEADER, "sec-websocket-key1");
    var hs := [CHUNKED_HEADER];
    assert hs[1..] == [] && HeaderLines(hs) == [HeaderLine(CHUNKED_HEADER)];
    assert Hex.ToHex(1) == ['1'];
  }
}

/** The chunked framing as a grammar: a one-shot recursive decoder, the printer used by the
    writer, and their agreement with the byte-at-a-time reference. */
module ChunkGrammar {
  import opened ByteStrings
  import Hex
  import opened Headers
  import opened PayloadMachine

  datatype Decoded =
    | Accept(out: Delivery, rest: Bytes)
    | Partial
    | Reject(error: HttpError)

  /** Trailer lines up to the empty one. */
  function DecodeTrailers(lim: Limits, s: Bytes, out: Delivery, before: seq<Bytes>): Decoded
    decreases |s|
  {
    var pos := Find(s, CRLF);
    if pos == -1 then Partial
    else if pos > lim.maxFieldSize then Reject(LineTooLong)
    else
      var lines, rest := before + [s[..pos]], s[pos + 2..];
      if |lines| > lim.maxTrailers then Reject(BadHttpMessage)
      else if pos > 0 then DecodeTrailers(lim, rest, out, lines)
      else
        match Parse(lines)
        case Err(e) => Reject(e)
        case Ok(_) => Accept(out.Eof(), rest)
  }

  /** chunk = size-line data CRLF; the body is chunks, a last chunk of size 0, and trailers. */
  function DecodeChunks(lim: Limits, s: Bytes, out: Delivery): Decoded
    decreases |s|
  {
    var pos := Find(s, CRLF);
    if pos == -1 then Partial
    else
      match ChunkSizeOf(lim, s[..pos])
      case Err(e) => Reject(e)
      case Ok(size) =>
        var body := s[pos + 2..];
        if size == 0 then DecodeTrailers(lim, body, out, [])
        else if |body| < size then Partial
        else
          var ending := body[size..];
          if ending == "" || ending == "\r" then Partial
          else if !(CRLF <= ending) then Reject(TransferEncodingError)
          else DecodeChunks(lim, ending[2..], out.Begin().Add(body[..size]).End())
  }

  predicate Agrees(d: Decoded, s: Body) {
    match d
    case Accept(out, rest) => s == Finished(out, rest)
    case Reject(e) => s.Failed? && s.error == e
    case Partial => !s.Finished? && !s.Failed?
  }

  lemma {:induction false} TrailersAgree(lim: Limits, s: Bytes, out: Delivery, before: seq<Bytes>)
    ensures Agrees(DecodeTrailers(lim, s, out, before), Run(lim, Line(out, TrailerLine(before), ""), s))
    decreases |s|
  {
    hide Run, Find, Parse;
    assert "" + s == s;
    NoCrlf("");
    RunLine(lim, out, TrailerLine(before), "", s);
    var pos := Find(s, CRLF);
    if pos != -1 {
      FindInside(s, CRLF);
      var rest := s[pos + 2..];
      var n := LineDone(lim, out, TrailerLine(before), s[..pos]);
      if n.Failed? || n.Finished? {
        RunAbsorbed(lim, n, rest);
        assert "" + rest == rest;
      } else {
        TrailersAgree(lim, rest, out, before + [s[..pos]]);
      }
    }
  }

  /** The one-shot decoder and the byte-at-a-time reference accept, reject and wait on the same
      inputs, with the same bytes, chunk positions, leftover and error. */
  lemma {:induction false} GrammarAgrees(lim: Limits, s: Bytes, out: Delivery)
    ensures Agrees(DecodeChunks(lim, s, out), Run(lim, Line(out, SizeLine, ""), s))
    decreases |s|
  {
    hide Run, Find, ChunkSizeOf, DecodeTrailers;
    assert "" + s == s;
    NoCrlf("");
    RunLine(lim, out, SizeLine, "", s);
    var pos := Find(s, CRLF);
    if pos != -1 {
      FindInside(s, CRLF);
      var body := s[pos + 2..];
      var size := ChunkSizeOf(lim, s[..pos]);
      if size.Err? {
        RunAbsorbed(lim, Failed(out, size.error), body);
      } else if size.value == 0 {
        TrailersAgree(lim, body, out, []);
      } else {
        ChunkAgrees(lim, body, out.Begin(), size.value);
      }
    }
  }

  lemma {:induction false} ChunkAgrees(lim: Limits, body: Bytes, out: Delivery, size: nat)
    requires size > 0
    ensures var s := Run(lim, Data(out, size), body);
      if |body| < size then Agrees(Partial, s)
      else
        var ending := body[size..];
        if ending == "" || ending == "\r" then Agrees(Partial, s)
        else if !(CRLF <= ending) then Agrees(Reject(TransferEncodingError), s)
        else Agrees(DecodeChunks(lim, ending[2..], out.Add(body[..size]).End()), s)
    decreases |body|
  {
    hide Run, DecodeChunks;
    RunData(lim, out, size, body);
    if |body| >= size {
      var ending, out' := body[size..], out.Add(body[..size]).End();
      RunDataEnd(lim, out', ending);
      if CRLF <= ending { GrammarAgrees(lim, ending[2..], out'); }
    }
  }

  // ---- printing ----------------------------------------------------------------------------

  const LAST_CHUNK: Bytes := "0\r\n\r\n"

  function EncodeChunk(piece: Bytes): Bytes { Hex.ToHex(|piece|) + CRLF + piece + CRLF }

  function EncodeChunks(pieces: seq<Bytes>): Bytes {
    if pieces == [] then "" else EncodeChunk(pieces[0]) + EncodeChunks(pieces[1..])
  }

  lemma {:induction false} EncodeAppend(a: seq<Bytes>, b: seq<Bytes>)
    ensures EncodeChunks(a + b) == EncodeChunks(a) + EncodeChunks(b)
  {
    if a == [] {
      assert a + b == b;
    } else {
      assert (a + b)[1..] == a[1..] + b;
      EncodeAppend(a[1..], b);
      assert EncodeChunk(a[0]) + (EncodeChunks(a[1..]) + EncodeChunks(b)) == EncodeChunks(a) + EncodeChunks(b);
    }
  }

  /** What a receiver gets from `pieces`: one HTTP chunk per piece. */
  function DeliverPieces(out: Delivery, pieces: seq<Bytes>): Delivery
    decreases |pieces|
  {
    if pieces == [] then out else DeliverPieces(out.Begin().Add(pieces[0]).End(), pieces[1..])
  }

  lemma {:induction false} DeliveredData(out: Delivery, pieces: seq<Bytes>)
    ensures DeliverPieces(out, pieces).data == out.data + Concat(pieces)
    ensures |DeliverPieces(out, pieces).ends| == |out.ends| + |pieces|
    decreases |pieces|
  {
    if pieces == [] {
      assert out.data + "" == out.data;
    } else {
      DeliveredData(out.Begin().Add(pieces[0]).End(), pieces[1..]);
      assert out.data + pieces[0] + Concat(pieces[1..]) == out.data + Concat(pieces);
    }
  }

  // ---- any spelling of the sizes -------------------------------------------------------------------

  /** A size line announces `n` exactly if it spells `n`, possibly with an extension free of line feeds,
      and is not too long. */
  ghost predicate Announces(lim: Limits, line: Bytes, n: nat) {
    |line| <= lim.maxLineSize && exists digits, ext :: IsSizeLine(line, n, digits, ext)
  }

  ghost predicate IsSizeLine(line: Bytes, n: nat, digits: Bytes, ext: Bytes) {
    line == digits + ext && Hex.Spells(digits, n) && (ext == "" || (ext[0] == ';' && '\n' !in ext))
  }

  lemma ExtensionBegins(line: Bytes, n: nat, digits: Bytes, ext: Bytes)
    requires IsSizeLine(line, n, digits, ext)
    ensures IndexOf(line, ';') == if ext == "" then -1 else |digits|
    ensures line[..|digits|] == digits && line[|digits|..] == ext && (ext == "" ==> line == digits)
    ensures Hex.IsHex(digits) && Hex.FromHex(digits) == n && '\n' !in digits && digits != ""
  {
    hide Hex.Spells, Hex.FromHex, IndexOf;
    Hex.SpelledIsHex(digits, n);
    assert line[..|digits|] == digits;
    if ext == "" {
      assert line == digits;
    } else {
      assert line[|digits|] == ';';
      IndexOfUnique(line, ';', |digits|);
    }
  }

  lemma SizeLineParts(line: Bytes, n: nat)
    requires var i := IndexOf(line, ';');
      && (i != -1 ==> '\n' !in line[i..])
      && Hex.IsHex(if i == -1 then line else line[..i]) && Hex.FromHex(if i == -1 then line else line[..i]) == n
    ensures exists digits, ext :: IsSizeLine(line, n, digits, ext)
  {
    hide Hex.Spells, Hex.IsHex, Hex.FromHex, IndexOf;
    var i := IndexOf(line, ';');
    var digits, ext := if i == -1 then line else line[..i], if i == -1 then "" else line[i..];
    assert line == digits + ext;
    Hex.FromHexIff(digits, n);
    assert IsSizeLine(line, n, digits, ext);
  }

  lemma SizeLineIff(lim: Limits, line: Bytes, n: nat)
    ensures ChunkSizeOf(lim, line) == Ok(n) <==> Announces(lim, line, n)
    ensures ChunkSizeOf(lim, line).Err? ==>
      ChunkSizeOf(lim, line).error == if |line| > lim.maxLineSize then LineTooLong else TransferEncodingError
  {
    hide Hex.IsHex, Hex.FromHex, IndexOf, IsSizeLine;
    if Announces(lim, line, n) {
      var digits, ext :| IsSizeLine(line, n, digits, ext);
      ExtensionBegins(line, n, digits, ext);
      NoLfBehind(line, n, digits, ext);
    }
    if ChunkSizeOf(lim, line) == Ok(n) { SizeLineParts(line, n); }
  }

  lemma NoLfBehind(line: Bytes, n: nat, digits: Bytes, ext: Bytes)
    requires IsSizeLine(line, n, digits, ext)
    ensures '\n' !in ext
  {
  }

  lemma AnnouncedHasNoLf(lim: Limits, line: Bytes, n: nat)
    requires Announces(lim, line, n)
    ensures '\n' !in line && line != ""
  {
    var digits, ext :| IsSizeLine(line, n, digits, ext);
    hide Hex.Spells;
    ExtensionBegins(line, n, digits, ext);
  }

  /** A chunk as any sender may write it. */
  datatype Spelled = Spelled(line: Bytes, data: Bytes)
  {
    function Text(): Bytes { line + CRLF + data + CRLF }
  }

  function Texts(chunks: seq<Spelled>): Bytes { if chunks == [] then "" else chunks[0].Text() + Texts(chunks[1..]) }

  function Datas(chunks: seq<Spelled>): seq<Bytes> {
    if chunks == [] then [] else [chunks[0].data] + Datas(chunks[1..])
  }

  ghost predicate Sound(lim: Limits, c: Spelled) { c.data != "" && Announces(lim, c.line, |c.data|) }

  /** Trailer lines that the limits leave room for. */
  predicate TrailersFit(lim: Limits, trailers: seq<Header>) {
    && Parsable(trailers, []) && |trailers| < lim.maxTrailers
    && forall i :: 0 <= i < |trailers| ==>
         Safe(trailers[i].name) && Safe(trailers[i].value) && |HeaderLine(trailers[i])| <= lim.maxFieldSize
  }

  lemma OneChunk(lim: Limits, out: Delivery, c: Spelled, tail: Bytes)
    requires Sound(lim, c)
    ensures DecodeChunks(lim, c.Text() + tail, out) == DecodeChunks(lim, tail, out.Begin().Add(c.data).End())
  {
    hide Find, ChunkSizeOf, DecodeTrailers, Announces;
    var after := c.data + CRLF + tail;
    assert c.Text() + tail == c.line + CRLF + after;
    EndsAtCrlf(lim, c.line, |c.data|, after);
    SplitTwice(c.line, after);
    SplitTwice(c.data, tail);
  }

  lemma EndsAtCrlf(lim: Limits, line: Bytes, n: nat, tail: Bytes)
    requires Announces(lim, line, n)
    ensures Find(line + CRLF + tail, CRLF) == |line| && ChunkSizeOf(lim, line) == Ok(n)
  {
    hide Find, ChunkSizeOf, Announces;
    SizeLineIff(lim, line, n);
    AnnouncedHasNoLf(lim, line, n);
    var s := line + CRLF + tail;
    forall j | 0 <= j < |line| ensures s[j] != '\r' || s[j + 1] != '\n' {
      if j + 1 < |line| { assert s[j + 1] == line[j + 1]; } else { assert s[j + 1] == '\r'; }
    }
    FirstCrlf(s, |line|);
  }

  /** The chunks of any sender, however their sizes are spelled, and any printed trailers: exactly the
      data is delivered, chunk by chunk, and what follows is left. */
  lemma {:induction false} DecodeSpelled(lim: Limits, out: Delivery, chunks: seq<Spelled>, last: Bytes,
    trailers: seq<Header>, rest: Bytes)
    requires (forall i :: 0 <= i < |chunks| ==> Sound(lim, chunks[i])) && Announces(lim, last, 0)
    requires TrailersFit(lim, trailers)
    ensures DecodeChunks(lim, Texts(chunks) + (last + CRLF + Terminated(HeaderLines(trailers) + [""]) + rest), out) ==
      Accept(DeliverPieces(out, Datas(chunks)).Eof(), rest)
    decreases |chunks|
  {
    hide Find, ChunkSizeOf, Sound, Announces, TrailersFit, Terminated, DecodeTrailers;
    var end := last + CRLF + Terminated(HeaderLines(trailers) + [""]) + rest;
    if chunks == [] {
      var after := Terminated(HeaderLines(trailers) + [""]) + rest;
      assert "" + end == end && end == last + CRLF + after;
      EndsAtCrlf(lim, last, 0, after);
      SplitTwice(last, after);
      TrailersRead(lim, out, trailers, rest);
    } else {
      Assoc(chunks[0].Text(), Texts(chunks[1..]), end);
      OneChunk(lim, out, chunks[0], Texts(chunks[1..]) + end);
      DecodeSpelled(lim, out.Begin().Add(chunks[0].data).End(), chunks[1..], last, trailers, rest);
    }
  }

  lemma TrailersRead(lim: Limits, out: Delivery, trailers: seq<Header>, rest: Bytes)
    requires TrailersFit(lim, trailers)
    ensures DecodeTrailers(lim, Terminated(HeaderLines(trailers) + [""]) + rest, out, []) == Accept(out.Eof(), rest)
  {
    hide Parsable, DecodeTrailers, Parse;
    HeaderRoundTrip(trailers);
    assert [] + HeaderLines(trailers) + [""] == HeaderLines(trailers) + [""];
    TrailersGathered(lim, out, [], trailers, rest);
  }

  lemma {:induction false} TrailersGathered(lim: Limits, out: Delivery, before: seq<Bytes>, hs: seq<Header>,
    rest: Bytes)
    requires |before| + |hs| < lim.maxTrailers && Parse(before + HeaderLines(hs) + [""]).Ok?
    requires forall i :: 0 <= i < |hs| ==>
      Safe(hs[i].name) && Safe(hs[i].value) && |HeaderLine(hs[i])| <= lim.maxFieldSize
    ensures DecodeTrailers(lim, Terminated(HeaderLines(hs) + [""]) + rest, out, before) == Accept(out.Eof(), rest)
    decreases |hs|
  {
    hide Find, Parse, Safe, Terminated;
    var lines := HeaderLines(hs) + [""];
    var after := Terminated(lines[1..]) + rest;
    assert Terminated(lines) + rest == lines[0] + CRLF + after by { TerminatedFirst(lines); }
    if hs != [] {
      SafeLine(hs[0]);
      assert lines[1..] == HeaderLines(hs[1..]) + [""];
    }
    assert '\r' !in lines[0];
    FirstCrlf(lines[0] + CRLF + after, |lines[0]|);
    SplitTwice(lines[0], after);
    if hs == [] {
      assert lines[1..] == [] && Terminated([]) == "" by { EmptyTerminated(); }
      assert "" + rest == rest && before + HeaderLines(hs) + [""] == before + [""];
    } else {
      assert before + [lines[0]] + HeaderLines(hs[1..]) + [""] == before + HeaderLines(hs) + [""];
      TrailersGathered(lim, out, before + [lines[0]], hs[1..], rest);
    }
  }

  lemma TerminatedFirst(lines: seq<Bytes>)
    requires lines != []
    ensures Terminated(lines) == lines[0] + CRLF + Terminated(lines[1..])
  {
  }

  lemma SafeLine(h: Header)
    requires Safe(h.name) && Safe(h.value)
    ensures '\r' !in HeaderLine(h) && HeaderLine(h) != ""
  {
    assert HeaderLine(h)[|h.name|] == ':';
  }

  /** The same for the byte-at-a-time reference, and so for the parser. */
  lemma RunSpelled(lim: Limits, chunks: seq<Spelled>, last: Bytes, trailers: seq<Header>, rest: Bytes)
    requires (forall i :: 0 <= i < |chunks| ==> Sound(lim, chunks[i])) && Announces(lim, last, 0)
    requires TrailersFit(lim, trailers)
    ensures Run(lim, Line(NOTHING, SizeLine, ""),
      Texts(chunks) + (last + CRLF + Terminated(HeaderLines(trailers) + [""]) + rest)) ==
      Finished(DeliverPieces(NOTHING, Datas(chunks)).Eof(), rest)
  {
    hide Run, DecodeChunks, Sound, Announces, TrailersFit;
    DecodeSpelled(lim, NOTHING, chunks, last, trailers, rest);
    GrammarAgrees(lim, Texts(chunks) + (last + CRLF + Terminated(HeaderLines(trailers) + [""]) + rest), NOTHING);
  }

  // ---- the sizes as they are printed ---------------------------------------------------------------

  /** The limits leave room for every printed size line and for the empty trailer. */
  predicate Fits(lim: Limits, pieces: seq<Bytes>) {
    && lim.maxTrailers >= 1 && lim.maxLineSize >= 1
    && forall i :: 0 <= i < |pieces| ==> pieces[i] != "" && |Hex.ToHex(|pieces[i]|)| <= lim.maxLineSize
  }

  lemma PrintedSizeLine(lim: Limits, n: nat, tail: Bytes)
    requires |Hex.ToHex(n)| <= lim.maxLineSize
    ensures var line := Hex.ToHex(n);
      Find(line + CRLF + tail, CRLF) == |line| && ChunkSizeOf(lim, line) == Ok(n)
  {
    Hex.HexRoundTrip(n);
    var line := Hex.ToHex(n);
    FirstCrlf(line + CRLF + tail, |line|);
  }

  function AsPrinted(pieces: seq<Bytes>): seq<Spelled> {
    if pieces == [] then [] else [Spelled(Hex.ToHex(|pieces[0]|), pieces[0])] + AsPrinted(pieces[1..])
  }

  lemma {:induction false} PrintedIsSpelled(lim: Limits, pieces: seq<Bytes>)
    requires Fits(lim, pieces)
    ensures Texts(AsPrinted(pieces)) == EncodeChunks(pieces) && Datas(AsPrinted(pieces)) == pieces
    ensures forall i :: 0 <= i < |AsPrinted(pieces)| ==> Sound(lim, AsPrinted(pieces)[i])
  {
    hide Announces;
    if pieces != [] {
      PrintedIsSpelled(lim, pieces[1..]);
      PrintedAnnounces(lim, |pieces[0]|);
    }
  }

  lemma PrintedAnnounces(lim: Limits, n: nat)
    requires |Hex.ToHex(n)| <= lim.maxLineSize
    ensures Announces(lim, Hex.ToHex(n), n)
  {
    Hex.HexRoundTrip(n);
    Hex.FromHexIff(Hex.ToHex(n), n);
    assert Hex.ToHex(n) == Hex.ToHex(n) + "";
    assert IsSizeLine(Hex.ToHex(n), n, Hex.ToHex(n), "");
  }

  /** Chunk round trip: decoding what the writer prints for nonempty pieces returns exactly
      those pieces as chunks and leaves whatever follows. */
  lemma DecodePrinted(lim: Limits, out: Delivery, pieces: seq<Bytes>, rest: Bytes)
    requires Fits(lim, pieces)
    ensures DecodeChunks(lim, EncodeChunks(pieces) + LAST_CHUNK + rest, out) ==
      Accept(DeliverPieces(out, pieces).Eof(), rest)
  {
    hide DecodeChunks, Announces, Sound;
    PrintedIsSpelled(lim, pieces);
    PrintedAnnounces(lim, 0);
    NoTrailers();
    DecodeSpelled(lim, out, AsPrinted(pieces), Hex.ToHex(0), [], rest);
    Assoc(EncodeChunks(pieces), LAST_CHUNK, rest);
  }

  lemma NoTrailers()
    ensures Hex.ToHex(0) + CRLF + Terminated(HeaderLines([]) + [""]) == LAST_CHUNK
  {
    assert Hex.ToHex(0) == "0" && HeaderLines([]) + [""] == [""];
    assert [""][1..] == [] && Terminated([""]) == CRLF;
  }

  lemma SplitTwice(a: Bytes, b: Bytes)
    ensures var s := a + CRLF + b; s[..|a|] == a && s[|a| + 2..] == b && s[|a|..] == CRLF + b && (CRLF + b)[2..] == b
  {
  }

  /** The same round trip for the byte-at-a-time reference, and so for the parser. */
  lemma RunPrinted(lim: Limits, pieces: seq<Bytes>, rest: Bytes)
    requires Fits(lim, pieces)
    ensures Run(lim, Line(NOTHING, SizeLine, ""), EncodeChunks(pieces) + LAST_CHUNK + rest) ==
      Finished(DeliverPieces(NOTHING, pieces).Eof(), rest)
  {
    hide Run, DecodeChunks;
    DecodePrinted(lim, NOTHING, pieces, rest);
    GrammarAgrees(lim, EncodeChunks(pieces) + LAST_CHUNK + rest, NOTHING);
  }
}

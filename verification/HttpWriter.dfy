/** `StreamWriter` (http_writer.py): headers are buffered and coalesced with the first payload,
    the last chunk is coalesced with the terminator; the bytes on the wire are proved to be
    those of the plain, uncoalesced message. */
module HttpWriter {
  import opened ByteStrings
  import Hex
  import opened Headers
  import opened ChunkGrammar

  /** The plain form of a message: what an uncoalesced writer would send, item by item. */
  datatype Item = Head(block: Bytes) | RawPiece(piece: Bytes) | ChunkPiece(piece: Bytes) | LastChunk

  function RenderItem(i: Item): Bytes {
    match i
    case Head(b) => b
    case RawPiece(p) => p
    case ChunkPiece(p) => EncodeChunk(p)
    case LastChunk => LAST_CHUNK
  }

  function Render(items: seq<Item>): Bytes {
    if items == [] then "" else Render(items[..|items| - 1]) + RenderItem(items[|items| - 1])
  }

  /** A piece of body; an empty one is not sent at all. */
  function PieceItems(chunked: bool, piece: Bytes): seq<Item> {
    if piece == "" then [] else if chunked then [ChunkPiece(piece)] else [RawPiece(piece)]
  }

  function EndItems(chunked: bool): seq<Item> { if chunked then [LastChunk] else [] }

  lemma {:induction false} RenderAppend(a: seq<Item>, b: seq<Item>)
    ensures Render(a + b) == Render(a) + Render(b)
  {
    hide RenderItem;
    if b == [] {
      assert a + b == a && Render(a) + "" == Render(a);
    } else {
      var front, last := b[..|b| - 1], b[|b| - 1];
      assert (a + b)[..|a + b| - 1] == a + front;
      RenderAppend(a, front);
      Assoc(Render(a), Render(front), RenderItem(last));
    }
  }

  lemma RenderOne(i: Item)
    ensures Render([i]) == RenderItem(i)
  {
    assert [i][..0] == [] && "" + RenderItem(i) == RenderItem(i);
  }

  lemma RenderPiece(chunked: bool, piece: Bytes)
    ensures Render(PieceItems(chunked, piece)) ==
      if piece == "" then "" else if chunked then EncodeChunk(piece) else piece
  {
    if piece != "" { RenderOne(PieceItems(chunked, piece)[0]); }
  }

  lemma RenderEnd(chunked: bool)
    ensures Render(EndItems(chunked)) == if chunked then LAST_CHUNK else ""
  {
    if chunked { RenderOne(LastChunk); }
  }

  /** One piece and possibly the end of the body. */
  function TailItems(chunked: bool, piece: Bytes, isEof: bool): seq<Item> {
    PieceItems(chunked, piece) + if isEof then EndItems(chunked) else []
  }

  function TailBytes(chunked: bool, piece: Bytes, isEof: bool): Bytes {
    (if piece == "" then "" else if chunked then EncodeChunk(piece) else piece) +
    (if isEof && chunked then LAST_CHUNK else "")
  }

  lemma RenderTail(chunked: bool, piece: Bytes, isEof: bool)
    ensures Render(TailItems(chunked, piece, isEof)) == TailBytes(chunked, piece, isEof)
  {
    hide Render, RenderItem;
    RenderAppend(PieceItems(chunked, piece), if isEof then EndItems(chunked) else []);
    RenderPiece(chunked, piece);
    RenderEnd(chunked);
    RenderNothing();
  }

  lemma RenderBlock(buf: Bytes, tail: seq<Item>)
    ensures Render([Head(buf)] + tail) == buf + Render(tail)
  {
    hide Render;
    RenderAppend([Head(buf)], tail);
    RenderOne(Head(buf));
  }

  lemma EmptyTail(chunked: bool)
    ensures TailItems(chunked, "", false) == []
  {
  }

  lemma RenderNothing()
    ensures Render([]) == ""
  {
  }

  const MIN_PAYLOAD_FOR_WRITELINES := 2048
  const LIMIT := 0x10000

  class Transport {
    var written: Bytes
    var closing: bool

    constructor ()
      ensures written == "" && !closing
    {
      written, closing := "", false;
    }

    method Write(data: Bytes)
      modifies this`written
      ensures written == old(written) + data
    {
      written := written + data;
    }

    method WriteLines(chunks: seq<Bytes>)
      modifies this`written
      ensures written == old(written) + Concat(chunks)
    {
      for i := 0 to |chunks|
        invariant written == old(written) + Concat(chunks[..i])
      {
        Write(chunks[i]);
        assert chunks[..i + 1] == chunks[..i] + [chunks[i]];
        ConcatSnoc(chunks[..i], chunks[i]);
      }
      assert chunks[..|chunks|] == chunks;
    }
  }

  /** A compressor is unseen code: what it returns is arbitrary, and recorded. */
  class Compressor {
    var supply: seq<Bytes> // what the next calls return
    ghost var produced: seq<Bytes>

    method Next() returns (out: Bytes)
      modifies this
      ensures produced == old(produced) + [out]
    {
      out := "";
      if supply != [] {
        out := supply[0];
        supply := supply[1..];
      }
      produced := produced + [out];
    }
  }

  /** `chunk[:length]` of a writer with a declared length. */
  function Cut(length: Option<nat>, chunk: Bytes): Bytes {
    match length
    case None => chunk
    case Some(n) => Take(chunk, n)
  }

  class StreamWriter {
    const transport: Transport
    const skipWritelines: bool
    var length: Option<nat>
    var chunked: bool
    var eof: bool
    var compress: Compressor?
    var headersBuf: Bytes // empty when there is none
    var headersWritten: bool
    var bufferSize: nat
    var outputSize: nat
    ghost var start: Bytes // what the transport held before this writer
    ghost var sent: seq<Item>

    constructor (transport: Transport, skipWritelines: bool)
      ensures Valid() && this.transport == transport && !chunked && !eof && length.None? && compress == null
      ensures Plain() == [] && start == transport.written && headersBuf == "" && !headersWritten
    {
      this.transport, this.skipWritelines := transport, skipWritelines;
      length, chunked, eof, compress, headersBuf, headersWritten := None, false, false, null, "", false;
      bufferSize, outputSize, start, sent := 0, 0, transport.written, [];
    }

    /** The bytes on the wire are the plain rendering of the items sent so far. */
    ghost predicate Valid()
      reads this, transport
    {
      transport.written == start + Render(sent)
    }

    predicate HeadersPending()
      reads this
    {
      headersBuf != "" && !headersWritten
    }

    /** The headers of the current message are buffered or out. */
    predicate Started()
      reads this
    {
      headersWritten || headersBuf != ""
    }

    /** The items sent, and the header block still held back for coalescing. */
    ghost function Plain(): seq<Item>
      reads this
    {
      sent + if HeadersPending() then [Head(headersBuf)] else []
    }

    method WriteOut(chunk: Bytes, ghost items: seq<Item>) returns (ok: bool)
      requires Valid() && chunk == Render(items)
      modifies this`bufferSize, this`outputSize, this`sent, transport`written
      ensures ok == !transport.closing
      ensures ok ==> Valid() && sent == old(sent) + items
    {
      bufferSize, outputSize := bufferSize + |chunk|, outputSize + |chunk|;
      if transport.closing { return false; } // ClientConnectionResetError
      transport.Write(chunk);
      Sent(items);
      return true;
    }

    method WriteLines(chunks: seq<Bytes>, ghost items: seq<Item>) returns (ok: bool)
      requires Valid() && Concat(chunks) == Render(items)
      modifies this`bufferSize, this`outputSize, this`sent, transport`written
      ensures ok == !transport.closing
      ensures ok ==> Valid() && sent == old(sent) + items
    {
      var size := |Concat(chunks)|;
      bufferSize, outputSize := bufferSize + size, outputSize + size;
      if transport.closing { return false; }
      if skipWritelines || size < MIN_PAYLOAD_FOR_WRITELINES {
        transport.Write(Concat(chunks));
      } else {
        transport.WriteLines(chunks);
      }
      Sent(items);
      return true;
    }

    ghost method Sent(items: seq<Item>)
      requires transport.written == start + Render(sent) + Render(items)
      modifies this`sent
      ensures Valid() && sent == old(sent) + items
    {
      hide Render;
      RenderAppend(sent, items);
      assert start + Render(sent) + Render(items) == start + (Render(sent) + Render(items));
      sent := sent + items;
    }

    method EnableChunking()
      modifies this`chunked
      ensures chunked
    {
      chunked := true;
    }

    /** `_write_chunked_payload` */
    method WriteChunkedPayload(chunk: Bytes) returns (ok: bool)
      requires Valid() && chunk != ""
      modifies this`bufferSize, this`outputSize, this`sent, transport`written
      ensures ok == !transport.closing
      ensures ok ==> Valid() && sent == old(sent) + [ChunkPiece(chunk)]
    {
      RenderOne(ChunkPiece(chunk));
      ConcatThree(Hex.ToHex(|chunk|) + CRLF, chunk, CRLF);
      ok := WriteLines([Hex.ToHex(|chunk|) + CRLF, chunk, CRLF], [ChunkPiece(chunk)]);
    }

    /** Take the pending header block out of the buffer. */
    method TakeHeaders() returns (buf: Bytes)
      requires HeadersPending()
      modifies this`headersBuf, this`headersWritten
      ensures buf == old(headersBuf) && headersBuf == "" && headersWritten
    {
      headersWritten := true;
      buf := headersBuf;
      headersBuf := "";
    }

    /** `_send_headers_with_payload`: one transport write for the headers, the chunk and, at the
        end, the terminator. */
    method SendHeadersWithPayload(chunk: Bytes, isEof: bool) returns (ok: bool)
      requires Valid() && HeadersPending()
      modifies this`bufferSize, this`outputSize, this`sent, this`headersBuf, this`headersWritten, transport`written
      ensures ok == !transport.closing && headersBuf == "" && headersWritten
      ensures ok ==> Valid() && Plain() == old(Plain()) + TailItems(chunked, chunk, isEof)
    {
      hide Render, Concat, TailItems, EncodeChunk;
      var buf := TakeHeaders();
      ghost var tail := TailItems(chunked, chunk, isEof);
      RenderBlock(buf, tail);
      RenderTail(chunked, chunk, isEof);
      Assoc(sent, [Head(buf)], tail);
      if !chunked {
        assert TailBytes(chunked, chunk, isEof) == chunk;
        if chunk != "" {
          ConcatTwo(buf, chunk);
          ok := WriteLines([buf, chunk], [Head(buf)] + tail);
        } else {
          ok := WriteOut(buf, [Head(buf)] + tail);
        }
      } else if chunk != "" {
        ChunkInBlock(buf, chunk);
        if isEof {
          ok := WriteLines([buf, Hex.ToHex(|chunk|) + CRLF, chunk, CRLF + LAST_CHUNK], [Head(buf)] + tail);
        } else {
          ok := WriteLines([buf, Hex.ToHex(|chunk|) + CRLF, chunk, CRLF], [Head(buf)] + tail);
        }
      } else if isEof {
        ConcatTwo(buf, LAST_CHUNK);
        ok := WriteLines([buf, LAST_CHUNK], [Head(buf)] + tail);
      } else {
        ok := WriteOut(buf, [Head(buf)] + tail);
      }
    }

    static lemma ChunkInBlock(buf: Bytes, chunk: Bytes)
      ensures Concat([buf, Hex.ToHex(|chunk|) + CRLF, chunk, CRLF]) == buf + TailBytes(true, chunk, false) ||
        chunk == ""
      ensures Concat([buf, Hex.ToHex(|chunk|) + CRLF, chunk, CRLF + LAST_CHUNK]) ==
        buf + TailBytes(true, chunk, true) || chunk == ""
    {
      hide Concat;
      var pre := Hex.ToHex(|chunk|) + CRLF;
      InBlock(buf, pre, chunk, CRLF);
      InBlock(buf, pre, chunk, CRLF + LAST_CHUNK);
      Assoc(pre + chunk, CRLF, LAST_CHUNK);
    }

    static lemma InBlock(a: Bytes, b: Bytes, c: Bytes, d: Bytes)
      ensures Concat([a, b, c, d]) == a + (b + c + d)
    {
      ConcatFour([], a, b, c, d);
      ConcatNothing();
      assert [] + [a, b, c, d] == [a, b, c, d];
      assert "" + (a + b + c + d) == a + (b + c + d);
    }

    static lemma ConcatTwo(a: Bytes, b: Bytes)
      ensures Concat([a, b]) == a + b
    {
      ConcatSnoc([a], b);
      ConcatSnoc([], a);
      assert [] + [a] == [a] && [a] + [b] == [a, b] && "" + a == a;
    }

    static lemma ConcatThree(a: Bytes, b: Bytes, c: Bytes)
      ensures Concat([a, b, c]) == a + b + c
    {
      ConcatTwo(a, b);
      ConcatSnoc([a, b], c);
      assert [a, b] + [c] == [a, b, c];
    }

    /** The declared length bounds what `write` lets through. */
    method CutToLength(chunk: Bytes) returns (cut: Bytes)
      modifies this`length
      ensures cut == Cut(old(length), chunk)
      ensures length == if old(length).Some? then Some(old(length).value - |cut|) else None
    {
      if length.None? { return chunk; }
      if length.value >= |chunk| {
        assert chunk[..|chunk|] == chunk;
        length := Some(length.value - |chunk|);
        return chunk;
      }
      cut := chunk[..length.value];
      length := Some(0);
    }

    /** `write`, from the compressed piece on: cut to what is left of a declared length. */
    method WriteFramed(body: Bytes) returns (ok: bool)
      requires Valid()
      modifies this`bufferSize, this`outputSize, this`sent, this`headersBuf, this`headersWritten, this`length,
        transport`written
      ensures !transport.closing ==> ok
      ensures ok ==> Valid() && Plain() == old(Plain()) + TailItems(chunked, Cut(old(length), body), false)
      ensures length == if old(length).Some? then Some(old(length).value - |Cut(old(length), body)|) else None
      ensures old(Started()) ==> Started()
    {
      hide Render, TailItems;
      EmptyTail(chunked);
      var cut := CutToLength(body);
      if cut == "" && body != "" { return true; }
      if HeadersPending() {
        ok := SendHeadersWithPayload(cut, false);
      } else {
        ok := WriteBody(cut);
      }
    }

    /** `write` */
    method Write(chunk: Bytes, drain: bool := true) returns (ok: bool)
      requires Valid()
      modifies this`bufferSize, this`outputSize, this`sent, this`headersBuf, this`headersWritten, this`length,
        transport`written, compress
      ensures !transport.closing ==> ok
      ensures ok ==> Valid()
      ensures compress != null ==> |compress.produced| == old(|compress.produced|) + 1
      ensures var body := if compress == null then chunk else compress.produced[|compress.produced| - 1];
        && (ok ==> Plain() == old(Plain()) + TailItems(chunked, Cut(old(length), body), false))
        && length == if old(length).Some? then Some(old(length).value - |Cut(old(length), body)|) else None
      ensures old(Started()) ==> Started()
    {
      hide Render, TailItems;
      EmptyTail(chunked);
      var body := chunk;
      if compress != null {
        body := compress.Next();
        if body == "" { return true; }
      }
      ok := WriteFramed(body);
      if ok && drain && bufferSize > LIMIT { bufferSize := 0; }
    }

    /** A piece once the headers are out of the way. */
    method WriteBody(body: Bytes) returns (ok: bool)
      requires Valid() && !HeadersPending()
      modifies this`bufferSize, this`outputSize, this`sent, transport`written
      ensures !transport.closing ==> ok
      ensures ok ==> Valid() && sent == old(sent) + TailItems(chunked, body, false)
    {
      hide Render, EncodeChunk;
      if body == "" { return true; }
      if chunked {
        ok := WriteChunkedPayload(body);
      } else {
        RenderOne(RawPiece(body));
        ok := WriteOut(body, [RawPiece(body)]);
      }
    }

    /** `write_headers`: nothing is sent yet. */
    method WriteHeaders(statusLine: Bytes, headers: seq<Header>) returns (r: Result<(), HttpError>)
      requires Valid()
      modifies this`headersBuf, this`headersWritten
      ensures Valid()
      ensures r.Ok? == AllSafe(statusLine, headers)
      ensures r.Ok? ==> HeadersPending() && Plain() == sent + [Head(Serialize(statusLine, headers).value)]
      ensures r.Err? ==> r.error == ForbiddenCharacter && Plain() == old(Plain())
    {
      var buf := Serialize(statusLine, headers);
      if buf.Err? { return Err(buf.error); }
      headersWritten := false;
      headersBuf := buf.value;
      return Ok(());
    }

    /** `send_headers` */
    method SendHeaders() returns (ok: bool)
      requires Valid()
      modifies this`bufferSize, this`outputSize, this`sent, this`headersBuf, this`headersWritten, transport`written
      ensures !transport.closing ==> ok
      ensures ok ==> Valid() && Plain() == old(Plain()) && !HeadersPending()
    {
      if headersBuf == "" || headersWritten { return true; }
      headersWritten := true;
      var buf := headersBuf;
      headersBuf := "";
      RenderOne(Head(buf));
      ok := WriteOut(buf, [Head(buf)]);
    }

    method FlushHeadersAtEof() returns (ok: bool)
      requires Valid() && HeadersPending()
      modifies this`bufferSize, this`outputSize, this`sent, this`headersBuf, this`headersWritten, transport`written
      ensures ok == !transport.closing && headersBuf == "" && headersWritten
      ensures ok ==> Valid() && Plain() == old(Plain()) + EndItems(chunked)
    {
      hide Render, Concat, EndItems;
      var buf := TakeHeaders();
      RenderBlock(buf, EndItems(chunked));
      RenderEnd(chunked);
      Assoc(sent, [Head(buf)], EndItems(chunked));
      if chunked {
        ConcatTwo(buf, LAST_CHUNK);
        ok := WriteLines([buf, LAST_CHUNK], [Head(buf)] + EndItems(chunked));
      } else {
        ok := WriteOut(buf, [Head(buf)] + EndItems(chunked));
      }
    }

    /** `set_eof`: pending headers go out with the terminator; without any headers a chunked
        writer sends no terminator. */
    method SetEof() returns (ok: bool)
      requires Valid()
      modifies this`bufferSize, this`outputSize, this`sent, this`headersBuf, this`headersWritten, this`eof,
        transport`written
      ensures !transport.closing ==> ok
      ensures ok ==> Valid() && eof && (old(eof) || !HeadersPending())
      ensures ok ==>
        Plain() ==
        old(Plain()) + if !old(eof) && old(headersWritten || HeadersPending()) then EndItems(chunked) else []
    {
      hide Render, Concat, EndItems, TailItems, RenderItem;
      if eof {
        assert Plain() + [] == Plain();
        return true;
      }
      ok := true;
      if HeadersPending() {
        ok := FlushHeadersAtEof();
      } else if chunked && headersWritten {
        ok := WriteLastChunk();
      } else {
        NoEnd(chunked);
        assert Plain() + [] == Plain();
      }
      if ok { eof := true; }
    }

    static lemma NoEnd(chunked: bool)
      ensures !chunked ==> EndItems(chunked) == []
    {
    }

    method WriteLastChunk() returns (ok: bool)
      requires Valid() && chunked && !HeadersPending()
      modifies this`bufferSize, this`outputSize, this`sent, transport`written
      ensures ok == !transport.closing
      ensures ok ==> Valid() && Plain() == old(Plain()) + EndItems(chunked)
    {
      hide Render, EndItems, RenderItem;
      RenderEnd(chunked);
      ok := WriteOut(LAST_CHUNK, EndItems(chunked));
      assert sent + [] == sent;
    }

    /** The compressed rest of the body, framed as one chunk however many pieces it comes in. */
    method WriteCompressedEof(chunks: seq<Bytes>) returns (ok: bool)
      requires Valid() && chunks != [] && Concat(chunks) != ""
      modifies this`bufferSize, this`outputSize, this`sent, this`headersBuf, this`headersWritten, transport`written
      ensures ok == !transport.closing
      ensures ok ==> Valid() && Plain() == old(Plain()) + TailItems(chunked, Concat(chunks), true)
      ensures !HeadersPending()
    {
      hide Render, TailItems, EncodeChunk, Concat;
      var body := Concat(chunks);
      ghost var tail := TailItems(chunked, body, true);
      RenderTail(chunked, body, true);
      var pre := Hex.ToHex(|body|) + CRLF;
      ConcatPieces("", pre, chunks, CRLF + LAST_CHUNK);
      ChunkBytes(body);
      if HeadersPending() {
        var buf := TakeHeaders();
        RenderBlock(buf, tail);
        Assoc(sent, [Head(buf)], tail);
        if chunked {
          ConcatPieces(buf, pre, chunks, CRLF + LAST_CHUNK);
          ok := WriteLines([buf, pre] + chunks + [CRLF + LAST_CHUNK], [Head(buf)] + tail);
        } else {
          ConcatHead(buf, chunks);
          ok := WriteLines([buf] + chunks, [Head(buf)] + tail);
        }
      } else if chunked {
        ok := WriteLines([pre] + chunks + [CRLF + LAST_CHUNK], tail);
      } else if |chunks| > 1 {
        ok := WriteLines(chunks, tail);
      } else {
        ConcatHead(chunks[0], []);
        assert [chunks[0]] + [] == chunks && chunks[0] + "" == chunks[0];
        ConcatNothing();
        ok := WriteOut(chunks[0], tail);
      }
    }

    static lemma ConcatHead(a: Bytes, chunks: seq<Bytes>)
      ensures Concat([a] + chunks) == a + Concat(chunks)
    {
      assert ([a] + chunks)[1..] == chunks;
    }

    static lemma ConcatPieces(buf: Bytes, pre: Bytes, chunks: seq<Bytes>, end: Bytes)
      ensures Concat([buf, pre] + chunks + [end]) == buf + (pre + Concat(chunks) + end)
      ensures Concat([pre] + chunks + [end]) == pre + Concat(chunks) + end
    {
      hide Concat;
      ConcatSnoc([pre] + chunks, end);
      ConcatHead(pre, chunks);
      assert [buf, pre] + chunks + [end] == [buf] + ([pre] + chunks + [end]);
      ConcatHead(buf, [pre] + chunks + [end]);
    }

    static lemma ChunkBytes(body: Bytes)
      requires body != ""
      ensures TailBytes(true, body, true) == Hex.ToHex(|body|) + CRLF + body + (CRLF + LAST_CHUNK)
      ensures TailBytes(false, body, true) == body
    {
      var pre := Hex.ToHex(|body|) + CRLF;
      Assoc(pre + body, CRLF, LAST_CHUNK);
    }

    /** `write_eof`: the last piece, the terminator and any pending headers. Unlike `write`, it
        does not cut the piece to the declared length. */
    method WriteEof(chunk: Bytes := "") returns (ok: bool)
      requires Valid()
      modifies this`bufferSize, this`outputSize, this`sent, this`headersBuf, this`headersWritten, this`eof,
        transport`written, compress
      ensures !transport.closing && compress == null ==> ok
      ensures ok ==> Valid() && eof
      ensures ok && old(eof) ==> Plain() == old(Plain()) && transport.written == old(transport.written)
      ensures compress != null ==> old(|compress.produced|) <= |compress.produced|
      ensures ok && !old(eof) ==> !HeadersPending()
      ensures ok && !old(eof) && compress == null ==> Plain() == old(Plain()) + TailItems(chunked, chunk, true)
      ensures ok && !old(eof) && compress != null ==>
        Plain() == old(Plain()) + TailItems(chunked, Concat(compress.produced[old(|compress.produced|)..]), true)
    {
      hide Render, TailItems;
      if eof { return true; }
      if compress != null {
        ok := CompressEof(chunk);
      } else if HeadersPending() {
        ok := SendHeadersWithPayload(chunk, true);
      } else {
        ok := WriteLast(chunk);
      }
      if ok { eof := true; }
    }

    method CompressEof(chunk: Bytes) returns (ok: bool)
      requires Valid() && compress != null
      modifies this`bufferSize, this`outputSize, this`sent, this`headersBuf, this`headersWritten, transport`written,
        compress
      ensures old(|compress.produced|) <= |compress.produced|
      ensures ok ==> Valid() && !HeadersPending()
      ensures ok ==>
        Plain() ==
        old(Plain()) + TailItems(chunked, Concat(compress.produced[old(|compress.produced|)..]), true)
    {
      hide Render, TailItems, Concat;
      var chunks: seq<Bytes> := [];
      ghost var was := compress.produced;
      if chunk != "" {
        var c := compress.Next();
        if c != "" { chunks := [c]; }
        EmptyPiece(c);
        assert compress.produced[|was|..] == [c];
      }
      ConcatNothing();
      ghost var sofar := compress.produced[|was|..];
      var flush := compress.Next();
      assert compress.produced[|was|..] == sofar + [flush];
      ConcatSnoc(sofar, flush);
      ConcatSnoc(chunks, flush);
      chunks := chunks + [flush];
      if Concat(chunks) == "" { return false; } // assert chunks_len
      ok := WriteCompressedEof(chunks);
    }

    static lemma EmptyPiece(c: Bytes)
      ensures Concat([c]) == c
    {
      ConcatHead(c, []);
      assert [c] + [] == [c] && c + "" == c;
    }

    /** The last piece with the headers already out. */
    method WriteLast(chunk: Bytes) returns (ok: bool)
      requires Valid() && !HeadersPending()
      modifies this`bufferSize, this`outputSize, this`sent, transport`written
      ensures !transport.closing ==> ok
      ensures ok ==> Valid() && sent == old(sent) + TailItems(chunked, chunk, true)
    {
      hide Render, Concat, EncodeChunk, TailItems;
      ghost var tail := TailItems(chunked, chunk, true);
      RenderTail(chunked, chunk, true);
      if chunked {
        if chunk != "" {
          ConcatThree(Hex.ToHex(|chunk|) + CRLF, chunk, CRLF + LAST_CHUNK);
          ChunkBytes(chunk);
          ok := WriteLines([Hex.ToHex(|chunk|) + CRLF, chunk, CRLF + LAST_CHUNK], tail);
        } else {
          ok := WriteOut(LAST_CHUNK, tail);
        }
      } else if chunk != "" {
        ok := WriteOut(chunk, tail);
      } else {
        EmptyRawTail();
        ok := true;
      }
    }

    static lemma EmptyRawTail()
      ensures TailItems(false, "", true) == []
    {
    }
  }

  // ---- whole messages ----------------------------------------------------------------------

  function NonEmpty(pieces: seq<Bytes>): seq<Bytes> {
    if pieces == [] then []
    else NonEmpty(pieces[..|pieces| - 1]) + if pieces[|pieces| - 1] == "" then [] else [pieces[|pieces| - 1]]
  }

  /** The items of a list of pieces. */
  function BodyItems(chunked: bool, pieces: seq<Bytes>): seq<Item> {
    if pieces == [] then []
    else BodyItems(chunked, pieces[..|pieces| - 1]) + TailItems(chunked, pieces[|pieces| - 1], false)
  }

  /** The plain body: nonempty pieces as chunks, or all pieces back to back. */
  function BodyBytes(chunked: bool, pieces: seq<Bytes>): Bytes {
    if chunked then EncodeChunks(NonEmpty(pieces)) else Concat(pieces)
  }

  lemma {:induction false} RenderBody(chunked: bool, pieces: seq<Bytes>)
    ensures Render(BodyItems(chunked, pieces)) == BodyBytes(chunked, pieces)
  {
    hide Render, TailItems, EncodeChunk;
    if pieces == [] {
      RenderNothing();
    } else {
      var front, last := pieces[..|pieces| - 1], pieces[|pieces| - 1];
      assert pieces == front + [last];
      RenderBody(chunked, front);
      RenderAppend(BodyItems(chunked, front), TailItems(chunked, last, false));
      RenderTail(chunked, last, false);
      ConcatSnoc(front, last);
      if last != "" {
        EncodeAppend(NonEmpty(front), [last]);
        assert [last][1..] == [] && EncodeChunks([last]) == EncodeChunk(last) + "";
      } else {
        assert NonEmpty(pieces) == NonEmpty(front);
      }
    }
  }

  lemma BodySnoc(chunked: bool, pieces: seq<Bytes>, piece: Bytes)
    ensures BodyItems(chunked, pieces + [piece]) == BodyItems(chunked, pieces) + TailItems(chunked, piece, false)
  {
    assert (pieces + [piece])[..|pieces|] == pieces;
  }

  /** What a declared length leaves of each piece. */
  function CutPieces(length: Option<nat>, pieces: seq<Bytes>): seq<Bytes>
    decreases |pieces|
  {
    if pieces == [] then []
    else
      var cut := Cut(length, pieces[0]);
      [cut] + CutPieces(if length.Some? then Some(length.value - |cut|) else None, pieces[1..])
  }

  /** Cutting piece by piece is cutting the whole. */
  lemma {:induction false} CutIsPrefix(length: Option<nat>, pieces: seq<Bytes>)
    ensures Concat(CutPieces(length, pieces)) == Cut(length, Concat(pieces))
    decreases |pieces|
  {
    if pieces != [] {
      var cut := Cut(length, pieces[0]);
      var left := if length.Some? then Some(length.value - |cut|) else None;
      CutIsPrefix(left, pieces[1..]);
      assert CutPieces(length, pieces)[1..] == CutPieces(left, pieces[1..]);
      assert Concat(CutPieces(length, pieces)) == cut + Cut(left, Concat(pieces[1..]));
      if length.Some? { TakeOfConcat(pieces[0], Concat(pieces[1..]), length.value); }
    }
  }

  lemma TakeOfConcat(a: Bytes, b: Bytes, n: nat)
    ensures Take(a, n) + Take(b, n - |Take(a, n)|) == Take(a + b, n)
  {
  }

  datatype Ending = WriteEofWith(last: Bytes) | SetEofOnly

  /** The pieces that make up the body: `write` cuts to the declared length, `write_eof` does not. */
  function BodyPieces(length: Option<nat>, pieces: seq<Bytes>, ending: Ending): seq<Bytes> {
    CutPieces(length, pieces) + if ending.WriteEofWith? then [ending.last] else []
  }

  /** So the body is what was written, cut to the declared length, and whatever ends it. */
  lemma BodyIs(length: Option<nat>, pieces: seq<Bytes>, ending: Ending)
    ensures Concat(BodyPieces(length, pieces, ending)) ==
      (if length.Some? then Take(Concat(pieces), length.value) else Concat(pieces)) +
      (if ending.WriteEofWith? then ending.last else "")
  {
    hide Concat, CutPieces;
    CutIsPrefix(length, pieces);
    if ending.WriteEofWith? {
      ConcatSnoc(CutPieces(length, pieces), ending.last);
    } else {
      assert BodyPieces(length, pieces, ending) == CutPieces(length, pieces);
      assert Cut(length, Concat(pieces)) + "" == Cut(length, Concat(pieces));
    }
  }

  /** One header block, the body, and exactly one terminator when chunked. */
  function PlainMessage(block: Bytes, chunked: bool, pieces: seq<Bytes>): Bytes {
    block + BodyBytes(chunked, pieces) + if chunked then LAST_CHUNK else ""
  }

  /** Coalescing refines plain output: however `write` and the two ways of ending merge headers,
      chunks and terminator, the transport receives one header block followed by the plain body
      and, when chunked, exactly one terminator. A declared length bounds what `write` sends,
      but not the piece given to `write_eof`. */
  method SendMessage(transport: Transport, skipWritelines: bool, statusLine: Bytes, headers: seq<Header>,
                     chunked: bool, length: Option<nat>, pieces: seq<Bytes>, ending: Ending)
    returns (ok: bool)
    requires !transport.closing
    modifies transport
    ensures ok == AllSafe(statusLine, headers) && !transport.closing
    ensures ok ==>
      var block := Serialize(statusLine, headers).value;
      transport.written == old(transport.written) + PlainMessage(block, chunked, BodyPieces(length, pieces, ending))
    ensures !ok ==> transport.written == old(transport.written)
  {
    hide Render, TailItems, BodyItems, BodyBytes, CutPieces, AllSafe, EndItems;
    var w := new StreamWriter(transport, skipWritelines);
    if chunked { w.EnableChunking(); }
    w.length := length;
    var r := w.WriteHeaders(statusLine, headers);
    if r.Err? { return false; }
    ghost var block := Serialize(statusLine, headers).value;
    ghost var head := [Head(block)];
    ghost var cuts := WritePieces(w, pieces, head);
    ghost var all := cuts + if ending.WriteEofWith? then [ending.last] else [];
    match ending {
      case WriteEofWith(last) =>
        ok := w.WriteEof(last);
        TailSplit(chunked, last);
        Assoc(BodyItems(chunked, cuts), TailItems(chunked, last, false), EndItems(chunked));
        Assoc(head, BodyItems(chunked, cuts), TailItems(chunked, last, true));
        BodySnoc(chunked, cuts, last);
      case SetEofOnly =>
        ok := w.SetEof();
        assert all == cuts;
        Assoc(head, BodyItems(chunked, cuts), EndItems(chunked));
    }
    assert w.sent == head + (BodyItems(chunked, all) + EndItems(chunked));
    RenderMessage(block, chunked, all);
    assert all == BodyPieces(length, pieces, ending);
  }

  lemma TailSplit(chunked: bool, last: Bytes)
    ensures TailItems(chunked, last, true) == TailItems(chunked, last, false) + EndItems(chunked)
  {
  }

  lemma RenderMessage(block: Bytes, chunked: bool, pieces: seq<Bytes>)
    ensures Render([Head(block)] + (BodyItems(chunked, pieces) + EndItems(chunked))) ==
      PlainMessage(block, chunked, pieces)
  {
    hide Render, BodyItems, BodyBytes, EndItems;
    RenderBlock(block, BodyItems(chunked, pieces) + EndItems(chunked));
    RenderAppend(BodyItems(chunked, pieces), EndItems(chunked));
    RenderBody(chunked, pieces);
    RenderEnd(chunked);
    Assoc(block, BodyBytes(chunked, pieces), if chunked then LAST_CHUNK else "");
  }

  /** A run of `write` calls after `write_headers`. */
  method WritePieces(w: StreamWriter, pieces: seq<Bytes>, ghost head: seq<Item>) returns (ghost cuts: seq<Bytes>)
    requires w.Valid() && w.Started() && !w.eof && w.compress == null && !w.transport.closing && w.Plain() == head
    modifies w, w.transport`written
    ensures w.Valid() && w.Started() && !w.eof && w.compress == null && w.chunked == old(w.chunked) &&
      w.start == old(w.start)
    ensures cuts == CutPieces(old(w.length), pieces) && w.Plain() == head + BodyItems(w.chunked, cuts)
  {
    hide Render, TailItems, BodyItems, CutPieces;
    cuts := [];
    NoBody(w.chunked);
    assert head + [] == head;
    for i := 0 to |pieces|
      invariant w.Valid() && w.Started() && !w.eof && w.compress == null && w.chunked == old(w.chunked) &&
        w.start == old(w.start)
      invariant w.Plain() == head + BodyItems(w.chunked, cuts)
      invariant CutPieces(old(w.length), pieces) == cuts + CutPieces(w.length, pieces[i..])
    {
      ghost var cut := Cut(w.length, pieces[i]);
      CutStep(w.length, pieces[i..]);
      assert pieces[i..][1..] == pieces[i + 1..];
      var sent := w.Write(pieces[i]);
      BodySnoc(w.chunked, cuts, cut);
      Assoc(head, BodyItems(w.chunked, cuts), TailItems(w.chunked, cut, false));
      Assoc(cuts, [cut], CutPieces(w.length, pieces[i + 1..]));
      cuts := cuts + [cut];
    }
    CutStep(w.length, []);
    assert pieces[|pieces|..] == [] && cuts + [] == cuts;
  }

  lemma NoBody(chunked: bool)
    ensures BodyItems(chunked, []) == []
  {
  }

  lemma CutStep(length: Option<nat>, pieces: seq<Bytes>)
    ensures pieces == [] ==> CutPieces(length, pieces) == []
    ensures pieces != [] ==>
      var cut := Cut(length, pieces[0]);
      CutPieces(length, pieces) ==
        [cut] + CutPieces(if length.Some? then Some(length.value - |cut|) else None, pieces[1..])
  {
  }
}

/** The body of a chunked request on its last stretch: what the parser delivers is told to a
    `StreamReader`, in any blocks, and `readchunk` gives back the pieces that were written, one each. */
module ChunkDelivery {
  import opened ByteStrings
  import opened Headers
  import opened PayloadMachine
  import opened ChunkGrammar
  import opened HttpMachine
  import opened HttpParser
  import opened Streams
  import opened Framing
  import opened WireRoundTrip
  import opened Pipelines
  import HttpWriter

  function Told(d: Delivery, e: Event): Delivery {
    match e
    case Feed(data) => d.Add(data)
    case BeginChunk => d.Begin()
    case EndChunk => d.End()
    case Eof => d.Eof()
  }

  /** The log of what a payload object is told, call by call. */
  function Logged(calls: seq<Event>): Delivery {
    if calls == [] then NOTHING else Told(Logged(calls[..|calls| - 1]), calls[|calls| - 1])
  }

  lemma LoggedNext(calls: seq<Event>, i: nat)
    requires i < |calls|
    ensures Logged(calls[..i + 1]) == Told(Logged(calls[..i]), calls[i])
  {
    assert calls[..i + 1][..i] == calls[..i];
  }

  /** A log is only added to, at its end and with the count of bytes reached. */
  lemma {:induction false} LoggedGrows(calls: seq<Event>, i: nat)
    requires i <= |calls|
    ensures var d, all := Logged(calls[..i]), Logged(calls);
      d.Before(all) && forall k :: |d.begins| <= k < |all.begins| ==> all.begins[k] >= |d.data|
    decreases |calls|
  {
    if i == |calls| {
      assert calls[..i] == calls;
    } else {
      var front := calls[..|calls| - 1];
      assert front[..i] == calls[..i];
      LoggedGrows(front, i);
    }
  }

  lemma {:induction false} PieceEnds(out: Delivery, pieces: seq<Bytes>, i: nat)
    requires i < |pieces|
    ensures var d := DeliverPieces(out, pieces);
      |d.ends| == |out.ends| + |pieces| && |d.begins| == |out.begins| + |pieces| && out.ends <= d.ends &&
        out.begins <= d.begins
      && d.ends[|out.ends| + i] == |out.data| + |Concat(pieces[..i + 1])|
      && d.begins[|out.begins|] == |out.data|
    decreases |pieces|
  {
    var next := out.Begin().Add(pieces[0]).End();
    assert pieces[..i + 1] == [pieces[0]] + pieces[1..][..i];
    assert Concat(pieces[..i + 1]) == pieces[0] + Concat(pieces[1..][..i]);
    if i > 0 {
      PieceEnds(next, pieces[1..], i - 1);
    } else {
      assert Concat(pieces[1..][..0]) == "";
      if |pieces| > 1 { PieceEnds(next, pieces[1..], 0); } else { assert pieces[1..] == []; }
    }
  }

  /** The ends of the pieces in their concatenation. */
  function Ends(pieces: seq<Bytes>): seq<int> {
    seq(|pieces|, i requires 0 <= i < |pieces| => |Concat(pieces[..i + 1])|)
  }

  lemma EndsOfPieces(pieces: seq<Bytes>)
    requires AllNonEmpty(pieces)
    ensures var d := DeliverPieces(NOTHING, pieces);
      d.ends == Ends(pieces) && d.data == Concat(pieces) && |d.begins| == |pieces| &&
        (pieces != [] ==> d.begins[0] == 0)
    ensures forall i :: 0 <= i < |pieces| ==> Ends(pieces)[i] == |Concat(pieces[..i])| + |pieces[i]|
    ensures forall i :: 0 <= i < |pieces| ==> Ends(pieces)[i] > if i == 0 then 0 else Ends(pieces)[i - 1]
  {
    hide Concat;
    DeliveredData(NOTHING, pieces);
    assert "" + Concat(pieces) == Concat(pieces);
    var d := DeliverPieces(NOTHING, pieces);
    forall i | 0 <= i < |pieces|
      ensures |d.begins| == |pieces| && d.begins[0] == 0
      ensures |d.ends| == |pieces| && d.ends[i] == Ends(pieces)[i] == |Concat(pieces[..i])| + |pieces[i]|
    {
      PieceEnds(NOTHING, pieces, i);
      assert pieces[..i + 1] == pieces[..i] + [pieces[i]];
      ConcatSnoc(pieces[..i], pieces[i]);
    }
    assert |d.ends| == |pieces|;
  }

  /** The reader after being told `d`. */
  ghost predicate Holds(reader: StreamReader, d: Delivery)
    reads reader
  {
    && reader.Valid() && reader.inbox == [] && !reader.eof
    && reader.Buffered() == reader.fed == d.data && reader.cursor == 0 && reader.totalBytes == |d.data|
    && reader.splits == (if d.begins == [] then None else Some(d.ends))
    && (d.begins == [] ==> d.data == "" && d.ends == [])
  }

  lemma EndIsNew(pieces: seq<Bytes>, d: Delivery)
    requires AllNonEmpty(pieces) && d.End().Before(DeliverPieces(NOTHING, pieces))
    ensures |d.data| > if d.ends == [] then 0 else d.ends[|d.ends| - 1]
  {
    EndsOfPieces(pieces);
    var all, k := Ends(pieces), |d.ends|;
    assert all[k] == d.End().ends[k] == |d.data|;
    if k > 0 { assert all[k - 1] == d.End().ends[k - 1] == d.ends[k - 1]; }
  }

  /** Data comes in chunks only. */
  lemma ChunkBegun(pieces: seq<Bytes>, calls: seq<Event>, i: nat)
    requires AllNonEmpty(pieces) && Logged(calls) == DeliverPieces(NOTHING, pieces) && i <= |calls|
    ensures Logged(calls[..i]).begins == [] ==> Logged(calls[..i]).data == "" && Logged(calls[..i]).ends == []
  {
    LoggedGrows(calls, i);
    EndsOfPieces(pieces);
    var d, all := Logged(calls[..i]), Logged(calls);
    if d.begins == [] {
      if pieces == [] {
        assert |d.data| <= |all.data| == |Concat(pieces)| == 0;
      } else {
        assert all.begins[0] >= |d.data|;
      }
      if d.ends != [] { EndIsReached(calls[..i], 0); }
    }
  }

  lemma {:induction false} EndIsReached(calls: seq<Event>, k: nat)
    requires k < |Logged(calls).ends|
    ensures Logged(calls).ends[k] <= |Logged(calls).data|
    decreases |calls|
  {
    var before := Logged(calls[..|calls| - 1]);
    if k < |before.ends| { EndIsReached(calls[..|calls| - 1], k); }
  }

  method TellOne(reader: StreamReader, call: Event, ghost d: Delivery, ghost pieces: seq<Bytes>)
    requires Holds(reader, d) && call != Eof && AllNonEmpty(pieces) &&
      Told(d, call).Before(DeliverPieces(NOTHING, pieces))
    requires Told(d, call).begins == [] ==> Told(d, call).data == "" && Told(d, call).ends == []
    modifies reader
    ensures Holds(reader, Told(d, call))
  {
    hide StreamReader.SplitsValid, Concat, StreamReader.Buffered, DeliverPieces;
    match call {
      case Feed(data) =>
        reader.FeedData(data);
        assert reader.fed[|d.data|..] == data;
      case BeginChunk =>
        var raised := reader.BeginHttpChunkReceiving();
        assert d.data[|d.data|..] == "" && d.data + "" == d.data;
      case EndChunk =>
        EndIsNew(pieces, d);
        var raised := reader.EndHttpChunkReceiving();
        assert d.data[|d.data|..] == "" && d.data + "" == d.data;
    }
  }

  /** All that the parser delivers of a chunked body, in any blocks. */
  method Tell(reader: StreamReader, calls: seq<Event>, ghost pieces: seq<Bytes>)
    requires Holds(reader, NOTHING) && Eof !in calls && AllNonEmpty(pieces) &&
      Logged(calls) == DeliverPieces(NOTHING, pieces)
    modifies reader
    ensures reader.Valid() && reader.inbox == [] && reader.eof && reader.Buffered() == reader.fed == Concat(pieces)
    ensures reader.cursor == 0 && reader.splits == if pieces == [] then None else Some(Ends(pieces))
  {
    hide Holds, Told, DeliverPieces, Concat;
    assert calls[..0] == [];
    for i := 0 to |calls|
      invariant Holds(reader, Logged(calls[..i]))
    {
      LoggedNext(calls, i);
      LoggedGrows(calls, i + 1);
      ChunkBegun(pieces, calls, i + 1);
      assert calls[i] in calls;
      TellOne(reader, calls[i], Logged(calls[..i]), pieces);
    }
    assert calls[..|calls|] == calls;
    EndsOfPieces(pieces);
    End(reader, Logged(calls));
  }

  method End(reader: StreamReader, ghost d: Delivery)
    requires Holds(reader, d)
    modifies reader
    ensures reader.Valid() && reader.inbox == [] && reader.eof && reader.Buffered() == reader.fed == d.data
    ensures reader.cursor == 0 && reader.splits == if d.begins == [] then None else Some(d.ends)
  {
    hide StreamReader.SplitsValid, Concat, StreamReader.Buffered;
    reader.FeedEof();
    assert d.data[|d.data|..] == "" && d.data + "" == d.data;
  }

  lemma PieceTaken(pieces: seq<Bytes>, i: nat, data: Bytes, rest: Bytes)
    requires i < |pieces| && data + rest == Concat(pieces[i..]) && |data| == |pieces[i]|
    ensures data == pieces[i] && rest == Concat(pieces[i + 1..])
  {
    assert pieces[i..][0] == pieces[i] && pieces[i..][1..] == pieces[i + 1..];
    var all := Concat(pieces[i..]);
    assert all == pieces[i] + Concat(pieces[i + 1..]);
    assert all[..|data|] == data == pieces[i];
    assert all[|data|..] == rest == Concat(pieces[i + 1..]);
  }

  /** The reader with the pieces from number `i` on still to be read. */
  ghost predicate Awaits(reader: StreamReader, pieces: seq<Bytes>, i: nat)
    requires i <= |pieces|
    reads reader
  {
    && reader.Valid() && reader.inbox == [] && reader.Buffered() == Concat(pieces[i..])
    && (pieces != [] ==> reader.splits == Some(Ends(pieces)[i..])) && reader.cursor == |Concat(pieces[..i])|
  }

  lemma NextEnd(pieces: seq<Bytes>, i: nat)
    requires AllNonEmpty(pieces) && i < |pieces|
    ensures var ends := Ends(pieces)[i..];
      && ends != [] && ends[0] == |Concat(pieces[..i])| + |pieces[i]| == |Concat(pieces[..i + 1])|
      && ends[1..] == Ends(pieces)[i + 1..]
  {
    hide Concat;
    EndsOfPieces(pieces);
  }

  method ReadPiece(reader: StreamReader, pieces: seq<Bytes>, i: nat) returns (r: ChunkResult)
    requires AllNonEmpty(pieces) && i < |pieces| && Awaits(reader, pieces, i)
    modifies reader
    ensures r == Chunk(pieces[i], true) && Awaits(reader, pieces, i + 1)
  {
    hide StreamReader.SplitsValid, Concat, StreamReader.Buffered, Increasing, AllNonEmpty, Ends;
    NextEnd(pieces, i);
    ghost var fed := reader.fed;
    r := reader.ReadChunk();
    assert fed[|fed|..] == "" && Concat(pieces[i..]) + "" == Concat(pieces[i..]);
    PieceTaken(pieces, i, r.data, reader.Buffered());
  }

  lemma AllAwaited(reader: StreamReader, pieces: seq<Bytes>)
    requires reader.Valid() && reader.inbox == [] && reader.Buffered() == Concat(pieces)
    requires reader.cursor == 0 && reader.splits == if pieces == [] then None else Some(Ends(pieces))
    ensures Awaits(reader, pieces, 0)
  {
    hide StreamReader.Valid, StreamReader.Buffered;
    ConcatNothing();
    assert pieces[..0] == [] && pieces[0..] == pieces && Ends(pieces)[0..] == Ends(pieces);
  }

  /** `readchunk`, once for every piece. */
  method ReadPieces(reader: StreamReader, pieces: seq<Bytes>) returns (chunks: seq<ChunkResult>)
    requires reader.Valid() && reader.inbox == [] && reader.Buffered() == Concat(pieces) && AllNonEmpty(pieces)
    requires reader.cursor == 0 && reader.splits == if pieces == [] then None else Some(Ends(pieces))
    modifies reader
    ensures reader.Valid() && reader.Buffered() == ""
    ensures |chunks| == |pieces| && forall i :: 0 <= i < |pieces| ==> chunks[i] == Chunk(pieces[i], true)
  {
    chunks := [];
    AllAwaited(reader, pieces);
    for i := 0 to |pieces|
      invariant Awaits(reader, pieces, i)
      invariant |chunks| == i && forall j :: 0 <= j < i ==> chunks[j] == Chunk(pieces[j], true)
    {
      hide Awaits;
      var r := ReadPiece(reader, pieces, i);
      chunks := chunks + [r];
    }
    ConcatNothing();
    assert pieces[|pieces|..] == [];
  }

  /** From writer to reader: the nonempty pieces written to a chunked request are the chunks that
      `readchunk` returns, each flagged as the end of one, whatever the fragments, the pauses and the
      blocks in which the body is handed over. */
  method SendAndReadChunks(cfg: Config, queueLimit: nat, skipWritelines: bool, o: Outgoing, fragments: seq<Bytes>,
                           consumed: seq<nat>, limit: nat, calls: seq<Event>)
    returns (sent: Bytes, parser: HttpRequestParser, chunks: seq<ChunkResult>)
    requires o.chunked && Carried(cfg, o.Sent()) && o.hs != []
    requires Eof !in calls
    requires Logged(calls) == DeliverPieces(NOTHING, HttpWriter.NonEmpty(o.Body()))
    ensures var written := HttpWriter.NonEmpty(o.Body());
      && |chunks| == |written| && (forall i :: 0 <= i < |written| ==> chunks[i] == Chunk(written[i], true))
    ensures Concat(fragments) == sent ==> |parser.log| == 1 && parser.log[0].body == Logged(calls + [Eof])
  {
    hide Carried, EntryOf, MessageFor, DeliverPieces, RunHttp, Switches, HttpRequestParser.Valid, HttpRequestParser.Ref,
      HttpWriter.NonEmpty, Outgoing.Sent, Outgoing.Body, Logged, Ends;
    var messages;
    sent, messages, parser := SendAndReceive(cfg, queueLimit, skipWritelines, o, fragments, consumed);
    var written := HttpWriter.NonEmpty(o.Body());
    NonEmptyPieces(o.Body());
    ChunksOf(cfg, o);
    LoggedEof(calls);
    var reader := new StreamReader(limit, []);
    Tell(reader, calls, written);
    chunks := ReadPieces(reader, written);
  }

  lemma ChunksOf(cfg: Config, o: Outgoing)
    requires Carried(cfg, o.Sent()) && o.chunked
    ensures EntryOf(cfg, o.Sent()).body == DeliverPieces(NOTHING, HttpWriter.NonEmpty(o.Body())).Eof()
  {
    hide Acceptable, WithinLimits, DeliverPieces, MessageAt;
  }

  lemma LoggedEof(calls: seq<Event>)
    ensures Logged(calls + [Eof]) == Logged(calls).Eof()
  {
    assert (calls + [Eof])[..|calls|] == calls;
  }
}

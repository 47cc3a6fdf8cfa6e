/** `StreamReader` (streams.py): a deque of blocks with an offset, a cursor and recorded HTTP
    chunk ends behaves as a byte queue, although `resume_reading` may feed it again in the
    middle of a read. */
module Streams {
  import opened ByteStrings

  /** What the connection may still deliver to a reader. */
  datatype Event = Feed(data: Bytes) | BeginChunk | EndChunk | Eof

  /** None of the recorded ends is before `c`. */
  predicate NoneBehind(splits: Option<seq<int>>, c: int) { splits.Some? && splits.value != [] ==> c <= splits.value[0] }

  predicate Increasing(s: seq<int>) { forall i, j :: 0 <= i < j < |s| ==> s[i] < s[j] }

  /** Outcome of a read that may have to wait. `Blocked` is a reader still waiting, holding the
      bytes it has already taken, when nothing more ever arrives. */
  datatype ReadResult = Got(data: Bytes) | TooLong(data: Bytes) | Blocked(data: Bytes)

  datatype ChunkResult = Chunk(data: Bytes, end: bool) | ChunkBlocked

  class StreamReader {
    var lowWater: nat
    var highWater: nat
    const lowWaterChunks: nat
    const highWaterChunks: nat
    var size: nat
    var cursor: int
    var splits: Option<seq<int>>
    var buffer: seq<Bytes>
    var bufferOffset: nat
    var eof: bool
    var totalBytes: nat
    var inbox: seq<Event> // the rest of the connection
    ghost var fed: Bytes // everything ever fed
    ghost var ends: seq<int> // every chunk end ever recorded

    /** The queue this reader stands for. */
    ghost function Buffered(): Bytes
      requires buffer != [] ==> bufferOffset <= |buffer[0]|
      reads this
    {
      if buffer == [] then "" else buffer[0][bufferOffset..] + Concat(buffer[1..])
    }

    ghost predicate Valid()
      reads this
    {
      && (forall i :: 0 <= i < |buffer| ==> buffer[i] != "")
      && (if buffer == [] then bufferOffset == 0 else bufferOffset < |buffer[0]|)
      && size == |Buffered()|
      && cursor + size == totalBytes
      && SplitsValid()
      && lowWaterChunks >= 2
    }

    /** Recorded chunk ends are strictly increasing and lie between the cursor and the last byte fed. */
    ghost predicate SplitsValid()
      reads this
    {
      splits.Some? ==>
        var s := splits.value;
        && Increasing(s)
        && (forall i :: 0 <= i < |s| ==> cursor <= s[i] <= totalBytes && s[i] in ends)
    }

    /** `data` was taken off the front of the queue while the connection appended to its end. */
    twostate predicate Took(data: Bytes)
      requires old(Valid()) && Valid()
      reads this
    {
      old(fed) <= fed && data + Buffered() == old(Buffered()) + fed[|old(fed)|..]
    }

    /** What feeding changes: the queue grows at its end, and so do the recorded ends. */
    twostate predicate Grew()
      requires old(Valid()) && Valid()
      reads this
    {
      && old(fed) <= fed && Buffered() == old(Buffered()) + fed[|old(fed)|..]
      && cursor == old(cursor) && old(ends) <= ends
      && old(buffer) <= buffer && bufferOffset == old(bufferOffset)
      && (old(splits).Some? ==> splits.Some? && old(splits).value <= splits.value)
      && |inbox| <= old(|inbox|) && (old(eof) ==> eof)
      && lowWater == old(lowWater) && highWater == old(highWater)
    }

    constructor (limit: nat, inbox: seq<Event>)
      ensures Valid() && Buffered() == "" && !eof && splits.None? && fed == "" && ends == [] && this.inbox == inbox
      ensures cursor == 0 && totalBytes == 0
    {
      lowWater, highWater := limit, limit * 2;
      highWaterChunks := if limit / 16 > 4 then limit / 16 else 4;
      lowWaterChunks := (if limit / 16 > 4 then limit / 16 else 4) / 2;
      size, cursor, splits, buffer, bufferOffset, eof, totalBytes := 0, 0, None, [], 0, false, 0;
      this.inbox, fed, ends := inbox, "", [];
    }

    method FeedData(data: Bytes)
      requires Valid() && !eof
      modifies this
      ensures Valid() && Grew() && fed == old(fed) + data && inbox == old(inbox) && splits == old(splits) &&
        eof == old(eof)
      ensures data != "" ==> buffer == old(buffer) + [data]
    {
      if data == "" { return; }
      AppendBlock(data);
      size := size + |data|;
      buffer := buffer + [data];
      totalBytes := totalBytes + |data|;
      fed := fed + data;
    }

    lemma AppendBlock(data: Bytes)
      requires Valid() && data != ""
      ensures Buffered() + data == if buffer == [] then data
        else buffer[0][bufferOffset..] + Concat((buffer + [data])[1..])
      ensures Concat([]) == ""
    {
      if buffer != [] {
        assert (buffer + [data])[1..] == buffer[1..] + [data];
        ConcatSnoc(buffer[1..], data);
      }
    }

    method FeedEof()
      requires Valid()
      modifies this`eof
      ensures Valid() && Grew() && fed == old(fed) && eof
    {
      eof := true;
    }

    /** Raises if data was fed before the first chunk was announced. */
    method BeginHttpChunkReceiving() returns (raised: bool)
      requires Valid()
      modifies this`splits
      ensures Valid() && Grew() && fed == old(fed) && ends == old(ends)
      ensures raised == (old(splits).None? && totalBytes > 0)
      ensures splits == if old(splits).None? && !raised then Some([]) else old(splits)
    {
      if splits.None? {
        if totalBytes > 0 { return true; }
        splits := Some([]);
      }
      return false;
    }

    /** Records the end of a chunk at the current total, unless that end is already the last one. */
    method EndHttpChunkReceiving() returns (raised: bool)
      requires Valid()
      modifies this`splits, this`ends
      ensures Valid() && Grew() && fed == old(fed)
      ensures raised == old(splits).None?
      ensures old(splits).Some? ==>
        var s := old(splits).value;
        splits == Some(if totalBytes == (if s == [] then 0 else s[|s| - 1]) then s else s + [totalBytes])
    {
      hide Concat, Increasing;
      assert fed[|fed|..] == "" && Buffered() + "" == Buffered();
      if splits.None? { return true; }
      var s := splits.value;
      var pos: int := if s != [] then s[|s| - 1] else 0;
      if totalBytes == pos { return false; }
      LaterEnd(s, totalBytes);
      ends := ends + [totalBytes];
      splits := Some(s + [totalBytes]);
      return false;
    }

    static lemma LaterEnd(s: seq<int>, total: nat)
      requires Increasing(s) && (s != [] ==> s[|s| - 1] < total)
      ensures Increasing(s + [total])
    {
    }

    /** One event from the connection. The parser never feeds after the end of file. */
    method Deliver()
      requires Valid() && inbox != []
      modifies this
      ensures Valid() && Grew() && |inbox| < old(|inbox|)
    {
      var e := inbox[0];
      inbox := inbox[1..];
      match e
      case Feed(data) => if !eof { FeedData(data); }
      case BeginChunk => var _ := BeginHttpChunkReceiving();
      case EndChunk => var _ := EndHttpChunkReceiving();
      case Eof => FeedEof();
    }

    static lemma GrewGrew(buf0: Bytes, fed0: Bytes, buf1: Bytes, fed1: Bytes, buf2: Bytes, fed2: Bytes)
      requires fed0 <= fed1 <= fed2
      requires buf1 == buf0 + fed1[|fed0|..] && buf2 == buf1 + fed2[|fed1|..]
      ensures buf2 == buf0 + fed2[|fed0|..]
    {
      assert fed2[|fed0|..] == fed1[|fed0|..] + fed2[|fed1|..];
      Assoc(buf0, fed1[|fed0|..], fed2[|fed1|..]);
    }

    /** The connection appends between two reads. */
    method DeliverNow(e: Event)
      requires Valid()
      modifies this
      ensures Valid() && Took("")
    {
      inbox := [e] + inbox;
      Deliver();
      assert "" + Buffered() == Buffered();
    }

    /** `resume_reading`: the connection may feed any part of what it still has, at once. */
    method ResumeReading()
      requires Valid()
      modifies this
      ensures Valid() && Grew()
      ensures |inbox| == old(|inbox|) ==> fed == old(fed) && splits == old(splits)
    {
      hide Buffered, SplitsValid;
      var n: nat :| n <= |inbox|;
      assert fed[|fed|..] == "" && Buffered() + "" == Buffered();
      while n > 0 && inbox != []
        invariant Valid() && Grew()
        invariant |inbox| == old(|inbox|) ==> fed == old(fed) && splits == old(splits)
        decreases n
      {
        ghost var buf1, fed1 := Buffered(), fed;
        Deliver();
        GrewGrew(old(Buffered()), old(fed), buf1, fed1, Buffered(), fed);
        n := n - 1;
      }
    }

    /** `_wait`: until something arrives; false if nothing ever does. */
    method Wait() returns (woken: bool)
      requires Valid()
      modifies this
      ensures Valid() && Grew()
      ensures woken ==> |inbox| < old(|inbox|)
      ensures !woken ==> inbox == [] && fed == old(fed) && buffer == old(buffer) && eof == old(eof)
    {
      hide Buffered, SplitsValid;
      if inbox == [] {
        assert fed[|fed|..] == "" && Buffered() + "" == Buffered();
        return false;
      }
      Deliver();
      ghost var buf1, fed1 := Buffered(), fed;
      ResumeReading();
      GrewGrew(old(Buffered()), old(fed), buf1, fed1, Buffered(), fed);
      return true;
    }

    /** Drop the chunk ends behind the cursor. */
    method DropSplits()
      requires splits.Some? ==> Increasing(splits.value)
      modifies this`splits
      ensures splits.Some? == old(splits).Some?
      ensures splits.Some? ==>
        && Increasing(splits.value)
        && (forall i :: 0 <= i < |splits.value| ==> cursor <= splits.value[i] && splits.value[i] in old(splits).value)
        && (forall x :: x in old(splits).value && x >= cursor ==> x in splits.value)
      ensures old(NoneBehind(splits, cursor)) ==> splits == old(splits)
    {
      hide Increasing;
      if splits.None? { return; }
      var s := splits.value;
      ghost var all, k := s, 0;
      while s != [] && s[0] < cursor
        invariant k <= |all| && s == all[k..] && forall i :: 0 <= i < k ==> all[i] < cursor
      {
        s := s[1..];
        k := k + 1;
      }
      SplitsLeft(all, k, cursor);
      splits := Some(s);
    }

    static lemma SplitsLeft(all: seq<int>, k: nat, c: int)
      requires Increasing(all) && k <= |all| && (forall i :: 0 <= i < k ==> all[i] < c) && (k < |all| ==> c <= all[k])
      ensures var s := all[k..];
        && Increasing(s) && (forall i :: 0 <= i < |s| ==> c <= s[i] && s[i] in all)
        && (forall x :: x in all && x >= c ==> x in s)
        && (NoneBehind(Some(all), c) ==> s == all)
    {
      var s := all[k..];
      forall i | 0 <= i < |s| ensures c <= s[i] && s[i] in all { assert s[i] == all[k + i]; }
      forall x | x in all && x >= c ensures x in s {
        var i :| 0 <= i < |all| && all[i] == x;
        assert s[i - k] == x;
      }
    }

    /** The front block, or `n` bytes of it. */
    function Front(n: int): Bytes
      requires buffer != [] && bufferOffset <= |buffer[0]| && n >= -1
      reads this
    {
      var f := buffer[0][bufferOffset..];
      if n != -1 && |f| > n then f[..n] else f
    }

    /** `_read_nowait_chunk`: at most one block, and then the connection may refill the queue. */
    method ReadNowaitChunk(n: int) returns (data: Bytes)
      requires Valid() && buffer != [] && n >= -1
      modifies this
      ensures Valid() && data == old(Front(n)) && Took(data)
      ensures (n != 0 ==> data != "") && (n >= 0 ==> |data| <= n)
      ensures cursor == old(cursor) + |data| && old(ends) <= ends
      ensures |inbox| <= old(|inbox|) && (old(eof) ==> eof) && highWater == old(highWater)
      ensures |inbox| == old(|inbox|) ==> fed == old(fed) && (NoneBehind(old(splits), cursor) ==> splits == old(splits))
      ensures data == old(buffer[0][bufferOffset..]) ==> old(buffer)[1..] <= buffer && bufferOffset == 0
    {
      hide Buffered, SplitsValid;
      data := TakeFront(n);
      ghost var mid := Buffered();
      assert fed[|fed|..] == "" && mid + "" == mid;
      if size < lowWater && (splits.None? || |splits.value| < lowWaterChunks) {
        ResumeReading();
      }
      Assoc(data, mid, fed[|old(fed)|..]);
    }

    /** Take the front block and drop the chunk ends it leaves behind. */
    method TakeFront(n: int) returns (data: Bytes)
      requires Valid() && buffer != [] && n >= -1
      modifies this`buffer, this`bufferOffset, this`size, this`cursor, this`splits
      ensures Valid() && data == old(Front(n)) && data + Buffered() == old(Buffered())
      ensures cursor == old(cursor) + |data| && (NoneBehind(old(splits), cursor) ==> splits == old(splits))
      ensures data == old(buffer[0][bufferOffset..]) ==> old(buffer)[1..] == buffer && bufferOffset == 0
    {
      hide Increasing, Concat, Front, NoneBehind;
      data := Take1(n);
      DropSplits();
    }

    method Take1(n: int) returns (data: Bytes)
      requires Valid() && buffer != [] && n >= -1
      modifies this`buffer, this`bufferOffset, this`size, this`cursor
      ensures data == old(Front(n))
      ensures (forall i :: 0 <= i < |buffer| ==> buffer[i] != "") &&
        (if buffer == [] then bufferOffset == 0 else bufferOffset < |buffer[0]|)
      ensures data + Buffered() == old(Buffered())
      ensures size == |Buffered()| && cursor == old(cursor) + |data|
      ensures data == old(buffer[0][bufferOffset..]) ==> old(buffer)[1..] == buffer && bufferOffset == 0
    {
      hide SplitsValid, Increasing, Concat;
      ConcatNothing();
      var first, offset := buffer[0], bufferOffset;
      ghost var behind := Concat(buffer[1..]);
      if n != -1 && |first| - offset > n {
        data := first[offset..offset + n];
        bufferOffset := bufferOffset + n;
        SplitBlock(first, offset, n, behind);
      } else {
        WholeBlock(buffer);
        buffer := buffer[1..];
        data := first[offset..];
        bufferOffset := 0;
        assert Buffered() == behind;
      }
      size := size - |data|;
      cursor := cursor + |data|;
    }

    static lemma SplitBlock(block: Bytes, offset: nat, n: nat, behind: Bytes)
      requires offset + n <= |block|
      ensures block[offset..offset + n] + (block[offset + n..] + behind) == block[offset..] + behind
    {
      assert block[offset..] == block[offset..offset + n] + block[offset + n..];
    }

    static lemma WholeBlock(blocks: seq<Bytes>)
      requires blocks != []
      ensures Concat(blocks[1..]) == if blocks[1..] == [] then "" else blocks[1..][0][0..] + Concat(blocks[1..][1..])
    {
      if blocks[1..] != [] { assert blocks[1..][0][0..] == blocks[1..][0]; }
    }

    /** Two reads in a row are one longer read. */
    static lemma TookTook(buf0: Bytes, fed0: Bytes, d: Bytes, buf1: Bytes, fed1: Bytes, c: Bytes, buf2: Bytes,
      fed2: Bytes)
      requires fed0 <= fed1 <= fed2
      requires d + buf1 == buf0 + fed1[|fed0|..] && c + buf2 == buf1 + fed2[|fed1|..]
      ensures (d + c) + buf2 == buf0 + fed2[|fed0|..]
    {
      assert fed2[|fed0|..] == fed1[|fed0|..] + fed2[|fed1|..];
      Assoc(d, c, buf2);
      Assoc(d, buf1, fed2[|fed1|..]);
      Assoc(buf0, fed1[|fed0|..], fed2[|fed1|..]);
    }

    /** The bytes of the first `k` blocks of `blocks`, from `offset` on. */
    static ghost function Blocks(blocks: seq<Bytes>, offset: nat, k: nat): Bytes
      requires k <= |blocks| && (k > 0 ==> offset <= |blocks[0]|)
    {
      if k == 0 then "" else blocks[0][offset..] + Concat(blocks[1..k])
    }

    static lemma BlocksNext(blocks: seq<Bytes>, offset: nat, k: nat)
      requires k < |blocks| && offset <= |blocks[0]|
      ensures Blocks(blocks, offset, k + 1) == Blocks(blocks, offset, k) + if k == 0 then blocks[0][offset..]
        else blocks[k]
    {
      if k > 0 {
        assert blocks[1..k + 1] == blocks[1..k] + [blocks[k]];
        ConcatSnoc(blocks[1..k], blocks[k]);
      } else {
        assert blocks[1..1] == [];
      }
    }

    lemma WholeBuffer(blocks: seq<Bytes>, offset: nat)
      requires Valid() && buffer == blocks && bufferOffset == offset
      ensures Blocks(blocks, offset, |blocks|) == Buffered()
    {
      if blocks != [] { assert blocks[1..|blocks|] == blocks[1..]; }
    }

    /** `_read_nowait(-1)`: exactly what is buffered now, whatever arrives meanwhile. */
    method ReadNowaitAll() returns (data: Bytes)
      requires Valid()
      modifies this
      ensures Valid() && Took(data) && data == old(Buffered())
      ensures cursor == old(cursor) + |data| && old(ends) <= ends
      ensures |inbox| <= old(|inbox|) && (old(eof) ==> eof) && highWater == old(highWater)
      ensures |inbox| == old(|inbox|) ==> fed == old(fed)
      ensures old(buffer) == [] ==> buffer == []
    {
      hide SplitsValid, Increasing, Concat, Buffered;
      data := "";
      ghost var blocks, offset := buffer, bufferOffset;
      WholeBuffer(blocks, offset);
      assert fed[|fed|..] == "" && "" + Buffered() == Buffered() + "";
      for i := 0 to |buffer|
        invariant Valid() && Took(data)
        invariant data == Blocks(blocks, offset, i)
        invariant blocks[i..] <= buffer && bufferOffset == (if i == 0 then offset else 0)
        invariant cursor == old(cursor) + |data| && old(ends) <= ends
        invariant |inbox| <= old(|inbox|) && (old(eof) ==> eof) && highWater == old(highWater)
        invariant |inbox| == old(|inbox|) ==> fed == old(fed)
        invariant i == 0 ==> buffer == old(buffer)
      {
        assert buffer[0] == blocks[i..][0] == blocks[i];
        assert buffer[0][0..] == buffer[0];
        BlocksNext(blocks, offset, i);
        ghost var buf1, fed1 := Buffered(), fed;
        assert blocks[i..][1..] == blocks[i + 1..];
        var chunk := ReadNowaitChunk(-1);
        TookTook(old(Buffered()), old(fed), data, buf1, fed1, chunk, Buffered(), fed);
        data := data + chunk;
      }
    }

    /** `_read_nowait(n)` for `n >= 0`: `n` bytes if there are so many, otherwise everything. */
    method ReadNowait(n: nat) returns (data: Bytes)
      requires Valid()
      modifies this
      ensures Valid() && Took(data) && |data| <= n
      ensures |data| < n ==> buffer == []
      ensures cursor == old(cursor) + |data| && old(ends) <= ends
      ensures |inbox| <= old(|inbox|) && (old(eof) ==> eof) && highWater == old(highWater)
      ensures |inbox| == old(|inbox|) ==> fed == old(fed) && (NoneBehind(old(splits), cursor) ==> splits == old(splits))
    {
      hide SplitsValid, Increasing, Concat, Buffered;
      data := "";
      var left := n;
      var done := false;
      assert fed[|fed|..] == "" && "" + Buffered() == Buffered() + "";
      while buffer != [] && !done
        invariant Valid() && Took(data)
        invariant |data| + left == n && left >= 0 && (done ==> left == 0)
        invariant cursor == old(cursor) + |data| && old(ends) <= ends
        invariant |inbox| <= old(|inbox|) && (old(eof) ==> eof) && highWater == old(highWater)
        invariant |inbox| == old(|inbox|) ==>
          fed == old(fed) && (NoneBehind(old(splits), cursor) ==> splits == old(splits))
        decreases left, !done
      {
        ghost var buf1, fed1 := Buffered(), fed;
        var chunk := ReadNowaitChunk(left);
        TookTook(old(Buffered()), old(fed), data, buf1, fed1, chunk, Buffered(), fed);
        data := data + chunk;
        left := left - |chunk|;
        done := left == 0;
      }
    }

    /** `unread_data`: put bytes back in front. */
    method UnreadData(data: Bytes)
      requires Valid()
      modifies this`buffer, this`bufferOffset, this`size, this`cursor
      ensures Valid() && Buffered() == data + old(Buffered())
      ensures cursor == old(cursor) - |data| && size == old(size) + |data|
    {
      if data == "" {
        assert "" + Buffered() == Buffered();
        return;
      }
      var rest := buffer;
      if bufferOffset > 0 {
        rest := [buffer[0][bufferOffset..]] + buffer[1..];
        bufferOffset := 0;
      }
      size := size + |data|;
      cursor := cursor - |data|;
      buffer := [data] + rest;
      assert buffer[1..] == rest && data[0..] == data;
    }

    // ---- waiting reads -----------------------------------------------------------------------

    /** Wait until something is buffered or the end is known. */
    method WaitForData() returns (woken: bool)
      requires Valid()
      modifies this
      ensures Valid() && Grew()
      ensures woken <==> buffer != [] || eof
      ensures |inbox| == old(|inbox|) ==> fed == old(fed)
      ensures !woken ==> inbox == []
      ensures old(buffer) != [] ==> Buffered() == old(Buffered()) && fed == old(fed)
    {
      assert fed[|fed|..] == "" && Buffered() + "" == Buffered();
      while buffer == [] && !eof
        invariant Valid() && Grew()
        invariant |inbox| == old(|inbox|) ==> fed == old(fed)
        invariant old(buffer) != [] ==> Buffered() == old(Buffered()) && fed == old(fed) && buffer != []
        decreases |inbox|
      {
        var more := Wait();
        if !more { return false; }
      }
      return true;
    }

    /** `readany` */
    method ReadAny() returns (r: ReadResult)
      requires Valid()
      modifies this
      ensures Valid() && !r.TooLong?
      ensures r.Got? ==> Took(r.data) && (r.data == "" ==> eof && Buffered() == "")
      ensures old(Buffered()) != "" ==> r == Got(old(Buffered()))
      ensures r.Blocked? ==> r.data == "" && Took("") && inbox == []
      ensures |inbox| <= old(|inbox|) && (old(eof) ==> eof)
      ensures |inbox| == old(|inbox|) ==> fed == old(fed)
    {
      hide SplitsValid, Increasing, Buffered;
      NothingBuffered();
      var woken := WaitForData();
      TookNothing();
      NothingBuffered();
      if !woken { return Blocked(""); }
      ghost var buf1, fed1 := Buffered(), fed;
      var data := ReadNowaitAll();
      NothingBuffered();
      TookTook(old(Buffered()), old(fed), "", buf1, fed1, data, Buffered(), fed);
      assert "" + data == data;
      return Got(data);
    }

    twostate lemma TookNothing()
      requires old(Valid()) && Valid() && Grew()
      ensures Took("")
    {
      assert "" + Buffered() == Buffered();
    }

    /** `set_read_chunk_size` */
    method SetReadChunkSize(n: nat)
      requires Valid()
      modifies this`lowWater, this`highWater
      ensures Valid() && Buffered() == old(Buffered())
      ensures lowWater >= n &&
        (if n > old(lowWater) then lowWater == n && highWater == n * 2
          else lowWater == old(lowWater) && highWater == old(highWater))
    {
      if n > lowWater { lowWater, highWater := n, n * 2; }
    }

    method ReadSome(n: nat) returns (r: ReadResult)
      requires Valid() && n > 0
      modifies this
      ensures Valid() && !r.TooLong?
      ensures r.Got? ==> Took(r.data) && |r.data| <= n && (r.data == "" ==> eof)
      ensures r.Got? && |old(Buffered())| >= n ==> |r.data| == n
      ensures r.Blocked? ==> r.data == "" && Took("") && inbox == []
      ensures |inbox| <= old(|inbox|) && (old(eof) ==> eof)
      ensures |inbox| == old(|inbox|) ==> fed == old(fed)
    {
      hide SplitsValid, Increasing, Buffered;
      var woken := WaitForData();
      TookNothing();
      NothingBuffered();
      if !woken { return Blocked(""); }
      ghost var buf1, fed1 := Buffered(), fed;
      var data := ReadNowait(n);
      TookTook(old(Buffered()), old(fed), "", buf1, fed1, data, Buffered(), fed);
      assert "" + data == data;
      NothingBuffered();
      return Got(data);
    }

    /** `read(n)` for positive `n`: at most `n` bytes, and none only at the end of file. */
    method Read(n: nat) returns (r: ReadResult)
      requires Valid() && n > 0
      modifies this
      ensures Valid() && !r.TooLong?
      ensures r.Got? ==> Took(r.data) && |r.data| <= n && (r.data == "" ==> eof)
      ensures r.Got? && |old(Buffered())| >= n ==> |r.data| == n
      ensures r.Blocked? ==> r.data == "" && Took("") && inbox == []
      ensures |inbox| <= old(|inbox|) && (old(eof) ==> eof)
      ensures |inbox| == old(|inbox|) ==> fed == old(fed)
    {
      SetReadChunkSize(n);
      r := ReadSome(n);
    }

    lemma NothingBuffered()
      requires Valid()
      ensures buffer == [] <==> Buffered() == ""
    {
    }

    /** `readexactly`: `n` bytes or, at the end of file, the shorter rest. */
    method ReadExactly(n: nat) returns (r: ReadResult)
      requires Valid()
      modifies this
      ensures Valid() && !r.TooLong?
      ensures Took(r.data) && |r.data| <= n && (r.Got? && |r.data| < n ==> eof)
    {
      hide SplitsValid, Increasing, Buffered;
      var data: Bytes := "";
      Unread();
      while |data| < n
        invariant Valid() && Took(data) && |data| <= n
        decreases n - |data|
      {
        ghost var buf1, fed1 := Buffered(), fed;
        r := Read(n - |data|);
        TookTook(old(Buffered()), old(fed), data, buf1, fed1, r.data, Buffered(), fed);
        data := data + r.data;
        if r.Blocked? { return Blocked(data); }
        if r.data == "" { return Got(data); }
      }
      return Got(data);
    }

    twostate lemma Unread()
      requires old(Valid()) && Valid() && fed == old(fed) && Buffered() == old(Buffered())
      ensures Took("")
    {
      assert "" + Buffered() == Buffered() + "" && fed[|fed|..] == "";
    }

    /** `read(-1)`: everything up to the end of file. */
    method ReadToEnd() returns (r: ReadResult)
      requires Valid()
      modifies this
      ensures Valid() && !r.TooLong?
      ensures Took(r.data) && (r.Got? ==> eof && Buffered() == "")
    {
      hide SplitsValid, Increasing, Buffered;
      SetReadChunkSize(0x7fff_ffff_ffff_ffff); // sys.maxsize
      var data: Bytes := "";
      Unread();
      while true
        invariant Valid() && Took(data)
        decreases |inbox|, |Buffered()|
      {
        ghost var buf1, fed1 := Buffered(), fed;
        r := ReadAny();
        TookTook(old(Buffered()), old(fed), data, buf1, fed1, r.data, Buffered(), fed);
        data := data + r.data;
        if r.Blocked? { return Blocked(data); }
        if r.data == "" { return Got(data); }
      }
    }

    /** `readchunk`: if a chunk end is recorded, exactly the bytes up to the first one, flagged;
        otherwise one unflagged block. A flagged result always ends at a recorded chunk end. */
    method ReadChunk() returns (r: ChunkResult)
      requires Valid()
      modifies this
      ensures Valid()
      ensures r.Chunk? ==> Took(r.data)
      ensures r.Chunk? && r.end ==> cursor in ends
      ensures r.Chunk? && !r.end && r.data == "" ==> eof && buffer == []
      ensures old(splits.Some? && splits.value != []) ==>
        r.Chunk? && r.end && cursor == old(splits.value[0]) == old(cursor) + |r.data|
      ensures old(inbox == [] && splits.Some? && splits.value != []) ==>
        inbox == [] && fed == old(fed) && splits == Some(old(splits).value[1..]) && (old(eof) ==> eof)
      ensures r.ChunkBlocked? ==> Took("") && inbox == []
      ensures old(buffer != [] && (splits.None? || splits.value == [])) ==> r == Chunk(old(Front(-1)), false)
    {
      hide Increasing, Buffered;
      Unread();
      while true
        invariant Valid() && Took("") && old(ends) <= ends
        invariant old(splits.Some? && splits.value != []) ==> splits == old(splits) && cursor == old(cursor)
        invariant old(splits.Some? && splits.value != []) ==> inbox == old(inbox) && fed == old(fed) && eof == old(eof)
        invariant old(buffer != []) ==>
          buffer == old(buffer) && bufferOffset == old(bufferOffset) && splits == old(splits)
        decreases |inbox|
      {
        ghost var buf1, fed1 := Buffered(), fed;
        if splits.Some? && splits.value != [] {
          r := NextChunkEnd();
          TookTook(old(Buffered()), old(fed), "", buf1, fed1, r.data, Buffered(), fed);
          assert "" + r.data == r.data;
          return;
        }
        if buffer != [] {
          var chunk := ReadNowaitChunk(-1);
          TookTook(old(Buffered()), old(fed), "", buf1, fed1, chunk, Buffered(), fed);
          assert "" + chunk == chunk;
          return Chunk(chunk, false);
        }
        if eof { return Chunk("", false); }
        var woken := Wait();
        GrewGrew(old(Buffered()), old(fed), buf1, fed1, Buffered(), fed);
        assert "" + Buffered() == Buffered();
        if !woken { return ChunkBlocked; }
      }
    }

    /** The first recorded chunk end is never behind the cursor, so it is never skipped. */
    method NextChunkEnd() returns (r: ChunkResult)
      requires Valid() && splits.Some? && splits.value != []
      modifies this
      ensures Valid() && r.Chunk? && r.end && Took(r.data)
      ensures cursor == old(splits.value[0]) == old(cursor) + |r.data| && cursor in ends && old(ends) <= ends
      ensures old(inbox) == [] ==>
        inbox == [] && fed == old(fed) && splits == Some(old(splits).value[1..]) && (old(eof) ==> eof)
    {
      hide SplitsValid, Increasing, Buffered;
      ghost var s := splits.value;
      NextIsLater();
      var pos := splits.value[0];
      PopSplit();
      if pos == cursor {
        Unread();
        return Chunk("", true);
      }
      var chunk := ReadNowait(pos - cursor);
      NothingBuffered();
      assert |s| > 1 ==> s[1..][0] == s[1];
      assert |chunk + Buffered()| == |old(Buffered()) + fed[|old(fed)|..]|;
      return Chunk(chunk, true);
    }

    lemma NextIsLater()
      requires Valid() && splits.Some? && splits.value != []
      ensures cursor <= splits.value[0] && (|splits.value| > 1 ==> splits.value[0] < splits.value[1])
    {
    }

    method PopSplit()
      requires Valid() && splits.Some? && splits.value != []
      modifies this`splits
      ensures Valid() && Buffered() == old(Buffered()) && splits == Some(old(splits).value[1..])
      ensures cursor <= old(splits.value[0]) <= totalBytes && old(splits.value[0]) in ends
    {
      splits := Some(splits.value[1..]);
    }

    /** `readuntil` for a one-byte separator: the shortest prefix of the queue that ends in the
        separator, however the bytes are cut into blocks; without one, everything up to the end
        of file. Raises once more than `maxSize` bytes (by default the high-water mark) were taken. */
    method ReadUntil(separator: char, maxSize: nat) returns (r: ReadResult)
      requires Valid()
      modifies this
      ensures Valid()
      ensures r.Got? ==> Took(r.data) && |r.data| <= LineLimit(maxSize, old(highWater))
      ensures r.Got? ==> EndsAt(r.data, separator) || (separator !in r.data && eof && buffer == [])
      ensures r.TooLong? ==>
        && Took(r.data) && |r.data| > LineLimit(maxSize, old(highWater))
        && (separator in r.data ==> EndsAt(r.data, separator))
      ensures r.Blocked? ==> Took(r.data) && inbox == [] && separator !in r.data
    {
      hide SplitsValid, Increasing, Buffered;
      var chunk: Bytes := "";
      var notEnough := true;
      var limit := LineLimit(maxSize, highWater);
      Unread();
      while notEnough
        invariant Valid() && Took(chunk) && |chunk| <= limit
        invariant if notEnough then separator !in chunk else EndsAt(chunk, separator)
        decreases |inbox|, notEnough
      {
        var tooLong;
        chunk, notEnough, tooLong := TakeBlocks(separator, limit, chunk, old(Buffered()), old(fed));
        if tooLong { return TooLong(chunk); }
        if eof { break; }
        if notEnough {
          ghost var buf1, fed1 := Buffered(), fed;
          var woken := Wait();
          assert "" + Buffered() == Buffered();
          TookTook(old(Buffered()), old(fed), chunk, buf1, fed1, "", Buffered(), fed);
          assert chunk + "" == chunk;
          if !woken { return Blocked(chunk); }
        }
      }
      return Got(chunk);
    }

    static predicate EndsAt(s: Bytes, c: char) { s != "" && s[|s| - 1] == c && c !in s[..|s| - 1] }

    static lemma UpToSeparator(chunk: Bytes, block: Bytes, data: Bytes, c: char)
      requires c !in chunk && data == if IndexOf(block, c) == -1 then block else block[..IndexOf(block, c) + 1]
      ensures if IndexOf(block, c) == -1 then c !in chunk + data else EndsAt(chunk + data, c)
    {
      var i := IndexOf(block, c);
      if i != -1 {
        assert data == block[..i] + [c];
        assert (chunk + data)[..|chunk + data| - 1] == chunk + block[..i];
      }
    }

    /** The inner loop of `readuntil`: take blocks until the separator shows up. */
    method TakeBlocks(separator: char, limit: nat, sofar: Bytes, ghost buf0: Bytes, ghost fed0: Bytes)
      returns (chunk: Bytes, notEnough: bool, tooLong: bool)
      requires Valid() && separator !in sofar && |sofar| <= limit
      requires fed0 <= fed && sofar + Buffered() == buf0 + fed[|fed0|..]
      modifies this
      ensures Valid() && fed0 <= fed && chunk + Buffered() == buf0 + fed[|fed0|..]
      ensures tooLong == (|chunk| > limit)
      ensures if notEnough then separator !in chunk else EndsAt(chunk, separator)
      ensures notEnough && !tooLong ==> buffer == []
      ensures |inbox| <= old(|inbox|)
    {
      hide SplitsValid, Increasing, Buffered, EndsAt, IndexOf;
      chunk, notEnough, tooLong := sofar, true, false;
      while buffer != [] && notEnough
        invariant Valid() && fed0 <= fed && chunk + Buffered() == buf0 + fed[|fed0|..]
        invariant |chunk| <= limit && !tooLong && |inbox| <= old(|inbox|)
        invariant if notEnough then separator !in chunk else EndsAt(chunk, separator)
        decreases |inbox|, |Buffered()|, notEnough
      {
        ghost var buf1, fed1 := Buffered(), fed;
        var block := buffer[0][bufferOffset..];
        var i := IndexOf(block, separator);
        var data := ReadNowaitChunk(if i == -1 then -1 else i + 1);
        TookTook(buf0, fed0, chunk, buf1, fed1, data, Buffered(), fed);
        UpToSeparator(chunk, block, data, separator);
        chunk := chunk + data;
        if i != -1 { notEnough := false; }
        if |chunk| > limit {
          tooLong := true;
          return;
        }
      }
    }
  }

  datatype Op =
    | OpExactly(n: nat)
    | OpRead(n: nat)
    | OpAny
    | OpToEnd
    | OpChunk
    | OpUntil(separator: char, maxSize: nat)
    | OpUnread(data: Bytes)
    | OpPush(event: Event)

  /** What an operation does to a plain byte queue: bytes arrive at its end and are taken from its
      front, or are put back there. */
  datatype Effect = Taken(data: Bytes, arrived: Bytes) | PutBack(data: Bytes)

  /** The queue after these effects, if it could have had them. */
  function Replay(queue: Bytes, log: seq<Effect>): Option<Bytes> {
    if log == [] then Some(queue)
    else
      match Replay(queue, log[..|log| - 1])
      case None => None
      case Some(q) => Act(q, log[|log| - 1])
  }

  function Act(queue: Bytes, e: Effect): Option<Bytes> {
    match e
    case PutBack(data) => Some(data + queue)
    case Taken(data, arrived) => if data <= queue + arrived then Some((queue + arrived)[|data|..]) else None
  }

  function Arrivals(log: seq<Effect>): Bytes {
    if log == [] then "" else Arrivals(log[..|log| - 1]) + Arrived(log[|log| - 1])
  }

  function Arrived(e: Effect): Bytes { if e.Taken? then e.arrived else "" }

  function Delivered(log: seq<Effect>): Bytes {
    if log == [] then "" else Delivered(log[..|log| - 1]) + log[|log| - 1].data
  }

  /** A queue that nothing is put back into hands out what was in it and what arrived, in order. */
  lemma {:induction false} ReplayConserves(queue: Bytes, log: seq<Effect>)
    requires Replay(queue, log).Some? && forall i :: 0 <= i < |log| ==> log[i].Taken?
    ensures Delivered(log) + Replay(queue, log).value == queue + Arrivals(log)
  {
    if log == [] {
      assert "" + queue == queue + "";
    } else {
      var front, last := log[..|log| - 1], log[|log| - 1];
      ReplayConserves(queue, front);
      var q := Replay(queue, front).value;
      var rest := (q + last.arrived)[|last.data|..];
      assert q + last.arrived == last.data + rest;
      Assoc(Delivered(front), q, last.arrived);
      Assoc(Delivered(front), last.data, rest);
      Assoc(queue, Arrivals(front), last.arrived);
    }
  }

  lemma ReplayOne(queue: Bytes, log: seq<Effect>, e: Effect)
    ensures Replay(queue, log + [e]) ==
      match Replay(queue, log)
      case None => None
      case Some(q) => Act(q, e)
    ensures Arrivals(log + [e]) == Arrivals(log) + Arrived(e)
  {
    assert (log + [e])[..|log + [e]| - 1] == log;
  }

  /** Any sequence of reads and unreads, with the connection appending in between and in the middle
      of them, acts on the reader as on a plain byte queue. */
  method Session(reader: StreamReader, ops: seq<Op>) returns (outs: seq<Bytes>, ghost log: seq<Effect>)
    requires reader.Valid()
    modifies reader
    ensures reader.Valid() && |outs| == |log| == |ops|
    ensures Replay(old(reader.Buffered()), log) == Some(reader.Buffered())
    ensures old(reader.fed) <= reader.fed && Arrivals(log) == reader.fed[|old(reader.fed)|..]
    ensures forall i :: 0 <= i < |ops| ==> Performed(ops[i], outs[i], log[i])
  {
    hide Replay, Arrivals, Act, Arrived, Performed, StreamReader.Buffered, StreamReader.SplitsValid;
    outs, log := [], [];
    ReplayNothing(reader.Buffered());
    for i := 0 to |ops|
      invariant reader.Valid() && |outs| == |log| == i
      invariant Replay(old(reader.Buffered()), log) == Some(reader.Buffered())
      invariant old(reader.fed) <= reader.fed && Arrivals(log) == reader.fed[|old(reader.fed)|..]
      invariant forall j :: 0 <= j < i ==> Performed(ops[j], outs[j], log[j])
    {
      ghost var fed := reader.fed;
      var data, e := Operate(reader, ops[i]);
      ReplayOne(old(reader.Buffered()), log, e);
      FedOn(old(reader.fed), fed, reader.fed);
      outs, log := outs + [data], log + [e];
    }
  }

  lemma FedOn(fed0: Bytes, fed1: Bytes, fed2: Bytes)
    requires fed0 <= fed1 <= fed2
    ensures fed0 <= fed2 && fed2[|fed0|..] == fed1[|fed0|..] + fed2[|fed1|..]
  {
  }

  ghost predicate Performed(op: Op, out: Bytes, e: Effect) {
    e.data == out && e.PutBack? == op.OpUnread? && (op.OpUnread? ==> out == op.data)
  }

  lemma ReplayNothing(queue: Bytes)
    ensures Replay(queue, []) == Some(queue) && Arrivals([]) == ""
  {
  }

  /** One operation; what a blocked or refused reader has taken counts as handed out. */
  method Operate(reader: StreamReader, op: Op) returns (data: Bytes, ghost e: Effect)
    requires reader.Valid()
    modifies reader
    ensures reader.Valid() && Performed(op, data, e)
    ensures old(reader.fed) <= reader.fed && Arrived(e) == reader.fed[|old(reader.fed)|..]
    ensures Act(old(reader.Buffered()), e) == Some(reader.Buffered())
  {
    hide StreamReader.Buffered, StreamReader.SplitsValid;
    if op.OpUnread? {
      data := op.data;
      reader.UnreadData(data);
      e := PutBack(data);
    } else {
      data := TakeBy(reader, op);
      e := Taken(data, reader.fed[|old(reader.fed)|..]);
      assert (data + reader.Buffered())[|data|..] == reader.Buffered();
    }
  }

  method TakeBy(reader: StreamReader, op: Op) returns (data: Bytes)
    requires reader.Valid() && !op.OpUnread?
    modifies reader
    ensures reader.Valid() && reader.Took(data)
  {
    var r: ReadResult;
    match op {
      case OpExactly(n) => r := reader.ReadExactly(n);
      case OpRead(n) =>
        if n > 0 { r := reader.Read(n); } else { r := reader.ReadExactly(0); }
      case OpAny => r := reader.ReadAny();
      case OpToEnd => r := reader.ReadToEnd();
      case OpUntil(separator, maxSize) => r := reader.ReadUntil(separator, maxSize);
      case OpChunk =>
        var c := reader.ReadChunk();
        r := Got(if c.Chunk? then c.data else "");
      case OpPush(e) =>
        reader.DeliverNow(e);
        r := Got("");
    }
    data := r.data;
  }
}

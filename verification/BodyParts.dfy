/** `BodyPartReader` (multipart.py): the search for the next boundary in a sliding window over
    short reads, pushing back what it has read too far. */
module BodyParts {
  import opened ByteStrings
  import opened Headers

  /** The first line of `s`, with its LF; all of `s` if there is none. */
  function FirstLine(s: Bytes): Bytes {
    var i := IndexOf(s, '\n');
    if i == -1 then s else s[..i + 1]
  }

  /** The stream behind a part (a `StreamReader`): `rest` is everything still to come. Reads are
      arbitrarily short, until the end of the stream has arrived: from then on everything left is
      buffered and a read is as long as it can be. */
  class Content {
    const highWater: nat
    var rest: Bytes
    var eofFed: bool

    constructor (rest: Bytes, highWater: nat)
      ensures this.rest == rest && !eofFed && this.highWater == highWater
    {
      this.rest, this.highWater := rest, highWater;
      eofFed := false;
    }

    method Read(n: nat) returns (data: Bytes)
      modifies this
      ensures data + rest == old(rest) && |data| <= n
      ensures n > 0 ==> (data == "" <==> old(rest) == "")
      ensures old(eofFed) ==> eofFed
      ensures n > 0 && data == "" ==> eofFed
      ensures old(eofFed) ==> |data| == n || rest == ""
    {
      if n == 0 { return ""; }
      var arrived: nat :| arrived <= |rest| && (arrived > 0 || rest == "") && (eofFed ==> arrived == |rest|);
      var k := if arrived < n then arrived else n;
      data := rest[..k];
      rest := rest[k..];
      if data == "" { eofFed := true; }
    }

    method UnreadData(data: Bytes)
      modifies this`rest
      ensures rest == data + old(rest)
    {
      rest := data + rest;
    }

    /** `at_eof`: the end of the stream may become known at any moment once nothing is left. */
    method AtEof() returns (b: bool)
      modifies this`eofFed
      ensures b == (eofFed && rest == "")
      ensures old(eofFed) ==> eofFed
      ensures !old(eofFed) && eofFed ==> rest == ""
    {
      if rest == "" && !eofFed { eofFed := *; }
      return eofFed && rest == "";
    }

    /** `readline`: a line over the limit is refused, some of it having been taken. */
    method ReadLine(maxSize: nat) returns (line: Option<Bytes>)
      modifies this
      ensures line.Some? <==> |FirstLine(old(rest))| <= LineLimit(maxSize, highWater)
      ensures line.Some? ==> line.value == FirstLine(old(rest)) && line.value + rest == old(rest)
      ensures old(eofFed) ==> eofFed
    {
      var taken := FirstLine(rest);
      if |taken| > LineLimit(maxSize, highWater) {
        var k: nat :| LineLimit(maxSize, highWater) < k <= |taken|;
        rest := rest[k..];
        return None;
      }
      rest := rest[|taken|..];
      if taken == "" { eofFed := true; }
      return Some(taken);
    }
  }

  const CHUNK_SIZE := 8192

  datatype PartError = ReadingAfterEof | Malformed | TooBig

  /** The delimiter of a part: CRLF and the boundary line's start. */
  function Delimiter(boundary: Bytes): Bytes { CRLF + boundary }

  datatype Split = Split(body: Bytes, rest: Bytes)

  /** What a part is: with a positive declared length, that many bytes and a CRLF; otherwise the
      bytes before the first delimiter in CRLF + content, up to which the CRLF is consumed. */
  function PartOf(boundary: Bytes, length: Option<nat>, content: Bytes): Option<Split> {
    if length.Some? && length.value > 0 then
      var n := length.value;
      if |content| >= n && CRLF <= content[n..] then Some(Split(content[..n], content[n + 2..])) else None
    else
      var whole := CRLF + content;
      var p := Find(whole, Delimiter(boundary));
      if p == -1 then None else Some(Split(Drop(whole[..p], 2), whole[p + 2..]))
  }

  // ---- searching in a window ---------------------------------------------------------------

  lemma OccursInPrefix(window: Bytes, whole: Bytes, pat: Bytes, i: int)
    requires window <= whole
    ensures OccursAt(window, pat, i) <==> OccursAt(whole, pat, i) && i + |pat| <= |window|
  {
    if 0 <= i <= |window| - |pat| {
      assert window[i..i + |pat|] == whole[i..i + |pat|];
    }
  }

  /** The first occurrence in the whole is found in a prefix that covers it, from any start that
      is not behind it; a prefix that does not cover it has none. */
  lemma FindInPrefix(window: Bytes, whole: Bytes, pat: Bytes, start: nat)
    requires window <= whole && pat != ""
    requires forall i :: 0 <= i < start ==> !OccursAt(whole, pat, i)
    ensures var p := Find(whole, pat);
      Find(window, pat, start) == if p != -1 && p + |pat| <= |window| then p else -1
  {
    hide OccursAt;
    var p, r := Find(whole, pat), Find(window, pat, start);
    if r != -1 {
      OccursInPrefix(window, whole, pat, r);
      forall i | 0 <= i < r ensures !OccursAt(whole, pat, i) {
        if i >= start {
          OccursInPrefix(window, whole, pat, i);
          OccursInPrefix(window, whole, pat, r);
          OccursWidth(window, pat, r);
        }
      }
      FindUnique(whole, pat, r);
      OccursWidth(window, pat, r);
    } else if p != -1 && p + |pat| <= |window| {
      OccursInPrefix(window, whole, pat, p);
    }
  }

  lemma OccursWidth(s: Bytes, pat: Bytes, i: int)
    requires OccursAt(s, pat, i)
    ensures 0 <= i && i + |pat| <= |s|
  {
  }

  /** Dropping bytes before the first occurrence only moves it. */
  lemma ShiftFind(whole: Bytes, pat: Bytes, k: nat)
    requires k <= |whole| && pat != ""
    requires Find(whole, pat) == -1 || Find(whole, pat) >= k
    ensures Find(whole[k..], pat) == if Find(whole, pat) == -1 then -1 else Find(whole, pat) - k
  {
    hide OccursAt;
    var p, r := Find(whole, pat), Find(whole[k..], pat);
    forall i | 0 <= i ensures OccursAt(whole[k..], pat, i) <==> OccursAt(whole, pat, k + i) {
      OccursShift(whole, pat, k, i);
    }
    if p != -1 {
      assert OccursAt(whole[k..], pat, p - k) by { assert k + (p - k) == p; }
      forall j | 0 <= j < p - k ensures !OccursAt(whole[k..], pat, j) { assert !OccursAt(whole, pat, k + j); }
      FindUnique(whole[k..], pat, p - k);
    } else if r != -1 {
      NotFound(whole, pat, k + r);
    }
  }

  lemma OccursShift(whole: Bytes, pat: Bytes, k: nat, i: nat)
    requires k <= |whole|
    ensures OccursAt(whole[k..], pat, i) <==> OccursAt(whole, pat, k + i)
  {
    if k + i <= |whole| - |pat| {
      assert whole[k..][i..i + |pat|] == whole[k + i..k + i + |pat|];
    }
  }

  lemma NoneInPart(part: Bytes, whole: Bytes, pat: Bytes)
    requires part <= whole && pat != ""
    requires Find(whole, pat) == -1 || Find(whole, pat) + |pat| > |part|
    ensures Find(part, pat) == -1
  {
    FindInPrefix(part, whole, pat, 0);
  }

  /** One step of the window search. `prev` was searched before and `chunk` is new; `chunk` is at
      least as long as the delimiter unless nothing comes after it. */
  lemma WindowStep(prev: Bytes, chunk: Bytes, after: Bytes, sub: Bytes, start: nat)
    requires sub != "" && (start == 0 || (Find(prev, sub) == -1 && start <= |prev| && start + |sub| <= |prev|))
    requires |chunk| >= |sub| || after == ""
    ensures var whole := prev + chunk + after; var p := Find(whole, sub); var idx := Find(prev + chunk, sub, start);
      && (idx != -1 ==> idx == p && idx + |sub| <= |prev| + |chunk|)
      && (p != -1 && p <= |prev| ==> idx == p)
      && (idx == -1 ==> p == -1 || (p > |prev| && p + |sub| > |prev| + |chunk|))
      && (idx == -1 ==> Find(chunk, sub) == -1 && Find(chunk + after, sub) == if p == -1 then -1 else p - |prev|)
      && (idx > |prev| ==> Find((prev + chunk)[|prev|..idx], sub) == -1 && Find(whole[|prev|..], sub) == idx - |prev|)
  {
    hide Find, OccursAt;
    var whole, window := prev + chunk + after, prev + chunk;
    forall i | 0 <= i < start ensures !OccursAt(whole, sub, i) {
      OccursInPrefix(prev, whole, sub, i);
      NotFound(prev, sub, i);
    }
    FindInPrefix(window, whole, sub, start);
    FindInside(whole, sub);
    var p, idx := Find(whole, sub), Find(window, sub, start);
    assert after == "" ==> window == whole;
    assert whole[|prev|..] == chunk + after;
    if idx == -1 {
      ShiftFind(whole, sub, |prev|);
      NoneInPart(chunk, chunk + after, sub);
    } else if idx > |prev| {
      ShiftFind(whole, sub, |prev|);
      assert window[|prev|..idx] == (chunk + after)[..idx - |prev|];
      NoneInPart(window[|prev|..idx], chunk + after, sub);
    }
  }

  /** What one step leaves: the chunk to return, the chunk to hold back, and the stream after the
      delimiter has been pushed back. */
  datatype Window = Window(out: Bytes, held: Bytes, rest: Bytes)

  function Settle(prev: Bytes, chunk: Bytes, after: Bytes, idx: int): Window
    requires -1 <= idx <= |prev + chunk|
  {
    if idx == -1 then Window(prev, chunk, after)
    else
      var out := Take(prev, idx);
      Window(out, (prev + chunk)[|out|..idx], (prev + chunk)[idx..] + after)
  }

  /** The step stopped at the delimiter: exactly the bytes before it are returned. */
  ghost predicate AtDelimiter(whole: Bytes, sub: Bytes, w: Window) {
    var p := Find(whole, sub);
    0 <= p <= |whole| && w.held == "" && w.out == whole[..p] && w.rest == whole[p..]
  }

  /** The step lost nothing, and the delimiter, if there is one, is still ahead. */
  ghost predicate StillAhead(whole: Bytes, sub: Bytes, after: Bytes, w: Window) {
    var p := Find(whole, sub);
    && whole == w.out + (w.held + w.rest) && Find(w.held, sub) == -1
    && Find(w.held + w.rest, sub) == (if p == -1 then -1 else p - |w.out|)
    && (p != -1 ==> p > |w.out| && (|after| < |sub| ==> p <= |w.out| + |w.held|))
    && (w.held == "" ==> w.rest == "" && p == -1)
  }

  ghost predicate Searchable(prev: Bytes, chunk: Bytes, after: Bytes, sub: Bytes, start: nat) {
    && sub != "" && (start == 0 || (Find(prev, sub) == -1 && start <= |prev| && start + |sub| <= |prev|))
    && (|chunk| >= |sub| || after == "")
  }

  lemma NoDelimiterYet(prev: Bytes, chunk: Bytes, after: Bytes, sub: Bytes, start: nat)
    requires Searchable(prev, chunk, after, sub, start) && Find(prev + chunk, sub, start) == -1
    ensures StillAhead(prev + chunk + after, sub, after, Window(prev, chunk, after))
  {
    hide Find, OccursAt;
    WindowStep(prev, chunk, after, sub, start);
    FindInside(prev + chunk + after, sub);
    Assoc(prev, chunk, after);
  }

  lemma DelimiterInChunk(prev: Bytes, chunk: Bytes, after: Bytes, sub: Bytes, start: nat)
    requires Searchable(prev, chunk, after, sub, start)
    requires |prev| < Find(prev + chunk, sub, start) <= |prev + chunk|
    ensures StillAhead(prev + chunk + after, sub, after, Settle(prev, chunk, after, Find(prev + chunk, sub, start)))
  {
    hide Find, OccursAt;
    WindowStep(prev, chunk, after, sub, start);
    var whole, window, idx := prev + chunk + after, prev + chunk, Find(prev + chunk, sub, start);
    CutAgain(window, after, |prev|, idx);
    assert window[..|prev|] == prev;
    assert whole == prev + whole[|prev|..];
  }

  lemma DelimiterInPrev(prev: Bytes, chunk: Bytes, after: Bytes, sub: Bytes, start: nat)
    requires Searchable(prev, chunk, after, sub, start) && 0 <= Find(prev + chunk, sub, start) <= |prev|
    ensures AtDelimiter(prev + chunk + after, sub, Settle(prev, chunk, after, Find(prev + chunk, sub, start)))
  {
    hide Find, OccursAt;
    WindowStep(prev, chunk, after, sub, start);
    var idx := Find(prev + chunk, sub, start);
    CutAgain(prev + chunk, after, idx, idx);
    assert prev[..idx] == (prev + chunk + after)[..idx];
  }

  lemma CutAgain(window: Bytes, after: Bytes, i: nat, j: nat)
    requires i <= j <= |window|
    ensures window[j..] + after == (window + after)[j..]
    ensures window[i..j] + (window[j..] + after) == (window + after)[i..]
  {
  }

  /** Either the step finds the delimiter inside what was held back and returns exactly the bytes
      before it, or it loses nothing, and the delimiter, if there is one, is still ahead. */
  lemma WindowSettles(prev: Bytes, chunk: Bytes, after: Bytes, sub: Bytes, start: nat)
    requires Searchable(prev, chunk, after, sub, start)
    ensures var idx := Find(prev + chunk, sub, start);
      -1 <= idx <= |prev + chunk| &&
      var w := Settle(prev, chunk, after, idx);
      if idx != -1 && w.held == "" then AtDelimiter(prev + chunk + after, sub, w) && idx <= |prev|
      else StillAhead(prev + chunk + after, sub, after, w) && w.out == prev
  {
    hide OccursAt, StillAhead, AtDelimiter, Searchable;
    FoundInside(prev + chunk, sub, start);
    var idx := Find(prev + chunk, sub, start);
    if idx == -1 {
      NoDelimiterYet(prev, chunk, after, sub, start);
    } else if idx > |prev| {
      DelimiterInChunk(prev, chunk, after, sub, start);
    } else {
      DelimiterInPrev(prev, chunk, after, sub, start);
    }
  }

  lemma FoundInside(s: Bytes, pat: Bytes, start: nat)
    ensures Find(s, pat, start) == -1 || 0 <= Find(s, pat, start) <= |s| - |pat|
  {
  }

  lemma NotFound(s: Bytes, pat: Bytes, i: int)
    requires Find(s, pat) == -1
    ensures !OccursAt(s, pat, i)
  {
  }

  class BodyPartReader {
    const boundary: Bytes
    const headers: seq<Header>
    const length: Option<nat>
    const content: Content
    const clientMaxSize: nat
    var atEof: bool
    var readBytes: nat
    var prevChunk: Option<Bytes>
    var contentEof: nat
    ghost const start: Bytes // the stream at the beginning of the part
    ghost var emitted: Bytes // the chunks returned so far

    constructor (boundary: Bytes, headers: seq<Header>, length: Option<nat>, content: Content, clientMaxSize: nat)
      ensures this.boundary == boundary && this.headers == headers && this.length == length
      ensures this.content == content && this.clientMaxSize == clientMaxSize
      ensures Reading() && start == content.rest && emitted == ""
    {
      this.boundary, this.headers, this.length, this.content, this.clientMaxSize :=
        boundary, headers, length, content, clientMaxSize;
      atEof, readBytes, prevChunk, contentEof, emitted, start := false, 0, None, 0, "", content.rest;
    }

    /** Framed by a declared length rather than by the next delimiter. */
    predicate ByLength() { length.Some? && length.value > 0 }

    /** The part the stream holds, if it is well formed. */
    ghost function Target(): Option<Split> { PartOf(boundary, length, start) }

    /** The search in what is left stands for the search in the whole part. */
    ghost predicate Aligned()
      reads this, content
    {
      if prevChunk.None? then emitted == "" && content.rest == start
      else
        && emitted + Whole() == start
        && var p, q := Find(CRLF + start, Sub()), Find(Whole(), Sub());
          if q == -1 then p == -1 else p == q + 2 + |emitted|
    }

    /** Part way through: what was returned and what is still to be searched make up the stream. */
    ghost predicate Reading()
      reads this, content
    {
      && !atEof && readBytes == |emitted|
      && (if ByLength() then emitted + content.rest == start && |emitted| < length.value
          else Searching() && Aligned())
    }

    /** All of the part has been returned and the stream is at the boundary line. */
    ghost predicate Done()
      reads this, content
    {
      atEof && Target() == Some(Split(emitted, content.rest))
    }

    function Sub(): Bytes { Delimiter(boundary) }

    /** What is still to be searched: the held-back chunk and the stream, with the CRLF that the
        header parser consumed put back in front at the start. */
    ghost function Whole(): Bytes
      reads this, content
    {
      match prevChunk
      case None => CRLF + content.rest
      case Some(p) => p + content.rest
    }

    /** Between two chunks of a part of unknown length. */
    ghost predicate Searching()
      reads this, content
    {
      && !atEof && contentEof <= 2
      && (contentEof > 0 ==> content.eofFed)
      && (prevChunk.None? ==> contentEof == 0)
      && (prevChunk.Some? ==> Find(prevChunk.value, Sub()) == -1)
      && (prevChunk == Some("") ==> content.rest == "")
      && var p := Find(Whole(), Sub());
        p != -1 ==> contentEof == 0 || (contentEof == 1 && prevChunk.Some? && p <= |prevChunk.value|)
    }

    /** Lines 408-417: read until a delimiter length is there, or the stream has ended. */
    method FillChunk(size: nat) returns (chunk: Bytes, raised: bool)
      requires size >= |Sub()| && contentEof <= 2 && (contentEof > 0 ==> content.eofFed)
      modifies this`contentEof, content
      ensures chunk + content.rest == old(content.rest)
      ensures contentEof <= old(contentEof) + 1 && old(contentEof) <= contentEof
      ensures raised == (contentEof > 2)
      ensures contentEof > 0 ==> content.eofFed
      ensures |chunk| >= |Sub()| || (content.rest == "" && content.eofFed && contentEof > 0) || raised
      ensures contentEof > old(contentEof) ==> content.rest == ""
      ensures |chunk| < size + |Sub()|
      ensures chunk == "" ==> contentEof > old(contentEof)
    {
      chunk, raised := "", false;
      assert "" + content.rest == content.rest;
      while |chunk| < |boundary| + 2
        invariant chunk + content.rest == old(content.rest)
        invariant contentEof == old(contentEof) && (chunk != "" ==> contentEof == 0)
        invariant contentEof > 0 ==> content.eofFed
        invariant |chunk| < size + |Sub()|
        decreases |content.rest|
      {
        ghost var was := content.rest;
        var more := content.Read(size);
        Assoc(chunk, more, content.rest);
        assert |more| + |content.rest| == |was|;
        chunk := chunk + more;
        var ended := content.AtEof();
        contentEof := contentEof + if ended then 1 else 0;
        if contentEof > 2 { return chunk, true; }
        if contentEof > 0 { return; }
      }
    }

    /** A chunk for the window; what is longer than asked for goes back. */
    method FillWindow(size: nat) returns (chunk: Bytes, raised: bool)
      requires size >= |Sub()| && contentEof <= 2 && (contentEof > 0 ==> content.eofFed)
      modifies this`contentEof, content
      ensures chunk + content.rest == old(content.rest) && raised == (contentEof > 2)
      ensures old(contentEof) <= contentEof <= old(contentEof) + 1 && (contentEof > 0 ==> content.eofFed)
      ensures !raised ==> |chunk| >= |Sub()| || content.rest == ""
      ensures !raised && contentEof > old(contentEof) ==> |content.rest| < |Sub()|
      ensures !raised && chunk == "" ==> contentEof > old(contentEof)
    {
      hide Find, OccursAt, Sub;
      SubWidth();
      chunk, raised := FillChunk(size);
      if |chunk| > size && !raised {
        Assoc(chunk[..size], chunk[size..], content.rest);
        assert chunk == chunk[..size] + chunk[size..];
        content.UnreadData(chunk[size..]);
        chunk := chunk[..size];
      }
    }

    /** Lines 403-420: the held-back chunk, and a new one cut to `size`. */
    method PrepareWindow(size: nat) returns (prev: Bytes, chunk: Bytes, raised: bool)
      requires size >= |Sub()| && Searching()
      modifies this`contentEof, content
      ensures raised ==> old(contentEof) == 2
      ensures !raised ==> prev + chunk + content.rest == old(Whole())
      ensures !raised ==>
        old(contentEof) <= contentEof <= old(contentEof) + 1 && contentEof <= 2 &&
        (contentEof > 0 ==> content.eofFed)
      ensures !raised ==> |chunk| >= |Sub()| || content.rest == ""
      ensures !raised && contentEof > old(contentEof) ==> |content.rest| < |Sub()|
      ensures !raised && chunk == "" ==> contentEof > old(contentEof)
      ensures if old(prevChunk).Some? then prev == old(prevChunk).value else CRLF <= prev
      ensures !raised && |prev| == (if old(prevChunk).Some? then 0 else 2) ==> chunk == "" && content.rest == ""
    {
      hide Find, OccursAt, Sub;
      SubWidth();
      if prevChunk.None? {
        // the CRLF before the part went with its headers
        var d := content.Read(size);
        prev := CRLF + d;
        Assoc(CRLF, d, content.rest);
      } else {
        prev := prevChunk.value;
      }
      chunk, raised := FillWindow(size);
      Assoc(prev, chunk, content.rest);
    }

    /** What is searched goes out but for the last chunk, or up to the delimiter (lines 422-440). */
    method SearchWindow(size: nat) returns (out: Bytes, raised: bool)
      requires size >= |Sub()| && Searching()
      modifies this`prevChunk, this`contentEof, this`atEof, content
      ensures raised ==> Find(old(Whole()), Sub()) == -1 && out == "" && !atEof
      ensures !raised && !atEof ==> Searching() && prevChunk.Some? && contentEof >= old(contentEof)
      ensures !raised && !atEof ==> old(Whole()) == out + Whole() && (old(prevChunk.None?) ==> CRLF <= out)
      ensures !raised && !atEof ==> var p := Find(old(Whole()), Sub());
        (p == -1 || p >= |out|) && Find(Whole(), Sub()) == if p == -1 then -1 else p - |out|
      ensures !raised && !atEof && |out| == (if old(prevChunk.None?) then 2 else 0) ==>
        content.rest == "" && Find(old(Whole()), Sub()) == -1 && contentEof > old(contentEof)
      ensures atEof ==> !raised && var p := Find(old(Whole()), Sub());
        p != -1 && out == old(Whole())[..p] && content.rest == old(Whole())[p..]
    {
      hide Find, OccursAt, Settle, Sub;
      SubWidth();
      var first := prevChunk.None?;
      var prev, chunk;
      prev, chunk, raised := PrepareWindow(size);
      if raised { return "", true; }
      var start := if first || |prev| < |Sub()| then 0 else |prev| - |Sub()|;
      WindowSettles(prev, chunk, content.rest, Sub(), start);
      out := Slide(prev, chunk, start);
    }

    /** `_read_chunk_from_stream` (lines 397-440). On a part that has a delimiter it never raises;
        it hands out the bytes before the delimiter and stops exactly at it. */
    method ReadChunkFromStream(size: nat) returns (result: Bytes, raised: bool)
      requires size >= |Sub()| && Searching()
      modifies this`prevChunk, this`contentEof, this`atEof, content
      ensures raised ==> Find(old(Whole()), Sub()) == -1
      ensures !raised && !atEof ==> Searching() && prevChunk.Some? && contentEof >= old(contentEof)
      ensures !raised && !atEof ==> old(Whole()) == (if old(prevChunk.None?) then CRLF else "") + (result + Whole())
      ensures !raised && !atEof ==> var p := Find(old(Whole()), Sub());
        (p == -1 || p >= old(|Whole()|) - |Whole()|) &&
        Find(Whole(), Sub()) == if p == -1 then -1 else p - (old(|Whole()|) - |Whole()|)
      ensures !raised && !atEof && result == "" ==> content.rest == "" && Find(old(Whole()), Sub()) == -1
      ensures !raised && !atEof ==>
        |Whole()| < old(|Whole()|) || (|Whole()| == old(|Whole()|) && contentEof > old(contentEof))
      ensures atEof ==> !raised && var p := Find(old(Whole()), Sub());
        && p != -1 && content.rest == old(Whole())[p..]
        && result == Drop(old(Whole())[..p], if old(prevChunk.None?) then 2 else 0)
    {
      hide Find, OccursAt, Sub;
      var first := prevChunk.None?;
      var out;
      out, raised := SearchWindow(size);
      result := Drop(out, if first then 2 else 0);
      if first && !raised && !atEof { assert out == CRLF + result; }
    }

    lemma SubWidth()
      ensures |Sub()| == |boundary| + 2 && Sub() != ""
    {
    }

    /** Lines 422-439: look for the delimiter and push it back, with all that follows it. */
    method Slide(prev: Bytes, chunk: Bytes, start: nat) returns (out: Bytes)
      requires !atEof
      modifies this`prevChunk, this`atEof, content`rest
      ensures Find(prev + chunk, Sub(), start) <= |prev + chunk|
      ensures var idx := Find(prev + chunk, Sub(), start);
        var w := Settle(prev, chunk, old(content.rest), idx);
        out == w.out && prevChunk == Some(w.held) && content.rest == w.rest && atEof == (idx != -1 && w.held == "")
    {
      var window := prev + chunk;
      var idx := Find(window, Sub(), start);
      if idx == -1 {
        prevChunk := Some(chunk);
        return prev;
      }
      content.UnreadData(window[idx..]);
      out := Take(prev, idx);
      prevChunk := Some(window[|out|..idx]);
      if window[|out|..idx] == "" { atEof := true; }
    }

    /** `_read_chunk_from_length` */
    method ReadChunkFromLength(size: nat) returns (chunk: Bytes)
      requires Reading() && ByLength()
      modifies this`atEof, content
      ensures chunk + content.rest == old(content.rest) && |chunk| <= length.value - readBytes
      ensures atEof ==> content.rest == ""
      ensures size > 0 && chunk == "" ==> atEof
    {
      var want := length.value - readBytes;
      chunk := content.Read(if want < size then want else size);
      var ended := content.AtEof();
      if ended { atEof := true; }
    }

    /** One chunk of a part of declared length. */
    method StepByLength(size: nat) returns (chunk: Bytes)
      requires Reading() && ByLength()
      modifies this`atEof, this`emitted, this`readBytes, content
      ensures emitted == old(emitted) + chunk && emitted + content.rest == start &&
        readBytes == |emitted| <= length.value
      ensures atEof ==> content.rest == ""
      ensures size > 0 && !atEof ==> Weight() < old(Weight())
    {
      chunk := ReadChunkFromLength(size);
      Assoc(emitted, chunk, content.rest);
      emitted := emitted + chunk;
      readBytes := readBytes + |chunk|;
    }

    /** One chunk of a part that ends at the next delimiter. */
    method StepToDelimiter(size: nat) returns (chunk: Bytes, raised: bool)
      requires size >= |Sub()| && Reading() && !ByLength()
      modifies this`prevChunk, this`contentEof, this`atEof, this`emitted, this`readBytes, content
      ensures emitted == old(emitted) + chunk
      ensures raised ==> Target().None?
      ensures !raised && !atEof ==> Reading() && Weight() < old(Weight())
      ensures !raised && !atEof && readBytes == 0 ==> content.rest == "" && Target().None?
      ensures atEof ==> !raised && CRLF <= content.rest && Target() == Some(Split(emitted, content.rest[2..]))
    {
      hide Find, OccursAt, Delimiter;
      ghost var whole, before := Whole(), emitted;
      ghost var first := prevChunk.None?;
      chunk, raised := ReadChunkFromStream(size);
      emitted := emitted + chunk;
      readBytes := readBytes + |chunk|;
      if !raised {
        if atEof {
          ReachedDelimiter(whole, before, first);
        } else {
          Assoc(before, chunk, Whole());
          assert "" + (chunk + Whole()) == chunk + Whole() && "" + chunk == chunk;
          if first { assert whole[2..] == start && (CRLF + (chunk + Whole()))[2..] == chunk + Whole(); }
          assert |whole| - |Whole()| == |chunk| + if first then 2 else 0;
        }
      }
    }

    /** At the delimiter, what was returned is the body and what follows is the boundary line. */
    lemma ReachedDelimiter(whole: Bytes, before: Bytes, first: bool)
      requires first ==> before == "" && whole == CRLF + start
      requires !first ==> before + whole == start
      requires Find(whole, Sub()) != -1 && content.rest == whole[Find(whole, Sub())..]
      requires emitted == before + Drop(whole[..Find(whole, Sub())], if first then 2 else 0)
      requires Find(CRLF + start, Sub()) == Find(whole, Sub()) + if first then 0 else 2 + |before|
      requires !ByLength()
      ensures CRLF <= content.rest && Target() == Some(Split(emitted, content.rest[2..]))
    {
      hide Find, OccursAt, Delimiter;
      var q := Find(whole, Sub());
      SubWidth();
      FindInside(whole, Sub());
      DelimiterStart(whole);
      if first {
        assert before + Drop(whole[..q], 2) == Drop(whole[..q], 2);
      } else {
        ShiftedCut(before, whole, q);
      }
    }

    lemma DelimiterStart(whole: Bytes)
      requires Find(whole, Sub()) != -1
      ensures var rest := whole[Find(whole, Sub())..]; CRLF <= rest && rest[2..] == whole[Find(whole, Sub()) + 2..]
    {
      var q := Find(whole, Sub());
      FoundAt(whole, Sub());
      assert whole[q..q + |Sub()|] == Sub();
      assert whole[q..][..2] == Sub()[..2] == CRLF;
    }

    static lemma ShiftedCut(before: Bytes, whole: Bytes, q: nat)
      requires q + 2 <= |whole|
      ensures var full, p := CRLF + (before + whole), q + 2 + |before|;
        Drop(full[..p], 2) == before + Drop(whole[..q], 0) && full[p + 2..] == whole[q + 2..]
    {
      assert (CRLF + (before + whole))[..q + 2 + |before|] == CRLF + (before + whole[..q]);
      assert Drop(whole[..q], 0) == whole[..q];
    }

    /** `read_chunk` (lines 343-385), no base64 transfer encoding: on a well-formed part it never
        fails, and once it reports the end everything before the delimiter has been returned. Only a
        part without a declared length asks for a minimal size. */
    method ReadChunk(size: nat) returns (r: Result<Bytes, PartError>)
      requires (Reading() || atEof) && (!atEof && !ByLength() ==> size >= |Sub()|) && content.highWater >= 2
      modifies this, content
      ensures old(atEof) ==> r == Ok("") && atEof && content.rest == old(content.rest) && emitted == old(emitted)
      ensures !old(atEof) && r.Ok? ==> emitted == old(emitted) + r.value && (Done() || Reading())
      ensures !old(atEof) && r.Ok? && !atEof && size > 0 ==> Weight() < old(Weight())
      ensures r.Err? ==> Target().None?
    {
      hide Find, PartOf, FirstLine, Sub, Searching, Aligned;
      if atEof {
        return Ok("");
      }
      var chunk: Bytes;
      if ByLength() {
        chunk := StepByLength(size);
        TargetByLength();
      } else {
        var raised;
        chunk, raised := StepToDelimiter(size);
        if raised { return Err(ReadingAfterEof); }
      }
      if length == Some(readBytes) { atEof := true; }
      if atEof {
        LineIsCrlf(content.rest);
        var line := content.ReadLine(0);
        if line != Some(CRLF) { return Err(Malformed); }
      }
      return Ok(chunk);
    }

    lemma TargetByLength()
      requires ByLength() && emitted + content.rest == start && |emitted| <= length.value
      ensures |emitted| == length.value ==>
        Target() == if CRLF <= content.rest then Some(Split(emitted, content.rest[2..])) else None
      ensures |emitted| < length.value && content.rest == "" ==> Target().None?
    {
      if |emitted| == length.value {
        assert start[..length.value] == emitted && start[length.value..] == content.rest;
        assert |content.rest| >= 2 ==> start[length.value + 2..] == content.rest[2..];
      }
    }

    lemma EmittedWithinTarget()
      requires Reading() && Target().Some?
      ensures |emitted| <= |Target().value.body|
    {
      hide Find, OccursAt, Delimiter;
      SubWidth();
      if !ByLength() { FindInside(CRLF + start, Sub()); }
    }

    /** `read` (lines 319-341): exactly what is left of the part that the stream holds. It fails if
        and only if there is no such part or what is left is over the size limit. */
    method Read() returns (r: Result<Bytes, PartError>)
      requires (Reading() || atEof) && |Sub()| <= CHUNK_SIZE && content.highWater >= 2
      modifies this, content
      ensures old(atEof) ==> r == Ok("") && atEof && content.rest == old(content.rest) && emitted == old(emitted)
      ensures !old(atEof) && Target().None? ==> r.Err?
      ensures !old(atEof) && Target().Some? ==>
        var left := Drop(Target().value.body, |old(emitted)|);
        if |left| > clientMaxSize then r == Err(TooBig)
        else r == Ok(left) && content.rest == Target().value.rest && Done()
    {
      hide Searching, Aligned, Delimiter, PartOf, Find;
      if atEof { return Ok(""); }
      var data: Bytes := "";
      while !atEof
        invariant Reading() || Done()
        invariant emitted == old(emitted) + data && |data| <= clientMaxSize
        decreases !atEof, Weight()
      {
        var chunk := ReadChunk(CHUNK_SIZE);
        if chunk.Err? { return Err(chunk.error); }
        data := data + chunk.value;
        if |data| > clientMaxSize {
          if !atEof && Target().Some? { EmittedWithinTarget(); }
          return Err(TooBig);
        }
      }
      assert emitted[|old(emitted)|..] == data;
      return Ok(data);
    }

    /** `release`: what is left of the part is skipped, however much of it was read before. */
    method Release() returns (error: Option<PartError>)
      requires (Reading() || Done()) && |Sub()| <= CHUNK_SIZE && content.highWater >= 2
      modifies this, content
      ensures error.Some? <==> Target().None?
      ensures error.None? ==> Done()
    {
      hide Searching, Aligned, Delimiter, PartOf, Find;
      while !atEof
        invariant Reading() || Done()
        decreases !atEof, Weight()
      {
        var chunk := ReadChunk(CHUNK_SIZE);
        if chunk.Err? { return Some(chunk.error); }
      }
      return None;
    }

    ghost function Weight(): nat
      reads this, content
    {
      2 * |Whole()| + (if prevChunk.None? then 1 else 0) + if contentEof < 3 then 3 - contentEof else 0
    }
  }

  lemma LineIsCrlf(s: Bytes)
    ensures FirstLine(s) == CRLF <==> CRLF <= s
  {
    if |s| >= 2 && s[0] == '\r' && s[1] == '\n' {
      assert s[..1] == "\r";
      IndexOfUnique(s, '\n', 1);
    }
  }
}

/** Reading what a multipart writer sent gives its parts back, exactly when no part can be taken
    for more or less than it is. */
module MultipartRoundTrips {
  import opened ByteStrings
  import opened Headers
  import opened BodyParts
  import opened MultipartReaders
  import opened MultipartBoundaries
  import W = MultipartWriters
  import Requests

  /** A message of parts, from the front. */
  function Text(boundary: Bytes, ps: seq<Parsed>): Bytes {
    if ps == [] then W.Closing(boundary)
    else W.Framed(boundary, ps[0].headers, ps[0].body) + Text(boundary, ps[1..])
  }

  /** What a reader sees of parts as they are sent: it does not decode them. */
  function Leaves(parts: seq<W.Part>): seq<Parsed> {
    seq(|parts|, i requires 0 <= i < |parts| => Parsed(parts[i].headers, W.SentBytes(parts[i])))
  }

  lemma {:induction false} TextSnoc(boundary: Bytes, ps: seq<Parsed>, p: Parsed, front: Bytes)
    requires Text(boundary, ps) == front + W.Closing(boundary)
    ensures Text(boundary, ps + [p]) == front + W.Framed(boundary, p.headers, p.body) + W.Closing(boundary)
    decreases |ps|
  {
    hide W.Closing, W.Framed;
    if ps == [] {
      assert ([] + [p])[1..] == [];
      assert front == "" by { assert |front| == 0; }
    } else {
      assert (ps + [p])[1..] == ps[1..] + [p];
      var head := W.Framed(boundary, ps[0].headers, ps[0].body);
      HeadIsInFront(boundary, ps, front);
      TextSnoc(boundary, ps[1..], p, front[|head|..]);
      assert front == head + front[|head|..];
    }
  }

  lemma {:induction false} EndsWithClosing(boundary: Bytes, ps: seq<Parsed>)
    ensures |Text(boundary, ps)| >= |W.Closing(boundary)|
  {
    hide W.Closing, W.Framed;
    if ps != [] { EndsWithClosing(boundary, ps[1..]); }
  }

  lemma HeadIsInFront(boundary: Bytes, ps: seq<Parsed>, front: Bytes)
    requires ps != [] && Text(boundary, ps) == front + W.Closing(boundary)
    ensures var head := W.Framed(boundary, ps[0].headers, ps[0].body);
      head <= front && Text(boundary, ps[1..]) == front[|head|..] + W.Closing(boundary)
  {
    hide W.Closing, W.Framed;
    EndsWithClosing(boundary, ps[1..]);
    var head, whole := W.Framed(boundary, ps[0].headers, ps[0].body), Text(boundary, ps);
    assert whole[|head|..] == Text(boundary, ps[1..]);
    assert whole[..|head|] == head == front[..|head|];
  }

  /** The bytes sent are the text of the leaves. */
  lemma {:induction false} SentIsText(boundary: Bytes, parts: seq<W.Part>)
    ensures W.Sent(boundary, parts) + W.Closing(boundary) == Text(boundary, Leaves(parts))
    decreases |parts|
  {
    hide W.Closing, W.Framed, W.SentBytes;
    if parts == [] {
      assert Leaves(parts) == [];
      W.MessageStart(boundary);
    } else {
      var front, last := parts[..|parts| - 1], parts[|parts| - 1];
      SentIsText(boundary, front);
      assert Leaves(parts) == Leaves(front) + [Parsed(last.headers, W.SentBytes(last))];
      TextSnoc(boundary, Leaves(front), Parsed(last.headers, W.SentBytes(last)), W.Sent(boundary, front));
    }
  }

  // ---- lines -----------------------------------------------------------------------------------

  lemma LineFirst(line: Bytes, rest: Bytes)
    requires '\n' !in line
    ensures FirstLine(line + CRLF + rest) == line + CRLF && (line + CRLF + rest)[|line| + 2..] == rest
  {
    var s := line + CRLF + rest;
    assert s[|line| + 1] == '\n' && s[..|line| + 1] == line + "\r";
    IndexOfUnique(s, '\n', |line| + 1);
    assert s[..|line| + 2] == line + CRLF;
  }

  lemma TrimLine(line: Bytes, chars: set<char>)
    requires '\r' in chars && '\n' in chars && (line == "" || line[|line| - 1] !in chars)
    ensures TrimEnd(line + CRLF, chars) == line
  {
    var s := line + CRLF;
    assert s[..|s| - 1] == line + "\r" && (line + "\r")[..|line|] == line;
    assert TrimEnd(line + "\r", chars) == TrimEnd(line, chars);
  }

  /** A boundary that a reader can get and find again. */
  predicate GoodBoundary(b: Bytes) { Safe(b) && |b| <= 70 && (b == "" || !Blank(b[|b| - 1])) }

  lemma MarkLine(c: Config)
    requires Safe(c.boundary)
    ensures '\n' !in c.Mark() && '\n' !in c.Mark() + "--"
    ensures c.boundary == "" || !Blank(c.boundary[|c.boundary| - 1]) ==> c.Mark()[|c.Mark()| - 1] !in SPACES
  {
    SafeHasNoLineEnd(c.boundary);
    assert c.boundary != "" ==> !IsForbidden(c.boundary[|c.boundary| - 1]);
  }

  /** The reader looks at two lines behind the message. */
  predicate EpilogueFits(c: Config, after: Bytes) {
    c.Fits(FirstLine(after)) && c.Fits(FirstLine(after[|FirstLine(after)|..]))
  }

  lemma NoEpilogue(c: Config)
    ensures EpilogueFits(c, "")
  {
    assert FirstLine("") == "";
  }

  lemma EpilogueIff(c: Config, after: Bytes)
    ensures Epilogue(c, after).Some? <==> EpilogueFits(c, after)
  {
  }

  /** A last boundary line ends the message, whatever follows it, unless that has too long a line. */
  lemma AtClosing(c: Config, after: Bytes, first: bool)
    requires Safe(c.boundary) && c.Fits(W.Closing(c.boundary))
    ensures NextPart(c, W.Closing(c.boundary) + after, first).End? <==> first || EpilogueFits(c, after)
  {
    hide OpenPart, Safe, FirstLine, TrimEnd, Epilogue, LineLimit, EpilogueFits;
    MarkLine(c);
    LineFirst(c.Mark() + "--", after);
    TrimLine(c.Mark() + "--", SPACES);
    EpilogueIff(c, after);
    assert W.Closing(c.boundary) + after == c.Mark() + "--" + CRLF + after;
  }

  /** Lines that fit and are not boundary lines. */
  predicate Preamble(c: Config, lines: seq<Bytes>) {
    forall i :: 0 <= i < |lines| ==>
      '\n' !in lines[i] && c.Fits(lines[i] + "\n") &&
      TrimEnd(lines[i] + "\n", SPACES) != c.Mark() && TrimEnd(lines[i] + "\n", SPACES) != c.Mark() + "--"
  }

  function Lines(lines: seq<Bytes>): Bytes { if lines == [] then "" else lines[0] + "\n" + Lines(lines[1..]) }

  lemma {:induction false} SkipLines(c: Config, lines: seq<Bytes>, s: Bytes)
    requires Preamble(c, lines)
    ensures FirstBoundary(c, Lines(lines) + s) == FirstBoundary(c, s)
    decreases |lines|
  {
    hide TrimEnd, LineLimit, FirstLine, FirstBoundary;
    if lines == [] {
      assert "" + s == s;
    } else {
      SkipLines(c, lines[1..], s);
      SkipLine(c, lines[0], Lines(lines[1..]) + s);
      Assoc(lines[0] + "\n", Lines(lines[1..]), s);
    }
  }

  lemma SkipLine(c: Config, line: Bytes, rest: Bytes)
    requires Preamble(c, [line])
    ensures FirstBoundary(c, line + "\n" + rest) == FirstBoundary(c, rest)
  {
    hide TrimEnd, LineLimit, FirstLine;
    FirstOfLines(line, rest);
    assert [line][0] == line;
    assert (line + "\n" + rest)[|line + "\n"|..] == rest;
  }

  /** What comes before the first boundary line is skipped. */
  lemma PreambleIsSkipped(c: Config, lines: seq<Bytes>, s: Bytes)
    requires Preamble(c, lines)
    ensures ReadParts(c, Lines(lines) + s, true) == ReadParts(c, s, true)
  {
    hide FirstBoundary, Preamble, OpenPart, PartOf, Lines;
    SkipLines(c, lines, s);
  }

  lemma FirstOfLines(line: Bytes, rest: Bytes)
    requires '\n' !in line
    ensures FirstLine(line + "\n" + rest) == line + "\n"
  {
    var s := line + "\n" + rest;
    assert s[|line|] == '\n' && s[..|line|] == line;
    IndexOfUnique(s, '\n', |line|);
    assert s[..|line| + 1] == line + "\n";
  }

  /** A boundary line opens a part. */
  lemma AtBoundary(c: Config, rest: Bytes, first: bool)
    requires GoodBoundary(c.boundary) && c.Fits(W.Opening(c.boundary))
    ensures NextPart(c, W.Opening(c.boundary) + rest, first) == OpenPart(c, rest)
  {
    hide OpenPart, Safe, FirstLine, TrimEnd, Epilogue, LineLimit;
    MarkLine(c);
    LineFirst(c.Mark(), rest);
    TrimLine(c.Mark(), SPACES);
    assert W.Opening(c.boundary) == c.Mark() + CRLF;
  }

  /** A boundary that ends in a tab is printed, but no line is one that opens a part: the reader strips
      the lines it compares. */
  lemma {:induction false} FinalTabIsNeverFound(c: Config, s: Bytes)
    requires EndsInTab(c.boundary)
    ensures NextPart(c, s, true).Broken? || NextPart(c, s, true).End?
    ensures NextPart(c, s, false).Broken? || NextPart(c, s, false).End?
    decreases |s|
  {
    hide TrimEnd, FirstLine, OpenPart, Epilogue, LineLimit;
    var line, mark := FirstLine(s), c.Mark();
    assert mark[|mark| - 1] in SPACES;
    LineIsPrefix(s);
    if line != "" { FinalTabIsNeverFound(c, s[|line|..]); }
  }

  lemma LineIsPrefix(s: Bytes)
    ensures FirstLine(s) <= s
  {
  }

  predicate Line(c: Config, s: Bytes) {
    s != "" && '\n' !in s && s[|s| - 1] !in LINE_ENDS && |s| + 2 <= LineLimit(c.maxFieldSize, c.highWater)
  }

  lemma BlockLine(c: Config, line: Bytes, rest: Bytes, acc: seq<Bytes>)
    requires Line(c, line) && |acc| + 1 <= c.maxHeaders
    ensures HeaderBlock(c, line + CRLF + rest, acc) == HeaderBlock(c, rest, acc + [line])
  {
    hide TrimEnd, FirstLine, LineLimit;
    LineFirst(line, rest);
    TrimLine(line, LINE_ENDS);
  }

  lemma BlockEnd(c: Config, rest: Bytes, acc: seq<Bytes>)
    requires 2 <= LineLimit(c.maxFieldSize, c.highWater)
    ensures HeaderBlock(c, CRLF + rest, acc) == Some(Block(acc + [""], rest))
  {
    hide TrimEnd, FirstLine, LineLimit;
    LineFirst("", rest);
    TrimLine("", LINE_ENDS);
    assert "" + CRLF + rest == CRLF + rest;
  }

  /** A line over the limit, or one more than permitted, and there is no block. */
  lemma BlockLimits(c: Config, line: Bytes, rest: Bytes, acc: seq<Bytes>)
    requires '\n' !in line && line != "" && line[|line| - 1] !in LINE_ENDS
    requires |line| + 2 > LineLimit(c.maxFieldSize, c.highWater) || |acc| >= c.maxHeaders
    ensures HeaderBlock(c, line + CRLF + rest, acc).None?
  {
    hide TrimEnd, FirstLine, LineLimit;
    LineFirst(line, rest);
    TrimLine(line, LINE_ENDS);
  }

  lemma {:induction false} BlockBack(c: Config, lines: seq<Bytes>, rest: Bytes, acc: seq<Bytes>)
    requires forall i :: 0 <= i < |lines| ==> Line(c, lines[i])
    requires |acc| + |lines| <= c.maxHeaders && 2 <= LineLimit(c.maxFieldSize, c.highWater)
    ensures HeaderBlock(c, Terminated(lines) + CRLF + rest, acc) == Some(Block(acc + lines + [""], rest))
    decreases |lines|
  {
    hide HeaderBlock, LineLimit, Line;
    if lines == [] {
      BlockEnd(c, rest, acc);
      assert Terminated(lines) + CRLF + rest == CRLF + rest;
      assert acc + lines == acc;
    } else {
      BlockLine(c, lines[0], Terminated(lines[1..]) + CRLF + rest, acc);
      TerminatedCons(lines, rest);
      BlockBack(c, lines[1..], rest, acc + [lines[0]]);
      assert acc + [lines[0]] + lines[1..] == acc + lines;
    }
  }

  lemma TerminatedCons(lines: seq<Bytes>, rest: Bytes)
    requires lines != []
    ensures Terminated(lines) + CRLF + rest == lines[0] + CRLF + (Terminated(lines[1..]) + CRLF + rest)
  {
  }

  // ---- one part --------------------------------------------------------------------------------

  /** The body cannot be mistaken: its declared length is right or, without one, the delimiter
      does not occur in CRLF + body. */
  predicate Unmistakable(mark: Bytes, length: Option<nat>, body: Bytes) {
    if length.Some? && length.value > 0 then length.value == |body| else Find(CRLF + body, Delimiter(mark)) == -1
  }

  /** The delimiter after a body is found there unless it occurs before; it cannot overlap itself. */
  lemma DelimiterAfter(body: Bytes, tail: Bytes, mark: Bytes)
    requires '\r' !in mark && mark <= tail
    ensures var d, p := Delimiter(mark), Find(CRLF + body, Delimiter(mark));
      Find(CRLF + body + CRLF + tail, d) == if p == -1 then |body| + 2 else p
  {
    hide OccursAt;
    var d, text := Delimiter(mark), CRLF + body;
    var whole, q := text + CRLF + tail, |text|;
    assert text <= whole;
    assert OccursAt(whole, d, q) by { DelimiterThere(text, tail, mark); }
    forall i | 0 <= i < q ensures OccursAt(whole, d, i) <==> OccursAt(text, d, i) {
      OccursInPrefix(text, whole, d, i);
      if i + |d| > q { NoOverlap(whole, mark, i, q); }
    }
    var p := Find(text, d);
    FindInside(text, d);
    if p == -1 {
      forall i | 0 <= i < q ensures !OccursAt(whole, d, i) { NotFound(text, d, i); }
      FindUnique(whole, d, q);
    } else {
      FindUnique(whole, d, p);
    }
  }

  lemma DelimiterThere(text: Bytes, tail: Bytes, mark: Bytes)
    requires mark <= tail
    ensures OccursAt(text + CRLF + tail, Delimiter(mark), |text|)
  {
    var whole := text + CRLF + tail;
    assert whole[|text|..|text| + 2 + |mark|] == CRLF + tail[..|mark|];
  }

  lemma NoOverlap(whole: Bytes, mark: Bytes, i: nat, q: nat)
    requires '\r' !in mark && i < q < |whole| && whole[q] == '\r' && q < i + |Delimiter(mark)|
    ensures !OccursAt(whole, Delimiter(mark), i)
  {
    if OccursAt(whole, Delimiter(mark), i) { OccursByte(whole, Delimiter(mark), i, q - i); }
  }

  lemma OccursByte(whole: Bytes, d: Bytes, i: nat, k: nat)
    requires OccursAt(whole, d, i) && k < |d|
    ensures whole[i + k] == d[k]
  {
    assert whole[i..i + |d|][k] == d[k];
  }

  /** A part is read back exactly if it is unmistakable. */
  lemma PartBack(mark: Bytes, length: Option<nat>, body: Bytes, tail: Bytes)
    requires '\r' !in mark && mark != "" && mark <= tail
    ensures var p := PartOf(mark, length, body + CRLF + tail);
      if Unmistakable(mark, length, body) then p == Some(BodyParts.Split(body, tail))
        else p.None? || p.value.body != body
  {
    hide OccursAt;
    var content := body + CRLF + tail;
    if length.Some? && length.value > 0 {
      if length.value == |body| {
        assert content[..|body|] == body && content[|body|..] == CRLF + tail && content[|body| + 2..] == tail;
      }
    } else {
      var d, p := Delimiter(mark), Find(CRLF + body, Delimiter(mark));
      DelimiterAfter(body, tail, mark);
      FindInside(CRLF + body, d);
      assert CRLF + content == CRLF + body + CRLF + tail;
      if p == -1 {
        assert (CRLF + content)[..|body| + 2] == CRLF + body;
        assert (CRLF + content)[|body| + 4..] == tail;
      }
    }
  }

  // ---- the message -----------------------------------------------------------------------------

  /** What the reader's limits and its dispatch admit. */
  predicate Admitted(c: Config, p: Parsed) {
    && AllSafe("", p.headers) && Ordinary(c, p.headers)
    && |p.headers| <= c.maxHeaders
    && forall i :: 0 <= i < |p.headers| ==> |HeaderLine(p.headers[i])| + 2 <= LineLimit(c.maxFieldSize, c.highWater)
  }

  predicate Faithful(c: Config, p: Parsed) {
    && Parsable(p.headers, []) && |p.body| <= c.clientMaxSize
    && DeclaredLength(c, p.headers).Length? && Unmistakable(c.Mark(), DeclaredLength(c, p.headers).value, p.body)
  }

  predicate AllFaithful(c: Config, ps: seq<Parsed>) { forall i :: 0 <= i < |ps| ==> Faithful(c, ps[i]) }

  predicate AllAdmitted(c: Config, ps: seq<Parsed>) { forall i :: 0 <= i < |ps| ==> Admitted(c, ps[i]) }

  lemma HeaderLineIsLine(c: Config, h: Header)
    requires Safe(h.name) && Safe(h.value) && |HeaderLine(h)| + 2 <= LineLimit(c.maxFieldSize, c.highWater)
    ensures Line(c, HeaderLine(h))
  {
    hide LineLimit;
    SafeHasNoLineEnd(h.name);
    SafeHasNoLineEnd(h.value);
    var line := HeaderLine(h);
    assert line[|line| - 1] == if h.value == "" then ' ' else h.value[|h.value| - 1];
  }

  /** The header block of a part is read back exactly if its headers can be. */
  lemma HeadersBack(c: Config, p: Parsed, rest: Bytes)
    requires Admitted(c, p) && 2 <= LineLimit(c.maxFieldSize, c.highWater)
    ensures var o := OpenPart(c, W.BinaryHeaders(p.headers) + rest);
      && (Parsable(p.headers, []) && DeclaredLength(c, p.headers).Length? ==>
           o == Opened(p.headers, DeclaredLength(c, p.headers).value, rest))
      && (!Parsable(p.headers, []) || DeclaredLength(c, p.headers).Invalid? ==> o.Broken? || o.headers != p.headers)
  {
    hide HeaderBlock, Terminated, Parse, Parsable, Ordinary, LineLimit, HeaderLine, Safe, DeclaredLength;
    var lines := HeaderLines(p.headers);
    LinesOf(p.headers);
    forall i | 0 <= i < |lines| ensures Line(c, lines[i]) { HeaderLineIsLine(c, p.headers[i]); }
    BlockBack(c, lines, rest, []);
    assert [] + lines == lines;
    HeaderRoundTrip(p.headers);
  }

  lemma TextStartsWithMark(b: Bytes, more: Bytes, ps: seq<Parsed>)
    ensures "--" + b <= Text(b + more, ps)
  {
  }

  lemma FramedParts(b: Bytes, p: Parsed, tail: Bytes)
    ensures W.Framed(b, p.headers, p.body) + tail ==
      W.Opening(b) + (W.BinaryHeaders(p.headers) + (p.body + CRLF + tail))
  {
    hide W.Opening, W.BinaryHeaders;
  }

  /** The boundary lines and the end of a header block fit the reader's buffer. */
  predicate LinesFit(c: Config, b: Bytes) { c.Fits(W.Closing(b)) && 2 <= LineLimit(c.maxFieldSize, c.highWater) }

  lemma OpeningFits(c: Config, b: Bytes)
    requires LinesFit(c, b)
    ensures c.Fits(W.Opening(b))
  {
  }

  /** Multipart round trip: the parts are read back if and only if the headers of each can be and
      its body is unmistakable and not too big. */
  lemma {:induction false} RoundTrip(c: Config, ps: seq<Parsed>, after: Bytes, first: bool)
    requires GoodBoundary(c.boundary) && LinesFit(c, c.boundary) && AllAdmitted(c, ps) && EpilogueFits(c, after)
    ensures ReadParts(c, Text(c.boundary, ps) + after, first) == Some(ps) <==> AllFaithful(c, ps)
    decreases |ps|
  {
    hide OpenPart, NextPart, PartOf, Parsable, DeclaredLength, Unmistakable, W.Framed, W.BinaryHeaders, W.Opening,
      W.Closing, Admitted, GoodBoundary;
    OpeningFits(c, c.boundary);
    if ps == [] {
      assert Safe(c.boundary) by { GoodIsSafe(c); }
      AtClosing(c, after, first);
    } else {
      var p, tail := ps[0], Text(c.boundary, ps[1..]) + after;
      Assoc(W.Framed(c.boundary, p.headers, p.body), Text(c.boundary, ps[1..]), after);
      AtBoundary(c, W.BinaryHeaders(p.headers) + (p.body + CRLF + tail), first);
      FramedParts(c.boundary, p, tail);
      HeadersBack(c, p, p.body + CRLF + tail);
      AllOfRest(c, ps);
      if Parsable(p.headers, []) && DeclaredLength(c, p.headers).Length? {
        MarkHasNoCr(c);
        assert c.Mark()[0] == '-';
        assert c.boundary + "" == c.boundary;
        TextStartsWithMark(c.boundary, "", ps[1..]);
        PartBack(c.Mark(), DeclaredLength(c, p.headers).value, p.body, tail);
        if Faithful(c, p) {
          RoundTrip(c, ps[1..], after, false);
          assert ps == [p] + ps[1..];
        }
      }
    }
  }

  /** The same for a message with anything around it that has no boundary line of its own. */
  lemma SurroundedRoundTrip(c: Config, before: seq<Bytes>, ps: seq<Parsed>, after: Bytes)
    requires GoodBoundary(c.boundary) && LinesFit(c, c.boundary) && AllAdmitted(c, ps)
    requires Preamble(c, before) && EpilogueFits(c, after)
    ensures ReadParts(c, Lines(before) + (Text(c.boundary, ps) + after), true) == Some(ps) <==> AllFaithful(c, ps)
  {
    hide ReadParts, AllAdmitted, AllFaithful, Preamble, Lines, Text;
    PreambleIsSkipped(c, before, Text(c.boundary, ps) + after);
    RoundTrip(c, ps, after, true);
  }

  lemma GoodIsSafe(c: Config)
    requires GoodBoundary(c.boundary)
    ensures Safe(c.boundary)
  {
  }

  lemma AllOfRest(c: Config, ps: seq<Parsed>)
    requires ps != []
    ensures AllFaithful(c, ps) <==> Faithful(c, ps[0]) && AllFaithful(c, ps[1..])
    ensures AllAdmitted(c, ps) ==> Admitted(c, ps[0]) && AllAdmitted(c, ps[1..])
  {
    hide Faithful, Admitted;
    assert forall i :: 0 < i < |ps| ==> ps[i] == ps[1..][i - 1];
    assert forall i :: 0 <= i < |ps| - 1 ==> ps[1..][i] == ps[i + 1];
  }

  lemma MarkHasNoCr(c: Config)
    requires GoodBoundary(c.boundary)
    ensures '\r' !in c.Mark()
  {
    SafeHasNoLineEnd(c.boundary);
  }

  // ---- from one content type to the other ------------------------------------------------------------

  /** What the reader should go by: the writer's boundary. */
  function Intended(c: Config, ctype: Bytes, b: Bytes): Config {
    c.(boundary := b, formData := SubType(ctype) == "form-data")
  }

  /** The writer takes the boundary, and the content type is that of its message. */
  predicate Sends(subtype: Bytes, b: Bytes, ctype: Bytes) {
    ';' !in subtype && W.ContentType(subtype, b) == Ok(ctype)
  }

  lemma {:induction false} TokenIsSafe(b: Bytes)
    ensures IsToken(b) ==> Safe(b)
  {
  }

  lemma SentBoundary(subtype: Bytes, b: Bytes, ctype: Bytes)
    requires Sends(subtype, b, ctype)
    ensures Safe(b) && |b| <= 70 && MainType(ctype) == "multipart"
    ensures BoundaryParameter(ctype) == Some(b) <==> Survives(b)
    ensures BoundaryParameter(ctype) != Some(b + "--")
  {
    hide BoundaryParameter, MainType, Survives, Safe, IsToken;
    TokenIsSafe(b);
    TypeBack(subtype, b);
    BoundaryBack(subtype, b);
    NoDashesGained(subtype, b);
  }

  /** The round trip with the boundary that the content type carries: a boundary that ends in a tab
      carries the empty message only. */
  lemma MessageRoundTrip(c: Config, subtype: Bytes, b: Bytes, ctype: Bytes, ps: seq<Parsed>)
    requires Sends(subtype, b, ctype) && Survives(b) && LinesFit(c, b) && AllAdmitted(Intended(c, ctype, b), ps)
    ensures ReadMessage(c, ctype, Text(b, ps)) == Some(ps) <==>
      (ps == [] || !EndsInTab(b)) && AllFaithful(Intended(c, ctype, b), ps)
  {
    hide MainType, SubType, BoundaryParameter, AllFaithful, AllAdmitted, W.ContentType, LinesFit, NextPart, Safe;
    SentBoundary(subtype, b, ctype);
    var known := Intended(c, ctype, b);
    FitsAlike(c, ctype, b);
    if EndsInTab(b) {
      if ps == [] {
        AtClosing(known, "", true);
        assert W.Closing(b) + "" == W.Closing(b);
        NoneUnfaithful(known);
      } else {
        FinalTabIsNeverFound(known, Text(b, ps));
      }
    } else {
      NoEpilogue(known);
      RoundTrip(known, ps, "", true);
      assert Text(b, ps) + "" == Text(b, ps);
    }
  }

  lemma FitsAlike(c: Config, ctype: Bytes, b: Bytes)
    requires LinesFit(c, b)
    ensures LinesFit(Intended(c, ctype, b), b) && Intended(c, ctype, b).Fits(W.Closing(b))
  {
  }

  lemma NoneUnfaithful(c: Config)
    ensures AllFaithful(c, []) && AllAdmitted(c, [])
  {
  }

  /** When the reader gets another boundary, even the empty message is lost. */
  lemma LostBoundaryLosesTheEmptyMessage(c: Config, subtype: Bytes, b: Bytes, ctype: Bytes)
    requires Sends(subtype, b, ctype) && !Survives(b)
    ensures ReadMessage(c, ctype, Text(b, [])).None?
  {
    hide MainType, SubType, BoundaryParameter, W.ContentType, FirstLine, TrimEnd, Safe, Survives, OpenPart, LineLimit;
    SentBoundary(subtype, b, ctype);
    var found := OpenConfig(c, ctype);
    if found.Some? {
      var known := found.value;
      assert known.boundary != b && known.boundary != b + "--";
      var line: Bytes := "--" + b + "--";
      SafeHasNoLineEnd(b);
      LineFirst(line, "");
      TrimLine(line, SPACES);
      assert Text(b, []) == line + CRLF == line + CRLF + "";
      assert known.Mark() != line by { assert known.Mark()[2..] == known.boundary && line[2..] == b + "--"; }
      assert known.Mark() + "--" != line by { assert (known.Mark() + "--")[2..|known.Mark()|] == known.boundary; }
      assert FirstBoundary(known, "").None? by { NoBoundaryInNothing(known); }
      assert FirstBoundary(known, line + CRLF).None?;
    }
  }

  lemma NoBoundaryInNothing(c: Config)
    ensures FirstBoundary(c, "").None?
  {
    assert FirstLine("") == "";
  }

  /** A writer's messages come back, whenever their parts are such that they can, if and only if its
      boundary holds no semicolon, quote or backslash, has no blank at either end and does not end in
      a tab. */
  lemma BoundaryCarriesMessagesIff(c: Config, subtype: Bytes, b: Bytes, ctype: Bytes)
    requires Sends(subtype, b, ctype) && LinesFit(c, b) && !c.namesCharset("")
    ensures (forall ps :: CanComeBack(Intended(c, ctype, b), ps) ==>
      ReadMessage(c, ctype, Text(b, ps)) == Some(ps)) <==>
      Survives(b) && !EndsInTab(b)
  {
    hide ReadMessage, Sends, Survives, LinesFit, CanComeBack, Text, EndsInTab, Intended, AllAdmitted, AllFaithful;
    var known := Intended(c, ctype, b);
    if !Survives(b) {
      LostBoundaryLosesTheEmptyMessage(c, subtype, b, ctype);
      NothingComesBack(known);
    } else if EndsInTab(b) {
      assert known.namesCharset == c.namesCharset by { SameNames(c, ctype, b); }
      EmptyPartComesBack(known, c);
      ComesBackIff(c, subtype, b, ctype, [EMPTY_PART]);
    } else {
      forall ps | CanComeBack(known, ps) ensures ReadMessage(c, ctype, Text(b, ps)) == Some(ps) {
        ComesBackIff(c, subtype, b, ctype, ps);
      }
    }
  }

  lemma ComesBackIff(c: Config, subtype: Bytes, b: Bytes, ctype: Bytes, ps: seq<Parsed>)
    requires Sends(subtype, b, ctype) && Survives(b) && LinesFit(c, b) && CanComeBack(Intended(c, ctype, b), ps)
    ensures ReadMessage(c, ctype, Text(b, ps)) == Some(ps) <==> ps == [] || !EndsInTab(b)
  {
    hide ReadMessage, Sends, Survives, LinesFit, Text, EndsInTab, Intended, AllAdmitted, AllFaithful;
    MessageRoundTrip(c, subtype, b, ctype, ps);
  }

  lemma SameNames(c: Config, ctype: Bytes, b: Bytes)
    ensures Intended(c, ctype, b).namesCharset == c.namesCharset
  {
  }

  lemma NothingComesBack(c: Config)
    ensures CanComeBack(c, [])
  {
    NoneUnfaithful(c);
  }

  predicate CanComeBack(c: Config, ps: seq<Parsed>) { AllAdmitted(c, ps) && AllFaithful(c, ps) }

  const EMPTY_PART := Parsed([], "")

  lemma EmptyPartComesBack(c: Config, given: Config)
    requires c.namesCharset == given.namesCharset && !given.namesCharset("")
    ensures CanComeBack(c, [EMPTY_PART])
  {
    assert MainType("") == "" by { NoType(); }
    assert Lower("") == "";
    assert Find(CRLF + "", Delimiter(c.Mark())) == -1 by { FindInside(CRLF + "", Delimiter(c.Mark())); }
    assert Ordinary(c, []) && Parsable([], []);
    assert Admitted(c, EMPTY_PART) && Faithful(c, EMPTY_PART);
  }

  lemma NoType()
    ensures MainType("") == ""
  {
  }

  /** The whole way: what a writer sends, cut into any reads, is what its reader takes from the
      content type and the bytes. It comes back as its parts if and only if they are faithful, as long
      as the reader gets the writer's boundary and, for parts, that does not end in a tab. */
  method SendAndReceive(writer: W.MultipartWriter, subtype: Bytes, c: Config) returns (r: Option<seq<Parsed>>)
    requires Sends(subtype, writer.boundary, writer.contentType) && LinesFit(c, writer.boundary) && c.highWater >= 2
    requires W.Printable(writer.parts) && W.Named(writer.formData, writer.parts)
    ensures r == ReadMessage(c, writer.contentType, Text(writer.boundary, Leaves(writer.parts)))
    ensures var b, known := writer.boundary, Intended(c, writer.contentType, writer.boundary);
      Survives(b) && AllAdmitted(known, Leaves(writer.parts)) ==>
        (r == Some(Leaves(writer.parts)) <==>
          (writer.parts == [] || !EndsInTab(b)) && AllFaithful(known, Leaves(writer.parts)))
    ensures !Survives(writer.boundary) && writer.parts == [] ==> r.None?
  {
    hide AllFaithful, AllAdmitted, LinesFit, ReadMessage, W.Closing, W.Sent, Survives, EndsInTab, Intended;
    var sink := new W.Sink();
    assert sink.Sent() == "";
    var ok := W.Write(writer.boundary, writer.formData, writer.parts, sink, true);
    ghost var sent := W.Sent(writer.boundary, writer.parts) + W.Closing(writer.boundary);
    assert sink.Sent() == "" + sent == sent;
    var content := new Content(sink.Sent(), c.highWater);
    r := Receive(c, writer.contentType, content);
    SentIsText(writer.boundary, writer.parts);
    ghost var known := Intended(c, writer.contentType, writer.boundary);
    if Survives(writer.boundary) && AllAdmitted(known, Leaves(writer.parts)) {
      MessageRoundTrip(c, subtype, writer.boundary, writer.contentType, Leaves(writer.parts));
    }
    if !Survives(writer.boundary) && writer.parts == [] {
      assert Leaves(writer.parts) == [];
      LostBoundaryLosesTheEmptyMessage(c, subtype, writer.boundary, writer.contentType);
    }
  }

  // ---- a blank at the end ------------------------------------------------------------------------------

  /** With blanks after the boundary its lines still open parts, */
  lemma BlanksOpen(c: Config, blanks: Bytes, rest: Bytes, first: bool)
    requires GoodBoundary(c.boundary) && c.Fits(W.Opening(c.boundary + blanks))
    requires forall x :: x in blanks ==> x == ' '
    ensures NextPart(c, W.Opening(c.boundary + blanks) + rest, first) == OpenPart(c, rest)
  {
    hide OpenPart, Safe, FirstLine, TrimEnd, Epilogue, LineLimit;
    MarkLine(c);
    var line := c.Mark() + blanks;
    LineFirst(line, rest);
    EndGone(c.Mark(), blanks + CRLF, SPACES);
    assert line + CRLF == c.Mark() + (blanks + CRLF);
    assert TrimEnd(c.Mark(), SPACES) == c.Mark() by {
      TrimLine(c.Mark(), SPACES);
      EndGone(c.Mark(), CRLF, SPACES);
    }
    assert W.Opening(c.boundary + blanks) == line + CRLF;
  }

  /** but none ends the message. */
  lemma BlanksNeverClose(c: Config, blanks: Bytes, first: bool)
    requires GoodBoundary(c.boundary) && blanks != "" && forall x :: x in blanks ==> x == ' '
    ensures NextPart(c, W.Closing(c.boundary + blanks), first).Broken?
  {
    hide OpenPart, Safe, FirstLine, TrimEnd, Epilogue, LineLimit;
    MarkLine(c);
    var line := c.Mark() + blanks + "--";
    LineFirst(line, "");
    TrimLine(line, SPACES);
    assert W.Closing(c.boundary + blanks) == line + CRLF == line + CRLF + "";
    assert |line| > |c.Mark() + "--"|;
    NoBoundaryInNothing(c);
  }

  /** The reader of `a` opens every part of a message whose boundary is `a` and blanks, and loses it at
      its last line. */
  lemma {:induction false} FinalBlankLosesAll(c: Config, blanks: Bytes, ps: seq<Parsed>, first: bool)
    requires GoodBoundary(c.boundary) && LinesFit(c, c.boundary + blanks)
    requires blanks != "" && forall x :: x in blanks ==> x == ' '
    requires AllAdmitted(c, ps) && AllFaithful(c, ps)
    ensures ReadParts(c, Text(c.boundary + blanks, ps), first).None?
    decreases |ps|
  {
    hide OpenPart, NextPart, PartOf, Parsable, DeclaredLength, Unmistakable, W.Framed, W.BinaryHeaders, W.Opening,
      W.Closing, Admitted, GoodBoundary;
    var b := c.boundary + blanks;
    OpeningFits(c, b);
    if ps == [] {
      BlanksNeverClose(c, blanks, first);
    } else {
      var p, tail := ps[0], Text(b, ps[1..]);
      BlanksOpen(c, blanks, W.BinaryHeaders(p.headers) + (p.body + CRLF + tail), first);
      FramedParts(b, p, tail);
      HeadersBack(c, p, p.body + CRLF + tail);
      AllOfRest(c, ps);
      MarkHasNoCr(c);
      assert c.Mark()[0] == '-';
      TextStartsWithMark(c.boundary, blanks, ps[1..]);
      PartBack(c.Mark(), DeclaredLength(c, p.headers).value, p.body, tail);
      FinalBlankLosesAll(c, blanks, ps[1..], false);
    }
  }

  /** The length a mixed writer declares for a part is the one its reader goes by. */
  lemma DeclaredLengthBack(c: Config, hs: seq<Header>, n: nat)
    requires !c.formData
    ensures DeclaredLength(c, W.SetHeader(hs, W.LENGTH_HEADER, Requests.Decimal(n))) == Length(Some(n))
  {
    hide W.SetHeader;
    W.SetHeaderSets(hs, W.LENGTH_HEADER, Requests.Decimal(n), "content-length");
    assert Lower(W.LENGTH_HEADER) == "content-length";
    Requests.DecimalRoundTrip(n);
  }

  /** So a sized, unencoded, nonempty part of a mixed writer is faithful whatever its body: even the
      delimiter may occur in it. */
  lemma SizedPartsAreFaithful(c: Config, hs: seq<Header>, body: Bytes)
    requires !c.formData && body != "" && |body| <= c.clientMaxSize
    requires Parsable(W.SetHeader(hs, W.LENGTH_HEADER, Requests.Decimal(|body|)), [])
    ensures Faithful(c, Parsed(W.SetHeader(hs, W.LENGTH_HEADER, Requests.Decimal(|body|)), body))
  {
    DeclaredLengthBack(c, hs, |body|);
  }

  /** In form data the same body breaks the message. */
  lemma FormDataIsMistakable(c: Config, hs: seq<Header>)
    requires c.formData
    ensures !Faithful(c, Parsed(hs, Delimiter(c.Mark())))
  {
    var d := Delimiter(c.Mark());
    assert (CRLF + d)[2..2 + |d|] == d;
    assert OccursAt(CRLF + d, d, 2);
    NotFoundNowhere(CRLF + d, d, 2);
  }

  lemma NotFoundNowhere(s: Bytes, pat: Bytes, i: int)
    requires OccursAt(s, pat, i)
    ensures Find(s, pat) != -1
  {
  }
}

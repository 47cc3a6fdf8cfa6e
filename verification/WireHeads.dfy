/** A printed request head on the reference: its lines are gathered one by one, and then `parse_message`
    decides. */
module WireHeads {
  import opened ByteStrings
  import opened Headers
  import opened Requests
  import opened HttpMachine

  /** The lines of a printed head, and the message they stand for. */
  function HeadLines(statusLine: Bytes, hs: seq<Header>): seq<Bytes> { [statusLine] + HeaderLines(hs) + [""] }

  function MessageOf(cfg: Config, statusLine: Bytes, hs: seq<Header>): Result<Request, HttpError> {
    ParseMessage(HeadLines(statusLine, hs), cfg.hasScheme)
  }

  /** A head that prints, with a well-formed request line and headers that read back. */
  predicate Printable(cfg: Config, statusLine: Bytes, hs: seq<Header>) {
    AllSafe(statusLine, hs) && Parsable(hs, []) && ParseRequestLine(statusLine, cfg.hasScheme).Ok?
  }

  /** Every line stays strictly below the limits. */
  predicate HeadWithin(cfg: Config, statusLine: Bytes, hs: seq<Header>) {
    && cfg.maxLineSize == cfg.maxFieldSize && cfg.maxLineSize >= 2 && |hs| + 2 <= cfg.maxHeaders
    && forall line :: line in HeadLines(statusLine, hs) ==> |line| < cfg.maxLineSize
  }

  /** A line without a carriage return, strictly below the limit. */
  predicate PlainLine(cfg: Config, line: Bytes) { line != "" && '\r' !in line && |line| < cfg.maxLineSize }

  lemma OneLine(cfg: Config, log: seq<Entry>, before: seq<Bytes>, line: Bytes, s: Bytes)
    requires '\r' !in line
    ensures RunHttp(cfg, Head(log, before, ""), line + CRLF + s) == RunHttp(cfg, HeadLine(cfg, log, before, line), s)
  {
    hide RunHttp, HeadLine, Find;
    var full := line + CRLF + s;
    assert "" + full == full;
    NoCrlf("");
    FirstCrlf(full, |line|);
    RunHeadLine(cfg, log, before, "", full);
    assert full[..|line|] == line && full[|line| + 2..] == s;
  }

  lemma PartOfLine(cfg: Config, log: seq<Entry>, before: seq<Bytes>, line: Bytes, p: Bytes)
    requires '\r' !in line && p <= line + CRLF && |p| < |line| + 2
    ensures RunHttp(cfg, Head(log, before, ""), p) == Head(log, before, p)
  {
    hide RunHttp, Find;
    assert "" + p == p;
    NoCrlf("");
    forall i | 0 <= i < |p| - 1 ensures p[i] != '\r' || p[i + 1] != '\n' { assert p[i] == line[i]; }
    NoCrlf(p);
    RunHeadLine(cfg, log, before, "", p);
  }

  /** Running over whole lines, and stopping anywhere inside them. */
  lemma {:induction false} RunLines(cfg: Config, log: seq<Entry>, before: seq<Bytes>, lines: seq<Bytes>, s: Bytes)
    requires forall i :: 0 <= i < |lines| ==> PlainLine(cfg, lines[i])
    requires |before| + |lines| <= cfg.maxHeaders
    ensures RunHttp(cfg, Head(log, before, ""), Terminated(lines) + s) == RunHttp(cfg, Head(log, before + lines, ""), s)
    decreases |lines|
  {
    hide RunHttp;
    if lines == [] {
      assert "" + s == s && before + [] == before;
    } else {
      assert Terminated(lines) + s == lines[0] + CRLF + (Terminated(lines[1..]) + s);
      OneLine(cfg, log, before, lines[0], Terminated(lines[1..]) + s);
      RunLines(cfg, log, before + [lines[0]], lines[1..], s);
      assert before + [lines[0]] + lines[1..] == before + lines;
    }
  }

  lemma {:induction false} StopInLines(cfg: Config, log: seq<Entry>, before: seq<Bytes>, lines: seq<Bytes>, p: Bytes)
    requires forall i :: 0 <= i < |lines| ==> PlainLine(cfg, lines[i])
    requires |before| + |lines| <= cfg.maxHeaders
    requires p <= Terminated(lines)
    ensures var c := RunHttp(cfg, Head(log, before, ""), p);
      c.Head? && c.log == log && |c.text| <= cfg.maxLineSize
    decreases |lines|
  {
    hide RunHttp;
    if lines == [] {
      RunHttpNothing(cfg, Head(log, before, ""));
    } else {
      var first := lines[0] + CRLF;
      assert Terminated(lines) == first + Terminated(lines[1..]);
      if |p| < |first| {
        assert p == Terminated(lines)[..|p|] == first[..|p|];
        PartOfLine(cfg, log, before, lines[0], p);
      } else {
        var q := p[|first|..];
        assert p[..|first|] == Terminated(lines)[..|first|] == first;
        assert q == Terminated(lines)[|first|..][..|q|];
        assert p == first + q;
        OneLine(cfg, log, before, lines[0], q);
        StopInLines(cfg, log, before + [lines[0]], lines[1..], q);
      }
    }
  }

  lemma {:induction false} HeaderLinesPlain(cfg: Config, hs: seq<Header>)
    requires forall i :: 0 <= i < |hs| ==> Safe(hs[i].name) && Safe(hs[i].value)
    requires forall line :: line in HeaderLines(hs) ==> |line| < cfg.maxLineSize
    ensures forall i :: 0 <= i < |HeaderLines(hs)| ==> PlainLine(cfg, HeaderLines(hs)[i])
    ensures |HeaderLines(hs)| == |hs|
  {
    hide Safe;
    if hs != [] {
      var line := HeaderLine(hs[0]);
      SafeHasNoLineEnd(hs[0].name);
      SafeHasNoLineEnd(hs[0].value);
      assert line[|hs[0].name|] == ':';
      assert HeaderLines(hs)[0] == line;
      forall l | l in HeaderLines(hs[1..]) ensures |l| < cfg.maxLineSize { assert l in HeaderLines(hs); }
      HeaderLinesPlain(cfg, hs[1..]);
    }
  }

  lemma HeadLinesPlain(cfg: Config, statusLine: Bytes, hs: seq<Header>)
    requires Printable(cfg, statusLine, hs) && HeadWithin(cfg, statusLine, hs)
    ensures var lines := [statusLine] + HeaderLines(hs);
      |lines| == |hs| + 1 && forall i :: 0 <= i < |lines| ==> PlainLine(cfg, lines[i])
  {
    hide Safe, Parsable, HeaderLines;
    SafeHasNoLineEnd(statusLine);
    assert statusLine in HeadLines(statusLine, hs);
    forall l | l in HeaderLines(hs) ensures |l| < cfg.maxLineSize { assert l in HeadLines(statusLine, hs); }
    HeaderLinesPlain(cfg, hs);
  }

  /** A printed head comes to an end with its empty line, and is parsed there. */
  lemma RunPrintedHead(cfg: Config, log: seq<Entry>, statusLine: Bytes, hs: seq<Header>, s: Bytes)
    requires Printable(cfg, statusLine, hs) && HeadWithin(cfg, statusLine, hs)
    ensures RunHttp(cfg, Head(log, [], ""), Terminated(HeadLines(statusLine, hs)) + s) ==
      RunHttp(cfg, HeadDone(cfg, log, HeadLines(statusLine, hs)), s)
  {
    hide RunHttp, Printable, HeadDone, Terminated;
    var lines := [statusLine] + HeaderLines(hs);
    HeadLinesPlain(cfg, statusLine, hs);
    TerminatedAppend(lines, [""]);
    EmptyLineBytes();
    assert Terminated(HeadLines(statusLine, hs)) + s == Terminated(lines) + ("" + CRLF + s);
    RunLines(cfg, log, [], lines, "" + CRLF + s);
    assert [] + lines == lines;
    OneLine(cfg, log, lines, "", s);
  }

  /** Empty lines before a request line are skipped. */
  lemma EmptyLinesAreSkipped(cfg: Config, log: seq<Entry>, s: Bytes)
    ensures RunHttp(cfg, Head(log, [], ""), CRLF + s) == RunHttp(cfg, Head(log, [], ""), s)
  {
    hide RunHttp;
    assert CRLF + s == "" + CRLF + s;
    OneLine(cfg, log, [], "", s);
  }

  /** A line over the limit is an error, and so is one more line than permitted; before it come lines that
      are not. */
  lemma HeadLimits(cfg: Config, log: seq<Entry>, lines: seq<Bytes>, line: Bytes, s: Bytes)
    requires (forall i :: 0 <= i < |lines| ==> PlainLine(cfg, lines[i])) && |lines| <= cfg.maxHeaders
    requires '\r' !in line && (line != "" || lines != [])
    ensures var c := RunHttp(cfg, Head(log, [], ""), Terminated(lines) + (line + CRLF + s));
      && (|line| > cfg.maxLineSize ==> c == Broken(log, LineTooLong))
      && (|line| <= cfg.maxLineSize && |lines| == cfg.maxHeaders ==> c == Broken(log, BadHttpMessage))
      && (|line| <= cfg.maxLineSize && |lines| < cfg.maxHeaders && line != "" ==>
            c == RunHttp(cfg, Head(log, lines + [line], ""), s))
  {
    hide RunHttp, PlainLine;
    RunLines(cfg, log, [], lines, line + CRLF + s);
    assert [] + lines == lines;
    OneLine(cfg, log, lines, line, s);
    RunHttpStopped(cfg, Broken(log, LineTooLong), s);
    RunHttpStopped(cfg, Broken(log, BadHttpMessage), s);
  }

  lemma EmptyLineBytes()
    ensures Terminated([""]) == "" + CRLF
  {
    assert [""][1..] == [] && Terminated([]) == "";
  }

  /** Stopping anywhere in a printed head leaves no overlong line. */
  lemma StopInHead(cfg: Config, log: seq<Entry>, statusLine: Bytes, hs: seq<Header>, p: Bytes)
    requires Printable(cfg, statusLine, hs) && HeadWithin(cfg, statusLine, hs)
    requires p <= Terminated(HeadLines(statusLine, hs)) && p != Terminated(HeadLines(statusLine, hs))
    ensures var c := RunHttp(cfg, Head(log, [], ""), p); c.Head? && c.log == log && |c.text| <= cfg.maxLineSize
  {
    hide RunHttp, Printable, Terminated;
    var lines := [statusLine] + HeaderLines(hs);
    HeadLinesPlain(cfg, statusLine, hs);
    TerminatedAppend(lines, [""]);
    EmptyLineBytes();
    var head, whole := Terminated(lines), Terminated(HeadLines(statusLine, hs));
    assert whole == head + CRLF;
    if |p| <= |head| {
      assert p == whole[..|p|] == head[..|p|];
      StopInLines(cfg, log, [], lines, p);
    } else {
      var q := p[|head|..];
      assert p[..|head|] == whole[..|head|] == head;
      assert q == whole[|head|..][..|q|] == CRLF[..|q|];
      assert p == head + q && "" + CRLF == CRLF;
      RunLines(cfg, log, [], lines, q);
      assert [] + lines == lines;
      PartOfLine(cfg, log, lines, "", q);
    }
  }
}

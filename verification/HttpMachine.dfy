/** A request connection read one byte at a time: the reference for `HttpParser.feed_data`. */
module HttpMachine {
  import opened ByteStrings
  import opened Headers
  import opened Requests
  import opened PayloadMachine
  import opened PayloadRuns

  datatype Config = Config(maxLineSize: nat, maxFieldSize: nat, maxHeaders: nat, hasScheme: Bytes -> bool)

  /** A message with what has been delivered of its body. */
  datatype Entry = Entry(request: Request, body: Delivery)

  datatype Conn =
    | Head(log: seq<Entry>, lines: seq<Bytes>, text: Bytes)
    | InBody(log: seq<Entry>, request: Request, lim: Limits, body: Body, thenUpgrade: bool)
    | Switched(log: seq<Entry>, after: Bytes)
    | Broken(log: seq<Entry>, error: HttpError) // `feed_data` raises
    | Dropped(log: seq<Entry>, thenUpgrade: bool) // a body error that `feed_data` swallows, with the rest of its input

  function Entries(c: Conn): seq<Entry> {
    if c.InBody? then c.log + [Entry(c.request, c.body.out)] else c.log
  }

  function RequestsOf(log: seq<Entry>): seq<Request> { seq(|log|, i requires 0 <= i < |log| => log[i].request) }

  function Messages(c: Conn): seq<Request> { RequestsOf(Entries(c)) }

  function AfterBody(log: seq<Entry>, thenUpgrade: bool): Conn {
    if thenUpgrade then Switched(log, "") else Head(log, [], "")
  }

  /** The next call of `feed_data` after a swallowed error starts here. */
  function Resumed(c: Conn): Conn
    requires c.Dropped?
  {
    AfterBody(c.log, c.thenUpgrade)
  }

  function LimitsAfter(cfg: Config, lines: seq<Bytes>): Limits {
    Limits(cfg.maxLineSize, cfg.maxFieldSize, if |lines| <= cfg.maxHeaders then cfg.maxHeaders - |lines| else 0)
  }

  /** The connection right after the head of `m`. */
  function AfterHead(log: seq<Entry>, m: Request, framing: Framing, lim: Limits): Conn {
    match framing
    case NoBody => Head(log + [Entry(m, NOTHING)], [], "")
    case SwitchNow => Switched(log + [Entry(m, NOTHING)], "")
    case Framed(chunked, length, thenUpgrade) => InBody(log, m, lim, Start(chunked, length), thenUpgrade)
    case Tunnel => InBody(log, m, lim, UntilEof(NOTHING), false)
  }

  /** A complete head. */
  function HeadDone(cfg: Config, log: seq<Entry>, lines: seq<Bytes>): Conn
    requires lines != []
  {
    match ParseMessage(lines, cfg.hasScheme)
    case Err(e) => Broken(log, e)
    case Ok(m) =>
      match FrameOf(m)
      case Err(e) => Broken(log, e)
      case Ok(framing) => AfterHead(log, m, framing, LimitsAfter(cfg, lines))
  }

  /** A complete line of a head; empty lines before a request line are skipped. */
  function HeadLine(cfg: Config, log: seq<Entry>, lines: seq<Bytes>, line: Bytes): Conn {
    if line == "" && lines == [] then Head(log, [], "")
    else if |line| > cfg.maxLineSize then Broken(log, LineTooLong)
    else if |lines| + 1 > cfg.maxHeaders then Broken(log, BadHttpMessage)
    else if line != "" then Head(log, lines + [line], "")
    else HeadDone(cfg, log, lines + [line])
  }

  /** A body that may be complete or broken. */
  function BodyState(cfg: Config, log: seq<Entry>, m: Request, lim: Limits, body: Body, thenUpgrade: bool): Conn {
    match body
    case Finished(out, rest) => RunHttp(cfg, AfterBody(log + [Entry(m, out)], thenUpgrade), rest)
    case Failed(out, e) =>
      if e == InvalidHeader || e == TransferEncodingError then Broken(log + [Entry(m, out)], e)
      else Dropped(log + [Entry(m, out)], thenUpgrade)
    case _ => InBody(log, m, lim, body, thenUpgrade)
  }

  function StepHttp(cfg: Config, c: Conn, b: char): Conn {
    match c
    case Head(log, lines, text) =>
      if EndsWithCrlf(text + [b]) then HeadLine(cfg, log, lines, (text + [b])[..|text| - 1])
        else Head(log, lines, text + [b])
    case InBody(log, m, lim, body, thenUpgrade) =>
      var body' := Step(lim, body, b);
      (match body'
       case Finished(out, _) => AfterBody(log + [Entry(m, out)], thenUpgrade)
       case Failed(out, e) =>
         if e == InvalidHeader || e == TransferEncodingError then Broken(log + [Entry(m, out)], e)
         else Dropped(log + [Entry(m, out)], thenUpgrade)
       case _ => InBody(log, m, lim, body', thenUpgrade))
    case Switched(log, after) => Switched(log, after + [b])
    case Broken(_, _) => c
    case Dropped(_, _) => c
  }

  function RunHttp(cfg: Config, c: Conn, input: Bytes): Conn
    decreases |input|
  {
    if input == "" then c else RunHttp(cfg, StepHttp(cfg, c, input[0]), input[1..])
  }

  lemma {:induction false} RunHttpAppend(cfg: Config, c: Conn, a: Bytes, b: Bytes)
    ensures RunHttp(cfg, c, a + b) == RunHttp(cfg, RunHttp(cfg, c, a), b)
    decreases |a|
  {
    hide StepHttp;
    if a == "" {
      assert a + b == b;
    } else {
      assert (a + b)[1..] == a[1..] + b;
      RunHttpAppend(cfg, StepHttp(cfg, c, a[0]), a[1..], b);
    }
  }

  lemma RunHttpNothing(cfg: Config, c: Conn)
    ensures RunHttp(cfg, c, "") == c
  {
  }

  lemma {:induction false} RunHttpStopped(cfg: Config, c: Conn, input: Bytes)
    requires c.Broken? || c.Dropped? || c.Switched?
    ensures RunHttp(cfg, c, input) == if c.Switched? then c.(after := c.after + input) else c
    decreases |input|
  {
    if input == "" {
      if c.Switched? { assert c.after + "" == c.after; }
    } else {
      RunHttpStopped(cfg, StepHttp(cfg, c, input[0]), input[1..]);
      if c.Switched? { assert c.after + [input[0]] + input[1..] == c.after + input; }
    }
  }

  /** A head line in progress is completed by the first CRLF. */
  lemma {:induction false} RunHeadLine(cfg: Config, log: seq<Entry>, lines: seq<Bytes>, text: Bytes, s: Bytes)
    requires Find(text, CRLF) == -1
    ensures var full := text + s; var pos := Find(full, CRLF);
      if pos == -1 then RunHttp(cfg, Head(log, lines, text), s) == Head(log, lines, full)
      else
        && |text| <= pos + 1
        && RunHttp(cfg, Head(log, lines, text), s) ==
             RunHttp(cfg, HeadLine(cfg, log, lines, full[..pos]), full[pos + 2..])
    decreases |s|
  {
    hide StepHttp, HeadLine, Find, OccursAt;
    if s == "" {
      assert text + s == text;
    } else {
      assert text + s == text + [s[0]] + s[1..];
      CrlfAtEnd(text, s[0], s[1..]);
      StepHeadLine(cfg, log, lines, text, s[0]);
      if text != "" && text[|text| - 1] == '\r' && s[0] == '\n' {
        var pos := |text| - 1;
        assert (text + s)[..pos] == text[..pos] && (text + s)[pos + 2..] == s[1..];
      } else {
        RunHeadLine(cfg, log, lines, text + [s[0]], s[1..]);
      }
    }
  }

  lemma StepHeadLine(cfg: Config, log: seq<Entry>, lines: seq<Bytes>, text: Bytes, c: char)
    ensures StepHttp(cfg, Head(log, lines, text), c) ==
      if text != "" && text[|text| - 1] == '\r' && c == '\n' then HeadLine(cfg, log, lines, text[..|text| - 1])
      else Head(log, lines, text + [c])
  {
    hide HeadLine;
    var text' := text + [c];
    if text != "" {
      assert text'[|text'| - 2..] == [text[|text| - 1], c];
      assert text'[..|text'| - 2] == text[..|text| - 1];
    }
  }

  /** Inside a body the connection follows the body machine, and goes on with its leftover. */
  lemma {:induction false} RunInBody(cfg: Config, log: seq<Entry>, m: Request, lim: Limits, body: Body,
    thenUpgrade: bool, s: Bytes)
    ensures RunHttp(cfg, BodyState(cfg, log, m, lim, body, thenUpgrade), s) ==
      BodyState(cfg, log, m, lim, Run(lim, body, s), thenUpgrade)
    decreases |s|
  {
    hide Step, HeadLine;
    match body
    case Finished(out, rest) =>
      RunAbsorbed(lim, body, s);
      RunHttpAppend(cfg, AfterBody(log + [Entry(m, out)], thenUpgrade), rest, s);
    case Failed(out, e) =>
      RunAbsorbed(lim, body, s);
      RunHttpStopped(cfg, BodyState(cfg, log, m, lim, body, thenUpgrade), s);
    case _ =>
      if s != "" {
        var body' := Step(lim, body, s[0]);
        if body'.Finished? { FinishesEmpty(lim, body, s[0]); }
        RunInBody(cfg, log, m, lim, body', thenUpgrade, s[1..]);
      }
  }

  lemma FinishesEmpty(lim: Limits, body: Body, b: char)
    requires !body.Finished? && Step(lim, body, b).Finished?
    ensures Step(lim, body, b).rest == ""
  {
    hide Parse, ChunkSizeOf;
  }

  // ---- messages only accumulate ------------------------------------------------------------

  lemma RequestsOfSnoc(log: seq<Entry>, e: Entry)
    ensures RequestsOf(log + [e]) == RequestsOf(log) + [e.request]
  {
  }

  /** What a completed head does to the messages: one more, or an error. */
  lemma HeadDoneMessages(cfg: Config, log: seq<Entry>, lines: seq<Bytes>)
    requires lines != []
    ensures var n := HeadDone(cfg, log, lines);
      if n.Broken? then n.log == log
      else exists m: Request :: Messages(n) == RequestsOf(log) + [m] && ParseMessage(lines, cfg.hasScheme) == Ok(m)
  {
    hide ParseMessage, FrameOf;
    var n := HeadDone(cfg, log, lines);
    if !n.Broken? {
      var m := ParseMessage(lines, cfg.hasScheme).value;
      RequestsOfSnoc(log, Entry(m, NOTHING));
      assert Messages(n) == RequestsOf(log) + [m];
    }
  }

  lemma HeadLineMessages(cfg: Config, log: seq<Entry>, lines: seq<Bytes>, line: Bytes)
    ensures RequestsOf(log) <= Messages(HeadLine(cfg, log, lines, line))
  {
    hide HeadDone;
    HeadDoneMessages(cfg, log, lines + [line]);
  }

  lemma StepHttpMessages(cfg: Config, c: Conn, b: char)
    ensures Messages(c) <= Messages(StepHttp(cfg, c, b))
  {
    hide HeadLine, Step;
    match c
    case Head(log, lines, text) =>
      StepHeadLine(cfg, log, lines, text, b);
      if text != "" { HeadLineMessages(cfg, log, lines, text[..|text| - 1]); }
    case InBody(log, m, lim, body, thenUpgrade) =>
      RequestsOfSnoc(log, Entry(m, body.out));
      RequestsOfSnoc(log, Entry(m, Step(lim, body, b).out));
    case _ =>
  }

  lemma {:induction false} RunHttpMessages(cfg: Config, c: Conn, s: Bytes)
    ensures Messages(c) <= Messages(RunHttp(cfg, c, s))
    decreases |s|
  {
    hide StepHttp, Messages;
    if s != "" {
      StepHttpMessages(cfg, c, s[0]);
      RunHttpMessages(cfg, StepHttp(cfg, c, s[0]), s[1..]);
    }
  }

  /** Some line, message or error came after message number `n`. */
  predicate Past(c: Conn, n: nat) {
    |Entries(c)| > n || (|Entries(c)| == n && (c.Broken? || (c.Head? && c.lines != [])))
  }

  lemma StepHttpPast(cfg: Config, c: Conn, b: char, n: nat)
    requires Past(c, n)
    ensures Past(StepHttp(cfg, c, b), n)
  {
    hide HeadLine, Step;
    StepHttpMessages(cfg, c, b);
    if c.Head? {
      StepHeadLine(cfg, c.log, c.lines, c.text, b);
      if c.text != "" && c.lines != [] && |c.log| == n {
        NonEmptyHeadLinePast(cfg, c.log, c.lines, c.text[..|c.text| - 1], n);
      }
    }
  }

  lemma NonEmptyHeadLinePast(cfg: Config, log: seq<Entry>, lines: seq<Bytes>, line: Bytes, n: nat)
    requires |log| == n && (lines != [] || line != "")
    ensures Past(HeadLine(cfg, log, lines, line), n)
  {
    hide HeadDone;
    HeadDoneMessages(cfg, log, lines + [line]);
  }

  lemma {:induction false} RunHttpPast(cfg: Config, c: Conn, s: Bytes, n: nat)
    requires Past(c, n)
    ensures Past(RunHttp(cfg, c, s), n)
    decreases |s|
  {
    hide StepHttp, Past;
    if s != "" {
      StepHttpPast(cfg, c, s[0], n);
      RunHttpPast(cfg, StepHttp(cfg, c, s[0]), s[1..], n);
    }
  }
}

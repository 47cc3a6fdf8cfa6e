/** Whole runs of the payload parser: any fragmentation of the input, any schedule of pauses and
    any finite sequence of "more data" answers give what one uninterrupted pass gives. */
module PayloadRuns {
  import opened ByteStrings
  import Hex
  import opened Headers
  import opened PayloadMachine
  import opened PayloadParser

  /** What the owner of the connection observes of a body. */
  datatype Observed =
    | Open(out: Delivery)
    | Complete(out: Delivery, rest: Bytes)
    | Rejected(out: Delivery, error: HttpError)

  function Observe(s: Body): Observed {
    match s
    case Finished(out, rest) => Complete(out, rest)
    case Failed(out, e) => Rejected(out, e)
    case _ => Open(s.out)
  }

  /** A partial line over the limit, which the parser rejects as soon as it is called again. */
  predicate Overlong(lim: Limits, s: Body) {
    match s
    case Line(_, SizeLine, text) => |text| > lim.maxLineSize
    case Line(_, TrailerLine(_), text) => |text| > lim.maxFieldSize
    case DataEnd(_, cr) => cr && lim.maxLineSize == 0
    case _ => false
  }

  lemma RefOfPartialLine(p: HttpPayloadParser)
    requires p.Valid() && p.kind.ParseChunked? && p.chunk != ChunkedChunk
    ensures p.TailTooLong() <==> Overlong(p.limits, p.Ref())
    ensures p.Ref().out == p.payload.got && (p.Ref().Line? ==> Find(p.Ref().text, CRLF) == -1)
  {
    hide Run;
    match p.chunk
    case ChunkedSize =>
      assert "" + p.chunkTail == p.chunkTail;
      NoCrlf("");
      RunLine(p.limits, p.payload.got, SizeLine, "", p.chunkTail);
    case Trailers =>
      assert "" + p.chunkTail == p.chunkTail;
      NoCrlf("");
      RunLine(p.limits, p.payload.got, TrailerLine(p.trailerLines), "", p.chunkTail);
    case ChunkedChunkEof =>
      RunDataEnd(p.limits, p.payload.got, p.chunkTail);
  }

  function Start(chunked: bool, length: Option<nat>): Body {
    if chunked then Line(NOTHING, SizeLine, "")
    else if length.Some? then Length(NOTHING, length.value)
    else UntilEof(NOTHING)
  }

  /** The body after the first `i` fragments, read in one piece. */
  function CutState(lim: Limits, s: Body, fragments: seq<Bytes>, i: nat): Body
    requires i <= |fragments|
  {
    Run(lim, s, Concat(fragments[..i]))
  }

  /** The cut before fragment `i` falls inside a line that is already over the limit. */
  predicate CutOverlong(lim: Limits, s: Body, fragments: seq<Bytes>, i: nat) {
    0 < i < |fragments| && Overlong(lim, CutState(lim, s, fragments, i))
  }

  /** Rejected at such a cut: with what had been delivered up to there. */
  predicate RejectedAt(lim: Limits, s: Body, fragments: seq<Bytes>, i: nat, seen: Observed) {
    CutOverlong(lim, s, fragments, i) && seen == Rejected(CutState(lim, s, fragments, i).out, LineTooLong)
  }

  lemma RunFragment(lim: Limits, s: Body, fragments: seq<Bytes>, i: nat)
    requires i < |fragments|
    ensures Run(lim, s, Concat(fragments[..i + 1])) == Run(lim, Run(lim, s, Concat(fragments[..i])), fragments[i])
  {
    assert fragments[..i + 1] == fragments[..i] + [fragments[i]];
    ConcatSnoc(fragments[..i], fragments[i]);
    RunAppend(lim, s, Concat(fragments[..i]), fragments[i]);
  }

  lemma RunRest(lim: Limits, s: Body, fragments: seq<Bytes>, i: nat)
    requires i <= |fragments|
    ensures Run(lim, s, Concat(fragments)) == Run(lim, Run(lim, s, Concat(fragments[..i])), Concat(fragments[i..]))
  {
    assert fragments == fragments[..i] + fragments[i..];
    ConcatAppend(fragments[..i], fragments[i..]);
    RunAppend(lim, s, Concat(fragments[..i]), Concat(fragments[i..]));
  }

  /** Resume until the parser no longer holds anything back. */
  method Settle(p: HttpPayloadParser) returns (r: FeedResult)
    requires p.Valid() && !p.kind.ParseUntilEof? && !p.TailTooLong()
    modifies p, p.payload
    ensures r.Fed? ==> r.state != PayloadHasPendingInput
    ensures r.Fed? && r.state == PayloadNeedsInput ==> Observe(old(p.Ref())) == Open(p.payload.got)
    ensures r.Fed? && r.state == PayloadComplete ==> old(p.Ref()) == Finished(p.payload.got, r.rest)
    ensures r.Raised? ==> old(p.Ref()) == Failed(p.payload.got, r.error)
  {
    r := Fed(PayloadHasPendingInput, "");
    ghost var goal := p.Ref();
    while r == Fed(PayloadHasPendingInput, "")
      invariant r == Fed(PayloadHasPendingInput, "") ==> p.Valid() && p.Ref() == goal && !p.TailTooLong()
      invariant r.Fed? && r.state == PayloadHasPendingInput ==> r.rest == ""
      invariant r.Fed? && r.state == PayloadNeedsInput ==> Observe(goal) == Open(p.payload.got)
      invariant r.Fed? && r.state == PayloadComplete ==> goal == Finished(p.payload.got, r.rest)
      invariant r.Raised? ==> goal == Failed(p.payload.got, r.error)
      decreases r == Fed(PayloadHasPendingInput, ""), |p.payload.answers|, p.paused
    {
      r := p.FeedData("");
    }
  }

  lemma InsideDataNotOverlong(p: HttpPayloadParser)
    requires p.Valid() && p.CaughtUp() && (p.kind.ParseChunked? ==> p.chunk == ChunkedChunk)
    ensures !Overlong(p.limits, p.Ref())
  {
    hide Run;
    match p.kind
    case ParseChunked =>
      p.ChunkStep(p.payload.got, p.chunkSize, p.chunkTail);
      var out := p.payload.got.Add(Take(p.chunkTail, p.chunkSize)).End();
      RunExtends(p.limits, DataEnd(out, false), Drop(p.chunkTail, p.chunkSize));
    case ParseLength => p.LengthStep(p.payload.got, p.length, p.chunkTail);
    case ParseUntilEof => RunUntilEof(p.limits, p.payload.got, p.chunkTail);
  }

  lemma StoppedNotOverlong(lim: Limits, s: Body, fragments: seq<Bytes>, used: nat)
    requires used <= |fragments|
    ensures var n := Run(lim, s, Concat(fragments[..used]));
      n.Finished? || n.Failed? ==> forall i :: used <= i < |fragments| ==>
        !Overlong(lim, Run(lim, s, Concat(fragments[..i])))
  {
    hide Run;
    var n := Run(lim, s, Concat(fragments[..used]));
    if n.Finished? || n.Failed? {
      forall i | used <= i < |fragments| ensures !Overlong(lim, Run(lim, s, Concat(fragments[..i]))) {
        RunRest(lim, s, fragments[..i], used);
        assert fragments[..i][..used] == fragments[..used];
        RunAbsorbed(lim, n, Concat(fragments[..i][used..]));
      }
    }
  }

  /** Feed the fragments in order, with a pause requested from outside before those marked in
      `pauses`; stop early on completion or error. */
  method FeedFragments(p: HttpPayloadParser, fragments: seq<Bytes>, pauses: seq<bool>)
    returns (r: FeedResult, used: nat)
    requires p.Valid() && !p.kind.ParseUntilEof? && p.chunkTail == ""
    modifies p, p.payload
    ensures used <= |fragments|
    ensures var s := Run(p.limits, old(p.Ref()), Concat(fragments[..used]));
      && (r.Fed? && r.state != PayloadComplete ==> used == |fragments| && p.Valid() && p.Ref() == s && r.rest == "")
      && (r.Fed? && r.state == PayloadNeedsInput ==> p.CaughtUp())
      && (r.Fed? && r.state == PayloadHasPendingInput ==> !p.TailTooLong())
      && (r.Fed? && r.state == PayloadComplete ==> s == Finished(p.payload.got, r.rest))
      && (r.Raised? && s != Failed(p.payload.got, r.error) ==>
            used > 0 && RejectedAt(p.limits, old(p.Ref()), fragments, used - 1, Rejected(p.payload.got, r.error)))
  {
    hide Run;
    r, used := Fed(PayloadHasPendingInput, ""), 0;
    ghost var start := p.Ref();
    assert Run(p.limits, start, Concat(fragments[..0])) == start by { RunNothing(p.limits, start); }
    while used < |fragments|
      invariant used <= |fragments|
      invariant r.Fed? && r.state != PayloadComplete && r.rest == ""
      invariant p.Valid() && p.Ref() == Run(p.limits, start, Concat(fragments[..used]))
      invariant r.state == PayloadNeedsInput ==> p.CaughtUp() && used > 0
      invariant r.state == PayloadHasPendingInput ==> !p.TailTooLong()
      invariant used == 0 ==> p.chunkTail == ""
    {
      if used < |pauses| && pauses[used] { p.PauseReading(); }
      RunFragment(p.limits, start, fragments, used);
      if p.kind.ParseChunked? && p.chunk != ChunkedChunk { RefOfPartialLine(p); }
      r := p.FeedData(fragments[used]);
      used := used + 1;
      if r.Raised? || r.state == PayloadComplete { return; }
    }
    assert fragments[..used] == fragments;
  }

  lemma RunNothing(lim: Limits, s: Body)
    ensures Run(lim, s, "") == s
  {
  }

  /** Pausing and fragmentation are invisible: for every script of payload answers, every
      schedule of pauses and every cut of the input, the bytes handed over, the chunk positions,
      the verdict and the leftover are those of the reference run over the whole input. The one
      exception is a cut inside a line that is already over the limit: the body may be rejected there,
      with what had been delivered so far. */
  method Receive(chunked: bool, length: Option<nat>, lim: Limits, fragments: seq<Bytes>, pauses: seq<bool>,
    answers: seq<Answer>)
    returns (seen: Observed)
    requires chunked || (length.Some? && length.value > 0)
    ensures
      || seen == Observe(Run(lim, Start(chunked, length), Concat(fragments)))
      || exists i: nat :: RejectedAt(lim, Start(chunked, length), fragments, i, seen)
  {
    hide Run, CutOverlong;
    var headersParser := new HeadersParser(lim.maxFieldSize);
    var payload := new Payload(answers);
    var p := new HttpPayloadParser(payload, length, chunked, headersParser, lim);
    var r, used := FeedFragments(p, fragments, pauses);
    RunRest(lim, Start(chunked, length), fragments, used);
    assert fragments[|fragments|..] == [];
    RunNothing(lim, Run(lim, Start(chunked, length), Concat(fragments[..used])));
    if r == Fed(PayloadHasPendingInput, "") {
      r := Settle(p);
    }
    var late := Concat(fragments[used..]);
    if r.Raised? {
      RunAbsorbed(lim, Failed(payload.got, r.error), late);
      return Rejected(payload.got, r.error);
    } else if r.state == PayloadComplete {
      RunAbsorbed(lim, Finished(payload.got, r.rest), late);
      return Complete(payload.got, r.rest + late);
    }
    return Open(payload.got);
  }

  /** Once the end is reported, empty calls hand over what a pause kept back. */
  method DrainUntilEof(p: HttpPayloadParser, ghost all: Delivery)
    requires p.kind.ParseUntilEof?
    requires !p.done ==> p.Valid() && p.eofPending && !p.paused && p.payload.got == all
    requires p.done ==> p.payload.got == all.Eof()
    modifies p, p.payload
    ensures p.payload.got == all.Eof()
  {
    hide Run;
    while !p.done
      invariant p.kind.ParseUntilEof?
      invariant !p.done ==> p.Valid() && p.eofPending && !p.paused && p.payload.got == all
      invariant p.done ==> p.payload.got == all.Eof()
      decreases |p.payload.answers|, !p.done
    {
      p.AtNothing();
      RunUntilEof(p.limits, all, "");
      assert all.data + "" == all.data;
      var _ := p.FeedUntilEof("");
      if !p.done { p.AtNothing(); }
    }
  }

  /** Until end of file, too, pausing is invisible: whatever the schedule, the payload gets all the
      bytes and then the end, once the end of the connection has been reported and a paused payload
      has been resumed often enough. */
  method ReceiveUntilEof(lim: Limits, fragments: seq<Bytes>, pauses: seq<bool>,
    answers: seq<Answer>)
    returns (got: Delivery)
    ensures got == NOTHING.Add(Concat(fragments)).Eof()
  {
    hide Run;
    var headersParser := new HeadersParser(lim.maxFieldSize);
    var payload := new Payload(answers);
    var p := new HttpPayloadParser(payload, None, false, headersParser, lim);
    assert NOTHING.Add("") == NOTHING;
    for i := 0 to |fragments|
      invariant fresh(p) && fresh(payload) && p.payload == payload && p.limits == lim
      invariant p.Valid() && p.kind.ParseUntilEof? && !p.eofPending
      invariant p.Ref() == UntilEof(NOTHING.Add(Concat(fragments[..i])))
    {
      if i < |pauses| && pauses[i] { p.PauseReading(); }
      RunUntilEof(lim, p.Ref().out, fragments[i]);
      assert fragments[..i + 1] == fragments[..i] + [fragments[i]];
      ConcatSnoc(fragments[..i], fragments[i]);
      AddAdd(NOTHING, Concat(fragments[..i]), fragments[i]);
      var _ := p.FeedData(fragments[i]);
    }
    assert fragments[..|fragments|] == fragments;
    p.AtNothing();
    var raised := p.FeedEof();
    DrainUntilEof(p, NOTHING.Add(Concat(fragments)));
    return payload.got;
  }

  // ---- the exception, exactly --------------------------------------------------------------------

  /** The first such cut from `i` on, or the number of fragments if there is none. */
  function FirstOverlong(lim: Limits, s: Body, fragments: seq<Bytes>, i: nat): (n: nat)
    requires i <= |fragments|
    ensures i <= n <= |fragments| && (n < |fragments| ==> CutOverlong(lim, s, fragments, n))
    ensures forall j :: i <= j < n ==> !CutOverlong(lim, s, fragments, j)
    decreases |fragments| - i
  {
    if i == |fragments| || CutOverlong(lim, s, fragments, i) then i else FirstOverlong(lim, s, fragments, i + 1)
  }

  function LimitOf(lim: Limits, kind: LineKind): nat { if kind.SizeLine? then lim.maxLineSize else lim.maxFieldSize }

  /** Some line of `s`, the first of which is of this kind, is over its limit, and no chunk is announced
      and no other error made before it. */
  predicate LongLineAhead(lim: Limits, kind: LineKind, s: Bytes)
    decreases |s|
  {
    var pos := Find(s, CRLF);
    pos != -1 &&
    (pos > LimitOf(lim, kind) ||
     match kind
     case SizeLine => ChunkSizeOf(lim, s[..pos]) == Ok(0) && LongLineAhead(lim, TrailerLine([]), s[pos + 2..])
     case TrailerLine(before) =>
       pos > 0 && |before| < lim.maxTrailers && LongLineAhead(lim, TrailerLine(before + [s[..pos]]), s[pos + 2..]))
  }

  lemma {:induction false} ParseIsNeverTooLong(lines: seq<Bytes>, acc: seq<Header>)
    ensures ParseFrom(lines, acc) != Err(LineTooLong)
    decreases |lines|
  {
    hide IsToken, DuplicateSingleton, Strip, Safe;
    if lines != [] && lines[0] != "" && ParseLine(lines[0], acc).Ok? {
      ParseIsNeverTooLong(lines[1..], acc + [ParseLine(lines[0], acc).value]);
    }
  }

  /** The uninterrupted pass ends with this rejection, nothing more having been delivered or announced,
      exactly if the input has such a line. */
  lemma {:induction false} LongLineIff(lim: Limits, out: Delivery, kind: LineKind, s: Bytes)
    ensures Run(lim, Line(out, kind, ""), s) == Failed(out, LineTooLong) <==> LongLineAhead(lim, kind, s)
    decreases |s|
  {
    hide Run, Find, ChunkSizeOf, Parse;
    assert "" + s == s;
    NoCrlf("");
    RunLine(lim, out, kind, "", s);
    var pos := Find(s, CRLF);
    if pos != -1 {
      FindInside(s, CRLF);
      var line, rest := s[..pos], s[pos + 2..];
      var n := LineDone(lim, out, kind, line);
      RunExtends(lim, n, rest);
      TooLongSize(lim, line);
      if n.Line? {
        LongLineIff(lim, out, n.kind, rest);
      } else if n.Failed? {
        RunAbsorbed(lim, n, rest);
        if kind.TrailerLine? { ParseIsNeverTooLong(kind.before + [line], []); ParseIsFrom(kind.before + [line]); }
      } else if n.Finished? {
        RunAbsorbed(lim, n, rest);
      }
    }
  }

  lemma ParseIsFrom(lines: seq<Bytes>)
    ensures Parse(lines) == ParseFrom(lines, [])
  {
  }

  lemma TooLongSize(lim: Limits, line: Bytes)
    ensures ChunkSizeOf(lim, line) == Err(LineTooLong) <==> |line| > lim.maxLineSize
  {
  }

  /** After a cut inside an overlong line, the rest of the input makes the uninterrupted pass reject it
      just the same. */
  predicate RejectedAnyway(lim: Limits, s: Body, more: Bytes) {
    match s
    case Line(_, kind, text) => LongLineAhead(lim, kind, text + more)
    case DataEnd(_, cr) => cr && more != "" && more[0] == '\n' && LongLineAhead(lim, SizeLine, more[1..])
    case _ => false
  }

  lemma RejectedAnywayIff(lim: Limits, s: Body, more: Bytes)
    requires Overlong(lim, s) && (s.Line? ==> Find(s.text, CRLF) == -1)
    ensures Observe(Run(lim, s, more)) == Rejected(s.out, LineTooLong) <==> RejectedAnyway(lim, s, more)
  {
    hide Find, LongLineAhead, LineDone;
    match s
    case Line(out, kind, text) =>
      hide Run;
      NoCrlf("");
      assert "" + text == text;
      RunLine(lim, out, kind, "", text);
      RunAppend(lim, Line(out, kind, ""), text, more);
      LongLineIff(lim, out, kind, text + more);
    case DataEnd(out, cr) =>
      if more != "" {
        if more[0] == '\n' {
          LongLineIff(lim, out, SizeLine, more[1..]);
        } else {
          RunAbsorbed(lim, Failed(out, TransferEncodingError), more[1..]);
        }
      }
  }

  lemma StoppedBeforeCut(lim: Limits, s: Body, fragments: seq<Bytes>, used: nat, cut: nat)
    requires used <= cut <= |fragments| && (cut < |fragments| ==> CutOverlong(lim, s, fragments, cut))
    requires CutState(lim, s, fragments, used).Finished? || CutState(lim, s, fragments, used).Failed?
    ensures var n, late := CutState(lim, s, fragments, used), Concat(fragments[used..]);
      cut == |fragments| && Run(lim, s, Concat(fragments)) == if n.Failed? then n else n.(rest := n.rest + late)
  {
    hide Run;
    StoppedNotOverlong(lim, s, fragments, used);
    RunRest(lim, s, fragments, used);
    RunAbsorbed(lim, CutState(lim, s, fragments, used), Concat(fragments[used..]));
  }

  ghost predicate Unpaused(p: HttpPayloadParser)
    reads p, p.payload
  {
    p.Valid() && !p.kind.ParseUntilEof? && !p.paused && p.payload.answers == [] && p.CaughtUp()
  }

  /** One fragment for a parser that is never paused. */
  method FeedOne(p: HttpPayloadParser, fragment: Bytes) returns (r: FeedResult)
    requires Unpaused(p)
    modifies p, p.payload
    ensures old(Overlong(p.limits, p.Ref())) ==> r == Raised(LineTooLong) && p.payload.got == old(p.Ref().out)
    ensures !old(Overlong(p.limits, p.Ref())) ==>
      match r
      case Raised(e) => Run(p.limits, old(p.Ref()), fragment) == Failed(p.payload.got, e)
      case Fed(PayloadComplete, rest) => Run(p.limits, old(p.Ref()), fragment) == Finished(p.payload.got, rest)
      case Fed(state, _) => Unpaused(p) && p.Ref() == Run(p.limits, old(p.Ref()), fragment)
  {
    hide Run, Overlong, Find;
    if p.kind.ParseChunked? && p.chunk != ChunkedChunk { RefOfPartialLine(p); } else { InsideDataNotOverlong(p); }
    r := p.FeedData(fragment);
  }

  lemma OverlongLineIsOpen(p: HttpPayloadParser)
    requires Unpaused(p) && Overlong(p.limits, p.Ref())
    ensures p.Ref().Line? ==> Find(p.Ref().text, CRLF) == -1
  {
    hide Run, Overlong, Find;
    if p.kind.ParseChunked? && p.chunk != ChunkedChunk { RefOfPartialLine(p); } else { InsideDataNotOverlong(p); }
  }

  /** The exception is exact. A parser that is never paused observes the uninterrupted pass unless a cut
      falls inside an overlong line; it rejects the body at the first such cut. That is what the
      uninterrupted pass does, too, if and only if an overlong line is ahead in the input anyway. */
  method ReceiveUnpaused(chunked: bool, length: Option<nat>, lim: Limits,
    fragments: seq<Bytes>)
    returns (seen: Observed)
    requires chunked || (length.Some? && length.value > 0)
    ensures var start := Start(chunked, length); var cut := FirstOverlong(lim, start, fragments, 0);
      if cut < |fragments| then RejectedAt(lim, start, fragments, cut, seen)
      else seen == Observe(Run(lim, start, Concat(fragments)))
    ensures var start := Start(chunked, length); var cut := FirstOverlong(lim, start, fragments, 0);
      seen == Observe(Run(lim, start, Concat(fragments))) <==>
        cut == |fragments| || RejectedAnyway(lim, CutState(lim, start, fragments, cut), Concat(fragments[cut..]))
  {
    hide Run, RejectedAnyway, FirstOverlong, Overlong, Find;
    var headersParser := new HeadersParser(lim.maxFieldSize);
    var payload := new Payload([]);
    var p := new HttpPayloadParser(payload, length, chunked, headersParser, lim);
    ghost var start := Start(chunked, length);
    RunNothing(lim, start);
    ghost var cut := FirstOverlong(lim, start, fragments, 0);
    assert !Overlong(lim, start) by { StartIsNotOverlong(lim, chunked, length); }
    var used := 0;
    while used < |fragments|
      invariant used <= |fragments| && used <= cut && p.limits == lim && p.payload == payload && fresh(p) &&
        fresh(payload)
      invariant Unpaused(p) && p.Ref() == CutState(lim, start, fragments, used)
    {
      hide Unpaused;
      RunFragment(lim, start, fragments, used);
      assert Overlong(lim, p.Ref()) <==> used == cut by {
        assert CutOverlong(lim, start, fragments, used) <==> used == cut;
      }
      if used == cut {
        OverlongLineIsOpen(p);
        RunRest(lim, start, fragments, cut);
        RejectedAnywayIff(lim, p.Ref(), Concat(fragments[cut..]));
      }
      var r := FeedOne(p, fragments[used]);
      used := used + 1;
      if r.Raised? || r.state == PayloadComplete {
        if used != cut + 1 { StoppedBeforeCut(lim, start, fragments, used, cut); }
        var late := Concat(fragments[used..]);
        return if r.Raised? then Rejected(payload.got, r.error) else Complete(payload.got, r.rest + late);
      }
    }
    assert fragments[..used] == fragments;
    return Open(payload.got);
  }

  lemma StartIsNotOverlong(lim: Limits, chunked: bool, length: Option<nat>)
    ensures !Overlong(lim, Start(chunked, length))
  {
  }

  /** What the exclusion above is about: a size line of exactly the permitted length is accepted
      whole, but is rejected when the cut falls between its CR and its LF. */
  lemma ExactLimitLineIsCutSensitive()
    ensures var lim := Limits(1, 1, 1);
      && CutOverlong(lim, Start(true, None), ["0\r", "\n\r\n"], 1)
      && Run(lim, Start(true, None), Concat(["0\r", "\n\r\n"])).Finished?
  {
    hide Run, Overlong;
    var lim := Limits(1, 1, 1);
    var fragments := ["0\r", "\n\r\n"];
    ConcatSnoc(["0\r"], "\n\r\n");
    ConcatSnoc([], "0\r");
    assert [] + ["0\r"] == ["0\r"] == fragments[..1] && ["0\r"] + ["\n\r\n"] == fragments;
    assert "" + "0\r" == "0\r" && "0\r" + "\n\r\n" == "0\r\n\r\n";
    PartialSizeLine(lim);
    LastChunkRuns(lim);
    assert Overlong(lim, Run(lim, Start(true, None), Concat(fragments[..1])));
  }

  lemma PartialSizeLine(lim: Limits)
    ensures Run(lim, Line(NOTHING, SizeLine, ""), "0\r") == Line(NOTHING, SizeLine, "0\r")
    ensures Overlong(Limits(1, 1, 1), Line(NOTHING, SizeLine, "0\r"))
  {
    hide Run, Find;
    assert "" + "0\r" == "0\r";
    NoCrlf("");
    NoCrlf("0\r");
    RunLine(lim, NOTHING, SizeLine, "", "0\r");
  }

  lemma LastChunkRuns(lim: Limits)
    requires lim.maxLineSize >= 1 && lim.maxTrailers >= 1
    ensures Run(lim, Line(NOTHING, SizeLine, ""), "0\r\n\r\n") == Finished(NOTHING.Eof(), "")
  {
    hide Run, Find, LineDone;
    var whole := "0\r\n\r\n";
    assert "" + whole == whole && "" + CRLF == CRLF;
    NoCrlf("");
    FirstCrlf(whole, 1);
    RunLine(lim, NOTHING, SizeLine, "", whole);
    assert whole[..1] == "0" && whole[3..] == CRLF;
    LastChunkLine(lim, NOTHING);
    FirstCrlf(CRLF, 0);
    RunLine(lim, NOTHING, TrailerLine([]), "", CRLF);
    assert CRLF[..0] == "" && CRLF[2..] == "";
    EmptyTrailer(lim, NOTHING);
    RunNothing(lim, Finished(NOTHING.Eof(), ""));
  }

  lemma LastChunkLine(lim: Limits, out: Delivery)
    requires lim.maxLineSize >= 1
    ensures LineDone(lim, out, SizeLine, "0") == Line(out, TrailerLine([]), "")
  {
    assert Hex.IsHex("0") && Hex.FromHex("0") == 0;
  }

  lemma EmptyTrailer(lim: Limits, out: Delivery)
    requires lim.maxTrailers >= 1
    ensures LineDone(lim, out, TrailerLine([]), "") == Finished(out.Eof(), "")
  {
    assert [] + [""] == [""];
  }
}

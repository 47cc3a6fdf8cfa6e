/** The server's pipelining queue and its two reasons to pause the transport (web_protocol.py,
    base_protocol.py), on top of the request parser. */
module FlowControl {
  import opened ByteStrings
  import opened Headers
  import opened Requests
  import opened HttpMachine
  import opened HttpParser

  /** What the bodies being read call back while data is parsed or read: a buffer over its high-water
      mark, a reader below the low-water mark, the end of a body with its callbacks. Whatever a
      resumed parser makes them call back in turn is nested inside. */
  datatype Call = Pause | Resume(reparse: seq<Call>) | Eof(callbacks: seq<Call>)

  datatype Message = Message(request: Request) | ErrInfo(error: HttpError)

  /** The parser's error, and how many messages came before the one that reports it. */
  datatype Failure = Failure(at: nat, error: HttpError)

  const MAX_MSG_QUEUE_SIZE := 32
  const MSG_QUEUE_RESUME_SIZE := 16

  function Wrapped(rs: seq<Request>): seq<Message> { seq(|rs|, i requires 0 <= i < |rs| => Message(rs[i])) }

  class RequestHandler {
    const parser: HttpRequestParser
    var transport: Option<bool> // whether it is paused, while there is one
    var readingPaused: bool
    var msgQueuePaused: bool
    var upgraded: bool
    var closing: bool
    var messages: seq<Message>
    var messageTail: Bytes
    var raised: bool // the parser raised an error; what it emits afterwards is arbitrary
    ghost var popped: seq<Message>
    ghost var fed: Bytes // what the parser was fed
    ghost var regular: bool // no body error was swallowed, with the rest of its input
    ghost var stopped: bool // it stopped at a full queue when it was last run
    ghost var failure: Option<Failure>

    ghost function Repr(): set<object>
      reads this, parser
    {
      {this, parser} +
        if raised || parser.payloadParser == null then {} else {parser.payloadParser, parser.payloadParser.payload}
    }

    /** The parser's slots are those of the queue, and what was queued is what an unlimited parser
        would have emitted first. */
    ghost predicate Valid()
      reads Repr()
    {
      && parser.maxMsgQueueSize == MAX_MSG_QUEUE_SIZE
      && (!raised ==>
            && parser.Valid() && parser.msgInFlight == |messages| <= MAX_MSG_QUEUE_SIZE
            && popped + messages == Wrapped(parser.Emitted())
            && (regular ==> parser.Ref() == RunHttp(parser.cfg, START, fed))
            && (!stopped && !parser.payloadHasMoreData ==> parser.UpToDate())
            && upgraded == parser.upgraded)
      && (raised <==> failure.Some?) && (raised ==> Reports(popped + messages))
    }

    /** The error is one of the messages. Unless a body error was swallowed, it is one that the reference
        run of the input raises, and before it come only messages of that run. */
    ghost predicate Reports(all: seq<Message>)
      requires failure.Some?
      reads this`failure, this`fed, this`regular
    {
      var goal, at, error := RunHttp(parser.cfg, START, fed), failure.value.at, failure.value.error;
      && at < |all| && all[at] == ErrInfo(error)
      && (regular ==> Raises(parser.cfg, at, goal, error) && all[..at] <= Wrapped(Messages(goal)))
    }

    lemma StillReports(all: seq<Message>, more: seq<Message>)
      requires failure.Some? && Reports(all)
      ensures Reports(all + more)
    {
      hide RunHttp, Raises, Messages, Wrapped;
      assert (all + more)[..failure.value.at] == all[..failure.value.at];
    }

    /** A parser that stopped at a full queue is only left alone while the queue is paused. */
    ghost predicate Prompt()
      reads this
    {
      stopped && !closing && !raised ==> msgQueuePaused && !upgraded
    }

    /** The transport is paused exactly for one of the two reasons. */
    predicate Agrees()
      reads this
    {
      transport.Some? ==> transport.value == (readingPaused || msgQueuePaused)
    }

    /** In the middle of a resumption the transport may be paused for no reason any more. */
    predicate Holds()
      reads this
    {
      transport.Some? && (readingPaused || msgQueuePaused) ==> transport.value
    }

    /** The queue pauses the transport only well above the mark at which it resumes. */
    predicate NotStalled()
      reads this
    {
      msgQueuePaused ==> |messages| > MSG_QUEUE_RESUME_SIZE
    }

    constructor (cfg: Config)
      ensures Valid() && Agrees() && NotStalled() && Prompt() && fresh(Repr()) && parser.cfg == cfg
      ensures !readingPaused && !msgQueuePaused
      ensures messages == [] && popped == [] && fed == "" && !raised && regular && transport.None?
    {
      hide RunHttp, HttpRequestParser.Valid, HttpRequestParser.Core, HttpRequestParser.Ref;
      parser := new HttpRequestParser(cfg, MAX_MSG_QUEUE_SIZE);
      transport, readingPaused, msgQueuePaused, upgraded, closing := None, false, false, false, false;
      messages, messageTail, popped, fed, raised, regular, stopped := [], "", [], "", false, true, false;
      failure := None;
      new;
      RunHttpNothing(cfg, START);
    }

    /** `pause_reading` (base_protocol.py); a body that is being parsed stops as well. */
    method PauseReading()
      requires Valid() && Holds()
      modifies Repr()
      ensures Valid() && Holds() && readingPaused && Repr() == old(Repr())
      ensures old(Agrees()) ==> Agrees()
      ensures unchanged(this`messages, this`popped, this`fed, this`raised, this`failure, this`regular,
        this`msgQueuePaused, this`closing, this`stopped, this`upgraded)
      ensures transport.Some? == old(transport.Some?)
      ensures !upgraded && !raised && parser.payloadParser != null ==> parser.payloadParser.paused
    {
      hide RunHttp, HttpRequestParser.Core, Wrapped, HttpRequestParser.Emitted, HttpRequestParser.UpToDate, HasBody,
        HttpRequestParser.Valid, HttpRequestParser.Ref;
      readingPaused := true;
      if !upgraded && !raised { PauseParser(); }
      if transport.Some? { transport := Some(true); }
    }

    method PauseParser()
      requires Valid() && !raised
      modifies parser.payloadParser
      ensures Valid() && Repr() == old(Repr())
      ensures parser.payloadParser != null ==> parser.payloadParser.paused
    {
      if parser.payloadParser != null { parser.PauseReading(); }
    }

    /** `resume_reading` (base_protocol.py), with the reparse it may start. Whatever that calls back,
        in the end the transport is paused exactly for one of the two reasons. */
    method ResumeReading(resumeParser: bool, reparse: seq<Call>)
      requires Valid() && Holds()
      modifies Repr()
      ensures Valid() && Agrees() && fresh(Repr() - old(Repr())) && Kept()
      decreases reparse, 2
    {
      hide RunHttp, HttpRequestParser.Core, Wrapped, HttpRequestParser.Emitted, HttpRequestParser.UpToDate, HasBody,
        HttpRequestParser.Valid, HttpRequestParser.Ref;
      ClearPause();
      if !upgraded && resumeParser { ghost var _ := DataReceived("", reparse); }
      hide Valid, Repr;
      ResumeTransport();
    }

    method ClearPause()
      requires Valid() && Holds()
      modifies this`readingPaused
      ensures Valid() && Holds() && !readingPaused && Kept() && Repr() == old(Repr())
    {
      hide RunHttp, HttpRequestParser.Core, Wrapped, HttpRequestParser.Emitted, HttpRequestParser.UpToDate, HasBody,
        HttpRequestParser.Valid, HttpRequestParser.Ref;
      readingPaused := false;
    }

    /** The transport is resumed unless reading was paused again meanwhile. */
    method ResumeTransport()
      requires Valid() && Holds()
      modifies this`transport
      ensures Valid() && Agrees() && Kept() && Repr() == old(Repr())
    {
      hide RunHttp, HttpRequestParser.Core, Wrapped, HttpRequestParser.Emitted, HttpRequestParser.UpToDate, HasBody,
        HttpRequestParser.Valid, HttpRequestParser.Ref;
      if !readingPaused && !msgQueuePaused && transport.Some? { transport := Some(false); }
    }

    /** `resume_reading(resume_parser=False)`, at the end of a body. */
    method EndOfBody()
      requires Valid() && Holds()
      modifies this`readingPaused, this`transport
      ensures Valid() && Agrees() && Kept() && Repr() == old(Repr())
    {
      hide RunHttp, HttpRequestParser.Core, Wrapped, HttpRequestParser.Emitted, HttpRequestParser.UpToDate, HasBody,
        HttpRequestParser.Valid, HttpRequestParser.Ref;
      ClearPause();
      hide Valid, Repr;
      ResumeTransport();
    }

    /** What nested calls leave alone: the queue only grows, and so does what was fed. */
    twostate predicate Kept()
      reads this
    {
      && old(messages) <= messages && popped == old(popped)
      && (old(raised) ==> raised) && (regular ==> old(regular)) && old(fed) <= fed
      && (old(msgQueuePaused) ==> msgQueuePaused) && transport.Some? == old(transport.Some?) && closing == old(closing)
      && (old(NotStalled()) ==> NotStalled()) && (old(Prompt()) ==> Prompt())
      && (if old(raised) then failure == old(failure)
          else failure.Some? ==> failure.value.at >= |old(popped)| + |old(messages)|)
    }

    method RunCall(call: Call)
      requires Valid() && Holds()
      modifies Repr()
      ensures Valid() && Holds() && fresh(Repr() - old(Repr())) && Kept()
      ensures old(Agrees()) ==> Agrees()
      decreases call, 3
    {
      hide RunHttp, HttpRequestParser.Core, Wrapped, HttpRequestParser.Emitted, HttpRequestParser.UpToDate, HasBody,
        HttpRequestParser.Valid, HttpRequestParser.Ref;
      match call
      case Pause => PauseReading();
      case Resume(reparse) => ResumeReading(true, reparse);
      case Eof(callbacks) =>
        EndOfBody();
        RunCalls(callbacks);
    }

    method RunCalls(calls: seq<Call>)
      requires Valid() && Holds()
      modifies Repr()
      ensures Valid() && Holds() && fresh(Repr() - old(Repr())) && Kept()
      ensures old(Agrees()) ==> Agrees()
      ensures calls == [] ==> unchanged(this`messages, this`raised, this`upgraded, this`messageTail)
      decreases calls, 0
    {
      hide RunHttp, HttpRequestParser.Core, Wrapped, HttpRequestParser.Emitted, HttpRequestParser.UpToDate, HasBody,
        HttpRequestParser.Valid, HttpRequestParser.Ref;
      for i := 0 to |calls|
        invariant Valid() && Holds() && fresh(Repr() - old(Repr())) && Kept()
        invariant old(Agrees()) ==> Agrees()
        invariant i == 0 ==> unchanged(this`messages, this`raised, this`upgraded, this`messageTail)
      {
        RunCall(calls[i]);
      }
    }

    /** One call of the parser. */
    method FeedParser(data: Bytes) returns (r: ParserResult)
      requires Valid() && !raised
      modifies this`fed, this`regular, parser, parser.payloadParser,
        if parser.payloadParser != null then {parser.payloadParser.payload} else {}
      ensures r.Parsed? ==> parser.Valid() && fresh(Repr() - old(Repr()))
      ensures r.Parsed? ==> parser.Emitted() == old(parser.Emitted()) + r.messages && r.upgraded == parser.upgraded
      ensures r.Parsed? ==> parser.msgInFlight == |messages| + |r.messages| <= MAX_MSG_QUEUE_SIZE
      ensures r.Parsed? && !parser.HoldsBack() ==> parser.UpToDate()
      ensures r.Parsed? ==> parser.handedBack == old(parser.handedBack) + if r.upgraded then r.rest else ""
      ensures fed == old(fed) + data && (regular ==> old(regular))
      ensures r.Parsed? && regular ==> parser.Ref() == RunHttp(parser.cfg, START, fed)
      ensures r.ParserRaised? && regular ==> var goal := RunHttp(parser.cfg, START, fed);
        Raises(parser.cfg, |old(parser.Emitted())|, goal, r.error) && old(parser.Emitted()) <= Messages(goal)
    {
      hide RunHttp, Regular, HttpRequestParser.Valid, HttpRequestParser.Core, HttpRequestParser.Ref,
        CallGoal, HttpRequestParser.UpToDate, HttpRequestParser.Emitted, HttpRequestParser.HoldsBack, Wrapped, Raises,
        Messages;
      EmittedIsPrefix(parser);
      RunHttpMessages(parser.cfg, parser.Ref(), data);
      regular := regular && Regular(parser.cfg, parser.Ref(), RunHttp(parser.cfg, parser.Ref(), data));
      RunHttpAppend(parser.cfg, START, fed, data);
      fed := fed + data;
      r := parser.FeedData(data);
    }

    /** The parser's turn: its messages, or an error message of its own. */
    method Parse(data: Bytes) returns (ms: seq<Message>, up: bool, tail: Bytes)
      requires Valid() && !raised
      modifies Repr()
      ensures fresh(Repr() - old(Repr()))
      ensures parser.maxMsgQueueSize == MAX_MSG_QUEUE_SIZE
      ensures unchanged(this`messages, this`popped, this`readingPaused, this`msgQueuePaused, this`transport,
        this`closing, this`upgraded, this`messageTail)
      ensures fed == old(fed) + data && (regular ==> old(regular))
      ensures !raised ==> parser.Valid() && parser.msgInFlight == |messages| + |ms| <= MAX_MSG_QUEUE_SIZE
      ensures !raised ==> popped + messages + ms == Wrapped(parser.Emitted())
      ensures !raised ==> (!stopped && !parser.payloadHasMoreData ==> parser.UpToDate())
      ensures !raised && stopped ==> |messages| + |ms| >= MAX_MSG_QUEUE_SIZE && !up
      ensures !raised ==> up == parser.upgraded
      ensures !raised && !old(upgraded) && up ==> parser.handedBack == tail
      ensures !raised && regular ==> parser.Ref() == RunHttp(parser.cfg, START, fed)
      ensures raised ==> failure.Some? && failure.value.at == |popped + messages| && !up
      ensures raised ==> ms == [ErrInfo(failure.value.error)] && Reports(popped + messages + ms)
      ensures !raised ==> failure == old(failure)
    {
      hide RunHttp, Regular, HttpRequestParser.Valid, HttpRequestParser.Core, HttpRequestParser.Ref,
        HttpRequestParser.Ends, CallGoal, HttpRequestParser.UpToDate, HttpRequestParser.Emitted,
        HttpRequestParser.Rejects, Raises, Messages, Reports, Wrapped;
      ghost var before := parser.Emitted();
      if !parser.upgraded { NothingHandedBack(); }
      var r := FeedParser(data);
      match r
      case Parsed(requests, switched, rest) =>
        ms, up, tail := Wrapped(requests), switched, rest;
        WrapAppend(before, requests);
        WrapPrefix(requests, requests);
        stopped := parser.payloadParser == null && !parser.upgraded && parser.QueueFull();
      case ParserRaised(e) =>
        ms := ReportError(e, before);
        up, tail := false, "";
    }

    method ReportError(e: HttpError, ghost before: seq<Request>) returns (ms: seq<Message>)
      requires popped + messages == Wrapped(before)
      requires regular ==> var goal := RunHttp(parser.cfg, START, fed);
        Raises(parser.cfg, |before|, goal, e) && before <= Messages(goal)
      modifies this`raised, this`failure
      ensures raised && failure == Some(Failure(|popped + messages|, e))
      ensures ms == [ErrInfo(e)] && Reports(popped + messages + ms)
    {
      hide RunHttp, Raises, Messages;
      raised, failure := true, Some(Failure(|popped + messages|, e));
      ms := [ErrInfo(e)];
      WrapPrefix(before, Messages(RunHttp(parser.cfg, START, fed)));
      assert (popped + messages + ms)[..|before|] == Wrapped(before);
    }

    /** The input behind a switch of protocols is kept for the new one, all of it. */
    twostate predicate TailStored()
      reads this, parser
    {
      messageTail == if parser.handedBack != "" then parser.handedBack else old(messageTail)
    }

    lemma NothingHandedBack()
      requires parser.Valid() && !parser.upgraded
      ensures parser.handedBack == ""
    {
    }

    /** The parser is run and its messages are queued; a full queue pauses the transport. */
    method ParseInput(data: Bytes)
      requires Valid() && Holds()
      modifies Repr()
      ensures Valid() && Holds() && fresh(Repr() - old(Repr())) && Kept()
      ensures old(Agrees()) ==> Agrees()
      ensures !raised && stopped ==> |messages| >= MAX_MSG_QUEUE_SIZE
      ensures !raised ==> upgraded == parser.upgraded
      ensures !raised && !old(upgraded) && upgraded ==> TailStored()
      ensures !old(raised) && raised ==>
        messages == old(messages) + [ErrInfo(failure.value.error)] && failure.value.at == |popped| + |old(messages)| &&
        !upgraded
      ensures |messages| >= MAX_MSG_QUEUE_SIZE ==> msgQueuePaused
    {
      hide RunHttp, HttpRequestParser.Core, HttpRequestParser.Ref, HttpRequestParser.Valid, Wrapped,
        HttpRequestParser.Emitted, HttpRequestParser.UpToDate, Regular, Reports;
      var ms: seq<Message>, up: bool, tail: Bytes;
      if raised {
        ms, up, tail := *, *, *;
        StillReports(popped + messages, ms);
      } else {
        ms, up, tail := Parse(data);
      }
      Assoc(popped, messages, ms);
      Queue(ms, up, tail);
    }

    method Queue(ms: seq<Message>, up: bool, tail: Bytes)
      requires Holds()
      modifies this`messages, this`msgQueuePaused, this`transport, this`upgraded, this`messageTail
      ensures Holds() && messages == old(messages) + ms && (old(Agrees()) ==> Agrees())
      ensures upgraded == up
      ensures msgQueuePaused <==> old(msgQueuePaused) || |messages| >= MAX_MSG_QUEUE_SIZE
      ensures messageTail == if up && tail != "" then tail else old(messageTail)
      ensures transport.Some? == old(transport.Some?) && (old(NotStalled()) ==> NotStalled())
      ensures popped + messages == old(popped + messages) + ms
    {
      messages := messages + ms;
      if !msgQueuePaused && |messages| >= MAX_MSG_QUEUE_SIZE { PauseMsgQueueReading(); }
      upgraded := up;
      if up && tail != "" { messageTail := tail; }
    }

    /** `data_received` (web_protocol.py); `calls` is what the bodies call back meanwhile, and `queued` what
        these calls put into the queue. An error of the parser becomes exactly one message behind it. */
    method DataReceived(data: Bytes, calls: seq<Call>) returns (ghost queued: seq<Message>)
      requires Valid() && Holds()
      modifies Repr()
      ensures Valid() && Holds() && fresh(Repr() - old(Repr())) && Kept()
      ensures old(Agrees()) ==> Agrees()
      ensures !old(upgraded) && !closing && !raised && stopped ==> |messages| >= MAX_MSG_QUEUE_SIZE
      ensures !old(upgraded) && !closing && !raised ==> upgraded == parser.upgraded
      ensures old(upgraded) && !closing ==> messageTail == old(messageTail) + data && messages == old(messages)
      ensures closing ==> messageTail == old(messageTail) && messages == old(messages)
      ensures !old(upgraded) && !closing && calls == [] && !raised && upgraded ==> TailStored()
      ensures old(messages) + queued <= messages && (calls == [] ==> queued == [])
      ensures !old(raised) && raised && failure.value.at >= |popped| + |old(messages)| + |queued| ==>
        messages == old(messages) + queued + [ErrInfo(failure.value.error)] && !upgraded
      ensures !old(upgraded) && !closing && |messages| >= MAX_MSG_QUEUE_SIZE ==> msgQueuePaused
      decreases calls, 1
    {
      hide RunHttp, HttpRequestParser.Core, Wrapped, HttpRequestParser.Emitted, HttpRequestParser.UpToDate, HasBody,
        HttpRequestParser.Valid, HttpRequestParser.Ref;
      queued := [];
      if closing { return; }
      if !upgraded {
        RunCalls(calls);
        queued := messages[|old(messages)|..];
        ParseInput(data);
      } else if data != "" {
        messageTail := messageTail + data;
      }
    }

    /** `_pause_msg_queue_reading` */
    method PauseMsgQueueReading()
      modifies this`msgQueuePaused, this`transport
      ensures msgQueuePaused && transport == if old(transport).Some? then Some(true) else None
    {
      msgQueuePaused := true;
      if transport.Some? { transport := Some(true); }
    }

    /** `_resume_msg_queue_reading`: what the parser held back is read first; reading goes on only if
        that has not filled the queue again. */
    method ResumeMsgQueueReading(reparse: seq<Call>)
      requires Valid() && Agrees() && Prompt() && msgQueuePaused
      modifies Repr()
      ensures Valid() && Agrees() && NotStalled() && Prompt() && fresh(Repr() - old(Repr()))
      ensures old(messages) <= messages && popped == old(popped) && transport.Some? == old(transport.Some?)
      ensures msgQueuePaused ==> |messages| >= MAX_MSG_QUEUE_SIZE
    {
      hide RunHttp, HttpRequestParser.Core, Wrapped, HttpRequestParser.Emitted, HttpRequestParser.UpToDate, HasBody,
        HttpRequestParser.Valid, HttpRequestParser.Ref;
      if !upgraded {
        ghost var _ := DataReceived("", reparse);
        if |messages| >= MAX_MSG_QUEUE_SIZE { return; }
      }
      msgQueuePaused := false;
      if !readingPaused && transport.Some? { transport := Some(false); }
    }

    /** The head of `start`: a message is taken off the queue, which frees a slot of the parser and
        may let it go on. */
    method NextMessage(reparse: seq<Call>) returns (message: Message)
      requires Valid() && Agrees() && NotStalled() && Prompt() && messages != []
      modifies Repr()
      ensures Valid() && Agrees() && NotStalled() && Prompt() && fresh(Repr() - old(Repr()))
      ensures message == old(messages)[0] && popped == old(popped) + [message]
      ensures old(messages)[1..] <= messages && transport.Some? == old(transport.Some?)
      ensures !old(msgQueuePaused) || old(|messages|) > MSG_QUEUE_RESUME_SIZE + 1 ==>
        messages == old(messages)[1..] && msgQueuePaused == old(msgQueuePaused)
    {
      hide RunHttp, HttpRequestParser.Core, Wrapped, HttpRequestParser.Emitted, HttpRequestParser.UpToDate, HasBody,
        HttpRequestParser.Valid, HttpRequestParser.Ref;
      message := messages[0];
      messages := messages[1..];
      popped := popped + [message];
      assert old(popped) + old(messages) == popped + messages;
      if !raised { parser.MessageConsumed(); }
      if msgQueuePaused && |messages| <= MSG_QUEUE_RESUME_SIZE { ResumeMsgQueueReading(reparse); }
    }

    /** `connection_made`, once, before anything else. */
    method ConnectionMade()
      requires Valid() && transport.None? && !readingPaused && !msgQueuePaused
      modifies this`transport
      ensures Valid() && Agrees() && transport == Some(false) && Repr() == old(Repr())
    {
      hide RunHttp, HttpRequestParser.Core, Wrapped, HttpRequestParser.Emitted, HttpRequestParser.UpToDate, HasBody,
        HttpRequestParser.Valid, HttpRequestParser.Ref;
      transport := Some(false);
    }

    /** `connection_lost`, which also closes by force */
    method ConnectionLost()
      requires Valid()
      modifies this`transport, this`closing
      ensures Valid() && Agrees() && Prompt() && transport.None? && closing && Repr() == old(Repr())
    {
      hide RunHttp, HttpRequestParser.Core, Wrapped, HttpRequestParser.Emitted, HttpRequestParser.UpToDate, HasBody,
        HttpRequestParser.Valid, HttpRequestParser.Ref;
      transport, closing := None, true;
    }

    /** `close` */
    method Close()
      requires Valid()
      modifies this`closing
      ensures Valid() && closing && Prompt() && Repr() == old(Repr())
    {
      hide RunHttp, HttpRequestParser.Core, Wrapped, HttpRequestParser.Emitted, HttpRequestParser.UpToDate, HasBody,
        HttpRequestParser.Valid, HttpRequestParser.Ref;
      closing := true;
    }
  }

  lemma WrapAppend(a: seq<Request>, b: seq<Request>)
    ensures Wrapped(a + b) == Wrapped(a) + Wrapped(b)
  {
  }

  lemma WrapPrefix(a: seq<Request>, b: seq<Request>)
    ensures |Wrapped(a)| == |a| && (a <= b ==> Wrapped(a) <= Wrapped(b))
  {
  }

  /** The queue limit only delays: without errors, what was taken off the queue is an initial part
      of what a parser with no limit, never paused, emits on the same bytes, and the parser's count
      of queued messages is exact and within the limit. */
  lemma LimitOnlyDelays(h: RequestHandler)
    requires h.Valid() && !h.raised && h.regular
    ensures h.popped + h.messages <= Wrapped(Messages(RunHttp(h.parser.cfg, START, h.fed)))
    ensures h.parser.msgInFlight == |h.messages| <= MAX_MSG_QUEUE_SIZE
  {
    hide RunHttp, HttpRequestParser.Core, HttpRequestParser.Valid, Messages, HttpRequestParser.Emitted,
      HttpRequestParser.Ref;
    EmittedIsPrefix(h.parser);
    var emitted, all := h.parser.Emitted(), Messages(h.parser.Ref());
    assert all == emitted + all[|emitted|..];
    WrapAppend(emitted, all[|emitted|..]);
  }

  /** Unless the queue is paused or a body waits for its reader, nothing is delayed at all. */
  lemma EverythingIsOut(h: RequestHandler)
    requires h.Valid() && !h.raised && h.regular && !h.stopped && !h.parser.payloadHasMoreData
    ensures h.popped + h.messages == Wrapped(Messages(RunHttp(h.parser.cfg, START, h.fed)))
  {
    hide RunHttp, HttpRequestParser.Core, HttpRequestParser.Valid, Messages, HttpRequestParser.Emitted,
      HttpRequestParser.Ref;
  }

  /** After a switch of protocols nothing is lost: what the parser handed back is all that the reference
      has behind the last request. */
  lemma BehindTheSwitch(h: RequestHandler)
    requires h.Valid() && !h.raised && h.regular && h.upgraded && h.parser.payloadParser == null
    ensures RunHttp(h.parser.cfg, START, h.fed) == Switched(h.parser.log, h.parser.handedBack)
  {
    hide RunHttp;
    RunHttpNothing(h.parser.cfg, h.parser.Core());
  }

  datatype Event =
    | Received(data: Bytes, calls: seq<Call>)
    | CalledBack(call: Call) // a reader of a body reads, or stops reading
    | Started(reparse: seq<Call>) // `start` takes the next message
    | Closed
    | Lost

  /** A whole connection, in any order of events and however deeply their reactions nest. */
  method Serve(cfg: Config, events: seq<Event>) returns (h: RequestHandler)
    ensures fresh(h) && h.Valid() && h.Agrees() && h.NotStalled()
    ensures h.messages == [] ==> !h.msgQueuePaused
    ensures !h.raised && h.regular ==> h.popped + h.messages <= Wrapped(Messages(RunHttp(cfg, START, h.fed)))
    ensures h.raised && h.regular ==>
      var all, goal, at := h.popped + h.messages, RunHttp(cfg, START, h.fed), h.failure.value.at;
      && at < |all| && all[at] == ErrInfo(h.failure.value.error) && Raises(cfg, at, goal, h.failure.value.error)
      && all[..at] <= Wrapped(Messages(goal))
    ensures !h.raised && h.regular && !h.closing && h.messages == [] && !h.parser.payloadHasMoreData ==>
      h.popped == Wrapped(Messages(RunHttp(cfg, START, h.fed)))
  {
    hide RunHttp, HttpRequestParser.Core, HttpRequestParser.Ref, HttpRequestParser.Valid, Wrapped,
      HttpRequestParser.Emitted, Messages;
    h := new RequestHandler(cfg);
    h.ConnectionMade();
    for i := 0 to |events|
      invariant fresh(h.Repr()) && h.parser.cfg == cfg
      invariant h.Valid() && h.Agrees() && h.NotStalled() && h.Prompt()
    {
      match events[i]
      case Received(data, calls) => ghost var _ := h.DataReceived(data, calls);
      case CalledBack(call) => h.RunCall(call);
      case Started(reparse) =>
        if h.messages != [] { var message := h.NextMessage(reparse); }
      case Closed => h.Close();
      case Lost => h.ConnectionLost();
    }
    if !h.raised && h.regular {
      LimitOnlyDelays(h);
      if !h.stopped && !h.parser.payloadHasMoreData && h.messages == [] {
        EverythingIsOut(h);
        assert h.popped + [] == h.popped;
      }
    }
  }
}

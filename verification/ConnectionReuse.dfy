/** What becomes of one connection: when it is pooled, when it may be reused, and that one that had to be
    closed never comes back. */
module ConnectionReuse {
  import opened ByteStrings
  import opened ConnectionPool

  predicate IdleFor(p: Pool, k: Key, i: Idle) { i in p.IdleAt(k) }

  /** Still connected, and not idle for longer than permitted. */
  predicate Alive(p: Pool, i: Idle, env: Env) { i.conn in env.connected && env.now <= i.since + p.keepalive }

  /** Nobody has it, and nobody can get it. */
  ghost predicate Gone(p: Pool, c: Conn) {
    c in p.keyOf && c !in p.held && forall k, i :: IdleFor(p, k, i) ==> i.conn != c
  }

  /** The key for which a step looks for a connection. */
  function KeyOfCall(p: Pool, e: Event): (k: Option<Key>)
    requires Enabled(p, e)
  {
    match e case DoConnect(k) => Some(k) case DoResume(w, _) => Some(p.waiting[w]) case _ => None
  }

  /** A step makes a connection idle only if it gives it back to be kept. */
  lemma OnlyReleaseAddsIdle(p: Pool, e: Event, env: Env, k: Key, i: Idle)
    requires Inv(p) && Enabled(p, e) && IdleFor(Step(p, e, env), k, i) && !IdleFor(p, k, i)
    ensures e.DoRelease? && !e.shouldClose && !p.forceClose && !p.closed
    ensures k == p.keyOf[e.c] && i == Idle(e.c, env.now)
  {
    hide PerHostBound, Booked, Queued, HasSlot, Abandon, Connect, Resume;
    match e
    case DoConnect(x) => ConnectTakes(p, x, env, k);
    case DoResume(w, fails) => ResumeTakes(p, w, fails, env, k);
    case DoAbandon(c) => AbandonLeaves(p, c, env.order);
    case DoRelease(c, _) => AbandonLeaves(p, c, env.order);
    case DoCleanup =>
      if k in p.idle {
        assert OwnIdle(p, k, p.idle[k]);
        OnlyUsableIsSubsequence(p, k, p.idle[k], env);
      }
    case _ =>
  }

  lemma AbandonLeaves(p: Pool, c: Conn, order: seq<Key>)
    requires Inv(p) && c in p.held && c in p.keyOf
    ensures var q := Abandon(p, c, order); q.idle == p.idle && q.held == p.held - {c} && q.keyOf == p.keyOf
  {
    hide PerHostBound, Booked, Queued, Exclusive, Abandon;
    AbandonKeeps(p, c, order);
  }

  lemma ConnectTakes(p: Pool, x: Key, env: Env, k: Key)
    ensures forall i :: IdleFor(Connect(p, x, env), k, i) ==> IdleFor(p, k, i)
  {
    hide Get, CanReuse, HasSlot;
    GetTakes(p, x, env, k);
    var q := Get(p, x, env);
    assert Begin(q, x).IdleAt(k) == q.IdleAt(k) == Enqueue(q, x, false).IdleAt(k);
  }

  lemma ResumeTakes(p: Pool, w: Waiter, fails: bool, env: Env, k: Key)
    requires w in p.waiting
    ensures forall i :: IdleFor(Resume(p, w, fails, env), k, i) ==> IdleFor(p, k, i)
  {
    hide Get, CanReuse, HasSlot, Dequeue;
    var q, x := Dequeue(p, w), p.waiting[w];
    DequeueLeaves(p, w);
    GetTakes(q, x, env, k);
    var r := Get(q, x, env);
    assert Begin(r, x).IdleAt(k) == r.IdleAt(k) && Enqueue(q, x, true).IdleAt(k) == q.IdleAt(k) == p.IdleAt(k);
    forall i | IdleFor(Resume(p, w, fails, env), k, i) ensures IdleFor(p, k, i) {
      assert IdleFor(r, k, i) || IdleFor(q, k, i);
    }
  }

  lemma GetTakes(p: Pool, x: Key, env: Env, k: Key)
    ensures forall i :: IdleFor(Get(p, x, env), k, i) ==> IdleFor(p, k, i)
  {
    hide FirstUsable;
    var n := FirstUsable(p, p.IdleAt(x), env);
    if n < |p.IdleAt(x)| {
      var s := p.IdleAt(x)[n + 1..];
      assert forall i :: i in s ==> i in p.IdleAt(x);
    }
  }

  /** Whoever holds a connection after a step held it before, or it is new, or it was idle for the key of
      the call and alive. */
  lemma OnlyAliveAreReused(p: Pool, e: Event, env: Env, c: Conn)
    requires Inv(p) && Enabled(p, e) && c in Step(p, e, env).held && c !in p.held
    ensures c.id == p.serial || (KeyOfCall(p, e).Some? &&
      exists i :: IdleFor(p, KeyOfCall(p, e).value, i) && i.conn == c && Alive(p, i, env))
  {
    hide PerHostBound, Booked, Queued, Exclusive, Abandon, Connect, Resume, IdleFor, Alive;
    match e
    case DoConnect(k) => HeldAfterConnect(p, k, env);
    case DoResume(w, fails) => HeldAfterResume(p, w, fails, env);
    case DoAbandon(x) => AbandonLeaves(p, x, env.order);
    case DoRelease(x, _) => AbandonLeaves(p, x, env.order);
    case _ =>
  }

  lemma HeldAfterConnect(p: Pool, k: Key, env: Env)
    ensures forall c :: c in Connect(p, k, env).held && c !in p.held ==>
      c.id == p.serial || exists i :: IdleFor(p, k, i) && i.conn == c && Alive(p, i, env)
  {
    hide Get, CanReuse, HasSlot, IdleFor, Alive;
    HeldAfterGet(p, k, env);
  }

  lemma HeldAfterResume(p: Pool, w: Waiter, fails: bool, env: Env)
    requires w in p.waiting
    ensures forall c :: c in Resume(p, w, fails, env).held && c !in p.held ==>
      c.id == p.serial || exists i :: IdleFor(p, p.waiting[w], i) && i.conn == c && Alive(p, i, env)
  {
    hide Get, CanReuse, HasSlot, Dequeue;
    var q, k := Dequeue(p, w), p.waiting[w];
    DequeueLeaves(p, w);
    HeldAfterGet(q, k, env);
    assert forall i :: (IdleFor(q, k, i) <==> IdleFor(p, k, i)) && (Alive(q, i, env) <==> Alive(p, i, env));
    hide IdleFor, Alive;
  }

  lemma HeldAfterGet(p: Pool, k: Key, env: Env)
    ensures forall c :: c in Get(p, k, env).held && c !in p.held ==>
      exists i :: IdleFor(p, k, i) && i.conn == c && Alive(p, i, env)
    ensures Get(p, k, env).serial == p.serial
  {
    hide FirstUsable;
    var s := p.IdleAt(k);
    var n := FirstUsable(p, s, env);
    if n < |s| { assert IdleFor(p, k, s[n]) && Alive(p, s[n], env); }
  }

  /** A call takes the first connection that is alive; the ones before it are dropped. */
  lemma FirstAliveIsReused(p: Pool, k: Key, env: Env, n: nat)
    requires Inv(p) && n < |p.IdleAt(k)| && Alive(p, p.IdleAt(k)[n], env)
    requires forall i :: 0 <= i < n ==> !Alive(p, p.IdleAt(k)[i], env)
    ensures var q := Step(p, DoConnect(k), env);
      && q.held == p.held + {p.IdleAt(k)[n].conn} && q.IdleAt(k) == p.IdleAt(k)[n + 1..] && q.waiting == p.waiting
      && forall x :: x != k ==> q.IdleAt(x) == p.IdleAt(x)
  {
    hide Inv;
    FirstIs(p, p.IdleAt(k), env, n);
  }

  lemma UsableIsAlive(p: Pool, i: Idle, env: Env)
    ensures Usable(p, i, env) <==> Alive(p, i, env)
  {
  }

  lemma FirstIs(p: Pool, s: seq<Idle>, env: Env, n: nat)
    requires n < |s| && Alive(p, s[n], env) && forall i :: 0 <= i < n ==> !Alive(p, s[i], env)
    ensures FirstUsable(p, s, env) == n
  {
    var f := FirstUsable(p, s, env);
    if f < n { UsableIsAlive(p, s[f], env); } else { UsableIsAlive(p, s[n], env); }
  }

  lemma CanReuseIff(p: Pool, k: Key, env: Env)
    ensures CanReuse(p, k, env) <==> exists i :: IdleFor(p, k, i) && Alive(p, i, env)
  {
    hide FirstUsable;
    var s := p.IdleAt(k);
    var f := FirstUsable(p, s, env);
    if f < |s| { assert IdleFor(p, k, s[f]) && Alive(p, s[f], env); }
    if i :| IdleFor(p, k, i) && Alive(p, i, env) {
      var j :| 0 <= j < |s| && s[j] == i;
      assert Usable(p, s[j], env);
    }
  }

  lemma GetLeaves(p: Pool, k: Key, env: Env)
    ensures Get(p, k, env).waiting == p.waiting && Get(p, k, env).serial == p.serial
    ensures Get(p, k, env).keyOf == p.keyOf
  {
    hide FirstUsable;
  }

  lemma DequeueLeaves(p: Pool, w: Waiter)
    requires w in p.waiting
    ensures var q := Dequeue(p, w);
      q.idle == p.idle && q.held == p.held && q.serial == p.serial && q.keepalive == p.keepalive && q.keyOf == p.keyOf
  {
  }

  /** A call waits exactly if nothing alive is idle for its key and a limit that is set is reached. */
  lemma WaitsIffFull(p: Pool, k: Key, env: Env)
    requires Inv(p)
    ensures Step(p, DoConnect(k), env).waiting != p.waiting <==>
      && (forall i :: IdleFor(p, k, i) ==> !Alive(p, i, env))
      && ((p.limit > 0 && |p.acquired| >= p.limit) || (p.limitPerHost > 0 && |p.Acquired(k)| >= p.limitPerHost))
  {
    hide PerHostBound, Booked, Exclusive, CanReuse, Get, IdleFor, Alive;
    var w := Waiter(p.serial, false);
    assert w !in p.waiting by { assert w in p.waiting ==> Findable(p, w); }
    hide Queued;
    CanReuseIff(p, k, env);
    AttemptAcquires(p, k, env);
    GetLeaves(p, k, env);
  }

  /** A connection that is given back to be kept is the last idle one of its key, as of now; one that is
      to be closed is gone. */
  lemma GivenBack(p: Pool, c: Conn, shouldClose: bool, env: Env)
    requires Inv(p) && Enabled(p, DoRelease(c, shouldClose))
    ensures var q, k := Step(p, DoRelease(c, shouldClose), env), p.keyOf[c];
      if shouldClose || p.forceClose || p.closed then Gone(q, c) && q.idle == p.idle
      else
        && q.IdleAt(k) == p.IdleAt(k) + [Idle(c, env.now)] && c !in q.held
        && forall x :: x != k ==> q.IdleAt(x) == p.IdleAt(x)
  {
    hide PerHostBound, Booked, Queued, Exclusive, Abandon;
    AbandonLeaves(p, c, env.order);
    HeldIsKnown(p, c);
    var q := Step(p, DoRelease(c, shouldClose), env);
    if shouldClose || p.forceClose || p.closed {
      forall k, i | IdleFor(q, k, i) ensures i.conn != c {
        HeldIsNotIdle(p, c, k);
        assert q.IdleAt(k) == p.IdleAt(k);
      }
    }
  }

  lemma StepKeepsKeys(p: Pool, e: Event, env: Env)
    requires Inv(p) && Enabled(p, e)
    ensures p.keyOf.Keys <= Step(p, e, env).keyOf.Keys
  {
    hide PerHostBound, Booked, Queued, Exclusive, HasSlot, Abandon, Get, Dequeue, CanReuse;
    match e
    case DoConnect(k) => GetLeaves(p, k, env);
    case DoResume(w, fails) =>
      DequeueLeaves(p, w);
      GetLeaves(Dequeue(p, w), p.waiting[w], env);
    case DoAbandon(c) => AbandonLeaves(p, c, env.order);
    case DoRelease(c, _) => AbandonLeaves(p, c, env.order);
    case _ =>
  }

  lemma KnownIsOlder(p: Pool, c: Conn)
    requires Booked(p) && c in p.keyOf
    ensures c.id < p.serial
  {
  }

  lemma StepKeepsGone(p: Pool, e: Event, env: Env, c: Conn)
    requires Inv(p) && Enabled(p, e) && Gone(p, c)
    ensures Gone(Step(p, e, env), c)
  {
    hide PerHostBound, Booked, Queued, Exclusive, Step, IdleFor;
    KnownIsOlder(p, c);
    StepKeepsKeys(p, e, env);
    var q := Step(p, e, env);
    if c in q.held { OnlyAliveAreReused(p, e, env, c); }
    forall k, i | IdleFor(q, k, i) ensures i.conn != c {
      if !IdleFor(p, k, i) { OnlyReleaseAddsIdle(p, e, env, k, i); }
    }
  }

  lemma {:induction false} RunKeepsGone(p: Pool, acts: seq<Act>, c: Conn)
    requires Inv(p) && Legal(p, acts) && Gone(p, c)
    ensures Gone(Run(p, acts), c)
    decreases |acts|
  {
    hide Inv, Gone;
    if acts != [] {
      StepKeeps(p, acts[0].event, acts[0].env);
      StepKeepsGone(p, acts[0].event, acts[0].env, c);
      RunKeepsGone(Step(p, acts[0].event, acts[0].env), acts[1..], c);
    }
  }

  /** A connection that had to be closed is never idle again, nor held by anyone. */
  lemma ClosedStaysGone(p: Pool, c: Conn, shouldClose: bool, env: Env, acts: seq<Act>)
    requires Inv(p) && Enabled(p, DoRelease(c, shouldClose)) && (shouldClose || p.forceClose)
    requires Legal(Step(p, DoRelease(c, shouldClose), env), acts)
    ensures var q := Run(Step(p, DoRelease(c, shouldClose), env), acts);
      c !in q.held && forall k, i :: IdleFor(q, k, i) ==> i.conn != c
  {
    hide Inv, Step, IdleFor;
    GivenBack(p, c, shouldClose, env);
    StepKeeps(p, DoRelease(c, shouldClose), env);
    RunKeepsGone(Step(p, DoRelease(c, shouldClose), env), acts, c);
  }

  // ---- clean-up and close ------------------------------------------------------------------------

  ghost predicate Subsequence(t: seq<Idle>, s: seq<Idle>)
    decreases |s|
  {
    t == [] || (s != [] && ((t[0] == s[0] && Subsequence(t[1..], s[1..])) || Subsequence(t, s[1..])))
  }

  lemma {:induction false} FilterIsInOrder(p: Pool, s: seq<Idle>, env: Env)
    ensures Subsequence(OnlyUsable(p, s, env), s)
    ensures forall i :: i in OnlyUsable(p, s, env) <==> i in s && Alive(p, i, env)
  {
    hide Usable, Alive;
    if s != [] {
      var rest := s[1..];
      FilterIsInOrder(p, rest, env);
      UsableIsAlive(p, s[0], env);
      var t, u := OnlyUsable(p, s, env), OnlyUsable(p, rest, env);
      assert s == [s[0]] + rest && t == (if Usable(p, s[0], env) then [s[0]] else []) + u;
      if Usable(p, s[0], env) { assert t[0] == s[0] && t[1..] == u; } else { assert t == u; }
    }
  }

  /** A clean-up drops exactly the idle connections that are no longer alive, and keeps the order of the
      others. */
  lemma CleanupDropsTheDead(p: Pool, env: Env, k: Key)
    requires Inv(p)
    ensures var q := Step(p, DoCleanup, env);
      && (forall i :: IdleFor(q, k, i) <==> IdleFor(p, k, i) && Alive(p, i, env))
      && Subsequence(q.IdleAt(k), p.IdleAt(k)) && q.held == p.held && q.acquired == p.acquired
  {
    hide Inv;
    FilterIsInOrder(p, p.IdleAt(k), env);
  }

  /** When the connector is closed nothing is idle or booked, and no call waits for a future that nobody
      will finish. */
  lemma CloseLeavesNothing(p: Pool, env: Env)
    requires Inv(p) && !p.closed
    ensures var q := Step(p, DoClose, env);
      q.closed && q.idle == map[] && q.acquired == {} && forall w :: w in q.waiting ==> w in q.woken || w in q.cancelled
  {
    hide PerHostBound, Booked, Exclusive, Step;
    var q := Step(p, DoClose, env);
    StepKeeps(p, DoClose, env);
    ClosedParts(p, env);
    forall w | w in q.waiting ensures w in q.woken || w in q.cancelled { assert Findable(q, w); }
  }

  lemma ClosedParts(p: Pool, env: Env)
    requires !p.closed
    ensures var q := Step(p, DoClose, env);
      q.closed && q.idle == map[] && q.acquired == {} && forall k :: q.Queue(k) == []
  {
  }
}

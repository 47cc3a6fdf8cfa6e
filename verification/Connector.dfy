/** `BaseConnector` (connector.py): the methods that change the pool in place, each proved to be the
    step of the state machine that `ConnectionPool` reasons about. */
module Connector {
  import opened ByteStrings
  import P = ConnectionPool
  import opened ConnectionPool

  /** Where a `connect` call stands when it suspends or returns. */
  datatype Outcome = Reused(conn: Conn) | Making(placeholder: Conn) | Waits(waiter: Waiter) | Failed

  class BaseConnector {
    const limit: nat
    const limitPerHost: nat
    const keepaliveTimeout: int
    const forceClose: bool
    var conns: map<Key, seq<Idle>>
    var acquired: set<Conn>
    var acquiredPerHost: map<Key, set<Conn>>
    var waiters: map<Key, seq<Waiter>>
    var closed: bool
    // the event loop: futures with a result, cancelled futures, and the next new object
    var woken: set<Waiter>
    var cancelled: set<Waiter>
    var serial: nat
    // what the callers hold
    ghost var waiting: map<Waiter, Key>
    ghost var held: set<Conn>
    ghost var keyOf: map<Conn, Key>

    ghost function State(): Pool
      reads this
    {
      Pool(limit, limitPerHost, keepaliveTimeout, forceClose, conns, acquired, acquiredPerHost, waiters, closed,
        woken, cancelled, waiting, held, keyOf, serial)
    }

    constructor (limit: nat, limitPerHost: nat, keepaliveTimeout: int, forceClose: bool)
      ensures State() == Empty(limit, limitPerHost, keepaliveTimeout, forceClose) && Inv(State())
    {
      this.limit, this.limitPerHost, this.keepaliveTimeout, this.forceClose :=
        limit, limitPerHost, keepaliveTimeout, forceClose;
      conns, acquired, acquiredPerHost, waiters, closed := map[], {}, map[], map[], false;
      woken, cancelled, serial, waiting, held, keyOf := {}, {}, 0, map[], {}, map[];
      new;
      EmptyInv(limit, limitPerHost, keepaliveTimeout, forceClose);
    }

    /** `_available_connections`: at least 1 exactly if one more connection keeps every limit that is
        set; with a total limit it is how many more would, without one it is never more than 1. */
    method AvailableConnections(key: Key) returns (n: int)
      ensures n >= 1 <==> HasSlot(State(), key)
      ensures limit > 0 ==> forall m: nat :: m >= 1 ==> (Fits(State(), key, m) <==> m <= n)
      ensures limit == 0 ==> n <= 1
    {
      var totalRemain := 1;
      if limit > 0 {
        totalRemain := limit - |acquired|;
        if totalRemain <= 0 { return totalRemain; }
      }
      if limitPerHost > 0 {
        var hostRemain: int := limitPerHost;
        if key in acquiredPerHost { hostRemain := hostRemain - |acquiredPerHost[key]|; }
        if totalRemain > hostRemain { return hostRemain; }
      }
      return totalRemain;
    }

    /** The connection is marked as acquired. */
    method Acquire(key: Key, conn: Conn)
      modifies this`acquired, this`acquiredPerHost, this`held
      ensures State() == Hold(old(State()), key, conn)
    {
      acquired := acquired + {conn};
      if limitPerHost > 0 {
        var s := if key in acquiredPerHost then acquiredPerHost[key] else {};
        acquiredPerHost := acquiredPerHost[key := s + {conn}];
      }
      held := held + {conn};
    }

    /** The loop of `_get`: idle connections are taken off the queue until one is usable. */
    method PopUsable(key: Key, env: Env) returns (conn: Option<Conn>)
      modifies this`conns
      ensures var s := old(State()).IdleAt(key); var n := FirstUsable(old(State()), s, env);
        && (conn.Some? <==> n < |s|) && (conn.Some? ==> conn.value == s[n].conn)
        && State() == SetIdle(old(State()), key, if n < |s| then s[n + 1..] else [])
    {
      hide FirstUsable;
      var queue := if key in conns then conns[key] else [];
      ghost var all, i := queue, 0;
      while queue != []
        invariant i + |queue| == |all| && queue == all[i..] && (key in conns || all == [])
        invariant conns == if i == 0 then old(conns) else old(conns)[key := queue]
        invariant forall j :: 0 <= j < i ==> !Usable(old(State()), all[j], env)
        decreases |queue|
      {
        var idle := queue[0];
        queue := queue[1..];
        conns := conns[key := queue];
        if idle.conn in env.connected && env.now - idle.since <= keepaliveTimeout {
          FirstUsableIs(old(State()), all, env, i);
          if queue == [] { conns := conns - {key}; }
          assert conns == if queue == [] then old(conns) - {key} else old(conns)[key := queue];
          return Some(idle.conn);
        }
        i := i + 1;
      }
      FirstUsableIs(old(State()), all, env, i);
      if key in conns { conns := conns - {key}; }
      assert conns == old(conns) - {key};
      return None;
    }

    /** `_get` */
    method Get(key: Key, env: Env) returns (conn: Option<Conn>)
      modifies this`conns, this`acquired, this`acquiredPerHost, this`held
      ensures State() == P.Get(old(State()), key, env)
      ensures conn.Some? <==> CanReuse(old(State()), key, env)
      ensures conn.Some? ==>
        var s := old(State()).IdleAt(key);
        conn.value == s[FirstUsable(old(State()), s, env)].conn
    {
      hide FirstUsable, SetIdle, Hold;
      conn := PopUsable(key, env);
      if conn.Some? { Acquire(key, conn.value); }
    }

    /** The placeholder that `connect` takes while the connection is being made. */
    method Begin(key: Key) returns (placeholder: Conn)
      modifies this`acquired, this`acquiredPerHost, this`held, this`keyOf, this`serial
      ensures State() == P.Begin(old(State()), key) && placeholder == Placeholder(old(serial))
    {
      placeholder := Placeholder(serial);
      serial := serial + 1;
      Acquire(key, placeholder);
      keyOf := keyOf[placeholder := key];
    }

    /** A future is created and put into the queue of its key. */
    method Enqueue(key: Key, retry: bool) returns (w: Waiter)
      modifies this`waiters, this`waiting, this`serial
      ensures State() == P.Enqueue(old(State()), key, retry) && w == Waiter(old(serial), retry)
    {
      w := Waiter(serial, retry);
      serial := serial + 1;
      var queue := if key in waiters then waiters[key] else [];
      waiters := waiters[key := queue + [w]];
      // move_to_end(last=False)
      if retry { waiters := waiters[key := [w] + queue]; }
      assert waiters == old(waiters)[key := if retry then [w] + queue else queue + [w]];
      waiting := waiting[w := key];
    }

    /** `connect`, until it returns or suspends. */
    method Connect(key: Key, env: Env) returns (r: Outcome)
      requires Inv(State())
      modifies this
      ensures State() == P.Connect(old(State()), key, env) && Inv(State())
      ensures r.Reused? <==> CanReuse(old(State()), key, env)
      ensures r.Reused? ==> r.conn !in old(held) && r.conn in held
      ensures r.Making? ==> r.placeholder == Placeholder(old(serial)) && (limit > 0 ==> |acquired| <= limit)
      ensures !r.Failed?
    {
      hide Inv, CanReuse, HasSlot, P.Get, P.Enqueue, P.Begin;
      StepKeeps(State(), DoConnect(key), env);
      var conn := Get(key, env);
      if conn.Some? {
        ReusedIsNew(old(State()), key, env);
        return Reused(conn.value);
      }
      var available := AvailableConnections(key);
      if available <= 0 {
        var w := Enqueue(key, false);
        return Waits(w);
      }
      AttemptAcquires(old(State()), key, env);
      CreationWithinLimit(old(State()), DoConnect(key), env);
      var placeholder := Begin(key);
      return Making(placeholder);
    }

    /** The waiter leaves its queue if it is still there. */
    method Leave(w: Waiter, key: Key)
      requires w in waiting && waiting[w] == key
      modifies this`waiters, this`waiting
      ensures State() == Dequeue(old(State()), w)
    {
      hide Without;
      ghost var q := Without(old(State()).Queue(key), w);
      if key in waiters {
        waiters := waiters[key := Without(waiters[key], w)];
        if waiters[key] == [] { waiters := waiters - {key}; }
      } else {
        assert q == [] by { NothingToLeave(w); }
      }
      assert waiters == if q == [] then old(waiters) - {key} else old(waiters)[key := q];
      waiting := waiting - {w};
    }

    /** `_wait_for_available_connection` from the moment its future is finished, and the rest of
        `connect` if there is a slot now. */
    method Resume(w: Waiter, key: Key, fails: bool, env: Env) returns (r: Outcome)
      requires Inv(State()) && w in waiting && waiting[w] == key && Enabled(State(), DoResume(w, fails))
      modifies this
      ensures State() == P.Resume(old(State()), w, fails, env) && Inv(State())
      ensures r.Failed? <==> fails
      ensures r.Waits? ==> r.waiter.retry && key in waiters && waiters[key] != [] && waiters[key][0] == r.waiter
    {
      hide Inv, CanReuse, HasSlot, P.Get, P.Begin, Dequeue, P.Enqueue;
      StepKeeps(State(), DoResume(w, fails), env);
      Leave(w, key);
      if fails { return Failed; }
      var available := AvailableConnections(key);
      if available <= 0 {
        RetryIsFirst(State(), key);
        var again := Enqueue(key, true);
        return Waits(again);
      }
      var conn := Get(key, env);
      if conn.Some? { return Reused(conn.value); }
      var placeholder := Begin(key);
      return Making(placeholder);
    }

    /** `_create_connection` returned: the placeholder gives way to the connection. */
    method Created(placeholder: Conn, key: Key) returns (conn: Option<Conn>)
      requires Inv(State()) && Enabled(State(), DoCreated(placeholder)) && keyOf[placeholder] == key
      modifies this
      ensures State() == P.Created(old(State()), placeholder) && Inv(State())
      ensures conn.None? <==> closed
    {
      hide Inv, P.Created;
      CreatedAgain(State(), placeholder);
      StepKeeps(State(), DoCreated(placeholder), Env(0, {}, []));
      held := held - {placeholder};
      if closed { return None; }
      var proto := Replace(placeholder, key);
      return Some(proto);
    }

    method Swap(key: Key, placeholder: Conn, proto: Conn)
      modifies this`acquired, this`acquiredPerHost
      ensures acquired == old(acquired) - {placeholder} + {proto}
      ensures acquiredPerHost ==
        if limitPerHost > 0 then old(acquiredPerHost)[key := old(State()).Acquired(key) - {placeholder} + {proto}]
        else old(acquiredPerHost)
    {
      acquired := acquired - {placeholder} + {proto};
      if limitPerHost > 0 {
        var perHost := if key in acquiredPerHost then acquiredPerHost[key] else {};
        acquiredPerHost := acquiredPerHost[key := perHost - {placeholder} + {proto}];
      }
    }

    method Replace(placeholder: Conn, key: Key) returns (proto: Conn)
      requires !closed && placeholder in keyOf && keyOf[placeholder] == key && placeholder !in held
      modifies this`acquired, this`acquiredPerHost, this`held, this`keyOf, this`serial
      ensures State() == P.Created(old(State()), placeholder)
    {
      proto := Protocol(serial);
      serial := serial + 1;
      Swap(key, placeholder, proto);
      held, keyOf := held + {proto}, keyOf[proto := key];
      assert old(held) - {placeholder} == old(held);
    }

    /** `_release_waiter`; `queues` is the shuffled list of keys. */
    method ReleaseWaiter(queues: seq<Key>)
      modifies this`waiters, this`woken
      ensures State() == P.ReleaseWaiter(old(State()), queues)
    {
      hide HasSlot, FirstUndone;
      ghost var start := State();
      for i := 0 to |queues|
        invariant P.ReleaseWaiter(State(), queues[i..]) == P.ReleaseWaiter(start, queues)
      {
        var key := queues[i];
        assert queues[i..][0] == key && queues[i..][1..] == queues[i + 1..];
        var available := AvailableConnections(key);
        if available >= 1 {
          ghost var before := State();
          var found := WakeFirst(key);
          if found { return; }
          assert State() == Skip(before, key);
        }
      }
    }

    /** The inner loop: finished waiters are dropped, the first unfinished one is completed. */
    method WakeFirst(key: Key) returns (found: bool)
      modifies this`waiters, this`woken
      ensures var p := old(State()); found == (FirstUndone(p.Queue(key), p.Done()) < |p.Queue(key)|)
      ensures var p := old(State()); var n := FirstUndone(p.Queue(key), p.Done());
        found ==> State() == p.(queues := p.queues[key := p.Queue(key)[n + 1..]], woken := p.woken + {p.Queue(key)[n]})
      ensures !found ==> State() == Skip(old(State()), key)
    {
      hide FirstUndone;
      var queue := if key in waiters then waiters[key] else [];
      ghost var all, i, done := queue, 0, woken + cancelled;
      waiters := waiters[key := queue];
      while queue != []
        invariant i + |queue| == |all| && queue == all[i..] && waiters == old(waiters)[key := queue] &&
          woken == old(woken)
        invariant forall j :: 0 <= j < i ==> all[j] in done
        decreases |queue|
      {
        var waiter := queue[0];
        queue := queue[1..];
        waiters := waiters[key := queue];
        if waiter !in woken && waiter !in cancelled {
          FirstUndoneIs(all, done, i);
          woken := woken + {waiter};
          return true;
        }
        i := i + 1;
      }
      FirstUndoneIs(all, done, i);
      return false;
    }

    /** `_release_acquired` */
    method ReleaseAcquired(key: Key, conn: Conn, queues: seq<Key>)
      requires conn in keyOf && keyOf[conn] == key
      modifies this`acquired, this`acquiredPerHost, this`waiters, this`woken
      ensures State() == P.ReleaseAcquired(old(State()), conn, queues)
    {
      hide P.ReleaseWaiter;
      if closed { return; }
      acquired := acquired - {conn};
      if limitPerHost > 0 && key in acquiredPerHost && acquiredPerHost[key] != {} {
        acquiredPerHost := acquiredPerHost[key := acquiredPerHost[key] - {conn}];
        if acquiredPerHost[key] == {} { acquiredPerHost := acquiredPerHost - {key}; }
      }
      assert State() == Unbook(old(State()), conn) by {
        var s := old(State()).Acquired(key);
        assert acquiredPerHost == if limitPerHost == 0 || s == {} then old(acquiredPerHost)
          else if s - {conn} == {} then old(acquiredPerHost) - {key} else old(acquiredPerHost)[key := s - {conn}];
      }
      ReleaseWaiter(queues);
    }

    /** The holder gives up a placeholder or a connection that is not to be pooled. */
    method Abandon(key: Key, conn: Conn, queues: seq<Key>)
      requires Inv(State()) && Enabled(State(), DoAbandon(conn)) && keyOf[conn] == key
      modifies this
      ensures State() == P.Abandon(old(State()), conn, queues) && Inv(State())
    {
      hide Inv, P.ReleaseAcquired;
      StepKeeps(State(), DoAbandon(conn), Env(0, {}, queues));
      held := held - {conn};
      ReleaseAcquired(key, conn, queues);
    }

    /** `_release`; whoever gives the connection back forgets it. */
    method Release(key: Key, conn: Conn, shouldClose: bool, env: Env)
      requires Inv(State()) && Enabled(State(), DoRelease(conn, shouldClose)) && keyOf[conn] == key
      modifies this
      ensures State() == P.Release(old(State()), conn, shouldClose, env) && Inv(State())
    {
      hide Inv, P.Abandon;
      StepKeeps(State(), DoRelease(conn, shouldClose), env);
      AbandonKeepsKeys(State(), conn, env.order);
      if closed {
        held := held - {conn};
        assert State() == P.Abandon(old(State()), conn, env.order) by { ClosedAbandon(old(State()), conn, env.order); }
        return;
      }
      Abandon(key, conn, env.order);
      if forceClose || shouldClose { return; }
      var queue := if key in conns then conns[key] else [];
      conns := conns[key := queue + [Idle(conn, env.now)]];
    }

    /** `_cleanup`: idle connections that can no longer be used are dropped. */
    method Cleanup(env: Env)
      requires Inv(State())
      modifies this`conns
      ensures State() == P.Cleanup(old(State()), env) && Inv(State())
    {
      hide Inv, P.Cleanup;
      StepKeeps(State(), DoCleanup, env);
      conns := AllAlive(env);
    }

    method AllAlive(env: Env) returns (connections: map<Key, seq<Idle>>)
      ensures State().(idle := connections) == P.Cleanup(State(), env)
    {
      hide OnlyUsable, P.Cleanup;
      connections := map[];
      var keys := conns.Keys;
      while keys != {}
        invariant keys <= conns.Keys
        invariant forall k :: k in connections <==> k in conns && k !in keys && OnlyUsable(State(), conns[k], env) != []
        invariant forall k :: k in connections ==> connections[k] == OnlyUsable(State(), conns[k], env)
        decreases |keys|
      {
        var key :| key in keys;
        keys := keys - {key};
        var alive := Alive(conns[key], env);
        if alive != [] { connections := connections[key := alive]; }
      }
      CleanupIs(State(), env, connections);
    }

    method Alive(queue: seq<Idle>, env: Env) returns (alive: seq<Idle>)
      ensures alive == OnlyUsable(State(), queue, env)
    {
      var deadline := env.now - keepaliveTimeout;
      alive := [];
      for i := 0 to |queue|
        invariant alive + OnlyUsable(State(), queue[i..], env) == OnlyUsable(State(), queue, env)
      {
        assert queue[i..][0] == queue[i] && queue[i..][1..] == queue[i + 1..];
        if queue[i].conn in env.connected && queue[i].since - deadline >= 0 { alive := alive + [queue[i]]; }
      }
    }

    /** `_close_immediately` */
    method CloseImmediately()
      requires Inv(State())
      modifies this`closed, this`conns, this`acquired, this`waiters, this`cancelled
      ensures State() == P.Close(old(State())) && Inv(State())
    {
      hide Inv, Unfinished;
      StepKeeps(State(), DoClose, Env(0, {}, []));
      if closed { return; }
      closed := true;
      conns, acquired := map[], {};
      CancelWaiters(old(State()));
      waiters := map[];
    }

    method CancelWaiters(ghost p: Pool)
      requires waiters == p.queues && woken == p.woken && cancelled == p.cancelled
      modifies this`cancelled
      ensures cancelled == p.cancelled + Unfinished(p, p.queues.Keys)
    {
      hide Unfinished;
      NoneUnfinished(p);
      ghost var seen := {};
      var keys := waiters.Keys;
      while keys != {}
        invariant keys + seen == p.queues.Keys && cancelled == p.cancelled + Unfinished(p, seen)
        decreases |keys|
      {
        var key :| key in keys;
        keys := keys - {key};
        CancelAll(key, p, seen);
        seen := seen + {key};
      }
      assert seen == p.queues.Keys;
    }

    /** Each unfinished future of a queue is cancelled. */
    method CancelAll(key: Key, ghost p: Pool, ghost seen: set<Key>)
      requires key in waiters && waiters == p.queues && woken == p.woken &&
        cancelled == p.cancelled + Unfinished(p, seen)
      modifies this`cancelled
      ensures cancelled == p.cancelled + Unfinished(p, seen + {key})
    {
      var queue := waiters[key];
      for i := 0 to |queue|
        invariant cancelled == p.cancelled + Unfinished(p, seen) + (set w | w in queue[..i] && w !in p.Done())
      {
        assert queue[..i + 1] == queue[..i] + [queue[i]];
        Cancel(queue[i]);
      }
      assert queue[..|queue|] == queue;
    }

    /** `Future.cancel()`, which does nothing to a finished future. */
    method Cancel(w: Waiter)
      modifies this`cancelled
      ensures cancelled == if w in woken then old(cancelled) else old(cancelled) + {w}
    {
      if w !in woken { cancelled := cancelled + {w}; }
    }
  }

  lemma NoneUnfinished(p: Pool)
    ensures Unfinished(p, {}) == {}
  {
  }

  lemma CleanupIs(p: Pool, env: Env, m: map<Key, seq<Idle>>)
    requires forall k :: k in m <==> k in p.idle && OnlyUsable(p, p.idle[k], env) != []
    requires forall k :: k in m ==> m[k] == OnlyUsable(p, p.idle[k], env)
    ensures p.(idle := m) == P.Cleanup(p, env)
  {
    hide OnlyUsable;
  }

  lemma RetryIsFirst(p: Pool, key: Key)
    ensures var w, q := Waiter(p.serial, true), P.Enqueue(p, key, true);
      key in q.queues && q.queues[key] != [] && q.queues[key][0] == w
  {
  }

  lemma NothingToLeave(w: Waiter)
    ensures Without([], w) == []
  {
  }

  /** That the caller forgets the placeholder makes no difference to the rest of the step. */
  lemma CreatedAgain(p: Pool, c: Conn)
    requires c in p.keyOf
    ensures P.Created(p.(held := p.held - {c}), c) == P.Created(p, c)
    ensures p.closed ==> P.Created(p, c) == p.(held := p.held - {c})
  {
    assert p.held - {c} - {c} == p.held - {c};
  }

  lemma ReusedIsNew(p: Pool, key: Key, env: Env)
    requires Inv(p) && CanReuse(p, key, env)
    ensures var c := p.IdleAt(key)[FirstUsable(p, p.IdleAt(key), env)].conn;
      c !in p.held && P.Get(p, key, env).held == p.held + {c}
  {
    ReuseKeeps(p, key, env);
  }

  lemma AbandonKeepsKeys(p: Pool, c: Conn, order: seq<Key>)
    requires c in p.keyOf
    ensures P.Abandon(p, c, order).keyOf == p.keyOf && P.Abandon(p, c, order).closed == p.closed
  {
    hide P.ReleaseWaiter, Wakes, Shrinks, Ready;
    if !p.closed { WakesExactlyOne(Unbook(p.(held := p.held - {c}), c), order); }
  }

  lemma ClosedAbandon(p: Pool, c: Conn, order: seq<Key>)
    requires p.closed && c in p.keyOf
    ensures P.Abandon(p, c, order) == p.(held := p.held - {c})
  {
  }

  lemma {:induction false} FirstUndoneIs(q: seq<Waiter>, done: set<Waiter>, i: nat)
    requires i <= |q| && (i < |q| ==> q[i] !in done) && forall j :: 0 <= j < i ==> q[j] in done
    ensures FirstUndone(q, done) == i
  {
  }

  lemma {:induction false} FirstUsableIs(p: Pool, s: seq<Idle>, env: Env, i: nat)
    requires i <= |s| && (i < |s| ==> Usable(p, s[i], env)) && forall j :: 0 <= j < i ==> !Usable(p, s[j], env)
    ensures FirstUsable(p, s, env) == i
  {
  }
}

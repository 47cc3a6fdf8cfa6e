/** The connection pool (connector.py) as a state machine. Each step is one run of a `connect` call,
    of the holder of a connection or of the event loop between two suspension points; any number of
    calls interleave. */
module ConnectionPool {
  datatype Key = Key(host: string, port: nat, isSsl: bool)

  /** A connection, or the placeholder that stands for one being made. */
  datatype Conn = Placeholder(id: nat) | Protocol(id: nat)

  /** The future a `connect` call waits for; a call that has waited before is a retry. */
  datatype Waiter = Waiter(id: nat, retry: bool)

  datatype Idle = Idle(conn: Conn, since: int)

  datatype Pool = Pool(
    limit: nat,
    limitPerHost: nat,
    keepalive: int,
    forceClose: bool,
    idle: map<Key, seq<Idle>>, // _conns
    acquired: set<Conn>,
    perHost: map<Key, set<Conn>>, // _acquired_per_host
    queues: map<Key, seq<Waiter>>, // _waiters
    closed: bool,
    // outside the connector
    woken: set<Waiter>,
    cancelled: set<Waiter>,
    waiting: map<Waiter, Key>, // calls suspended on their future
    held: set<Conn>, // connections with a holder, and those being made
    keyOf: map<Conn, Key>, // what each connection was made for
    serial: nat)
  {
    function Acquired(k: Key): set<Conn> { if k in perHost then perHost[k] else {} }

    function IdleAt(k: Key): seq<Idle> { if k in idle then idle[k] else [] }

    function Queue(k: Key): seq<Waiter> { if k in queues then queues[k] else [] }

    function Done(): set<Waiter> { woken + cancelled }
  }

  function Empty(limit: nat, limitPerHost: nat, keepalive: int, forceClose: bool): Pool {
    Pool(limit, limitPerHost, keepalive, forceClose, map[], {}, map[], map[], false, {}, {}, map[], {}, map[], 0)
  }

  /** What a step finds outside: the time, the connections still connected and the order in which
      `random.shuffle` put the queues. */
  datatype Env = Env(now: int, connected: set<Conn>, order: seq<Key>)

  // ---- the operations ---------------------------------------------------------------------------

  /** With `n` more connections for a key, both limits that are set are still kept. */
  predicate Fits(p: Pool, k: Key, n: nat) {
    && (p.limit > 0 ==> |p.acquired| + n <= p.limit)
    && (p.limitPerHost > 0 ==> |p.Acquired(k)| + n <= p.limitPerHost)
  }

  /** There is a free slot for the key. */
  predicate HasSlot(p: Pool, k: Key) { Fits(p, k, 1) }

  predicate Usable(p: Pool, i: Idle, env: Env) { i.conn in env.connected && env.now - i.since <= p.keepalive }

  /** The position of the first usable idle connection. */
  function FirstUsable(p: Pool, s: seq<Idle>, env: Env): (n: nat)
    ensures n <= |s| && (n < |s| ==> Usable(p, s[n], env))
    ensures forall i :: 0 <= i < n ==> !Usable(p, s[i], env)
  {
    if s == [] || Usable(p, s[0], env) then 0 else 1 + FirstUsable(p, s[1..], env)
  }

  function Hold(p: Pool, k: Key, c: Conn): Pool {
    p.(acquired := p.acquired + {c},
       perHost := if p.limitPerHost > 0 then p.perHost[k := p.Acquired(k) + {c}] else p.perHost,
       held := p.held + {c})
  }

  function SetIdle(p: Pool, k: Key, s: seq<Idle>): Pool {
    p.(idle := if s == [] then p.idle - {k} else p.idle[k := s])
  }

  predicate CanReuse(p: Pool, k: Key, env: Env) { FirstUsable(p, p.IdleAt(k), env) < |p.IdleAt(k)| }

  /** `_get`: the first usable idle connection, those before it being closed. */
  function Get(p: Pool, k: Key, env: Env): Pool {
    var s := p.IdleAt(k);
    var n := FirstUsable(p, s, env);
    if n < |s| then Hold(SetIdle(p, k, s[n + 1..]), k, s[n].conn) else SetIdle(p, k, [])
  }

  /** The placeholder taken while a connection is being made. */
  function Begin(p: Pool, k: Key): Pool {
    var c := Placeholder(p.serial);
    Hold(p, k, c).(keyOf := p.keyOf[c := k], serial := p.serial + 1)
  }

  /** A new waiter: at the end of its queue, a retry at the front. */
  function Enqueue(p: Pool, k: Key, retry: bool): Pool {
    var w := Waiter(p.serial, retry);
    p.(queues := p.queues[k := if retry then [w] + p.Queue(k) else p.Queue(k) + [w]],
       waiting := p.waiting[w := k],
       serial := p.serial + 1)
  }

  function Without(q: seq<Waiter>, w: Waiter): seq<Waiter> {
    if q == [] then [] else if q[0] == w then q[1..] else [q[0]] + Without(q[1..], w)
  }

  /** The `finally` clause of the wait: the waiter leaves its queue if it is still there. */
  function Dequeue(p: Pool, w: Waiter): Pool
    requires w in p.waiting
  {
    var k := p.waiting[w];
    var q := Without(p.Queue(k), w);
    p.(queues := if q == [] then p.queues - {k} else p.queues[k := q], waiting := p.waiting - {w})
  }

  /** `connect`, up to its first suspension. */
  function Connect(p: Pool, k: Key, env: Env): Pool {
    var q := Get(p, k, env);
    if CanReuse(p, k, env) then q
    else if !HasSlot(q, k) then Enqueue(q, k, false)
    else Begin(q, k)
  }

  /** A waiting call runs on: it may have been cancelled; if there is still no slot it waits again. */
  function Resume(p: Pool, w: Waiter, fails: bool, env: Env): Pool
    requires w in p.waiting
  {
    var k, q := p.waiting[w], Dequeue(p, w);
    if fails then q
    else if !HasSlot(q, k) then Enqueue(q, k, true)
    else
      var r := Get(q, k, env);
      if CanReuse(q, k, env) then r else Begin(r, k)
  }

  function FirstUndone(q: seq<Waiter>, done: set<Waiter>): (n: nat)
    ensures n <= |q| && (n < |q| ==> q[n] !in done)
    ensures forall i :: 0 <= i < n ==> q[i] in done
  {
    if q == [] || q[0] !in done then 0 else 1 + FirstUndone(q[1..], done)
  }

  function Skip(p: Pool, k: Key): Pool { p.(queues := p.queues[k := []]) }

  /** `_release_waiter`, from some point of the shuffled order on. */
  function ReleaseWaiter(p: Pool, order: seq<Key>): Pool
    decreases |order|
  {
    if order == [] then p
    else
      var k := order[0];
      if !HasSlot(p, k) then ReleaseWaiter(p, order[1..])
      else
        var q := p.Queue(k);
        var n := FirstUndone(q, p.Done());
        if n < |q| then p.(queues := p.queues[k := q[n + 1..]], woken := p.woken + {q[n]})
        else ReleaseWaiter(Skip(p, k), order[1..])
  }

  function Unbook(p: Pool, c: Conn): Pool
    requires c in p.keyOf
  {
    var k := p.keyOf[c];
    var rest := p.Acquired(k) - {c};
    p.(acquired := p.acquired - {c},
       perHost := if p.limitPerHost == 0 || p.Acquired(k) == {} then p.perHost
         else if rest == {} then p.perHost - {k} else p.perHost[k := rest])
  }

  /** `_release_acquired` */
  function ReleaseAcquired(p: Pool, c: Conn, order: seq<Key>): Pool
    requires c in p.keyOf
  {
    if p.closed then p else ReleaseWaiter(Unbook(p, c), order)
  }

  /** The end of a creation: the placeholder gives way to the connection, unless the connector was
      closed meanwhile. */
  function Created(p: Pool, c: Conn): Pool
    requires c in p.keyOf
  {
    var q := p.(held := p.held - {c});
    if p.closed then q
    else
      var k, made := p.keyOf[c], Protocol(p.serial);
      q.(acquired := p.acquired - {c} + {made},
         perHost := if p.limitPerHost > 0 then p.perHost[k := p.Acquired(k) - {c} + {made}] else p.perHost,
         held := q.held + {made}, keyOf := p.keyOf[made := k], serial := p.serial + 1)
  }

  /** A creation, or the trace callback of a reuse, failed. */
  function Abandon(p: Pool, c: Conn, order: seq<Key>): Pool
    requires c in p.keyOf
  {
    ReleaseAcquired(p.(held := p.held - {c}), c, order)
  }

  /** `_release`: back to the pool, or closed. */
  function Release(p: Pool, c: Conn, shouldClose: bool, env: Env): Pool
    requires c in p.keyOf
  {
    var q := Abandon(p, c, env.order);
    if p.closed || p.forceClose || shouldClose then q
    else q.(idle := q.idle[p.keyOf[c] := q.IdleAt(p.keyOf[c]) + [Idle(c, env.now)]])
  }

  function OnlyUsable(p: Pool, s: seq<Idle>, env: Env): seq<Idle> {
    if s == [] then []
    else (if Usable(p, s[0], env) then [s[0]] else []) + OnlyUsable(p, s[1..], env)
  }

  /** `_cleanup` */
  function Cleanup(p: Pool, env: Env): Pool {
    p.(idle := map k | k in p.idle && OnlyUsable(p, p.idle[k], env) != [] :: OnlyUsable(p, p.idle[k], env))
  }

  /** The unfinished futures in the queues of `keys`. */
  function Unfinished(p: Pool, keys: set<Key>): set<Waiter> {
    set k, w | k in keys && k in p.queues && w in p.queues[k] && w !in p.Done() :: w
  }

  /** `_close_immediately`: the per-host sets are not cleared. */
  function Close(p: Pool): Pool {
    if p.closed then p
    else
      p.(closed := true, idle := map[], acquired := {}, queues := map[],
         cancelled := p.cancelled + Unfinished(p, p.queues.Keys))
  }

  datatype Event =
    | DoConnect(k: Key)
    | DoResume(w: Waiter, fails: bool)
    | DoCancel(w: Waiter)
    | DoCreated(c: Conn)
    | DoAbandon(c: Conn)
    | DoRelease(c: Conn, shouldClose: bool)
    | DoCleanup
    | DoClose

  /** Only a future with a result lets its call go on, but a call may fail at any time; only a
      holder gives a connection back. */
  predicate Enabled(p: Pool, e: Event) {
    match e
    case DoResume(w, fails) => w in p.waiting && (fails || (w in p.woken && w !in p.cancelled))
    case DoCancel(w) => w in p.waiting && w !in p.Done()
    case DoCreated(c) => c in p.held && c in p.keyOf && c.Placeholder?
    case DoAbandon(c) => c in p.held && c in p.keyOf
    case DoRelease(c, _) => c in p.held && c in p.keyOf && c.Protocol?
    case _ => true
  }

  ghost predicate IsShuffle(order: seq<Key>, keys: set<Key>) {
    (forall k :: k in order <==> k in keys) && forall i, j :: 0 <= i < j < |order| ==> order[i] != order[j]
  }

  function Step(p: Pool, e: Event, env: Env): Pool
    requires Enabled(p, e)
  {
    match e
    case DoConnect(k) => Connect(p, k, env)
    case DoResume(w, fails) => Resume(p, w, fails, env)
    case DoCancel(w) => p.(cancelled := p.cancelled + {w})
    case DoCreated(c) => Created(p, c)
    case DoAbandon(c) => Abandon(p, c, env.order)
    case DoRelease(c, shouldClose) => Release(p, c, shouldClose, env)
    case DoCleanup => Cleanup(p, env)
    case DoClose => Close(p)
  }

  // ---- what every step keeps ---------------------------------------------------------------------

  /** The bound: what a host has acquired and what is idle for it. */
  ghost predicate PerHostBound(p: Pool) {
    p.limitPerHost > 0 ==> forall k :: |p.Acquired(k)| + |p.IdleAt(k)| <= p.limitPerHost
  }

  /** The sets of the connector are those of the holders. */
  ghost predicate Booked(p: Pool) {
    && p.held <= p.keyOf.Keys
    && (!p.closed ==> p.acquired == p.held)
    && (!p.closed && p.limitPerHost > 0 ==> forall k, c :: c in p.Acquired(k) <==> c in p.held && p.keyOf[c] == k)
    && forall c :: c in p.keyOf ==> c.id < p.serial
  }

  /** No idle connection has a holder, and none is pooled twice. */
  ghost predicate Exclusive(p: Pool) {
    && (p.closed ==> p.idle == map[])
    && forall k :: k in p.idle ==> OwnIdle(p, k, p.idle[k])
  }

  ghost predicate OwnIdle(p: Pool, k: Key, s: seq<Idle>) {
    && (forall i :: 0 <= i < |s| ==> s[i].conn !in p.held && s[i].conn in p.keyOf && p.keyOf[s[i].conn] == k)
    && forall i, j :: 0 <= i < j < |s| ==> s[i].conn != s[j].conn
  }

  /** Retries, the latest first, then first-time waiters in the order of their arrival. */
  ghost predicate Fair(q: seq<Waiter>) {
    forall i, j :: 0 <= i < j < |q| ==>
      if q[i].retry then !q[j].retry || q[i].id > q[j].id else !q[j].retry && q[i].id < q[j].id
  }

  ghost predicate InOrder(p: Pool, k: Key) {
    Fair(p.Queue(k)) && forall w :: w in p.Queue(k) ==> w in p.waiting && p.waiting[w] == k
  }

  /** The future can be found by whoever frees a slot, unless it is finished. */
  ghost predicate Findable(p: Pool, w: Waiter)
    requires w in p.waiting
  {
    w.id < p.serial && (w in p.Done() || w in p.Queue(p.waiting[w]))
  }

  /** Every queue is in order, and every call whose future is unfinished is in the queue of its key. */
  ghost predicate Queued(p: Pool) {
    (forall k :: InOrder(p, k)) && forall w :: w in p.waiting ==> Findable(p, w)
  }

  ghost predicate Inv(p: Pool) { PerHostBound(p) && Booked(p) && Exclusive(p) && Queued(p) }

  lemma EmptyInv(limit: nat, limitPerHost: nat, keepalive: int, forceClose: bool)
    ensures Inv(Empty(limit, limitPerHost, keepalive, forceClose))
  {
  }

  /** The part of the invariant about connections, and the part about waiters. */
  ghost predicate Conns(p: Pool) { PerHostBound(p) && Booked(p) && Exclusive(p) }

  // ---- connections

  /** Only one host changes. */
  lemma BoundAtOneHost(p: Pool, q: Pool, k: Key)
    requires PerHostBound(p) && q.limitPerHost == p.limitPerHost
    requires forall x :: x != k ==> q.Acquired(x) == p.Acquired(x) && q.IdleAt(x) == p.IdleAt(x)
    requires q.limitPerHost > 0 ==> |q.Acquired(k)| + |q.IdleAt(k)| <= q.limitPerHost
    ensures PerHostBound(q)
  {
  }

  lemma BookedAtOneHost(p: Pool, q: Pool, k: Key)
    requires Booked(p) && q.limitPerHost == p.limitPerHost && q.closed == p.closed && p.keyOf.Keys <= q.keyOf.Keys
    requires q.held <= q.keyOf.Keys && forall c :: c in q.keyOf ==> c.id < q.serial
    requires !q.closed ==> q.acquired == q.held
    requires forall c :: c in p.keyOf ==> q.keyOf[c] == p.keyOf[c]
    requires forall c :: c in q.keyOf && q.keyOf[c] != k ==> (c in q.held <==> c in p.held)
    requires !q.closed && q.limitPerHost > 0 ==> forall x :: x != k ==> q.Acquired(x) == p.Acquired(x)
    requires !q.closed && q.limitPerHost > 0 ==> forall c :: c in q.Acquired(k) <==> c in q.held && q.keyOf[c] == k
    ensures Booked(q)
  {
    if !q.closed && q.limitPerHost > 0 {
      forall x, c ensures c in q.Acquired(x) <==> c in q.held && q.keyOf[c] == x {
        if x != k { assert c in p.Acquired(x) <==> c in p.held && p.keyOf[c] == x; }
      }
    }
  }

  /** The idle connections stay, and none of them gets a holder. */
  lemma ExclusiveStays(p: Pool, q: Pool)
    requires Exclusive(p) && q.idle == p.idle && q.closed == p.closed
    requires p.keyOf.Keys <= q.keyOf.Keys
    requires forall c :: c in p.keyOf ==> q.keyOf[c] == p.keyOf[c] && (c in q.held ==> c in p.held)
    ensures Exclusive(q)
  {
    forall k | k in q.idle ensures OwnIdle(q, k, q.idle[k]) { assert OwnIdle(p, k, p.idle[k]); }
  }

  lemma DropIdle(p: Pool, k: Key)
    requires Conns(p)
    ensures Conns(SetIdle(p, k, [])) && SetIdle(p, k, []).IdleAt(k) == []
  {
    var q := SetIdle(p, k, []);
    assert forall x :: q.Acquired(x) == p.Acquired(x) && (x != k ==> q.IdleAt(x) == p.IdleAt(x));
  }

  /** `q` differs from `p` in what host `k` has acquired, and not in what is idle elsewhere. */
  ghost predicate OneHost(p: Pool, q: Pool, k: Key, s: set<Conn>) {
    && q.limitPerHost == p.limitPerHost && q.closed == p.closed
    && (q.limitPerHost > 0 ==> q.Acquired(k) == s)
    && forall x :: x != k ==> q.Acquired(x) == p.Acquired(x) && q.IdleAt(x) == p.IdleAt(x)
  }

  lemma HoldFacts(p: Pool, k: Key, c: Conn)
    ensures OneHost(p, Hold(p, k, c), k, p.Acquired(k) + {c}) && Hold(p, k, c).IdleAt(k) == p.IdleAt(k)
  {
  }

  lemma AddedBound(p: Pool, q: Pool, k: Key, c: Conn)
    requires PerHostBound(p) && OneHost(p, q, k, p.Acquired(k) + {c})
    requires q.limitPerHost > 0 ==> |p.Acquired(k)| + |q.IdleAt(k)| < q.limitPerHost
    ensures PerHostBound(q)
  {
    BoundAtOneHost(p, q, k);
  }

  lemma AddedBooked(p: Pool, q: Pool, k: Key, c: Conn)
    requires Booked(p) && OneHost(p, q, k, p.Acquired(k) + {c})
    requires q.held == p.held + {c} && q.acquired == p.acquired + {c} && q.keyOf == p.keyOf[c := k]
    requires c in p.keyOf ==> p.keyOf[c] == k
    requires p.serial <= q.serial && c.id < q.serial
    ensures Booked(q)
  {
    BookedAtOneHost(p, q, k);
  }

  /** Reusing an idle connection moves it from the idle ones of its host to the acquired ones. */
  lemma ReuseKeeps(p: Pool, k: Key, env: Env)
    requires Conns(p) && CanReuse(p, k, env)
    ensures Conns(Get(p, k, env))
    ensures var c := p.IdleAt(k)[FirstUsable(p, p.IdleAt(k), env)].conn;
      c !in p.held && Get(p, k, env).held == p.held + {c} && Get(p, k, env).acquired == p.acquired + {c}
  {
    hide PerHostBound, Booked, Exclusive, OneHost;
    var n := FirstUsable(p, p.IdleAt(k), env);
    ReuseFacts(p, k, n);
    var c, q := p.IdleAt(k)[n].conn, Get(p, k, env);
    ReuseIsExclusive(p, k, n);
    AddedBooked(p, q, k, c);
    AddedBound(p, q, k, c);
  }

  lemma ReuseFacts(p: Pool, k: Key, n: nat)
    requires PerHostBound(p) && Booked(p) && Exclusive(p) && n < |p.IdleAt(k)|
    ensures var c := p.IdleAt(k)[n].conn;
      var q := Hold(SetIdle(p, k, p.IdleAt(k)[n + 1..]), k, c);
      && c !in p.held && c in p.keyOf && p.keyOf[c] == k && c.id < p.serial && p.keyOf[c := k] == p.keyOf
      && OneHost(p, q, k, p.Acquired(k) + {c})
      && (p.limitPerHost > 0 ==> |p.Acquired(k)| + |q.IdleAt(k)| < p.limitPerHost)
  {
    assert OwnIdle(p, k, p.IdleAt(k));
    var s := p.IdleAt(k)[n + 1..];
    assert SetIdle(p, k, s).IdleAt(k) == s;
  }

  lemma ReuseIsExclusive(p: Pool, k: Key, n: nat)
    requires Exclusive(p) && n < |p.IdleAt(k)|
    ensures Exclusive(Hold(SetIdle(p, k, p.IdleAt(k)[n + 1..]), k, p.IdleAt(k)[n].conn))
  {
    var s := p.IdleAt(k);
    var q := Hold(SetIdle(p, k, s[n + 1..]), k, s[n].conn);
    assert OwnIdle(p, k, s);
    forall x | x in q.idle ensures OwnIdle(q, x, q.idle[x]) { assert OwnIdle(p, x, p.idle[x]); }
  }

  /** A connection is only made for a host that has a free slot and nothing idle. */
  lemma BeginKeeps(p: Pool, k: Key)
    requires Conns(p) && HasSlot(p, k) && p.IdleAt(k) == []
    ensures Conns(Begin(p, k))
    ensures p.limit > 0 ==> |Begin(p, k).acquired| <= p.limit
  {
    var q, c := Begin(p, k), Placeholder(p.serial);
    HoldFacts(p, k, c);
    assert c !in p.keyOf && OneHost(p, q, k, p.Acquired(k) + {c});
    hide PerHostBound, Booked, Exclusive, OneHost, Hold;
    BeginIsExclusive(p, k);
    AddedBooked(p, q, k, c);
    AddedBound(p, q, k, c);
  }

  lemma BeginIsExclusive(p: Pool, k: Key)
    requires Booked(p) && Exclusive(p)
    ensures Exclusive(Begin(p, k))
  {
    ExclusiveStays(p, Begin(p, k));
  }

  lemma CreatedKeeps(p: Pool, c: Conn)
    requires Conns(p) && c in p.held
    ensures Conns(Created(p, c))
  {
    hide PerHostBound, Booked, Exclusive;
    CreatedIsBooked(p, c);
    CreatedIsExclusive(p, c);
    CreatedBound(p, c);
  }

  lemma CreatedIsExclusive(p: Pool, c: Conn)
    requires Booked(p) && Exclusive(p) && c in p.held
    ensures Exclusive(Created(p, c))
  {
    ExclusiveStays(p, Created(p, c));
  }

  lemma CreatedIsBooked(p: Pool, c: Conn)
    requires Booked(p) && c in p.held
    ensures Booked(Created(p, c))
  {
    BookedAtOneHost(p, Created(p, c), p.keyOf[c]);
  }

  lemma CreatedFacts(p: Pool, c: Conn)
    requires c in p.keyOf
    ensures var k := p.keyOf[c];
      OneHost(p, Created(p, c), k, if p.closed then p.Acquired(k) else p.Acquired(k) - {c} + {Protocol(p.serial)})
    ensures Created(p, c).IdleAt(p.keyOf[c]) == p.IdleAt(p.keyOf[c])
  {
  }

  lemma HeldIsAcquired(p: Pool, c: Conn)
    requires Booked(p) && c in p.held && !p.closed && p.limitPerHost > 0
    ensures c in p.keyOf && c in p.Acquired(p.keyOf[c])
  {
  }

  lemma CreatedBound(p: Pool, c: Conn)
    requires PerHostBound(p) && Booked(p) && c in p.held
    ensures PerHostBound(Created(p, c))
  {
    hide PerHostBound, Booked, Created;
    HeldIsKnown(p, c);
    var k := p.keyOf[c];
    CreatedFacts(p, c);
    if p.limitPerHost > 0 {
      HostBound(p, k);
      if !p.closed {
        HeldIsAcquired(p, c);
        ReplacedSize(p.Acquired(k), c, Protocol(p.serial));
      }
    }
    BoundAtOneHost(p, Created(p, c), k);
  }

  lemma ReplacedSize(s: set<Conn>, c: Conn, d: Conn)
    requires c in s
    ensures |s - {c} + {d}| <= |s|
  {
  }

  lemma HostBound(p: Pool, k: Key)
    requires PerHostBound(p) && p.limitPerHost > 0
    ensures |p.Acquired(k)| + |p.IdleAt(k)| <= p.limitPerHost
  {
  }

  lemma ConnsFrame(p: Pool, q: Pool)
    requires Conns(p) && q.idle == p.idle && q.acquired == p.acquired && q.perHost == p.perHost && q.held == p.held
    requires q.keyOf == p.keyOf && q.closed == p.closed && q.limitPerHost == p.limitPerHost && p.serial <= q.serial
    ensures Conns(q)
  {
    assert forall k :: q.Acquired(k) == p.Acquired(k) && q.IdleAt(k) == p.IdleAt(k);
    forall k | k in q.idle ensures OwnIdle(q, k, q.idle[k]) { assert OwnIdle(p, k, p.idle[k]); }
  }

  /** A connection given back leaves its host's slot free. */
  lemma UnbookKeeps(p: Pool, c: Conn)
    requires Conns(p) && c in p.held && !p.closed
    ensures var q := Unbook(p.(held := p.held - {c}), c);
      Conns(q) && (q.limitPerHost > 0 ==> |q.Acquired(p.keyOf[c])| + |q.IdleAt(p.keyOf[c])| < q.limitPerHost)
  {
    hide PerHostBound, Booked, Exclusive;
    UnbookIsBooked(p, c);
    UnbookIsExclusive(p, c);
    UnbookBound(p, c);
  }

  lemma UnbookIsBooked(p: Pool, c: Conn)
    requires Booked(p) && c in p.held && !p.closed
    ensures Booked(Unbook(p.(held := p.held - {c}), c))
  {
    var k, q := p.keyOf[c], Unbook(p.(held := p.held - {c}), c);
    assert p.limitPerHost > 0 ==> q.Acquired(k) == p.Acquired(k) - {c};
    BookedAtOneHost(p, q, k);
  }

  lemma UnbookIsExclusive(p: Pool, c: Conn)
    requires Booked(p) && Exclusive(p) && c in p.held
    ensures Exclusive(Unbook(p.(held := p.held - {c}), c))
  {
    ExclusiveStays(p, Unbook(p.(held := p.held - {c}), c));
  }

  lemma UnbookBound(p: Pool, c: Conn)
    requires PerHostBound(p) && Booked(p) && c in p.held && !p.closed
    ensures var q := Unbook(p.(held := p.held - {c}), c);
      PerHostBound(q) && (q.limitPerHost > 0 ==> |q.Acquired(p.keyOf[c])| + |q.IdleAt(p.keyOf[c])| < q.limitPerHost)
  {
    var k, q := p.keyOf[c], Unbook(p.(held := p.held - {c}), c);
    if q.limitPerHost > 0 {
      assert c in p.Acquired(k) && q.Acquired(k) == p.Acquired(k) - {c};
      assert |p.Acquired(k)| + |p.IdleAt(k)| <= p.limitPerHost;
    }
    BoundAtOneHost(p, q, k);
  }

  function Pooled(p: Pool, k: Key, c: Conn, now: int): Pool { p.(idle := p.idle[k := p.IdleAt(k) + [Idle(c, now)]]) }

  lemma PooledKeeps(p: Pool, c: Conn, now: int)
    requires Conns(p) && !p.closed && c in p.keyOf && c !in p.held
    requires forall i :: 0 <= i < |p.IdleAt(p.keyOf[c])| ==> p.IdleAt(p.keyOf[c])[i].conn != c
    requires p.limitPerHost > 0 ==> |p.Acquired(p.keyOf[c])| + |p.IdleAt(p.keyOf[c])| < p.limitPerHost
    ensures Conns(Pooled(p, p.keyOf[c], c, now))
  {
    var k := p.keyOf[c];
    var q := Pooled(p, k, c, now);
    assert forall x :: q.Acquired(x) == p.Acquired(x);
    assert PerHostBound(q) by { BoundAtOneHost(p, q, k); }
    hide PerHostBound;
    forall x | x in q.idle ensures OwnIdle(q, x, q.idle[x]) {
      if x in p.idle { assert OwnIdle(p, x, p.idle[x]); }
    }
  }

  lemma HeldIsNotIdle(p: Pool, c: Conn, k: Key)
    requires Exclusive(p) && c in p.held
    ensures forall i :: 0 <= i < |p.IdleAt(k)| ==> p.IdleAt(k)[i].conn != c
  {
    if k in p.idle { assert OwnIdle(p, k, p.idle[k]); }
  }

  /** What `_cleanup` keeps of a host's idle connections is still in order. */
  lemma {:induction false} OnlyUsableIsSubsequence(p: Pool, k: Key, s: seq<Idle>, env: Env)
    requires OwnIdle(p, k, s)
    ensures OwnIdle(p, k, OnlyUsable(p, s, env)) && |OnlyUsable(p, s, env)| <= |s|
    ensures forall i :: i in OnlyUsable(p, s, env) <==> i in s && Usable(p, i, env)
  {
    hide Usable;
    if s != [] {
      var rest := s[1..];
      assert OwnIdle(p, k, rest) by {
        forall i, j | 0 <= i < j < |rest| ensures rest[i].conn != rest[j].conn {
          assert rest[i] == s[i + 1] && rest[j] == s[j + 1];
        }
      }
      OnlyUsableIsSubsequence(p, k, rest, env);
      var t := OnlyUsable(p, rest, env);
      assert s == [s[0]] + rest;
      forall i | 0 <= i < |t| ensures t[i].conn != s[0].conn { assert t[i] in rest; }
      assert OnlyUsable(p, s, env) == (if Usable(p, s[0], env) then [s[0]] else []) + t;
    }
  }

  lemma CleanupKeeps(p: Pool, env: Env)
    requires Conns(p)
    ensures Conns(Cleanup(p, env))
  {
    var q := Cleanup(p, env);
    forall k | k in p.idle
      ensures |OnlyUsable(p, p.idle[k], env)| <= |p.idle[k]| && OwnIdle(p, k, OnlyUsable(p, p.idle[k], env))
    {
      assert OwnIdle(p, k, p.idle[k]);
      OnlyUsableIsSubsequence(p, k, p.idle[k], env);
    }
    assert forall k :: q.Acquired(k) == p.Acquired(k) && |q.IdleAt(k)| <= |p.IdleAt(k)|;
    forall k | k in q.idle ensures OwnIdle(q, k, q.idle[k]) { assert OwnIdle(p, k, q.idle[k]); }
  }

  lemma CloseKeeps(p: Pool)
    requires Conns(p)
    ensures Conns(Close(p))
  {
    assert forall k :: Close(p).Acquired(k) == p.Acquired(k) && |Close(p).IdleAt(k)| <= |p.IdleAt(k)|;
  }

  // ---- waiters

  lemma QueuedFrame(p: Pool, q: Pool)
    requires Queued(p) && q.queues == p.queues && q.waiting == p.waiting && q.woken == p.woken &&
      q.cancelled == p.cancelled
    requires q.closed == p.closed && p.serial <= q.serial
    ensures Queued(q)
  {
    forall k ensures InOrder(q, k) { assert InOrder(p, k) && q.Queue(k) == p.Queue(k); }
    forall w | w in q.waiting ensures Findable(q, w) {
      assert Findable(p, w) && q.Queue(q.waiting[w]) == p.Queue(p.waiting[w]);
    }
  }

  lemma FairAtTheEnds(s: seq<Waiter>, w: Waiter)
    requires Fair(s) && forall i :: 0 <= i < |s| ==> s[i].id < w.id
    ensures w.retry ==> Fair([w] + s)
    ensures !w.retry ==> Fair(s + [w])
  {
    var t := [w] + s;
    assert forall i :: 0 < i < |t| ==> t[i] == s[i - 1];
  }

  /** A first-time waiter goes behind all others, a retry in front of them. */
  lemma EnqueueKeeps(p: Pool, k: Key, retry: bool)
    requires Queued(p)
    ensures Queued(Enqueue(p, k, retry))
  {
    var q, w, s := Enqueue(p, k, retry), Waiter(p.serial, retry), p.Queue(k);
    assert w !in p.waiting by { assert w in p.waiting ==> Findable(p, w); }
    assert q.Queue(k) == if retry then [w] + s else s + [w];
    forall x ensures InOrder(q, x) {
      assert InOrder(p, x);
      if x == k {
        forall i | 0 <= i < |s| ensures s[i].id < w.id { assert s[i] in s && Findable(p, s[i]); }
        FairAtTheEnds(s, w);
        assert forall v :: v in q.Queue(k) <==> v in s || v == w;
      } else {
        assert q.Queue(x) == p.Queue(x);
      }
    }
    forall x | x in q.waiting ensures Findable(q, x) {
      if x != w { assert Findable(p, x); }
    }
  }

  lemma {:induction false} WithoutKeepsOrder(q: seq<Waiter>, w: Waiter)
    requires Fair(q)
    ensures Fair(Without(q, w)) && forall x :: x in Without(q, w) <==> x in q && x != w
  {
    if q != [] {
      var rest := q[1..];
      assert q == [q[0]] + rest;
      assert Fair(rest);
      assert forall i :: 0 <= i < |rest| ==> rest[i] == q[i + 1];
      WithoutKeepsOrder(rest, w);
      var t := Without(rest, w);
      if q[0] != w {
        assert Without(q, w) == [q[0]] + t;
        forall i | 0 <= i < |t|
          ensures if q[0].retry then !t[i].retry || q[0].id > t[i].id else !t[i].retry && q[0].id < t[i].id
        {
          assert t[i] in rest;
        }
      } else {
        assert Without(q, w) == rest;
      }
    }
  }

  lemma DequeueKeeps(p: Pool, w: Waiter)
    requires Queued(p) && w in p.waiting
    ensures Queued(Dequeue(p, w))
  {
    var k, q := p.waiting[w], Dequeue(p, w);
    assert InOrder(p, k);
    WithoutKeepsOrder(p.Queue(k), w);
    assert q.Queue(k) == Without(p.Queue(k), w);
    forall x ensures InOrder(q, x) {
      assert InOrder(p, x);
      if x != k { assert q.Queue(x) == p.Queue(x); }
    }
    forall x | x in q.waiting ensures Findable(q, x) {
      assert Findable(p, x);
      if p.waiting[x] != k { assert q.Queue(p.waiting[x]) == p.Queue(p.waiting[x]); }
    }
  }

  lemma CancelKeeps(p: Pool, w: Waiter)
    requires Queued(p)
    ensures Queued(p.(cancelled := p.cancelled + {w}))
  {
    var q := p.(cancelled := p.cancelled + {w});
    forall k ensures InOrder(q, k) { assert InOrder(p, k) && q.Queue(k) == p.Queue(k); }
    forall x | x in q.waiting ensures Findable(q, x) {
      assert Findable(p, x) && q.Queue(q.waiting[x]) == p.Queue(p.waiting[x]);
    }
  }

  lemma CloseQueued(p: Pool)
    requires Queued(p)
    ensures Queued(Close(p))
  {
    var q := Close(p);
    if !p.closed {
      assert forall k :: q.Queue(k) == [];
      forall x | x in q.waiting ensures Findable(q, x) { assert Findable(p, x); }
    }
  }

  // ---- waking one waiter

  /** Some call waits for `k`, and `k` has a free slot. */
  predicate Ready(p: Pool, k: Key) { HasSlot(p, k) && FirstUndone(p.Queue(k), p.Done()) < |p.Queue(k)| }

  function NextUp(p: Pool, k: Key): Waiter
    requires Ready(p, k)
  {
    p.Queue(k)[FirstUndone(p.Queue(k), p.Done())]
  }

  /** A queue loses finished waiters from its front only. */
  ghost predicate Shrinks(before: seq<Waiter>, after: seq<Waiter>, done: set<Waiter>) {
    && |after| <= |before| && after == before[|before| - |after|..]
    && forall i :: 0 <= i < |before| - |after| ==> before[i] in done
  }

  /** From `p` to `q` the first unfinished waiter of `k`, which has a free slot, was completed and
      has left its queue. */
  ghost predicate Wakes(p: Pool, q: Pool, k: Key) {
    && Ready(p, k) && q.woken == p.woken + {NextUp(p, k)} && NextUp(p, k) !in p.Done()
    && q.Queue(k) == p.Queue(k)[FirstUndone(p.Queue(k), p.Done()) + 1..]
  }

  /** The waiter discipline: whatever the shuffle, exactly one unfinished waiter of a key with a free
      slot is completed, the first of its queue, if there is one, and none otherwise; nothing else
      but finished waiters leaves a queue. */
  lemma {:induction false} WakesExactlyOne(p: Pool, order: seq<Key>)
    ensures var q := ReleaseWaiter(p, order); q == p.(queues := q.queues, woken := q.woken)
    ensures var q := ReleaseWaiter(p, order); forall k :: Shrinks(p.Queue(k), q.Queue(k), q.Done())
    ensures (exists k :: k in order && Ready(p, k)) ==> exists k :: k in order && Wakes(p, ReleaseWaiter(p, order), k)
    ensures (forall k :: k in order ==> !Ready(p, k)) ==> ReleaseWaiter(p, order).woken == p.woken
    ensures p.woken <= ReleaseWaiter(p, order).woken
    decreases |order|, 0
  {
    hide HasSlot;
    if order != [] {
      var k, rest := order[0], order[1..];
      assert order == [k] + rest;
      assert forall x :: x in order <==> x == k || x in rest;
      if !HasSlot(p, k) {
        WakesExactlyOne(p, rest);
      } else if FirstUndone(p.Queue(k), p.Done()) < |p.Queue(k)| {
        WokenQueues(p, k);
        assert Wakes(p, ReleaseWaiter(p, order), k);
      } else {
        SkippedQueue(p, k, rest);
      }
    }
  }

  lemma WokenQueues(p: Pool, k: Key)
    requires Ready(p, k)
    ensures var q := p.(queues := p.queues[k := p.Queue(k)[FirstUndone(p.Queue(k), p.Done()) + 1..]],
                        woken := p.woken + {NextUp(p, k)});
      forall x :: Shrinks(p.Queue(x), q.Queue(x), q.Done())
  {
    hide HasSlot;
    var n := FirstUndone(p.Queue(k), p.Done());
    var q := p.(queues := p.queues[k := p.Queue(k)[n + 1..]], woken := p.woken + {NextUp(p, k)});
    forall x ensures Shrinks(p.Queue(x), q.Queue(x), q.Done()) {
      if x != k { assert q.Queue(x) == p.Queue(x); } else { assert q.Queue(k) == p.Queue(k)[n + 1..]; }
    }
  }

  lemma SkipFacts(p: Pool, k: Key)
    requires FirstUndone(p.Queue(k), p.Done()) == |p.Queue(k)|
    ensures !Ready(p, k) && forall x :: Ready(Skip(p, k), x) <==> Ready(p, x)
  {
    var q := Skip(p, k);
    forall x ensures HasSlot(q, x) == HasSlot(p, x) { SlotFrame(p, q, x); }
    hide HasSlot;
    assert q.Queue(k) == [] && forall x :: x != k ==> q.Queue(x) == p.Queue(x);
  }

  lemma SkipShrinks(p: Pool, k: Key, q: Pool, x: Key)
    requires FirstUndone(p.Queue(k), p.Done()) == |p.Queue(k)| && p.Done() <= q.Done()
    requires Shrinks(Skip(p, k).Queue(x), q.Queue(x), q.Done())
    ensures Shrinks(p.Queue(x), q.Queue(x), q.Done())
  {
  }

  lemma SkipWakes(p: Pool, k: Key, q: Pool, x: Key)
    requires x != k && Ready(p, x) && Wakes(Skip(p, k), q, x)
    ensures Wakes(p, q, x)
  {
    hide HasSlot;
  }

  /** A queue of finished waiters is emptied, and the search goes on. */
  lemma SkippedQueue(p: Pool, k: Key, rest: seq<Key>)
    requires FirstUndone(p.Queue(k), p.Done()) == |p.Queue(k)|
    ensures var q := ReleaseWaiter(Skip(p, k), rest);
      q == p.(queues := q.queues, woken := q.woken) && p.woken <= q.woken
    ensures var q := ReleaseWaiter(Skip(p, k), rest); forall x :: Shrinks(p.Queue(x), q.Queue(x), q.Done())
    ensures (exists x :: x in rest && Ready(p, x)) ==>
      exists x :: x in rest && Wakes(p, ReleaseWaiter(Skip(p, k), rest), x)
    ensures (forall x :: x in rest ==> !Ready(p, x)) ==> ReleaseWaiter(Skip(p, k), rest).woken == p.woken
    decreases |rest|, 1
  {
    hide ReleaseWaiter, Ready, Wakes, Shrinks;
    WakesExactlyOne(Skip(p, k), rest);
    SkipFacts(p, k);
    var q := ReleaseWaiter(Skip(p, k), rest);
    forall x ensures Shrinks(p.Queue(x), q.Queue(x), q.Done()) { SkipShrinks(p, k, q, x); }
    if x :| x in rest && Ready(p, x) {
      var y :| y in rest && Wakes(Skip(p, k), q, y);
      WakesReady(Skip(p, k), q, y);
      SkipWakes(p, k, q, y);
    }
  }

  lemma WakesReady(p: Pool, q: Pool, k: Key)
    requires Wakes(p, q, k)
    ensures Ready(p, k)
  {
  }

  lemma ShrinkKeepsOrder(before: seq<Waiter>, after: seq<Waiter>, done: set<Waiter>)
    requires Shrinks(before, after, done)
    ensures Fair(before) ==> Fair(after)
    ensures forall w :: w in after ==> w in before
    ensures forall w :: w in before && w !in done ==> w in after
  {
    var d := |before| - |after|;
    assert forall i :: 0 <= i < |after| ==> after[i] == before[d + i];
    forall w | w in before && w !in done ensures w in after {
      var i :| 0 <= i < |before| && before[i] == w;
      assert i >= d && after[i - d] == w;
    }
  }

  lemma WakingKeeps(p: Pool, order: seq<Key>)
    requires Queued(p)
    ensures Queued(ReleaseWaiter(p, order))
  {
    hide Shrinks, Fair, Ready, Wakes, ReleaseWaiter;
    var q := ReleaseWaiter(p, order);
    WakesExactlyOne(p, order);
    forall k ensures InOrder(q, k) {
      assert InOrder(p, k);
      ShrinkKeepsOrder(p.Queue(k), q.Queue(k), q.Done());
    }
    forall w | w in q.waiting ensures Findable(q, w) {
      assert Findable(p, w);
      ShrinkKeepsOrder(p.Queue(p.waiting[w]), q.Queue(p.waiting[w]), q.Done());
    }
  }

  // ---- every step

  lemma AbandonKeeps(p: Pool, c: Conn, order: seq<Key>)
    requires Inv(p) && c in p.held
    ensures Inv(Abandon(p, c, order))
    ensures var q := Abandon(p, c, order);
      && q.held == p.held - {c} && q.idle == p.idle && q.keyOf == p.keyOf && q.closed == p.closed &&
        q.limitPerHost == p.limitPerHost
      && (!p.closed && p.limitPerHost > 0 ==> |q.Acquired(p.keyOf[c])| + |q.IdleAt(p.keyOf[c])| < q.limitPerHost)
  {
    hide PerHostBound, Booked, Exclusive, Queued, ReleaseWaiter, Wakes, Ready, Shrinks;
    assert c in p.keyOf by { HeldIsKnown(p, c); }
    var given := p.(held := p.held - {c});
    QueuedFrame(p, given);
    if p.closed {
      ClosedGiveBack(p, c);
    } else {
      UnbookKeeps(p, c);
      var free := Unbook(given, c);
      QueuedFrame(given, free);
      WakesExactlyOne(free, order);
      WakingKeeps(free, order);
      ConnsFrame(free, ReleaseWaiter(free, order));
    }
  }

  lemma HeldIsKnown(p: Pool, c: Conn)
    requires Booked(p) && c in p.held
    ensures c in p.keyOf
  {
  }

  lemma ClosedGiveBack(p: Pool, c: Conn)
    requires Conns(p) && p.closed
    ensures Conns(p.(held := p.held - {c}))
  {
    assert forall k ::
      p.(held := p.held - {c}).Acquired(k) == p.Acquired(k) &&
      p.(held := p.held - {c}).IdleAt(k) == p.IdleAt(k);
  }

  lemma ReleaseKeeps(p: Pool, c: Conn, shouldClose: bool, env: Env)
    requires Inv(p) && c in p.held
    ensures Inv(Release(p, c, shouldClose, env))
  {
    hide PerHostBound, Booked, Exclusive, Queued, Abandon;
    HeldIsKnown(p, c);
    AbandonKeeps(p, c, env.order);
    var q := Abandon(p, c, env.order);
    if !p.closed && !p.forceClose && !shouldClose {
      HeldIsNotIdle(p, c, p.keyOf[c]);
      assert q.IdleAt(p.keyOf[c]) == p.IdleAt(p.keyOf[c]);
      PooledKeeps(q, c, env.now);
      QueuedFrame(q, Pooled(q, p.keyOf[c], c, env.now));
    }
  }

  lemma GetKeeps(p: Pool, k: Key, env: Env)
    requires Inv(p)
    ensures Inv(Get(p, k, env))
    ensures !CanReuse(p, k, env) ==> Get(p, k, env).IdleAt(k) == [] && Get(p, k, env) == SetIdle(p, k, [])
  {
    hide PerHostBound, Booked, Exclusive, Queued;
    if CanReuse(p, k, env) { ReuseKeeps(p, k, env); } else { DropIdle(p, k); }
    QueuedFrame(p, Get(p, k, env));
  }

  lemma ConnectKeeps(p: Pool, k: Key, env: Env)
    requires Inv(p)
    ensures Inv(Connect(p, k, env))
  {
    hide PerHostBound, Booked, Exclusive, Queued, Get, HasSlot, CanReuse;
    GetKeeps(p, k, env);
    var q := Get(p, k, env);
    if CanReuse(p, k, env) {
    } else if !HasSlot(q, k) {
      EnqueueKeeps(q, k, false);
      ConnsFrame(q, Enqueue(q, k, false));
    } else {
      BeginKeeps(q, k);
      QueuedFrame(q, Begin(q, k));
    }
  }

  lemma ResumeKeeps(p: Pool, w: Waiter, fails: bool, env: Env)
    requires Inv(p) && w in p.waiting
    ensures Inv(Resume(p, w, fails, env))
  {
    hide PerHostBound, Booked, Exclusive, Queued, Get, HasSlot, CanReuse;
    var k, q := p.waiting[w], Dequeue(p, w);
    DequeueKeeps(p, w);
    ConnsFrame(p, q);
    if fails {
    } else if !HasSlot(q, k) {
      EnqueueKeeps(q, k, true);
      ConnsFrame(q, Enqueue(q, k, true));
    } else {
      GetKeeps(q, k, env);
      var r := Get(q, k, env);
      if !CanReuse(q, k, env) {
        assert HasSlot(r, k) == HasSlot(q, k) by { SlotFrame(q, r, k); }
        BeginKeeps(r, k);
        QueuedFrame(r, Begin(r, k));
      }
    }
  }

  lemma SlotFrame(p: Pool, q: Pool, k: Key)
    requires q.limit == p.limit && q.limitPerHost == p.limitPerHost && q.acquired == p.acquired &&
      q.perHost == p.perHost
    ensures HasSlot(q, k) == HasSlot(p, k)
  {
  }

  /** Every step keeps the invariant, whatever the interleaving. */
  lemma StepKeeps(p: Pool, e: Event, env: Env)
    requires Inv(p) && Enabled(p, e)
    ensures Inv(Step(p, e, env))
  {
    hide PerHostBound, Booked, Exclusive, Queued, Connect, Resume, Created, Abandon, Release, Cleanup, Close;
    match e
    case DoConnect(k) => ConnectKeeps(p, k, env);
    case DoResume(w, fails) => ResumeKeeps(p, w, fails, env);
    case DoCancel(w) =>
      CancelKeeps(p, w);
      ConnsFrame(p, p.(cancelled := p.cancelled + {w}));
    case DoCreated(c) =>
      CreatedKeeps(p, c);
      CreatedQueued(p, c);
    case DoAbandon(c) => AbandonKeeps(p, c, env.order);
    case DoRelease(c, shouldClose) => ReleaseKeeps(p, c, shouldClose, env);
    case DoCleanup =>
      CleanupKeeps(p, env);
      CleanupQueued(p, env);
    case DoClose =>
      CloseKeeps(p);
      CloseQueued(p);
  }

  lemma CreatedQueued(p: Pool, c: Conn)
    requires Queued(p) && c in p.keyOf
    ensures Queued(Created(p, c))
  {
    hide Queued;
    QueuedFrame(p, Created(p, c));
  }

  lemma CleanupQueued(p: Pool, env: Env)
    requires Queued(p)
    ensures Queued(Cleanup(p, env))
  {
    hide Queued;
    QueuedFrame(p, Cleanup(p, env));
  }

  // ---- whole runs ----------------------------------------------------------------------------------

  datatype Act = Act(event: Event, env: Env)

  ghost predicate Legal(p: Pool, acts: seq<Act>)
    decreases |acts|
  {
    acts == [] ||
    (Enabled(p, acts[0].event) && IsShuffle(acts[0].env.order, p.queues.Keys) &&
      Legal(Step(p, acts[0].event, acts[0].env), acts[1..]))
  }

  function Run(p: Pool, acts: seq<Act>): Pool
    requires Legal(p, acts)
    decreases |acts|
  {
    if acts == [] then p else Run(Step(p, acts[0].event, acts[0].env), acts[1..])
  }

  lemma {:induction false} RunKeeps(p: Pool, acts: seq<Act>)
    requires Inv(p) && Legal(p, acts)
    ensures Inv(Run(p, acts))
    ensures Run(p, acts).limitPerHost == p.limitPerHost && Run(p, acts).limit == p.limit
    decreases |acts|
  {
    hide Inv;
    if acts != [] {
      StepKeeps(p, acts[0].event, acts[0].env);
      StepKeepsLimits(p, acts[0].event, acts[0].env);
      RunKeeps(Step(p, acts[0].event, acts[0].env), acts[1..]);
    }
  }

  ghost predicate SameLimits(p: Pool, q: Pool) { q.limit == p.limit && q.limitPerHost == p.limitPerHost }

  lemma StepKeepsLimits(p: Pool, e: Event, env: Env)
    requires Enabled(p, e)
    ensures SameLimits(p, Step(p, e, env))
  {
    hide HasSlot, CanReuse, FirstUsable, Abandon, Get, Dequeue;
    match e
    case DoConnect(k) => GetLimits(p, k, env);
    case DoResume(w, fails) =>
      DequeueLimits(p, w);
      GetLimits(Dequeue(p, w), p.waiting[w], env);
    case DoAbandon(c) => AbandonLimits(p, c, env.order);
    case DoRelease(c, _) => AbandonLimits(p, c, env.order);
    case _ =>
  }

  lemma GetLimits(p: Pool, k: Key, env: Env)
    ensures SameLimits(p, Get(p, k, env))
  {
    hide FirstUsable;
  }

  lemma DequeueLimits(p: Pool, w: Waiter)
    requires w in p.waiting
    ensures SameLimits(p, Dequeue(p, w))
  {
  }

  lemma AbandonLimits(p: Pool, c: Conn, order: seq<Key>)
    requires c in p.keyOf
    ensures SameLimits(p, Abandon(p, c, order))
    ensures |Abandon(p, c, order).acquired| <= |p.acquired|
  {
    hide ReleaseWaiter, Wakes, Shrinks, Ready;
    if !p.closed { WakesExactlyOne(Unbook(p.(held := p.held - {c}), c), order); }
  }

  /** The per-host bound, in every reachable state of every interleaving. */
  lemma ReachableBound(limit: nat, limitPerHost: nat, keepalive: int, forceClose: bool, acts: seq<Act>, k: Key)
    requires limitPerHost > 0 && Legal(Empty(limit, limitPerHost, keepalive, forceClose), acts)
    ensures var p := Run(Empty(limit, limitPerHost, keepalive, forceClose), acts);
      |p.Acquired(k)| + |p.IdleAt(k)| <= limitPerHost
  {
    EmptyInv(limit, limitPerHost, keepalive, forceClose);
    RunKeeps(Empty(limit, limitPerHost, keepalive, forceClose), acts);
    HostBound(Run(Empty(limit, limitPerHost, keepalive, forceClose), acts), k);
  }

  /** No connection is ever handed out while someone else holds it. */
  lemma ReachableExclusive(limit: nat, limitPerHost: nat, keepalive: int, forceClose: bool, acts: seq<Act>, k: Key,
    env: Env)
    requires Legal(Empty(limit, limitPerHost, keepalive, forceClose), acts)
    ensures var p := Run(Empty(limit, limitPerHost, keepalive, forceClose), acts);
      CanReuse(p, k, env) ==>
        var c := p.IdleAt(k)[FirstUsable(p, p.IdleAt(k), env)].conn;
        c !in p.held && Connect(p, k, env).held == p.held + {c}
  {
    EmptyInv(limit, limitPerHost, keepalive, forceClose);
    RunKeeps(Empty(limit, limitPerHost, keepalive, forceClose), acts);
    var p := Run(Empty(limit, limitPerHost, keepalive, forceClose), acts);
    if CanReuse(p, k, env) { ReuseKeeps(p, k, env); }
  }

  /** In every reachable state each queue holds retries, then first-time waiters in the order of
      their arrival, and every call with an unfinished future is in the queue of its key. */
  lemma ReachableQueues(limit: nat, limitPerHost: nat, keepalive: int, forceClose: bool, acts: seq<Act>, k: Key,
    w: Waiter)
    requires Legal(Empty(limit, limitPerHost, keepalive, forceClose), acts)
    ensures var p := Run(Empty(limit, limitPerHost, keepalive, forceClose), acts);
      Fair(p.Queue(k)) && (w in p.waiting && w !in p.Done() ==> w in p.Queue(p.waiting[w]))
  {
    EmptyInv(limit, limitPerHost, keepalive, forceClose);
    RunKeeps(Empty(limit, limitPerHost, keepalive, forceClose), acts);
    var p := Run(Empty(limit, limitPerHost, keepalive, forceClose), acts);
    assert InOrder(p, k);
    if w in p.waiting { assert Findable(p, w); }
  }

  /** A call whose key has something usable takes it, otherwise it makes a connection if there is a
      slot: what happens after the wait, or without one. */
  predicate Creates(p: Pool, e: Event, env: Env)
    requires Enabled(p, e)
  {
    match e
    case DoConnect(k) => !CanReuse(p, k, env) && HasSlot(p, k)
    case DoResume(w, fails) => !fails && !CanReuse(Dequeue(p, w), p.waiting[w], env) && HasSlot(p, p.waiting[w])
    case _ => false
  }

  lemma AttemptAcquires(p: Pool, k: Key, env: Env)
    ensures !CanReuse(p, k, env) ==>
      Get(p, k, env).acquired == p.acquired && HasSlot(Get(p, k, env), k) == HasSlot(p, k)
    ensures Get(p, k, env).serial == p.serial
  {
  }

  lemma DequeueAcquires(p: Pool, w: Waiter, k: Key)
    requires w in p.waiting
    ensures Dequeue(p, w).acquired == p.acquired && HasSlot(Dequeue(p, w), k) == HasSlot(p, k)
    ensures Dequeue(p, w).serial == p.serial
  {
  }

  /** A connection is being made, within the total limit, exactly if the call had to. */
  lemma CreationWithinLimit(p: Pool, e: Event, env: Env)
    requires Inv(p) && Enabled(p, e) && Creates(p, e, env)
    ensures Step(p, e, env).acquired == p.acquired + {Placeholder(p.serial)}
    ensures p.limit > 0 ==> |Step(p, e, env).acquired| <= p.limit
  {
    hide Inv, CanReuse, Get, Dequeue, HasSlot;
    match e
    case DoConnect(k) =>
      AttemptAcquires(p, k, env);
      SlotWithin(p, k);
    case DoResume(w, fails) =>
      var k := p.waiting[w];
      SlotWithin(p, k);
      DequeueAcquires(p, w, k);
      AttemptAcquires(Dequeue(p, w), k, env);
  }

  lemma SlotWithin(p: Pool, k: Key)
    ensures HasSlot(p, k) && p.limit > 0 ==> |p.acquired| < p.limit
  {
  }

  /** Reusing an idle connection at the limit: the check of the total is skipped. */
  predicate Overtakes(p: Pool, e: Event, env: Env) {
    e.DoConnect? && CanReuse(p, e.k, env) && |p.acquired| == p.limit
  }

  /** The total limit is exceeded by exactly the steps that overtake. */
  lemma ExceedsIffOvertakes(p: Pool, e: Event, env: Env)
    requires Inv(p) && Enabled(p, e) && p.limit > 0 && |p.acquired| <= p.limit
    ensures |Step(p, e, env).acquired| > p.limit <==> Overtakes(p, e, env)
  {
    hide Inv, CanReuse, Get, Dequeue, HasSlot, Abandon, Created;
    match e
    case DoConnect(k) =>
      AttemptAcquires(p, k, env);
      SlotWithin(p, k);
      ReuseAdds(p, k, env);
    case DoResume(w, fails) => ResumeStaysWithin(p, w, fails, env);
    case DoCreated(c) => CreatedSize(p, c);
    case DoAbandon(c) => AbandonLimits(p, c, env.order);
    case DoRelease(c, shouldClose) => AbandonLimits(p, c, env.order);
    case _ =>
  }

  lemma ReuseAdds(p: Pool, k: Key, env: Env)
    requires Inv(p)
    ensures CanReuse(p, k, env) ==> |Get(p, k, env).acquired| == |p.acquired| + 1
  {
    hide PerHostBound, Exclusive, Queued, Get, CanReuse, FirstUsable;
    if CanReuse(p, k, env) {
      ReuseKeeps(p, k, env);
      ReuseOpen(p, k, env);
    }
  }

  lemma ReuseOpen(p: Pool, k: Key, env: Env)
    requires Exclusive(p) && CanReuse(p, k, env)
    ensures !p.closed
  {
  }

  lemma ResumeStaysWithin(p: Pool, w: Waiter, fails: bool, env: Env)
    requires Inv(p) && w in p.waiting && p.limit > 0 && |p.acquired| <= p.limit
    ensures |Resume(p, w, fails, env).acquired| <= p.limit
  {
    hide PerHostBound, Booked, Exclusive, Queued, CanReuse, Get, Dequeue, HasSlot;
    var k, q := p.waiting[w], Dequeue(p, w);
    DequeueAcquires(p, w, k);
    DequeueIsInv(p, w);
    AttemptAcquires(q, k, env);
    SlotWithin(p, k);
    ReuseAdds(q, k, env);
  }

  lemma DequeueIsInv(p: Pool, w: Waiter)
    requires Inv(p) && w in p.waiting
    ensures Inv(Dequeue(p, w))
  {
    hide PerHostBound, Booked, Exclusive, Queued;
    DequeueKeeps(p, w);
    ConnsFrame(p, Dequeue(p, w));
  }

  lemma CreatedSize(p: Pool, c: Conn)
    requires Inv(p) && c in p.held && c in p.keyOf
    ensures |Created(p, c).acquired| <= |p.acquired|
  {
    hide PerHostBound, Exclusive, Queued;
    if !p.closed { assert c in p.acquired; }
  }

  /** No state of a run has more acquired connections than the total limit. */
  ghost predicate StaysWithin(p: Pool, acts: seq<Act>)
    requires Legal(p, acts)
    decreases |acts|
  {
    |p.acquired| <= p.limit && (acts != [] ==> StaysWithin(Step(p, acts[0].event, acts[0].env), acts[1..]))
  }

  ghost predicate NeverOvertakes(p: Pool, acts: seq<Act>)
    requires Legal(p, acts)
    decreases |acts|
  {
    acts != [] ==>
      !Overtakes(p, acts[0].event, acts[0].env) &&
      NeverOvertakes(Step(p, acts[0].event, acts[0].env), acts[1..])
  }

  /** A run keeps the total limit if and only if it never reuses a connection at the limit. */
  lemma {:induction false} TotalLimitOfRuns(p: Pool, acts: seq<Act>)
    requires Inv(p) && Legal(p, acts) && p.limit > 0 && |p.acquired| <= p.limit
    ensures StaysWithin(p, acts) <==> NeverOvertakes(p, acts)
    decreases |acts|
  {
    hide Inv, Overtakes;
    if acts != [] {
      var q := Step(p, acts[0].event, acts[0].env);
      StepKeeps(p, acts[0].event, acts[0].env);
      StepKeepsLimits(p, acts[0].event, acts[0].env);
      ExceedsIffOvertakes(p, acts[0].event, acts[0].env);
      if |q.acquired| <= q.limit { TotalLimitOfRuns(q, acts[1..]); }
    }
  }

  const HOST_A := Key("a", 443, true)
  const HOST_B := Key("b", 443, true)

  const QUIET := Env(0, {Protocol(1)}, [])

  /** With a limit of one, a connection to one host is idle, a second host is being connected to,
      and then the first connection is used again. */
  const OVERTAKING_RUN: seq<Act> := [
    Act(DoConnect(HOST_A), QUIET), Act(DoCreated(Placeholder(0)), QUIET), Act(DoRelease(Protocol(1), false), QUIET),
    Act(DoConnect(HOST_B), QUIET), Act(DoConnect(HOST_A), QUIET)]

  lemma OneAct(p: Pool, acts: seq<Act>)
    requires acts != [] && p.queues == map[] && acts[0].env == QUIET && Enabled(p, acts[0].event)
    requires Legal(Step(p, acts[0].event, QUIET), acts[1..])
    ensures Legal(p, acts) && Run(p, acts) == Run(Step(p, acts[0].event, QUIET), acts[1..])
  {
    hide Step;
  }

  const MAKING_A := Empty(1, 0, 15, false).(
    acquired := {Placeholder(0)}, held := {Placeholder(0)}, keyOf := map[Placeholder(0) := HOST_A], serial := 1)

  const HAVING_A := MAKING_A.(
    acquired := {Protocol(1)}, held := {Protocol(1)},
      keyOf := map[Placeholder(0) := HOST_A, Protocol(1) := HOST_A], serial := 2)

  const IDLE_A := HAVING_A.(acquired := {}, held := {}, idle := map[HOST_A := [Idle(Protocol(1), 0)]])

  lemma FirstConnection()
    ensures Step(Empty(1, 0, 15, false), DoConnect(HOST_A), QUIET) == MAKING_A
    ensures Created(MAKING_A, Placeholder(0)) == HAVING_A
    ensures Release(HAVING_A, Protocol(1), false, QUIET) == IDLE_A
  {
    assert Created(MAKING_A, Placeholder(0)).acquired == {Protocol(1)} == Created(MAKING_A, Placeholder(0)).held;
    var q := Release(HAVING_A, Protocol(1), false, QUIET);
    assert HAVING_A.acquired - {Protocol(1)} == {};
    assert [] + [Idle(Protocol(1), 0)] == [Idle(Protocol(1), 0)];
    assert q.idle == map[HOST_A := [Idle(Protocol(1), 0)]] && q.perHost == map[] && q.queues == map[] && q.woken == {};
  }

  lemma SecondAndThird(p: Pool)
    requires p.acquired == {} && p.idle == map[HOST_A := [Idle(Protocol(1), 0)]] && p.queues == map[] && p.serial == 2
    requires p.limit == 1 && p.limitPerHost == 0 && p.keepalive == 15
    ensures var p4 := Step(p, DoConnect(HOST_B), QUIET);
      p4.queues == map[] && |Step(p4, DoConnect(HOST_A), QUIET).acquired| == 2
  {
    var p4 := Step(p, DoConnect(HOST_B), QUIET);
    assert HOST_A != HOST_B;
    assert p4.acquired == {Placeholder(2)} && p4.IdleAt(HOST_A) == [Idle(Protocol(1), 0)];
    assert Usable(p4, p4.IdleAt(HOST_A)[0], QUIET);
    assert Step(p4, DoConnect(HOST_A), QUIET).acquired == {Placeholder(2), Protocol(1)};
  }

  lemma TotalLimitCanBeExceeded()
    ensures var p := Empty(1, 0, 15, false); Legal(p, OVERTAKING_RUN) && |Run(p, OVERTAKING_RUN).acquired| == 2
  {
    var p, r := Empty(1, 0, 15, false), OVERTAKING_RUN;
    FirstConnection();
    hide Legal, Run, Connect, Created, Release;
    var p1 := Step(p, r[0].event, QUIET);
    var p2 := Step(p1, r[1].event, QUIET);
    var p3 := Step(p2, r[2].event, QUIET);
    SecondAndThird(p3);
    var p4 := Step(p3, r[3].event, QUIET);
    var p5 := Step(p4, r[4].event, QUIET);
    EndOfRun(p5);
    assert r[4..][1..] == [];
    OneAct(p4, r[4..]);
    assert r[3..][1..] == r[4..];
    OneAct(p3, r[3..]);
    assert r[2..][1..] == r[3..];
    OneAct(p2, r[2..]);
    assert r[1..][1..] == r[2..];
    OneAct(p1, r[1..]);
    OneAct(p, r);
  }

  lemma EndOfRun(p: Pool)
    ensures Legal(p, []) && Run(p, []) == p
  {
  }

  /** A release, or a creation that fails, wakes exactly one waiter that can now go on, if there is
      one: the first unfinished one of some queue whose key has a free slot. */
  lemma GiveBackWakesOne(p: Pool, c: Conn, order: seq<Key>)
    requires !p.closed && c in p.keyOf && IsShuffle(order, p.queues.Keys)
    ensures var free, q := Unbook(p.(held := p.held - {c}), c), Abandon(p, c, order);
      if exists k :: Ready(free, k) then exists k :: Wakes(free, q, k) else q.woken == p.woken
  {
    hide Ready, ReleaseWaiter, Wakes;
    var free := Unbook(p.(held := p.held - {c}), c);
    WakesExactlyOne(free, order);
    forall k | Ready(free, k) ensures k in order { ReadyIsQueued(free, k); }
  }

  lemma ReadyIsQueued(p: Pool, k: Key)
    requires Ready(p, k)
    ensures k in p.queues
  {
  }
}

/** `CookieJar` (cookiejar.py): cookies stored by domain and path, a cache of the morsels built from
    them, and deadlines in a heap that is cleaned lazily. */
module CookieJars {
  import opened ByteStrings
  import opened CookieMatching

  /** The attributes `max-age` and `expires`, as they are read: absent, a number or a date, or
      something that is neither. */
  datatype Age = NoAge | Age(seconds: int) | BadAge

  datatype Date = NoDate | Date(time: int) | BadDate

  datatype Cookie = Cookie(
    key: string,
    value: string,
    codedValue: string,
    domain: string,
    path: string,
    secure: bool,
    maxAge: Age,
    expires: Date,
    other: string) // the attributes the jar does not look at

  datatype Morsel = Morsel(key: string, value: string, codedValue: string)

  datatype Key = Key(domain: string, path: string)

  datatype Id = Id(domain: string, path: string, name: string)
  {
    function Place(): Key { Key(domain, path) }
  }

  // ---- two-level dictionaries that create what is looked up -------------------------------------

  type Table<T> = map<Key, map<string, T>>

  function At<T>(m: Table<T>, k: Key): map<string, T> { if k in m then m[k] else map[] }

  function Lookup<T>(m: Table<T>, id: Id): Option<T> {
    if id.name in At(m, id.Place()) then Some(At(m, id.Place())[id.name]) else None
  }

  function Put<T>(m: Table<T>, id: Id, v: T): Table<T> { m[id.Place() := At(m, id.Place())[id.name := v]] }

  function Pop<T>(m: Table<T>, id: Id): Table<T> { m[id.Place() := At(m, id.Place()) - {id.name}] }

  lemma PutLookup<T>(m: Table<T>, id: Id, v: T)
    ensures forall x :: Lookup(Put(m, id, v), x) == if x == id then Some(v) else Lookup(m, x)
  {
  }

  lemma PopLookup<T>(m: Table<T>, id: Id)
    ensures forall x :: Lookup(Pop(m, id), x) == if x == id then None else Lookup(m, x)
  {
  }

  // ---- the heap of deadlines ---------------------------------------------------------------------

  datatype Entry = Entry(when: int, id: Id)

  /** What `heapq` promises of a list: the first entry is due first. */
  predicate EarliestFirst(heap: seq<Entry>) { forall i :: 0 <= i < |heap| ==> heap[0].when <= heap[i].when }

  method Heapify(entries: seq<Entry>) returns (heap: seq<Entry>)
    ensures EarliestFirst(heap) && multiset(heap) == multiset(entries)
  {
    if entries == [] { return []; }
    var best := 0;
    for i := 1 to |entries|
      invariant best < |entries| && forall j :: 0 <= j < i ==> entries[best].when <= entries[j].when
    {
      if entries[i].when < entries[best].when { best := i; }
    }
    assert entries == entries[..best] + [entries[best]] + entries[best + 1..];
    heap := [entries[best]] + entries[..best] + entries[best + 1..];
    forall i | 0 <= i < |heap| ensures heap[0].when <= heap[i].when { assert heap[i] in entries; }
  }

  method HeapPush(heap: seq<Entry>, e: Entry) returns (r: seq<Entry>)
    ensures EarliestFirst(r) && multiset(r) == multiset(heap) + multiset{e}
  {
    r := Heapify(heap + [e]);
  }

  method HeapPop(heap: seq<Entry>) returns (r: seq<Entry>)
    requires heap != [] && EarliestFirst(heap)
    ensures EarliestFirst(r) && multiset(r) == multiset(heap) - multiset{heap[0]}
  {
    assert heap == [heap[0]] + heap[1..];
    r := Heapify(heap[1..]);
  }

  const MIN_SCHEDULED_COOKIE_EXPIRATION := 100

  /** The entries that still name the recorded deadline of their cookie. */
  function Current(heap: seq<Entry>, expirations: map<Id, int>): seq<Entry> {
    if heap == [] then []
    else
      (if heap[0].id in expirations && expirations[heap[0].id] == heap[0].when then [heap[0]] else []) +
        Current(heap[1..], expirations)
  }

  lemma {:induction false} CurrentEntries(heap: seq<Entry>, expirations: map<Id, int>)
    ensures forall e :: e in Current(heap, expirations) <==>
      e in heap && e.id in expirations && expirations[e.id] == e.when
  {
    if heap != [] {
      CurrentEntries(heap[1..], expirations);
      assert heap == [heap[0]] + heap[1..];
    }
  }

  lemma SameEntries(a: seq<Entry>, b: seq<Entry>)
    requires multiset(a) == multiset(b)
    ensures forall e :: e in a <==> e in b
  {
    assert forall e :: e in a <==> e in multiset(a);
  }

  // ---- storing -------------------------------------------------------------------------------------

  /** Where the cookies come from: `response_url.raw_host` and its path. */
  datatype Origin = Origin(host: Option<string>, path: string)

  /** The default path of section 5.1.4 of RFC 6265, as the jar computes it. */
  function DefaultPath(path: string): string {
    if path == "" || path[0] != '/' then "/"
    else if LastIndexOf(path, '/') <= 1 then "/"
    else "/" + path[1..LastIndexOf(path, '/')]
  }

  /** The domain a cookie is stored under (lines 340-356): trailing dots void it, none means the host,
      a leading dot is dropped. */
  function StoredDomain(domain: string, host: Option<string>): string {
    var given := if domain != "" && domain[|domain| - 1] == '.' then "" else domain;
    var d := if given == "" && host.Some? then host.value else given;
    if d != "" && d[0] == '.' then d[1..] else d
  }

  /** The cookie gets the host as its domain. */
  predicate HostOnly(domain: string, host: Option<string>) {
    (domain == "" || domain[|domain| - 1] == '.') && host.Some?
  }

  /** A host other than the cookie's domain or below it may not set it. */
  predicate Foreign(domain: string, host: Option<string>) {
    host.Some? && host.value != "" && !IsDomainMatch(StoredDomain(domain, host), host.value)
  }

  function StoredPath(path: string, responsePath: string): string {
    if path == "" || path[0] != '/' then DefaultPath(responsePath) else path
  }

  /** The deadline a cookie comes with: `max-age` goes before `expires`, and the epoch counts as no date. */
  function Deadline(c: Cookie, now: int, maxTime: int): Option<int> {
    match c.maxAge
    case Age(seconds) => Some(if now + seconds < maxTime then now + seconds else maxTime)
    case BadAge => None
    case NoAge => if c.expires.Date? && c.expires.time != 0 then Some(c.expires.time) else None
  }

  /** What is stored: domain and path filled in, an unreadable lifetime blanked. */
  function AsStored(c: Cookie, o: Origin): Cookie {
    c.(domain := StoredDomain(c.domain, o.host), path := StoredPath(c.path, o.path),
       maxAge := if c.maxAge.BadAge? then NoAge else c.maxAge,
       expires := if c.maxAge.NoAge? && (c.expires.BadDate? || c.expires == Date(0)) then NoDate else c.expires)
  }

  function IdOf(name: string, c: Cookie): Id { Id(c.domain, TrimSlashes(c.path), name) }

  /** Cookies from an IP address are not accepted. */
  predicate Refuses(unsafe: bool, o: Origin) { !unsafe && o.host.Some? && IsIpAddress(o.host.value) }

  /** The cookie is stored, and `id` is where. */
  predicate Sets(name: string, c: Cookie, o: Origin, id: Id) {
    !Foreign(c.domain, o.host) && IdOf(name, AsStored(c, o)) == id
  }

  function HostOnlyName(name: string, c: Cookie, o: Origin): set<(string, string)> {
    if HostOnly(c.domain, o.host) then {(o.host.value, name)} else {}
  }

  /** The deadlines after one more cookie: one without a deadline leaves an older one as it is. */
  function Record(due: map<Id, int>, name: string, c: Cookie, o: Origin, now: int, maxTime: int): map<Id, int> {
    if Foreign(c.domain, o.host) then due
    else match Deadline(c, now, maxTime) case None => due case Some(d) => due[IdOf(name, AsStored(c, o)) := d]
  }

  function RecordAll(due: map<Id, int>, news: seq<(string, Cookie)>, o: Origin, now: int, maxTime: int, n: nat)
    : map<Id, int>
    requires n <= |news|
  {
    if n == 0 then due
    else Record(RecordAll(due, news, o, now, maxTime, n - 1), news[n - 1].0, news[n - 1].1, o, now, maxTime)
  }

  /** `id` has a deadline when the first `n` new cookies have been set: an old one, or one of theirs. */
  predicate HasDeadline(due: map<Id, int>, news: seq<(string, Cookie)>, o: Origin, now: int, maxTime: int, id: Id,
    n: nat)
    requires n <= |news|
  {
    || id in due
    || exists j :: 0 <= j < n && Sets(news[j].0, news[j].1, o, id) && Deadline(news[j].1, now, maxTime).Some?
  }

  /** Of all the new cookies, number `i` is the last one stored under `id`. */
  predicate IsLatest(news: seq<(string, Cookie)>, o: Origin, id: Id, i: nat) {
    && i < |news| && Sets(news[i].0, news[i].1, o, id)
    && forall j :: i < j < |news| ==> !Sets(news[j].0, news[j].1, o, id)
  }

  function Recorded(due: map<Id, int>, id: Id): Option<int> { if id in due then Some(due[id]) else None }

  lemma RecordFor(due: map<Id, int>, name: string, c: Cookie, o: Origin, now: int, maxTime: int, id: Id)
    ensures Recorded(Record(due, name, c, o, now, maxTime), id) ==
      if Sets(name, c, o, id) && Deadline(c, now, maxTime).Some? then Deadline(c, now, maxTime) else Recorded(due, id)
  {
    hide AsStored, IdOf, Foreign, Deadline;
  }

  lemma {:induction false} RecordedIffHas(
      due: map<Id, int>, news: seq<(string, Cookie)>, o: Origin, now: int, maxTime: int, id: Id, n: nat)
    requires n <= |news|
    ensures id in RecordAll(due, news, o, now, maxTime, n) <==> HasDeadline(due, news, o, now, maxTime, id, n)
  {
    hide Sets, Record, Deadline;
    if n > 0 {
      RecordedIffHas(due, news, o, now, maxTime, id, n - 1);
      RecordFor(RecordAll(due, news, o, now, maxTime, n - 1), news[n - 1].0, news[n - 1].1, o, now, maxTime, id);
    }
  }

  lemma {:induction false} RecordedAfter(
      due: map<Id, int>, news: seq<(string, Cookie)>, o: Origin, now: int, maxTime: int, id: Id, i: nat, n: nat)
    requires i <= n <= |news| && forall j :: i <= j < n ==> !Sets(news[j].0, news[j].1, o, id)
    ensures Recorded(RecordAll(due, news, o, now, maxTime, n), id) ==
      Recorded(RecordAll(due, news, o, now, maxTime, i), id)
  {
    hide Sets, Record, Deadline, Recorded;
    if i < n {
      RecordedAfter(due, news, o, now, maxTime, id, i, n - 1);
      RecordFor(RecordAll(due, news, o, now, maxTime, n - 1), news[n - 1].0, news[n - 1].1, o, now, maxTime, id);
    }
  }

  /** The deadline recorded for the latest cookie of a domain, path and name is the one it came with if
      and only if it came with one or there was none before: a session cookie keeps the deadline of
      the cookie it replaces. */
  lemma DeadlineIsLatestIff(
      due: map<Id, int>, news: seq<(string, Cookie)>, o: Origin, now: int, maxTime: int, id: Id, i: nat)
    requires IsLatest(news, o, id, i)
    ensures var d := Deadline(news[i].1, now, maxTime);
      Recorded(RecordAll(due, news, o, now, maxTime, |news|), id) == d <==>
        d.Some? || !HasDeadline(due, news, o, now, maxTime, id, i)
  {
    hide Sets, Record, Deadline, HasDeadline;
    RecordedAfter(due, news, o, now, maxTime, id, i + 1, |news|);
    RecordFor(RecordAll(due, news, o, now, maxTime, i), news[i].0, news[i].1, o, now, maxTime, id);
    RecordedIffHas(due, news, o, now, maxTime, id, i);
  }

  function HostOnlyNames(news: seq<(string, Cookie)>, o: Origin, n: nat): set<(string, string)>
    requires n <= |news|
  {
    if n == 0 then {} else HostOnlyNames(news, o, n - 1) + HostOnlyName(news[n - 1].0, news[n - 1].1, o)
  }

  /** The last of the first `n` new cookies stored under `id`, or else the old one. */
  function Latest(before: Table<Cookie>, news: seq<(string, Cookie)>, o: Origin, id: Id, n: nat): Option<Cookie>
    requires n <= |news|
  {
    if n == 0 then Lookup(before, id)
    else if Sets(news[n - 1].0, news[n - 1].1, o, id) then Some(AsStored(news[n - 1].1, o))
    else Latest(before, news, o, id, n - 1)
  }

  lemma {:induction false} LatestIsLast(before: Table<Cookie>, news: seq<(string, Cookie)>, o: Origin, id: Id, n: nat,
    i: nat)
    requires i <= n <= |news| && forall j :: i <= j < n ==> !Sets(news[j].0, news[j].1, o, id)
    ensures i == 0 ==> Latest(before, news, o, id, n) == Lookup(before, id)
    ensures i > 0 && Sets(news[i - 1].0, news[i - 1].1, o, id) ==>
      Latest(before, news, o, id, n) == Some(AsStored(news[i - 1].1, o))
  {
    hide Sets, AsStored, Lookup;
    if i < n { LatestIsLast(before, news, o, id, n - 1, i); }
  }

  lemma NothingNew(before: Table<Cookie>, due: map<Id, int>, news: seq<(string, Cookie)>, o: Origin, now: int,
    maxTime: int)
    ensures forall id :: Latest(before, news, o, id, 0) == Lookup(before, id)
    ensures RecordAll(due, news, o, now, maxTime, 0) == due && HostOnlyNames(news, o, 0) == {}
  {
  }

  lemma OneMore(before: Table<Cookie>, due: map<Id, int>, news: seq<(string, Cookie)>, o: Origin, now: int,
    maxTime: int, i: nat)
    requires i < |news|
    ensures forall id :: Sets(news[i].0, news[i].1, o, id) ==>
      Latest(before, news, o, id, i + 1) == Some(AsStored(news[i].1, o))
    ensures forall id :: !Sets(news[i].0, news[i].1, o, id) ==>
      Latest(before, news, o, id, i + 1) == Latest(before, news, o, id, i)
    ensures RecordAll(due, news, o, now, maxTime, i + 1) ==
      Record(RecordAll(due, news, o, now, maxTime, i), news[i].0, news[i].1, o, now, maxTime)
    ensures HostOnlyNames(news, o, i + 1) == HostOnlyNames(news, o, i) + HostOnlyName(news[i].0, news[i].1, o)
  {
    hide Sets, AsStored, Record, HostOnlyName, Lookup;
  }

  predicate IsDue(due: map<Id, int>, id: Id, now: int) { id in due && due[id] <= now }

  function DueNames(due: map<Id, int>, now: int): set<(string, string)> {
    set id | id in due && due[id] <= now :: (id.domain, id.name)
  }

  lemma DefaultPathIsAbsolute(path: string)
    ensures DefaultPath(path) != "" && DefaultPath(path)[0] == '/'
  {
  }

  /** Section 5.3 of RFC 6265: what is stored has an absolute path and a domain that the host is
      allowed to set: its own name, or one that it domain-matches. */
  lemma StoredIsAllowed(c: Cookie, o: Origin)
    requires !Foreign(c.domain, o.host)
    ensures AsStored(c, o).path != "" && AsStored(c, o).path[0] == '/'
    ensures o.host.Some? && o.host.value != "" ==>
      var d := AsStored(c, o).domain;
      d == o.host.value || (d != "" && DotSuffix(d, o.host.value) && !IsIpAddress(o.host.value))
  {
    DefaultPathIsAbsolute(o.path);
    if o.host.Some? && o.host.value != "" {
      var d, h := AsStored(c, o).domain, o.host.value;
      if d != h && d != "" {
        assert h[..|h| - |d|][|h| - |d| - 1..] == [h[|h| - |d| - 1]];
      }
    }
  }

  // ---- sending -------------------------------------------------------------------------------------

  datatype Request = Request(host: string, path: string, notSecure: bool)

  /** What sending depends on: the cookies, the host-only marks and the way morsels are built. */
  datatype Shelf = Shelf(cookies: Table<Cookie>, hostOnly: set<(string, string)>, build: Cookie -> Morsel)

  /** The checks made on a cookie that was found (lines 459-469). */
  predicate Allowed(s: Shelf, c: Cookie, name: string, r: Request) {
    && ((c.domain, name) in s.hostOnly ==> c.domain == r.host)
    && |c.path| <= |r.path| && (r.notSecure ==> !c.secure)
  }

  predicate DomainAllowed(unsafe: bool, d: string, host: string) {
    if IsIpAddress(host) then unsafe && d == host else DotSuffix(d, host)
  }

  /** A scan over all stored cookies would send this one. */
  predicate Sends(s: Shelf, unsafe: bool, r: Request, id: Id) {
    && Lookup(s.cookies, id).Some? && DomainAllowed(unsafe, id.domain, r.host) && SlashPrefix(id.path, r.path)
    && Allowed(s, Lookup(s.cookies, id).value, id.name, r)
  }

  predicate NoBetter(x: Key, y: Key) {
    |x.domain| < |y.domain| || (|x.domain| == |y.domain| && |x.path| <= |y.path|)
  }

  /** Of all the cookies of its name that would be sent, the one with the longest domain and then
      the longest path. */
  ghost predicate Wins(s: Shelf, unsafe: bool, r: Request, id: Id) {
    && Sends(s, unsafe, r, id)
    && forall x :: Sends(s, unsafe, r, x) && x.name == id.name ==> NoBetter(x.Place(), id.Place())
  }

  const SHARED := Key("", "")

  // ---- what the jar does: look up each domain with each path ----

  function DomainsFor(unsafe: bool, host: string): seq<string> {
    if !IsIpAddress(host) then Domains(host) else if unsafe then [host] else []
  }

  function PathRow(d: string, paths: seq<string>): seq<Key> {
    seq(|paths|, j requires 0 <= j < |paths| => Key(d, paths[j]))
  }

  /** `itertools.product` */
  function Pairs(domains: seq<string>, paths: seq<string>): seq<Key> {
    if domains == [] then [] else Pairs(domains[..|domains| - 1], paths) + PathRow(domains[|domains| - 1], paths)
  }

  function Probes(unsafe: bool, r: Request): seq<Key> { Pairs(DomainsFor(unsafe, r.host), Paths(r.path)) }

  /** The morsels of one domain and path that are sent. */
  function Sendable(s: Shelf, k: Key, r: Request): map<string, Morsel> {
    map n | n in At(s.cookies, k) && Allowed(s, At(s.cookies, k)[n], n, r) :: s.build(At(s.cookies, k)[n])
  }

  function Shared(s: Shelf): map<string, Morsel> {
    map n | n in At(s.cookies, SHARED) :: s.build(At(s.cookies, SHARED)[n])
  }

  /** Later lookups overwrite earlier ones. */
  function Overlay(s: Shelf, ks: seq<Key>, r: Request): map<string, Morsel> {
    if ks == [] then Shared(s) else Overlay(s, ks[..|ks| - 1], r) + Sendable(s, ks[|ks| - 1], r)
  }

  /** The last lookup that finds the name decides. */
  lemma {:induction false} LastLookupDecides(s: Shelf, ks: seq<Key>, r: Request, name: string) returns (i: int)
    ensures -1 <= i < |ks| && forall j :: i < j < |ks| ==> name !in Sendable(s, ks[j], r)
    ensures i >= 0 ==>
      name in Sendable(s, ks[i], r) && name in Overlay(s, ks, r) &&
      Overlay(s, ks, r)[name] == Sendable(s, ks[i], r)[name]
    ensures i == -1 ==>
      (name in Overlay(s, ks, r) <==> name in Shared(s)) &&
      (name in Shared(s) ==> Overlay(s, ks, r)[name] == Shared(s)[name])
    decreases |ks|
  {
    hide Sendable, Shared;
    if ks == [] { return -1; }
    var n := |ks| - 1;
    if name in Sendable(s, ks[n], r) { return n; }
    i := LastLookupDecides(s, ks[..n], r, name);
  }

  predicate Rising(ks: seq<Key>) {
    forall i, j :: 0 <= i < j < |ks| ==>
      |ks[i].domain| < |ks[j].domain| || (ks[i].domain == ks[j].domain && |ks[i].path| < |ks[j].path|)
  }

  lemma {:induction false} PairsRise(domains: seq<string>, paths: seq<string>)
    requires Ascending(domains) && Ascending(paths)
    ensures Rising(Pairs(domains, paths))
    ensures forall k :: k in Pairs(domains, paths) <==> k.domain in domains && k.path in paths
    decreases |domains|
  {
    hide Rising, PathRow, Ascending;
    NoRow();
    if domains != [] {
      var front, d := domains[..|domains| - 1], domains[|domains| - 1];
      ShorterFront(domains);
      PairsRise(front, paths);
      RowKeys(d, paths);
      RowAfter(Pairs(front, paths), d, paths);
      forall k ensures k in Pairs(domains, paths) <==> k.domain in domains && k.path in paths {
        assert k.domain in domains <==> k.domain in front || k.domain == d;
      }
    }
  }

  lemma ShorterFront(domains: seq<string>)
    requires domains != [] && Ascending(domains)
    ensures var front, d := domains[..|domains| - 1], domains[|domains| - 1];
      domains == front + [d] && Ascending(front) && forall x :: x in front ==> |x| < |d|
  {
  }

  lemma NoRow()
    ensures Rising([])
  {
  }

  /** A row of a longer domain goes behind the others. */
  lemma RowAfter(before: seq<Key>, d: string, paths: seq<string>)
    requires Rising(before) && Ascending(paths) && forall k :: k in before ==> |k.domain| < |d|
    ensures Rising(before + PathRow(d, paths))
  {
    var row := PathRow(d, paths);
    forall i, j | 0 <= i < j < |before + row|
      ensures var ks := before + row;
        |ks[i].domain| < |ks[j].domain| || (ks[i].domain == ks[j].domain && |ks[i].path| < |ks[j].path|)
    {
      if i < |before| <= j { assert before[i] in before && (before + row)[j] == row[j - |before|]; }
    }
  }

  lemma RowKeys(d: string, paths: seq<string>)
    ensures forall k :: k in PathRow(d, paths) <==> k.domain == d && k.path in paths
  {
    forall k: Key | k.domain == d && k.path in paths ensures k in PathRow(d, paths) {
      var j :| 0 <= j < |paths| && paths[j] == k.path;
      assert PathRow(d, paths)[j] == k;
    }
  }

  /** The keys looked up are those a scan would accept, the winner last. */
  lemma ProbesAreScanned(unsafe: bool, r: Request)
    ensures Rising(Probes(unsafe, r))
    ensures forall k :: k in Probes(unsafe, r) <==>
      DomainAllowed(unsafe, k.domain, r.host) && SlashPrefix(k.path, r.path)
  {
    hide IsIpAddress, Domains, Paths, DotSuffix, SlashPrefix, Pairs, Rising;
    DomainsAreDotSuffixes(r.host);
    PathsAreSlashPrefixes(r.path);
    assert Ascending([r.host]) && Ascending([]);
    PairsRise(DomainsFor(unsafe, r.host), Paths(r.path));
  }

  lemma SendsIffFound(s: Shelf, unsafe: bool, r: Request, id: Id)
    ensures Sends(s, unsafe, r, id) <==> id.Place() in Probes(unsafe, r) && id.name in Sendable(s, id.Place(), r)
    ensures id.name in Sendable(s, id.Place(), r) ==>
      Sendable(s, id.Place(), r)[id.name] == s.build(Lookup(s.cookies, id).value)
  {
    hide Probes, DomainAllowed, SlashPrefix, Allowed, Rising;
    ProbesAreScanned(unsafe, r);
  }

  /** The index equals the scan: for each name the jar sends the winner, or the shared cookie if no
      other is sent. */
  lemma IndexIsScan(s: Shelf, unsafe: bool, r: Request, name: string)
    ensures (exists w: Id :: w.name == name && Sends(s, unsafe, r, w)) ==>
      exists id: Id :: id.name == name && Wins(s, unsafe, r, id)
    ensures forall id: Id :: id.name == name && Wins(s, unsafe, r, id) ==>
      var f := Overlay(s, Probes(unsafe, r), r); name in f && f[name] == s.build(Lookup(s.cookies, id).value)
    ensures (forall w: Id :: w.name == name ==> !Sends(s, unsafe, r, w)) ==>
      var f := Overlay(s, Probes(unsafe, r), r);
      (name in f <==> name in Shared(s)) && (name in f ==> f[name] == Shared(s)[name])
  {
    hide Sends, Probes, Sendable, Overlay, Shared, Rising;
    var ks := Probes(unsafe, r);
    ProbesAreScanned(unsafe, r);
    var i := LastLookupDecides(s, ks, r, name);
    forall x: Id | x.name == name
      ensures Sends(s, unsafe, r, x) <==> x.Place() in ks && name in Sendable(s, x.Place(), r)
    {
      SendsIffFound(s, unsafe, r, x);
    }
    if i >= 0 {
      var id := Id(ks[i].domain, ks[i].path, name);
      assert id.Place() == ks[i];
      SendsIffFound(s, unsafe, r, id);
      forall x: Id | Sends(s, unsafe, r, x) && x.name == name ensures NoBetter(x.Place(), id.Place()) {
        EarlierIsNoBetter(s, ks, r, name, i, x);
      }
      assert Wins(s, unsafe, r, id);
      forall x: Id | x.name == name && Wins(s, unsafe, r, x) ensures x == id { WinnerIsUnique(s, unsafe, r, x, id); }
    }
  }

  lemma EarlierIsNoBetter(s: Shelf, ks: seq<Key>, r: Request, name: string, i: nat, x: Id)
    requires Rising(ks) && i < |ks| && x.Place() in ks && name in Sendable(s, x.Place(), r)
    requires forall j :: i < j < |ks| ==> name !in Sendable(s, ks[j], r)
    ensures NoBetter(x.Place(), ks[i])
  {
    hide Sendable;
    var j :| 0 <= j < |ks| && ks[j] == x.Place();
    assert j <= i;
  }

  lemma WinnerIsUnique(s: Shelf, unsafe: bool, r: Request, x: Id, y: Id)
    requires Wins(s, unsafe, r, x) && Wins(s, unsafe, r, y) && x.name == y.name
    ensures x == y
  {
    hide Allowed, Lookup, IsIpAddress;
    assert NoBetter(x.Place(), y.Place()) && NoBetter(y.Place(), x.Place());
    assert r.path[..|x.path|] == x.path && r.path[..|y.path|] == y.path;
  }

  /** What `filter_cookies` returns: for every name the winner, if there is one, or else the shared
      cookie. */
  ghost predicate IsScan(s: Shelf, unsafe: bool, r: Request, f: map<string, Morsel>) {
    && (forall id :: Wins(s, unsafe, r, id) ==> id.name in f && f[id.name] == s.build(Lookup(s.cookies, id).value))
    && forall name :: NoneSent(s, unsafe, r, name) ==>
         (name in f <==> Lookup(s.cookies, Id("", "", name)).Some?)
         && (name in f ==> f[name] == s.build(Lookup(s.cookies, Id("", "", name)).value))
  }

  ghost predicate NoneSent(s: Shelf, unsafe: bool, r: Request, name: string) {
    forall id: Id :: id.name == name ==> !Sends(s, unsafe, r, id)
  }

  lemma OverlayIsScan(s: Shelf, unsafe: bool, r: Request)
    ensures IsScan(s, unsafe, r, Overlay(s, Probes(unsafe, r), r))
  {
    hide Overlay, Probes;
    forall id | Wins(s, unsafe, r, id)
      ensures var f := Overlay(s, Probes(unsafe, r), r);
        id.name in f && f[id.name] == s.build(Lookup(s.cookies, id).value)
    {
      IndexIsScan(s, unsafe, r, id.name);
    }
    forall name | NoneSent(s, unsafe, r, name)
      ensures var f := Overlay(s, Probes(unsafe, r), r);
        (name in f <==> Lookup(s.cookies, Id("", "", name)).Some?)
        && (name in f ==> f[name] == s.build(Lookup(s.cookies, Id("", "", name)).value))
    {
      IndexIsScan(s, unsafe, r, name);
    }
  }

  lemma NothingStored(s: Shelf, unsafe: bool, r: Request)
    ensures s.cookies == map[] ==> IsScan(s, unsafe, r, map[])
    ensures s.cookies == map[] ==> forall id :: Lookup(s.cookies, id) == None
  {
  }

  /** What has been sent once the `names` of a row are done. */
  function RowOnto(f: map<string, Morsel>, s: Shelf, k: Key, r: Request, names: set<string>): map<string, Morsel> {
    f + map n | n in names && n in Sendable(s, k, r) :: Sendable(s, k, r)[n]
  }

  lemma NoneOfRow(s: Shelf, k: Key, r: Request, f: map<string, Morsel>)
    ensures RowOnto(f, s, k, r, {}) == f
  {
  }

  lemma OneOfRow(s: Shelf, k: Key, r: Request, f: map<string, Morsel>, seen: set<string>, name: string)
    requires k in s.cookies && name in s.cookies[k]
    ensures RowOnto(f, s, k, r, seen + {name}) ==
      if Allowed(s, s.cookies[k][name], name, r) then RowOnto(f, s, k, r, seen)[name := s.build(s.cookies[k][name])]
      else RowOnto(f, s, k, r, seen)
  {
    hide Allowed;
  }

  lemma AllOfRow(s: Shelf, k: Key, r: Request, f: map<string, Morsel>, seen: set<string>)
    requires k in s.cookies && seen == s.cookies[k].Keys
    ensures RowOnto(f, s, k, r, seen) == f + Sendable(s, k, r)
  {
    hide Allowed;
    assert (map n | n in seen && n in Sendable(s, k, r) :: Sendable(s, k, r)[n]) == Sendable(s, k, r);
  }

  lemma NoLookups(s: Shelf, paths: seq<string>, r: Request)
    ensures Pairs([], paths) == [] && Overlay(s, [], r) == Shared(s)
  {
  }

  /** For a cookie with a domain and a path that does not end in two slashes, a host that is no IP
      address gets it exactly by the rules of section 5.4 of RFC 6265. */
  lemma SendsByTheRfc(s: Shelf, unsafe: bool, r: Request, id: Id)
    requires Lookup(s.cookies, id).Some? && IdOf(id.name, Lookup(s.cookies, id).value) == id
    requires id.domain != "" && !IsIpAddress(r.host)
    requires Lookup(s.cookies, id).value.path != "" && Lookup(s.cookies, id).value.path[0] == '/' &&
      !EndsWith(Lookup(s.cookies, id).value.path, "//")
    ensures var c := Lookup(s.cookies, id).value;
      Sends(s, unsafe, r, id) <==>
        && IsDomainMatch(c.domain, r.host) && ((c.domain, id.name) in s.hostOnly ==> c.domain == r.host)
        && RfcPathMatch(r.path, c.path) && (r.notSecure ==> !c.secure)
  {
    hide IsIpAddress, IsDomainMatch, RfcPathMatch, Lookup, DotSuffix, SlashPrefix, TrimSlashes;
    var c := Lookup(s.cookies, id).value;
    ProbedDomainsAreAccepted(r.host, id.domain);
    DomainsAreDotSuffixes(r.host);
    PathRuleIsRfcIff(c.path);
    assert JarPathMatch(r.path, c.path) <==> RfcPathMatch(r.path, c.path);
  }

  // ---- the jar -------------------------------------------------------------------------------------

  class CookieJar {
    const unsafe: bool
    const maxTime: int
    const build: Cookie -> Morsel // `_build_morsel`
    var cookies: Table<Cookie>
    var morselCache: Table<Morsel>
    var hostOnly: set<(string, string)>
    var expireHeap: seq<Entry>
    var expirations: map<Id, int>

    /** Cookies are stored under their own domain, stripped path and name. */
    predicate WellKept(id: Id, c: Cookie) { IdOf(c.key, c) == id }

    /** Every cached morsel is the one that would be built from the cookie under the same key and name. */
    ghost predicate Coherent()
      reads this
    {
      && (forall id :: Lookup(cookies, id).Some? ==> WellKept(id, Lookup(cookies, id).value))
      && forall id :: Lookup(morselCache, id).Some? ==>
           Lookup(cookies, id).Some? && Lookup(morselCache, id).value == build(Lookup(cookies, id).value)
    }

    /** Every recorded deadline has its entry in the heap. */
    ghost predicate Scheduled()
      reads this
    {
      EarliestFirst(expireHeap) && forall id :: id in expirations ==> Entry(expirations[id], id) in expireHeap
    }

    ghost predicate Valid()
      reads this
    {
      Coherent() && Scheduled()
    }

    constructor (unsafe: bool, maxTime: int, build: Cookie -> Morsel)
      ensures this.unsafe == unsafe && this.maxTime == maxTime && this.build == build
      ensures Valid() && cookies == map[] && expirations == map[] && hostOnly == {}
    {
      this.unsafe, this.maxTime, this.build := unsafe, maxTime, build;
      cookies, morselCache, hostOnly, expireHeap, expirations := map[], map[], {}, [], map[];
    }

    /** `_delete_cookies` */
    method DeleteCookies(toDel: seq<Id>)
      modifies this`cookies, this`morselCache, this`hostOnly, this`expirations
      ensures old(Coherent()) ==> Coherent()
      ensures forall id :: Lookup(cookies, id) == if id in toDel then None else Lookup(old(cookies), id)
      ensures forall id :: id in expirations <==> id in old(expirations) && id !in toDel
      ensures forall id :: id in expirations ==> expirations[id] == old(expirations)[id]
      ensures hostOnly == old(hostOnly) - (set id | id in toDel :: (id.domain, id.name))
    {
      for i := 0 to |toDel|
        invariant old(Coherent()) ==> Coherent()
        invariant forall id :: Lookup(cookies, id) == if id in toDel[..i] then None else Lookup(old(cookies), id)
        invariant forall id :: id in expirations <==> id in old(expirations) && id !in toDel[..i]
        invariant forall id :: id in expirations ==> expirations[id] == old(expirations)[id]
        invariant hostOnly == old(hostOnly) - (set id | id in toDel[..i] :: (id.domain, id.name))
      {
        DeleteOne(toDel[i]);
        assert forall id :: id in toDel[..i + 1] <==> id in toDel[..i] || id == toDel[i];
      }
      assert toDel[..|toDel|] == toDel;
    }

    method DeleteOne(id: Id)
      modifies this`cookies, this`morselCache, this`hostOnly, this`expirations
      ensures old(Coherent()) ==> Coherent()
      ensures forall x :: Lookup(cookies, x) == if x == id then None else Lookup(old(cookies), x)
      ensures expirations == old(expirations) - {id} && hostOnly == old(hostOnly) - {(id.domain, id.name)}
    {
      hide Lookup, Pop;
      hostOnly := hostOnly - {(id.domain, id.name)};
      PopLookup(cookies, id);
      PopLookup(morselCache, id);
      cookies := Pop(cookies, id);
      morselCache := Pop(morselCache, id);
      expirations := expirations - {id};
    }

    /** `_expire_cookie` */
    method ExpireCookie(when: int, id: Id)
      requires Scheduled()
      modifies this`expireHeap, this`expirations
      ensures Scheduled() && expirations == old(expirations)[id := when]
      ensures multiset(expireHeap) ==
        multiset(old(expireHeap)) + if id in old(expirations) && old(expirations)[id] == when then multiset{}
          else multiset{Entry(when, id)}
    {
      if id in expirations && expirations[id] == when { return; }
      ghost var before := expireHeap;
      expireHeap := HeapPush(expireHeap, Entry(when, id));
      forall e ensures e in expireHeap <==> e in before || e == Entry(when, id) {
        assert e in expireHeap <==> e in multiset(expireHeap);
      }
      expirations := expirations[id := when];
    }

    /** One turn of the loop of `update_cookies` (lines 334-393). */
    method UpdateOne(name: string, cookie: Cookie, o: Origin, now: int)
      requires Scheduled()
      modifies this
      ensures Scheduled() && (old(Coherent()) && cookie.key == name ==> Coherent())
      ensures hostOnly == old(hostOnly) + HostOnlyName(name, cookie, o)
      ensures forall x :: Lookup(cookies, x) == if Sets(name, cookie, o, x) then Some(AsStored(cookie, o))
        else Lookup(old(cookies), x)
      ensures expirations == Record(old(expirations), name, cookie, o, now, maxTime)
    {
      hide Lookup, TrimSlashes, IsDomainMatch, DefaultPath, EarliestFirst, WellKept;
      var accepted := Normalize(name, cookie, o);
      if accepted.None? { return; }
      var c := accepted.value;
      var path := TrimSlashes(c.path);
      var id := Id(c.domain, path, name);
      c := Schedule(id, c, now);
      if c.key == name { KeptUnder(id, c); }
      Store(id, c);
    }

    lemma KeptUnder(id: Id, c: Cookie)
      requires id == IdOf(c.key, c)
      ensures WellKept(id, c)
    {
    }

    /** Lines 340-371: domain and path are filled in; a cookie for a foreign domain is dropped. */
    method Normalize(name: string, cookie: Cookie, o: Origin) returns (r: Option<Cookie>)
      modifies this`hostOnly
      ensures hostOnly == old(hostOnly) + HostOnlyName(name, cookie, o)
      ensures r == if Foreign(cookie.domain, o.host) then None
        else Some(cookie.(domain := StoredDomain(cookie.domain, o.host), path := StoredPath(cookie.path, o.path)))
    {
      hide IsDomainMatch, DefaultPath;
      var c := cookie;
      var domain := c.domain;
      // a trailing dot voids the domain
      if domain != "" && domain[|domain| - 1] == '.' {
        domain := "";
        c := c.(domain := "");
      }
      if domain == "" && o.host.Some? {
        hostOnly := hostOnly + {(o.host.value, name)};
        domain := o.host.value;
        c := c.(domain := domain);
      }
      if domain != "" && domain[0] == '.' {
        domain := domain[1..];
        c := c.(domain := domain);
      }
      if o.host.Some? && o.host.value != "" && !IsDomainMatch(domain, o.host.value) { return None; }
      if c.path == "" || c.path[0] != '/' { c := c.(path := DefaultPath(o.path)); }
      return Some(c);
    }

    /** Lines 374-386: the deadline is recorded, an attribute that gives none is blanked. */
    method Schedule(id: Id, cookie: Cookie, now: int) returns (c: Cookie)
      requires Scheduled()
      modifies this`expireHeap, this`expirations
      ensures Scheduled() && (old(Coherent()) ==> Coherent())
      ensures c == cookie.(maxAge := if cookie.maxAge.BadAge? then NoAge else cookie.maxAge,
        expires := if cookie.maxAge.NoAge? && (cookie.expires.BadDate? || cookie.expires == Date(0)) then NoDate
          else cookie.expires)
      ensures expirations ==
        match Deadline(cookie, now, maxTime) case None => old(expirations) case Some(d) => old(expirations)[id := d]
    {
      c := cookie;
      match c.maxAge {
        case Age(seconds) =>
          ExpireCookie(if now + seconds < maxTime then now + seconds else maxTime, id);
        case BadAge => c := c.(maxAge := NoAge);
        case NoAge =>
          if c.expires.Date? && c.expires.time != 0 {
            ExpireCookie(c.expires.time, id);
          } else if c.expires != NoDate {
            c := c.(expires := NoDate);
          }
      }
    }

    /** Lines 388-393: the cached morsel goes, unless the same cookie is set again. */
    method Store(id: Id, c: Cookie)
      modifies this`cookies, this`morselCache
      ensures old(Coherent()) && WellKept(id, c) ==> Coherent()
      ensures forall x :: Lookup(cookies, x) == if x == id then Some(c) else Lookup(old(cookies), x)
    {
      hide Lookup, Put, Pop, WellKept;
      if Lookup(cookies, id) != Some(c) {
        PutLookup(cookies, id, c);
        PopLookup(morselCache, id);
        cookies := Put(cookies, id, c);
        morselCache := Pop(morselCache, id);
      }
    }

    /** `_do_expiration`: exactly the cookies whose recorded deadline has passed are removed. */
    method DoExpiration(now: int)
      requires Scheduled()
      modifies this
      ensures Scheduled() && (old(Coherent()) ==> Coherent())
      ensures forall id :: Lookup(cookies, id) == if IsDue(old(expirations), id, now) then None
        else Lookup(old(cookies), id)
      ensures forall id :: id in expirations <==> id in old(expirations) && !IsDue(old(expirations), id, now)
      ensures forall id :: id in expirations ==> expirations[id] == old(expirations)[id]
      ensures hostOnly == old(hostOnly) - DueNames(old(expirations), now)
      ensures forall e :: e in expireHeap ==> e.when > now
    {
      hide Lookup, WellKept, EarliestFirst, IsDue, DueNames;
      if expireHeap == [] {
        NothingIsDue(expirations, now);
        return;
      }
      if |expireHeap| > MIN_SCHEDULED_COOKIE_EXPIRATION && |expireHeap| > |expirations| * 2 { Compact(); }
      var toDel := PopDue(now);
      NamesDue(toDel, expirations, now);
      if toDel != [] { DeleteCookies(toDel); }
    }

    lemma NothingIsDue(due: map<Id, int>, now: int)
      requires due == map[]
      ensures DueNames(due, now) == {} && forall id :: !IsDue(due, id, now)
    {
    }

    lemma NamesDue(ids: seq<Id>, due: map<Id, int>, now: int)
      requires forall id :: id in ids <==> IsDue(due, id, now)
      ensures (set id | id in ids :: (id.domain, id.name)) == DueNames(due, now)
    {
    }

    /** Lines 275-288: stale entries are dropped from a heap that has grown too large. */
    method Compact()
      requires Scheduled()
      modifies this`expireHeap
      ensures Scheduled()
      ensures forall e :: e in expireHeap <==>
        e in old(expireHeap) && e.id in expirations && expirations[e.id] == e.when
    {
      ghost var before := expireHeap;
      var kept := Current(expireHeap, expirations);
      expireHeap := Heapify(kept);
      CurrentEntries(before, expirations);
      SameEntries(expireHeap, kept);
    }

    /** Lines 290-303: entries that are due are taken off; a stale one names no deadline any more. */
    method PopDue(now: int) returns (toDel: seq<Id>)
      requires Scheduled()
      modifies this`expireHeap
      ensures forall id :: id in toDel <==> IsDue(expirations, id, now)
      ensures EarliestFirst(expireHeap) && forall e :: e in expireHeap ==> e.when > now
      ensures forall id :: id in expirations && !IsDue(expirations, id, now) ==>
        Entry(expirations[id], id) in expireHeap
    {
      toDel := [];
      while expireHeap != []
        invariant EarliestFirst(expireHeap)
        invariant forall id :: id in toDel ==> id in expirations && expirations[id] <= now
        invariant forall id :: id in expirations ==> Entry(expirations[id], id) in expireHeap || id in toDel
        decreases |expireHeap|
      {
        var first := expireHeap[0];
        if first.when > now { break; }
        ghost var before := expireHeap;
        expireHeap := HeapPop(expireHeap);
        PoppedEntries(before, expireHeap);
        if first.id in expirations && expirations[first.id] == first.when { toDel := toDel + [first.id]; }
      }
      assert forall e :: e in expireHeap ==> e.when > now;
    }

    /** `update_cookies`: of several cookies for the same domain, path and name the last one is kept,
        with the last deadline that was given, and what is due is removed. The cache stays coherent as
        long as morsels are set under their own keys. */
    method UpdateCookies(news: seq<(string, Cookie)>, o: Origin, now: int)
      requires Scheduled()
      modifies this
      ensures Scheduled() && (old(Coherent()) && OwnKeys(news) ==> Coherent())
      ensures Refuses(unsafe, o) ==>
        cookies == old(cookies) && morselCache == old(morselCache) && expirations == old(expirations) &&
          hostOnly == old(hostOnly)
      ensures !Refuses(unsafe, o) ==>
        var due := RecordAll(old(expirations), news, o, now, maxTime, |news|);
        && (forall id :: Lookup(cookies, id) == if IsDue(due, id, now) then None
          else Latest(old(cookies), news, o, id, |news|))
        && (forall id :: id in expirations <==> id in due && !IsDue(due, id, now))
        && (forall id :: id in expirations ==> expirations[id] == due[id])
        && hostOnly == old(hostOnly) + HostOnlyNames(news, o, |news|) - DueNames(due, now)
    {
      hide Lookup, WellKept, RecordAll, HostOnlyNames, EarliestFirst, Latest, IsIpAddress;
      if !unsafe && o.host.Some? && IsIpAddress(o.host.value) { return; }
      UpdateAll(news, o, now);
      DoExpiration(now);
    }

    method UpdateAll(news: seq<(string, Cookie)>, o: Origin, now: int)
      requires Scheduled()
      modifies this
      ensures Scheduled() && (old(Coherent()) && OwnKeys(news) ==> Coherent())
      ensures forall id :: Lookup(cookies, id) == Latest(old(cookies), news, o, id, |news|)
      ensures expirations == RecordAll(old(expirations), news, o, now, maxTime, |news|)
      ensures hostOnly == old(hostOnly) + HostOnlyNames(news, o, |news|)
    {
      hide Lookup, WellKept, Record, HostOnlyName, EarliestFirst, Sets, Latest, RecordAll, HostOnlyNames;
      NothingNew(old(cookies), old(expirations), news, o, now, maxTime);
      for i := 0 to |news|
        invariant Scheduled() && (old(Coherent()) && OwnKeys(news) ==> Coherent())
        invariant forall id :: Lookup(cookies, id) == Latest(old(cookies), news, o, id, i)
        invariant expirations == RecordAll(old(expirations), news, o, now, maxTime, i)
        invariant hostOnly == old(hostOnly) + HostOnlyNames(news, o, i)
      {
        OneMore(old(cookies), old(expirations), news, o, now, maxTime, i);
        UpdateOne(news[i].0, news[i].1, o, now);
      }
    }

    ghost function OnShelf(): Shelf
      reads this
    {
      Shelf(cookies, hostOnly, build)
    }

    /** The morsels of one domain and path. */
    method SendRow(k: Key, r: Request, filtered: map<string, Morsel>) returns (f: map<string, Morsel>)
      requires Valid() && k in cookies
      modifies this`morselCache
      ensures Valid() && f == filtered + Sendable(OnShelf(), k, r)
    {
      hide Allowed, WellKept, Lookup, RowOnto, Sendable, EarliestFirst;
      ghost var shelf, seen := OnShelf(), {};
      f := filtered;
      NoneOfRow(shelf, k, r, filtered);
      var names := cookies[k].Keys;
      while names != {}
        invariant Valid() && names + seen == cookies[k].Keys && OnShelf() == shelf
        invariant f == RowOnto(filtered, shelf, k, r, seen)
        decreases |names|
      {
        var name :| name in names;
        names := names - {name};
        OneOfRow(shelf, k, r, filtered, seen, name);
        f := SendOne(k, name, r, f);
        seen := seen + {name};
      }
      AllOfRow(shelf, k, r, filtered, seen);
    }

    /** Lines 458-479: one cookie, if the checks let it pass. */
    method SendOne(k: Key, name: string, r: Request, filtered: map<string, Morsel>) returns (f: map<string, Morsel>)
      requires Valid() && k in cookies && name in cookies[k]
      modifies this`morselCache
      ensures Valid() && f ==
        if Allowed(OnShelf(), cookies[k][name], name, r) then filtered[name := build(cookies[k][name])] else filtered
    {
      hide WellKept;
      var cookie := cookies[k][name];
      if (cookie.domain, name) in hostOnly && cookie.domain != r.host { return filtered; }
      // the slash at the end of a cookie path may be one too many
      if |cookie.path| > |r.path| { return filtered; }
      if r.notSecure && cookie.secure { return filtered; }
      var m := BuildOrCached(Id(k.domain, k.path, name), cookie);
      return filtered[name := m];
    }

    /** Lines 471-479: the cached morsel is reused, otherwise one is built and cached. */
    method BuildOrCached(id: Id, cookie: Cookie) returns (m: Morsel)
      requires Valid() && Lookup(cookies, id) == Some(cookie)
      modifies this`morselCache
      ensures Valid() && m == build(cookie) && Lookup(morselCache, id) == Some(m)
      ensures forall x :: x != id ==> Lookup(morselCache, x) == Lookup(old(morselCache), x)
    {
      hide Lookup, WellKept, Put;
      var cached := Lookup(morselCache, id);
      if cached.Some? { return cached.value; }
      m := build(cookie);
      PutLookup(morselCache, id, m);
      morselCache := Put(morselCache, id, m);
    }

    /** `_cookies` is a dictionary that creates what is looked up. */
    method TouchShared()
      requires Valid()
      modifies this`cookies
      ensures Valid() && SHARED in cookies && forall id :: Lookup(cookies, id) == Lookup(old(cookies), id)
    {
      hide WellKept, EarliestFirst;
      if SHARED !in cookies { cookies := cookies[SHARED := map[]]; }
      assert forall id :: Lookup(cookies, id) == Lookup(old(cookies), id);
    }

    lemma SharedLookup(name: string)
      requires SHARED in cookies && name in cookies[SHARED] && Coherent()
      ensures var c := cookies[SHARED][name]; Lookup(cookies, Id("", "", name)) == Some(c) && c.key == name
    {
    }

    /** Lines 425-436: the cookies without a domain go to every host. */
    method SendShared() returns (f: map<string, Morsel>)
      requires Valid()
      modifies this`cookies, this`morselCache
      ensures Valid() && f == Shared(OnShelf())
      ensures forall id :: Lookup(cookies, id) == Lookup(old(cookies), id)
    {
      hide WellKept, EarliestFirst, Lookup;
      TouchShared();
      f := map[];
      var names := cookies[SHARED].Keys;
      ghost var table := cookies;
      while names != {}
        invariant Valid() && cookies == table && names <= cookies[SHARED].Keys
        invariant f == map n | n in Shared(OnShelf()) && n !in names :: Shared(OnShelf())[n]
        decreases |names|
      {
        var name :| name in names;
        names := names - {name};
        var cookie := cookies[SHARED][name];
        SharedLookup(name);
        var m := BuildOrCached(Id("", "", cookie.key), cookie);
        f := f[cookie.key := m];
      }
    }

    /** `filter_cookies`: what is due is removed; then each name gets the cookie with the longest
        domain and then the longest path of all that a scan would send, or a shared one. */
    method FilterCookies(r: Request, now: int) returns (filtered: map<string, Morsel>)
      requires Valid()
      modifies this
      ensures Valid() && IsScan(OnShelf(), unsafe, r, filtered)
      ensures forall id :: Lookup(cookies, id) == if IsDue(old(expirations), id, now) then None
        else Lookup(old(cookies), id)
    {
      hide Lookup, IsScan, Overlay, Probes, WellKept;
      filtered := map[];
      NothingStored(OnShelf(), unsafe, r);
      if cookies == map[] { return; }
      DoExpiration(now);
      NothingStored(OnShelf(), unsafe, r);
      if cookies == map[] { return; }
      filtered := SendAll(r);
      OverlayIsScan(OnShelf(), unsafe, r);
    }

    method SendAll(r: Request) returns (filtered: map<string, Morsel>)
      requires Valid()
      modifies this`cookies, this`morselCache
      ensures Valid() && forall id :: Lookup(cookies, id) == Lookup(old(cookies), id)
      ensures filtered == Overlay(OnShelf(), Probes(unsafe, r), r)
    {
      hide Sendable, Shared, Domains, Paths, WellKept, Pairs;
      filtered := SendShared();
      ghost var shelf := OnShelf();
      NoLookups(shelf, Paths(r.path), r);
      var domains: seq<string>;
      if IsIpAddress(r.host) {
        if !unsafe { return; }
        domains := [r.host];
      } else {
        domains := Domains(r.host);
      }
      var pairs := Pairs(domains, Paths(r.path));
      for i := 0 to |pairs|
        invariant Valid() && OnShelf() == shelf && filtered == Overlay(shelf, pairs[..i], r)
      {
        assert pairs[..i + 1][..i] == pairs[..i];
        if pairs[i] !in cookies { NothingThere(shelf, pairs[i], r); continue; }
        filtered := SendRow(pairs[i], r, filtered);
      }
      assert pairs[..|pairs|] == pairs;
    }

    /** `clear(predicate)`: what is due or satisfies the predicate is removed, and nothing else. */
    method ClearWhere(unwanted: Cookie -> bool, now: int)
      requires Valid()
      modifies this
      ensures Valid()
      ensures forall id ::
        Lookup(cookies, id) ==
        if Goes(old(cookies), old(expirations), unwanted, now, id) then None else Lookup(old(cookies), id)
      ensures forall id :: id in expirations <==>
        id in old(expirations) && !Goes(old(cookies), old(expirations), unwanted, now, id)
      ensures forall id :: id in expirations ==> expirations[id] == old(expirations)[id]
    {
      hide Lookup, WellKept;
      var toDel := AllUnwanted(unwanted, now);
      if toDel != [] { DeleteCookies(toDel); }
    }

    method AllUnwanted(unwanted: Cookie -> bool, now: int) returns (toDel: seq<Id>)
      ensures forall id :: id in toDel <==> Goes(cookies, expirations, unwanted, now, id)
    {
      hide Lookup, IsDue;
      toDel := [];
      var places := cookies.Keys;
      while places != {}
        invariant places <= cookies.Keys
        invariant forall id :: id in toDel <==>
          id.Place() in cookies.Keys - places && Goes(cookies, expirations, unwanted, now, id)
        decreases |places|
      {
        var place :| place in places;
        places := places - {place};
        var more := Unwanted(place, unwanted, now);
        toDel := toDel + more;
      }
      PlacesOfStored(cookies);
    }

    method Unwanted(place: Key, unwanted: Cookie -> bool, now: int) returns (toDel: seq<Id>)
      requires place in cookies
      ensures forall id :: id in toDel <==> id.Place() == place && Goes(cookies, expirations, unwanted, now, id)
    {
      toDel := [];
      var names := cookies[place].Keys;
      while names != {}
        invariant names <= cookies[place].Keys
        invariant forall id :: id in toDel <==>
          id.Place() == place && id.name !in names && Goes(cookies, expirations, unwanted, now, id)
        decreases |names|
      {
        var name :| name in names;
        names := names - {name};
        var id := Id(place.domain, place.path, name);
        if (id in expirations && expirations[id] <= now) || unwanted(cookies[place][name]) { toDel := toDel + [id]; }
      }
    }

    /** `clear()` */
    method Clear()
      modifies this
      ensures Valid() && cookies == map[] && morselCache == map[] && expirations == map[] && expireHeap == [] &&
        hostOnly == {}
    {
      expireHeap, cookies, morselCache, hostOnly, expirations := [], map[], map[], {}, map[];
    }
  }

  /** Every morsel is set under its own key. */
  predicate OwnKeys(news: seq<(string, Cookie)>) { forall i :: 0 <= i < |news| ==> news[i].1.key == news[i].0 }

  // ---- deadlines of the latest setting ---------------------------------------------------------------

  /** The cookie lives by the deadline `d`: gone if that has passed, and otherwise stored with it. */
  ghost predicate LivesBy(jar: CookieJar, id: Id, c: Cookie, d: Option<int>, now: int)
    reads jar
  {
    if d.Some? && d.value <= now then Lookup(jar.cookies, id) == None && Recorded(jar.expirations, id) == None
    else Lookup(jar.cookies, id) == Some(c) && Recorded(jar.expirations, id) == d
  }

  /** After `update_cookies` the latest cookie of a domain, path and name lives by the deadline it came
      with if and only if it came with one or there was none before. */
  method UpdateAndCheck(jar: CookieJar, news: seq<(string, Cookie)>, o: Origin, now: int, ghost id: Id, ghost i: nat)
    requires jar.Scheduled() && !Refuses(jar.unsafe, o) && IsLatest(news, o, id, i)
    modifies jar
    ensures jar.Scheduled()
    ensures LivesBy(jar, id, AsStored(news[i].1, o), Deadline(news[i].1, now, jar.maxTime), now) <==>
      Deadline(news[i].1, now, jar.maxTime).Some? ||
      !HasDeadline(old(jar.expirations), news, o, now, jar.maxTime, id, i)
  {
    hide Sets, AsStored, Deadline, HasDeadline, RecordAll, Latest, Refuses, HostOnlyNames, Lookup;
    LatestIsLast(jar.cookies, news, o, id, |news|, i + 1);
    DeadlineIsLatestIff(jar.expirations, news, o, now, jar.maxTime, id, i);
    RecordedIffHas(jar.expirations, news, o, now, jar.maxTime, id, i);
    jar.UpdateCookies(news, o, now);
  }

  lemma OneNew(before: Table<Cookie>, due: map<Id, int>, n: string, c: Cookie, o: Origin, now: int, maxTime: int)
    ensures RecordAll(due, [(n, c)], o, now, maxTime, 1) == Record(due, n, c, o, now, maxTime)
    ensures forall id :: Latest(before, [(n, c)], o, id, 1) == if Sets(n, c, o, id) then Some(AsStored(c, o))
      else Lookup(before, id)
  {
    hide Sets, AsStored, Record, Lookup;
    NothingNew(before, due, [(n, c)], o, now, maxTime);
    OneMore(before, due, [(n, c)], o, now, maxTime, 0);
  }

  const EXAMPLE_ORIGIN := Origin(Some("h.x"), "/")
  const EXAMPLE_ID := Id("h.x", "", "n")

  function ExampleCookie(maxAge: Age): Cookie { Cookie("n", "1", "1", "", "/", false, maxAge, NoDate, "") }

  lemma ExampleIsSet(maxAge: Age)
    ensures forall id :: Sets("n", ExampleCookie(maxAge), EXAMPLE_ORIGIN, id) <==> id == EXAMPLE_ID
    ensures !Refuses(false, EXAMPLE_ORIGIN)
  {
    hide IsIpAddress;
    NoIpAddress();
    assert TrimSlashes("/") == "";
  }

  lemma ExampleRecord(due: map<Id, int>, maxAge: Age, now: int)
    requires maxAge.Age? ==> now + maxAge.seconds < 1000
    ensures Record(due, "n", ExampleCookie(maxAge), EXAMPLE_ORIGIN, now, 1000) ==
      if maxAge.Age? then due[EXAMPLE_ID := now + maxAge.seconds] else due
  {
    hide IsIpAddress;
    assert TrimSlashes("/") == "";
  }

  lemma NothingIsSent(s: Shelf, unsafe: bool, r: Request, f: map<string, Morsel>)
    requires IsScan(s, unsafe, r, f) && forall id :: Lookup(s.cookies, id) == None
    ensures f == map[]
  {
    hide Lookup, Wins;
    forall name ensures name !in f {
      forall id: Id | id.name == name ensures !Sends(s, unsafe, r, id) { assert Lookup(s.cookies, id) == None; }
      assert NoneSent(s, unsafe, r, name);
    }
  }

  /** A cookie with `max-age` 10, set at time 0, is replaced at time 5 by a session cookie of the same
      name: the new cookie keeps the old deadline, and is not sent any more when that has passed. */
  method SessionCookieExpires(build: Cookie -> Morsel)
    returns (stored: Option<Cookie>, deadline: Option<int>, sent: map<string, Morsel>)
    ensures stored.Some? && Deadline(stored.value, 5, 1000) == None && deadline == Some(10)
    ensures sent == map[]
  {
    hide Lookup, RecordAll, Latest, Sets, AsStored, Record, Refuses, HostOnlyNames, IsScan;
    var aged, session := ExampleCookie(Age(10)), ExampleCookie(NoAge);
    var jar := new CookieJar(false, 1000, build);
    assert forall id :: Lookup(jar.cookies, id) == None by { NoCookies(jar.cookies); }
    ExampleIsSet(Age(10));
    ExampleIsSet(NoAge);
    OneNew(jar.cookies, map[], "n", aged, EXAMPLE_ORIGIN, 0, 1000);
    ExampleRecord(map[], Age(10), 0);
    jar.UpdateCookies([("n", aged)], EXAMPLE_ORIGIN, 0);
    assert jar.expirations == map[EXAMPLE_ID := 10];
    OneNew(jar.cookies, jar.expirations, "n", session, EXAMPLE_ORIGIN, 5, 1000);
    ExampleRecord(jar.expirations, NoAge, 5);
    jar.UpdateCookies([("n", session)], EXAMPLE_ORIGIN, 5);
    assert jar.expirations == map[EXAMPLE_ID := 10];
    stored, deadline := Lookup(jar.cookies, EXAMPLE_ID), Recorded(jar.expirations, EXAMPLE_ID);
    assert stored == Some(AsStored(session, EXAMPLE_ORIGIN));
    ExampleHasNoAge();
    sent := jar.FilterCookies(Request("h.x", "/", false), 10);
    NothingIsSent(jar.OnShelf(), false, Request("h.x", "/", false), sent);
  }

  lemma ExampleHasNoAge()
    ensures Deadline(AsStored(ExampleCookie(NoAge), EXAMPLE_ORIGIN), 5, 1000) == None
  {
  }

  lemma NoCookies(cookies: Table<Cookie>)
    requires cookies == map[]
    ensures forall id :: Lookup(cookies, id) == None
  {
  }

  lemma NoIpAddress()
    ensures !IsIpAddress("h.x")
  {
    assert "h.x"[1..] == ".x" && ".x"[1..] == "x" && "x"[1..] == "";
    assert WithoutChar("x", '.') == "x" && WithoutChar(".x", '.') == "x" && WithoutChar("h.x", '.') == "hx";
    assert WithoutChar("h.x", '.')[0] == 'h';
  }

  /** A stored cookie that is due or unwanted. */
  predicate Goes(cookies: Table<Cookie>, due: map<Id, int>, unwanted: Cookie -> bool, now: int, id: Id) {
    Lookup(cookies, id).Some? && (IsDue(due, id, now) || unwanted(Lookup(cookies, id).value))
  }

  lemma PlacesOfStored(cookies: Table<Cookie>)
    ensures forall id :: Lookup(cookies, id).Some? ==> id.Place() in cookies
  {
  }

  lemma NothingThere(s: Shelf, k: Key, r: Request)
    requires k !in s.cookies
    ensures Sendable(s, k, r) == map[]
  {
  }

  lemma PoppedEntries(before: seq<Entry>, after: seq<Entry>)
    requires before != [] && multiset(after) == multiset(before) - multiset{before[0]}
    ensures forall e :: e in before ==> e in after || e == before[0]
    ensures forall e :: e in after ==> e in before
    ensures |after| < |before|
  {
    assert forall e :: e in after <==> e in multiset(after);
    assert forall e :: e in before <==> e in multiset(before);
    assert |multiset(after)| == |after| && |multiset(before)| == |before|;
    assert before[0] in multiset(before);
  }
}

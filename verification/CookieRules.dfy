/** What a cookie's own attributes promise: how long it lives, which path it gets and which hosts see it,
    from being set by `update_cookies` to being asked for by `filter_cookies`. */
module CookieRules {
  import opened ByteStrings
  import opened CookieMatching
  import opened CookieJars

  // ---- lifetimes -----------------------------------------------------------------------------------

  /** The cookie comes with no readable lifetime. */
  predicate Lasting(c: Cookie) {
    c.maxAge.BadAge? || (c.maxAge.NoAge? && (!c.expires.Date? || c.expires.time == 0))
  }

  function Min(a: int, b: int): int { if a <= b then a else b }

  function Max(a: int, b: int): int { if a >= b then a else b }

  lemma NoEarlierDeadline(due: map<Id, int>, news: seq<(string, Cookie)>, o: Origin, now: int, maxTime: int, id: Id,
    n: nat)
    requires n <= |news| && id !in due
    requires forall j :: 0 <= j < n && Sets(news[j].0, news[j].1, o, id) ==> Lasting(news[j].1)
    ensures !HasDeadline(due, news, o, now, maxTime, id, n)
  {
    hide Sets;
  }

  /** A cookie that is set when no deadline is known for its domain, path and name is there when it is
      asked for exactly if its lifetime is not over: `max-age` counts from now and is capped, and only
      without one `expires` counts, the epoch not being a date. */
  method SetAndAsk(jar: CookieJar, news: seq<(string, Cookie)>, o: Origin, now: int, r: Request, later: int,
    ghost id: Id, ghost i: nat)
    returns (sent: map<string, Morsel>)
    requires jar.Valid() && OwnKeys(news) && !Refuses(jar.unsafe, o) && IsLatest(news, o, id, i)
    requires id !in jar.expirations
    requires forall j :: 0 <= j < i && Sets(news[j].0, news[j].1, o, id) ==> Lasting(news[j].1)
    modifies jar
    ensures jar.Valid()
    ensures var c, there := news[i].1, Lookup(jar.cookies, id).Some?;
      && (c.maxAge.Age? ==> (there <==> Max(now, later) < Min(now + c.maxAge.seconds, jar.maxTime)))
      && (c.maxAge.NoAge? && c.expires.Date? && c.expires.time != 0 ==> (there <==> Max(now, later) < c.expires.time))
      && (Lasting(c) ==> there)
      && (there ==> Lookup(jar.cookies, id) == Some(AsStored(c, o)))
  {
    hide Sets, AsStored, HasDeadline, RecordAll, Latest, Refuses, HostOnlyNames, Lookup, IsScan;
    NoEarlierDeadline(jar.expirations, news, o, now, jar.maxTime, id, i);
    LatestIsLast(jar.cookies, news, o, id, |news|, i + 1);
    DeadlineIsLatestIff(jar.expirations, news, o, now, jar.maxTime, id, i);
    jar.UpdateCookies(news, o, now);
    sent := jar.FilterCookies(r, later);
  }

  // ---- what is stored --------------------------------------------------------------------------------

  /** Everything a cookie says is stored as it is, but for a lifetime that cannot be read. */
  lemma WhatIsStored(c: Cookie, o: Origin)
    ensures var s := AsStored(c, o);
      && (s.key, s.value, s.codedValue, s.secure, s.other) == (c.key, c.value, c.codedValue, c.secure, c.other)
      && (!c.maxAge.BadAge? ==> s.maxAge == c.maxAge)
      && (c.expires.Date? && c.expires.time != 0 ==> s.expires == c.expires)
      && (c.path != "" && c.path[0] == '/' ==> s.path == c.path)
      && (!(c.path != "" && c.path[0] == '/') ==> s.path == DefaultPath(o.path))
  {
  }

  /** The domain is the one that is given, without a dot in front, or else that of the host. */
  lemma WhichDomain(d: string, host: string, path: string, c: Cookie)
    requires d != "" && d[0] != '.' && d[|d| - 1] != '.' && host != "" && host[0] != '.'
    ensures var o := Origin(Some(host), path);
      && AsStored(c.(domain := d), o).domain == d && AsStored(c.(domain := "." + d), o).domain == d
      && AsStored(c.(domain := ""), o).domain == host && AsStored(c.(domain := d + "."), o).domain == host
  {
    assert ("." + d)[1..] == d;
  }

  /** A cookie is accepted exactly if the host may set it: for its own name, or, unless it is an IP
      address, for a domain that it is below. */
  lemma AcceptedIff(c: Cookie, host: string, path: string)
    requires host != ""
    ensures var d := AsStored(c, Origin(Some(host), path)).domain;
      !Foreign(c.domain, Some(host)) <==> d == host || (d != "" && DotSuffix(d, host) && !IsIpAddress(host))
  {
    hide IsIpAddress;
    var d := AsStored(c, Origin(Some(host), path)).domain;
    if d != host && d != "" && EndsWith(host, d) { LastBefore(host, |host| - |d|); }
  }

  lemma LastBefore(s: string, n: nat)
    requires 0 < n <= |s|
    ensures EndsWith(s[..n], ".") <==> s[n - 1] == '.'
  {
    assert s[..n][n - 1..] == [s[n - 1]];
  }

  // ---- the default path ----------------------------------------------------------------------------

  lemma LastIsLast(s: string, i: nat)
    requires i < |s| && s[i] == '/'
    ensures LastIndexOf(s, '/') >= i
  {
    if LastIndexOf(s, '/') < i { IsBehind(s, LastIndexOf(s, '/') + 1, i); }
  }

  lemma IsBehind(s: string, from: nat, i: nat)
    requires from <= i < |s|
    ensures s[i] in s[from..]
  {
    assert s[from..][i - from] == s[i];
  }

  /** Section 5.1.4 of RFC 6265: the default path is what precedes the last slash of the request's path,
      or one slash if that is nothing or the path is not absolute. */
  lemma DefaultPathIsRfc(front: string, tail: string)
    requires '/' !in tail
    ensures DefaultPath(tail) == "/"
    ensures front == "" ==> DefaultPath(front + "/" + tail) == "/"
    ensures front != "" && front[0] == '/' ==> DefaultPath(front + "/" + tail) == front
    ensures front != "" && front[0] != '/' ==> DefaultPath(front + "/" + tail) == "/"
  {
    hide LastIndexOf;
    var path := front + "/" + tail;
    var i := LastIndexOf(path, '/');
    assert path[|front|] == '/' && path[|front| + 1..] == tail;
    assert i >= |front| by { LastIsLast(path, |front|); }
    assert path[..|front|] == front;
    if front != "" && front[0] == '/' {
      assert front == "/" + front[1..] && path[1..|front|] == front[1..];
    }
  }

  // ---- host-only cookies -----------------------------------------------------------------------------

  lemma LettersAreNoIp(host: string)
    requires ':' !in host
    ensures !IsIpAddress("a." + host)
  {
    var s := "a." + host;
    assert s[0] == 'a' && ':' !in s;
    assert WithoutChar(s, '.')[0] == 'a';
  }

  lemma TrimmedIsPrefix(path: string)
    ensures SlashPrefix(TrimSlashes(path), path)
  {
    var k := TrimSlashes(path);
    if |k| == |path| { assert k == path; }
  }

  /** A stored cookie goes to no host but its own exactly if it carries the mark, or is one of an IPv6
      address, of which there are no subdomains. */
  lemma HostOnlyIff(s: Shelf, unsafe: bool, id: Id, c: Cookie)
    requires Lookup(s.cookies, id) == Some(c) && IdOf(id.name, c) == id
    ensures (forall r :: Sends(s, unsafe, r, id) ==> r.host == c.domain) <==>
      (c.domain, id.name) in s.hostOnly || ':' in c.domain
  {
    hide Lookup, IsIpAddress;
    var h := c.domain;
    if (h, id.name) !in s.hostOnly && ':' !in h {
      var r := Request("a." + h, c.path, false);
      LettersAreNoIp(h);
      TrimmedIsPrefix(c.path);
      assert EndsWith(r.host, h) && r.host[|r.host| - |h| - 1] == '.';
      assert Sends(s, unsafe, r, id);
    }
    if ':' in h && (h, id.name) !in s.hostOnly {
      forall r | Sends(s, unsafe, r, id) ensures r.host == h { ColonsAreIp(r.host, h); }
    }
  }

  lemma ColonsAreIp(host: string, h: string)
    requires ':' in h
    ensures DotSuffix(h, host) ==> IsIpAddress(host)
  {
    if DotSuffix(h, host) {
      var i :| 0 <= i < |h| && h[i] == ':';
      assert host[|host| - |h| + i] == (host[|host| - |h|..])[i];
    }
  }

  /** No domain is given, or one with a dot behind it. */
  predicate Domainless(domain: string) { domain == "" || domain[|domain| - 1] == '.' }

  /** A cookie without a domain is for the host that set it only, as section 5.3 of RFC 6265 has it, if
      and only if no cookie of that host and name, whatever its path, expires in the same call: expiry
      takes the mark of all of them. One with a domain gets no mark. */
  method SetAndSee(jar: CookieJar, name: string, cookie: Cookie, o: Origin, now: int, ghost id: Id)
    requires jar.Valid() && cookie.key == name && !Refuses(jar.unsafe, o) && Sets(name, cookie, o, id)
    requires o.host.Some? && o.host.value != "" && o.host.value[0] != '.' && ':' !in o.host.value
    modifies jar
    ensures jar.Valid()
    ensures Domainless(cookie.domain) && Lookup(jar.cookies, id).Some? ==>
      ((forall r :: Sends(jar.OnShelf(), jar.unsafe, r, id) ==> r.host == o.host.value) <==>
         forall x :: IsDue(Record(old(jar.expirations), name, cookie, o, now, jar.maxTime), x, now) ==>
           (x.domain, x.name) != (o.host.value, name))
    ensures !Domainless(cookie.domain) ==> jar.hostOnly <= old(jar.hostOnly)
  {
    hide Lookup, IsScan, IsIpAddress, Record, RecordAll, Latest, Sets, AsStored;
    var news := [(name, cookie)];
    OneNew(jar.cookies, jar.expirations, name, cookie, o, now, jar.maxTime);
    MarksOfOne(name, cookie, o);
    ghost var due := Record(jar.expirations, name, cookie, o, now, jar.maxTime);
    jar.UpdateCookies(news, o, now);
    DueMarks(due, now, o.host.value, name);
    if Domainless(cookie.domain) && Lookup(jar.cookies, id).Some? {
      StoredUnderHost(name, cookie, o, id);
      HostOnlyIff(jar.OnShelf(), jar.unsafe, id, Lookup(jar.cookies, id).value);
    }
  }

  lemma MarksOfOne(name: string, cookie: Cookie, o: Origin)
    ensures HostOnlyNames([(name, cookie)], o, 1) == HostOnlyName(name, cookie, o)
  {
    assert HostOnlyNames([(name, cookie)], o, 0) == {};
  }

  lemma DueMarks(due: map<Id, int>, now: int, host: string, name: string)
    ensures (host, name) in DueNames(due, now) <==> exists x :: IsDue(due, x, now) && (x.domain, x.name) == (host, name)
  {
    if x :| IsDue(due, x, now) && (x.domain, x.name) == (host, name) {
      assert (x.domain, x.name) in DueNames(due, now);
    }
  }

  lemma StoredUnderHost(name: string, cookie: Cookie, o: Origin, id: Id)
    requires Sets(name, cookie, o, id) && Domainless(cookie.domain) && o.host.Some? && o.host.value != "" &&
      o.host.value[0] != '.'
    ensures AsStored(cookie, o).domain == o.host.value && id.domain == o.host.value && id.name == name
    ensures IdOf(id.name, AsStored(cookie, o)) == id
  {
  }

  function Short(): Cookie { ExampleCookie(Age(0)).(path := "/p") }

  lemma ShortIsSet()
    ensures forall id :: Sets("n", Short(), EXAMPLE_ORIGIN, id) <==> id == Id("h.x", "/p", "n")
    ensures HostOnlyName("n", Short(), EXAMPLE_ORIGIN) == {("h.x", "n")}
    ensures forall due: map<Id, int> ::
      Record(due, "n", Short(), EXAMPLE_ORIGIN, 5, 1000) == due[Id("h.x", "/p", "n") := 5]
  {
    hide IsIpAddress;
    NoIpAddress();
    assert TrimSlashes("/p") == "/p";
  }

  lemma SessionMark()
    ensures HostOnlyName("n", ExampleCookie(NoAge), EXAMPLE_ORIGIN) == {("h.x", "n")}
    ensures forall due: map<Id, int> :: Record(due, "n", ExampleCookie(NoAge), EXAMPLE_ORIGIN, 0, 1000) == due
    ensures AsStored(ExampleCookie(NoAge), EXAMPLE_ORIGIN).domain == "h.x"
    ensures IdOf("n", AsStored(ExampleCookie(NoAge), EXAMPLE_ORIGIN)) == EXAMPLE_ID
  {
    hide IsIpAddress;
    assert TrimSlashes("/") == "";
  }

  /** A session cookie that `h.x` sets without a domain is sent to other hosts once a cookie of the same
      name with another path has expired. */
  method MarkIsLost(build: Cookie -> Morsel) returns (before: bool, stored: Option<Cookie>, ghost jar: CookieJar)
    ensures before && stored.Some?
    ensures exists r :: Sends(jar.OnShelf(), jar.unsafe, r, EXAMPLE_ID) && r.host != "h.x"
  {
    hide Lookup, RecordAll, Latest, Sets, AsStored, Record, Refuses, HostOnlyNames, Sends, IdOf;
    var session := ExampleCookie(NoAge);
    var j := new CookieJar(false, 1000, build);
    ExampleIsSet(NoAge);
    ShortIsSet();
    SessionMark();
    MarksOfOne("n", session, EXAMPLE_ORIGIN);
    MarksOfOne("n", Short(), EXAMPLE_ORIGIN);
    OneNew(j.cookies, map[], "n", session, EXAMPLE_ORIGIN, 0, 1000);
    j.UpdateCookies([("n", session)], EXAMPLE_ORIGIN, 0);
    before := ("h.x", "n") in j.hostOnly;
    OneNew(j.cookies, map[], "n", Short(), EXAMPLE_ORIGIN, 5, 1000);
    j.UpdateCookies([("n", Short())], EXAMPLE_ORIGIN, 5);
    stored := Lookup(j.cookies, EXAMPLE_ID);
    HostOnlyIff(j.OnShelf(), j.unsafe, EXAMPLE_ID, stored.value);
    jar := j;
  }
}

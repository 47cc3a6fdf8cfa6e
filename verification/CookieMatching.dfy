/** Which stored cookies a request can get (cookiejar.py): the domains and paths that the jar looks
    up, against sections 5.1.3 and 5.1.4 of RFC 6265. */
module CookieMatching {
  import opened ByteStrings

  function WithoutChar(s: string, c: char): string {
    if s == "" then "" else (if s[0] == c then "" else [s[0]]) + WithoutChar(s[1..], c)
  }

  /** `is_ip_address` (helpers.py): a heuristic. Digits are those of ASCII. */
  predicate IsIpAddress(host: string) {
    host != "" &&
    (':' in host ||
     (WithoutChar(host, '.') != "" && forall i :: 0 <= i < |WithoutChar(host, '.')| ==>
       '0' <= WithoutChar(host, '.')[i] <= '9'))
  }

  lemma {:induction false} WithoutCharKeeps(s: string, c: char, x: char)
    ensures x in WithoutChar(s, c) <==> x in s && x != c
  {
    if s != "" {
      WithoutCharKeeps(s[1..], c, x);
      assert s == [s[0]] + s[1..];
    }
  }

  /** An IP address is what holds a colon, or at least one digit and only digits and dots. */
  lemma IpAddressIff(host: string)
    ensures IsIpAddress(host) <==>
      || ':' in host
      || ((forall c :: c in host ==> c == '.' || '0' <= c <= '9') && exists c :: c in host && c != '.')
  {
    var rest := WithoutChar(host, '.');
    forall c ensures c in rest <==> c in host && c != '.' { WithoutCharKeeps(host, '.', c); }
    if rest != "" { assert rest[0] in rest; }
    forall i | 0 <= i < |rest| ensures rest[i] in host && rest[i] != '.' { assert rest[i] in rest; }
    if forall i :: 0 <= i < |rest| ==> '0' <= rest[i] <= '9' {
      forall c | c in host ensures c == '.' || '0' <= c <= '9' { DigitsOnly(rest, c); }
    }
  }

  lemma DigitsOnly(s: string, c: char)
    requires forall i :: 0 <= i < |s| ==> '0' <= s[i] <= '9'
    ensures c in s ==> '0' <= c <= '9'
  {
  }

  predicate EndsWith(s: string, suffix: string) { |suffix| <= |s| && s[|s| - |suffix|..] == suffix }

  /** `_is_domain_match`; a slice that ends at minus zero is empty. */
  predicate IsDomainMatch(domain: string, hostname: string) {
    if hostname == domain then true
    else if !EndsWith(hostname, domain) then false
    else
      var nonMatching := if domain == "" then "" else hostname[..|hostname| - |domain|];
      EndsWith(nonMatching, ".") && !IsIpAddress(hostname)
  }

  /** `itertools.accumulate(reversed(labels), "{1}.{0}".format)`, given the labels in order. */
  function Suffixes(labels: seq<string>): seq<string>
    requires labels != []
  {
    if |labels| == 1 then labels
    else
      var shorter := Suffixes(labels[1..]);
      shorter + [labels[0] + "." + LastOf(shorter)]
  }

  function LastOf(s: seq<string>): string { if s == [] then "" else s[|s| - 1] }

  /** The domains that are looked up for a host. */
  function Domains(hostname: string): seq<string> { Suffixes(Split(hostname, '.')) }

  /** `itertools.accumulate(segments, "{}/{}".format)` */
  function Prefixes(segments: seq<string>): seq<string>
    requires segments != []
    decreases |segments|
  {
    if |segments| == 1 then segments
    else
      var shorter := Prefixes(segments[..|segments| - 1]);
      shorter + [LastOf(shorter) + "/" + segments[|segments| - 1]]
  }

  /** The paths that are looked up for a request path. */
  function Paths(path: string): seq<string> { Prefixes(Split(path, '/')) }

  /** `d` is all of `s`, or what follows one of its dots. */
  predicate DotSuffix(d: string, s: string) { d == s || (|d| < |s| && EndsWith(s, d) && s[|s| - |d| - 1] == '.') }

  /** `p` is all of `s`, or what precedes one of its slashes. */
  predicate SlashPrefix(p: string, s: string) { p == s || (|p| < |s| && p <= s && s[|p|] == '/') }

  predicate Ascending(s: seq<string>) { forall i, j :: 0 <= i < j < |s| ==> |s[i]| < |s[j]| }

  // ---- domains -------------------------------------------------------------------------------------

  lemma DomainsUnfold(s: string)
    requires '.' in s
    ensures var rest := s[IndexOf(s, '.') + 1..];
      (LastOf(Domains(rest)) == rest ==> Domains(s) == Domains(rest) + [s])
  {
    hide IndexOf, Split, Suffixes;
    var i := IndexOf(s, '.');
    SplitUnfold(s, '.');
    SuffixesCons(s[..i], Split(s[i + 1..], '.'));
    assert s == s[..i] + "." + s[i + 1..];
  }

  lemma SuffixesCons(first: string, labels: seq<string>)
    requires labels != []
    ensures Suffixes([first] + labels) == Suffixes(labels) + [first + "." + LastOf(Suffixes(labels))]
  {
    assert ([first] + labels)[1..] == labels;
  }

  /** What follows a dot of `s` either follows its first dot or a dot of what follows that. */
  lemma DotSuffixUnfold(d: string, s: string)
    requires '.' in s
    ensures DotSuffix(d, s) <==> d == s || DotSuffix(d, s[IndexOf(s, '.') + 1..])
  {
    hide IndexOf, EndsWith;
    var i := IndexOf(s, '.');
    var rest, k := s[i + 1..], |s| - |d|;
    if 0 < k {
      if k - 1 < i { assert s[k - 1] == s[..i][k - 1]; }
      EndsOfRest(d, s, i + 1);
    }
  }

  lemma EndsOfRest(d: string, s: string, n: nat)
    requires n <= |s|
    ensures |d| <= |s| - n ==> (EndsWith(s, d) <==> EndsWith(s[n..], d))
    ensures |d| < |s| - n ==> s[|s| - |d| - 1] == s[n..][|s| - n - |d| - 1]
    ensures |d| == |s| - n ==> (EndsWith(s, d) <==> d == s[n..])
  {
    if |d| <= |s| - n { assert s[|s| - |d|..] == s[n..][|s| - n - |d|..]; }
  }

  /** The domains looked up are exactly the dot suffixes of the host, the shortest first. */
  lemma {:induction false} DomainsAreDotSuffixes(s: string)
    ensures forall d :: d in Domains(s) <==> DotSuffix(d, s)
    ensures Domains(s) != [] && LastOf(Domains(s)) == s && Ascending(Domains(s))
    ensures forall i :: 0 <= i < |Domains(s)| ==> |Domains(s)[i]| <= |s|
    decreases |s|
  {
    hide DotSuffix, Suffixes, Split, Ascending;
    if '.' !in s {
      OneLabel(s);
      forall d ensures DotSuffix(d, s) <==> d == s { NoDotSuffix(d, s); }
    } else {
      var rest := s[IndexOf(s, '.') + 1..];
      DomainsAreDotSuffixes(rest);
      DomainsUnfold(s);
      LongerLast(Domains(rest), s);
      forall d ensures d in Domains(s) <==> DotSuffix(d, s) { DotSuffixUnfold(d, s); }
    }
  }

  lemma OneLabel(s: string)
    ensures '.' !in s ==> Domains(s) == [s]
    ensures '/' !in s ==> Paths(s) == [s]
    ensures Ascending([s])
  {
  }

  lemma LongerLast(a: seq<string>, s: string)
    requires Ascending(a) && forall i :: 0 <= i < |a| ==> |a[i]| < |s|
    ensures Ascending(a + [s])
  {
  }

  lemma NoDotSuffix(d: string, s: string)
    requires '.' !in s
    ensures DotSuffix(d, s) <==> d == s
  {
  }

  /** For a host that is not an IP address, the nonempty domains looked up are exactly those that
      `_is_domain_match` accepts. */
  lemma ProbedDomainsAreAccepted(hostname: string, d: string)
    requires !IsIpAddress(hostname) && d != ""
    ensures d in Domains(hostname) <==> IsDomainMatch(d, hostname)
  {
    hide IsIpAddress, Domains;
    DomainsAreDotSuffixes(hostname);
    if |d| < |hostname| && EndsWith(hostname, d) {
      var front := hostname[..|hostname| - |d|];
      assert front[|front| - 1..] == [hostname[|hostname| - |d| - 1]];
    }
  }

  /** The empty domain is looked up for a host that ends with a dot, though never accepted. */
  lemma EmptyDomainIsProbed(hostname: string)
    requires hostname != ""
    ensures "" in Domains(hostname) <==> hostname[|hostname| - 1] == '.'
    ensures !IsDomainMatch("", hostname)
  {
    DomainsAreDotSuffixes(hostname);
    assert hostname[|hostname|..] == "";
  }

  // ---- paths ---------------------------------------------------------------------------------------

  function LastIndexOf(s: string, c: char): (r: int)
    ensures r == -1 <==> c !in s
    ensures r != -1 ==> 0 <= r < |s| && s[r] == c && c !in s[r + 1..]
  {
    if s == "" then -1
    else if s[|s| - 1] == c then |s| - 1
    else
      var r := LastIndexOf(s[..|s| - 1], c);
      assert s == s[..|s| - 1] + [s[|s| - 1]];
      assert r != -1 ==> s[r + 1..] == s[..|s| - 1][r + 1..] + [s[|s| - 1]];
      r
  }

  lemma FirstSeparator(s: string, c: char, t: string)
    requires c in s
    ensures var i := IndexOf(s, c);
      IndexOf(s + [c] + t, c) == i && (s + [c] + t)[..i] == s[..i] &&
      (s + [c] + t)[i + 1..] == s[i + 1..] + [c] + t
  {
    hide IndexOf;
    var whole, i := s + [c] + t, IndexOf(s, c);
    assert whole[..i] == s[..i] && whole[i] == c;
    IndexOfUnique(whole, c, i);
  }

  lemma OnlySeparator(s: string, c: char, t: string)
    requires c !in s
    ensures IndexOf(s + [c] + t, c) == |s| && (s + [c] + t)[..|s|] == s && (s + [c] + t)[|s| + 1..] == t
  {
    hide IndexOf;
    var whole := s + [c] + t;
    assert whole[..|s|] == s && whole[|s|] == c;
    IndexOfUnique(whole, c, |s|);
  }

  /** A string is split at its last separator last. */
  lemma {:induction false} SplitAtLast(s: string, c: char, t: string)
    requires c !in t
    ensures Split(s + [c] + t, c) == Split(s, c) + [t]
    decreases |s|
  {
    hide IndexOf, Split;
    SplitUnfold(t, c);
    SplitUnfold(s, c);
    SplitUnfold(s + [c] + t, c);
    if c !in s {
      OnlySeparator(s, c, t);
    } else {
      var i := IndexOf(s, c);
      FirstSeparator(s, c, t);
      SplitAtLast(s[i + 1..], c, t);
    }
  }

  lemma SplitUnfold(s: string, c: char)
    ensures Split(s, c) == if c !in s then [s] else [s[..IndexOf(s, c)]] + Split(s[IndexOf(s, c) + 1..], c)
  {
    hide IndexOf;
  }

  lemma PathsUnfold(s: string)
    requires '/' in s
    ensures var front := s[..LastIndexOf(s, '/')];
      (LastOf(Paths(front)) == front ==> Paths(s) == Paths(front) + [s])
  {
    hide LastIndexOf, Split, Prefixes;
    var j := LastIndexOf(s, '/');
    var front, t := s[..j], s[j + 1..];
    assert s == front + "/" + t;
    SplitAtLast(front, '/', t);
    PrefixesSnoc(Split(front, '/'), t);
  }

  lemma PrefixesSnoc(segments: seq<string>, t: string)
    requires segments != []
    ensures Prefixes(segments + [t]) == Prefixes(segments) + [LastOf(Prefixes(segments)) + "/" + t]
  {
    assert (segments + [t])[..|segments|] == segments;
  }

  lemma SlashPrefixUnfold(p: string, s: string)
    requires '/' in s
    ensures SlashPrefix(p, s) <==> p == s || SlashPrefix(p, s[..LastIndexOf(s, '/')])
  {
    var j := LastIndexOf(s, '/');
    var front := s[..j];
    if j < |p| < |s| { assert s[|p|] == s[j + 1..][|p| - j - 1]; }
    if |p| <= j { assert p <= s <==> p <= front; }
  }

  /** The paths looked up are exactly the slash-delimited prefixes of the request path, the shortest
      first. */
  lemma {:induction false} PathsAreSlashPrefixes(s: string)
    ensures forall p :: p in Paths(s) <==> SlashPrefix(p, s)
    ensures Paths(s) != [] && LastOf(Paths(s)) == s && Ascending(Paths(s))
    ensures forall i :: 0 <= i < |Paths(s)| ==> |Paths(s)[i]| <= |s|
    decreases |s|
  {
    hide SlashPrefix, Prefixes, Split, Ascending;
    if '/' !in s {
      OneLabel(s);
      forall p ensures SlashPrefix(p, s) <==> p == s { NoSlashPrefix(p, s); }
    } else {
      var front := s[..LastIndexOf(s, '/')];
      PathsAreSlashPrefixes(front);
      PathsUnfold(s);
      LongerLast(Paths(front), s);
      forall p ensures p in Paths(s) <==> SlashPrefix(p, s) { SlashPrefixUnfold(p, s); }
    }
  }

  lemma NoSlashPrefix(p: string, s: string)
    requires '/' !in s
    ensures SlashPrefix(p, s) <==> p == s
  {
  }

  /** `rstrip("/")` */
  function TrimSlashes(s: string): (r: string)
    ensures r <= s && (r == "" || r[|r| - 1] != '/')
    ensures forall i :: |r| <= i < |s| ==> s[i] == '/'
  {
    if s != "" && s[|s| - 1] == '/' then TrimSlashes(s[..|s| - 1]) else s
  }

  /** Section 5.1.4 of RFC 6265. */
  predicate RfcPathMatch(request: string, cookiePath: string) {
    || request == cookiePath
    || (cookiePath <= request &&
      (EndsWith(cookiePath, "/") || (|cookiePath| < |request| && request[|cookiePath|] == '/')))
  }

  /** What the jar does instead: the stripped path is looked up, and the full one must not be longer
      than the request path. */
  predicate JarPathMatch(request: string, cookiePath: string) {
    SlashPrefix(TrimSlashes(cookiePath), request) && |cookiePath| <= |request|
  }

  /** Every path the RFC accepts is accepted. */
  lemma JarAcceptsWhatRfcAccepts(request: string, cookiePath: string)
    requires cookiePath != "" && cookiePath[0] == '/' && RfcPathMatch(request, cookiePath)
    ensures JarPathMatch(request, cookiePath)
  {
    var k := TrimSlashes(cookiePath);
    assert k <= request;
    if |k| < |cookiePath| { assert request[|k|] == cookiePath[|k|]; }
  }

  /** For a cookie path the two agree on all requests if and only if it does not end in two slashes. */
  lemma PathRuleIsRfcIff(cookiePath: string)
    requires cookiePath != "" && cookiePath[0] == '/'
    ensures (forall request :: JarPathMatch(request, cookiePath) <==> RfcPathMatch(request, cookiePath)) <==>
      !EndsWith(cookiePath, "//")
  {
    if EndsWith(cookiePath, "//") {
      var request := OverlongMatch(cookiePath);
    } else {
      forall request ensures JarPathMatch(request, cookiePath) <==> RfcPathMatch(request, cookiePath) {
        if RfcPathMatch(request, cookiePath) { JarAcceptsWhatRfcAccepts(request, cookiePath); }
        if JarPathMatch(request, cookiePath) { RfcAcceptsSingleSlash(request, cookiePath); }
      }
    }
  }

  /** With two slashes at the end, some request gets the cookie that should not. */
  lemma OverlongMatch(cookiePath: string) returns (request: string)
    requires EndsWith(cookiePath, "//")
    ensures JarPathMatch(request, cookiePath) && !RfcPathMatch(request, cookiePath)
  {
    var k := TrimSlashes(cookiePath);
    var n := |cookiePath|;
    assert cookiePath[n - 2..] == "//";
    assert cookiePath[n - 2..][0] == '/' && cookiePath[n - 2..][1] == '/';
    assert |k| <= n - 2 by { TrimsBoth(cookiePath); }
    request := k + "/" + seq(n - |k| - 1, i => 'a');
    assert request[|k|] == '/' && request[|k| + 1] == 'a' && cookiePath[|k| + 1] == '/';
  }

  lemma TrimsBoth(s: string)
    requires |s| >= 2 && s[|s| - 1] == '/' && s[|s| - 2] == '/'
    ensures |TrimSlashes(s)| <= |s| - 2
  {
    assert TrimSlashes(s) == TrimSlashes(s[..|s| - 1]);
  }

  lemma OneSlash(s: string)
    requires !EndsWith(s, "//")
    ensures |TrimSlashes(s)| >= |s| - 1
  {
    if |s| >= 2 { assert s[|s| - 2..] == [s[|s| - 2], s[|s| - 1]]; }
  }

  lemma OneSlashMore(s: string)
    requires !EndsWith(s, "//") && TrimSlashes(s) != s
    ensures s == TrimSlashes(s) + "/"
  {
    OneSlash(s);
    hide TrimSlashes;
    var k := TrimSlashes(s);
    assert s == s[..|k|] + [s[|k|]];
  }

  lemma SlashFollows(request: string, k: string)
    requires SlashPrefix(k, request) && |k| + 1 <= |request|
    ensures RfcPathMatch(request, k + "/")
  {
    assert request[..|k| + 1] == request[..|k|] + [request[|k|]];
    assert (k + "/")[|k|..] == "/";
  }

  lemma RfcAcceptsSingleSlash(request: string, cookiePath: string)
    requires cookiePath != "" && !EndsWith(cookiePath, "//") && JarPathMatch(request, cookiePath)
    ensures RfcPathMatch(request, cookiePath)
  {
    hide TrimSlashes, EndsWith;
    if TrimSlashes(cookiePath) != cookiePath {
      OneSlashMore(cookiePath);
      SlashFollows(request, TrimSlashes(cookiePath));
    }
  }
}

/** The grammar of a request head, said without the parser: which lines `parse_headers` and
    `parse_message` accept, and what they make of them. */
module HeadGrammar {
  import opened ByteStrings
  import opened Headers
  import opened HeaderLists
  import opened Requests

  // ---- characters ------------------------------------------------------------------------------

  /** `tchar` of section 5.6.2 of RFC 9110: any visible character but the delimiters. */
  lemma TokenChars(c: char)
    ensures IsTokenChar(c) <==> '!' <= c <= '~' && c !in "\"(),/:;<=>?@[\\]{}"
  {
  }

  /** Only tabs, visible characters, blanks and bytes above 127 may occur (section 5.5 of RFC 9110). */
  lemma PermittedChars(c: char)
    ensures !IsForbidden(c) <==> c == '\t' || ' ' <= c <= '~' || c >= 128 as char
  {
  }

  /** Case folding maps the 26 letters onto each other and leaves everything else alone. */
  lemma CaseFolding(i: nat, c: char)
    requires i < 26
    ensures LowerChar((65 + i) as char) == (97 + i) as char && UpperChar((97 + i) as char) == (65 + i) as char
    ensures !('A' <= c <= 'Z') ==> LowerChar(c) == c
    ensures !('a' <= c <= 'z') ==> UpperChar(c) == c
  {
  }

  // ---- header lines ----------------------------------------------------------------------------

  /** `field-line` of section 5 of RFC 9112: a name, a colon and a value with blanks around it. */
  ghost predicate IsFieldLine(line: Bytes, h: Header) {
    && IsToken(h.name) && Stripped(h.value) && Safe(h.value)
    && exists a, b :: Blanks(a) && Blanks(b) && line == h.name + ":" + (a + h.value + b)
  }

  lemma {:induction false} LStripSplits(s: Bytes) returns (a: Bytes)
    ensures Blanks(a) && s == a + LStrip(s)
  {
    if s != "" && Blank(s[0]) {
      a := LStripSplits(s[1..]);
      a := [s[0]] + a;
    } else {
      return "";
    }
  }

  lemma {:induction false} RStripSplits(s: Bytes) returns (b: Bytes)
    ensures Blanks(b) && s == RStrip(s) + b
  {
    if s != "" && Blank(s[|s| - 1]) {
      b := RStripSplits(s[..|s| - 1]);
      b := b + [s[|s| - 1]];
    } else {
      return "";
    }
  }

  lemma StripSplits(s: Bytes) returns (a: Bytes, b: Bytes)
    ensures Blanks(a) && Blanks(b) && s == a + Strip(s) + b && Stripped(Strip(s))
  {
    hide LStrip, RStrip;
    a := LStripSplits(s);
    b := RStripSplits(LStrip(s));
    StripFixpoints(s);
  }

  lemma TokenHasNoColon(name: Bytes)
    requires IsToken(name)
    ensures ':' !in name && name != "" && !Blank(name[0]) && !Blank(name[|name| - 1])
  {
    assert !IsTokenChar(':');
    TokenEndsNotBlank(name);
  }

  lemma StripTwice(s: Bytes)
    ensures Strip(LStrip(s)) == Strip(s)
  {
    LStripIdempotent(s);
  }

  /** What follows the name of a field line. */
  lemma FieldLineSplits(line: Bytes, h: Header)
    requires IsFieldLine(line, h)
    ensures var i := IndexOf(line, ':');
      i == |h.name| && line[..i] == h.name && Strip(LStrip(line[i + 1..])) == h.value
  {
    hide IndexOf, LStrip, Strip;
    var a, b :| Blanks(a) && Blanks(b) && line == h.name + ":" + (a + h.value + b);
    TokenHasNoColon(h.name);
    assert line[..|h.name|] == h.name && line[|h.name| + 1..] == a + h.value + b;
    IndexOfUnique(line, ':', |h.name|);
    StripItem(a, h.value, b);
    StripTwice(a + h.value + b);
  }

  /** A line is accepted exactly if it is a field line and repeats no singleton; a field line that does
      is a bad message, and any other line an invalid header. */
  lemma LineIsParsed(line: Bytes, acc: seq<Header>, h: Header)
    ensures ParseLine(line, acc) == Ok(h) <==> IsFieldLine(line, h) && !DuplicateSingleton(acc, h.name)
    ensures IsFieldLine(line, h) && DuplicateSingleton(acc, h.name) ==> ParseLine(line, acc) == Err(BadHttpMessage)
    ensures ParseLine(line, acc) == Err(BadHttpMessage) ==>
      exists g :: IsFieldLine(line, g) && DuplicateSingleton(acc, g.name)
    ensures ParseLine(line, acc).Err? ==> ParseLine(line, acc).error in {BadHttpMessage, InvalidHeader}
  {
    hide IndexOf, LStrip, Strip, IsToken, Safe, DuplicateSingleton, IsFieldLine, Blanks;
    if IsFieldLine(line, h) {
      FieldLineSplits(line, h);
      FieldParts(line, h);
    }
    var i := IndexOf(line, ':');
    if i != -1 {
      var g := Header(line[..i], Strip(LStrip(line[i + 1..])));
      if IsToken(g.name) && Safe(g.value) { IsField(line, g, i); }
    }
  }

  lemma FieldParts(line: Bytes, h: Header)
    requires IsFieldLine(line, h)
    ensures IsToken(h.name) && Safe(h.value) && h.name != "" && !Blank(h.name[0]) && !Blank(h.name[|h.name| - 1])
  {
    TokenHasNoColon(h.name);
  }

  lemma IsField(line: Bytes, h: Header, i: nat)
    requires i < |line| && line[i] == ':' && h == Header(line[..i], Strip(LStrip(line[i + 1..])))
    requires IsToken(h.name) && Safe(h.value)
    ensures IsFieldLine(line, h)
  {
    hide LStrip, Strip;
    StripTwice(line[i + 1..]);
    var a, b := StripSplits(line[i + 1..]);
    assert line == h.name + ":" + (a + h.value + b);
  }

  /** The lines of a block up to the empty one. */
  ghost predicate AreFieldLines(lines: seq<Bytes>, acc: seq<Header>, hs: seq<Header>)
    decreases |lines|
  {
    if lines == [] then hs == []
    else
      && hs != [] && IsFieldLine(lines[0], hs[0]) && !DuplicateSingleton(acc, hs[0].name)
      && AreFieldLines(lines[1..], acc + [hs[0]], hs[1..])
  }

  lemma {:induction false} ParsedFromIff(lines: seq<Bytes>, acc: seq<Header>, hs: seq<Header>)
    requires "" !in lines
    ensures ParseFrom(lines + [""], acc) == Ok(acc + hs) <==> AreFieldLines(lines, acc, hs)
    decreases |lines|
  {
    hide ParseLine, IsFieldLine, DuplicateSingleton;
    var all := lines + [""];
    if lines == [] {
      if hs != [] { assert (acc + hs)[|acc|..] == hs && acc[|acc|..] == []; }
      assert acc + [] == acc;
    } else {
      assert all[0] == lines[0] && all[1..] == lines[1..] + [""];
      var r := ParseLine(lines[0], acc);
      if hs != [] {
        LineIsParsed(lines[0], acc, hs[0]);
        ParsedFromIff(lines[1..], acc + [hs[0]], hs[1..]);
        assert acc + [hs[0]] + hs[1..] == acc + hs;
      }
      if r.Ok? {
        ParseKeepsAcc(all[1..], acc + [r.value]);
        if ParseFrom(all, acc) == Ok(acc + hs) {
          assert (acc + [r.value])[|acc|] == r.value;
          assert acc + [r.value] <= acc + hs;
          assert hs != [] && (acc + hs)[|acc|] == hs[0];
        }
      }
    }
  }

  /** The parser accepts a block, and makes this list of it, exactly if every line is a field line of
      the list and none repeats a singleton. */
  lemma BlockIsParsedIff(lines: seq<Bytes>, hs: seq<Header>)
    requires "" !in lines
    ensures Parse(lines + [""]) == Ok(hs) <==> AreFieldLines(lines, [], hs)
  {
    hide ParseFrom, AreFieldLines;
    ParsedFromIff(lines, [], hs);
    assert [] + hs == hs;
  }

  const SINGLES: seq<Bytes> := ["content-length", "transfer-encoding", "host", "content-type", "content-location",
    "content-range", "etag", "max-forwards", "server", "user-agent"]

  /** What is parsed never has two lengths, codings or hosts, nor two of the other singletons. */
  lemma {:induction false} NoRepeats(lines: seq<Bytes>, acc: seq<Header>, hs: seq<Header>, name: Bytes, i: nat)
    requires AreFieldLines(lines, acc, hs) && name in SINGLES
    requires i < |hs| && Lower(hs[i].name) == name
    ensures !Has(acc + hs[..i], name)
    decreases |lines|
  {
    hide IsFieldLine, Lower;
    if i == 0 {
      assert acc + hs[..0] == acc;
    } else {
      NoRepeats(lines[1..], acc + [hs[0]], hs[1..], name, i - 1);
      assert acc + [hs[0]] + hs[1..][..i - 1] == acc + hs[..i];
    }
  }

  // ---- the request line ------------------------------------------------------------------------

  /** `HTTP-version` of section 2.3 of RFC 9112. */
  lemma VersionIff(s: Bytes, v: Version)
    ensures ParseVersion(s) == Some(v) <==>
      v.major < 10 && v.minor < 10 && s == "HTTP/" + Decimal(v.major) + "." + Decimal(v.minor)
  {
    if ParseVersion(s) == Some(v) {
      assert s == s[..5] + [s[5]] + [s[6]] + [s[7]];
    }
    if v.major < 10 && v.minor < 10 && s == "HTTP/" + Decimal(v.major) + "." + Decimal(v.minor) {
      assert s[..5] == "HTTP/";
    }
  }

  /** A line of three words is a request line exactly if the first is a token, the last a version, and
      the target in origin form, that of CONNECT, `*` for OPTIONS, or one with a scheme. */
  lemma RequestLineIff(verb: Bytes, path: Bytes, version: Bytes, hasScheme: Bytes -> bool)
    requires ' ' !in verb && ' ' !in path
    ensures var r := ParseRequestLine(verb + " " + (path + " " + version), hasScheme);
      var target :=
        Upper(verb) == "CONNECT" || "/" <= path || (path == "*" && Upper(verb) == "OPTIONS") || hasScheme(path);
      && (!IsToken(verb) ==> r == Err(BadHttpMethod))
      && (IsToken(verb) && ParseVersion(version).None? ==> r == Err(BadStatusLine))
      && (IsToken(verb) && ParseVersion(version).Some? && !target ==> r == Err(InvalidUrl))
      && (IsToken(verb) && ParseVersion(version).Some? && target ==>
            r == Ok(RequestLine(Upper(verb), path, ParseVersion(version).value)))
  {
    hide IndexOf, ParseVersion, Upper, IsToken;
    var rest := path + " " + version;
    var line := verb + " " + rest;
    assert line[..|verb|] == verb && line[|verb| + 1..] == rest;
    IndexOfUnique(line, ' ', |verb|);
    assert rest[..|path|] == path && rest[|path| + 1..] == version;
    IndexOfUnique(rest, ' ', |path|);
    assert "/" <= path <==> path != "" && path[0] == '/';
  }

  /** A line of fewer words is none. */
  lemma TwoWords(verb: Bytes, path: Bytes, hasScheme: Bytes -> bool)
    requires ' ' !in verb && ' ' !in path
    ensures ParseRequestLine(verb, hasScheme) == Err(BadHttpMethod)
    ensures ParseRequestLine(verb + " " + path, hasScheme) == Err(BadHttpMethod)
  {
    hide IndexOf, ParseVersion, Upper, IsToken;
    var line := verb + " " + path;
    assert line[..|verb|] == verb && line[|verb| + 1..] == path;
    IndexOfUnique(line, ' ', |verb|);
  }
}

/** Header blocks: `HeadersParser.parse_headers` in strict mode (http_parser.py) and
    `_py_serialize_headers` (http_writer.py), with the exact condition under which
    parsing inverts printing. */
module Headers {
  import opened ByteStrings

  datatype HttpError =
    | LineTooLong
    | InvalidHeader
    | BadHttpMessage
    | TransferEncodingError
    | ContentLengthError
    | BadHttpMethod
    | BadStatusLine
    | InvalidUrl
    | ForbiddenCharacter // ValueError of _safe_header

  datatype Header = Header(name: Bytes, value: Bytes)

  predicate IsTokenChar(c: char) {
    '0' <= c <= '9' || 'a' <= c <= 'z' || 'A' <= c <= 'Z' || c in "!#$%&'*+-.^_`|~"
  }

  /** `TOKENRE.fullmatch` */
  predicate IsToken(s: Bytes) {
    s != "" && forall i :: 0 <= i < |s| ==> IsTokenChar(s[i])
  }

  lemma TokenCharIsPlain(c: char)
    requires IsTokenChar(c)
    ensures '!' <= c <= '~' && c != ',' && c != ':'
  {
  }

  /** The class `[\x00-\x08\x0a-\x1f\x7f]` used by both the parser and the writer. */
  predicate IsForbidden(c: char) {
    (c < 32 as char && c != '\t') || c == 127 as char
  }

  predicate Safe(s: Bytes) { forall i :: 0 <= i < |s| ==> !IsForbidden(s[i]) }

  lemma SafeHasNoLineEnd(s: Bytes)
    requires Safe(s)
    ensures '\n' !in s && '\r' !in s
  {
  }

  const SINGLETON_HEADERS: set<Bytes> := {
    "content-length", "content-location", "content-range", "content-type", "etag", "host",
    "max-forwards", "server", "transfer-encoding", "user-agent" }

  /** `headers.get(name)` of a case-insensitive multi-dictionary: the first value. `name` is in lower case. */
  function Get(hs: seq<Header>, name: Bytes): Option<Bytes> {
    if hs == [] then None
    else if Lower(hs[0].name) == name then Some(hs[0].value)
    else Get(hs[1..], name)
  }

  predicate Has(hs: seq<Header>, name: Bytes) {
    exists i :: 0 <= i < |hs| && Lower(hs[i].name) == name
  }

  lemma {:induction false} GetSomeIffHas(hs: seq<Header>, name: Bytes)
    ensures Get(hs, name).Some? <==> Has(hs, name)
  {
    if hs != [] {
      GetSomeIffHas(hs[1..], name);
      assert forall i :: 0 < i < |hs| ==> hs[i] == hs[1..][i - 1];
      if Has(hs[1..], name) {
        var i :| 0 <= i < |hs[1..]| && Lower(hs[1..][i].name) == name;
        assert Lower(hs[i + 1].name) == name;
      }
    }
  }

  predicate DuplicateSingleton(acc: seq<Header>, name: Bytes) {
    Has(acc, Lower(name)) && Lower(name) in SINGLETON_HEADERS
  }

  /** One header line, given the headers before it. */
  function ParseLine(line: Bytes, acc: seq<Header>): Result<Header, HttpError> {
    var colon := IndexOf(line, ':');
    if colon == -1 then Err(InvalidHeader)
    else
      var name := line[..colon];
      if name == "" then Err(InvalidHeader)
      else if Blank(name[0]) || Blank(name[|name| - 1]) then Err(InvalidHeader)
      else if !IsToken(name) then Err(InvalidHeader)
      else
        var value := Strip(LStrip(line[colon + 1..]));
        if !Safe(value) then Err(InvalidHeader)
        else if DuplicateSingleton(acc, name) then Err(BadHttpMessage)
        else Ok(Header(name, value))
  }

  /** The headers of `lines`, up to the first empty line, after those already in `acc`. */
  function ParseFrom(lines: seq<Bytes>, acc: seq<Header>): Result<seq<Header>, HttpError> {
    if lines == [] || lines[0] == "" then Ok(acc)
    else
      match ParseLine(lines[0], acc)
      case Err(e) => Err(e)
      case Ok(h) => ParseFrom(lines[1..], acc + [h])
  }

  function Parse(lines: seq<Bytes>): Result<seq<Header>, HttpError> { ParseFrom(lines, []) }

  class HeadersParser {
    const maxFieldSize: nat

    constructor (maxFieldSize: nat)
      ensures this.maxFieldSize == maxFieldSize
    {
      this.maxFieldSize := maxFieldSize;
    }

    /** One line that is not empty (lines 177-233). */
    method ParseHeader(line: Bytes, headers: seq<Header>) returns (r: Result<Header, HttpError>)
      ensures r == ParseLine(line, headers)
    {
      hide IsToken, Safe, Strip, LStrip, Has;
      var colon := IndexOf(line, ':');
      if colon == -1 { return Err(InvalidHeader); }
      var bname, bvalue := line[..colon], line[colon + 1..];
      if |bname| == 0 { return Err(InvalidHeader); }
      if Blank(bname[0]) || Blank(bname[|bname| - 1]) { return Err(InvalidHeader); }
      bvalue := LStrip(bvalue);
      if !IsToken(bname) { return Err(InvalidHeader); }
      bvalue := Strip(bvalue);
      if !Safe(bvalue) { return Err(InvalidHeader); }
      if Has(headers, Lower(bname)) && Lower(bname) in SINGLETON_HEADERS { return Err(BadHttpMessage); }
      return Ok(Header(bname, bvalue));
    }

    /** `parse_headers`, strict mode: the list always ends with the empty line. */
    method ParseHeaders(lines: seq<Bytes>) returns (r: Result<seq<Header>, HttpError>)
      requires "" in lines
      ensures r == Parse(lines)
    {
      hide ParseLine;
      var headers: seq<Header> := [];
      var linesIdx := 0;
      var line := lines[0];
      while line != ""
        invariant linesIdx < |lines| && line == lines[linesIdx]
        invariant "" in lines[linesIdx..]
        invariant Parse(lines) == ParseFrom(lines[linesIdx..], headers)
        decreases |lines| - linesIdx
      {
        assert lines[linesIdx..] == [line] + lines[linesIdx + 1..];
        var header := ParseHeader(line, headers);
        if header.Err? { return Err(header.error); }
        linesIdx := linesIdx + 1;
        line := lines[linesIdx];
        headers := headers + [header.value];
      }
      return Ok(headers);
    }
  }

  // ---- printing --------------------------------------------------------------------------------

  function HeaderLine(h: Header): Bytes { h.name + ": " + h.value }

  function HeaderLines(hs: seq<Header>): seq<Bytes> {
    if hs == [] then [] else [HeaderLine(hs[0])] + HeaderLines(hs[1..])
  }

  lemma {:induction false} LinesOf(hs: seq<Header>)
    ensures |HeaderLines(hs)| == |hs| && forall i :: 0 <= i < |hs| ==> HeaderLines(hs)[i] == HeaderLine(hs[i])
  {
    if hs != [] {
      LinesOf(hs[1..]);
      assert forall i :: 0 < i < |hs| ==> hs[i] == hs[1..][i - 1];
    }
  }

  /** `"\r\n".join(lines)` */
  function JoinLines(lines: seq<Bytes>): Bytes {
    if lines == [] then ""
    else if |lines| == 1 then lines[0]
    else lines[0] + CRLF + JoinLines(lines[1..])
  }

  predicate AllSafe(statusLine: Bytes, hs: seq<Header>) {
    && Safe(statusLine)
    && forall i :: 0 <= i < |hs| ==> Safe(hs[i].name) && Safe(hs[i].value)
  }

  /** `_py_serialize_headers` */
  function Serialize(statusLine: Bytes, hs: seq<Header>): Result<Bytes, HttpError> {
    if AllSafe(statusLine, hs)
    then Ok(statusLine + CRLF + JoinLines(HeaderLines(hs)) + CRLF + CRLF)
    else Err(ForbiddenCharacter)
  }

  /** The wire form of a list of lines, each ended by CRLF. */
  function Terminated(lines: seq<Bytes>): Bytes {
    if lines == [] then "" else lines[0] + CRLF + Terminated(lines[1..])
  }

  lemma {:induction false} JoinIsTerminated(lines: seq<Bytes>)
    requires lines != []
    ensures JoinLines(lines) + CRLF == Terminated(lines)
  {
    if |lines| > 1 {
      JoinIsTerminated(lines[1..]);
    } else {
      assert Terminated(lines[1..]) == "";
    }
  }

  lemma {:induction false} TerminatedAppend(a: seq<Bytes>, b: seq<Bytes>)
    ensures Terminated(a + b) == Terminated(a) + Terminated(b)
  {
    if a == [] {
      assert a + b == b;
    } else {
      assert (a + b)[1..] == a[1..] + b;
      TerminatedAppend(a[1..], b);
    }
  }

  lemma TerminatedBlock(first: Bytes, body: seq<Bytes>)
    ensures Terminated([first] + body + [""]) == first + CRLF + Terminated(body) + CRLF
  {
    assert ([first] + body + [""])[1..] == body + [""];
    TerminatedAppend(body, [""]);
    assert Terminated([""]) == CRLF by { assert Terminated([""][1..]) == ""; }
  }

  /** A printed block is its lines, each ended by CRLF, and an empty line; with no header
      at all the code prints one empty line too many. */
  lemma SerializedLines(statusLine: Bytes, hs: seq<Header>)
    requires AllSafe(statusLine, hs)
    ensures Serialize(statusLine, hs).value ==
      Terminated([statusLine] + HeaderLines(hs) + [""]) + if hs == [] then CRLF else ""
  {
    hide AllSafe, Terminated;
    TerminatedBlock(statusLine, HeaderLines(hs));
    if hs == [] {
      assert Terminated([]) == "" by { EmptyTerminated(); }
    } else {
      JoinIsTerminated(HeaderLines(hs));
      assert statusLine + CRLF + JoinLines(HeaderLines(hs)) + CRLF + CRLF
          == statusLine + CRLF + (JoinLines(HeaderLines(hs)) + CRLF) + CRLF;
    }
  }

  lemma EmptyTerminated()
    ensures Terminated([]) == ""
  {
  }

  predicate WellFormedHeader(h: Header) { IsToken(h.name) && Stripped(h.value) }

  /** What `parse_headers` needs of a list so that it reads back unchanged. */
  predicate Parsable(hs: seq<Header>, acc: seq<Header>) {
    hs == [] ||
    (WellFormedHeader(hs[0]) && !DuplicateSingleton(acc, hs[0].name) && Parsable(hs[1..], acc + [hs[0]]))
  }

  lemma SplitPrinted(h: Header)
    requires ':' !in h.name
    ensures var line := HeaderLine(h);
      IndexOf(line, ':') == |h.name| && line[..|h.name|] == h.name &&
      Strip(LStrip(line[|h.name| + 1..])) == Strip(h.value)
  {
    var line := HeaderLine(h);
    assert line[|h.name|] == ':' && line[..|h.name|] == h.name;
    IndexOfUnique(line, ':', |h.name|);
    assert line[|h.name| + 1..] == " " + h.value;
    assert LStrip(" " + h.value) == LStrip(h.value) by { assert (" " + h.value)[1..] == h.value; }
    LStripIdempotent(h.value);
  }

  lemma TokenEndsNotBlank(name: Bytes)
    ensures IsToken(name) ==> name != "" && !Blank(name[0]) && !Blank(name[|name| - 1])
  {
    assert IsToken(name) ==> IsTokenChar(name[0]) && IsTokenChar(name[|name| - 1]);
  }

  lemma PlainNameLine(h: Header, acc: seq<Header>)
    requires Safe(h.value) && ':' !in h.name
    ensures ParseLine(HeaderLine(h), acc) == Ok(h) <==> WellFormedHeader(h) && !DuplicateSingleton(acc, h.name)
  {
    hide DuplicateSingleton, IsToken, Safe;
    SplitPrinted(h);
    StripFixpoints(h.value);
    TokenEndsNotBlank(h.name);
  }

  lemma ColonNameLine(h: Header, acc: seq<Header>)
    requires ':' in h.name
    ensures ParseLine(HeaderLine(h), acc) != Ok(h) && !WellFormedHeader(h)
  {
    var line, i := HeaderLine(h), IndexOf(h.name, ':');
    assert line[i] == ':' && line[..i] == h.name[..i];
    IndexOfUnique(line, ':', i);
    assert |line[..i]| < |h.name|;
    assert !IsTokenChar(h.name[i]);
  }

  lemma LineRoundTrip(h: Header, acc: seq<Header>)
    requires Safe(h.value)
    ensures HeaderLine(h) != ""
    ensures ParseLine(HeaderLine(h), acc) == Ok(h) <==> WellFormedHeader(h) && !DuplicateSingleton(acc, h.name)
  {
    if ':' in h.name { ColonNameLine(h, acc); } else { PlainNameLine(h, acc); }
    assert HeaderLine(h)[|h.name|] == ':';
  }

  lemma LStripIdempotent(s: Bytes)
    ensures LStrip(LStrip(s)) == LStrip(s)
  {
    LStripIsSuffix(s);
  }

  lemma {:induction false} ParseKeepsAcc(lines: seq<Bytes>, acc: seq<Header>)
    ensures ParseFrom(lines, acc).Ok? ==> acc <= ParseFrom(lines, acc).value
  {
    if lines != [] && lines[0] != "" {
      var r := ParseLine(lines[0], acc);
      if r.Ok? {
        ParseKeepsAcc(lines[1..], acc + [r.value]);
      }
    }
  }

  lemma {:induction false} ParsePrintedFrom(hs: seq<Header>, acc: seq<Header>)
    requires forall i :: 0 <= i < |hs| ==> Safe(hs[i].value)
    ensures ParseFrom(HeaderLines(hs) + [""], acc) == Ok(acc + hs) <==> Parsable(hs, acc)
  {
    hide DuplicateSingleton, WellFormedHeader, ParseLine, Safe, HeaderLine;
    var lines := HeaderLines(hs) + [""];
    if hs == [] {
      assert acc + hs == acc;
    } else {
      LineRoundTrip(hs[0], acc);
      assert lines[0] == HeaderLine(hs[0]);
      assert lines[1..] == HeaderLines(hs[1..]) + [""];
      ParsePrintedFrom(hs[1..], acc + [hs[0]]);
      assert acc + [hs[0]] + hs[1..] == acc + hs;
      var r := ParseLine(lines[0], acc);
      if r.Ok? && r.value != hs[0] {
        ParseKeepsAcc(lines[1..], acc + [r.value]);
        assert (acc + [r.value])[|acc|] == r.value;
        assert (acc + hs)[|acc|] == hs[0];
      }
    }
  }

  /** Header round trip, exactly: the parser reads a printed list back unchanged if and only
      if every name is a token, every value carries no outer blanks and no singleton header
      is repeated. */
  lemma HeaderRoundTrip(hs: seq<Header>)
    requires forall i :: 0 <= i < |hs| ==> Safe(hs[i].value)
    ensures Parse(HeaderLines(hs) + [""]) == Ok(hs) <==> Parsable(hs, [])
  {
    hide ParseFrom, Parsable, Safe;
    ParsePrintedFrom(hs, []);
    assert [] + hs == hs;
  }
}

/** One request head: `HttpRequestParser.parse_message`, `HttpParser.parse_headers` and the choice
    of body framing made by `HttpParser.feed_data` (http_parser.py). */
module Requests {
  import opened ByteStrings
  import opened Headers

  datatype Version = Version(major: nat, minor: nat)

  datatype Request = Request(
    verb: Bytes,
    path: Bytes,
    version: Version,
    headers: seq<Header>,
    shouldClose: bool,
    compression: Option<Bytes>,
    upgrade: bool,
    chunked: bool)

  predicate IsDigit(c: char) { '0' <= c <= '9' }

  /** `DIGITS.fullmatch` */
  predicate IsNumber(s: Bytes) { s != "" && forall i :: 0 <= i < |s| ==> IsDigit(s[i]) }

  function NumberOf(s: Bytes): nat
    requires IsNumber(s)
  {
    var d := s[|s| - 1] as int - '0' as int;
    if |s| == 1 then d else 10 * NumberOf(s[..|s| - 1]) + d
  }

  /** `str(n)` */
  function Decimal(n: nat): Bytes {
    if n < 10 then [(n + '0' as int) as char] else Decimal(n / 10) + [(n % 10 + '0' as int) as char]
  }

  lemma {:induction false} DecimalRoundTrip(n: nat)
    ensures IsNumber(Decimal(n)) && NumberOf(Decimal(n)) == n
  {
    if n >= 10 {
      DecimalRoundTrip(n / 10);
      var s := Decimal(n);
      assert s[..|s| - 1] == Decimal(n / 10);
    }
  }

  /** Zeros in front do not matter, so the last digit is the least. */
  lemma {:induction false} ZerosInFront(s: Bytes, i: nat)
    requires IsNumber(s) && i < 10
    ensures NumberOf(["0123456789"[i]]) == i
    ensures IsNumber("0" + s) && NumberOf("0" + s) == NumberOf(s)
  {
    if |s| > 1 {
      ZerosInFront(s[..|s| - 1], i);
      assert ("0" + s)[..|s|] == "0" + s[..|s| - 1];
    } else {
      assert ("0" + s)[..1] == "0";
    }
  }

  /** `VERSRE.fullmatch` */
  function ParseVersion(s: Bytes): Option<Version> {
    if |s| == 8 && s[..5] == "HTTP/" && IsDigit(s[5]) && s[6] == '.' && IsDigit(s[7])
    then Some(Version(s[5] as int - '0' as int, s[7] as int - '0' as int))
    else None
  }

  /** `{token.lower() for token in (part.strip(" \t") for part in s.split(",")) if token and token.isascii()}` */
  predicate HasListToken(s: Bytes, token: Bytes) {
    exists p :: p in Split(s, ',') && Strip(p) != "" && IsAscii(Strip(p)) && Lower(Strip(p)) == token
  }

  predicate IsChunkedToken(p: Bytes) { IsAscii(Strip(p)) && Lower(Strip(p)) == "chunked" }

  function CountChunked(parts: seq<Bytes>): nat {
    if parts == [] then 0 else (if IsChunkedToken(parts[0]) then 1 else 0) + CountChunked(parts[1..])
  }

  /** `HttpRequestParser._is_chunked_te`: chunked exactly once and last, or an error. */
  predicate ChunkedOnceAndLast(te: Bytes) {
    var parts := Split(te, ',');
    CountChunked(parts) <= 1 && IsChunkedToken(parts[|parts| - 1])
  }

  datatype HeaderFacts = HeaderFacts(close: Option<bool>, compression: Option<Bytes>, upgrade: bool, chunked: bool)

  /** `HttpParser.parse_headers` (lines 578-630), from the parsed list on. */
  function Interpret(hs: seq<Header>): Result<HeaderFacts, HttpError> {
    var conn := match Get(hs, "connection") case Some(v) => v case None => "";
    var close := if HasListToken(conn, "close") then Some(true)
      else if HasListToken(conn, "keep-alive") then Some(false) else None;
    var upgrade := HasListToken(conn, "upgrade") && Get(hs, "upgrade").Some? && Get(hs, "upgrade").value != "";
    var enc := match Get(hs, "content-encoding") case Some(v) => v case None => "";
    var compression := if IsAscii(enc) && Lower(enc) in ["gzip", "deflate", "br", "zstd"] then Some(enc) else None;
    match Get(hs, "transfer-encoding")
    case None => Ok(HeaderFacts(close, compression, upgrade, false))
    case Some(te) =>
      if !ChunkedOnceAndLast(te) then Err(BadHttpMessage)
      else if Has(hs, "content-length") then Err(BadHttpMessage)
      else Ok(HeaderFacts(close, compression, upgrade, true))
  }

  datatype RequestLine = RequestLine(verb: Bytes, path: Bytes, version: Version)

  /** The request line (lines 659-697). Whether a target that is neither origin-form, authority-form
      nor `*` has a scheme is for the URL library to say. */
  function ParseRequestLine(line: Bytes, hasScheme: Bytes -> bool): Result<RequestLine, HttpError> {
    var i := IndexOf(line, ' ');
    if i == -1 then Err(BadHttpMethod)
    else
      var rest := line[i + 1..];
      var j := IndexOf(rest, ' ');
      if j == -1 then Err(BadHttpMethod)
      else if !IsToken(line[..i]) then Err(BadHttpMethod)
      else
        var verb, path, version := Upper(line[..i]), rest[..j], ParseVersion(rest[j + 1..]);
        if version.None? then Err(BadStatusLine)
        else if verb == "CONNECT" || (path != "" && path[0] == '/') || (path == "*" && verb == "OPTIONS") ||
          hasScheme(path)
        then Ok(RequestLine(verb, path, version.value))
        else Err(InvalidUrl)
  }

  /** `parse_message` (lines 648-729). */
  function ParseMessage(lines: seq<Bytes>, hasScheme: Bytes -> bool): Result<Request, HttpError>
    requires lines != []
  {
    match ParseRequestLine(lines[0], hasScheme)
    case Err(e) => Err(e)
    case Ok(line) =>
      match Parse(lines[1..])
      case Err(e) => Err(e)
      case Ok(hs) =>
        match Interpret(hs)
        case Err(e) => Err(e)
        case Ok(facts) =>
          if line.version == Version(1, 1) && !Has(hs, "host") then Err(BadHttpMessage)
          else
            var close := match facts.close case Some(c) => c
              case None => line.version.major < 1 || line.version == Version(1, 0);
            Ok(Request(line.verb, line.path, line.version, hs, close, facts.compression, facts.upgrade, facts.chunked))
  }

  /** How the bytes after a head are read. */
  datatype Framing =
    | NoBody
    | Framed(chunked: bool, length: Option<nat>, thenUpgrade: bool)
    | Tunnel // CONNECT: everything that follows is payload
    | SwitchNow // upgrade without a body

  predicate SupportedUpgrade(hs: seq<Header>) {
    match Get(hs, "upgrade")
    case None => false
    case Some(u) => IsAscii(u) && Lower(u) in ["tcp", "websocket"]
  }

  /** Lines 400-520 of `feed_data`, for requests. */
  function FrameOf(m: Request): Result<Framing, HttpError> {
    var lengthHdr := Get(m.headers, "content-length");
    if lengthHdr.Some? && !IsNumber(lengthHdr.value) then Err(InvalidHeader)
    else
      var length := match lengthHdr case None => None case Some(v) => Some(NumberOf(v));
      if Has(m.headers, "sec-websocket-key1") then Err(InvalidHeader)
      else
        var upgraded := m.upgrade && SupportedUpgrade(m.headers);
        if m.verb != "HEAD" && ((length.Some? && length.value > 0) || m.chunked)
        then Ok(Framed(m.chunked, length, upgraded))
        else if m.verb == "CONNECT" then Ok(Tunnel)
        else if upgraded then Ok(SwitchNow)
        else Ok(NoBody)
  }
}

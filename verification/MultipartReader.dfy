/** `MultipartReader` (multipart.py): boundary lines, header blocks and parts taken from a stream
    in arbitrarily short reads, proved equal to reading the whole message at once. */
module MultipartReaders {
  import opened ByteStrings
  import opened Headers
  import opened BodyParts
  import Requests

  /** `boundary` as the content type gives it. Whether a content disposition names the default
      charset is for the header parameter parser to say. */
  datatype Config = Config(
    boundary: Bytes,
    formData: bool,
    clientMaxSize: nat,
    maxFieldSize: nat,
    maxHeaders: nat,
    highWater: nat,
    namesCharset: Bytes -> bool)
  {
    /** The start of a boundary line. */
    function Mark(): Bytes { "--" + boundary }

    predicate Fits(line: Bytes) { |line| <= LineLimit(0, highWater) }
  }

  const SPACES := {' ', '\t', '\n', '\r', 11 as char, 12 as char}
  const LINE_ENDS := {'\r', '\n'}

  /** `rstrip` */
  function TrimEnd(s: Bytes, chars: set<char>): (r: Bytes)
    ensures r <= s && (r == "" || r[|r| - 1] !in chars)
  {
    if s != "" && s[|s| - 1] in chars then TrimEnd(s[..|s| - 1], chars) else s
  }

  // ---- the whole message at once ---------------------------------------------------------------

  /** A boundary line: what follows it and, for the last one, the two lines kept for a parent. */
  datatype BoundaryLine = BoundaryLine(last: bool, unread: seq<Bytes>, rest: Bytes)

  /** The first boundary line, after any preamble. */
  function FirstBoundary(c: Config, s: Bytes): (r: Option<BoundaryLine>)
    ensures r.Some? ==> |r.value.rest| < |s|
    decreases |s|
  {
    var line := FirstLine(s);
    if !c.Fits(line) || line == "" then None
    else if TrimEnd(line, SPACES) == c.Mark() then Some(BoundaryLine(false, [], s[|line|..]))
    else if TrimEnd(line, SPACES) == c.Mark() + "--" then Some(BoundaryLine(true, [], s[|line|..]))
    else FirstBoundary(c, s[|line|..])
  }

  /** The lines after the last boundary. */
  function Epilogue(c: Config, s: Bytes): (r: Option<BoundaryLine>)
    ensures r.Some? ==> r.value.last
  {
    var epilogue := FirstLine(s);
    if !c.Fits(epilogue) then None
    else
      var next := FirstLine(s[|epilogue|..]);
      if !c.Fits(next) then None
      else Some(BoundaryLine(true, if "--" <= next then [next] else [next, epilogue], s[|epilogue|..][|next|..]))
  }

  /** The next line must be a boundary line. */
  function NextBoundary(c: Config, s: Bytes): (r: Option<BoundaryLine>)
    ensures r.Some? ==> |r.value.rest| < |s|
  {
    var line := FirstLine(s);
    if !c.Fits(line) then None
    else if TrimEnd(line, SPACES) == c.Mark() then Some(BoundaryLine(false, [], s[|line|..]))
    else if TrimEnd(line, SPACES) == c.Mark() + "--" then Epilogue(c, s[|line|..])
    else None
  }

  datatype Block = Block(lines: seq<Bytes>, rest: Bytes)

  /** The header lines up to an empty one, after `lines`. */
  function HeaderBlock(c: Config, s: Bytes, lines: seq<Bytes>): (r: Option<Block>)
    ensures r.Some? ==> |r.value.rest| <= |s| && "" in r.value.lines
    decreases |s|
  {
    var line := FirstLine(s);
    if |line| > LineLimit(c.maxFieldSize, c.highWater) then None
    else
      var text := TrimEnd(line, LINE_ENDS);
      if text == "" then Some(Block(lines + [""], s[|line|..]))
      else if |lines| + 1 > c.maxHeaders then None
      else HeaderBlock(c, s[|line|..], lines + [text])
  }

  // ---- the content type of a message -----------------------------------------------------------

  /** What `str.strip` takes off. */
  const TEXT_SPACES := SPACES + {28 as char, 29 as char, 30 as char, 31 as char, 0x85 as char, 0xa0 as char}
  const QUOTES := {' ', '"'}

  function TrimStart(s: Bytes, chars: set<char>): (r: Bytes)
    ensures |r| <= |s| && r == s[|s| - |r|..] && (r == "" || r[0] !in chars)
  {
    if s != "" && s[0] in chars then TrimStart(s[1..], chars) else s
  }

  /** `strip(chars)` */
  function TrimBoth(s: Bytes, chars: set<char>): Bytes { TrimEnd(TrimStart(s, chars), chars) }

  /** `s.partition(c)[0]` */
  function UpTo(s: Bytes, c: char): Bytes { if IndexOf(s, c) == -1 then s else s[..IndexOf(s, c)] }

  /** `s.partition(c)[2]` */
  function Beyond(s: Bytes, c: char): Bytes { if IndexOf(s, c) == -1 then "" else s[IndexOf(s, c) + 1..] }

  function FullType(ctype: Bytes): Bytes { Lower(TrimBoth(ByteStrings.Split(ctype, ';')[0], TEXT_SPACES)) }

  /** `parse_mimetype(ctype).type` */
  function MainType(ctype: Bytes): Bytes { UpTo(FullType(ctype), '/') }

  /** `parse_mimetype(ctype).subtype` */
  function SubType(ctype: Bytes): Bytes { UpTo(Beyond(FullType(ctype), '/'), '+') }

  /** The first parameter of a name: white space around it is stripped off the name, and blanks and
      quotes off its value. */
  function Parameter(items: seq<Bytes>, name: Bytes): Option<Bytes> {
    if items == [] then None
    else if TrimBoth(Lower(UpTo(items[0], '=')), TEXT_SPACES) == name then Some(TrimBoth(Beyond(items[0], '='), QUOTES))
    else Parameter(items[1..], name)
  }

  /** `parse_mimetype(ctype).parameters.get("boundary")` */
  function BoundaryParameter(ctype: Bytes): Option<Bytes> { Parameter(ByteStrings.Split(ctype, ';')[1..], "boundary") }

  /** What a reader goes by for a message of this content type, or none if it refuses it; `c` gives the
      limits. */
  function OpenConfig(c: Config, ctype: Bytes): Option<Config> {
    if MainType(ctype) != "multipart" then None
    else
      match BoundaryParameter(ctype)
      case None => None
      case Some(b) => if |b| > 70 then None else Some(c.(boundary := b, formData := SubType(ctype) == "form-data"))
  }

  function Value(hs: seq<Header>, name: Bytes): Bytes {
    match Get(hs, name) case Some(v) => v case None => ""
  }

  /** Not a nested multipart, not base64 and, in form data, not the default charset. */
  predicate Ordinary(c: Config, hs: seq<Header>) {
    && MainType(Value(hs, "content-type")) != "multipart"
    && Lower(Value(hs, "content-transfer-encoding")) != "base64"
    && (c.formData ==> !c.namesCharset(Value(hs, "content-disposition")))
  }

  datatype Length = Invalid | Length(value: Option<nat>)

  /** The declared length of a part; form data has none. */
  function DeclaredLength(c: Config, hs: seq<Header>): Length {
    if c.formData then Length(None)
    else
      match Get(hs, "content-length")
      case None => Length(None)
      case Some(v) => if Requests.IsNumber(v) then Length(Some(Requests.NumberOf(v))) else Invalid
  }

  datatype Found =
    | Broken
    | End(unread: seq<Bytes>, rest: Bytes)
    | Opened(headers: seq<Header>, length: Option<nat>, rest: Bytes)

  function OpenPart(c: Config, s: Bytes): (r: Found)
    ensures r.Opened? ==> |r.rest| <= |s|
    ensures !r.End?
  {
    match HeaderBlock(c, s, [])
    case None => Broken
    case Some(b) =>
      match Parse(b.lines)
      case Err(_) => Broken
      case Ok(hs) =>
        if !Ordinary(c, hs) then Broken
        else
          match DeclaredLength(c, hs)
          case Invalid => Broken
          case Length(n) => Opened(hs, n, b.rest)
  }

  /** The next part of a message, or its end. */
  function NextPart(c: Config, s: Bytes, first: bool): (r: Found)
    ensures r.Opened? ==> |r.rest| < |s|
  {
    match if first then FirstBoundary(c, s) else NextBoundary(c, s)
    case None => Broken
    case Some(line) => if line.last then End(line.unread, line.rest) else OpenPart(c, line.rest)
  }

  datatype Parsed = Parsed(headers: seq<Header>, body: Bytes)

  function Prepend(acc: seq<Parsed>, o: Option<seq<Parsed>>): Option<seq<Parsed>> {
    match o case None => None case Some(ps) => Some(acc + ps)
  }

  /** All parts of a message, or none if it is malformed or a part is over the size limit. */
  function ReadParts(c: Config, s: Bytes, first: bool): Option<seq<Parsed>>
    decreases |s|
  {
    match NextPart(c, s, first)
    case Broken => None
    case End(_, _) => Some([])
    case Opened(hs, n, rest) =>
      match PartOf(c.Mark(), n, rest)
      case None => None
      case Some(part) =>
        PartIsShorter(c.Mark(), n, rest);
        if |part.body| > c.clientMaxSize then None
        else Prepend([Parsed(hs, part.body)], ReadParts(c, part.rest, false))
  }

  lemma PartIsShorter(mark: Bytes, length: Option<nat>, content: Bytes)
    ensures var p := PartOf(mark, length, content); p.Some? ==> |p.value.rest| <= |content|
  {
    hide OccursAt;
    if !(length.Some? && length.value > 0) { FindInside(CRLF + content, Delimiter(mark)); }
  }

  /** All parts of a message with this content type. */
  function ReadMessage(c: Config, ctype: Bytes, s: Bytes): Option<seq<Parsed>> {
    match OpenConfig(c, ctype) case None => None case Some(known) => ReadParts(known, s, true)
  }

  // ---- the reader --------------------------------------------------------------------------------

  class MultipartReader {
    const config: Config
    const content: Content
    var lastPart: BodyPartReader?
    var atEof: bool
    var atBof: bool
    var unread: seq<Bytes>

    constructor (config: Config, content: Content)
      requires |config.boundary| <= 70 && content.highWater == config.highWater >= 2
      ensures this.config == config && this.content == content
      ensures Valid() && lastPart == null && !atEof && atBof
    {
      this.config, this.content := config, content;
      lastPart, atEof, atBof, unread := null, false, true, [];
    }

    ghost predicate Valid()
      reads this, content, lastPart
    {
      && |config.boundary| <= 70 && content.highWater == config.highWater >= 2
      && (unread != [] ==> atEof)
      && (lastPart != null ==>
        lastPart.content == content && lastPart.boundary == config.Mark() && (lastPart.Reading() || lastPart.Done()))
    }

    /** The stream at the next boundary line, if the part before it is well formed. */
    ghost function Position(): Option<Bytes>
      reads this, content
    {
      if lastPart == null then Some(content.rest)
      else match lastPart.Target() case None => None case Some(p) => Some(p.rest)
    }

    /** `_readline` */
    method ReadLine() returns (line: Option<Bytes>)
      requires Valid()
      modifies this`unread, content
      ensures old(unread) == [] ==> unread == [] && (line.Some? <==> config.Fits(FirstLine(old(content.rest))))
      ensures old(unread) == [] && line.Some? ==>
        line.value == FirstLine(old(content.rest)) && line.value + content.rest == old(content.rest)
      ensures old(unread) != [] ==>
        content.rest == old(content.rest) && line == Some(old(unread[|unread| - 1])) &&
          unread == old(unread[..|unread| - 1])
    {
      if unread != [] {
        line := Some(unread[|unread| - 1]);
        unread := unread[..|unread| - 1];
      } else {
        line := content.ReadLine(0);
      }
    }

    /** `_read_until_first_boundary` */
    method ReadUntilFirstBoundary() returns (ok: bool)
      requires Valid() && lastPart == null && !atEof
      modifies this`unread, this`atEof, content
      ensures unread == []
      ensures ok <==> FirstBoundary(config, old(content.rest)).Some?
      ensures ok ==> FirstBoundary(config, old(content.rest)) == Some(BoundaryLine(atEof, [], content.rest))
    {
      while true
        invariant unread == [] && !atEof
        invariant FirstBoundary(config, content.rest) == FirstBoundary(config, old(content.rest))
        decreases |content.rest|
      {
        ghost var was := content.rest;
        var chunk := ReadLine();
        if chunk.None? || chunk.value == "" { return false; }
        assert content.rest == was[|chunk.value|..];
        var text := TrimEnd(chunk.value, SPACES);
        if text == config.Mark() {
          return true;
        } else if text == config.Mark() + "--" {
          atEof := true;
          return true;
        }
      }
      return false;
    }

    /** `_read_boundary` */
    method ReadBoundary() returns (ok: bool)
      requires Valid() && lastPart == null && !atEof
      modifies this`unread, this`atEof, content
      ensures ok <==> NextBoundary(config, old(content.rest)).Some?
      ensures ok ==> NextBoundary(config, old(content.rest)) == Some(BoundaryLine(atEof, unread, content.rest))
      ensures unread != [] ==> atEof
    {
      hide Epilogue, TrimEnd;
      ghost var s0 := content.rest;
      var chunk := ReadLine();
      if chunk.None? { return false; }
      assert content.rest == s0[|chunk.value|..];
      var text := TrimEnd(chunk.value, SPACES);
      if text == config.Mark() { return true; }
      if text != config.Mark() + "--" { return false; }
      atEof := true;
      ok := ReadEpilogue();
    }

    /** The lines after the last boundary, kept for the parent of a nested reader. */
    method ReadEpilogue() returns (ok: bool)
      requires Valid() && lastPart == null && unread == []
      modifies this`unread, content
      ensures ok <==> Epilogue(config, old(content.rest)).Some?
      ensures ok ==> Epilogue(config, old(content.rest)) == Some(BoundaryLine(true, unread, content.rest))
      ensures !ok ==> unread == []
    {
      hide FirstLine, LineLimit;
      ghost var s1 := content.rest;
      var epilogue := ReadLine();
      if epilogue.None? { return false; }
      ghost var s2 := content.rest;
      assert s2 == s1[|epilogue.value|..];
      var nextLine := ReadLine();
      if nextLine.None? { return false; }
      assert content.rest == s2[|nextLine.value|..] && unread == [];
      assert [] + [nextLine.value] == [nextLine.value] &&
        [] + [nextLine.value, epilogue.value] == [nextLine.value, epilogue.value];
      if "--" <= nextLine.value {
        unread := unread + [nextLine.value];
      } else {
        unread := unread + [nextLine.value, epilogue.value];
      }
      return true;
    }

    /** `_read_headers` */
    method ReadHeaders() returns (r: Option<seq<Header>>)
      modifies content
      requires content.highWater == config.highWater
      ensures var b := HeaderBlock(config, old(content.rest), []);
        if b.None? || Parse(b.value.lines).Err? then r.None?
        else r == Some(Parse(b.value.lines).value) && content.rest == b.value.rest
    {
      hide Parse, TrimEnd;
      var lines: seq<Bytes> := [];
      ghost var s0 := content.rest;
      var more := true;
      while more
        invariant more ==> HeaderBlock(config, content.rest, lines) == HeaderBlock(config, s0, [])
        invariant !more ==> HeaderBlock(config, s0, []) == Some(Block(lines, content.rest))
        decreases more, |content.rest|
      {
        ghost var was := content.rest;
        var chunk := content.ReadLine(config.maxFieldSize);
        if chunk.None? { return None; }
        assert content.rest == was[|chunk.value|..];
        var text := TrimEnd(chunk.value, LINE_ENDS);
        assert text != "" ==> chunk.value != "";
        lines := lines + [text];
        if text == "" {
          more := false;
        } else if |lines| > config.maxHeaders {
          return None;
        }
      }
      var parser := new HeadersParser(config.maxFieldSize);
      var headers := parser.ParseHeaders(lines);
      if headers.Err? { return None; }
      return Some(headers.value);
    }

    /** `_maybe_release_last_part` */
    method MaybeReleaseLastPart() returns (ok: bool)
      requires Valid() && unread == []
      modifies this`lastPart, content, lastPart
      ensures ok <==> old(Position()).Some?
      ensures ok ==> lastPart == null && Some(content.rest) == old(Position())
    {
      if lastPart != null {
        assert |lastPart.Sub()| <= CHUNK_SIZE;
        var error := lastPart.Release();
        if error.Some? { return false; }
        lastPart := null;
      }
      return true;
    }

    /** `fetch_next_part` */
    method FetchNextPart() returns (r: BodyPartReader?)
      requires Valid() && lastPart == null
      modifies content
      ensures r == null <==> OpenPart(config, old(content.rest)).Broken?
      ensures r != null ==>
        fresh(r) && r.content == content && r.boundary == config.Mark() && r.clientMaxSize == config.clientMaxSize
      ensures r != null ==>
        r.Reading() && r.emitted == "" && OpenPart(config, old(content.rest)) == Opened(r.headers, r.length, r.start)
    {
      hide Parse, Ordinary, HeaderBlock;
      var headers := ReadHeaders();
      if headers.None? || !Ordinary(config, headers.value) { return null; }
      var length := DeclaredLength(config, headers.value);
      if length.Invalid? { return null; }
      r := new BodyPartReader(config.Mark(), headers.value, length.value, content, config.clientMaxSize);
    }

    /** `next`: whatever was read of the part before, the next one or the end is that of the
        message; `null` ends the message. */
    method Next() returns (r: Result<BodyPartReader?, PartError>)
      requires Valid()
      modifies this, content, lastPart
      ensures old(atEof) ==> r == Ok(null) && content.rest == old(content.rest) && unread == old(unread) && atEof
      ensures !old(atEof) && old(Position()).None? ==> r.Err?
      ensures !old(atEof) && old(Position()).Some? ==>
        match NextPart(config, old(Position()).value, old(atBof))
        case Broken => r.Err?
        case End(held, rest) => r == Ok(null) && atEof && unread == held && content.rest == rest
        case Opened(headers, length, rest) =>
          r.Ok? && r.value != null && r.value == lastPart && fresh(lastPart) && Valid() && !atEof && !atBof
          && lastPart.headers == headers && lastPart.length == length && lastPart.start == rest
          && lastPart.Reading() && lastPart.emitted == "" && lastPart.clientMaxSize == config.clientMaxSize
    {
      hide FirstBoundary, NextBoundary, OpenPart;
      if atEof { return Ok(null); }
      var ok := MaybeReleaseLastPart();
      if !ok { return Err(Malformed); }
      if atBof {
        ok := ReadUntilFirstBoundary();
        if !ok { return Err(Malformed); }
        atBof := false;
      } else {
        ok := ReadBoundary();
        if !ok { return Err(Malformed); }
      }
      if atEof { return Ok(null); }
      var part := FetchNextPart();
      if part == null { return Err(Malformed); }
      lastPart := part;
      return Ok(lastPart);
    }
  }

  /** Every part of a message, read to its end. */
  method ReadAll(reader: MultipartReader) returns (r: Option<seq<Parsed>>)
    requires reader.Valid() && reader.lastPart == null && !reader.atEof
    modifies reader, reader.content
    ensures r == ReadParts(reader.config, old(reader.content.rest), old(reader.atBof))
  {
    hide NextPart, PartOf;
    ghost var whole := ReadParts(reader.config, reader.content.rest, reader.atBof);
    var parts: seq<Parsed> := [];
    assert whole.Some? ==> [] + whole.value == whole.value;
    while true
      invariant reader.Valid() && !reader.atEof && reader.Position().Some?
      invariant reader.lastPart != null ==> fresh(reader.lastPart)
      invariant whole == Prepend(parts, ReadParts(reader.config, reader.Position().value, reader.atBof))
      decreases |reader.Position().value|
    {
      ghost var s := reader.Position().value;
      var next := reader.Next();
      if next.Err? { return None; }
      var part := next.value;
      if part == null {
        assert parts + [] == parts;
        return Some(parts);
      }
      PartIsShorter(part.boundary, part.length, part.start);
      var body := part.Read();
      if body.Err? { return None; }
      PrependTwice(parts, Parsed(part.headers, body.value), ReadParts(reader.config, part.Target().value.rest, false));
      parts := parts + [Parsed(part.headers, body.value)];
    }
    return None;
  }

  lemma PrependTwice(acc: seq<Parsed>, p: Parsed, o: Option<seq<Parsed>>)
    ensures Prepend(acc, Prepend([p], o)) == Prepend(acc + [p], o)
  {
    if o.Some? { Assoc(acc, [p], o.value); }
  }

  /** `MultipartReader(headers, content)`: it goes by what the content type says, or refuses it. */
  method OpenReader(c: Config, ctype: Bytes, content: Content) returns (r: MultipartReader?)
    requires content.highWater == c.highWater >= 2
    ensures r == null <==> OpenConfig(c, ctype).None?
    ensures r != null ==> fresh(r) && r.Valid() && r.lastPart == null && !r.atEof && r.atBof && r.content == content
    ensures r != null ==> OpenConfig(c, ctype) == Some(r.config)
  {
    if MainType(ctype) != "multipart" { return null; }
    var boundary := BoundaryParameter(ctype);
    if boundary.None? || |boundary.value| > 70 { return null; }
    r := new MultipartReader(c.(boundary := boundary.value, formData := SubType(ctype) == "form-data"), content);
  }

  /** Every part of a message, from opening its reader on. */
  method Receive(c: Config, ctype: Bytes, content: Content) returns (r: Option<seq<Parsed>>)
    requires content.highWater == c.highWater >= 2
    modifies content
    ensures r == ReadMessage(c, ctype, old(content.rest))
  {
    hide ReadParts, MainType, BoundaryParameter, SubType;
    var reader := OpenReader(c, ctype, content);
    if reader == null { return None; }
    r := ReadAll(reader);
  }
}

/** `MultipartWriter` (multipart.py): appending parts, the computed size, the bytes of the message
    and the streaming write, which agree with each other, nested writers included. */
module MultipartWriters {
  import opened ByteStrings
  import opened Headers
  import Requests
  import Base64

  /** A payload of known or unknown size, or another multipart writer. */
  datatype Payload =
    | Data(bytes: Bytes, sized: bool)
    | Multi(boundary: Bytes, formData: bool, parts: seq<Part>)

  datatype Transfer = AsIs | ToBase64 | ToQuotedPrintable(quoted: Bytes)

  /** How a part is encoded on its way out. What a compressor makes of it, and the quoted-printable
      encoder, is for their code to say and comes with the part. */
  datatype Coding = Coding(compressed: Option<Base64.Octets>, transfer: Transfer)
  {
    predicate Encodes() { compressed.Some? || transfer != AsIs }

    /** What goes out for `data`. */
    function Emits(data: Bytes): Bytes {
      var taken := match compressed case Some(c) => c case None => data;
      match transfer
      case AsIs => taken
      case ToBase64 => Base64.Encode(Octets(taken))
      case ToQuotedPrintable(quoted) => quoted
    }
  }

  const PLAIN := Coding(None, AsIs)
  const BASE64 := Coding(None, ToBase64)

  datatype Part = Part(headers: seq<Header>, payload: Payload, coding: Coding)

  /** A string of bytes as octets; it is one already if its characters are bytes. */
  function Octets(s: Bytes): (r: Base64.Octets)
    ensures |r| == |s|
    ensures (forall i :: 0 <= i < |s| ==> s[i] < 256 as char) ==> r == s
  {
    seq(|s|, i requires 0 <= i < |s| => (s[i] as int % 256) as char)
  }

  datatype WriteError = ForbiddenCharacter | Refused | UnknownEncoding | BadBoundary

  // ---- what a message is -----------------------------------------------------------------------

  function Opening(boundary: Bytes): Bytes { "--" + boundary + CRLF }

  function Closing(boundary: Bytes): Bytes { "--" + boundary + "--" + CRLF }

  /** `_binary_headers` */
  function BinaryHeaders(hs: seq<Header>): Bytes { Terminated(HeaderLines(hs)) + CRLF }

  /** One part of a message. */
  function Framed(boundary: Bytes, headers: seq<Header>, body: Bytes): Bytes {
    Opening(boundary) + BinaryHeaders(headers) + body + CRLF
  }

  function PayloadBytes(p: Payload): Bytes
    decreases p
  {
    match p
    case Data(bytes, _) => bytes
    case Multi(boundary, _, parts) => Plain(boundary, parts) + Closing(boundary)
  }

  /** All parts of a message, without the closing boundary, each as it is. */
  function Plain(boundary: Bytes, parts: seq<Part>): Bytes
    decreases parts
  {
    if parts == [] then ""
    else
      var front, last := parts[..|parts| - 1], parts[|parts| - 1];
      Plain(boundary, front) + Framed(boundary, last.headers, PayloadBytes(last.payload))
  }

  /** What a payload writes. */
  function Written(p: Payload): Bytes
    decreases p
  {
    match p
    case Data(bytes, _) => bytes
    case Multi(boundary, _, parts) => Sent(boundary, parts) + Closing(boundary)
  }

  /** What goes to the wire: an encoded part is sent encoded. */
  function SentBytes(p: Part): Bytes
    decreases p
  {
    p.coding.Emits(Written(p.payload))
  }

  function Sent(boundary: Bytes, parts: seq<Part>): Bytes
    decreases parts
  {
    if parts == [] then ""
    else
      var front, last := parts[..|parts| - 1], parts[|parts| - 1];
      Sent(boundary, front) + Framed(boundary, last.headers, SentBytes(last))
  }

  /** Every header can be printed. */
  predicate PrintablePart(p: Part)
    decreases p
  {
    AllSafe("", p.headers) && (p.payload.Multi? ==> Printable(p.payload.parts))
  }

  predicate Printable(parts: seq<Part>)
    decreases parts
  {
    forall i :: 0 <= i < |parts| ==> PrintablePart(parts[i])
  }

  /** No part is encoded, nor a part of a part. */
  predicate Unencoded(parts: seq<Part>)
    decreases parts
  {
    forall i :: 0 <= i < |parts| ==> UnencodedPart(parts[i])
  }

  predicate UnencodedPart(p: Part)
    decreases p
  {
    !p.coding.Encodes() && (p.payload.Multi? ==> Unencoded(p.payload.parts))
  }

  /** The size of a payload is known if that of every unencoded leaf is. */
  predicate SizedPayload(p: Payload)
    decreases p
  {
    match p
    case Data(_, sized) => sized
    case Multi(_, _, parts) => Sized(parts)
  }

  predicate Sized(parts: seq<Part>)
    decreases parts
  {
    forall i :: 0 <= i < |parts| ==> !parts[i].coding.Encodes() && SizedPayload(parts[i].payload)
  }

  /** In form data every part says its name. */
  predicate NamedPart(formData: bool, p: Part)
    decreases p
  {
    && (formData ==>
      Get(p.headers, "content-disposition").Some? &&
      Find(Get(p.headers, "content-disposition").value, "name=") != -1)
    && (p.payload.Multi? ==> Named(p.payload.formData, p.payload.parts))
  }

  predicate Named(formData: bool, parts: seq<Part>)
    decreases parts
  {
    forall i :: 0 <= i < |parts| ==> NamedPart(formData, parts[i])
  }

  lemma PrefixSnoc<T>(s: seq<T>, i: nat)
    requires i < |s|
    ensures s[..i + 1] == s[..i] + [s[i]] && s[..i + 1][..|s[..i + 1]| - 1] == s[..i]
  {
  }

  lemma MessagePrefix(boundary: Bytes, parts: seq<Part>, i: nat)
    requires i < |parts|
    ensures Plain(boundary, parts[..i + 1]) ==
      Plain(boundary, parts[..i]) + Framed(boundary, parts[i].headers, PayloadBytes(parts[i].payload))
    ensures Sent(boundary, parts[..i + 1]) ==
      Sent(boundary, parts[..i]) + Framed(boundary, parts[i].headers, SentBytes(parts[i]))
  {
    hide Framed, PayloadBytes, SentBytes;
    PrefixSnoc(parts, i);
  }

  lemma MessageStart(boundary: Bytes)
    ensures Plain(boundary, []) == "" && Sent(boundary, []) == ""
  {
  }

  lemma BinaryHeadersPrefix(hs: seq<Header>, i: nat)
    requires i < |hs|
    ensures Terminated(HeaderLines(hs[..i + 1])) == Terminated(HeaderLines(hs[..i])) + (HeaderLine(hs[i]) + CRLF)
  {
    PrefixSnoc(hs, i);
    LinesAppend(hs[..i], [hs[i]]);
    assert HeaderLines([hs[i]]) == [HeaderLine(hs[i])] by { assert [hs[i]][1..] == []; }
    TerminatedAppend(HeaderLines(hs[..i]), [HeaderLine(hs[i])]);
    assert Terminated([HeaderLine(hs[i])]) == HeaderLine(hs[i]) + CRLF by {
      assert [HeaderLine(hs[i])][1..] == [];
      assert Terminated([]) == "";
    }
  }

  lemma {:induction false} LinesAppend(a: seq<Header>, b: seq<Header>)
    ensures HeaderLines(a + b) == HeaderLines(a) + HeaderLines(b)
  {
    if a == [] {
      assert a + b == b;
    } else {
      assert (a + b)[1..] == a[1..] + b;
      LinesAppend(a[1..], b);
    }
  }

  method PrintHeaders(hs: seq<Header>) returns (r: Result<Bytes, WriteError>)
    ensures r == if AllSafe("", hs) then Ok(BinaryHeaders(hs)) else Err(WriteError.ForbiddenCharacter)
  {
    var text: Bytes := "";
    for i := 0 to |hs|
      invariant text == Terminated(HeaderLines(hs[..i]))
      invariant forall j :: 0 <= j < i ==> Safe(hs[j].name) && Safe(hs[j].value)
    {
      if !Safe(hs[i].name) || !Safe(hs[i].value) { return Err(WriteError.ForbiddenCharacter); }
      text := text + (HeaderLine(hs[i]) + CRLF);
      BinaryHeadersPrefix(hs, i);
    }
    assert hs[..|hs|] == hs;
    return Ok(text + CRLF);
  }

  method PayloadSize(p: Payload) returns (r: Result<Option<nat>, WriteError>)
    decreases p
    ensures r.Ok? && r.value.Some? ==> r.value.value == |PayloadBytes(p)| && SizedPayload(p)
    ensures r.Ok? && r.value.Some? && p.Multi? ==> Printable(p.parts)
    ensures r.Ok? ==> (r.value.Some? <==> SizedPayload(p))
    ensures p.Data? || Printable(p.parts) ==> r.Ok?
  {
    match p
    case Data(bytes, sized) => r := Ok(if sized then Some(|bytes|) else None);
    case Multi(boundary, _, parts) => r := SizeOf(boundary, parts);
  }

  /** `size`: as soon as it is a number it is the number of bytes of the message; whenever the
      headers can be printed, it is one exactly if every part is unencoded and of known size. */
  method SizeOf(boundary: Bytes, parts: seq<Part>) returns (r: Result<Option<nat>, WriteError>)
    decreases parts
    ensures r.Ok? && r.value.Some? ==> r.value.value == |Plain(boundary, parts) + Closing(boundary)|
    ensures r.Ok? && r.value.Some? ==> r.value.value == |Sent(boundary, parts) + Closing(boundary)|
    ensures r.Ok? && r.value.Some? ==> Sized(parts) && Printable(parts)
    ensures r.Ok? ==> (r.value.Some? <==> Sized(parts))
    ensures Printable(parts) ==> r.Ok?
  {
    hide Plain, BinaryHeaders, PayloadBytes;
    MessageStart(boundary);
    var total: nat := 0;
    for i := 0 to |parts|
      invariant total == |Plain(boundary, parts[..i])|
      invariant forall j :: 0 <= j < i ==>
        PrintablePart(parts[j]) && !parts[j].coding.Encodes() && SizedPayload(parts[j].payload)
    {
      var part := parts[i];
      var partSize := PayloadSize(part.payload);
      if partSize.Err? { assert !PrintablePart(parts[i]); return Err(partSize.error); }
      if part.coding.Encodes() || partSize.value.None? { return Ok(None); }
      var hs := PrintHeaders(part.headers);
      if hs.Err? { assert !PrintablePart(parts[i]); return Err(hs.error); }
      total := total + (2 + |boundary| + 2 + partSize.value.value + |hs.value| + 2);
      MessagePrefix(boundary, parts, i);
    }
    assert parts[..|parts|] == parts;
    SizedIsUnencoded(parts);
    PlainIsSent(boundary, parts);
    return Ok(Some(total + (2 + |boundary| + 4)));
  }

  method PayloadAsBytes(p: Payload) returns (r: Result<Bytes, WriteError>)
    decreases p
    ensures r == if p.Multi? && !Printable(p.parts) then Err(WriteError.ForbiddenCharacter) else Ok(PayloadBytes(p))
  {
    match p
    case Data(bytes, _) => r := Ok(bytes);
    case Multi(boundary, _, parts) => r := AsBytes(boundary, parts);
  }

  /** `as_bytes` */
  method AsBytes(boundary: Bytes, parts: seq<Part>) returns (r: Result<Bytes, WriteError>)
    decreases parts
    ensures r == if Printable(parts) then Ok(Plain(boundary, parts) + Closing(boundary))
      else Err(WriteError.ForbiddenCharacter)
  {
    hide Plain, BinaryHeaders, PayloadBytes, Opening, Closing;
    MessageStart(boundary);
    var list: seq<Bytes> := [];
    for i := 0 to |parts|
      invariant Concat(list) == Plain(boundary, parts[..i])
      invariant forall j :: 0 <= j < i ==> PrintablePart(parts[j])
    {
      var part := parts[i];
      ghost var before := list;
      list := list + [Opening(boundary)];
      var hs := PrintHeaders(part.headers);
      if hs.Err? { assert !PrintablePart(parts[i]); return Err(hs.error); }
      list := list + [hs.value];
      var body := PayloadAsBytes(part.payload);
      if body.Err? { assert !PrintablePart(parts[i]); return Err(body.error); }
      list := list + [body.value];
      list := list + [CRLF];
      assert list == before + [Opening(boundary), hs.value, body.value, CRLF];
      ConcatFour(before, Opening(boundary), hs.value, body.value, CRLF);
      MessagePrefix(boundary, parts, i);
    }
    assert parts[..|parts|] == parts;
    ConcatSnoc(list, Closing(boundary));
    return Ok(Concat(list + [Closing(boundary)]));
  }

  /** The stream a message is written to, write by write. */
  class Sink {
    var writes: seq<Bytes>

    constructor ()
      ensures writes == []
    {
      writes := [];
    }

    function Sent(): Bytes
      reads this
    {
      Concat(writes)
    }

    method Write(data: Bytes)
      modifies this
      ensures Sent() == old(Sent()) + data
    {
      ConcatSnoc(writes, data);
      writes := writes + [data];
    }
  }

  method WritePayload(p: Payload, sink: Sink) returns (ok: bool)
    modifies sink
    decreases p
    ensures ok <==> (p.Multi? ==> Printable(p.parts) && Named(p.formData, p.parts))
    ensures ok ==> sink.Sent() == old(sink.Sent()) + Written(p)
  {
    match p
    case Data(bytes, _) =>
      sink.Write(bytes);
      ok := true;
    case Multi(boundary, formData, parts) =>
      ok := Write(boundary, formData, parts, sink, true);
  }

  /** `write`: part by part, an encoded part through its encoder. It stops at the first part that
      has no name in form data, or whose headers cannot be printed. */
  method Write(boundary: Bytes, formData: bool, parts: seq<Part>, sink: Sink, closeBoundary: bool) returns (ok: bool)
    modifies sink
    decreases parts
    ensures ok <==> Printable(parts) && Named(formData, parts)
    ensures ok ==>
      sink.Sent() ==
      old(sink.Sent()) + (Sent(boundary, parts) + if closeBoundary then Closing(boundary) else "")
  {
    hide Sent, Framed, SentBytes, PrintablePart, NamedPart, Closing;
    MessageStart(boundary);
    for i := 0 to |parts|
      invariant sink.Sent() == old(sink.Sent()) + Sent(boundary, parts[..i])
      invariant forall j :: 0 <= j < i ==> PrintablePart(parts[j]) && NamedPart(formData, parts[j])
    {
      ok := WritePart(boundary, formData, parts[i], sink);
      if !ok {
        assert !PrintablePart(parts[i]) || !NamedPart(formData, parts[i]);
        return false;
      }
      MessagePrefix(boundary, parts, i);
      Assoc(old(sink.Sent()), Sent(boundary, parts[..i]), Framed(boundary, parts[i].headers, SentBytes(parts[i])));
    }
    assert parts[..|parts|] == parts;
    if closeBoundary { sink.Write(Closing(boundary)); }
    return true;
  }

  lemma FramedBytes(before: Bytes, boundary: Bytes, hs: seq<Header>, body: Bytes)
    ensures before + Framed(boundary, hs, body) == before + Opening(boundary) + BinaryHeaders(hs) + body + CRLF
  {
    hide BinaryHeaders, Opening;
  }

  method WritePart(boundary: Bytes, formData: bool, part: Part, sink: Sink) returns (ok: bool)
    modifies sink
    decreases part
    ensures ok <==> PrintablePart(part) && NamedPart(formData, part)
    ensures ok ==> sink.Sent() == old(sink.Sent()) + Framed(boundary, part.headers, SentBytes(part))
  {
    hide Find, BinaryHeaders, Written, Opening, Framed, Concat;
    if formData {
      var disposition := Get(part.headers, "content-disposition");
      if disposition.None? || Find(disposition.value, "name=") == -1 { return false; }
    }
    sink.Write(Opening(boundary));
    var hs := PrintHeaders(part.headers);
    if hs.Err? { return false; }
    sink.Write(hs.value);
    ok := WriteBody(part, sink);
    if !ok { return false; }
    sink.Write(CRLF);
    FramedBytes(old(sink.Sent()), boundary, part.headers, SentBytes(part));
    return true;
  }

  /** The body of a part, through an encoder if it has a coding. */
  method WriteBody(part: Part, sink: Sink) returns (ok: bool)
    modifies sink
    decreases part, 0
    ensures ok <==> (part.payload.Multi? ==>
      Printable(part.payload.parts) && Named(part.payload.formData, part.payload.parts))
    ensures ok ==> sink.Sent() == old(sink.Sent()) + SentBytes(part)
  {
    hide Written, Concat;
    if !part.coding.Encodes() {
      ok := WritePayload(part.payload, sink);
      return;
    }
    var pieces := new Sink();
    ok := WritePayload(part.payload, pieces);
    if !ok { return false; }
    assert Concat([]) == "" by { ConcatNothing(); }
    assert pieces.Sent() == Written(part.payload);
    var out := Encode(part.coding, pieces.writes);
    sink.Write(out);
  }

  /** The encoding writer on the writes of a payload; a compressor hands on what it makes of them. */
  method Encode(coding: Coding, writes: seq<Bytes>) returns (out: Bytes)
    requires coding.Encodes()
    ensures out == coding.Emits(Concat(writes))
  {
    hide Base64.Encode, Concat, Base64.Joined;
    match coding.transfer {
      case ToQuotedPrintable(quoted) => return quoted;
      case _ =>
    }
    var taken: seq<Bytes> := match coding.compressed case Some(c) => [c] case None => writes;
    if coding.compressed.Some? {
      ConcatSnoc([], coding.compressed.value);
      ConcatNothing();
      assert [] + [coding.compressed.value] == taken;
      assert Octets(Concat(taken)) == coding.compressed.value;
    }
    var wire := new Base64.Writer();
    var pieces := seq(|taken|, i requires 0 <= i < |taken| => Octets(taken[i]));
    Base64.SendAll(wire, coding.transfer == ToBase64, null, pieces);
    JoinedOctets(taken);
    out := wire.sent;
  }

  lemma {:induction false} JoinedOctets(writes: seq<Bytes>)
    ensures Base64.Joined(seq(|writes|, i requires 0 <= i < |writes| => Octets(writes[i]))) == Octets(Concat(writes))
    decreases |writes|
  {
    hide Concat;
    if writes == [] {
      ConcatNothing();
    } else {
      var front, last := writes[..|writes| - 1], writes[|writes| - 1];
      JoinedOctets(front);
      assert writes == front + [last];
      ConcatSnoc(front, last);
      var all := seq(|writes|, i requires 0 <= i < |writes| => Octets(writes[i]));
      assert all[..|all| - 1] == seq(|front|, i requires 0 <= i < |front| => Octets(front[i]));
      assert Octets(Concat(front) + last) == Octets(Concat(front)) + Octets(last);
    }
  }

  // ---- the three agree -------------------------------------------------------------------------

  lemma {:induction false} PlainIsSent(boundary: Bytes, parts: seq<Part>)
    requires Unencoded(parts)
    ensures Sent(boundary, parts) == Plain(boundary, parts)
    decreases parts
  {
    if parts != [] {
      var front, last := parts[..|parts| - 1], parts[|parts| - 1];
      assert UnencodedPart(last);
      assert forall i :: 0 <= i < |front| ==> front[i] == parts[i];
      PlainIsSent(boundary, front);
      if last.payload.Multi? { PlainIsSent(last.payload.boundary, last.payload.parts); }
      assert Written(last.payload) == PayloadBytes(last.payload);
    }
  }

  lemma {:induction false} SizedIsUnencoded(parts: seq<Part>)
    requires Sized(parts)
    ensures Unencoded(parts)
    decreases parts
  {
    forall i | 0 <= i < |parts| ensures UnencodedPart(parts[i]) {
      if parts[i].payload.Multi? { SizedIsUnencoded(parts[i].payload.parts); }
    }
  }

  // ---- where they differ -----------------------------------------------------------------------

  /** The only coding anywhere in the message is base64. */
  predicate OnlyBase64(parts: seq<Part>)
    decreases parts
  {
    forall i :: 0 <= i < |parts| ==> OnlyBase64Part(parts[i])
  }

  predicate OnlyBase64Part(p: Part)
    decreases p
  {
    p.coding in {PLAIN, BASE64} && (p.payload.Multi? ==> OnlyBase64(p.payload.parts))
  }

  /** Every part that is encoded is empty; another multipart never is. */
  predicate EncodedAreEmpty(parts: seq<Part>)
    decreases parts
  {
    forall i :: 0 <= i < |parts| ==> EncodedIsEmpty(parts[i])
  }

  predicate EncodedIsEmpty(p: Part)
    decreases p
  {
    if p.coding.Encodes() then p.payload.Data? && p.payload.bytes == ""
    else p.payload.Multi? ==> EncodedAreEmpty(p.payload.parts)
  }

  /** `as_bytes` gives an encoded part as it is and `write` gives it encoded: for messages that are
      encoded with base64 only, they agree if and only if every encoded part is empty. */
  lemma EncodedPartsDiffer(boundary: Bytes, parts: seq<Part>)
    requires OnlyBase64(parts)
    ensures Sent(boundary, parts) == Plain(boundary, parts) <==> EncodedAreEmpty(parts)
  {
    SentIsLonger(boundary, parts);
  }

  lemma {:induction false} SentIsLonger(boundary: Bytes, parts: seq<Part>)
    requires OnlyBase64(parts)
    ensures |Sent(boundary, parts)| >= |Plain(boundary, parts)|
    ensures EncodedAreEmpty(parts) ==> Sent(boundary, parts) == Plain(boundary, parts)
    ensures |Sent(boundary, parts)| == |Plain(boundary, parts)| ==> EncodedAreEmpty(parts)
    decreases parts
  {
    hide BinaryHeaders, Opening, SentBytes, PayloadBytes, OnlyBase64Part, EncodedIsEmpty;
    if parts != [] {
      var front, last := parts[..|parts| - 1], parts[|parts| - 1];
      assert OnlyBase64Part(last);
      assert forall i :: 0 <= i < |front| ==> front[i] == parts[i];
      SentIsLonger(boundary, front);
      SentPartIsLonger(last);
    }
  }

  lemma {:induction false} SentPartIsLonger(p: Part)
    requires OnlyBase64Part(p)
    ensures |SentBytes(p)| >= |PayloadBytes(p.payload)|
    ensures EncodedIsEmpty(p) ==> SentBytes(p) == PayloadBytes(p.payload)
    ensures |SentBytes(p)| == |PayloadBytes(p.payload)| ==> EncodedIsEmpty(p)
    decreases p
  {
    hide Base64.Encode, Sent, Plain, EncodedAreEmpty, OnlyBase64;
    var written := Written(p.payload);
    if p.payload.Multi? {
      SentIsLonger(p.payload.boundary, p.payload.parts);
      assert written != "";
    }
    if p.coding == BASE64 {
      Base64.EncodeIsLonger(Octets(written));
    }
  }

  /** Such a message: one part, appended with `Content-Transfer-Encoding: base64` and the body `a`. */
  method EncodedPart() returns (writer: MultipartWriter, plain: Bytes, sent: Bytes)
    ensures |writer.parts| == 1 && PayloadBytes(writer.parts[0].payload) == "a" && SentBytes(writer.parts[0]) == "YQ=="
    ensures plain == Plain(writer.boundary, writer.parts) + Closing(writer.boundary)
    ensures sent == Sent(writer.boundary, writer.parts) + Closing(writer.boundary)
    ensures plain != sent
  {
    hide Plain, Sent, Closing, BinaryHeaders, Base64.Encode, GetLower, ContentType;
    assert ContentType("mixed", "b").Ok? by { ExampleIsAccepted(); }
    writer := new MultipartWriter("mixed", "b");
    assert |"mixed"| != |"form-data"|;
    var hs := [Header("Content-Transfer-Encoding", "base64")];
    CodingOfExample();
    var r := writer.AppendPayload(hs, Data("a", true), [], "");
    var p := r.value;
    assert writer.parts == [p] && p == Part(hs, Data("a", true), BASE64);
    assert SentBytes(p) == "YQ==" by { EncodedExample(); }
    ExampleFacts(p);
    var asBytes := AsBytes(writer.boundary, writer.parts);
    plain := asBytes.value;
    var sink := new Sink();
    var ok := Write(writer.boundary, writer.formData, writer.parts, sink, true);
    sent := sink.Sent();
    assert sent == Sent(writer.boundary, writer.parts) + Closing(writer.boundary) by { ConcatNothing(); }
    EncodedPartsDiffer(writer.boundary, writer.parts);
    if plain == sent {
      SameFront(Plain(writer.boundary, writer.parts), Sent(writer.boundary, writer.parts), Closing(writer.boundary));
    }
  }

  lemma SameFront(a: Bytes, b: Bytes, end: Bytes)
    requires a + end == b + end
    ensures a == b
  {
    assert |a| == |b|;
    assert (a + end)[..|a|] == a && (b + end)[..|b|] == b;
  }

  lemma EncodedExample()
    ensures Base64.Encode(Octets("a")) == "YQ=="
  {
    assert Octets("a") == "a";
    assert Base64.Digits('a' as int, 0, 0)[..2] == "YQ";
  }

  lemma ExampleIsAccepted()
    ensures ContentType("mixed", "b").Ok?
  {
  }

  lemma ExampleFacts(p: Part)
    requires p == Part([Header("Content-Transfer-Encoding", "base64")], Data("a", true), BASE64)
    ensures Printable([p]) && Named(false, [p]) && OnlyBase64([p]) && !EncodedAreEmpty([p])
  {
    ExampleIsPrintable();
    assert PrintablePart(p) && NamedPart(false, p) && OnlyBase64Part(p) && !EncodedIsEmpty(p);
    assert [p][0] == p;
  }

  lemma ExampleIsPrintable()
    ensures AllSafe("", [Header("Content-Transfer-Encoding", "base64")])
  {
  }

  lemma LowerExample()
    ensures Lower("Content-Transfer-Encoding") == "content-transfer-encoding"
  {
  }

  lemma LowerBase64()
    ensures Lower("base64") == "base64" && Lower("") == ""
  {
  }

  lemma CodingOfExample()
    ensures MultipartWriter.KnownEncodings([Header("Content-Transfer-Encoding", "base64")])
    ensures MultipartWriter.CodingOf([Header("Content-Transfer-Encoding", "base64")], [], "") == BASE64
  {
    hide Lower;
    var h := Header("Content-Transfer-Encoding", "base64");
    assert [h][1..] == [];
    assert Lower(h.name) == "content-transfer-encoding" by { LowerExample(); }
    assert Lower("base64") == "base64" && Lower("") == "" by { LowerBase64(); }
    assert |"content-transfer-encoding"| != |"content-encoding"|;
    assert [h][0] == h && Get([h][1..], "content-encoding") == None;
    assert Get([h], "content-transfer-encoding") == Some("base64");
    assert Get([h], "content-encoding") == None;
    assert GetLower([h], "content-encoding") == "" && GetLower([h], "content-transfer-encoding") == "base64";
  }

  // ---- appending -------------------------------------------------------------------------------

  function Without(hs: seq<Header>, name: Bytes): seq<Header> {
    if hs == [] then []
    else if Lower(hs[0].name) == name then Without(hs[1..], name)
    else [hs[0]] + Without(hs[1..], name)
  }

  /** `headers[name] = value`: in place of the first header of that name, if there is one. */
  function SetHeader(hs: seq<Header>, name: Bytes, value: Bytes): seq<Header> {
    if hs == [] then [Header(name, value)]
    else if Lower(hs[0].name) == Lower(name) then [Header(name, value)] + Without(hs[1..], Lower(name))
    else [hs[0]] + SetHeader(hs[1..], name, value)
  }

  lemma {:induction false} WithoutKeepsOthers(hs: seq<Header>, name: Bytes, other: Bytes)
    requires other != name
    ensures Get(Without(hs, name), other) == Get(hs, other)
  {
    if hs != [] { WithoutKeepsOthers(hs[1..], name, other); }
  }

  /** Setting a header sets it and no other. */
  lemma {:induction false} SetHeaderSets(hs: seq<Header>, name: Bytes, value: Bytes, other: Bytes)
    ensures Get(SetHeader(hs, name, value), other) == if other == Lower(name) then Some(value) else Get(hs, other)
  {
    if hs == [] {
      assert [Header(name, value)][1..] == [];
    } else if Lower(hs[0].name) == Lower(name) {
      assert ([Header(name, value)] + Without(hs[1..], Lower(name)))[1..] == Without(hs[1..], Lower(name));
      if other != Lower(name) { WithoutKeepsOthers(hs[1..], Lower(name), other); }
    } else {
      assert ([hs[0]] + SetHeader(hs[1..], name, value))[1..] == SetHeader(hs[1..], name, value);
      SetHeaderSets(hs[1..], name, value, other);
    }
  }

  function GetLower(hs: seq<Header>, name: Bytes): Bytes {
    match Get(hs, name) case Some(v) => Lower(v) case None => ""
  }

  const LENGTH_HEADER := "Content-Length"
  const DISPOSITION_HEADER := "Content-Disposition"

  // ---- the content type --------------------------------------------------------------------------

  /** Backslashes and quotes escaped. */
  function Escaped(b: Bytes): Bytes {
    if b == "" then "" else (if b[0] in {'\\', '"'} then ['\\', b[0]] else [b[0]]) + Escaped(b[1..])
  }

  /** `_boundary_value`: as it is if it is a token, and otherwise quoted. */
  function BoundaryValue(b: Bytes): Result<Bytes, WriteError> {
    if IsToken(b) then Ok(b)
    else if !Safe(b) then Err(BadBoundary)
    else Ok(['"'] + Escaped(b) + ['"'])
  }

  /** The content type of a message, unless its boundary is refused. */
  function ContentType(subtype: Bytes, b: Bytes): Result<Bytes, WriteError> {
    if !IsAscii(b) || |b| > 70 then Err(BadBoundary)
    else match BoundaryValue(b) case Err(e) => Err(e) case Ok(v) => Ok("multipart/" + subtype + "; boundary=" + v)
  }

  class MultipartWriter {
    const boundary: Bytes
    const contentType: Bytes
    const formData: bool
    var parts: seq<Part>

    /** A writer, for a boundary that is not refused. */
    constructor (subtype: Bytes, boundary: Bytes)
      requires ContentType(subtype, boundary).Ok?
      ensures this.boundary == boundary && parts == [] && formData == (subtype == "form-data")
      ensures Ok(contentType) == ContentType(subtype, boundary)
    {
      this.boundary, contentType := boundary, ContentType(subtype, boundary).value;
      formData, parts := subtype == "form-data", [];
    }

    /** How a part with these headers is encoded; `compressed` and `quoted` are what the compressor and
        the quoted-printable encoder would make of it. */
    static function CodingOf(hs: seq<Header>, compressed: Base64.Octets, quoted: Bytes): Coding {
      Coding(
        if GetLower(hs, "content-encoding") in ["", "identity"] then None else Some(compressed),
        match GetLower(hs, "content-transfer-encoding")
        case "base64" => ToBase64
        case "quoted-printable" => ToQuotedPrintable(quoted)
        case _ => AsIs)
    }

    static predicate KnownEncodings(hs: seq<Header>) {
      && GetLower(hs, "content-encoding") in ["", "deflate", "gzip", "identity"]
      && GetLower(hs, "content-transfer-encoding") in ["", "base64", "quoted-printable", "binary"]
    }

    static predicate NoFraming(hs: seq<Header>) {
      !Has(hs, "content-encoding") && !Has(hs, "content-length") && !Has(hs, "content-transfer-encoding")
    }

    static function SectionName(n: nat): Bytes { "section-" + Requests.Decimal(n) }

    /** `append_payload`: form data must carry no framing headers and gets a name; otherwise an
        unencoded part of known size declares it, whatever length the caller had given. */
    method AppendPayload(headers: seq<Header>, payload: Payload, compressed: Base64.Octets, quoted: Bytes)
      returns (r: Result<Part, WriteError>)
      modifies this
      ensures r.Ok? ==> parts == old(parts) + [r.value] && r.value.payload == payload
      ensures r.Err? ==> parts == old(parts)
      ensures formData ==> (r.Ok? <==> NoFraming(headers))
      ensures formData && r.Ok? ==> r.value.coding == PLAIN
      ensures formData && r.Ok? && Has(headers, "content-disposition") ==> r.value.headers == headers
      ensures formData && r.Ok? && !Has(headers, "content-disposition") ==>
        r.value.headers == headers +
          [Header("Content-Disposition", "form-data; name=\"section-" + Requests.Decimal(old(|parts|)) + "\"")]
      ensures !formData && r.Ok? ==> KnownEncodings(headers)
      ensures !formData && r.Ok? ==> r.value.coding == CodingOf(headers, compressed, quoted)
      ensures !formData && r.Ok? ==>
        var ce := GetLower(headers, "content-encoding");
        r.value.coding.compressed == if ce in {"gzip", "deflate"} then Some(compressed) else None
      ensures !formData && r.Ok? ==>
        var te, transfer := GetLower(headers, "content-transfer-encoding"), r.value.coding.transfer;
        && (transfer == ToBase64 <==> te == "base64")
        && (transfer == ToQuotedPrintable(quoted) <==> te == "quoted-printable")
        && (transfer == AsIs <==> te == "" || te == "binary")
      ensures !formData && r.Ok? && SizedPayload(payload) && !r.value.coding.Encodes() ==>
        r.value.headers == SetHeader(headers, LENGTH_HEADER, Requests.Decimal(|PayloadBytes(payload)|))
      ensures !formData && r.Ok? && (r.value.coding.Encodes() || !SizedPayload(payload)) ==> r.value.headers == headers
      ensures !formData && KnownEncodings(headers) && (payload.Multi? ==> Printable(payload.parts)) ==> r.Ok?
    {
      hide Without, SetHeader, PayloadBytes, SizedPayload;
      var part: Part;
      if formData {
        if Has(headers, "content-encoding") || Has(headers, "content-length") ||
          Has(headers, "content-transfer-encoding") {
          return Err(Refused);
        }
        var hs := headers;
        if !Has(headers, "content-disposition") {
          hs := headers + [Header(DISPOSITION_HEADER, "form-data; name=\"" + SectionName(|parts|) + "\"")];
          assert "form-data; name=\"" + SectionName(|parts|) + "\"" ==
            "form-data; name=\"section-" + Requests.Decimal(|parts|) + "\"";
        }
        part := Part(hs, payload, PLAIN);
      } else {
        var encoding := GetLower(headers, "content-encoding");
        if encoding !in ["", "deflate", "gzip", "identity"] { return Err(UnknownEncoding); }
        var teEncoding := GetLower(headers, "content-transfer-encoding");
        if teEncoding !in ["", "base64", "quoted-printable", "binary"] { return Err(UnknownEncoding); }
        var coding := CodingOf(headers, compressed, quoted);
        var size := PayloadSize(payload);
        if size.Err? { return Err(size.error); }
        var hs := headers;
        if size.value.Some? && !coding.Encodes() {
          hs := SetHeader(headers, LENGTH_HEADER, Requests.Decimal(size.value.value));
        }
        part := Part(hs, payload, coding);
      }
      parts := parts + [part];
      return Ok(part);
    }
  }
}

/** `MultipartPayloadWriter` (multipart.py): base64 of a body written in pieces, with at most two
    bytes held back between them, equals the base64 of the whole (section 4 of RFC 4648). */
module Base64 {
  import opened ByteStrings

  type Octet = c: char | c < 256 as char witness 'a'
  type Octets = seq<Octet>

  function Sextet(n: nat): char
    requires n < 64
  {
    if n < 26 then (n + 'A' as int) as char
    else if n < 52 then (n - 26 + 'a' as int) as char
    else if n < 62 then (n - 52 + '0' as int) as char
    else if n == 62 then '+' else '/'
  }

  function SextetValue(c: char): Option<nat> {
    if 'A' <= c <= 'Z' then Some(c as int - 'A' as int)
    else if 'a' <= c <= 'z' then Some(c as int - 'a' as int + 26)
    else if '0' <= c <= '9' then Some(c as int - '0' as int + 52)
    else if c == '+' then Some(62)
    else if c == '/' then Some(63)
    else None
  }

  /** Three octets as four digits; a missing octet counts as zero. */
  function Digits(a: nat, b: nat, c: nat): (r: Bytes)
    requires a < 256 && b < 256 && c < 256
    ensures |r| == 4
  {
    [Sextet(a / 4), Sextet(a % 4 * 16 + b / 16), Sextet(b % 16 * 4 + c / 64), Sextet(c % 64)]
  }

  /** `base64.b64encode` */
  function Encode(s: Octets): Bytes {
    if s == [] then ""
    else if |s| == 1 then Digits(s[0] as int, 0, 0)[..2] + "=="
    else if |s| == 2 then Digits(s[0] as int, s[1] as int, 0)[..3] + "="
    else Digits(s[0] as int, s[1] as int, s[2] as int) + Encode(s[3..])
  }

  /** Four digits back to octets. */
  function Group(w: nat, x: nat, y: nat, z: nat): (r: Octets)
    requires w < 64 && x < 64 && y < 64 && z < 64
    ensures |r| == 3
  {
    [(w * 4 + x / 16) as char, (x % 16 * 16 + y / 4) as char, (y % 4 * 64 + z) as char]
  }

  /** The canonical decoder. */
  function Decode(s: Bytes): Option<Octets> {
    if s == "" then Some([])
    else if |s| < 4 || SextetValue(s[0]).None? || SextetValue(s[1]).None? then None
    else
      var w, x := SextetValue(s[0]).value, SextetValue(s[1]).value;
      if s[2..] == "==" then Some(Group(w, x, 0, 0)[..1])
      else if SextetValue(s[2]).None? then None
      else
        var y := SextetValue(s[2]).value;
        if s[3..] == "=" then Some(Group(w, x, y, 0)[..2])
        else if SextetValue(s[3]).None? then None
        else
          match Decode(s[4..])
          case None => None
          case Some(rest) => Some(Group(w, x, y, SextetValue(s[3]).value) + rest)
  }

  lemma SextetBack(n: nat)
    requires n < 64
    ensures SextetValue(Sextet(n)) == Some(n) && Sextet(n) != '='
  {
  }

  /** The alphabet of table 1 of RFC 4648. */
  lemma Alphabet(n: nat)
    requires n < 64
    ensures n < 26 ==> Sextet(n) == "ABCDEFGHIJKLMNOPQRSTUVWXYZ"[n]
    ensures 26 <= n < 52 ==> Sextet(n) == "abcdefghijklmnopqrstuvwxyz"[n - 26]
    ensures 52 <= n ==> Sextet(n) == "0123456789+/"[n - 52]
  {
  }

  /** The four digits are the 24 bits of the three octets, the first one the most significant. */
  lemma DigitsAreBits(a: nat, b: nat, c: nat)
    requires a < 256 && b < 256 && c < 256
    ensures var d := Digits(a, b, c);
      && (forall i :: 0 <= i < 4 ==> SextetValue(d[i]).Some?)
      && SextetValue(d[0]).value * 0x40000 + SextetValue(d[1]).value * 0x1000 +
           SextetValue(d[2]).value * 0x40 + SextetValue(d[3]).value == a * 0x10000 + b * 0x100 + c
  {
    SextetBack(a / 4);
    SextetBack(a % 4 * 16 + b / 16);
    SextetBack(b % 16 * 4 + c / 64);
    SextetBack(c % 64);
  }

  lemma GroupBack(a: nat, b: nat, c: nat)
    requires a < 256 && b < 256 && c < 256
    ensures Group(a / 4, a % 4 * 16 + b / 16, b % 16 * 4 + c / 64, c % 64) == [a as char, b as char, c as char]
  {
    assert (a % 4 * 16 + b / 16) / 16 == a % 4 && (a % 4 * 16 + b / 16) % 16 == b / 16;
    assert (b % 16 * 4 + c / 64) / 4 == b % 16 && (b % 16 * 4 + c / 64) % 4 == c / 64;
  }

  lemma DigitsBack(a: nat, b: nat, c: nat)
    requires a < 256 && b < 256 && c < 256
    ensures var d := Digits(a, b, c);
      && SextetValue(d[0]) == Some(a / 4) && SextetValue(d[1]) == Some(a % 4 * 16 + b / 16)
      && SextetValue(d[2]) == Some(b % 16 * 4 + c / 64) && SextetValue(d[3]) == Some(c % 64)
      && d[2] != '=' && d[3] != '='
  {
    hide Sextet, SextetValue;
    SextetBack(a / 4);
    SextetBack(a % 4 * 16 + b / 16);
    SextetBack(b % 16 * 4 + c / 64);
    SextetBack(c % 64);
  }

  lemma OneBack(a: Octet)
    ensures Decode(Encode([a])) == Some([a])
  {
    hide Digits, Group, SextetValue;
    var d, code := Digits(a as int, 0, 0), Encode([a]);
    DigitsBack(a as int, 0, 0);
    GroupBack(a as int, 0, 0);
    assert code[2..] == "==" && code[0] == d[0] && code[1] == d[1];
    assert [a, 0 as char, 0 as char][..1] == [a];
  }

  lemma TwoBack(a: Octet, b: Octet)
    ensures Decode(Encode([a, b])) == Some([a, b])
  {
    hide Digits, Group, SextetValue;
    var d, code := Digits(a as int, b as int, 0), Encode([a, b]);
    DigitsBack(a as int, b as int, 0);
    GroupBack(a as int, b as int, 0);
    assert code[3..] == "=" && code[2..][0] == d[2] && code[0] == d[0] && code[1] == d[1];
    assert [a, b, 0 as char][..2] == [a, b];
  }

  lemma ThreeBack(a: Octet, b: Octet, c: Octet, more: Bytes)
    ensures Decode(Digits(a as int, b as int, c as int) + more) ==
      match Decode(more) case None => None case Some(rest) => Some([a, b, c] + rest)
  {
    hide Digits, Group, SextetValue;
    var d := Digits(a as int, b as int, c as int);
    var code := d + more;
    DigitsBack(a as int, b as int, c as int);
    GroupBack(a as int, b as int, c as int);
    assert code[2..][0] == d[2] && code[3..][0] == d[3] && code[0] == d[0] && code[1] == d[1] && code[4..] == more;
  }

  /** Decoding gives the octets back. */
  lemma {:induction false} RoundTrip(s: Octets)
    ensures Decode(Encode(s)) == Some(s)
  {
    hide Decode, Digits;
    if s == [] {
      assert Decode("") == Some([]) by { DecodeNothing(); }
    } else if |s| == 1 {
      OneBack(s[0]);
      assert s == [s[0]];
    } else if |s| == 2 {
      TwoBack(s[0], s[1]);
      assert s == [s[0], s[1]];
    } else {
      ThreeBack(s[0], s[1], s[2], Encode(s[3..]));
      RoundTrip(s[3..]);
      assert s == [s[0], s[1], s[2]] + s[3..];
    }
  }

  lemma DecodeNothing()
    ensures Decode("") == Some([])
  {
  }

  /** Only nothing is encoded as itself: any other code is longer. */
  lemma {:induction false} EncodeIsLonger(s: Octets)
    ensures if s == [] then Encode(s) == "" else |Encode(s)| > |s|
  {
    hide Digits;
    if |s| > 2 { EncodeIsLonger(s[3..]); }
  }

  /** A boundary between groups of three does not show in the code. */
  lemma {:induction false} EncodeAppend(a: Octets, b: Octets)
    requires |a| % 3 == 0
    ensures Encode(a + b) == Encode(a) + Encode(b)
  {
    hide Digits;
    if a == [] {
      assert a + b == b;
    } else {
      assert (a + b)[3..] == a[3..] + b;
      EncodeAppend(a[3..], b);
    }
  }

  /** `ZLibCompressor`: what it returns is arbitrary, and recorded. */
  class Compressor {
    ghost var produced: Octets

    constructor ()
      ensures produced == []
    {
      produced := [];
    }

    method Output() returns (out: Octets)
      modifies this
      ensures produced == old(produced) + out
    {
      out := *;
      produced := produced + out;
    }
  }

  class Writer {
    var sent: Bytes

    constructor ()
      ensures sent == ""
    {
      sent := "";
    }

    method Write(data: Bytes)
      modifies this
      ensures sent == old(sent) + data
    {
      sent := sent + data;
    }
  }

  class MultipartPayloadWriter {
    const writer: Writer
    const base64: bool
    var compress: Compressor?
    var encodingBuffer: Octets
    ghost const before: Bytes // on the wire before this part
    ghost var taken: Octets // handed on by the compressor, if there is one, or by the caller

    constructor (writer: Writer, base64: bool, compress: Compressor?)
      ensures this.writer == writer && this.base64 == base64 && this.compress == compress
      ensures Valid() && taken == [] && before == writer.sent
    {
      this.writer, this.base64, this.compress := writer, base64, compress;
      encodingBuffer, taken, before := [], [], writer.sent;
      new;
      assert writer.sent + "" == writer.sent;
      assert taken[..0] == [];
    }

    /** All whole groups of what was taken are on the wire; at most two bytes are held back. */
    ghost predicate Valid()
      reads this, writer
    {
      if !base64 then encodingBuffer == [] && writer.sent == before + taken
      else
        && |encodingBuffer| < 3 && |encodingBuffer| <= |taken|
        && var k := |taken| - |encodingBuffer|;
          k % 3 == 0 && taken[k..] == encodingBuffer && writer.sent == before + Encode(taken[..k])
    }

    /** `write` (lines 1219-1240) */
    method Write(chunk: Octets)
      requires Valid()
      modifies this`encodingBuffer, this`taken, writer, compress
      ensures Valid()
      ensures compress == null ==> taken == old(taken) + chunk
      ensures compress != null && chunk != [] ==>
        old(compress.produced) <= compress.produced &&
          taken == old(taken) + compress.produced[|old(compress.produced)|..]
      ensures compress != null && chunk == [] ==> taken == old(taken) && compress.produced == old(compress.produced)
    {
      var data := chunk;
      if compress != null && chunk != [] {
        data := compress.Output();
        assert compress.produced[|old(compress.produced)|..] == data;
        if data == [] { return; }
      }
      Encoded(data);
    }

    /** The rest of `write`, after compression. */
    method Encoded(data: Octets)
      requires Valid()
      modifies this`encodingBuffer, this`taken, writer
      ensures Valid() && taken == old(taken) + data
    {
      hide Encode;
      ghost var was, held, wire := taken, encodingBuffer, writer.sent;
      taken := taken + data;
      if base64 {
        encodingBuffer := encodingBuffer + data;
        var div := |encodingBuffer| / 3;
        NextGroups(was, held, data, div);
        if encodingBuffer != [] {
          var buf := encodingBuffer;
          encodingBuffer := buf[div * 3..];
          if buf[..div * 3] != [] { writer.Write(Encode(buf[..div * 3])); }
        }
        assert writer.sent == wire + Encode((held + data)[..div * 3]);
      } else {
        writer.Write(data);
        Assoc<char>(before, was, data);
      }
    }

    /** The whole groups after more data: those before, and those now complete. */
    lemma NextGroups(was: Octets, held: Octets, data: Octets, div: nat)
      requires |held| <= |was| && (|was| - |held|) % 3 == 0 && was[|was| - |held|..] == held
      requires div == |held + data| / 3
      ensures var now, k := was + data, |was| - |held| + div * 3;
        && k <= |now| && k % 3 == 0 && now[k..] == (held + data)[div * 3..] && |now| - k < 3
        && Encode(now[..k]) == Encode(was[..|was| - |held|]) + Encode((held + data)[..div * 3])
        && before + Encode(now[..k]) == before + Encode(was[..|was| - |held|]) + Encode((held + data)[..div * 3])
      ensures div == 0 ==> Encode((held + data)[..div * 3]) == ""
    {
      hide Encode;
      var front := was[..|was| - |held|];
      assert was == front + held;
      CutJoin(front, held, data, div * 3);
      EncodeAppend(front, (held + data)[..div * 3]);
      EncodeNothing();
    }

    static lemma CutJoin(front: Octets, held: Octets, data: Octets, n: nat)
      requires n <= |held + data|
      ensures (front + held + data)[..|front| + n] == front + (held + data)[..n]
      ensures (front + held + data)[|front| + n..] == (held + data)[n..]
    {
    }

    static lemma EncodeNothing()
      ensures Encode([]) == ""
    {
    }

    /** `write_eof`: afterwards the wire holds the encoding of everything taken. */
    method WriteEof()
      requires Valid()
      modifies this, writer, compress
      ensures writer.sent == before + if base64 then Encode(taken) else taken
      ensures old(compress) == null ==> taken == old(taken)
      ensures old(compress) != null ==>
        old(compress.produced) <= old(compress).produced &&
          taken == old(taken) + old(compress).produced[|old(compress.produced)|..]
    {
      hide Encode;
      if compress != null {
        var c := compress;
        var chunk := c.Output();
        assert c.produced[|old(compress.produced)|..] == chunk;
        if chunk != [] {
          compress := null;
          Write(chunk);
        }
      }
      if base64 {
        LastGroup();
        if encodingBuffer != [] { writer.Write(Encode(encodingBuffer)); }
      }
    }

    lemma LastGroup()
      requires Valid() && base64
      ensures before + Encode(taken) == writer.sent + Encode(encodingBuffer)
      ensures encodingBuffer == [] ==> Encode(encodingBuffer) == ""
    {
      hide Encode;
      var k := |taken| - |encodingBuffer|;
      assert taken == taken[..k] + encodingBuffer;
      EncodeAppend(taken[..k], encodingBuffer);
      EncodeNothing();
    }
  }

  function Joined(pieces: seq<Octets>): Octets {
    if pieces == [] then [] else Joined(pieces[..|pieces| - 1]) + pieces[|pieces| - 1]
  }

  /** However the data is split into writes, the wire gets the encoding of the whole; with a
      compressor, of all that the compressor produced. */
  method SendAll(writer: Writer, base64: bool, compress: Compressor?, pieces: seq<Octets>)
    modifies writer, compress
    ensures compress == null ==>
      writer.sent == old(writer.sent) + if base64 then Encode(Joined(pieces)) else Joined(pieces)
    ensures compress != null ==> old(compress.produced) <= compress.produced
    ensures compress != null ==>
      var out := compress.produced[|old(compress.produced)|..];
      writer.sent == old(writer.sent) + if base64 then Encode(out) else out
  {
    hide Encode;
    var w := new MultipartPayloadWriter(writer, base64, compress);
    ghost var produced: Octets := if compress == null then [] else compress.produced;
    for i := 0 to |pieces|
      invariant w.Valid() && w.compress == compress
      invariant compress == null ==> w.taken == Joined(pieces[..i])
      invariant compress != null ==> produced <= compress.produced && w.taken == compress.produced[|produced|..]
    {
      ghost var soFar: Octets := if compress == null then [] else compress.produced;
      w.Write(pieces[i]);
      if compress != null { TailsJoin(produced, soFar, compress.produced); }
      assert pieces[..i + 1][..i] == pieces[..i];
    }
    assert pieces[..|pieces|] == pieces;
    ghost var soFar: Octets := if compress == null then [] else compress.produced;
    w.WriteEof();
    if compress != null { TailsJoin(produced, soFar, compress.produced); }
  }

  lemma TailsJoin(a: Octets, b: Octets, c: Octets)
    requires a <= b <= c
    ensures b[|a|..] + c[|b|..] == c[|a|..]
  {
  }
}

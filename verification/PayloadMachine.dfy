/** The body of one message, read one byte at a time: the reference against which the
    incremental payload parser is proved. Nothing is buffered here except the line in
    progress, so feeding is a fold and cutting the input anywhere is invisible. */
module PayloadMachine {
  import opened ByteStrings
  import Hex
  import opened Headers

  /** What has been handed to the payload object: the bytes, where each HTTP chunk was
      announced and where it ended (as counts of bytes handed over), and end of file. */
  datatype Delivery = Delivery(data: Bytes, begins: seq<nat>, ends: seq<nat>, eof: bool) {
    function Add(s: Bytes): Delivery { this.(data := data + s) }
    function Begin(): Delivery { this.(begins := begins + [|data|]) }
    function End(): Delivery { this.(ends := ends + [|data|]) }
    function Eof(): Delivery { this.(eof := true) }

    /** `this` is an earlier stage of `later`. */
    predicate Before(later: Delivery) {
      data <= later.data && begins <= later.begins && ends <= later.ends && (eof ==> later.eof)
    }
  }

  const NOTHING := Delivery("", [], [], false)

  datatype Limits = Limits(maxLineSize: nat, maxFieldSize: nat, maxTrailers: nat)

  datatype LineKind = SizeLine | TrailerLine(before: seq<Bytes>)

  datatype Body =
    | Line(out: Delivery, kind: LineKind, text: Bytes)
    | Data(out: Delivery, left: nat)
    | DataEnd(out: Delivery, cr: bool)
    | Length(out: Delivery, left: nat)
    | UntilEof(out: Delivery)
    | Finished(out: Delivery, rest: Bytes)
    | Failed(out: Delivery, error: HttpError)

  predicate EndsWithCrlf(s: Bytes) { |s| >= 2 && s[|s| - 2..] == CRLF }

  /** The size announced by a complete chunk-size line: hexadecimal digits, then possibly an
      extension free of line feeds. */
  function ChunkSizeOf(lim: Limits, line: Bytes): Result<nat, HttpError> {
    if |line| > lim.maxLineSize then Err(LineTooLong)
    else
      var ext := IndexOf(line, ';');
      if ext != -1 && '\n' in line[ext..] then Err(TransferEncodingError)
      else
        var sizeB := if ext == -1 then line else line[..ext];
        if Hex.IsHex(sizeB) then Ok(Hex.FromHex(sizeB)) else Err(TransferEncodingError)
  }

  function SizeLineDone(lim: Limits, out: Delivery, line: Bytes): Body {
    match ChunkSizeOf(lim, line)
    case Err(e) => Failed(out, e)
    case Ok(size) => if size == 0 then Line(out, TrailerLine([]), "") else Data(out.Begin(), size)
  }

  /** A complete trailer line after those in `before`. */
  function TrailerLineDone(lim: Limits, out: Delivery, before: seq<Bytes>, line: Bytes): Body {
    if |line| > lim.maxFieldSize then Failed(out, LineTooLong)
    else
      var lines := before + [line];
      if |lines| > lim.maxTrailers then Failed(out, BadHttpMessage)
      else if line != "" then Line(out, TrailerLine(lines), "")
      else
        match Parse(lines)
        case Err(e) => Failed(out, e)
        case Ok(_) => Finished(out.Eof(), "")
  }

  function LineDone(lim: Limits, out: Delivery, kind: LineKind, line: Bytes): Body {
    match kind
    case SizeLine => SizeLineDone(lim, out, line)
    case TrailerLine(before) => TrailerLineDone(lim, out, before, line)
  }

  function Step(lim: Limits, s: Body, b: char): Body {
    match s
    case Line(out, kind, text) =>
      var text' := text + [b];
      if EndsWithCrlf(text') then LineDone(lim, out, kind, text'[..|text'| - 2]) else Line(out, kind, text')
    case Data(out, left) =>
      if left <= 1 then DataEnd(out.Add([b]).End(), false) else Data(out.Add([b]), left - 1)
    case DataEnd(out, cr) =>
      if b != (if cr then '\n' else '\r') then Failed(out, TransferEncodingError)
      else if cr then Line(out, SizeLine, "")
      else DataEnd(out, true)
    case Length(out, left) =>
      if left <= 1 then Finished(out.Add([b]).Eof(), "") else Length(out.Add([b]), left - 1)
    case UntilEof(out) => UntilEof(out.Add([b]))
    case Finished(out, rest) => Finished(out, rest + [b])
    case Failed(_, _) => s
  }

  function Run(lim: Limits, s: Body, input: Bytes): Body
    decreases |input|
  {
    if input == "" then s else Run(lim, Step(lim, s, input[0]), input[1..])
  }

  /** Cutting the input anywhere does not change the outcome. */
  lemma {:induction false} RunAppend(lim: Limits, s: Body, a: Bytes, b: Bytes)
    ensures Run(lim, s, a + b) == Run(lim, Run(lim, s, a), b)
    decreases |a|
  {
    if a == "" {
      assert a + b == b;
    } else {
      assert (a + b)[1..] == a[1..] + b;
      RunAppend(lim, Step(lim, s, a[0]), a[1..], b);
    }
  }

  lemma LineDoneExtends(lim: Limits, out: Delivery, kind: LineKind, line: Bytes)
    ensures out.Before(LineDone(lim, out, kind, line).out)
  {
    hide Parse, ChunkSizeOf;
  }

  lemma StepExtends(lim: Limits, s: Body, b: char)
    ensures s.out.Before(Step(lim, s, b).out)
  {
    hide LineDone;
    if s.Line? {
      StepLine(lim, s.out, s.kind, s.text, b);
      if s.text != "" { LineDoneExtends(lim, s.out, s.kind, s.text[..|s.text| - 1]); }
    }
  }

  /** Output only grows. */
  lemma {:induction false} RunExtends(lim: Limits, s: Body, input: Bytes)
    ensures s.out.Before(Run(lim, s, input).out)
    decreases |input|
  {
    hide Step;
    if input != "" {
      StepExtends(lim, s, input[0]);
      RunExtends(lim, Step(lim, s, input[0]), input[1..]);
    }
  }

  lemma {:induction false} RunAbsorbed(lim: Limits, s: Body, input: Bytes)
    requires s.Failed? || s.Finished?
    ensures Run(lim, s, input) == if s.Failed? then s else s.(rest := s.rest + input)
    decreases |input|
  {
    if input != "" {
      RunAbsorbed(lim, Step(lim, s, input[0]), input[1..]);
      assert [input[0]] + input[1..] == input;
      if s.Finished? { assert s.rest + [input[0]] + input[1..] == s.rest + input; }
    } else if s.Finished? {
      assert s.rest + "" == s.rest;
    }
  }

  lemma StepLine(lim: Limits, out: Delivery, kind: LineKind, text: Bytes, c: char)
    ensures Step(lim, Line(out, kind, text), c) ==
      if text != "" && text[|text| - 1] == '\r' && c == '\n' then LineDone(lim, out, kind, text[..|text| - 1])
      else Line(out, kind, text + [c])
  {
    hide LineDone;
    var text' := text + [c];
    if text != "" {
      assert text'[|text'| - 2..] == [text[|text| - 1], c];
      assert text'[..|text'| - 2] == text[..|text| - 1];
    }
  }

  /** A line in progress, completed or not by `s`, is found by one search. */
  lemma {:induction false} RunLine(lim: Limits, out: Delivery, kind: LineKind, text: Bytes, s: Bytes)
    requires Find(text, CRLF) == -1
    ensures var full := text + s; var pos := Find(full, CRLF);
      if pos == -1 then Run(lim, Line(out, kind, text), s) == Line(out, kind, full)
      else
        && |text| <= pos + 1
        && Run(lim, Line(out, kind, text), s) == Run(lim, LineDone(lim, out, kind, full[..pos]), full[pos + 2..])
    decreases |s|
  {
    hide Step, LineDone, Find, OccursAt;
    if s == "" {
      assert text + s == text;
    } else {
      assert text + s == text + [s[0]] + s[1..];
      CrlfAtEnd(text, s[0], s[1..]);
      StepLine(lim, out, kind, text, s[0]);
      if text != "" && text[|text| - 1] == '\r' && s[0] == '\n' {
        var pos := |text| - 1;
        assert (text + s)[..pos] == text[..pos] && (text + s)[pos + 2..] == s[1..];
      } else {
        RunLine(lim, out, kind, text + [s[0]], s[1..]);
      }
    }
  }

  lemma AddAdd(out: Delivery, a: Bytes, b: Bytes)
    ensures out.Add(a).Add(b) == out.Add(a + b)
  {
    assert out.data + a + b == out.data + (a + b);
  }

  /** Chunk data is handed over whole. */
  lemma {:induction false} RunData(lim: Limits, out: Delivery, left: nat, s: Bytes)
    requires left > 0
    ensures Run(lim, Data(out, left), s) ==
      if |s| < left then Data(out.Add(s), left - |s|)
      else Run(lim, DataEnd(out.Add(s[..left]).End(), false), s[left..])
    decreases |s|
  {
    hide LineDone;
    if s == "" {
      assert out.Add("") == out;
    } else if left > 1 {
      RunData(lim, out.Add([s[0]]), left - 1, s[1..]);
      if |s| < left {
        AddAdd(out, [s[0]], s[1..]);
        assert [s[0]] + s[1..] == s;
      } else {
        AddAdd(out, [s[0]], s[1..][..left - 1]);
        assert s[..left] == [s[0]] + s[1..][..left - 1] && s[1..][left - 1..] == s[left..];
      }
    } else {
      assert s[..1] == [s[0]];
    }
  }

  lemma {:induction false} RunLength(lim: Limits, out: Delivery, left: nat, s: Bytes)
    requires left > 0
    ensures Run(lim, Length(out, left), s) ==
      if |s| < left then Length(out.Add(s), left - |s|)
      else Finished(out.Add(s[..left]).Eof(), s[left..])
    decreases |s|
  {
    hide LineDone;
    if s == "" {
      assert out.Add("") == out;
    } else if left > 1 {
      RunLength(lim, out.Add([s[0]]), left - 1, s[1..]);
      if |s| < left {
        AddAdd(out, [s[0]], s[1..]);
        assert [s[0]] + s[1..] == s;
      } else {
        AddAdd(out, [s[0]], s[1..][..left - 1]);
        assert s[..left] == [s[0]] + s[1..][..left - 1] && s[1..][left - 1..] == s[left..];
      }
    } else {
      RunAbsorbed(lim, Finished(out.Add([s[0]]).Eof(), ""), s[1..]);
      assert s[..1] == [s[0]] && "" + s[1..] == s[1..];
    }
  }

  lemma {:induction false} RunUntilEof(lim: Limits, out: Delivery, s: Bytes)
    ensures Run(lim, UntilEof(out), s) == UntilEof(out.Add(s))
    decreases |s|
  {
    if s == "" {
      assert out.Add("") == out;
    } else {
      RunUntilEof(lim, out.Add([s[0]]), s[1..]);
      assert out.data + [s[0]] + s[1..] == out.data + s;
    }
  }

  /** The CRLF after chunk data. */
  lemma RunDataEnd(lim: Limits, out: Delivery, s: Bytes)
    ensures Run(lim, DataEnd(out, false), s) ==
      if s == "" then DataEnd(out, false)
      else if s == "\r" then DataEnd(out, true)
      else if CRLF <= s then Run(lim, Line(out, SizeLine, ""), s[2..])
      else Failed(out, TransferEncodingError)
  {
    if s != "" {
      if s[0] != '\r' {
        RunAbsorbed(lim, Failed(out, TransferEncodingError), s[1..]);
      } else if |s| > 1 {
        assert s[1..][1..] == s[2..] && s[1..][0] == s[1];
        if s[1] != '\n' { RunAbsorbed(lim, Failed(out, TransferEncodingError), s[2..]); }
      } else {
        assert s[1..] == "";
      }
    }
  }
}

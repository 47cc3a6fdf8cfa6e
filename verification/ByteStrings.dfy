/** Byte strings and the few bytes methods (find, strip, lower, split) the modelled code relies on.
    A byte is a `char`; nothing here needs the bound 256. */
module ByteStrings {
  type Bytes = seq<char>

  const CRLF: Bytes := "\r\n"

  datatype Result<+T, +E> = Ok(value: T) | Err(error: E)

  datatype Option<+T> = None | Some(value: T)

  predicate OccursAt(s: Bytes, pat: Bytes, i: int) {
    0 <= i <= |s| - |pat| && s[i..i + |pat|] == pat
  }

  /** `s.find(pat, start)`: the first occurrence at or after `start`, or -1. */
  function Find(s: Bytes, pat: Bytes, start: nat := 0): (r: int)
    ensures r == -1 || (start <= r && OccursAt(s, pat, r))
    ensures forall i :: start <= i && (r == -1 || i < r) ==> !OccursAt(s, pat, i)
    decreases |s| - start
  {
    if start + |pat| > |s| then -1
    else if s[start..start + |pat|] == pat then start
    else Find(s, pat, start + 1)
  }

  /** The first occurrence is at `i` as soon as there is one there and none before. */
  lemma FindUnique(s: Bytes, pat: Bytes, i: nat)
    requires OccursAt(s, pat, i)
    requires forall j :: 0 <= j < i ==> !OccursAt(s, pat, j)
    ensures Find(s, pat) == i
  {
  }

  lemma FoundAt(s: Bytes, pat: Bytes)
    ensures Find(s, pat) != -1 ==> OccursAt(s, pat, Find(s, pat))
  {
  }

  lemma FindInside(s: Bytes, pat: Bytes)
    ensures Find(s, pat) != -1 ==> 0 <= Find(s, pat) <= |s| - |pat|
  {
  }

  lemma CrlfBytes(s: Bytes, i: int)
    ensures OccursAt(s, CRLF, i) <==> 0 <= i < |s| - 1 && s[i] == '\r' && s[i + 1] == '\n'
  {
    if 0 <= i < |s| - 1 {
      assert s[i..i + 2] == [s[i], s[i + 1]];
    }
  }

  lemma NoCrlf(s: Bytes)
    requires forall i :: 0 <= i < |s| - 1 ==> s[i] != '\r' || s[i + 1] != '\n'
    ensures Find(s, CRLF) == -1
  {
    CrlfBytes(s, Find(s, CRLF));
  }

  lemma FirstCrlf(s: Bytes, i: nat)
    requires i < |s| - 1 && s[i] == '\r' && s[i + 1] == '\n'
    requires forall j :: 0 <= j < i ==> s[j] != '\r' || s[j + 1] != '\n'
    ensures Find(s, CRLF) == i
  {
    forall j | 0 <= j <= i ensures OccursAt(s, CRLF, j) <==> j == i { CrlfBytes(s, j); }
    FindUnique(s, CRLF, i);
  }

  lemma NoCrlfBytes(s: Bytes, i: nat)
    requires Find(s, CRLF) == -1 || i < Find(s, CRLF)
    requires i < |s| - 1
    ensures s[i] != '\r' || s[i + 1] != '\n'
  {
    CrlfBytes(s, i);
  }

  /** Appending one byte to a string without CRLF creates one only at its very end. */
  lemma CrlfAtEnd(text: Bytes, c: char, more: Bytes)
    requires Find(text, CRLF) == -1
    ensures if text != "" && text[|text| - 1] == '\r' && c == '\n'
      then Find(text + [c] + more, CRLF) == |text| - 1
      else Find(text + [c], CRLF) == -1
  {
    hide Find, OccursAt;
    forall i | 0 <= i < |text| - 1 ensures text[i] != '\r' || text[i + 1] != '\n' { NoCrlfBytes(text, i); }
    if text != "" && text[|text| - 1] == '\r' && c == '\n' {
      FirstCrlf(text + [c] + more, |text| - 1);
    } else {
      NoCrlf(text + [c]);
    }
  }

  /** `s.find(c)` for one character. */
  function IndexOf(s: Bytes, c: char): (r: int)
    ensures r == -1 <==> c !in s
    ensures r != -1 ==> 0 <= r < |s| && s[r] == c && c !in s[..r]
  {
    if s == "" then -1
    else if s[0] == c then 0
    else
      var r := IndexOf(s[1..], c);
      assert r != -1 ==> s[..r + 1] == [s[0]] + s[1..][..r];
      assert s == [s[0]] + s[1..];
      if r == -1 then -1 else r + 1
  }

  lemma {:induction false} IndexOfUnique(s: Bytes, c: char, i: nat)
    requires i < |s| && s[i] == c && c !in s[..i]
    ensures IndexOf(s, c) == i
  {
    if i > 0 {
      assert s[0] == s[..i][0];
      assert s[..i] == [s[0]] + s[1..][..i - 1];
      IndexOfUnique(s[1..], c, i - 1);
    }
  }

  /** `strip(b" \t")` and its one-sided forms. */
  predicate Blank(c: char) { c == ' ' || c == '\t' }

  predicate Blanks(s: Bytes) { forall i :: 0 <= i < |s| ==> Blank(s[i]) }

  function LStrip(s: Bytes): Bytes {
    if s != "" && Blank(s[0]) then LStrip(s[1..]) else s
  }

  function RStrip(s: Bytes): Bytes {
    if s != "" && Blank(s[|s| - 1]) then RStrip(s[..|s| - 1]) else s
  }

  function Strip(s: Bytes): Bytes { RStrip(LStrip(s)) }

  predicate Stripped(s: Bytes) {
    s == "" || (!Blank(s[0]) && !Blank(s[|s| - 1]))
  }

  lemma {:induction false} LStripIsSuffix(s: Bytes)
    ensures LStrip(s) == "" || !Blank(LStrip(s)[0])
    ensures LStrip(s) == "" || LStrip(s)[|LStrip(s)| - 1] == s[|s| - 1]
    ensures |LStrip(s)| <= |s|
  {
    if s != "" && Blank(s[0]) { LStripIsSuffix(s[1..]); }
  }

  lemma {:induction false} RStripIsPrefix(s: Bytes)
    ensures RStrip(s) <= s
    ensures RStrip(s) == "" || !Blank(RStrip(s)[|RStrip(s)| - 1])
  {
    if s != "" && Blank(s[|s| - 1]) { RStripIsPrefix(s[..|s| - 1]); }
  }

  /** Stripping yields a stripped value, and leaves exactly the stripped values alone. */
  lemma StripFixpoints(s: Bytes)
    ensures Stripped(Strip(s))
    ensures Strip(s) == s <==> Stripped(s)
  {
    LStripIsSuffix(s);
    RStripIsPrefix(LStrip(s));
  }

  /** ASCII `lower()`. */
  function LowerChar(c: char): char {
    if 'A' <= c <= 'Z' then (c as int + 32) as char else c
  }

  function UpperChar(c: char): char {
    if 'a' <= c <= 'z' then (c as int - 32) as char else c
  }

  function Lower(s: Bytes): Bytes { seq(|s|, i requires 0 <= i < |s| => LowerChar(s[i])) }

  function Upper(s: Bytes): Bytes { seq(|s|, i requires 0 <= i < |s| => UpperChar(s[i])) }

  lemma NothingLowered()
    ensures Lower("") == ""
  {
  }

  predicate IsAscii(s: Bytes) { forall i :: 0 <= i < |s| ==> s[i] < 128 as char }

  /** `s.split(sep)` for a one-character separator; never empty. */
  function Split(s: Bytes, sep: char): (r: seq<Bytes>)
    ensures |r| > 0
  {
    var i := IndexOf(s, sep);
    if i == -1 then [s] else [s[..i]] + Split(s[i + 1..], sep)
  }

  /** `s[:n]` and `s[n:]`, which clamp. */
  function Take(s: Bytes, n: nat): Bytes { if n <= |s| then s[..n] else s }

  function Drop(s: Bytes, n: nat): Bytes { if n <= |s| then s[n..] else "" }

  lemma Assoc<T>(a: seq<T>, b: seq<T>, c: seq<T>)
    ensures a + (b + c) == (a + b) + c
  {
  }

  /** `b"".join(parts)`. */
  function Concat(parts: seq<Bytes>): Bytes {
    if parts == [] then "" else parts[0] + Concat(parts[1..])
  }

  lemma {:induction false} ConcatAppend(a: seq<Bytes>, b: seq<Bytes>)
    ensures Concat(a + b) == Concat(a) + Concat(b)
  {
    if a == [] {
      assert a + b == b;
    } else {
      assert (a + b)[1..] == a[1..] + b;
      ConcatAppend(a[1..], b);
    }
  }

  lemma ConcatSnoc(a: seq<Bytes>, x: Bytes)
    ensures Concat(a + [x]) == Concat(a) + x
  {
    ConcatAppend(a, [x]);
    assert Concat([x]) == x;
  }

  lemma ConcatNothing()
    ensures Concat([]) == ""
  {
  }

  lemma ConcatFour(list: seq<Bytes>, a: Bytes, b: Bytes, c: Bytes, d: Bytes)
    ensures Concat(list + [a, b, c, d]) == Concat(list) + (a + b + c + d)
  {
    hide Concat;
    ConcatSnoc(list, a);
    ConcatSnoc(list + [a], b);
    ConcatSnoc(list + [a] + [b], c);
    ConcatSnoc(list + [a] + [b] + [c], d);
    assert list + [a, b, c, d] == list + [a] + [b] + [c] + [d];
    assert Concat(list) + (a + b + c + d) == Concat(list) + a + b + c + d;
  }

  predicate AllNonEmpty(pieces: seq<Bytes>) { forall i :: 0 <= i < |pieces| ==> pieces[i] != "" }

  /** The longest line that `readline` accepts. */
  function LineLimit(maxSize: nat, highWater: nat): nat { if maxSize > 0 then maxSize else highWater }
}

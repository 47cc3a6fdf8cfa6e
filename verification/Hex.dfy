/** Chunk sizes on the wire: `f"{n:x}"` and `int(s, 16)` guarded by `[0-9a-fA-F]+`. */
module Hex {
  import opened ByteStrings

  function Digit(n: nat): char
    requires n < 16
  {
    if n < 10 then (n + '0' as int) as char else (n - 10 + 'a' as int) as char
  }

  predicate IsHexDigit(c: char) {
    '0' <= c <= '9' || 'a' <= c <= 'f' || 'A' <= c <= 'F'
  }

  function DigitValue(c: char): (v: nat)
    requires IsHexDigit(c)
    ensures v < 16
  {
    if c <= '9' then c as int - '0' as int
    else if c <= 'F' then c as int - 'A' as int + 10
    else c as int - 'a' as int + 10
  }

  /** `re.fullmatch(HEXDIGITS, s)` */
  predicate IsHex(s: Bytes) {
    s != "" && forall i :: 0 <= i < |s| ==> IsHexDigit(s[i])
  }

  /** `int(s, 16)` */
  function FromHex(s: Bytes): nat
    requires IsHex(s)
  {
    var d := DigitValue(s[|s| - 1]);
    if |s| == 1 then d else 16 * FromHex(s[..|s| - 1]) + d
  }

  /** What a digit is worth, in either case. */
  lemma DigitValues(i: nat)
    requires i < 16
    ensures var lower: Bytes, upper: Bytes := "0123456789abcdef", "0123456789ABCDEF";
      IsHexDigit(lower[i]) && IsHexDigit(upper[i]) && DigitValue(lower[i]) == DigitValue(upper[i]) == i
  {
  }

  /** Every digit is one of these. */
  lemma DigitsAre(c: char)
    ensures IsHexDigit(c) <==> LowerChar(c) in "0123456789abcdef"
    ensures IsHexDigit(c) ==> "0123456789abcdef"[DigitValue(c)] == LowerChar(c)
  {
  }

  /** `f"{n:x}"` */
  function ToHex(n: nat): Bytes {
    if n < 16 then [Digit(n)] else ToHex(n / 16) + [Digit(n % 16)]
  }

  /** Parsing the printed size gives the size back, and no printed byte can be taken
      for a chunk-extension or a line end. */
  lemma {:induction false} HexRoundTrip(n: nat)
    ensures IsHex(ToHex(n)) && FromHex(ToHex(n)) == n
    ensures forall i :: 0 <= i < |ToHex(n)| ==> ToHex(n)[i] != ';' && ToHex(n)[i] != '\r' && ToHex(n)[i] != '\n'
  {
    if n >= 16 {
      HexRoundTrip(n / 16);
      var s := ToHex(n);
      assert s[..|s| - 1] == ToHex(n / 16);
    }
  }

  /** The value does not depend on the case of the digits. */
  lemma {:induction false} CaseIgnored(s: Bytes)
    requires IsHex(s)
    ensures IsHex(Lower(s)) && FromHex(Lower(s)) == FromHex(s)
  {
    forall i | 0 <= i < |s| ensures IsHexDigit(Lower(s)[i]) && DigitValue(Lower(s)[i]) == DigitValue(s[i]) {
      DigitsAre(s[i]);
      SameDigit(s[i]);
    }
    if |s| > 1 {
      var front := s[..|s| - 1];
      CaseIgnored(front);
      assert Lower(s)[..|s| - 1] == Lower(front);
    }
  }

  lemma SameDigit(c: char)
    requires IsHexDigit(c)
    ensures IsHexDigit(LowerChar(c)) && DigitValue(LowerChar(c)) == DigitValue(c)
  {
  }

  /** Nor on zeros in front. */
  lemma {:induction false} ZerosIgnored(zeros: Bytes, s: Bytes)
    requires IsHex(s) && forall i :: 0 <= i < |zeros| ==> zeros[i] == '0'
    ensures IsHex(zeros + s) && FromHex(zeros + s) == FromHex(s)
  {
    if |s| > 1 {
      ZerosIgnored(zeros, s[..|s| - 1]);
      assert (zeros + s)[..|zeros + s| - 1] == zeros + s[..|s| - 1];
    } else if zeros != "" {
      AllZeros(zeros);
      assert (zeros + s)[..|zeros|] == zeros;
    } else {
      assert zeros + s == s;
    }
  }

  lemma {:induction false} AllZeros(zeros: Bytes)
    requires zeros != "" && forall i :: 0 <= i < |zeros| ==> zeros[i] == '0'
    ensures IsHex(zeros) && FromHex(zeros) == 0
  {
    if |zeros| > 1 { AllZeros(zeros[..|zeros| - 1]); }
  }

  /** A spelling of a number: its printed digits in any case, with any zeros in front. */
  ghost predicate Spells(s: Bytes, n: nat) { exists zeros :: SpelledWith(s, n, zeros) }

  predicate SpelledWith(s: Bytes, n: nat, zeros: Bytes) {
    (forall i :: 0 <= i < |zeros| ==> zeros[i] == '0') && Lower(s) == zeros + ToHex(n)
  }

  lemma SpelledIsHex(s: Bytes, n: nat)
    requires Spells(s, n)
    ensures IsHex(s) && FromHex(s) == n
    ensures forall c :: c in s ==> c != ';' && c != '\r' && c != '\n'
  {
    var zeros :| SpelledWith(s, n, zeros);
    HexRoundTrip(n);
    ZerosIgnored(zeros, ToHex(n));
    forall i | 0 <= i < |s| ensures IsHexDigit(s[i]) {
      assert Lower(s)[i] == LowerChar(s[i]) && IsHexDigit((zeros + ToHex(n))[i]);
      FoldedDigit(s[i]);
    }
    assert s != "";
    CaseIgnored(s);
  }

  lemma FoldedDigit(c: char)
    requires IsHexDigit(LowerChar(c))
    ensures IsHexDigit(c)
  {
  }

  lemma DigitBack(c: char)
    requires IsHexDigit(c)
    ensures LowerChar(c) == Digit(DigitValue(c))
  {
  }

  lemma LowerSnoc(s: Bytes, c: char)
    ensures Lower(s + [c]) == Lower(s) + [LowerChar(c)]
  {
  }

  lemma ToHexSnoc(m: nat, d: nat)
    requires d < 16
    ensures ToHex(16 * m + d) == (if m == 0 then "" else ToHex(m)) + [Digit(d)]
  {
    assert (16 * m + d) / 16 == m && (16 * m + d) % 16 == d;
  }

  lemma SpellsSnoc(s: Bytes, m: nat, c: char)
    requires Spells(s, m) && IsHexDigit(c)
    ensures Spells(s + [c], 16 * m + DigitValue(c))
  {
    hide SpelledWith;
    var zeros :| SpelledWith(s, m, zeros);
    SpelledSnoc(s, m, c, zeros);
  }

  lemma SpelledSnoc(s: Bytes, m: nat, c: char, zeros: Bytes)
    requires SpelledWith(s, m, zeros) && IsHexDigit(c)
    ensures SpelledWith(s + [c], 16 * m + DigitValue(c), if m == 0 then zeros + "0" else zeros)
  {
    hide Lower, ToHex, IsHexDigit, LowerChar, DigitValue;
    LowerSnoc(s, c);
    DigitBack(c);
    ToHexSnoc(m, DigitValue(c));
    assert ToHex(0) == "0" by { ToHexSnoc(0, 0); }
    Assoc(zeros, ToHex(m), [LowerChar(c)]);
  }

  lemma {:induction false} HexSpells(s: Bytes)
    requires IsHex(s)
    ensures Spells(s, FromHex(s))
  {
    hide Lower, Spells;
    var front, c := s[..|s| - 1], s[|s| - 1];
    assert s == front + [c];
    if |s| == 1 { OneDigit(c); } else {
      HexSpells(front);
      SpellsSnoc(front, FromHex(front), c);
    }
  }

  lemma OneDigit(c: char)
    requires IsHexDigit(c)
    ensures Spells([c], DigitValue(c))
  {
    DigitBack(c);
    assert Lower([c]) == [LowerChar(c)] == "" + ToHex(DigitValue(c));
    assert SpelledWith([c], DigitValue(c), "");
  }

  /** `int(s, 16)` behind its guard reads exactly the spellings. */
  lemma FromHexIff(s: Bytes, n: nat)
    ensures IsHex(s) && FromHex(s) == n <==> Spells(s, n)
  {
    if IsHex(s) { HexSpells(s); }
    if Spells(s, n) { SpelledIsHex(s, n); }
  }
}

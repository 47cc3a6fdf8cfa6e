/** The boundary on its way from a multipart writer through the content type to a reader
    (`_boundary_value` in multipart.py, `parse_mimetype` in helpers.py): the writer escapes and
    quotes, the reader splits, strips and never unescapes. */
module MultipartBoundaries {
  import opened ByteStrings
  import opened Headers
  import opened MultipartReaders
  import W = MultipartWriters

  /** The reader gets the boundary that the writer uses. */
  predicate Survives(b: Bytes) {
    && ';' !in b && '"' !in b && '\\' !in b
    && (b == "" || (b[0] != ' ' && b[|b| - 1] != ' '))
  }

  /** A line that ends in a tab is never equal to one that was stripped. */
  predicate EndsInTab(b: Bytes) { b != "" && b[|b| - 1] == '\t' }

  function Count(s: Bytes, c: char): nat {
    if s == "" then 0 else (if s[0] == c then 1 else 0) + Count(s[1..], c)
  }

  lemma {:induction false} CountAppend(a: Bytes, b: Bytes, c: char)
    ensures Count(a + b, c) == Count(a, c) + Count(b, c)
  {
    if a == "" {
      assert a + b == b;
    } else {
      assert (a + b)[1..] == a[1..] + b;
      CountAppend(a[1..], b, c);
    }
  }

  lemma {:induction false} CountIn(s: Bytes, c: char)
    ensures Count(s, c) == 0 <==> c !in s
  {
    if s != "" {
      assert s == [s[0]] + s[1..];
      CountIn(s[1..], c);
    }
  }

  lemma {:induction false} EscapedCounts(b: Bytes)
    ensures Count(W.Escaped(b), '\\') == 2 * Count(b, '\\') + Count(b, '"')
    ensures forall c :: c !in {'\\', '"'} ==> Count(W.Escaped(b), c) == Count(b, c)
    ensures '\\' !in b && '"' !in b ==> W.Escaped(b) == b
  {
    if b != "" {
      var front: Bytes := if b[0] in {'\\', '"'} then ['\\', b[0]] else [b[0]];
      EscapedCounts(b[1..]);
      assert b == [b[0]] + b[1..];
      assert Count(front, '\\') == if b[0] == '\\' then 2 else if b[0] == '"' then 1 else 0 by {
        CountOfTwo(front, '\\');
      }
      CountAppend(front, W.Escaped(b[1..]), '\\');
      forall c | c !in {'\\', '"'} ensures Count(W.Escaped(b), c) == Count(b, c) {
        CountOfTwo(front, c);
        CountAppend(front, W.Escaped(b[1..]), c);
      }
    }
  }

  lemma CountOfTwo(s: Bytes, c: char)
    requires 1 <= |s| <= 2
    ensures Count(s, c) == (if s[0] == c then 1 else 0) + if |s| == 2 && s[1] == c then 1 else 0
  {
    if |s| == 2 { assert s[1..] == [s[1]] && s[1..][1..] == ""; }
  }

  /** Stripping takes off nothing but what is stripped. */
  lemma TrimKeeps(s: Bytes, chars: set<char>) returns (front: Bytes, end: Bytes)
    ensures s == front + TrimBoth(s, chars) + end
    ensures forall c :: c in front || c in end ==> c in chars
    ensures var r := TrimBoth(s, chars); r == "" || (r[0] !in chars && r[|r| - 1] !in chars)
  {
    hide TrimStart, TrimEnd;
    var m := TrimStart(s, chars);
    front := TrimmedStart(s, chars);
    end := TrimmedEnd(m, chars);
    Assoc(front, TrimBoth(s, chars), end);
  }

  lemma {:induction false} StartGone(front: Bytes, s: Bytes, chars: set<char>)
    requires forall c :: c in front ==> c in chars
    ensures TrimStart(front + s, chars) == TrimStart(s, chars)
  {
    if front == "" {
      assert front + s == s;
    } else {
      assert (front + s)[1..] == front[1..] + s && front[0] in front;
      StartGone(front[1..], s, chars);
    }
  }

  lemma {:induction false} EndGone(s: Bytes, end: Bytes, chars: set<char>)
    requires forall c :: c in end ==> c in chars
    ensures TrimEnd(s + end, chars) == TrimEnd(s, chars)
    decreases |end|
  {
    if end == "" {
      assert s + end == s;
    } else {
      assert (s + end)[..|s + end| - 1] == s + end[..|end| - 1] && end[|end| - 1] in end;
      EndGone(s, end[..|end| - 1], chars);
    }
  }

  /** What is left is what is between the stripped ends. */
  lemma TrimIs(front: Bytes, mid: Bytes, end: Bytes, chars: set<char>)
    requires forall c :: c in front || c in end ==> c in chars
    requires mid == "" || (mid[0] !in chars && mid[|mid| - 1] !in chars)
    ensures TrimBoth(front + mid + end, chars) == mid
  {
    Assoc(front, mid, end);
    StartGone(front, mid + end, chars);
    EndGone(mid, end, chars);
    if mid == "" {
      assert mid + end == end + "";
      StartGone(end, "", chars);
    }
  }

  lemma OneMoreInFront(s: Bytes, rest: Bytes, mid: Bytes, chars: set<char>)
    requires s != "" && s[0] in chars && s[1..] == rest + mid && forall c :: c in rest ==> c in chars
    ensures s == [s[0]] + rest + mid && forall c :: c in [s[0]] + rest ==> c in chars
  {
    assert s == [s[0]] + s[1..];
  }

  lemma {:induction false} TrimmedStart(s: Bytes, chars: set<char>) returns (front: Bytes)
    ensures s == front + TrimStart(s, chars) && forall c :: c in front ==> c in chars
  {
    if s != "" && s[0] in chars {
      var rest := TrimmedStart(s[1..], chars);
      front := [s[0]] + rest;
      OneMoreInFront(s, rest, TrimStart(s, chars), chars);
    } else {
      front := "";
      assert s == "" + s;
    }
  }

  lemma {:induction false} TrimmedEnd(s: Bytes, chars: set<char>) returns (end: Bytes)
    ensures s == TrimEnd(s, chars) + end && forall c :: c in end ==> c in chars
  {
    if s != "" && s[|s| - 1] in chars {
      end := TrimmedEnd(s[..|s| - 1], chars);
      end := end + [s[|s| - 1]];
      assert s == s[..|s| - 1] + [s[|s| - 1]];
    } else {
      end := "";
    }
  }

  /** What comes off at the ends is counted only if it is stripped. */
  lemma TrimCounts(s: Bytes, chars: set<char>, c: char)
    ensures Count(TrimBoth(s, chars), c) <= Count(s, c)
    ensures c !in chars ==> Count(TrimBoth(s, chars), c) == Count(s, c)
  {
    hide TrimBoth;
    var front, end := TrimKeeps(s, chars);
    CountAppend(front + TrimBoth(s, chars), end, c);
    CountAppend(front, TrimBoth(s, chars), c);
    CountIn(front, c);
    CountIn(end, c);
  }

  lemma UpToCounts(s: Bytes, c: char, x: char)
    ensures Count(UpTo(s, c), x) <= Count(s, x)
    ensures c !in UpTo(s, c)
  {
    var i := IndexOf(s, c);
    if i != -1 {
      assert s == s[..i] + s[i..];
      CountAppend(s[..i], s[i..], x);
    }
  }

  // ---- the parameter -------------------------------------------------------------------------------

  const BOUNDARY_KEY: Bytes := " boundary"

  lemma KeyIsBoundary()
    ensures TrimBoth(Lower(BOUNDARY_KEY), TEXT_SPACES) == "boundary"
  {
    hide TrimBoth;
    assert Lower(BOUNDARY_KEY) == " " + "boundary" + "" by { LowerKey(); }
    NoSpace('b');
    NoSpace('y');
    TrimIs(" ", "boundary", "", TEXT_SPACES);
  }

  lemma LowerKey()
    ensures Lower(BOUNDARY_KEY) == " boundary"
  {
  }

  lemma NoSpace(c: char)
    ensures '!' <= c <= '~' ==> c !in TEXT_SPACES
    ensures c == ' ' ==> c in TEXT_SPACES
  {
  }

  /** What a reader makes of `boundary=value`: up to a semicolon, without blanks and quotes around. */
  lemma ParameterBack(subtype: Bytes, value: Bytes)
    requires ';' !in subtype
    ensures BoundaryParameter("multipart/" + subtype + "; boundary=" + value) ==
      Some(TrimBoth(UpTo(value, ';'), QUOTES))
  {
    hide TrimBoth, Lower, UpTo, Beyond, ByteStrings.Split;
    var head, item := "multipart/" + subtype, BOUNDARY_KEY + "=" + value;
    var ctype := head + ";" + item;
    assert "multipart/" + subtype + "; boundary=" + value == ctype by {
      assert "; boundary=" == ";" + BOUNDARY_KEY + "=";
    }
    SplitFirst(head, ';', item);
    FirstItem(item);
    var items := ByteStrings.Split(ctype, ';')[1..];
    assert items == ByteStrings.Split(item, ';');
    SemicolonLater(value);
    PartitionAt(BOUNDARY_KEY, '=', UpTo(value, ';'));
    KeyIsBoundary();
  }

  lemma SplitFirst(a: Bytes, c: char, rest: Bytes)
    requires c !in a
    ensures ByteStrings.Split(a + [c] + rest, c) == [a] + ByteStrings.Split(rest, c)
  {
    var s := a + [c] + rest;
    assert s[..|a|] == a && s[|a| + 1..] == rest;
    IndexOfUnique(s, c, |a|);
  }

  lemma FirstItem(s: Bytes)
    ensures ByteStrings.Split(s, ';')[0] == UpTo(s, ';')
  {
  }

  lemma PartitionAt(a: Bytes, c: char, rest: Bytes)
    requires c !in a
    ensures UpTo(a + [c] + rest, c) == a && Beyond(a + [c] + rest, c) == rest
  {
    var s := a + [c] + rest;
    assert s[..|a|] == a && s[|a| + 1..] == rest;
    IndexOfUnique(s, c, |a|);
  }

  lemma SemicolonLater(value: Bytes)
    ensures UpTo(BOUNDARY_KEY + "=" + value, ';') == BOUNDARY_KEY + "=" + UpTo(value, ';')
  {
    var front := BOUNDARY_KEY + "=";
    var s, i := front + value, IndexOf(value, ';');
    assert ';' !in front;
    if i != -1 {
      assert s[|front| + i] == ';' && s[..|front| + i] == front + value[..i];
      IndexOfUnique(s, ';', |front| + i);
    } else {
      assert ';' !in s;
    }
  }

  /** The parameter that the writer's value is read as. */
  function ReadBack(value: Bytes): Bytes { TrimBoth(UpTo(value, ';'), QUOTES) }

  lemma TokenCharsAreNot(b: Bytes)
    requires IsToken(b)
    ensures ';' !in b && '"' !in b && '\\' !in b && ' ' !in b
  {
    hide IsTokenChar;
    SpecialChars();
  }

  lemma SpecialChars()
    ensures !IsTokenChar(';') && !IsTokenChar('"') && !IsTokenChar('\\') && !IsTokenChar(' ')
  {
  }

  lemma TokenBack(b: Bytes)
    requires IsToken(b)
    ensures Survives(b) && ReadBack(b) == b
  {
    hide IsToken, TrimBoth;
    TokenCharsAreNot(b);
    NoSemicolon(b);
    assert "" + b + "" == b;
    TrimIs("", b, "", QUOTES);
  }

  lemma QuotedBack(b: Bytes)
    ensures ReadBack(['"'] + W.Escaped(b) + ['"']) == b <==> Survives(b)
  {
    hide TrimBoth, UpTo;
    var value := ['"'] + W.Escaped(b) + ['"'];
    EscapedCounts(b);
    if ';' in b {
      SemicolonIsLost(b, value);
    } else {
      CountIn(b, ';');
      CountIn(W.Escaped(b), ';');
      NoSemicolon(value);
      if '\\' in b || '"' in b {
        CountIn(b, '\\');
        CountIn(b, '"');
        TrimCounts(value, QUOTES, '\\');
        CountAppend(['"'] + W.Escaped(b), ['"'], '\\');
        CountAppend(['"'], W.Escaped(b), '\\');
      } else {
        BetweenQuotes(b);
      }
    }
  }

  lemma SemicolonIsLost(b: Bytes, value: Bytes)
    requires ';' in b
    ensures ReadBack(value) != b
  {
    hide TrimBoth, UpTo;
    UpToCounts(value, ';', ';');
    CountIn(UpTo(value, ';'), ';');
    TrimCounts(UpTo(value, ';'), QUOTES, ';');
    CountIn(b, ';');
  }

  lemma NoSemicolon(s: Bytes)
    ensures ';' !in s ==> UpTo(s, ';') == s
  {
  }

  lemma BetweenQuotes(b: Bytes)
    requires '"' !in b
    ensures TrimBoth(['"'] + b + ['"'], QUOTES) == b <==> b == "" || (b[0] != ' ' && b[|b| - 1] != ' ')
  {
    hide TrimBoth;
    var s := ['"'] + b + ['"'];
    var front, end := TrimKeeps(s, QUOTES);
    if b == "" || (b[0] != ' ' && b[|b| - 1] != ' ') { TrimIs(['"'], b, ['"'], QUOTES); }
  }

  /** The boundary is read back exactly if it holds no semicolon, quote or backslash and has no blank
      at either end. */
  lemma BoundaryBack(subtype: Bytes, b: Bytes)
    requires ';' !in subtype && W.ContentType(subtype, b).Ok?
    ensures BoundaryParameter(W.ContentType(subtype, b).value) == Some(b) <==> Survives(b)
  {
    hide BoundaryParameter, W.Escaped, TrimBoth, UpTo;
    var value := W.BoundaryValue(b).value;
    ParameterBack(subtype, value);
    if IsToken(b) { TokenBack(b); } else { QuotedBack(b); }
  }

  /** Whatever the reader takes for the boundary, it is not the writer's with two dashes more. */
  lemma NoDashesGained(subtype: Bytes, b: Bytes)
    requires ';' !in subtype && W.ContentType(subtype, b).Ok?
    ensures BoundaryParameter(W.ContentType(subtype, b).value) != Some(b + "--")
  {
    hide BoundaryParameter, W.Escaped, TrimBoth, UpTo;
    var value := W.BoundaryValue(b).value;
    ParameterBack(subtype, value);
    UpToCounts(value, ';', '-');
    TrimCounts(UpTo(value, ';'), QUOTES, '-');
    EscapedCounts(b);
    CountAppend(b, "--", '-');
    CountOfTwo("--", '-');
    if !IsToken(b) {
      CountAppend(['"'] + W.Escaped(b), ['"'], '-');
      CountAppend(['"'], W.Escaped(b), '-');
    }
  }

  // ---- the rest of the content type ------------------------------------------------------------------

  lemma LowerAppend(a: Bytes, b: Bytes)
    ensures Lower(a + b) == Lower(a) + Lower(b)
  {
  }

  /** A writer's message is one of parts, and its subtype is read back up to a plus sign. */
  lemma TypeBack(subtype: Bytes, b: Bytes)
    requires ';' !in subtype && W.ContentType(subtype, b).Ok?
    ensures MainType(W.ContentType(subtype, b).value) == "multipart"
    ensures subtype == "form-data" || subtype == "mixed" ==> SubType(W.ContentType(subtype, b).value) == subtype
  {
    hide W.BoundaryValue, TrimBoth, UpTo, Beyond, TrimEnd, Lower;
    FullTypeBack(subtype, b);
    PartitionAt("multipart", '/', Lower(TrimEnd(subtype, TEXT_SPACES)));
    if subtype == "form-data" || subtype == "mixed" { PlainSubtype(subtype); }
  }

  lemma FullTypeBack(subtype: Bytes, b: Bytes)
    requires ';' !in subtype && W.ContentType(subtype, b).Ok?
    ensures FullType(W.ContentType(subtype, b).value) == "multipart" + ['/'] + Lower(TrimEnd(subtype, TEXT_SPACES))
  {
    hide W.BoundaryValue, TrimBoth, TrimEnd, Lower, ByteStrings.Split;
    var value := W.BoundaryValue(b).value;
    var head: Bytes := "multipart/" + subtype;
    var ctype := W.ContentType(subtype, b).value;
    assert ctype == head + [';'] + (" boundary=" + value);
    SplitFirst(head, ';', " boundary=" + value);
    HeadKept(subtype);
    LowerAppend("multipart/", TrimEnd(subtype, TEXT_SPACES));
    LowerMultipart();
    assert "multipart/" == "multipart" + ['/'];
  }

  lemma LowerMultipart()
    ensures Lower("multipart/") == "multipart/"
  {
  }

  lemma PlainSubtype(subtype: Bytes)
    requires subtype == "form-data" || subtype == "mixed"
    ensures UpTo(Lower(TrimEnd(subtype, TEXT_SPACES)), '+') == subtype
  {
    hide TEXT_SPACES;
    NoSpace(subtype[|subtype| - 1]);
    LowerSubtypes();
  }

  lemma LowerSubtypes()
    ensures Lower("form-data") == "form-data" && Lower("mixed") == "mixed"
    ensures '+' !in "form-data" && '+' !in "mixed"
  {
  }

  lemma HeadKept(subtype: Bytes)
    ensures TrimBoth("multipart/" + subtype, TEXT_SPACES) == "multipart/" + TrimEnd(subtype, TEXT_SPACES)
  {
    hide TrimEnd;
    var head: Bytes := "multipart/" + subtype;
    NoSpace(head[0]);
    NoSpace('/');
    assert TrimStart(head, TEXT_SPACES) == head;
    EndKept("multipart/", subtype);
  }

  lemma {:induction false} EndKept(front: Bytes, s: Bytes)
    requires front != "" && front[|front| - 1] !in TEXT_SPACES
    ensures TrimEnd(front + s, TEXT_SPACES) == front + TrimEnd(s, TEXT_SPACES)
    decreases |s|
  {
    if s == "" {
      assert front + s == front;
    } else if s[|s| - 1] in TEXT_SPACES {
      assert (front + s)[..|front + s| - 1] == front + s[..|s| - 1];
      EndKept(front, s[..|s| - 1]);
    }
  }

  // ---- how a boundary is lost ------------------------------------------------------------------------

  lemma {:induction false} EscapedAppend(a: Bytes, b: Bytes)
    ensures W.Escaped(a + b) == W.Escaped(a) + W.Escaped(b)
  {
    if a == "" {
      assert a + b == b;
    } else {
      assert (a + b)[1..] == a[1..] + b;
      EscapedAppend(a[1..], b);
    }
  }

  lemma NoToken(b: Bytes)
    requires ';' in b || ' ' in b || '"' in b || '\\' in b
    ensures W.BoundaryValue(b).Ok? ==> W.BoundaryValue(b).value == ['"'] + W.Escaped(b) + ['"']
  {
    hide IsToken, W.Escaped, Safe;
    if IsToken(b) { TokenCharsAreNot(b); }
  }

  /** The boundary is cut at its first semicolon: of `a;b` the reader gets `a`. */
  lemma SemicolonCuts(a: Bytes, more: Bytes)
    requires Survives(a) && W.BoundaryValue(a + ";" + more).Ok?
    ensures ReadBack(W.BoundaryValue(a + ";" + more).value) == a
  {
    hide TrimBoth, UpTo, W.Escaped, W.BoundaryValue;
    var b := a + ";" + more;
    assert b[|a|] == ';';
    NoToken(b);
    EscapedCounts(a);
    EscapedCounts(";");
    EscapedAppend(a + ";", more);
    EscapedAppend(a, ";");
    var value := ['"'] + W.Escaped(b) + ['"'];
    assert value == (['"'] + a) + [';'] + (W.Escaped(more) + ['"']);
    PartitionAt(['"'] + a, ';', W.Escaped(more) + ['"']);
    TrimIs(['"'], a, "", QUOTES);
    assert ['"'] + a + "" == ['"'] + a;
  }

  /** What was escaped stays so: of `a\b` the reader gets `a\\b`. */
  lemma EscapesStay(b: Bytes)
    requires ';' !in b && ('"' in b || '\\' in b) && W.BoundaryValue(b).Ok?
    requires b[0] !in {' ', '"'} && b[|b| - 1] !in {' ', '"'}
    ensures ReadBack(W.BoundaryValue(b).value) == W.Escaped(b) != b
  {
    hide TrimBoth, UpTo, W.Escaped, W.BoundaryValue, Count;
    NoToken(b);
    EscapedCounts(b);
    CountIn(b, ';');
    CountIn(W.Escaped(b), ';');
    CountIn(b, '"');
    CountIn(b, '\\');
    NoSemicolon(['"'] + W.Escaped(b) + ['"']);
    EscapedEnds(b);
    TrimIs(['"'], W.Escaped(b), ['"'], QUOTES);
  }

  lemma {:induction false} EscapedEnds(b: Bytes)
    requires b != ""
    ensures var e := W.Escaped(b); e != "" && (e[0] == b[0] || e[0] == '\\') && e[|e| - 1] == b[|b| - 1]
  {
    if |b| > 1 { EscapedEnds(b[1..]); } else { assert b[1..] == ""; }
  }

  /** Blanks at the ends are stripped off with the quotes: of ` a ` the reader gets `a`. */
  lemma OuterBlanksGo(front: Bytes, a: Bytes, end: Bytes)
    requires Survives(a) && front + end != "" && forall c :: c in front || c in end ==> c == ' '
    requires W.BoundaryValue(front + a + end).Ok?
    ensures ReadBack(W.BoundaryValue(front + a + end).value) == a
  {
    hide TrimBoth, UpTo, W.Escaped, W.BoundaryValue;
    var b := front + a + end;
    assert ' ' in b by { BlankInside(front, a, end); }
    NoToken(b);
    assert '\\' !in b && '"' !in b && ';' !in b;
    EscapedCounts(b);
    NoSemicolon(['"'] + b + ['"']);
    TrimIs(['"'] + front, a, end + ['"'], QUOTES);
    assert (['"'] + front) + a + (end + ['"']) == ['"'] + b + ['"'];
  }

  lemma BlankInside(front: Bytes, a: Bytes, end: Bytes)
    requires front + end != "" && forall c :: c in front || c in end ==> c == ' '
    ensures ' ' in front + a + end
  {
    if front != "" { assert front[0] in front; } else { assert end[0] in end; }
  }

  /** A boundary is refused exactly if it is too long or has a byte that is neither a tab nor a printable
      ASCII character. */
  lemma RefusedIff(subtype: Bytes, b: Bytes)
    ensures W.ContentType(subtype, b).Err? <==>
      |b| > 70 || exists i :: 0 <= i < |b| && b[i] != '\t' && !(' ' <= b[i] <= '~')
  {
    hide IsTokenChar;
    if IsToken(b) {
      forall i | 0 <= i < |b| ensures ' ' <= b[i] <= '~' { TokenCharIsPlain(b[i]); }
    }
  }
}

/** Comma-separated header values such as those of `Connection` and `Transfer-Encoding`: what
    `HasListToken` and `ChunkedOnceAndLast` find in a value that was put together from tokens. */
module HeaderLists {
  import opened ByteStrings
  import opened Headers
  import opened Requests

  /** One element with the blanks around it. */
  datatype Item = Item(before: Bytes, token: Bytes, after: Bytes)
  {
    function Text(): Bytes { before + token + after }

    predicate Valid() {
      Blanks(before) && Blanks(after) && (token == "" || IsToken(token))
    }
  }

  function Texts(items: seq<Item>): seq<Bytes> {
    if items == [] then [] else [items[0].Text()] + Texts(items[1..])
  }

  /** `sep.join(parts)` for a one-character separator. */
  function Join(parts: seq<Bytes>, sep: char): Bytes
    requires parts != []
  {
    if |parts| == 1 then parts[0] else parts[0] + [sep] + Join(parts[1..], sep)
  }

  /** Splitting undoes joining, unless a part holds the separator. */
  lemma {:induction false} SplitJoined(parts: seq<Bytes>, sep: char)
    requires parts != [] && forall i :: 0 <= i < |parts| ==> sep !in parts[i]
    ensures Split(Join(parts, sep), sep) == parts
  {
    var s := Join(parts, sep);
    if |parts| > 1 {
      SplitJoined(parts[1..], sep);
      assert s[..|parts[0]|] == parts[0] && s[|parts[0]| + 1..] == Join(parts[1..], sep);
      IndexOfUnique(s, sep, |parts[0]|);
    }
  }

  lemma {:induction false} LeadingBlanks(blanks: Bytes, s: Bytes)
    requires Blanks(blanks)
    ensures LStrip(blanks + s) == LStrip(s)
  {
    if blanks == "" {
      assert blanks + s == s;
    } else {
      LeadingBlanks(blanks[1..], s);
      assert (blanks + s)[1..] == blanks[1..] + s;
    }
  }

  lemma {:induction false} TrailingBlanks(s: Bytes, blanks: Bytes)
    requires Blanks(blanks)
    ensures RStrip(s + blanks) == RStrip(s)
  {
    hide RStrip;
    if blanks == "" {
      assert s + blanks == s;
    } else {
      var front := blanks[..|blanks| - 1];
      TrailingBlanks(s, front);
      LastBlankGoes(s + front, blanks[|blanks| - 1]);
      assert s + blanks == s + front + [blanks[|blanks| - 1]];
    }
  }

  lemma LastBlankGoes(s: Bytes, blank: char)
    requires Blank(blank)
    ensures RStrip(s + [blank]) == RStrip(s)
  {
    assert (s + [blank])[..|s|] == s;
  }

  /** The blanks around an element go. */
  lemma StripItem(before: Bytes, s: Bytes, after: Bytes)
    requires Blanks(before) && Blanks(after) && Stripped(s)
    ensures Strip(before + s + after) == s
  {
    hide LStrip, RStrip;
    Assoc(before, s, after);
    LeadingBlanks(before, s + after);
    if s == "" {
      assert s + after == after + "";
      LeadingBlanks(after, "");
      NothingStripped();
    } else {
      NoLeadingBlank(s + after);
      TrailingBlanks(s, after);
      StripFixpoints(s);
      NoLeadingBlank(s);
    }
  }

  lemma NothingStripped()
    ensures LStrip("") == "" && RStrip("") == ""
  {
  }

  lemma NoLeadingBlank(s: Bytes)
    requires s != "" && !Blank(s[0])
    ensures LStrip(s) == s
  {
  }

  lemma TokenFacts(item: Item)
    requires item.Valid()
    ensures ',' !in item.Text() && Stripped(item.token) && IsAscii(item.token)
  {
    NoCommas(item.before);
    NoCommas(item.after);
    if item.token != "" { TokenIsPlain(item.token); }
  }

  lemma NoCommas(blanks: Bytes)
    requires Blanks(blanks)
    ensures ',' !in blanks
  {
  }

  lemma TokenIsPlain(t: Bytes)
    requires IsToken(t)
    ensures ',' !in t && Stripped(t) && IsAscii(t)
  {
    hide IsTokenChar;
    forall i | 0 <= i < |t| ensures t[i] != ',' && !Blank(t[i]) && t[i] < 128 as char { TokenCharIsPlain(t[i]); }
  }

  lemma {:induction false} TextAt(items: seq<Item>, i: nat)
    requires i < |items|
    ensures |Texts(items)| == |items| && Texts(items)[i] == items[i].Text()
  {
    if i > 0 { TextAt(items[1..], i - 1); } else if |items| > 1 { TextAt(items[1..], 0); }
  }

  lemma ItemBack(item: Item)
    requires item.Valid()
    ensures Strip(item.Text()) == item.token && IsAscii(item.token)
  {
    hide Strip;
    TokenFacts(item);
    StripItem(item.before, item.token, item.after);
  }

  lemma ListParts(items: seq<Item>)
    requires items != [] && forall i :: 0 <= i < |items| ==> items[i].Valid()
    ensures Texts(items) != [] && var parts := Split(Join(Texts(items), ','), ',');
      |parts| == |items| &&
      forall i :: 0 <= i < |items| ==> Strip(parts[i]) == items[i].token && IsAscii(items[i].token)
  {
    hide Split, Join, Strip, IsAscii;
    forall i | 0 <= i < |items|
      ensures |Texts(items)| == |items| && ',' !in Texts(items)[i]
      ensures Strip(Texts(items)[i]) == items[i].token && IsAscii(items[i].token)
    {
      TextAt(items, i);
      TokenFacts(items[i]);
      ItemBack(items[i]);
    }
    SplitJoined(Texts(items), ',');
  }

  /** A name is found in a list exactly if it is one of the elements, in any case and with any blanks
      around it. */
  lemma ListTokenIff(items: seq<Item>, name: Bytes)
    requires items != [] && (forall i :: 0 <= i < |items| ==> items[i].Valid()) && name != ""
    ensures HasListToken(Join(Texts(items), ','), name) <==>
      exists i :: 0 <= i < |items| && Lower(items[i].token) == name
  {
    hide Split, Join, Strip, Lower, IsAscii, Item.Valid, Texts;
    ListParts(items);
    var parts := Split(Join(Texts(items), ','), ',');
    NothingLowered();
    FoundInParts(items, parts, name);
  }

  lemma FoundInParts(items: seq<Item>, parts: seq<Bytes>, name: Bytes)
    requires |parts| == |items| && name != "" && Lower("") == ""
    requires forall i :: 0 <= i < |items| ==> Strip(parts[i]) == items[i].token && IsAscii(items[i].token)
    ensures (exists p :: p in parts && Strip(p) != "" && IsAscii(Strip(p)) && Lower(Strip(p)) == name) <==>
      exists i :: 0 <= i < |items| && Lower(items[i].token) == name
  {
    hide Strip, Lower, IsAscii;
    if i :| 0 <= i < |items| && Lower(items[i].token) == name {
      assert parts[i] in parts && Lower(Strip(parts[i])) == name;
    }
  }

  lemma {:induction false} CountChunkedIff(parts: seq<Bytes>)
    ensures CountChunked(parts) == 0 <==> forall i :: 0 <= i < |parts| ==> !IsChunkedToken(parts[i])
  {
    hide IsChunkedToken;
    if parts != [] {
      CountChunkedIff(parts[1..]);
      assert forall i :: 0 < i < |parts| ==> parts[i] == parts[1..][i - 1];
    }
  }

  lemma {:induction false} CountSnoc(parts: seq<Bytes>, last: Bytes)
    ensures CountChunked(parts + [last]) == CountChunked(parts) + if IsChunkedToken(last) then 1 else 0
  {
    hide IsChunkedToken;
    if parts == [] {
      assert [] + [last] == [last] && [last][1..] == [];
    } else {
      assert (parts + [last])[1..] == parts[1..] + [last];
      CountSnoc(parts[1..], last);
    }
  }

  /** The coding is accepted exactly if its last element is `chunked` and no other one is. */
  lemma ChunkedIff(items: seq<Item>)
    requires items != [] && forall i :: 0 <= i < |items| ==> items[i].Valid()
    ensures ChunkedOnceAndLast(Join(Texts(items), ',')) <==>
      Lower(items[|items| - 1].token) == "chunked" &&
      forall i :: 0 <= i < |items| - 1 ==> Lower(items[i].token) != "chunked"
  {
    hide Split, Join, Strip, IsChunkedToken, Item.Valid, Texts, CountChunked, Lower, IsAscii;
    ListParts(items);
    ChunkedInParts(items, Split(Join(Texts(items), ','), ','));
  }

  lemma ChunkedInParts(items: seq<Item>, parts: seq<Bytes>)
    requires |parts| == |items| && items != []
    requires forall i :: 0 <= i < |items| ==> Strip(parts[i]) == items[i].token && IsAscii(items[i].token)
    ensures CountChunked(parts) <= 1 && IsChunkedToken(parts[|parts| - 1]) <==>
      Lower(items[|items| - 1].token) == "chunked" &&
      forall i :: 0 <= i < |items| - 1 ==> Lower(items[i].token) != "chunked"
  {
    hide Strip, IsChunkedToken, CountChunked, Lower, IsAscii;
    var front, last := parts[..|parts| - 1], parts[|parts| - 1];
    assert parts == front + [last];
    CountSnoc(front, last);
    CountChunkedIff(front);
    forall i | 0 <= i < |items| ensures IsChunkedToken(parts[i]) <==> Lower(items[i].token) == "chunked" {
      ChunkedPart(parts[i], items[i].token);
    }
    assert forall i :: 0 <= i < |front| ==> front[i] == parts[i];
  }

  lemma ChunkedPart(part: Bytes, token: Bytes)
    requires Strip(part) == token && IsAscii(token)
    ensures IsChunkedToken(part) <==> Lower(token) == "chunked"
  {
  }
}

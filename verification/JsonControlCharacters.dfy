/**
 How control characters get into a parsed tree: only through `\u` escapes.
 */
module JsonControlCharacters {
  import opened Basics
  import opened CStrings
  import opened JsonStrings
  import opened JsonValues
  import opened JsonSerializer
  import opened JsonParser
  import opened JsonLayout
  import opened JsonRoundTrip

  /** Nowhere in the text a backslash stands in front of a `u`. */
  predicate NoUnicodeEscape(s: string) {
    forall i | 0 <= i < |s| - 1 :: s[i] == '\\' ==> s[i + 1] != 'u'
  }

  lemma PartHasNone(s: string, a: nat, b: nat)
    requires NoUnicodeEscape(s) && a <= b <= |s|
    ensures NoUnicodeEscape(s[a..b])
  {
    var part := s[a..b];
    assert forall i | 0 <= i < |part| :: part[i] == s[a + i];
  }

  /** A character or a short escape gives a character that has an escape or needs none. */
  lemma PieceClean(c: string)
    requires c != "" && NoUnicodeEscape(c) && FirstPiece(c).Some?
    ensures Clean(FirstPiece(c).value.bytes)
  {
    if c[0] == '\\' {
      assert At(c, 1) != 'u';
    }
  }

  lemma {:induction false} UnescapeClean(c: string)
    requires NoUnicodeEscape(c) && Unescape(c).Some?
    ensures Clean(Unescape(c).value)
    decreases |c|
  {
    hide FirstPiece, Clean;
    if c == "" {
      NothingClean();
    } else {
      var piece := FirstPiece(c).value;
      PieceClean(c);
      PartHasNone(c, piece.used, |c|);
      assert c[piece.used..|c|] == c[piece.used..];
      UnescapeClean(c[piece.used..]);
      CleanJoins(piece.bytes, Unescape(c[piece.used..]).value);
    }
  }

  lemma NothingClean()
    ensures Clean("")
  {
  }

  lemma PrefixClean(t: string, u: string)
    requires t <= u && Clean(u)
    ensures Clean(t)
  {
    CleanJoins(t, u[|t|..]);
    assert t + u[|t|..] == u;
  }

  lemma QuotedClean(s: string, p: nat)
    requires p < |s| && NoUnicodeEscape(s) && QuotedAt(s, p).Ok?
    ensures Clean(QuotedAt(s, p).value)
  {
    hide CloseQuote, Unescape, CStr, NoUnicodeEscape, Clean;
    var q := CloseQuote(s, p + 1);
    PartHasNone(s, p + 1, q);
    UnescapeClean(s[p + 1..q]);
    PrefixClean(CStr(Unescape(s[p + 1..q]).value), Unescape(s[p + 1..q]).value);
  }

  lemma KeyClean(s: string, p: nat)
    requires p < |s| && NoUnicodeEscape(s) && KeyAt(s, p).Ok?
    ensures Clean(KeyAt(s, p).value)
  {
    hide QuotedAt, Clean, NoUnicodeEscape;
    QuotedClean(s, p);
  }

  lemma {:induction false} ValueClean(s: string, p: nat, d: nat)
    requires p <= |s| && NoUnicodeEscape(s) && ValueAt(s, p, d).Ok?
    ensures CleanStrings(ValueAt(s, p, d).value)
    decreases |s| - p, 3
  {
    hide ArrayAt, ObjectAt, QuotedAt, DigitsEnd, Clean, NoUnicodeEscape;
    var q := SkipSpaces(s, p);
    if At(s, q) == '{' {
      ObjectClean(s, q, d + 1);
    } else if At(s, q) == '[' {
      ArrayClean(s, q, d + 1);
    } else if At(s, q) == '"' {
      QuotedClean(s, q);
    }
  }

  lemma {:induction false} ArrayClean(s: string, p: nat, d: nat)
    requires p < |s| && NoUnicodeEscape(s) && ArrayAt(s, p, d).Ok?
    ensures CleanStrings(ArrayAt(s, p, d).value)
    decreases |s| - p, 2
  {
    hide ItemsAt, NoUnicodeEscape;
    var q := SkipSpaces(s, p + 1);
    if At(s, q) != ']' {
      ItemsClean(s, q, [], 0, d);
    }
  }

  lemma {:induction false} ItemsClean(s: string, p: nat, items: seq<Value>, cap: nat, d: nat)
    requires p <= |s| && NoUnicodeEscape(s) && ItemsAt(s, p, items, cap, d).Ok?
    requires forall i | 0 <= i < |items| :: CleanStrings(items[i])
    ensures CleanStrings(ItemsAt(s, p, items, cap, d).value)
    decreases |s| - p, 5
  {
    hide ValueAt, SkipSpaces, NoUnicodeEscape;
    ValueClean(s, p, d);
    match ItemRound(s, p, items, cap, d)
    case More(q, items', cap') => ItemsClean(s, q, items', cap', d);
    case Done(q, items', _) =>
  }

  lemma {:induction false} ObjectClean(s: string, p: nat, d: nat)
    requires p < |s| && NoUnicodeEscape(s) && ObjectAt(s, p, d).Ok?
    ensures CleanStrings(ObjectAt(s, p, d).value)
    decreases |s| - p, 2
  {
    hide MembersAt, NoUnicodeEscape;
    var q := SkipSpaces(s, p + 1);
    if At(s, q) != '}' {
      MembersClean(s, q, [], 0, d);
    }
  }

  lemma {:induction false} MembersClean(s: string, p: nat, ms: seq<Member>, cap: nat, d: nat)
    requires p <= |s| && NoUnicodeEscape(s) && MembersAt(s, p, ms, cap, d).Ok?
    requires forall i | 0 <= i < |ms| :: Clean(ms[i].name) && CleanStrings(ms[i].value)
    ensures CleanStrings(MembersAt(s, p, ms, cap, d).value)
    decreases |s| - p, 5
  {
    hide ValueAt, SkipSpaces, KeyAt, NoUnicodeEscape, Clean;
    var key := KeyAt(s, p);
    KeyClean(s, p);
    ValueClean(s, key.pos, d);
    match MemberRound(s, p, ms, cap, d)
    case More(q, ms', cap') => MembersClean(s, q, ms', cap', d);
    case Done(q, ms', _) =>
  }

  /** A text without `\u` parses to a tree that prints to a text that parses to the same tree. */
  lemma PlainTextReparses(s: string)
    requires ParseString(s).Ok? && NoUnicodeEscape(s)
    ensures var v := ParseString(s).value;
            CleanStrings(v) && ParseString(Text(v)) == Ok(v, |Text(v)|)
  {
    hide ValueAt, NoUnicodeEscape;
    ValueClean(s, SkipSpaces(s, 0), 0);
    Reparse(s);
  }

  /** An array of one string, from its quoted stretch on. */
  ghost predicate OneString(s: string, e: string, u: string) {
    s == "[\"" + e + "\"]" && CloseQuote(s, 2) == |e| + 2 && Unescape(e) == Some(u)
  }

  lemma OneStringQuoted(s: string, e: string, u: string)
    requires OneString(s, e, u)
    ensures |s| == |e| + 4 && At(s, 0) == '[' && At(s, 1) == '"' && At(s, |e| + 3) == ']'
    ensures QuotedAt(s, 1) == Ok(CStr(u), |e| + 3)
  {
    hide CloseQuote, Unescape, CStr;
    assert s[2..|e| + 2] == e;
    assert s[|e| + 2..] == "\"]";
    assert s[|e| + 2] == s[|e| + 2..][0] && s[|e| + 3] == s[|e| + 2..][1];
  }

  lemma NoSpaces(s: string, p: nat)
    requires p <= |s| && !IsSpace(At(s, p))
    ensures SkipSpaces(s, p) == p
  {
  }

  lemma OneStringItem(s: string, e: string, u: string)
    requires OneString(s, e, u)
    ensures ItemRound(s, 1, [], 0, 1) == Done(|e| + 3, [String(CStr(u))], STARTING_CAPACITY)
  {
    hide OneString, QuotedAt, CStr, SkipSpaces;
    OneStringQuoted(s, e, u);
    NoSpaces(s, 1);
    NoSpaces(s, |e| + 3);
    assert ValueAt(s, 1, 1) == Ok(String(CStr(u)), |e| + 3) by {
      hide Separator;
    }
  }

  lemma OneStringParses(s: string, e: string, u: string)
    requires OneString(s, e, u)
    ensures ParseString(s) == Ok(Array([String(CStr(u))], 1), |s|)
  {
    hide OneString, QuotedAt, CStr, SkipSpaces, ItemRound;
    OneStringQuoted(s, e, u);
    OneStringItem(s, e, u);
    NoSpaces(s, 0);
    NoSpaces(s, 1);
    assert ItemsAt(s, 1, [], 0, 1) == Ok(Array([String(CStr(u))], 1), |s|);
    assert ArrayAt(s, 0, 1) == ItemsAt(s, 1, [], 0, 1) by {
      hide ItemsAt;
    }
    assert ValueAt(s, 0, 0) == ArrayAt(s, 0, 1) by {
      hide ArrayAt;
    }
  }

  lemma OneUnescapes(c: string)
    requires c == "\\u0001"
    ensures Unescape(c) == Some([1 as char])
  {
    hide Unescape;
    assert c[6..] == "";
    assert HexAt(c, 2) == Some(1);
    assert FirstPiece(c) == Some(Piece([1 as char], 6));
    UnescapeStep(c);
    NothingUnescapes();
    assert [1 as char] + "" == [1 as char];
  }

  /** A text with `\u` whose tree does not come back from its print. */
  lemma ControlCharacterParses()
    ensures var s := "[\"\\u0001\"]";
            && ParseString(s) == Ok(Array([String([1 as char])], 1), |s|)
            && ParseString(Text(ParseString(s).value)) == Fail
  {
    hide CloseQuote, Unescape, ValueAt, Text;
    var s, e, u := "[\"\\u0001\"]", "\\u0001", [1 as char];
    assert HexAt(s, 4) == Some(1);
    assert s == "[\"" + e + "\"]";
    OneUnescapes(e);
    ScanOfEscape(s, 2);
    OneStringParses(s, e, u);
    Reparse(s);
    assert !Clean(u) by {
      assert u[0] == 1 as char;
    }
  }

  lemma NothingUnescapes()
    ensures Unescape("") == Some("")
  {
  }

  lemma ScanOfEscape(s: string, p: nat)
    requires p + 6 < |s| && s[p] == '\\' && s[p + 1] == 'u' && HexAt(s, p + 2).Some? && s[p + 6] == '"'
    ensures CloseQuote(s, p) == p + 6
  {
    hide HexAt;
    ScanPassesHex(s, p + 2);
    assert CloseQuote(s, p) == CloseQuote(s, p + 2);
  }
}

/**
 The escape `\u0000` in a string.  The library keeps strings as C strings, so
 such an escape cuts a string short, and nothing else does.
 */
module JsonTerminators {
  import opened Basics
  import opened CStrings
  import opened Utf8
  import opened JsonStrings
  import opened JsonParser

  /** The escape `\u0000` at the front. */
  predicate ZeroAtFront(c: string) {
    At(c, 0) == '\\' && At(c, 1) == 'u' && At(c, 2) == '0' && At(c, 3) == '0' && At(c, 4) == '0' && At(c, 5) == '0'
  }

  /** Whether the escape `\u0000` is somewhere, going from escape to escape. */
  predicate ZeroEscape(c: string) {
    if c == "" then false
    else if c[0] != '\\' then ZeroEscape(c[1..])
    else ZeroAtFront(c) || (|c| > 1 && ZeroEscape(c[2..]))
  }

  // ------------------------------------------------------------ the cut and the scan

  /** Characters other than a backslash are passed one by one. */
  lemma {:induction false} ScanPasses(c: string, k: nat)
    requires k <= |c| && forall i | 0 <= i < k :: c[i] != '\\'
    ensures ZeroEscape(c) == ZeroEscape(c[k..])
    decreases k
  {
    if k > 0 {
      ScanPasses(c[1..], k - 1);
      assert c[1..][k - 1..] == c[k..];
    } else {
      assert c[0..] == c;
    }
  }

  lemma HexIsNoBackslash(c: string, i: nat)
    requires HexAt(c, i).Some?
    ensures i + 4 <= |c| && forall j | i <= j < i + 4 :: c[j] != '\\'
  {
  }

  lemma ZeroDigits(c: string)
    requires HexAt(c, 2).Some?
    ensures HexAt(c, 2) == Some(0) <==> At(c, 2) == '0' && At(c, 3) == '0' && At(c, 4) == '0' && At(c, 5) == '0'
  {
    DigitIsZero(At(c, 2) as int);
    DigitIsZero(At(c, 3) as int);
    DigitIsZero(At(c, 4) as int);
    DigitIsZero(At(c, 5) as int);
    hide HexDigit;
  }

  lemma DigitIsZero(x: int)
    ensures HexDigit(x) == Some(0) <==> x == '0' as int
  {
  }

  /** A `\u` escape or pair of them: it is read as zero exactly when it is spelled so, and the scan passes it. */
  lemma EscapePassed(c: string)
    requires At(c, 0) == '\\' && At(c, 1) == 'u' && UnicodeEscape(c).Some?
    ensures var u := UnicodeEscape(c).value;
            && (u.cp == 0 <==> ZeroAtFront(c))
            && (u.cp != 0 ==> ZeroEscape(c) == ZeroEscape(c[u.used..]))
  {
    hide HexAt;
    HexIsNoBackslash(c, 2);
    ZeroDigits(c);
    var u := UnicodeEscape(c).value;
    assert c[2..][4..] == c[6..];
    ScanPasses(c[2..], 4);
    if u.used == 12 {
      HexIsNoBackslash(c, 8);
      assert c[6..][2..] == c[8..] && c[8..][4..] == c[12..];
      ScanPasses(c[8..], 4);
      PairIsNotZero(c);
    }
  }

  /** The second half of a pair is not `\u0000`. */
  lemma PairIsNotZero(c: string)
    requires |c| >= 12 && HexAt(c, 8).Some? && HexAt(c, 8).value != 0
    ensures !ZeroAtFront(c[6..])
  {
    assert forall i: nat | i < 6 :: At(c[6..], i) == At(c, i + 6);
    assert HexAt(c[6..], 2) == HexAt(c, 8);
    if ZeroAtFront(c[6..]) {
      ZeroDigits(c[6..]);
    }
  }

  lemma EncodedZero(cp: nat)
    requires IsScalarValue(cp)
    ensures NulFree(Encode(cp)) <==> cp != 0
    ensures cp == 0 ==> Encode(cp) == "\0"
  {
    var t := Encode(cp);
    if cp == 0 {
      assert t[0] == '\0';
    } else if cp < 0x80 {
      assert t == [cp as char];
    } else {
      assert forall i | 0 <= i < |t| :: t[i] as int >= 0x80;
    }
  }

  /** One piece holds the terminator exactly when it is that escape; else the scan passes it. */
  lemma PieceZero(c: string)
    requires c != "" && NulFree(c) && FirstPiece(c).Some?
    ensures var piece := FirstPiece(c).value;
            && (NulFree(piece.bytes) <==> !ZeroAtFront(c))
            && (!ZeroAtFront(c) ==> ZeroEscape(c) == ZeroEscape(c[piece.used..]))
            && (ZeroAtFront(c) ==> piece.bytes == "\0")
  {
    hide UnicodeEscape, Encode;
    if c[0] == '\\' && At(c, 1) == 'u' {
      EscapePassed(c);
      EncodedZero(UnicodeEscape(c).value.cp);
    }
  }

  lemma NulFreeJoins(a: string, b: string)
    ensures NulFree(a + b) <==> NulFree(a) && NulFree(b)
  {
    assert NulFree(a + b) ==> forall i | 0 <= i < |a| :: a[i] == (a + b)[i];
    assert NulFree(a + b) ==> forall i | 0 <= i < |b| :: b[i] == (a + b)[|a| + i];
  }

  lemma {:induction false} HoldsTerminator(c: string)
    requires NulFree(c) && Unescape(c).Some?
    ensures NulFree(Unescape(c).value) <==> !ZeroEscape(c)
    decreases |c|
  {
    hide FirstPiece, ZeroAtFront, NulFree;
    if c == "" {
      assert NulFree("") by { NothingIsNulFree(); }
    } else {
      var piece := FirstPiece(c).value;
      var rest := c[piece.used..];
      PieceZero(c);
      assert c == c[..piece.used] + rest;
      NulFreeJoins(c[..piece.used], rest);
      NulFreeJoins(piece.bytes, Unescape(rest).value);
      if !ZeroAtFront(c) {
        HoldsTerminator(rest);
      } else {
        assert c[0] == '\\' by { FrontIsBackslash(c); }
      }
    }
  }

  lemma FrontIsBackslash(c: string)
    requires c != "" && ZeroAtFront(c)
    ensures c[0] == '\\'
  {
  }

  lemma NothingIsNulFree()
    ensures NulFree("")
  {
  }

  /**
   The exact condition: the C string kept is the whole of what was read if and
   only if no `\u0000` is among the escapes.
   */
  lemma CutExactly(c: string)
    requires NulFree(c) && Unescape(c).Some?
    ensures CStr(Unescape(c).value) == Unescape(c).value <==> !ZeroEscape(c)
  {
    hide Unescape, ZeroEscape;
    HoldsTerminator(c);
  }

  // ------------------------------------------------------------------- in the parser

  lemma {:induction false} BeforeQuote(s: string, p: nat)
    requires p <= |s| && At(s, CloseQuote(s, p)) == '"'
    ensures forall i | p <= i < CloseQuote(s, p) :: s[i] != '\0'
    decreases |s| - p
  {
    if s[p] == '\\' {
      BeforeQuote(s, p + 2);
    } else if s[p] != '"' {
      BeforeQuote(s, p + 1);
    }
  }

  /** The characters between two quotes. */
  function Between(s: string, p: nat): string
    requires p < |s|
  {
    s[p + 1..CloseQuote(s, p + 1)]
  }

  lemma BetweenQuotes(s: string, p: nat)
    requires p < |s| && QuotedAt(s, p).Ok?
    ensures NulFree(Between(s, p)) && Unescape(Between(s, p)).Some?
    ensures QuotedAt(s, p).value == CStr(Unescape(Between(s, p)).value)
  {
    hide CloseQuote, Unescape, CStr;
    BeforeQuote(s, p + 1);
  }

  /** A string or name the parser returns is all of what was written if and only if no `\u0000` is among its escapes. */
  lemma QuotedExactly(s: string, p: nat)
    requires p < |s| && QuotedAt(s, p).Ok?
    ensures Unescape(Between(s, p)).Some?
    ensures QuotedAt(s, p).value == Unescape(Between(s, p)).value <==> !ZeroEscape(Between(s, p))
  {
    hide QuotedAt, Between, Unescape, ZeroEscape, CStr, NulFree;
    BetweenQuotes(s, p);
    CutExactly(Between(s, p));
  }

  // ---------------------------------------------------------------- in code points

  /** The code points before the first zero. */
  function BeforeZero(ps: seq<nat>): seq<nat> {
    if ps == [] || ps[0] == 0 then [] else [ps[0]] + BeforeZero(ps[1..])
  }

  /** Cutting valid UTF-8 at the terminator cuts its code points at the first zero. */
  lemma {:induction false} CStrDecodes(o: string)
    requires ValidUtf8(o)
    ensures Decode(CStr(o)) == Some(BeforeZero(Decode(o).value))
    decreases |o|
  {
    hide FirstScalar, Encode, NulFree;
    if o != "" {
      var Scalar(cp, len) := FirstScalar(o);
      var rest := o[len..];
      FirstScalarIsEncoded(o);
      assert o == Encode(cp) + rest;
      EncodedZero(cp);
      CStrDecodes(rest);
      assert Decode(o).value == [cp] + Decode(rest).value;
      if cp == 0 {
        assert o[0] == "\0"[0];
      } else {
        CStrOfPrefix(Encode(cp), rest);
        EncodeIsRead(cp, CStr(rest));
      }
    }
  }

  lemma DecodeInjective(a: string, b: string)
    requires ValidUtf8(a) && Decode(a) == Decode(b)
    ensures a == b
  {
    hide Decode, EncodeAll, AllScalar;
    DecodeInverse(a, Decode(a).value);
    DecodeInverse(b, Decode(a).value);
  }

  /**
   What a string or name means, by RFC 8259, section 7, and what the parser
   keeps of it: the code points before the first zero, which are all of them
   if and only if no `\u0000` is among the escapes.
   */
  lemma QuotedMeaning(s: string, p: nat)
    requires p < |s| && QuotedAt(s, p).Ok? && ValidUtf8(Between(s, p))
    ensures var meaning, kept := UnescapePoints(Decode(Between(s, p)).value), Decode(QuotedAt(s, p).value);
            && meaning.Some? && kept == Some(BeforeZero(meaning.value))
            && (kept == meaning <==> !ZeroEscape(Between(s, p)))
  {
    hide QuotedAt, Between, Unescape, UnescapePoints, Decode, ZeroEscape, CStr, BeforeZero, NulFree;
    var c := Between(s, p);
    BetweenQuotes(s, p);
    QuotedExactly(s, p);
    UnescapeMeaning(c);
    var o := Unescape(c).value;
    CStrDecodes(o);
    if Decode(CStr(o)) == Decode(o) {
      DecodeInjective(o, CStr(o));
    }
  }

  // ------------------------------------------------------------- what is behind it

  /** A text that is read to its end is read the same in front of more text. */
  lemma {:induction false} ReadInFront(a: string, rest: string)
    requires Unescape(a).Some?
    ensures Unescape(a + rest) == Prepend(Unescape(a).value, Unescape(rest))
    decreases |a|
  {
    hide FirstPiece;
    if a == "" {
      assert a + rest == rest;
      PrependNothing(Unescape(rest));
    } else {
      PieceInFront(a, rest);
      var piece := FirstPiece(a).value;
      assert (a + rest)[piece.used..] == a[piece.used..] + rest;
      ReadInFront(a[piece.used..], rest);
      PrependTwice(piece.bytes, Unescape(a[piece.used..]).value, Unescape(rest));
    }
  }

  lemma PieceInFront(a: string, rest: string)
    requires a != "" && FirstPiece(a).Some?
    ensures FirstPiece(a + rest) == FirstPiece(a)
  {
    hide Encode, HexDigit, SimpleEscape;
    var c := a + rest;
    assert forall i: nat | i < |a| :: At(c, i) == At(a, i);
    if a[0] == '\\' && At(a, 1) == 'u' {
      var used := UnicodeEscape(a).value.used;
      assert HexAt(c, 2) == HexAt(a, 2);
      if used == 12 {
        assert HexAt(c, 8) == HexAt(a, 8);
      }
    }
  }

  lemma PrependTwice(a: string, b: string, r: Option<string>)
    ensures Prepend(a, Prepend(b, r)) == Prepend(a + b, r)
  {
    if r.Some? {
      assert a + (b + r.value) == a + b + r.value;
    }
  }

  lemma ZeroIsRead(b: string)
    ensures Unescape("\\u0000" + b) == Prepend("\0", Unescape(b))
  {
    hide Unescape, UnicodeEscape;
    var c := "\\u0000" + b;
    assert c[6..] == b;
    ZeroIsUnit(c);
    EncodedZero(0);
    UnescapeStep(c);
  }

  lemma ZeroIsUnit(c: string)
    requires |c| >= 6 && ZeroAtFront(c)
    ensures UnicodeEscape(c) == Some(Unit(0, 6))
  {
    ZeroDigits(c);
  }

  /** Whatever is written in front of a `\u0000` and behind it, what is behind it is lost. */
  lemma TerminatorCuts(a: string, b: string)
    requires Unescape(a).Some? && Unescape(b).Some?
    ensures var r := Unescape(a + ("\\u0000" + b));
            r.Some? && CStr(r.value) == CStr(Unescape(a).value)
  {
    hide Unescape, CStr;
    ReadInFront(a, "\\u0000" + b);
    ZeroIsRead(b);
    CutAtTerminator(Unescape(a).value, Unescape(b).value);
  }

  lemma {:induction false} CutAtTerminator(t: string, u: string)
    ensures CStr(t + ("\0" + u)) == CStr(t)
    decreases |t|
  {
    if t == "" {
      assert t + ("\0" + u) == "\0" + u;
    } else {
      CutAtTerminator(t[1..], u);
      assert (t + ("\0" + u))[1..] == t[1..] + ("\0" + u);
    }
  }
}

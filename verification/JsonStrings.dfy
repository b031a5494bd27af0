/**
 JSON strings: finding the closing quote, undoing escapes, and writing
 escapes (RFC 8259, section 7).
 */
module JsonStrings {
  import opened Basics
  import opened CStrings
  import opened Utf8

  // ---------------------------------------------------------------- scanning

  /** Where the scan of skip_quotes stops: at the closing quote, or at the end of the text. */
  function CloseQuote(s: string, p: nat): (q: nat)
    requires p <= |s|
    ensures p <= q <= |s|
    ensures At(s, q) == '"' || At(s, q) == '\0'
    decreases |s| - p
  {
    var c := At(s, p);
    if c == '"' || c == '\0' then p
    else if c == '\\' then
      if At(s, p + 1) == '\0' then p + 1 else CloseQuote(s, p + 2)
    else CloseQuote(s, p + 1)
  }

  /** skip_quotes: moves past the closing quote, or stops at the end of the text. */
  method SkipQuotes(s: string, start: nat) returns (p: nat)
    requires start < |s|
    ensures var q := CloseQuote(s, start + 1); p == if At(s, q) == '"' then q + 1 else q
  {
    p := start + 1;
    while At(s, p) != '"'
      invariant start + 1 <= p <= |s|
      invariant CloseQuote(s, p) == CloseQuote(s, start + 1)
      decreases |s| - p
    {
      if At(s, p) == '\0' {
        return;
      }
      if At(s, p) == '\\' {
        p := p + 1;
        if At(s, p) == '\0' {
          return;
        }
      }
      p := p + 1;
    }
    p := p + 1;
  }

  // -------------------------------------------------------------- unescaping

  function HexDigit(x: int): (r: Option<nat>)
    ensures r.Some? ==> r.value < 16
  {
    if '0' as int <= x <= '9' as int then Some(x - '0' as int)
    else if 'A' as int <= x <= 'F' as int then Some(x - 'A' as int + 10)
    else if 'a' as int <= x <= 'f' as int then Some(x - 'a' as int + 10)
    else None
  }

  /** The number four hexadecimal digits spell. */
  function Hex4(a: int, b: int, c: int, d: int): (r: Option<nat>)
    ensures r.Some? ==> r.value < 0x10000
  {
    hide HexDigit;
    if HexDigit(a).Some? && HexDigit(b).Some? && HexDigit(c).Some? && HexDigit(d).Some? then
      Some(((HexDigit(a).value * 16 + HexDigit(b).value) * 16 + HexDigit(c).value) * 16 + HexDigit(d).value)
    else None
  }

  function HexAt(c: string, i: nat): Option<nat> {
    Hex4(At(c, i) as int, At(c, i + 1) as int, At(c, i + 2) as int, At(c, i + 3) as int)
  }

  /** What a character after a backslash stands for, except for `u`. */
  function SimpleEscape(x: int): Option<char> {
    if x == '"' as int then Some('"')
    else if x == '\\' as int then Some('\\')
    else if x == '/' as int then Some('/')
    else if x == 'b' as int then Some(8 as char)
    else if x == 'f' as int then Some(12 as char)
    else if x == 'n' as int then Some('\n')
    else if x == 'r' as int then Some('\r')
    else if x == 't' as int then Some('\t')
    else None
  }

  datatype Unit = Unit(cp: nat, used: nat)

  function Surrogates(lead: nat, trail: nat): nat
    requires 0xD800 <= lead <= 0xDBFF && 0xDC00 <= trail <= 0xDFFF
  {
    (lead - 0xD800) * 0x400 + (trail - 0xDC00) + 0x10000
  }

  /** The code point of a `\u` escape or surrogate pair at the front of `c`, and its length. */
  function UnicodeEscape(c: string): (r: Option<Unit>)
    requires At(c, 0) == '\\' && At(c, 1) == 'u'
    ensures r.Some? ==> IsScalarValue(r.value.cp) && 6 <= r.value.used <= |c|
    ensures r.Some? ==> |Encode(r.value.cp)| <= r.value.used
  {
    match HexAt(c, 2)
    case None => None
    case Some(cp) =>
      if cp < 0xD800 || cp > 0xDFFF then Some(Unit(cp, 6))
      else if cp <= 0xDBFF && At(c, 6) == '\\' && At(c, 7) == 'u' && HexAt(c, 8).Some?
              && 0xDC00 <= HexAt(c, 8).value <= 0xDFFF then
        Some(Unit(Surrogates(cp, HexAt(c, 8).value), 12))
      else None
  }

  datatype Piece = Piece(bytes: string, used: nat)

  /** What process_string writes for the character or escape at the front of `c`, and how much it reads. */
  function FirstPiece(c: string): (r: Option<Piece>)
    requires c != ""
    ensures r.Some? ==> 1 <= |r.value.bytes| <= r.value.used <= |c|
  {
    if c[0] == '\\' then
      if At(c, 1) == 'u' then
        match UnicodeEscape(c)
        case None => None
        case Some(u) => Some(Piece(Encode(u.cp), u.used))
      else if SimpleEscape(At(c, 1) as int).Some? then
        Some(Piece([SimpleEscape(At(c, 1) as int).value], 2))
      else None
    else if c[0] < ' ' then None
    else Some(Piece([c[0]], 1))
  }

  /** process_string on the characters between two quotes. */
  function Unescape(c: string): (r: Option<string>)
    ensures r.Some? ==> |r.value| <= |c|
  {
    if c == "" then Some("")
    else
      match FirstPiece(c)
      case None => None
      case Some(piece) => Prepend(piece.bytes, Unescape(c[piece.used..]))
  }

  function Prepend(t: string, r: Option<string>): Option<string> {
    match r
    case None => None
    case Some(u) => Some(t + u)
  }

  lemma UnescapeStep(c: string)
    requires c != "" && FirstPiece(c).Some?
    ensures Unescape(c) == Prepend(FirstPiece(c).value.bytes, Unescape(c[FirstPiece(c).value.used..]))
  {
    hide FirstPiece;
  }

  // ---------------------------------------------- the meaning of an escaped text

  function PointAt(ps: seq<nat>, i: nat): nat {
    if i < |ps| then ps[i] else 0
  }

  function HexPoints(ps: seq<nat>, i: nat): Option<nat> {
    Hex4(PointAt(ps, i), PointAt(ps, i + 1), PointAt(ps, i + 2), PointAt(ps, i + 3))
  }

  /**
   The reference: RFC 8259, section 7, read over code points instead of bytes.
   Each escape, and each surrogate pair of escapes, denotes one code point.
   */
  function UnescapePoints(ps: seq<nat>): Option<seq<nat>>
  {
    if ps == [] then Some([])
    else if ps[0] == '\\' as int then
      if PointAt(ps, 1) == 'u' as int then
        match HexPoints(ps, 2)
        case None => None
        case Some(cp) =>
          if (cp < 0xD800 || cp > 0xDFFF) && |ps| >= 6 then PrependPoint(cp, UnescapePoints(ps[6..]))
          else if 0xD800 <= cp <= 0xDBFF && PointAt(ps, 6) == '\\' as int && PointAt(ps, 7) == 'u' as int
                  && HexPoints(ps, 8).Some? && 0xDC00 <= HexPoints(ps, 8).value <= 0xDFFF && |ps| >= 12 then
            PrependPoint(Surrogates(cp, HexPoints(ps, 8).value), UnescapePoints(ps[12..]))
          else None
      else if SimpleEscape(PointAt(ps, 1)).Some? && |ps| >= 2 then
        PrependPoint(SimpleEscape(PointAt(ps, 1)).value as int, UnescapePoints(ps[2..]))
      else None
    else if ps[0] < 0x20 then None
    else PrependPoint(ps[0], UnescapePoints(ps[1..]))
  }

  function PrependPoint(p: nat, r: Option<seq<nat>>): Option<seq<nat>> {
    match r
    case None => None
    case Some(u) => Some([p] + u)
  }

  /** In valid UTF-8 whose first `k` bytes are ASCII, those bytes are the first `k` code points. */
  lemma {:induction false} AsciiFront(c: string, k: nat)
    requires ValidUtf8(c) && k <= |c|
    requires forall i | 0 <= i < k :: c[i] as int < 0x80
    ensures ValidUtf8(c[k..])
    ensures |Decode(c).value| == k + |Decode(c[k..]).value|
    ensures Decode(c).value[k..] == Decode(c[k..]).value
    ensures forall i | 0 <= i < k :: Decode(c).value[i] == c[i] as int
  {
    if k > 0 {
      HighBytes(c);
      AsciiFront(c[1..], k - 1);
      assert c[1..][k - 1..] == c[k..];
      var rest := Decode(c[1..]).value;
      assert Decode(c).value == [c[0] as int] + rest;
      assert Decode(c).value[k..] == rest[k - 1..];
    }
  }

  /** The next code point after an ASCII front is the next byte, or both are beyond ASCII. */
  lemma NextPoint(c: string, k: nat)
    requires ValidUtf8(c) && k <= |c|
    requires forall i | 0 <= i < k :: c[i] as int < 0x80
    ensures if At(c, k) as int < 0x80 then PointAt(Decode(c).value, k) == At(c, k) as int
            else PointAt(Decode(c).value, k) >= 0x80
    ensures |Decode(c).value| > k <==> |c| > k
  {
    AsciiFront(c, k);
    if k < |c| {
      HighBytes(c[k..]);
      assert Decode(c).value[k] == Decode(c).value[k..][0];
    } else {
      assert c[k..] == "";
    }
  }

  lemma HexIsAscii(x: int)
    ensures HexDigit(x).Some? ==> 0 < x < 0x80
    ensures SimpleEscape(x).Some? ==> 0 < x < 0x80
  {
  }

  lemma DigitAgrees(c: string, k: nat)
    requires ValidUtf8(c) && k <= |c|
    requires forall i | 0 <= i < k :: c[i] as int < 0x80
    ensures HexDigit(At(c, k) as int) == HexDigit(PointAt(Decode(c).value, k))
    ensures HexDigit(At(c, k) as int).Some? ==> k < |c| && c[k] as int < 0x80
  {
    NextPoint(c, k);
    HexIsAscii(At(c, k) as int);
    HexIsAscii(PointAt(Decode(c).value, k));
  }

  /** Four digits spell the same number read as bytes or as code points. */
  lemma HexAgrees(c: string, k: nat)
    requires ValidUtf8(c) && k <= |c|
    requires forall i | 0 <= i < k :: c[i] as int < 0x80
    ensures HexAt(c, k) == HexPoints(Decode(c).value, k)
    ensures HexAt(c, k).Some? ==> k + 4 <= |c| && forall i | 0 <= i < k + 4 :: c[i] as int < 0x80
  {
    hide HexDigit, Decode;
    DigitAgrees(c, k);
    if HexDigit(At(c, k) as int).Some? {
      DigitAgrees(c, k + 1);
      if HexDigit(At(c, k + 1) as int).Some? {
        DigitAgrees(c, k + 2);
        if HexDigit(At(c, k + 2) as int).Some? {
          DigitAgrees(c, k + 3);
        }
      }
    }
  }

  /** Unescaping commutes with decoding: both agree on the text and on failure. */
  ghost predicate Commutes(c: string)
    requires ValidUtf8(c)
  {
    match Unescape(c)
    case None => UnescapePoints(Decode(c).value) == None
    case Some(o) => ValidUtf8(o) && UnescapePoints(Decode(c).value) == Some(Decode(o).value)
  }

  /**
   Bytes that are valid UTF-8 unescape to valid UTF-8, and the result's code
   points are exactly what the escapes mean; a text is refused only when the
   reference refuses it.
   */
  lemma {:induction false} UnescapeMeaning(c: string)
    requires ValidUtf8(c)
    ensures Commutes(c)
    decreases |c|
  {
    hide UnicodeEscape, HexAt, HexPoints, HexDigit, FirstScalar;
    if c == "" {
    } else if c[0] as int >= 0x80 {
      RawSequence(c);
    } else if c[0] != '\\' {
      AsciiFront(c, 1);
      UnescapeMeaning(c[1..]);
      if Unescape(c[1..]).Some? && c[0] >= ' ' {
        AsciiJoins([c[0]], Unescape(c[1..]).value);
      }
    } else {
      NextPoint(c, 0);
      NextPoint(c, 1);
      HexIsAscii(At(c, 1) as int);
      HexIsAscii(PointAt(Decode(c).value, 1));
      if At(c, 1) == 'u' {
        EscapedCodePoint(c);
      } else if SimpleEscape(At(c, 1) as int).Some? {
        AsciiFront(c, 2);
        UnescapeMeaning(c[2..]);
        if Unescape(c[2..]).Some? {
          AsciiJoins([SimpleEscape(At(c, 1) as int).value], Unescape(c[2..]).value);
        }
      }
    }
  }

  /** One ASCII character in front of valid UTF-8. */
  lemma AsciiJoins(t: string, o: string)
    requires |t| == 1 && t[0] as int < 0x80 && ValidUtf8(o)
    ensures ValidUtf8(t + o) && Decode(t + o).value == [t[0] as int] + Decode(o).value
  {
    assert (t + o)[1..] == o;
  }

  /** A `\\u` escape at the front. */
  lemma {:induction false} EscapedCodePoint(c: string)
    requires ValidUtf8(c) && At(c, 0) == '\\' && At(c, 1) == 'u'
    ensures Commutes(c)
    decreases |c|, 0
  {
    hide Encode, HexAt, HexPoints, HexDigit, SimpleEscape, FirstScalar;
    var ps := Decode(c).value;
    AsciiFront(c, 2);
    HexAgrees(c, 2);
    if HexAt(c, 2).Some? {
      NextPoint(c, 6);
      if At(c, 6) == '\\' {
        NextPoint(c, 7);
        if At(c, 7) == 'u' {
          HexAgrees(c, 8);
        }
      }
    }
    if UnicodeEscape(c).Some? {
      var u := UnicodeEscape(c).value;
      AsciiFront(c, u.used);
      UnescapeMeaning(c[u.used..]);
      assert UnescapePoints(ps) == PrependPoint(u.cp, UnescapePoints(ps[u.used..]));
      if Unescape(c[u.used..]).Some? {
        EncodeIsRead(u.cp, Unescape(c[u.used..]).value);
      }
    }
  }

  lemma HighPiece(c: string)
    requires c != "" && c[0] as int >= 0x80
    ensures FirstPiece(c) == Some(Piece([c[0]], 1))
  {
  }

  /** Bytes beyond ASCII are copied, so a whole sequence is copied. */
  lemma {:induction false} CopiesHighBytes(c: string, n: nat)
    requires n <= |c| && forall i | 0 <= i < n :: c[i] as int >= 0x80
    ensures Unescape(c) == Prepend(c[..n], Unescape(c[n..]))
  {
    hide FirstPiece;
    if n == 0 {
      assert c[0..] == c;
      assert Unescape(c).Some? ==> c[..0] + Unescape(c).value == Unescape(c).value;
    } else {
      HighPiece(c);
      CopiesHighBytes(c[1..], n - 1);
      assert c[1..][n - 1..] == c[n..];
      if Unescape(c[n..]).Some? {
        assert [c[0]] + (c[1..][..n - 1] + Unescape(c[n..]).value) == c[..n] + Unescape(c[n..]).value;
      }
    }
  }

  lemma {:induction false} RawSequence(c: string)
    requires ValidUtf8(c) && c != "" && c[0] as int >= 0x80
    ensures Commutes(c)
    decreases |c|, 0
  {
    HighBytes(c);
    var Scalar(cp, n) := FirstScalar(c);
    CopiesHighBytes(c, n);
    UnescapeMeaning(c[n..]);
    var ps := Decode(c).value;
    assert ps[1..] == Decode(c[n..]).value;
    if Unescape(c[n..]).Some? {
      var o := Unescape(c[n..]).value;
      FirstScalarMoves(c, o);
      assert (c[..n] + o)[n..] == o;
    }
  }

  // ------------------------------------------------------ unescaping in place

  /** Cutting the text at a closing quote does not change how an escape before it reads. */
  lemma EscapeBeforeQuote(s: string, k: nat, lim: nat)
    requires k + 2 <= lim < |s| && s[lim] == '"' && s[k] == '\\' && s[k + 1] == 'u'
    ensures At(s[k..], 0) == At(s[k..lim], 0) == '\\' && At(s[k..], 1) == At(s[k..lim], 1) == 'u'
    ensures UnicodeEscape(s[k..]) == UnicodeEscape(s[k..lim])
  {
    var c, d := s[k..lim], s[k..];
    assert forall i: nat | i < |c| :: At(c, i) == At(d, i);
    assert At(c, |c|) == '\0' && At(d, |c|) == '"';
    assert HexAt(c, 2) == HexAt(d, 2);
    if HexAt(c, 2).Some? {
      assert |c| >= 6;
      if At(d, 6) == '\\' && At(d, 7) == 'u' {
        assert HexAt(c, 8) == HexAt(d, 8);
      }
    }
  }

  /** The scan for the closing quote passes over four digits. */
  lemma ScanPassesHex(s: string, p: nat)
    requires p <= |s| && HexAt(s, p).Some?
    ensures p + 4 <= |s| && CloseQuote(s, p) == CloseQuote(s, p + 4)
  {
    assert CloseQuote(s, p) == CloseQuote(s, p + 1);
    assert CloseQuote(s, p + 1) == CloseQuote(s, p + 2);
    assert CloseQuote(s, p + 2) == CloseQuote(s, p + 3);
    assert CloseQuote(s, p + 3) == CloseQuote(s, p + 4);
  }

  /** The scan for the closing quote passes over a whole escape. */
  lemma ScanPassesEscape(s: string, k: nat)
    requires k + 2 <= |s| && s[k] == '\\' && s[k + 1] == 'u'
    requires At(s[k..], 0) == '\\' && At(s[k..], 1) == 'u' && UnicodeEscape(s[k..]).Some?
    ensures k + UnicodeEscape(s[k..]).value.used <= |s|
    ensures CloseQuote(s, k) == CloseQuote(s, k + UnicodeEscape(s[k..]).value.used)
  {
    var d := s[k..];
    assert forall i: nat :: At(d, i) == At(s, k + i);
    ScanPassesHex(s, k + 2);
    if UnicodeEscape(d).value.used == 12 {
      assert CloseQuote(s, k + 6) == CloseQuote(s, k + 8);
      ScanPassesHex(s, k + 8);
    }
  }

  /** parse_utf_16: writes the code point's bytes; both pointers stop on the last character handled. */
  method ParseUtf16(s: string, unprocessed: nat, output: array<char>, processed: nat)
    returns (ok: bool, u: nat, p: nat)
    requires 1 <= unprocessed < |s| && s[unprocessed - 1] == '\\' && s[unprocessed] == 'u'
    requires At(s[unprocessed - 1..], 0) == '\\' && At(s[unprocessed - 1..], 1) == 'u'
    requires processed <= output.Length
    requires var r := UnicodeEscape(s[unprocessed - 1..]);
             r.Some? ==> processed + |Encode(r.value.cp)| <= output.Length
    modifies output
    ensures var r := UnicodeEscape(s[unprocessed - 1..]);
            && ok == r.Some?
            && (ok ==> u + 1 == unprocessed - 1 + r.value.used)
            && (ok ==> p + 1 == processed + |Encode(r.value.cp)|)
            && (ok ==> output[..p + 1] == old(output[..processed]) + Encode(r.value.cp))
  {
    ghost var d := s[unprocessed - 1..];
    assert forall i: nat :: At(d, i) == At(s, unprocessed - 1 + i);
    ok, u, p := false, unprocessed + 1, processed;
    var hex := HexAt(s, u);
    if hex.None? {
      return;
    }
    var cp := hex.value;
    if 0xD800 <= cp <= 0xDBFF {
      u := u + 4;
      if At(s, u) != '\\' || At(s, u + 1) != 'u' {
        return;
      }
      u := u + 2;
      var trail := HexAt(s, u);
      if trail.None? || trail.value < 0xDC00 || trail.value > 0xDFFF {
        return;
      }
      cp := Surrogates(cp, trail.value);
    } else if 0xDC00 <= cp <= 0xDFFF {
      return;
    }
    p := WriteCodePoint(cp, output, p);
    u := u + 3;
    ok := true;
  }

  /** The writes of parse_utf_16; the pointer stops on the last byte written. */
  method WriteCodePoint(cp: nat, output: array<char>, processed: nat) returns (p: nat)
    requires IsScalarValue(cp) && processed + |Encode(cp)| <= output.Length
    modifies output
    ensures p + 1 == processed + |Encode(cp)|
    ensures output[..p + 1] == old(output[..processed]) + Encode(cp)
  {
    p := processed;
    if cp < 0x80 {
      output[p] := cp as char;
    } else if cp < 0x800 {
      output[p] := (cp / 0x40 % 0x20 + 0xC0) as char;
      p := p + 1;
      output[p] := (cp % 0x40 + 0x80) as char;
    } else if cp < 0x10000 {
      output[p] := (cp / 0x1000 % 0x10 + 0xE0) as char;
      p := p + 1;
      output[p] := (cp / 0x40 % 0x40 + 0x80) as char;
      p := p + 1;
      output[p] := (cp % 0x40 + 0x80) as char;
    } else {
      output[p] := (cp / 0x40000 % 0x08 + 0xF0) as char;
      p := p + 1;
      output[p] := (cp / 0x1000 % 0x40 + 0x80) as char;
      p := p + 1;
      output[p] := (cp / 0x40 % 0x40 + 0x80) as char;
      p := p + 1;
      output[p] := (cp % 0x40 + 0x80) as char;
    }
    assert output[..p + 1] == output[..processed] + output[processed..p + 1];
    assert output[processed..p + 1] == Encode(cp);
  }

  /** One round of the loop: what is written joins what was written before. */
  lemma PieceJoins(s: string, start: nat, ip: nat, lim: nat, done: string, piece: Piece)
    requires start <= ip < lim <= |s|
    requires Unescape(s[start..lim]) == Prepend(done, Unescape(s[ip..lim]))
    requires FirstPiece(s[ip..lim]) == Some(piece)
    ensures ip + piece.used <= lim
    ensures Unescape(s[start..lim]) == Prepend(done + piece.bytes, Unescape(s[ip + piece.used..lim]))
  {
    var rest := s[ip..lim];
    assert rest[piece.used..] == s[ip + piece.used..lim];
    var r := Unescape(rest[piece.used..]);
    if r.Some? {
      assert done + (piece.bytes + r.value) == done + piece.bytes + r.value;
    }
  }

  /** The scan for the closing quote goes through the ends of the pieces. */
  lemma ScanPassesPiece(s: string, ip: nat, lim: nat)
    requires ip < lim < |s| && s[lim] == '"' && CloseQuote(s, ip) == lim
    requires FirstPiece(s[ip..lim]).Some?
    ensures ip + FirstPiece(s[ip..lim]).value.used <= lim
    ensures CloseQuote(s, ip + FirstPiece(s[ip..lim]).value.used) == lim
  {
    var rest := s[ip..lim];
    assert rest[0] == s[ip];
    if s[ip] == '\\' {
      assert ip + 2 <= lim;
      assert At(rest, 1) == s[ip + 1];
      if s[ip + 1] == 'u' {
        EscapeBeforeQuote(s, ip, lim);
        ScanPassesEscape(s, ip);
      }
    }
  }

  /**
   process_string, on a quoted stretch of the text.  The buffer holds the
   stretch's length plus one, and every write is checked to fall inside it.
   */
  method ProcessString(s: string, start: nat, len: nat) returns (r: Option<string>)
    requires start + len < |s| && CloseQuote(s, start) == start + len && s[start + len] == '"'
    ensures r == Unescape(s[start..start + len])
  {
    hide FirstPiece, CloseQuote;
    var lim := start + len;
    var output := new char[len + 1];
    var ip, op := start, 0;
    assert output[..0] == "";
    PrependNothing(Unescape(s[start..lim]));
    while At(s, ip) != '\0' && ip - start < len
      invariant start <= ip <= lim && CloseQuote(s, ip) == lim
      invariant 0 <= op <= ip - start && op <= output.Length
      invariant Unescape(s[start..lim]) == Prepend(output[..op], Unescape(s[ip..lim]))
      decreases lim - ip
    {
      QuoteStopsScan(s, ip, lim);
      ghost var done := output[..op];
      var ok, u, p := ProcessOne(s, ip, lim, output, op);
      if !ok {
        return None;
      }
      ScanPassesPiece(s, ip, lim);
      PieceJoins(s, start, ip, lim, done, FirstPiece(s[ip..lim]).value);
      ip, op := u, p;
    }
    QuoteStopsScan(s, ip, lim);
    assert s[ip..lim] == "";
    output[op] := '\0';
    r := Some(output[..op]);
    assert output[..op] + "" == output[..op];
  }

  /** The text does not end before the closing quote. */
  lemma QuoteStopsScan(s: string, ip: nat, lim: nat)
    requires ip <= lim < |s| && CloseQuote(s, ip) == lim && s[lim] == '"'
    ensures At(s, ip) != '\0'
  {
  }

  lemma PrependNothing(r: Option<string>)
    ensures Prepend("", r) == r
  {
    if r.Some? {
      assert "" + r.value == r.value;
    }
  }

  /** The body of the loop: one character, or one escape. */
  method ProcessOne(s: string, ip: nat, lim: nat, output: array<char>, op: nat)
    returns (ok: bool, u: nat, p: nat)
    requires ip < lim < |s| && CloseQuote(s, ip) == lim && s[lim] == '"'
    requires op + (lim - ip) <= output.Length
    modifies output
    ensures var piece := FirstPiece(s[ip..lim]);
            && ok == piece.Some?
            && (ok ==> u == ip + piece.value.used)
            && (ok ==> p == op + |piece.value.bytes| <= output.Length)
            && (ok ==> output[..p] == old(output[..op]) + piece.value.bytes)
  {
    ok, u, p := false, ip, op;
    ghost var rest := s[ip..lim];
    assert rest[0] == s[ip];
    if s[ip] == '\\' {
      assert ip + 2 <= lim;
      assert At(rest, 1) == s[ip + 1];
      u := u + 1;
      if s[u] == 'u' {
        EscapeBeforeQuote(s, ip, lim);
        ok, u, p := ParseUtf16(s, u, output, p);
        if !ok {
          return;
        }
      } else {
        var e := SimpleEscape(s[u] as int);
        if e.None? {
          return;
        }
        output[p] := e.value;
      }
    } else if s[ip] < ' ' {
      return;
    } else {
      output[p] := s[ip];
    }
    p := p + 1;
    u := u + 1;
    ok := true;
  }

  // ---------------------------------------------------------------- escaping

  /** What json_serialize_string prints for one character. */
  function EscapeChar(c: char): (t: string)
    ensures t != "" && |t| <= 2
  {
    if c == '"' then "\\\""
    else if c == '\\' then "\\\\"
    else if c == 8 as char then "\\b"
    else if c == 12 as char then "\\f"
    else if c == '\n' then "\\n"
    else if c == '\r' then "\\r"
    else if c == '\t' then "\\t"
    else [c]
  }

  function EscapeAll(s: string): string {
    if s == "" then "" else EscapeChar(s[0]) + EscapeAll(s[1..])
  }

  function Quoted(s: string): string {
    "\"" + EscapeAll(s) + "\""
  }

  /** A text the parser accepts unescaped: no control character but the five that have escapes. */
  predicate Clean(s: string) {
    forall i | 0 <= i < |s| :: s[i] >= ' ' || EscapeChar(s[i]) != [s[i]]
  }

  /** A printed character is one piece, or is refused. */
  lemma EscapeCharIsPiece(c: char, rest: string)
    ensures FirstPiece(EscapeChar(c) + rest) == if Clean([c]) then Some(Piece([c], |EscapeChar(c)|)) else None
  {
    var e := EscapeChar(c);
    assert At(e + rest, 0) == e[0];
    assert |e| == 2 ==> At(e + rest, 1) == e[1];
    assert Clean([c]) <==> c >= ' ' || e != [c];
  }

  /** Printing and reading a string: it comes back, unless it holds a control character without an escape. */
  lemma {:induction false} UnescapeEscaped(s: string)
    ensures Unescape(EscapeAll(s)) == if Clean(s) then Some(s) else None
  {
    if s != "" {
      var e, rest := EscapeChar(s[0]), EscapeAll(s[1..]);
      EscapeCharIsPiece(s[0], rest);
      UnescapeEscaped(s[1..]);
      assert (e + rest)[|e|..] == rest;
      assert Clean(s) <==> Clean([s[0]]) && Clean(s[1..]) by {
        assert s == [s[0]] + s[1..];
        CleanJoins([s[0]], s[1..]);
      }
      assert [s[0]] + s[1..] == s;
    }
  }

  lemma CleanJoins(a: string, b: string)
    ensures Clean(a + b) <==> Clean(a) && Clean(b)
  {
    if Clean(a + b) {
      assert forall i | 0 <= i < |a| :: a[i] == (a + b)[i];
      assert forall i | 0 <= i < |b| :: b[i] == (a + b)[|a| + i];
    }
  }

  /** The scan passes over one printed character. */
  lemma ScanPassesChar(t: string, p: nat, c: char)
    requires c != '\0' && Occurs(t, p, EscapeChar(c))
    ensures CloseQuote(t, p) == CloseQuote(t, p + |EscapeChar(c)|)
  {
    var e := EscapeChar(c);
    OccursAt(t, p, e, 0);
    OccursAt(t, p, e, |e| - 1);
  }

  /** The closing quote after a printed string is the one the scan finds. */
  lemma {:induction false} CloseQuoteEscaped(t: string, p: nat, s: string)
    requires NulFree(s) && Occurs(t, p, EscapeAll(s)) && At(t, p + |EscapeAll(s)|) == '"'
    ensures CloseQuote(t, p) == p + |EscapeAll(s)|
    decreases |s|
  {
    hide EscapeChar;
    if s != "" {
      var e, rest := EscapeChar(s[0]), EscapeAll(s[1..]);
      OccursSplit(t, p, e, rest);
      ScanPassesChar(t, p, s[0]);
      CloseQuoteEscaped(t, p + |e|, s[1..]);
    }
  }

  /** serialization_strlen: how many characters the escaped text has. */
  method SerializationStrlen(s: string) returns (n: nat)
    ensures n == |EscapeAll(s)|
  {
    n := 0;
    var i := 0;
    while i < |s|
      invariant i <= |s|
      invariant n + |EscapeAll(s[i..])| == |EscapeAll(s)|
    {
      assert s[i..][1..] == s[i + 1..];
      if s[i] in "\"\\\n\r\t" || s[i] == 8 as char || s[i] == 12 as char {
        n := n + 2;
      } else {
        n := n + 1;
      }
      i := i + 1;
    }
  }
}

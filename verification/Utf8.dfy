/**
 UTF-8 as the JSON library judges and writes it (RFC 3629, section 3).
 Bytes are characters below 256; masks and shifts are written as ranges,
 quotients and remainders.
 */
module Utf8 {
  import opened Basics
  import opened CStrings

  predicate IsContinuation(c: char) {
    0x80 <= c as int < 0xC0
  }

  /** How many bytes a sequence has that begins with `c`; 0 when none does. */
  function SequenceLength(c: char): nat {
    var b := c as int;
    if b == 0xC0 || b == 0xC1 || b > 0xF4 || IsContinuation(c) then 0
    else if b < 0x80 then 1
    else if b < 0xE0 then 2
    else if b < 0xF0 then 3
    else 4
  }

  datatype Decoded = Invalid | Scalar(cp: nat, len: nat)

  predicate IsScalarValue(cp: int) {
    0 <= cp < 0xD800 || 0xE000 <= cp <= 0x10FFFF
  }

  /** verify_utf8_sequence: the code point at the front of `s` and its length in bytes. */
  function FirstScalar(s: string): (d: Decoded)
    requires s != ""
    ensures d.Scalar? ==> 1 <= d.len <= |s| && IsScalarValue(d.cp)
  {
    var len := SequenceLength(s[0]);
    var b0 := s[0] as int;
    var b1 := At(s, 1) as int;
    var b2 := At(s, 2) as int;
    var b3 := At(s, 3) as int;
    if len == 1 then
      Scalar(b0, 1)
    else if len == 2 && IsContinuation(At(s, 1)) then
      Checked(b0 % 0x20 * 0x40 + b1 % 0x40, 2)
    else if len == 3 && IsContinuation(At(s, 1)) && IsContinuation(At(s, 2)) then
      Checked((b0 % 0x10 * 0x40 + b1 % 0x40) * 0x40 + b2 % 0x40, 3)
    else if len == 4 && IsContinuation(At(s, 1)) && IsContinuation(At(s, 2)) && IsContinuation(At(s, 3)) then
      Checked(((b0 % 0x08 * 0x40 + b1 % 0x40) * 0x40 + b2 % 0x40) * 0x40 + b3 % 0x40, 4)
    else
      Invalid
  }

  /** Overlong forms, values past 0x10FFFF and surrogate halves are refused. */
  function Checked(cp: nat, len: nat): Decoded {
    if (cp < 0x80 && len > 1) || (cp < 0x800 && len > 2) || (cp < 0x10000 && len > 3) then Invalid
    else if cp > 0x10FFFF then Invalid
    else if 0xD800 <= cp <= 0xDFFF then Invalid
    else Scalar(cp, len)
  }

  /** The code points of `s`, when every byte belongs to a well-formed sequence. */
  function Decode(s: string): Option<seq<nat>> {
    if s == "" then Some([])
    else
      match FirstScalar(s)
      case Invalid => None
      case Scalar(cp, len) =>
        match Decode(s[len..])
        case None => None
        case Some(rest) => Some([cp] + rest)
  }

  ghost predicate ValidUtf8(s: string) {
    Decode(s).Some?
  }

  /** is_valid_utf8: accepts the encodings of sequences of scalar values, and nothing else. */
  method IsValidUtf8(s: string) returns (valid: bool)
    ensures valid <==> exists ps :: AllScalar(ps) && EncodeAll(ps) == s
  {
    ValidIsEncoded(s);
    var i := 0;
    while i < |s|
      invariant 0 <= i <= |s|
      invariant ValidUtf8(s) <==> ValidUtf8(s[i..])
    {
      var d := FirstScalar(s[i..]);
      if d.Invalid? {
        return false;
      }
      assert s[i..][d.len..] == s[i + d.len..];
      i := i + d.len;
    }
    valid := true;
  }

  /** The bytes parse_utf_16 writes for one code point. */
  function Encode(cp: nat): (t: string)
    requires cp <= 0x10FFFF
    ensures 1 <= |t| <= 4
  {
    if cp < 0x80 then
      [cp as char]
    else if cp < 0x800 then
      [(cp / 0x40 % 0x20 + 0xC0) as char, (cp % 0x40 + 0x80) as char]
    else if cp < 0x10000 then
      [(cp / 0x1000 % 0x10 + 0xE0) as char, (cp / 0x40 % 0x40 + 0x80) as char, (cp % 0x40 + 0x80) as char]
    else
      [(cp / 0x40000 % 0x08 + 0xF0) as char, (cp / 0x1000 % 0x40 + 0x80) as char,
       (cp / 0x40 % 0x40 + 0x80) as char, (cp % 0x40 + 0x80) as char]
  }

  /** The code points of the first and the last example of RFC 3629, section 7, and their bytes. */
  lemma Rfc3629Examples()
    ensures Encode(0x41) == ['\U{41}'] && Encode(0x2262) == ['\U{E2}', '\U{89}', '\U{A2}']
    ensures Encode(0x391) == ['\U{CE}', '\U{91}'] && Encode(0x2E) == "."
    ensures Encode(0xFEFF) == ['\U{EF}', '\U{BB}', '\U{BF}'] && Encode(0x233B4) == ['\U{F0}', '\U{A3}', '\U{8E}', '\U{B4}']
  {
  }

  /** A code point is put together again from its groups of six bits. */
  lemma SixBitGroups(cp: nat)
    ensures cp / 0x1000 == cp / 0x40 / 0x40
    ensures cp / 0x40000 == cp / 0x40 / 0x40 / 0x40
    ensures cp == cp / 0x40 * 0x40 + cp % 0x40
  {
  }

  /** Adding a marker that is a multiple of the mask's modulus leaves the low bits. */
  lemma LowBits(a: nat, b: nat, c: nat, d: nat)
    requires a < 0x08 && b < 0x40 && c < 0x20 && d < 0x10
    ensures (a + 0xF0) % 0x08 == a
    ensures (b + 0x80) % 0x40 == b
    ensures (c + 0xC0) % 0x20 == c
    ensures (d + 0xE0) % 0x10 == d
  {
  }

  /** The scalar value at the front of what is written for it, with anything behind. */
  lemma EncodeFirst(cp: nat, t: string)
    requires IsScalarValue(cp)
    requires t != "" && Encode(cp) <= t
    ensures FirstScalar(t) == Scalar(cp, |Encode(cp)|)
  {
    if cp < 0x80 {
      assert t[0] == Encode(cp)[0];
    } else if cp < 0x800 {
      EncodeFirst2(cp, t);
    } else if cp < 0x10000 {
      EncodeFirst3(cp, t);
    } else {
      EncodeFirst4(cp, t);
    }
  }

  lemma EncodeFirst2(cp: nat, t: string)
    requires 0x80 <= cp < 0x800
    requires t != "" && Encode(cp) <= t
    ensures FirstScalar(t) == Scalar(cp, 2)
  {
    var e := Encode(cp);
    assert At(t, 0) == e[0] && At(t, 1) == e[1];
    var a, b := cp / 0x40, cp % 0x40;
    SixBitGroups(cp);
    LowBits(0, b, a, 0);
    assert FirstScalar(t) == Checked(cp, 2);
  }

  lemma EncodeFirst3(cp: nat, t: string)
    requires 0x800 <= cp < 0x10000 && IsScalarValue(cp)
    requires t != "" && Encode(cp) <= t
    ensures FirstScalar(t) == Scalar(cp, 3)
  {
    var e := Encode(cp);
    assert At(t, 0) == e[0] && At(t, 1) == e[1] && At(t, 2) == e[2];
    var a, b, c := cp / 0x1000, cp / 0x40 % 0x40, cp % 0x40;
    assert cp == (a * 0x40 + b) * 0x40 + c by {
      SixBitGroups(cp);
      SixBitGroups(cp / 0x40);
    }
    LowBits(0, b, 0, a);
    LowBits(0, c, 0, 0);
    assert FirstScalar(t) == Checked(cp, 3);
  }

  lemma EncodeFirst4(cp: nat, t: string)
    requires 0x10000 <= cp <= 0x10FFFF
    requires t != "" && Encode(cp) <= t
    ensures FirstScalar(t) == Scalar(cp, 4)
  {
    var e := Encode(cp);
    assert At(t, 1) == e[1] && At(t, 2) == e[2] && At(t, 3) == e[3];
    var a, b, c, d := cp / 0x40000, cp / 0x1000 % 0x40, cp / 0x40 % 0x40, cp % 0x40;
    assert cp == ((a * 0x40 + b) * 0x40 + c) * 0x40 + d by {
      SixBitGroups(cp);
      SixBitGroups(cp / 0x40);
    }
    assert a <= 4;
    assert a % 0x08 == a;
    LowBits(a, b, 0, 0);
    LowBits(0, c, 0, 0);
    LowBits(0, d, 0, 0);
    assert SequenceLength(t[0]) == 4;
    assert FirstScalar(t) == Checked(cp, 4);
  }

  /** What is written for a scalar value is read back as that value, whatever follows. */
  lemma EncodeIsRead(cp: nat, rest: string)
    requires IsScalarValue(cp)
    ensures Decode(Encode(cp) + rest) == match Decode(rest) case None => None case Some(ps) => Some([cp] + ps)
  {
    var t := Encode(cp) + rest;
    assert t[|Encode(cp)|..] == rest;
    EncodeFirst(cp, t);
  }

  /** A well-formed sequence at the front can be taken off and put in front of any text. */
  lemma FirstScalarMoves(s: string, rest: string)
    requires s != "" && FirstScalar(s).Scalar?
    ensures FirstScalar(s[..FirstScalar(s).len] + rest) == FirstScalar(s)
  {
    var n := FirstScalar(s).len;
    var t := s[..n] + rest;
    assert forall i | 0 <= i < n :: At(t, i) == At(s, i);
  }

  /** Beyond ASCII, every byte of a sequence has its high bit set, and so does the code point. */
  lemma HighBytes(s: string)
    requires s != "" && FirstScalar(s).Scalar?
    ensures s[0] as int < 0x80 ==> FirstScalar(s) == Scalar(s[0] as int, 1)
    ensures s[0] as int >= 0x80 ==> FirstScalar(s).cp >= 0x80
    ensures s[0] as int >= 0x80 ==> forall i | 0 <= i < FirstScalar(s).len :: s[i] as int >= 0x80
  {
    assert forall i | 0 <= i < FirstScalar(s).len :: s[i] == At(s, i);
  }

  // ---------------------------------------- every accepted text is an encoding

  ghost predicate AllScalar(ps: seq<nat>) {
    forall i | 0 <= i < |ps| :: IsScalarValue(ps[i])
  }

  /** The shortest-form encodings of scalar values, one after the other. */
  ghost function EncodeAll(ps: seq<nat>): string
    requires AllScalar(ps)
  {
    if ps == [] then "" else Encode(ps[0]) + EncodeAll(ps[1..])
  }

  /** A continuation byte is its six bits with the marker. */
  lemma MarkedByte(b: nat)
    requires 0x80 <= b < 0xC0
    ensures b % 0x40 == b - 0x80
  {
  }

  /** Groups of bits are encoded to the bytes that carry them behind their markers. */
  lemma TwoGroups(a: nat, b: nat)
    requires a < 0x20 && b < 0x40 && 0x80 <= a * 0x40 + b
    ensures Encode(a * 0x40 + b) == [(a + 0xC0) as char, (b + 0x80) as char]
  {
    LowGroup(a, b);
    assert a % 0x20 == a;
  }

  lemma ThreeGroups(a: nat, b: nat, c: nat)
    requires a < 0x10 && b < 0x40 && c < 0x40 && 0x800 <= (a * 0x40 + b) * 0x40 + c
    ensures Encode((a * 0x40 + b) * 0x40 + c) == [(a + 0xE0) as char, (b + 0x80) as char, (c + 0x80) as char]
  {
    var high := a * 0x40 + b;
    var cp := high * 0x40 + c;
    LowGroup(a, b);
    LowGroup(high, c);
    SixBitGroups(cp);
    assert cp / 0x1000 == a && cp / 0x40 == high && a % 0x10 == a;
  }

  lemma FourGroups(a: nat, b: nat, c: nat, d: nat)
    requires a < 0x08 && b < 0x40 && c < 0x40 && d < 0x40
    requires 0x10000 <= ((a * 0x40 + b) * 0x40 + c) * 0x40 + d <= 0x10FFFF
    ensures Encode(((a * 0x40 + b) * 0x40 + c) * 0x40 + d) ==
            [(a + 0xF0) as char, (b + 0x80) as char, (c + 0x80) as char, (d + 0x80) as char]
  {
    var high := a * 0x40 + b;
    var middle := high * 0x40 + c;
    var cp := middle * 0x40 + d;
    LowGroup(a, b);
    LowGroup(high, c);
    LowGroup(middle, d);
    SixBitGroups(cp);
    assert cp / 0x40000 == a && cp / 0x1000 == high && cp / 0x40 == middle;
    assert a % 0x08 == a;
  }

  /** A number put together from a group of six bits and the rest falls apart into them. */
  lemma LowGroup(high: nat, low: nat)
    requires low < 0x40
    ensures (high * 0x40 + low) / 0x40 == high && (high * 0x40 + low) % 0x40 == low
  {
  }

  /** An accepted sequence is the shortest-form encoding of the value read from it. */
  lemma FirstScalarIsEncoded(s: string)
    requires s != "" && FirstScalar(s).Scalar?
    ensures Encode(FirstScalar(s).cp) == s[..FirstScalar(s).len]
  {
    hide FirstScalar, Encode;
    var len := FirstScalar(s).len;
    LengthIsOneToFour(s);
    if len == 1 {
      OneIsEncoded(s);
    } else if len == 2 {
      TwoAreEncoded(s);
    } else if len == 3 {
      ThreeAreEncoded(s);
    } else {
      FourAreEncoded(s);
    }
  }

  lemma LengthIsOneToFour(s: string)
    requires s != "" && FirstScalar(s).Scalar?
    ensures 1 <= FirstScalar(s).len <= 4
  {
  }

  lemma OneIsEncoded(s: string)
    requires s != "" && FirstScalar(s).Scalar? && FirstScalar(s).len == 1
    ensures Encode(FirstScalar(s).cp) == s[..1]
  {
    hide Encode;
    OneByte(s[0] as int);
  }

  lemma TwoAreEncoded(s: string)
    requires s != "" && FirstScalar(s).Scalar? && FirstScalar(s).len == 2
    ensures Encode(FirstScalar(s).cp) == s[..2]
  {
    hide Encode;
    var b0: nat, b1: nat := s[0] as int, s[1] as int;
    MarkedByte(b1);
    assert b0 % 0x20 == b0 - 0xC0;
    TwoGroups(b0 - 0xC0, b1 - 0x80);
  }

  lemma ThreeAreEncoded(s: string)
    requires s != "" && FirstScalar(s).Scalar? && FirstScalar(s).len == 3
    ensures Encode(FirstScalar(s).cp) == s[..3]
  {
    hide Encode;
    var b0: nat, b1: nat, b2: nat := s[0] as int, s[1] as int, s[2] as int;
    MarkedByte(b1);
    MarkedByte(b2);
    assert b0 % 0x10 == b0 - 0xE0;
    ThreeGroups(b0 - 0xE0, b1 - 0x80, b2 - 0x80);
  }

  lemma FourAreEncoded(s: string)
    requires s != "" && FirstScalar(s).Scalar? && FirstScalar(s).len == 4
    ensures Encode(FirstScalar(s).cp) == s[..4]
  {
    hide Encode;
    var b0: nat, b1: nat, b2: nat, b3: nat := s[0] as int, s[1] as int, s[2] as int, s[3] as int;
    MarkedByte(b1);
    MarkedByte(b2);
    MarkedByte(b3);
    assert b0 % 0x08 == b0 - 0xF0;
    FourGroups(b0 - 0xF0, b1 - 0x80, b2 - 0x80, b3 - 0x80);
  }

  lemma OneByte(b0: nat)
    requires b0 < 0x80
    ensures Encode(b0) == [b0 as char]
  {
  }

  lemma ScalarTail(ps: seq<nat>)
    requires ps != [] && AllScalar(ps)
    ensures AllScalar(ps[1..])
  {
  }

  /** Decoding and encoding are inverse: what is accepted is exactly what scalar values are encoded to. */
  lemma {:induction false} DecodeInverse(s: string, ps: seq<nat>)
    ensures Decode(s) == Some(ps) <==> AllScalar(ps) && EncodeAll(ps) == s
    decreases |s|
  {
    hide FirstScalar, Encode;
    if s != "" && Decode(s) == Some(ps) {
      var Scalar(cp, len) := FirstScalar(s);
      FirstScalarIsEncoded(s);
      DecodeInverse(s[len..], ps[1..]);
      assert ps == [cp] + ps[1..];
      assert s == s[..len] + s[len..];
    }
    if s != "" && AllScalar(ps) && EncodeAll(ps) == s {
      assert ps == [ps[0]] + ps[1..];
      ScalarTail(ps);
      var rest := EncodeAll(ps[1..]);
      assert s[|Encode(ps[0])|..] == rest;
      DecodeInverse(rest, ps[1..]);
      EncodeIsRead(ps[0], rest);
    }
  }

  lemma ValidIsEncoded(s: string)
    ensures ValidUtf8(s) <==> exists ps :: AllScalar(ps) && EncodeAll(ps) == s
  {
    hide Decode, EncodeAll, AllScalar;
    if ValidUtf8(s) {
      DecodeInverse(s, Decode(s).value);
    }
    if ps :| AllScalar(ps) && EncodeAll(ps) == s {
      DecodeInverse(s, ps);
    }
  }
}

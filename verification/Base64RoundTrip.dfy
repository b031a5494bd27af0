/**
 Bytes encoded and decoded again.
 */
module Base64RoundTrip {
  import opened Basics
  import opened Base64

  /** What decoding an encoding gives: one zero byte follows unless the groups are full. */
  function WithZero(d: seq<Byte>): seq<Byte> {
    d + if |d| % 3 == 0 then [] else [0]
  }

  /** Cut into four times six bits and put together again, a number of 24 bits is the same. */
  lemma SixBits(p: nat)
    requires p < 0x100_0000
    ensures ((p / 0x4_0000 % 64 * 64 + p / 0x1000 % 64) * 64 + p / 0x40 % 64) * 64 + p % 64 == p
  {
  }

  /** Six bits out of 24, from the left. */
  function Sextet(p: nat, i: nat): (x: nat)
    requires i < 4
    ensures x < 64
  {
    if i == 0 then p / 0x4_0000 % 64 else if i == 1 then p / 0x1000 % 64 else if i == 2 then p / 0x40 % 64 else p % 64
  }

  /** The symbols of a group are found at the places they were taken from. */
  lemma GroupPlaces(g: seq<Byte>)
    requires 1 <= |g| <= 3
    ensures var q := EncodeGroup(g)[..|g| + 1];
            FromTable(q) && forall i | 0 <= i <= |g| :: FindPos(q[i]) == Sextet(Aligned(Joined(g), |g|), i)
  {
    hide LastPlace, Symbol, InTable, FindPos, Joined, Aligned;
    var p := Aligned(Joined(g), |g|);
    FoundWhereTaken(Sextet(p, 0));
    FoundWhereTaken(Sextet(p, 1));
    FoundWhereTaken(Sextet(p, 2));
    FoundWhereTaken(Sextet(p, 3));
  }

  /** What is gathered from the symbols of a group is what was joined from its bytes. */
  lemma GatheredIsJoined(g: seq<Byte>)
    requires 1 <= |g| <= 3
    ensures var q := EncodeGroup(g)[..|g| + 1];
            FromTable(q) && AlignedSymbols(Gathered(q), |q|) == Aligned(Joined(g), |g|)
  {
    hide FromTable, EncodeGroup, FindPos, Gathered, Joined;
    hide Sextet, Aligned;
    var p := Aligned(Joined(g), |g|);
    GroupPlaces(g);
    GroupLength(g);
    var q := EncodeGroup(g)[..|g| + 1];
    if |g| == 1 {
      GatheredTwo(q);
      SextetsOfOne(Joined(g));
    } else if |g| == 2 {
      GatheredThree(q);
      SextetsOfTwo(Joined(g));
    } else {
      GatheredFour(q);
      SextetsOfThree(Joined(g));
    }
  }

  lemma SextetsOfOne(j: nat)
    requires j < 0x100
    ensures var p := Aligned(j, 1); AlignedSymbols(Sextet(p, 0) * 64 + Sextet(p, 1), 2) == p
  {
    SixBits(j * 0x1_0000);
  }

  lemma SextetsOfTwo(j: nat)
    requires j < 0x1_0000
    ensures var p := Aligned(j, 2); AlignedSymbols((Sextet(p, 0) * 64 + Sextet(p, 1)) * 64 + Sextet(p, 2), 3) == p
  {
    SixBits(j * 0x100);
  }

  lemma SextetsOfThree(j: nat)
    requires j < 0x100_0000
    ensures var p := Aligned(j, 3);
            AlignedSymbols(((Sextet(p, 0) * 64 + Sextet(p, 1)) * 64 + Sextet(p, 2)) * 64 + Sextet(p, 3), 4) == p
  {
    SixBits(j);
  }

  lemma GroupLength(g: seq<Byte>)
    requires 1 <= |g| <= 3
    ensures |EncodeGroup(g)| == 4
  {
  }

  lemma FirstByte(a: nat, b: nat, c: nat)
    requires a < 256 && b < 256 && c < 256
    ensures GroupByte(a * 0x1_0000 + b * 0x100 + c, 0) == a
  {
  }

  lemma SecondByte(a: nat, b: nat, c: nat)
    requires a < 256 && b < 256 && c < 256
    ensures GroupByte(a * 0x1_0000 + b * 0x100 + c, 1) == b
  {
    assert (a * 0x1_0000 + b * 0x100 + c) / 0x100 == a * 0x100 + b;
  }

  lemma ThirdByte(a: nat, b: nat, c: nat)
    requires a < 256 && b < 256 && c < 256
    ensures GroupByte(a * 0x1_0000 + b * 0x100 + c, 2) == c
  {
  }

  /** The bytes of a group are those that were joined, and zero where one was missing. */
  lemma BytesOfJoined(g: seq<Byte>)
    requires 1 <= |g| <= 3
    ensures forall i | 0 <= i < 3 :: GroupByte(Aligned(Joined(g), |g|), i) == if i < |g| then g[i] else 0
  {
    hide Joined, GroupByte;
    var a: nat := g[0];
    var b: nat := if |g| > 1 then g[1] else 0;
    var c: nat := if |g| > 2 then g[2] else 0;
    FirstByte(a, b, c);
    SecondByte(a, b, c);
    ThirdByte(a, b, c);
    if |g| == 1 {
      JoinedOne(g);
    } else if |g| == 2 {
      JoinedTwo(g);
    } else {
      JoinedThree(g);
    }
  }

  /** The group of `g` without its padding is decoded to `g`, and one zero byte where a byte was missing. */
  lemma GroupRoundTrip(g: seq<Byte>)
    requires 1 <= |g| <= 3
    ensures var q := EncodeGroup(g)[..|g| + 1];
            FromTable(q) && DecodeGroup(q) == WithZero(g)
  {
    hide FromTable, Gathered, AlignedSymbols, Joined, Aligned, GroupByte, GroupSymbol;
    GatheredIsJoined(g);
    BytesOfJoined(g);
  }

  lemma JoinedOne(g: seq<Byte>)
    requires |g| == 1
    ensures Joined(g) == g[0]
  {
    assert Joined(g[..0]) == 0;
  }

  lemma JoinedTwo(g: seq<Byte>)
    requires |g| == 2
    ensures Joined(g) == g[0] as int * 256 + g[1] as int
  {
    JoinedOne(g[..1]);
  }

  lemma JoinedThree(g: seq<Byte>)
    requires |g| == 3
    ensures Joined(g) == (g[0] as int * 256 + g[1] as int) * 256 + g[2] as int
  {
    JoinedTwo(g[..2]);
  }

  lemma GatheredTwo(q: string)
    requires |q| == 2 && FromTable(q) && forall i | 0 <= i < 2 :: FindPos(q[i]) < 64
    ensures Gathered(q) == FindPos(q[0]) * 64 + FindPos(q[1])
  {
    hide FindPos, InTable;
    GatheredNothing();
    GatheredStep(q, 0, 0);
    GatheredStep(q, 0, 1);
    assert q[0..2] == q && q[0..0] == [] && q[0..1] == [q[0]];
  }

  lemma GatheredThree(q: string)
    requires |q| == 3 && FromTable(q) && forall i | 0 <= i < 3 :: FindPos(q[i]) < 64
    ensures Gathered(q) == (FindPos(q[0]) * 64 + FindPos(q[1])) * 64 + FindPos(q[2])
  {
    hide FindPos, InTable, Gathered;
    GatheredTwo(q[..2]);
    GatheredStep(q, 0, 2);
    assert q[0..3] == q && q[0..2] == q[..2];
  }

  lemma GatheredFour(q: string)
    requires |q| == 4 && FromTable(q) && forall i | 0 <= i < 4 :: FindPos(q[i]) < 64
    ensures Gathered(q) == ((FindPos(q[0]) * 64 + FindPos(q[1])) * 64 + FindPos(q[2])) * 64 + FindPos(q[3])
  {
    hide FindPos, InTable, Gathered;
    GatheredThree(q[..3]);
    GatheredStep(q, 0, 3);
    assert q[0..4] == q && q[0..3] == q[..3];
  }

  lemma FullGroup(g: seq<Byte>)
    requires |g| == 3
    ensures FromTable(EncodeGroup(g)) && DecodeGroup(EncodeGroup(g)) == g
  {
    hide EncodeGroup, DecodeGroup;
    GroupRoundTrip(g);
    GroupLength(g);
    assert EncodeGroup(g)[..4] == EncodeGroup(g);
  }

  /** The encoding without its padding. */
  function Unpadded(d: seq<Byte>): string
    ensures |Unpadded(d)| >= |d|
  {
    EncodedShape(d);
    Encoded(d)[..|Encoded(d)| - Padding(|d|)]
  }

  lemma UnpaddedStep(d: seq<Byte>)
    requires |d| > 3
    ensures |EncodeGroup(d[..3])| == 4 && Unpadded(d) == EncodeGroup(d[..3]) + Unpadded(d[3..])
  {
    hide EncodeGroup, Padding, Shaped;
    GroupLength(d[..3]);
    PaddingStep(|d|);
    PaddingFits(d[3..]);
    PaddingFits(d);
    var q, rest, pad := EncodeGroup(d[..3]), Encoded(d[3..]), Padding(|d|);
    assert Encoded(d) == q + rest;
    hide Encoded;
    assert (q + rest)[..|q| + |rest| - pad] == q + rest[..|rest| - pad];
  }

  lemma PaddingFits(d: seq<Byte>)
    ensures Padding(|d|) <= |Encoded(d)|
  {
    hide Encoded, Plain;
    EncodedShape(d);
  }

  lemma PaddingStep(n: nat)
    requires n > 3
    ensures Padding(n) == Padding(n - 3)
  {
  }

  lemma RejoinGroup(q: string, s: string)
    requires |q| == 4 && FromTable(q) && FromTable(s)
    ensures FromTable(q + s) && DecodedSymbols(q + s) == DecodeGroup(q) + DecodedSymbols(s)
  {
    hide InTable, DecodeGroup, DecodedSymbols;
    DecodedStep(q + s);
    assert (q + s)[..4] == q && (q + s)[4..] == s;
  }

  lemma {:induction false} SymbolsRoundTrip(d: seq<Byte>)
    ensures FromTable(Unpadded(d)) && DecodedSymbols(Unpadded(d)) == WithZero(d)
  {
    hide FromTable, Encoded, Plain, EncodeGroup, DecodeGroup, DecodedSymbols, Unpadded;
    if |d| <= 3 {
      OneGroupRoundTrip(d);
    } else {
      var g, rest := d[..3], d[3..];
      FullGroup(g);
      SymbolsRoundTrip(rest);
      UnpaddedStep(d);
      RejoinGroup(EncodeGroup(g), Unpadded(rest));
      assert d == g + rest;
    }
  }

  lemma OneGroupRoundTrip(d: seq<Byte>)
    requires |d| <= 3
    ensures FromTable(Unpadded(d)) && DecodedSymbols(Unpadded(d)) == WithZero(d)
  {
    hide InTable, EncodeGroup, DecodeGroup, Plain;
    EncodedShape(d);
    if d != [] {
      GroupRoundTrip(d);
      GroupLength(d);
      assert Unpadded(d) == EncodeGroup(d)[..|d| + 1];
    }
  }

  /** Decoding the encoding of any bytes but none gives them back, with a zero byte behind an incomplete group. */
  lemma RoundTrip(d: seq<Byte>)
    requires d != []
    ensures |Encoded(d)| >= 3 && FromTable(Encoded(d))
    ensures Decoded(Encoded(d)) == WithZero(d)
  {
    hide DecodedSymbols, Encoded, LastPlace, Plain;
    EncodedShape(d);
    SymbolsRoundTrip(d);
    PaddingShows(Encoded(d), |d|);
  }

  /** So no two inputs have the same encoding. */
  lemma EncodedInjective(d: seq<Byte>, e: seq<Byte>)
    requires Encoded(d) == Encoded(e)
    ensures d == e
  {
    hide Encoded, DecodedSymbols, Plain;
    EncodedShape(d);
    EncodedShape(e);
    if d != [] && e != [] {
      RoundTrip(d);
      RoundTrip(e);
      PaddingShows(Encoded(d), |d|);
      PaddingShows(Encoded(e), |e|);
      assert WithZero(d)[..|d|] == d && WithZero(e)[..|e|] == e;
    }
  }

  /** The padding tells how many bytes are missing in the last group. */
  lemma PaddingShows(s: string, n: nat)
    requires n > 0 && Shaped(s, n)
    ensures |s| >= 4 && FromTable(s) && EqualCount(s) == Padding(n)
  {
    hide LastPlace;
    FoundWhereTaken(64);
    assert forall i | 0 <= i < |s| - Padding(n) :: s[i] != '=';
  }
}

/**
 Which bits the symbols of an encoding stand for, by the alphabet of section 4
 of RFC 4648.
 */
module Base64Bits {
  import opened Basics
  import opened Base64

  const CAPITALS := "ABCDEFGHIJKLMNOPQRSTUVWXYZ"
  const SMALL := "abcdefghijklmnopqrstuvwxyz"
  const OTHERS := "0123456789+/"
  const ALPHABET := CAPITALS + SMALL + OTHERS

  lemma Capitals(i: nat)
    requires i < 26
    ensures CAPITALS[i] == ('A' as int + i) as char
  {
  }

  lemma SmallLetters(i: nat)
    requires i < 26
    ensures SMALL[i] == ('a' as int + i) as char
  {
  }

  lemma OtherSymbols(i: nat)
    requires i < 12
    ensures OTHERS[i] == if i < 10 then ('0' as int + i) as char else if i == 10 then '+' else '/'
  {
  }

  /** The table begins with the alphabet. */
  lemma TableIsAlphabet(i: nat)
    requires i < 64
    ensures Symbol(i) == ALPHABET[i]
  {
    assert |CAPITALS| == 26 && |SMALL| == 26 && |OTHERS| == 12;
    if i < 26 {
      Capitals(i);
      assert ALPHABET[i] == CAPITALS[i];
    } else if i < 52 {
      SmallLetters(i - 26);
      assert ALPHABET[i] == SMALL[i - 26];
    } else {
      OtherSymbols(i - 52);
      assert ALPHABET[i] == OTHERS[i - 52];
    }
  }

  /** A symbol is decoded to its place in the alphabet. */
  lemma DecodedToPlace(i: nat)
    requires i < 64
    ensures InTable(ALPHABET[i]) && FindPos(ALPHABET[i]) == i
  {
    TableIsAlphabet(i);
    FoundWhereTaken(i);
  }

  /** A byte of the input, and zero behind its end. */
  function ByteAt(d: seq<Byte>, k: nat): nat {
    if k < |d| then d[k] else 0
  }

  /** The six bits from bit `6 * i` on, read from the left. */
  function SixBits(d: seq<Byte>, i: nat): (n: nat)
    ensures n < 64
  {
    var two := ByteAt(d, 6 * i / 8) * 0x100 + ByteAt(d, 6 * i / 8 + 1);
    if 6 * i % 8 == 0 then two / 0x400 % 64
    else if 6 * i % 8 == 2 then two / 0x100 % 64
    else if 6 * i % 8 == 4 then two / 0x40 % 64
    else two / 0x10 % 64
  }

  /** The encoding, symbol by symbol: the `i`-th one stands for the `i`-th six bits. */
  lemma {:induction false} SymbolsAreBits(d: seq<Byte>, i: nat)
    requires 6 * i < 8 * |d|
    ensures i < |Encoded(d)| && Encoded(d)[i] == ALPHABET[SixBits(d, i)]
    decreases |d|
  {
    hide EncodeGroup, SixBits;
    if |d| <= 3 {
      GroupIsBits(d, i);
    } else {
      GroupLength(d[..3]);
      if i < 4 {
        GroupIsBits(d[..3], i);
        SameBits(d, i);
      } else {
        SymbolsAreBits(d[3..], i - 4);
        LaterBits(d, i);
      }
    }
  }

  lemma GroupLength(g: seq<Byte>)
    requires 1 <= |g| <= 3
    ensures |EncodeGroup(g)| == 4
  {
  }

  /** The first four symbols need the first three bytes alone. */
  lemma SameBits(d: seq<Byte>, i: nat)
    requires |d| > 3 && i < 4
    ensures SixBits(d[..3], i) == SixBits(d, i)
  {
    if i == 3 {
      assert ByteAt(d, 3) < 0x100;
    }
  }

  lemma LaterBits(d: seq<Byte>, i: nat)
    requires |d| > 3 && i >= 4
    ensures SixBits(d[3..], i - 4) == SixBits(d, i)
  {
    assert 6 * i == 6 * (i - 4) + 24;
    assert ByteAt(d, 6 * (i - 4) / 8 + 3) == ByteAt(d[3..], 6 * (i - 4) / 8);
    assert ByteAt(d, 6 * (i - 4) / 8 + 4) == ByteAt(d[3..], 6 * (i - 4) / 8 + 1);
  }

  lemma GroupIsBits(g: seq<Byte>, i: nat)
    requires 1 <= |g| <= 3 && 6 * i < 8 * |g|
    ensures |EncodeGroup(g)| == 4 && EncodeGroup(g)[i] == ALPHABET[SixBits(g, i)]
  {
    hide Symbol, SixBits;
    TableIsAlphabet(SixBits(g, i));
    JoinedIs(g);
    var p := Aligned(Joined(g), |g|);
    SextetIsBits(g, i, p);
  }

  lemma JoinedIs(g: seq<Byte>)
    requires 1 <= |g| <= 3
    ensures Aligned(Joined(g), |g|) == (ByteAt(g, 0) * 0x100 + ByteAt(g, 1)) * 0x100 + ByteAt(g, 2)
  {
    if |g| == 1 {
      assert g[..0] == [];
    } else if |g| == 2 {
      assert g[..1][..0] == [] && g[..1][0] == g[0];
      assert Joined(g[..1]) == g[0];
    } else {
      assert g[..2][..1] == g[..1] && g[..1][..0] == [] && g[..2][1] == g[1];
      assert Joined(g[..1]) == g[0];
      assert Joined(g[..2]) == g[0] as int * 256 + g[1] as int;
    }
  }

  lemma SextetIsBits(g: seq<Byte>, i: nat, p: nat)
    requires i < 4 && p == (ByteAt(g, 0) * 0x100 + ByteAt(g, 1)) * 0x100 + ByteAt(g, 2)
    requires |g| <= 3
    ensures SixBits(g, i) == (if i == 0 then p / 0x4_0000 % 64 else if i == 1 then p / 0x1000 % 64
                              else if i == 2 then p / 0x40 % 64 else p % 64)
  {
    Bits(ByteAt(g, 0), ByteAt(g, 1), ByteAt(g, 2));
  }

  lemma Bits(a: nat, b: nat, c: nat)
    requires a < 0x100 && b < 0x100 && c < 0x100
    ensures var p := (a * 0x100 + b) * 0x100 + c;
            && p / 0x4_0000 % 64 == (a * 0x100 + b) / 0x400 % 64
            && p / 0x1000 % 64 == (a * 0x100 + b) / 0x10 % 64
            && p / 0x40 % 64 == (b * 0x100 + c) / 0x40 % 64
            && p % 64 == (c * 0x100) / 0x100 % 64
  {
    Shifted(a * 0x100 + b, c, 0x400);
    Shifted(a * 0x100 + b, c, 0x10);
    ThirdSix(a, b * 0x100 + c);
    LastSix(a * 0x100 + b, c);
  }

  lemma ThirdSix(a: nat, y: nat)
    ensures (a * 0x1_0000 + y) / 0x40 % 64 == y / 0x40 % 64
  {
    assert (a * 0x1_0000 + y) / 0x40 == a * 0x400 + y / 0x40;
    assert a * 0x400 + y / 0x40 == 64 * (a * 16 + y / 0x40 / 64) + y / 0x40 % 64;
  }

  lemma LastSix(q: nat, c: nat)
    ensures (q * 0x100 + c) % 64 == c % 64
  {
    var h, l := c / 64, c % 64;
    assert q * 0x100 + c == 64 * (q * 4 + h) + l;
    Remainder(q * 4 + h, l);
  }

  lemma Remainder(k: nat, l: nat)
    requires l < 64
    ensures (64 * k + l) % 64 == l
  {
  }

  /** Eight bits more on the right, and eight more dropped. */
  lemma Shifted(q: nat, c: nat, m: nat)
    requires c < 0x100 && (m == 0x400 || m == 0x10)
    ensures (q * 0x100 + c) / (m * 0x100) == q / m
  {
    if m == 0x400 {
      assert q * 0x100 + c == q / 0x400 * 0x4_0000 + (q % 0x400 * 0x100 + c);
    } else {
      assert q * 0x100 + c == q / 0x10 * 0x1000 + (q % 0x10 * 0x100 + c);
    }
  }
}

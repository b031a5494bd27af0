/**
 The escapes of RFC 8259, section 7, as they are written: each is read as the
 character it stands for.
 */
module JsonEscapes {
  import opened Basics
  import opened CStrings
  import opened Utf8
  import opened JsonStrings

  const LOWER_DIGITS := "0123456789abcdef"
  const UPPER_DIGITS := "0123456789ABCDEF"

  /** `c` is the hexadecimal digit for `k`, in either case. */
  ghost predicate IsDigitFor(c: char, k: nat)
    requires k < 16
  {
    c == LOWER_DIGITS[k] || c == UPPER_DIGITS[k]
  }

  /** `t` is `n` in four hexadecimal digits. */
  ghost predicate Spells(t: string, n: nat) {
    && n < 0x10000 && |t| == 4
    && IsDigitFor(t[0], n / 0x1000) && IsDigitFor(t[1], n / 0x100 % 0x10)
    && IsDigitFor(t[2], n / 0x10 % 0x10) && IsDigitFor(t[3], n % 0x10)
  }

  lemma DigitIsRead(c: char, k: nat)
    requires k < 16 && IsDigitFor(c, k)
    ensures HexDigit(c as int) == Some(k)
  {
    assert LOWER_DIGITS[k] as int == if k < 10 then '0' as int + k else 'a' as int + (k - 10);
    assert UPPER_DIGITS[k] as int == if k < 10 then '0' as int + k else 'A' as int + (k - 10);
  }

  lemma FourDigits(n: nat)
    requires n < 0x10000
    ensures ((n / 0x1000 * 16 + n / 0x100 % 0x10) * 16 + n / 0x10 % 0x10) * 16 + n % 0x10 == n
  {
    assert n / 0x10 / 0x10 == n / 0x100 && n / 0x100 / 0x10 == n / 0x1000;
  }

  lemma DigitsAreRead(c: string, i: nat, t: string, n: nat)
    requires Spells(t, n) && Occurs(c, i, t)
    ensures HexAt(c, i) == Some(n)
  {
    hide IsDigitFor, HexDigit, Occurs;
    OccursAt(c, i, t, 0);
    OccursAt(c, i, t, 1);
    OccursAt(c, i, t, 2);
    OccursAt(c, i, t, 3);
    DigitIsRead(t[0], n / 0x1000);
    DigitIsRead(t[1], n / 0x100 % 0x10);
    DigitIsRead(t[2], n / 0x10 % 0x10);
    DigitIsRead(t[3], n % 0x10);
    FourDigits(n);
  }

  /** Where the parts of an escape in front of `rest` are. */
  lemma EscapeParts(t: string, rest: string)
    requires |t| == 4
    ensures var c := "\\u" + t + rest;
            At(c, 0) == '\\' && At(c, 1) == 'u' && Occurs(c, 2, t) && c[6..] == rest
  {
  }

  /** The two surrogates of a code point beyond 0xFFFF. */
  function Lead(cp: nat): nat
    requires 0x1_0000 <= cp <= 0x10_FFFF
  {
    0xD800 + (cp - 0x1_0000) / 0x400
  }

  function Trail(cp: nat): nat
    requires 0x1_0000 <= cp <= 0x10_FFFF
  {
    0xDC00 + (cp - 0x1_0000) % 0x400
  }

  // ------------------------------------------------------------------ \uXXXX

  /** The escape of any code point up to 0xFFFF that is no surrogate. */
  lemma EscapeIsRead(n: nat, t: string, rest: string)
    requires Spells(t, n) && !(0xD800 <= n <= 0xDFFF)
    ensures UnicodeEscape("\\u" + t + rest) == Some(Unit(n, 6))
  {
    hide Spells, HexAt, Occurs;
    assert |t| == 4 by { SpelledLength(t, n); }
    EscapeParts(t, rest);
    DigitsAreRead("\\u" + t + rest, 2, t, n);
  }

  /** The pair of escapes for any code point beyond. */
  lemma PairIsRead(cp: nat, t: string, u: string, rest: string)
    requires 0x1_0000 <= cp <= 0x10_FFFF && Spells(t, Lead(cp)) && Spells(u, Trail(cp))
    ensures UnicodeEscape("\\u" + t + ("\\u" + u + rest)) == Some(Unit(cp, 12))
  {
    hide Spells, HexAt, Occurs;
    var second := "\\u" + u + rest;
    var c := "\\u" + t + second;
    assert |t| == 4 && |u| == 4 by {
      SpelledLength(t, Lead(cp));
      SpelledLength(u, Trail(cp));
    }
    EscapeParts(t, second);
    DigitsAreRead(c, 2, t, Lead(cp));
    EscapeParts(u, rest);
    assert At(c, 6) == c[6..][0] && At(c, 7) == c[6..][1];
    OccursLater(c, second, 6, 2, u);
    DigitsAreRead(c, 8, u, Trail(cp));
  }

  lemma SpelledLength(t: string, n: nat)
    requires Spells(t, n)
    ensures |t| == 4
  {
  }

  lemma OccursLater(c: string, d: string, k: nat, i: nat, t: string)
    requires k <= |c| && c[k..] == d && Occurs(d, i, t)
    ensures Occurs(c, k + i, t)
  {
    assert c[k + i..k + i + |t|] == d[i..i + |t|];
  }

  /** A trailing surrogate alone, or a leading one without an escape behind it, is refused. */
  lemma LoneSurrogateRefused(n: nat, t: string, rest: string)
    requires Spells(t, n) && 0xD800 <= n <= 0xDFFF
    requires n >= 0xDC00 || At(rest, 0) != '\\' || At(rest, 1) != 'u'
    ensures UnicodeEscape("\\u" + t + rest) == None
  {
    hide Spells, HexAt, Occurs;
    assert |t| == 4 by { SpelledLength(t, n); }
    var c := "\\u" + t + rest;
    EscapeParts(t, rest);
    DigitsAreRead(c, 2, t, n);
    assert At(c, 6) == At(c[6..], 0) && At(c, 7) == At(c[6..], 1);
  }

  /** A leading surrogate in front of the escape of anything but a trailing one is refused. */
  lemma UnpairedRefused(n: nat, t: string, m: nat, u: string, rest: string)
    requires Spells(t, n) && 0xD800 <= n <= 0xDBFF && Spells(u, m) && !(0xDC00 <= m <= 0xDFFF)
    ensures UnicodeEscape("\\u" + t + ("\\u" + u + rest)) == None
  {
    hide Spells, HexAt, Occurs;
    var second := "\\u" + u + rest;
    var c := "\\u" + t + second;
    assert |t| == 4 && |u| == 4 by {
      SpelledLength(t, n);
      SpelledLength(u, m);
    }
    EscapeParts(t, second);
    DigitsAreRead(c, 2, t, n);
    EscapeParts(u, rest);
    OccursLater(c, second, 6, 2, u);
    DigitsAreRead(c, 8, u, m);
  }

  /** An escape with anything but a digit of either case among its four characters is refused. */
  lemma BadDigitRefused(c: string, i: nat)
    requires At(c, 0) == '\\' && At(c, 1) == 'u' && 2 <= i < 6
    requires At(c, i) !in LOWER_DIGITS && At(c, i) !in UPPER_DIGITS
    ensures UnicodeEscape(c) == None
  {
    hide HexDigit;
    if HexDigit(At(c, i) as int).Some? {
      DigitIsListed(At(c, i));
    }
  }

  lemma DigitIsListed(x: char)
    requires HexDigit(x as int).Some?
    ensures x in LOWER_DIGITS || x in UPPER_DIGITS
  {
    var k := HexDigit(x as int).value;
    assert x == LOWER_DIGITS[k] || x == UPPER_DIGITS[k];
  }

  // ------------------------------------------------------------ short escapes

  /** The characters that may follow a backslash, and what they stand for. */
  const SHORT_NAMES := "\"\\/bfnrt"
  const SHORT_MEANINGS: seq<int> := [0x22, 0x5C, 0x2F, 0x08, 0x0C, 0x0A, 0x0D, 0x09]

  /** Each short escape is read as its character, and any other character behind a backslash is refused. */
  lemma ShortEscapes(x: char, rest: string)
    requires x != 'u'
    ensures forall i | 0 <= i < 8 && SHORT_NAMES[i] == x ::
              Unescape("\\" + [x] + rest) == Prepend([SHORT_MEANINGS[i] as char], Unescape(rest))
    ensures x !in SHORT_NAMES ==> Unescape("\\" + [x] + rest) == None
  {
    hide Unescape;
    var c := "\\" + [x] + rest;
    assert c[0] == '\\' && At(c, 1) == x && c[2..] == rest;
    ShortNames(x);
    if SimpleEscape(x as int).Some? {
      UnescapeStep(c);
    } else {
      UnescapeRefused(c);
    }
  }

  lemma ShortNames(x: char)
    ensures forall i | 0 <= i < 8 && SHORT_NAMES[i] == x :: SimpleEscape(x as int) == Some(SHORT_MEANINGS[i] as char)
    ensures x !in SHORT_NAMES ==> SimpleEscape(x as int) == None
  {
    if SimpleEscape(x as int).Some? {
      assert x == SHORT_NAMES[0] || x == SHORT_NAMES[1] || x == SHORT_NAMES[2] || x == SHORT_NAMES[3]
          || x == SHORT_NAMES[4] || x == SHORT_NAMES[5] || x == SHORT_NAMES[6] || x == SHORT_NAMES[7];
    }
  }

  lemma UnescapeRefused(c: string)
    requires c != "" && FirstPiece(c) == None
    ensures Unescape(c) == None
  {
  }

  // --------------------------------------------------------------- in a string

  /** In a string, an escape is the UTF-8 bytes of its code point. */
  lemma EscapeInString(n: nat, t: string, rest: string)
    requires Spells(t, n) && !(0xD800 <= n <= 0xDFFF)
    ensures Unescape("\\u" + t + rest) == Prepend(Encode(n), Unescape(rest))
  {
    hide Spells, Unescape, UnicodeEscape, Encode;
    assert |t| == 4 by { SpelledLength(t, n); }
    EscapeIsRead(n, t, rest);
    EscapeParts(t, rest);
    UnescapeStep("\\u" + t + rest);
  }

  lemma PairInString(cp: nat, t: string, u: string, rest: string)
    requires 0x1_0000 <= cp <= 0x10_FFFF && Spells(t, Lead(cp)) && Spells(u, Trail(cp))
    ensures Unescape("\\u" + t + ("\\u" + u + rest)) == Prepend(Encode(cp), Unescape(rest))
  {
    hide Spells, Unescape, UnicodeEscape, Encode;
    assert |t| == 4 && |u| == 4 by {
      SpelledLength(t, Lead(cp));
      SpelledLength(u, Trail(cp));
    }
    var c := "\\u" + t + ("\\u" + u + rest);
    PairIsRead(cp, t, u, rest);
    EscapeParts(t, "\\u" + u + rest);
    EscapeParts(u, rest);
    assert c[12..] == c[6..][6..];
    UnescapeStep(c);
  }
}

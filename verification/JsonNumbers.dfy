/**
 How numbers are printed, digit by digit, and how close a printed fraction is
 to its number.
 */
module JsonNumbers {
  import opened JsonValues
  import opened JsonSerializer
  import opened JsonParser
  import opened JsonLayout

  function Pow10(k: nat): (p: nat)
    ensures p > 0
  {
    if k == 0 then 1 else 10 * Pow10(k - 1)
  }

  lemma DivideTwice(n: nat, p: nat)
    requires p > 0
    ensures n / (10 * p) == n / 10 / p
  {
    var a, b := n / 10, n / 10 / p;
    assert a == p * b + a % p;
    var low := 10 * (a % p) + n % 10;
    assert n == (10 * p) * b + low && 0 <= low < 10 * p;
    QuotientIs(n, 10 * p, b, low);
  }

  lemma QuotientIs(n: nat, p: nat, b: nat, low: nat)
    requires n == p * b + low && low < p
    ensures n / p == b
  {
    OneQuotient(p, b, low, n / p, n % p);
  }

  lemma OneQuotient(p: nat, b: nat, low: nat, q: nat, r: nat)
    requires p * b + low == p * q + r && low < p && r < p
    ensures b == q
  {
    if b < q {
      Product(p, q, b);
    } else if q < b {
      Product(p, b, q);
    }
  }

  lemma Product(p: nat, x: nat, y: nat)
    requires x > y
    ensures p * x >= p * y + p
  {
    assert p * x == p * y + p * (x - y);
    var d: nat := x - y - 1;
    assert p * (x - y) == p + p * d;
  }

  // -------------------------------------------------------------------- digits

  /**
   The digit at the `k`-th place from the right is the `k`-th decimal digit of
   the number, and there is one place for every digit up to the first that is not 0.
   */
  lemma {:induction false} DigitsExactly(n: nat, k: nat)
    ensures var t := DigitsText(n);
            && (k < |t| ==> t[|t| - 1 - k] == "0123456789"[n / Pow10(k) % 10])
            && (k > 0 ==> (k < |t| <==> n >= Pow10(k)))
    decreases k
  {
    if k > 0 {
      var p := Pow10(k - 1);
      assert Pow10(k) == 10 * p;
      hide Pow10;
      DivideTwice(n, p);
      if n >= 10 {
        DigitsExactly(n / 10, k - 1);
        assert n / 10 >= p <==> n >= 10 * p;
      }
    }
  }

  /** What is printed of 10^k + m behind the 1 is m with k places: behind other digits, the lower places of a number. */
  lemma {:induction false} JoinedValue(a: nat, k: nat, m: nat)
    requires m < Pow10(k)
    ensures var t := DigitsText(Pow10(k) + m);
            |t| == k + 1 && DigitsValue(DigitsText(a) + t[1..]) == a * Pow10(k) + m
    decreases k
  {
    hide DigitsText, DigitsValue;
    var front := DigitsText(a);
    if k == 0 {
      LeadingOne(front);
      DigitsTextValue(a);
    } else {
      var n, p := Pow10(k) + m, Pow10(k - 1);
      assert Pow10(k) == 10 * p && n / 10 == p + m / 10 && n % 10 == m % 10;
      hide Pow10;
      JoinedValue(a, k - 1, m / 10);
      LastDigit(n, front);
      Times(a, p);
    }
  }

  lemma LeadingOne(front: string)
    ensures |DigitsText(1)| == 1 && front + DigitsText(1)[1..] == front
  {
  }

  lemma Times(a: nat, p: nat)
    ensures a * (10 * p) == 10 * (a * p)
  {
  }

  /** The digits of a number behind other digits, without its first one, read with the last digit apart. */
  lemma LastDigit(n: nat, front: string)
    requires n >= 10 && forall i | 0 <= i < |front| :: '0' <= front[i] <= '9'
    ensures |DigitsText(n)| == |DigitsText(n / 10)| + 1
    ensures DigitsValue(front + DigitsText(n)[1..]) == DigitsValue(front + DigitsText(n / 10)[1..]) * 10 + n % 10
  {
    hide DigitsValue;
    var t, u := DigitsText(n), DigitsText(n / 10);
    var last := t[|t| - 1];
    assert t == u + [last] && t[1..] == u[1..] + [last];
    assert DigitValue(last) == n % 10;
    assert front + t[1..] == (front + u[1..]) + [last];
    ValueBehind(front + u[1..], last);
  }

  lemma ValueBehind(t: string, c: char)
    requires '0' <= c <= '9' && forall i | 0 <= i < |t| :: '0' <= t[i] <= '9'
    ensures DigitsValue(t + [c]) == DigitsValue(t) * 10 + DigitValue(c)
  {
    assert (t + [c])[..|t|] == t;
  }

  // ----------------------------------------------------------------- fractions

  /** `n` is a whole number nearest to `y`, and the even one when two are. */
  ghost predicate Nearest(y: real, n: nat) {
    && -0.5 <= y - n as real <= 0.5
    && (y - n as real == 0.5 || y - n as real == -0.5 ==> n % 2 == 0)
  }

  lemma RoundedIsNearest(y: real)
    requires y >= 0.0
    ensures Nearest(y, Rounded(y))
  {
  }

  /**
   A printed fraction: a minus sign exactly below zero, digits without a zero
   too many in front, a point and six more digits.  All the digits together are the
   whole number of millionths nearest to it, so that the text is within half a millionth.
   */
  lemma FixedExactly(x: real)
    ensures var t := FixedText(x); var w := if x < 0.0 then 1 else 0;
            && |t| >= w + 8 && (x < 0.0 ==> t[0] == '-') && t[|t| - 7] == '.'
            && (|t| > w + 8 ==> t[w] != '0')
            && var digits := t[w..|t| - 7] + t[|t| - 6..];
            && (forall i | 0 <= i < |digits| :: '0' <= digits[i] <= '9')
            && Nearest((if x < 0.0 then -x else x) * 1000000.0, DigitsValue(digits))
  {
    hide DigitsText, DigitsValue, Rounded, Nearest;
    var y := (if x < 0.0 then -x else x) * 1000000.0;
    var n := Rounded(y);
    RoundedIsNearest(y);
    var a, m := n / 1000000, n % 1000000;
    assert Pow10(6) == 1000000 by {
      assert Pow10(2) == 100 && Pow10(4) == 10000;
    }
    JoinedValue(a, 6, m);
    DigitsTextValue(a);
    var front, back := DigitsText(a), DigitsText(1000000 + m)[1..];
    var t := FixedText(x);
    var w := if x < 0.0 then 1 else 0;
    assert t == (if x < 0.0 then "-" else "") + front + "." + back;
    assert t[w..|t| - 7] == front && t[|t| - 6..] == back;
  }

  /** A 32-bit integer is printed without a point, and with one what is none. */
  lemma PointExactly(x: real, n: Int32)
    ensures x == n as real ==> RealText(x) == NumberText(n) && '.' !in RealText(x)
    ensures x != x.Floor as real || !(-0x8000_0000 <= x.Floor < 0x8000_0000) ==> '.' in RealText(x)
  {
    hide DigitsText, FixedText;
    FixedExactly(x);
    var t := FixedText(x);
    assert t[|t| - 7] == '.';
    assert x == n as real ==> x.Floor == n;
    var m: int := n;
    var digits := DigitsText(if m < 0 then -m else m);
    assert '.' !in digits && '.' !in "-" + digits;
  }
}

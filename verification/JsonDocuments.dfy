/**
 Texts of documents, spelled out: numbers, brackets inside brackets, and the
 punctuation of arrays and objects.
 */
module JsonDocuments {
  import opened CStrings
  import opened JsonStrings
  import opened JsonValues
  import opened JsonSerializer
  import opened JsonParser
  import opened JsonLayout
  import opened JsonRoundTrip

  // ------------------------------------------------------------------- numbers

  ghost predicate IsDigits(t: string) {
    t != "" && forall i | 0 <= i < |t| :: '0' <= t[i] <= '9'
  }

  /** The literal ends here. */
  ghost predicate EndsNumber(c: char) {
    !('0' <= c <= '9') && c !in ".eExX"
  }

  /** What the library makes of a literal with the value `n`: refused with a zero in front, and whole within 32 bits. */
  function NumberFrom(t: string, n: int, end: nat): Parsed<Value>
    requires t != ""
  {
    if |t| > 1 && t[0] == '0' then Fail
    else if -0x8000_0000 <= n < 0x8000_0000 then Ok(Number(n), end) else OutOfModel
  }

  /** Digits are read with the value they have in base ten, unless a zero stands in front of others. */
  lemma NumberExactly(s: string, p: nat, t: string)
    requires IsDigits(t) && Occurs(s, p, t) && EndsNumber(At(s, p + |t|))
    ensures p < |s| && NumberAt(s, p) == NumberFrom(t, DigitsValue(t), p + |t|)
  {
    hide DigitsValue, DigitsEnd, IsDecimal, Occurs;
    OccursSlice(s, p, t);
    DigitsEndAt(s, p, t);
    OccursAt(s, p, t, 0);
    DecimalIs(t);
  }

  /** The same behind a minus sign. */
  lemma NegativeExactly(s: string, p: nat, t: string)
    requires IsDigits(t) && Occurs(s, p, "-" + t) && EndsNumber(At(s, p + 1 + |t|))
    ensures p < |s| && NumberAt(s, p) == NumberFrom(t, -(DigitsValue(t) as int), p + 1 + |t|)
  {
    hide DigitsValue, DigitsEnd, IsDecimal, Occurs, IsDigits;
    NegativePlaces(s, p, t);
    NegativeIs(t);
  }

  lemma NegativePlaces(s: string, p: nat, t: string)
    requires IsDigits(t) && Occurs(s, p, "-" + t) && EndsNumber(At(s, p + 1 + |t|))
    ensures t != "" && p + 1 + |t| <= |s| && s[p] == '-' && DigitsEnd(s, p + 1) == p + 1 + |t|
    ensures s[p + 1..p + 1 + |t|] == t && s[p..p + 1 + |t|] == "-" + t
  {
    hide DigitsEnd, Occurs;
    OccursSplit(s, p, "-", t);
    OccursSlice(s, p + 1, t);
    OccursSlice(s, p, "-" + t);
    DigitsEndAt(s, p + 1, t);
    OccursAt(s, p, "-", 0);
  }

  lemma DecimalIs(t: string)
    requires IsDigits(t)
    ensures IsDecimal(t) <==> !(|t| > 1 && t[0] == '0')
  {
    NoLetters(t);
  }

  lemma NegativeIs(t: string)
    requires IsDigits(t)
    ensures IsDecimal("-" + t) <==> !(|t| > 1 && t[0] == '0')
  {
    NoLetters("-" + t);
    assert ("-" + t)[0] == '-' && ("-" + t)[1] == t[0];
    assert |t| > 1 ==> ("-" + t)[2] == t[1];
  }

  lemma NoLetters(t: string)
    requires forall i | 0 <= i < |t| :: '0' <= t[i] <= '9' || t[i] == '-'
    ensures forall i | 0 <= i < |t| :: t[i] != 'x' && t[i] != 'X' && t[i] != '.'
  {
  }

  // ------------------------------------------------------------------- nesting

  /** `n` arrays, each but the innermost with one item. */
  function Nest(n: nat): (v: Value)
    requires n > 0
    ensures v.Array?
  {
    if n == 1 then Array([], 0) else Array([Nest(n - 1)], 1)
  }

  function Repeated(c: char, n: nat): (t: string)
    ensures |t| == n && forall i | 0 <= i < n :: t[i] == c
  {
    seq(n, _ => c)
  }

  lemma {:induction false} NestIs(n: nat)
    requires n > 0
    ensures WellFormed(Nest(n)) && WholeNumbers(Nest(n)) && CleanStrings(Nest(n))
    ensures Height(Nest(n)) == n - 1 && Text(Nest(n)) == Repeated('[', n) + Repeated(']', n)
  {
    if n > 1 {
      NestIs(n - 1);
      var inner := Nest(n - 1);
      assert ItemsText([inner], 1) == "";
      assert ItemsText([inner], 0) == Text(inner) + "" + "";
      assert ItemsHeight([inner]) == 1 + Height(inner) by { assert [inner][1..] == []; }
      assert Repeated('[', n) == "[" + Repeated('[', n - 1) && Repeated(']', n) == Repeated(']', n - 1) + "]";
    } else {
      assert ItemsText([], 0) == "";
    }
  }

  /** Twenty brackets may stand inside each other, and no more. */
  lemma NestingExactly(n: nat)
    requires n > 0
    ensures ParseString(Repeated('[', n) + Repeated(']', n)).Ok? <==> n <= 20
  {
    hide ParseString, Text, Repeated;
    NestIs(n);
    RoundTrip(Nest(n));
  }

  // --------------------------------------------------------------- punctuation

  /** How the values without parts are printed. */
  lemma ScalarTexts(c: char)
    ensures Text(Null) == "null" && Text(Boolean(true)) == "true" && Text(Boolean(false)) == "false"
    ensures Text(Number(-12)) == "-12" && Text(String("")) == "\"\""
    ensures Text(String([c])) == "\"" + (if c == '"' || c == '\\' then ['\\', c] else if c == '\n' then "\\n" else EscapeChar(c)) + "\""
  {
    assert DigitsText(12) == "12" by { assert DigitsText(1) == "1"; }
    assert [c][1..] == "" && EscapeAll("") == "";
    assert EscapeAll([c]) == EscapeChar(c) + "";
  }

  /** The text of an array with two items. */
  lemma TwoItems(a: Value, b: Value)
    ensures Text(Array([a, b], 2)) == "[" + Text(a) + "," + Text(b) + "]"
  {
    hide Text;
    var items := [a, b];
    assert ItemsText(items, 2) == "";
    assert ItemsText(items, 1) == Text(b);
    assert ItemsText(items, 0) == Text(a) + "," + Text(b);
    ArrayIsBracketed(items, Text(a) + "," + Text(b));
    Regroup("[", Text(a) + ",", Text(b));
  }

  lemma ArrayIsBracketed(items: seq<Value>, t: string)
    requires ItemsText(items, 0) == t
    ensures Text(Array(items, |items|)) == "[" + t + "]"
  {
    hide ItemsText;
  }

  /** The text of an object with two members. */
  lemma TwoMembers(m: string, n: string, a: Value, b: Value)
    requires m != n
    ensures Text(Object([Member(m, a), Member(n, b)], 2)) ==
            "{" + Quoted(m) + ":" + Text(a) + "," + Quoted(n) + ":" + Text(b) + "}"
  {
    hide Quoted, Find, Text;
    var ms := [Member(m, a), Member(n, b)];
    var first, second := Quoted(m) + ":" + Text(a), Quoted(n) + ":" + Text(b);
    TwoFound(ms);
    assert MembersText(ms, 2) == "";
    assert MembersText(ms, 1) == second;
    assert MembersText(ms, 0) == first + "," + second;
    ObjectIsBraced(ms, first + "," + second);
    Regroup("{", first + ",", second);
  }

  lemma TwoFound(ms: seq<Member>)
    requires |ms| == 2 && ms[0].name != ms[1].name
    ensures Find(ms, ms[0].name) == 0 && Find(ms, ms[1].name) == 1
  {
  }

  lemma ObjectIsBraced(ms: seq<Member>, t: string)
    requires MembersText(ms, 0) == t
    ensures Text(Object(ms, |ms|)) == "{" + t + "}"
  {
    hide MembersText;
  }
}

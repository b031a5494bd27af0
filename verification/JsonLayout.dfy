/**
 Reading a tree from any text that spells it, with spaces between the tokens
 or without.
 */
module JsonLayout {
  import opened CStrings
  import opened JsonStrings
  import opened JsonValues
  import opened JsonSerializer
  import opened JsonParser

  /** How deep containers are nested below `v`. */
  function Height(v: Value): nat
    decreases v, 0
  {
    match v
    case Array(items, _) => ItemsHeight(items)
    case Object(ms, _) => MembersHeight(ms)
    case _ => 0
  }

  function Max(a: nat, b: nat): nat {
    if a > b then a else b
  }

  function ItemsHeight(items: seq<Value>): nat
    decreases items, 1
  {
    if items == [] then 0 else Max(1 + Height(items[0]), ItemsHeight(items[1..]))
  }

  function MembersHeight(ms: seq<Member>): nat
    decreases ms, 1
  {
    if ms == [] then 0 else Max(1 + Height(ms[0].value), MembersHeight(ms[1..]))
  }

  /** No name or string holds a control character that has no escape. */
  predicate CleanStrings(v: Value) {
    match v
    case String(s) => Clean(s)
    case Array(items, _) => forall i | 0 <= i < |items| :: CleanStrings(items[i])
    case Object(ms, _) => forall i | 0 <= i < |ms| :: Clean(ms[i].name) && CleanStrings(ms[i].value)
    case _ => true
  }

  /** What the parser model can read: the invariant, and 32-bit integers for numbers. */
  ghost predicate Readable(v: Value) {
    WellFormed(v) && WholeNumbers(v)
  }

  /** The two conditions for a value met at nesting `d`. */
  ghost predicate ReadsBack(v: Value, d: nat) {
    d + Height(v) <= MAX_NESTING && CleanStrings(v)
  }

  lemma {:induction false} ItemsHeightBound(items: seq<Value>, n: nat)
    ensures ItemsHeight(items) <= n <==> forall i | 0 <= i < |items| :: 1 + Height(items[i]) <= n
  {
    if items != [] {
      ItemsHeightBound(items[1..], n);
      assert forall i | 0 <= i < |items| :: items[i] == if i == 0 then items[0] else items[1..][i - 1];
      assert forall i | 0 <= i < |items| - 1 :: items[1..][i] == items[i + 1];
    }
  }

  lemma {:induction false} MembersHeightBound(ms: seq<Member>, n: nat)
    ensures MembersHeight(ms) <= n <==> forall i | 0 <= i < |ms| :: 1 + Height(ms[i].value) <= n
  {
    if ms != [] {
      MembersHeightBound(ms[1..], n);
      assert forall i | 0 <= i < |ms| :: ms[i] == if i == 0 then ms[0] else ms[1..][i - 1];
      assert forall i | 0 <= i < |ms| - 1 :: ms[1..][i] == ms[i + 1];
    }
  }

  lemma ArrayReadsBack(items: seq<Value>, cap: nat, d: nat)
    requires d <= MAX_NESTING
    ensures ReadsBack(Array(items, cap), d) <==> forall i | 0 <= i < |items| :: ReadsBack(items[i], d + 1)
  {
    ItemsHeightBound(items, MAX_NESTING - d);
  }

  lemma ObjectReadsBack(ms: seq<Member>, cap: nat, d: nat)
    requires d <= MAX_NESTING
    ensures ReadsBack(Object(ms, cap), d) <==>
            forall i | 0 <= i < |ms| :: Clean(ms[i].name) && ReadsBack(ms[i].value, d + 1)
  {
    MembersHeightBound(ms, MAX_NESTING - d);
  }

  // ---------------------------------------------------------------- numbers

  lemma {:induction false} DigitsEndAt(s: string, p: nat, t: string)
    requires Occurs(s, p, t) && forall i | 0 <= i < |t| :: IsDigit(t[i])
    requires !IsDigit(At(s, p + |t|))
    ensures DigitsEnd(s, p) == p + |t|
    decreases |t|
  {
    if t != "" {
      OccursHead(s, p, t);
      DigitsEndAt(s, p + 1, t[1..]);
    }
  }

  lemma {:induction false} DigitsTextValue(n: nat)
    ensures DigitsValue(DigitsText(n)) == n
    ensures |DigitsText(n)| > 1 ==> DigitsText(n)[0] != '0'
    ensures n == 0 ==> |DigitsText(n)| == 1
    decreases n
  {
    var t := DigitsText(n);
    assert DigitValue(t[|t| - 1]) == n % 10;
    if n < 10 {
      assert t[..|t| - 1] == "";
    } else {
      DigitsTextValue(n / 10);
      assert t[..|t| - 1] == DigitsText(n / 10);
      if |DigitsText(n / 10)| == 1 {
        assert DigitsValue(DigitsText(n / 10)) == DigitsValue("") * 10 + DigitValue(DigitsText(n / 10)[0]) by {
          assert DigitsText(n / 10)[..0] == "";
        }
      }
    }
  }

  /** What may stand behind a value in a container. */
  ghost predicate Delimited(s: string, q: nat) {
    At(s, q) == ',' || At(s, q) == ']' || At(s, q) == '}' || IsSpace(At(s, q))
  }

  /** Printed digits end where they were printed to end. */
  lemma DigitsEndBack(s: string, d: nat, m: nat)
    requires Occurs(s, d, DigitsText(m)) && Delimited(s, d + |DigitsText(m)|)
    ensures DigitsEnd(s, d) == d + |DigitsText(m)|
  {
    hide DigitsText, DigitsEnd, Occurs;
    DigitsEndAt(s, d, DigitsText(m));
  }

  /** Printed digits, behind a minus sign or not, pass is_decimal. */
  lemma PrintedIsDecimal(t: string, m: nat)
    requires t == DigitsText(m) || t == "-" + DigitsText(m)
    ensures IsDecimal(t)
  {
    hide DigitsText, DigitsValue;
    var digits := DigitsText(m);
    DigitsTextValue(m);
    if t != digits {
      assert forall i | 0 <= i < |digits| :: t[1 + i] == digits[i];
      assert forall i | 1 <= i < |t| :: t[i] == digits[i - 1];
    }
  }

  /** The digits printed for `m`, found at `d` of a literal that starts at `p`. */
  lemma DigitsParseBack(s: string, p: nat, d: nat, m: nat)
    requires p < |s| && d == (if s[p] == '-' then p + 1 else p)
    requires Occurs(s, d, DigitsText(m)) && Delimited(s, d + |DigitsText(m)|)
    ensures DigitsEnd(s, d) == d + |DigitsText(m)|
    ensures IsDecimal(s[p..d + |DigitsText(m)|])
    ensures s[d..d + |DigitsText(m)|] == DigitsText(m)
    ensures DigitsValue(DigitsText(m)) == m
  {
    hide DigitsText, DigitsValue, DigitsEnd, IsDecimal, Occurs;
    var digits := DigitsText(m);
    DigitsTextValue(m);
    DigitsEndBack(s, d, m);
    LiteralOf(s, p, d, digits);
    PrintedIsDecimal(s[p..d + |digits|], m);
  }

  lemma LiteralOf(s: string, p: nat, d: nat, digits: string)
    requires p < |s| && d == (if s[p] == '-' then p + 1 else p) && Occurs(s, d, digits)
    ensures s[d..d + |digits|] == digits
    ensures s[p..d + |digits|] == if d == p then digits else "-" + digits
  {
    if d != p {
      assert s[p..d + |digits|] == [s[p]] + s[d..d + |digits|];
    }
  }

  lemma NumberParsesBack(s: string, p: nat, n: Int32)
    requires Occurs(s, p, NumberText(n)) && Delimited(s, p + |NumberText(n)|)
    ensures NumberAt(s, p) == Ok(Number(n), p + |NumberText(n)|)
    ensures At(s, p) == '-' || IsDigit(At(s, p))
  {
    hide DigitsText, DigitsValue, DigitsEnd;
    var t := NumberText(n);
    OccursHead(s, p, t);
    var k: int := n;
    if k < 0 {
      assert t[1..] == DigitsText(-k);
      DigitsParseBack(s, p, p + 1, -k);
    } else {
      assert IsDigit(DigitsText(k)[0]);
      DigitsParseBack(s, p, p, k);
    }
  }

  // ---------------------------------------------------------------- strings

  lemma QuotedParsesBack(s: string, p: nat, t: string)
    requires NulFree(t) && Occurs(s, p, Quoted(t)) && At(s, p + |Quoted(t)|) != '\0'
    ensures QuotedAt(s, p) == if Clean(t) then Ok(t, p + |Quoted(t)|) else Fail
    ensures At(s, p) == '"'
  {
    var e := EscapeAll(t);
    var q := p + 1 + |e|;
    QuotedPieces(s, p, e);
    CloseQuoteEscaped(s, p + 1, t);
    assert s[p + 1..q] == e;
    QuotedAtQuote(s, p, q);
    UnescapeEscaped(t);
  }

  lemma QuotedPieces(s: string, p: nat, e: string)
    requires Occurs(s, p, "\"" + e + "\"")
    ensures At(s, p) == '"' && Occurs(s, p + 1, e) && At(s, p + 1 + |e|) == '"'
  {
    assert "\"" + e + "\"" == "\"" + (e + "\"");
    OccursSplit(s, p, "\"", e + "\"");
    OccursSplit(s, p + 1, e, "\"");
    OccursAt(s, p, "\"", 0);
    OccursAt(s, p + 1 + |e|, "\"", 0);
  }

  lemma QuotedAtQuote(s: string, p: nat, q: nat)
    requires p < |s| && CloseQuote(s, p + 1) == q && At(s, q) == '"' && At(s, q + 1) != '\0'
    ensures QuotedAt(s, p) == match Unescape(s[p + 1..q])
                              case None => Fail
                              case Some(t) => Ok(CStr(t), q + 1)
  {
    hide Unescape, CloseQuote, CStr;
  }

  // ----------------------------------------------------------------- values

  /** The first printed character: never a space, a closing bracket or the end. */
  lemma FirstCharacter(v: Value)
    requires v != Error
    ensures Text(v) != "" && !IsSpace(Text(v)[0])
    ensures Text(v)[0] != ']' && Text(v)[0] != '}' && Text(v)[0] != '\0'
  {
    hide DigitsText, Rounded;
    match v
    case Number(n) => NumberTextStarts(n);
    case Fraction(x) =>
      NumberTextStarts(x.Floor);
      FixedTextStarts(x);
    case _ =>
  }

  lemma NumberTextStarts(n: int)
    ensures NumberText(n) != "" && (NumberText(n)[0] == '-' || '0' <= NumberText(n)[0] <= '9')
  {
    hide DigitsText;
    if n >= 0 {
      assert '0' <= DigitsText(n)[0] <= '9';
    }
  }

  lemma FixedTextStarts(x: real)
    ensures FixedText(x) != "" && (FixedText(x)[0] == '-' || '0' <= FixedText(x)[0] <= '9')
  {
    hide DigitsText, Rounded;
    var n := Rounded((if x < 0.0 then -x else x) * 1000000.0);
    assert '0' <= DigitsText(n / 1000000)[0] <= '9';
  }

  lemma LiteralParsesBack(s: string, p: nat, v: Value)
    requires v.Null? || v.Boolean?
    requires Occurs(s, p, Text(v))
    ensures LiteralAt(s, p) == Ok(v, p + |Text(v)|)
    ensures At(s, p) == Text(v)[0]
  {
    OccursAt(s, p, Text(v), 0);
    assert StartsWith(s, p, Text(v));
    assert StartsWith(s, p, "true") ==> s[p..p + 4][0] == 't';
    assert StartsWith(s, p, "false") ==> s[p..p + 5][0] == 'f';
  }

  // ----------------------------------------------------------------- layout

  /** The characters `isspace` knows in the C locale: space, \t, \n, \v, \f and \r. */
  const SPACES: seq<int> := [0x20, 0x09, 0x0A, 0x0B, 0x0C, 0x0D]

  lemma SpacesExactly(c: char)
    ensures IsSpace(c) <==> c as int in SPACES
  {
  }

  /** From `a` to `b` there are spaces, or nothing. */
  ghost predicate Gap(s: string, a: nat, b: nat) {
    a <= b <= |s| && forall i | a <= i < b :: s[i] as int in SPACES
  }

  /** From `p` to `q` the text spells `v`: values as they are printed, and gaps between the tokens. */
  ghost predicate Spelled(s: string, p: nat, q: nat, v: Value)
    decreases v, 0
  {
    && p < q <= |s|
    && match v
       case Error => false
       case Array(items, _) =>
         s[p] == '[' && if items == [] then ClosedBy(s, p + 1, q, ']') else ItemsSpelled(s, p + 1, q, items, 0)
       case Object(ms, _) =>
         s[p] == '{' && if ms == [] then ClosedBy(s, p + 1, q, '}') else MembersSpelled(s, p + 1, q, ms, 0)
       case _ => Occurs(s, p, Text(v)) && q == p + |Text(v)|
  }

  /** A gap and a closing bracket, behind which is `q`. */
  ghost predicate ClosedBy(s: string, p: nat, q: nat, bracket: char) {
    q > 0 && Gap(s, p, q - 1) && At(s, q - 1) == bracket
  }

  /** The items from the `i`-th on, with gaps around them, and the bracket. */
  ghost predicate ItemsSpelled(s: string, p: nat, q: nat, items: seq<Value>, i: nat)
    requires i < |items|
    decreases items, |items| - i
  {
    exists a: nat, b: nat, c: nat ::
      && Gap(s, p, a) && Spelled(s, a, b, items[i]) && Gap(s, b, c)
      && if i + 1 == |items| then At(s, c) == ']' && q == c + 1
         else At(s, c) == ',' && ItemsSpelled(s, c + 1, q, items, i + 1)
  }

  /** A name, a colon and a value, with gaps around the colon. */
  ghost predicate MemberSpelled(s: string, p: nat, q: nat, name: string, v: Value)
    decreases v, 1
  {
    && Occurs(s, p, Quoted(name))
    && exists b: nat, c: nat :: Gap(s, p + |Quoted(name)|, b) && At(s, b) == ':' && Gap(s, b + 1, c) && Spelled(s, c, q, v)
  }

  ghost predicate MembersSpelled(s: string, p: nat, q: nat, ms: seq<Member>, i: nat)
    requires i < |ms|
    decreases ms, |ms| - i
  {
    exists a: nat, b: nat, c: nat ::
      && Gap(s, p, a) && MemberSpelled(s, a, b, ms[i].name, ms[i].value) && Gap(s, b, c)
      && if i + 1 == |ms| then At(s, c) == '}' && q == c + 1
         else At(s, c) == ',' && MembersSpelled(s, c + 1, q, ms, i + 1)
  }

  /** A gap in front of something else is skipped. */
  lemma {:induction false} GapSkipped(s: string, a: nat, b: nat)
    requires Gap(s, a, b) && !IsSpace(At(s, b))
    ensures SkipSpaces(s, a) == b
    decreases b - a
  {
    if a < b {
      SpacesExactly(s[a]);
      GapSkipped(s, a + 1, b);
    }
  }

  /** What follows a value is a delimiter. */
  lemma GapDelimits(s: string, b: nat, c: nat)
    requires Gap(s, b, c) && (At(s, c) == ',' || At(s, c) == ']' || At(s, c) == '}')
    ensures Delimited(s, b) && b <= c < |s| && SkipSpaces(s, b) == c
  {
    GapSkipped(s, b, c);
    if b < c {
      SpacesExactly(s[b]);
    }
  }

  /** A spelled value starts with its first character. */
  lemma SpelledStarts(s: string, p: nat, q: nat, v: Value)
    requires Spelled(s, p, q, v)
    ensures v != Error && p < q <= |s|
    ensures !IsSpace(s[p]) && !IsSpace(At(s, p)) && s[p] != ']' && s[p] != '}' && s[p] != '\0'
  {
    hide ItemsSpelled, MembersSpelled, Text, Occurs;
    if !v.Array? && !v.Object? {
      FirstCharacter(v);
      OccursAt(s, p, Text(v), 0);
    }
  }

  // ------------------------------------------------------------------- reading

  /** However it is laid out, a spelled value is read, or refused, exactly by the two conditions. */
  lemma {:induction false} SpelledIsRead(s: string, p: nat, q: nat, v: Value, d: nat)
    requires Readable(v) && Spelled(s, p, q, v)
    requires Delimited(s, q) || v.Array? || v.Object?
    ensures ValueAt(s, p, d) == if ReadsBack(v, d) then Ok(Trim(v), q) else Fail
    decreases v, 2
  {
    hide ArrayAt, ObjectAt, NumberAt, QuotedAt, LiteralAt, ItemsSpelled, MembersSpelled, CloseQuote, Unescape, EscapeAll,
      DigitsText, ItemsText, MembersText, ClosedBy, Occurs;
    if d <= MAX_NESTING {
      SpelledStarts(s, p, q, v);
      assert SkipSpaces(s, p) == p;
      match v {
        case Null => LiteralParsesBack(s, p, v);
        case Boolean(_) => LiteralParsesBack(s, p, v);
        case Number(n) => NumberParsesBack(s, p, n);
        case String(t) => QuotedParsesBack(s, p, t);
        case Array(items, cap) => ArrayIsRead(s, p, q, items, cap, d);
        case Object(ms, cap) => ObjectIsRead(s, p, q, ms, cap, d);
      }
    }
  }

  lemma ClosedAtOnce(s: string, p: nat, q: nat, bracket: char)
    requires ClosedBy(s, p, q, bracket) && (bracket == ']' || bracket == '}')
    ensures q > 0 && SkipSpaces(s, p) == q - 1
  {
    GapSkipped(s, p, q - 1);
  }

  // ----------------------------------------------------------------- arrays

  lemma {:induction false} ArrayIsRead(s: string, p: nat, q: nat, items: seq<Value>, cap: nat, d: nat)
    requires Readable(Array(items, cap)) && Spelled(s, p, q, Array(items, cap)) && d <= MAX_NESTING
    ensures p < |s| && ArrayAt(s, p, d + 1) == if ReadsBack(Array(items, cap), d) then Ok(Trim(Array(items, cap)), q) else Fail
    decreases items, |items| + 2
  {
    hide ValueAt, ItemsAt, ItemsSpelled, SkipSpaces;
    ArrayReadsBack(items, cap, d);
    if items == [] {
      ClosedAtOnce(s, p + 1, q, ']');
    } else {
      ItemsAreRead(s, p + 1, q, items, 0, 0, d + 1);
      assert TrimItems(items)[..0] == [];
    }
  }

  ghost predicate ItemsReadBack(items: seq<Value>, i: nat, d: nat) {
    forall k | i <= k < |items| :: ReadsBack(items[k], d)
  }
  /** Where a spelled item is, and what follows it. */
  lemma ItemPlaces(s: string, p: nat, q: nat, items: seq<Value>, i: nat) returns (a: nat, b: nat, c: nat)
    requires i < |items| && ItemsSpelled(s, p, q, items, i)
    ensures Gap(s, p, a) && Spelled(s, a, b, items[i]) && Gap(s, b, c)
    ensures if i + 1 == |items| then At(s, c) == ']' && q == c + 1
            else At(s, c) == ',' && ItemsSpelled(s, c + 1, q, items, i + 1)
  {
    hide Gap, Spelled;
    a, b, c :|
      && Gap(s, p, a) && Spelled(s, a, b, items[i]) && Gap(s, b, c)
      && if i + 1 == |items| then At(s, c) == ']' && q == c + 1
         else At(s, c) == ',' && ItemsSpelled(s, c + 1, q, items, i + 1);
  }

  /** The rest of an array, from the gap in front of its `i`-th item on. */
  lemma {:induction false} ItemsAreRead(s: string, p: nat, q: nat, items: seq<Value>, i: nat, cap: nat, d: nat)
    requires i < |items| <= ARRAY_MAX_CAPACITY && forall k | 0 <= k < |items| :: Readable(items[k])
    requires p <= |s| && ItemsSpelled(s, p, q, items, i)
    requires InChain(cap) && i <= cap <= ARRAY_MAX_CAPACITY
    ensures At(s, SkipSpaces(s, p)) != ']'
    ensures ItemsAt(s, SkipSpaces(s, p), TrimItems(items)[..i], cap, d) ==
            if ItemsReadBack(items, i, d) then Ok(Array(TrimItems(items), |items|), q) else Fail
    decreases items, |items| - i
  {
    hide Gap, ReadsBack, Readable, ValueAt, ItemRound, Spelled, SkipSpaces, TrimItems, InChain, GrownCapacity, IsSpace, Delimited;
    var a, b, c := ItemPlaces(s, p, q, items, i);
    hide ItemsSpelled;
    SpelledStarts(s, a, b, items[i]);
    GapSkipped(s, p, a);
    GapDelimits(s, b, c);
    SpelledIsRead(s, a, b, items[i], d);
    assert ItemsReadBack(items, i, d) <==> ReadsBack(items[i], d) && ItemsReadBack(items, i + 1, d);
    if ReadsBack(items[i], d) {
      ItemRoundIs(s, a, b, items, i, cap, d);
      if i + 1 == |items| {
        assert TrimItems(items)[..i + 1] == TrimItems(items);
      } else {
        ChainGrows(i, cap, ARRAY_MAX_CAPACITY);
        ItemsAreRead(s, c + 1, q, items, i + 1, GrownCapacity(i, cap), d);
      }
    } else {
      RoundFails(s, a, items, i, cap, d);
    }
  }

  lemma RoundFails(s: string, p: nat, items: seq<Value>, i: nat, cap: nat, d: nat)
    requires i <= |items| && p <= |s| && ValueAt(s, p, d) == Fail
    ensures ItemRound(s, p, TrimItems(items)[..i], cap, d) == Abort(false)
  {
    hide ValueAt;
  }

  /** One round over the array: the item, and the comma or the bracket behind the gap. */
  lemma ItemRoundIs(s: string, a: nat, b: nat, items: seq<Value>, i: nat, cap: nat, d: nat)
    requires i < |items| <= ARRAY_MAX_CAPACITY && a <= |s| && b <= |s|
    requires InChain(cap) && i <= cap <= ARRAY_MAX_CAPACITY && ValueAt(s, a, d) == Ok(Trim(items[i]), b)
    ensures var c := SkipSpaces(s, b);
            var done := TrimItems(items)[..i + 1];
            ItemRound(s, a, TrimItems(items)[..i], cap, d) ==
            if At(s, c) == ',' then More(SkipSpaces(s, c + 1), done, GrownCapacity(i, cap))
            else Done(c, done, GrownCapacity(i, cap))
  {
    hide ValueAt, SkipSpaces;
    ChainGrows(i, cap, ARRAY_MAX_CAPACITY);
    assert TrimItems(items)[..i] + [Trim(items[i])] == TrimItems(items)[..i + 1];
  }

  // ---------------------------------------------------------------- objects

  lemma {:induction false} ObjectIsRead(s: string, p: nat, q: nat, ms: seq<Member>, cap: nat, d: nat)
    requires Readable(Object(ms, cap)) && Spelled(s, p, q, Object(ms, cap)) && d <= MAX_NESTING
    ensures p < |s| && ObjectAt(s, p, d + 1) == if ReadsBack(Object(ms, cap), d) then Ok(Trim(Object(ms, cap)), q) else Fail
    decreases ms, |ms| + 2
  {
    hide ValueAt, MembersAt, MembersSpelled, SkipSpaces;
    ObjectReadsBack(ms, cap, d);
    if ms == [] {
      ClosedAtOnce(s, p + 1, q, '}');
    } else {
      MembersAreRead(s, p + 1, q, ms, 0, 0, d + 1);
      assert TrimMembers(ms)[..0] == [];
    }
  }

  lemma QuotedStarts(name: string)
    ensures |Quoted(name)| >= 2 && Quoted(name)[0] == '"'
  {
  }

  /** A name, its colon and its value, with gaps between them. */
  lemma {:induction false} MemberIsRead(s: string, p: nat, q: nat, name: string, v: Value, d: nat)
    requires NulFree(name) && Readable(v) && MemberSpelled(s, p, q, name, v) && Delimited(s, q)
    ensures p < |s| && s[p] == '"' && !IsSpace(At(s, p)) && q <= |s|
    ensures !Clean(name) ==> KeyAt(s, p) == Fail
    ensures Clean(name) ==>
              KeyAt(s, p).Ok? && KeyAt(s, p).value == name
              && ValueAt(s, KeyAt(s, p).pos, d) == if ReadsBack(v, d) then Ok(Trim(v), q) else Fail
    decreases v, 3
  {
    hide QuotedAt, Quoted, Occurs, Gap, Spelled, Readable, Delimited, ValueAt, SkipSpaces, ReadsBack, Clean;
    var k := p + |Quoted(name)|;
    var b: nat, c: nat :| Gap(s, k, b) && At(s, b) == ':' && Gap(s, b + 1, c) && Spelled(s, c, q, v);
    QuotedStarts(name);
    OccursAt(s, p, Quoted(name), 0);
    GapIsRange(s, k, b);
    GapSkipped(s, k, b);
    NotYetTheEnd(s, k, b);
    QuotedParsesBack(s, p, name);
    SpelledStarts(s, c, q, v);
    GapSkipped(s, b + 1, c);
    SpelledIsRead(s, c, q, v, d);
    GapIsRange(s, b + 1, c);
    SpacesInFront(s, b + 1, c, d);
  }

  lemma GapIsRange(s: string, a: nat, b: nat)
    requires Gap(s, a, b)
    ensures a <= b <= |s|
  {
  }

  lemma NotYetTheEnd(s: string, k: nat, b: nat)
    requires Gap(s, k, b) && At(s, b) == ':'
    ensures At(s, k) != '\0'
  {
  }

  /** Spaces in front of a value are skipped. */
  lemma SpacesInFront(s: string, p: nat, a: nat, d: nat)
    requires p <= a <= |s| && SkipSpaces(s, p) == a && !IsSpace(At(s, a))
    ensures ValueAt(s, p, d) == ValueAt(s, a, d)
  {
    hide ArrayAt, ObjectAt, NumberAt, StringAt, LiteralAt;
  }

  /** A name that is not among the first `i` is new to the parser. */
  lemma NewName(ms: seq<Member>, i: nat)
    requires DistinctNames(ms) && i < |ms|
    ensures Lookup(TrimMembers(ms)[..i], ms[i].name) == Error
  {
  }

  ghost predicate MembersReadBack(ms: seq<Member>, i: nat, d: nat) {
    forall k | i <= k < |ms| :: Clean(ms[k].name) && ReadsBack(ms[k].value, d)
  }
  /** Where a spelled member is, and what follows it. */
  lemma MemberPlaces(s: string, p: nat, q: nat, ms: seq<Member>, i: nat) returns (a: nat, b: nat, c: nat)
    requires i < |ms| && MembersSpelled(s, p, q, ms, i)
    ensures Gap(s, p, a) && MemberSpelled(s, a, b, ms[i].name, ms[i].value) && Gap(s, b, c)
    ensures if i + 1 == |ms| then At(s, c) == '}' && q == c + 1
            else At(s, c) == ',' && MembersSpelled(s, c + 1, q, ms, i + 1)
  {
    hide Gap, MemberSpelled;
    a, b, c :|
      && Gap(s, p, a) && MemberSpelled(s, a, b, ms[i].name, ms[i].value) && Gap(s, b, c)
      && if i + 1 == |ms| then At(s, c) == '}' && q == c + 1
         else At(s, c) == ',' && MembersSpelled(s, c + 1, q, ms, i + 1);
  }

  /** The rest of an object, from the gap in front of its `i`-th member on. */
  lemma {:induction false} MembersAreRead(s: string, p: nat, q: nat, ms: seq<Member>, i: nat, cap: nat, d: nat)
    requires i < |ms| <= OBJECT_MAX_CAPACITY && DistinctNames(ms)
    requires forall k | 0 <= k < |ms| :: NulFree(ms[k].name) && Readable(ms[k].value)
    requires p <= |s| && MembersSpelled(s, p, q, ms, i)
    requires InChain(cap) && i <= cap <= OBJECT_MAX_CAPACITY
    ensures At(s, SkipSpaces(s, p)) != '}'
    ensures MembersAt(s, SkipSpaces(s, p), TrimMembers(ms)[..i], cap, d) ==
            if MembersReadBack(ms, i, d) then Ok(Object(TrimMembers(ms), |ms|), q) else Fail
    decreases ms, |ms| - i
  {
    hide Gap, ReadsBack, Readable, ValueAt, MemberRound, KeyAt, MemberSpelled, SkipSpaces, Clean, TrimMembers, InChain,
      GrownCapacity, IsSpace, Delimited;
    var v := ms[i].value;
    var a, b, c := MemberPlaces(s, p, q, ms, i);
    hide MembersSpelled, DistinctNames;
    GapDelimits(s, b, c);
    MemberIsRead(s, a, b, ms[i].name, v, d);
    GapSkipped(s, p, a);
    assert MembersReadBack(ms, i, d) <==>
           (Clean(ms[i].name) && ReadsBack(v, d)) && MembersReadBack(ms, i + 1, d);
    if Clean(ms[i].name) && ReadsBack(v, d) {
      ReadableIsValue(v);
      MemberRoundIs(s, a, b, ms, i, cap, d);
      if i + 1 == |ms| {
        assert TrimMembers(ms)[..i + 1] == TrimMembers(ms);
      } else {
        ChainGrows(i, cap, OBJECT_MAX_CAPACITY);
        MembersAreRead(s, c + 1, q, ms, i + 1, GrownCapacity(i, cap), d);
      }
    } else {
      MemberRoundFails(s, a, ms, i, cap, d);
    }
  }

  lemma ReadableIsValue(v: Value)
    requires Readable(v)
    ensures v != Error
  {
  }

  lemma MemberRoundFails(s: string, p: nat, ms: seq<Member>, i: nat, cap: nat, d: nat)
    requires i <= |ms| && p < |s|
    requires KeyAt(s, p) == Fail || (KeyAt(s, p).Ok? && ValueAt(s, KeyAt(s, p).pos, d) == Fail)
    ensures MemberRound(s, p, TrimMembers(ms)[..i], cap, d) == Abort(false)
  {
    hide ValueAt, KeyAt;
  }

  /** One round over the object: the member, and the comma or the bracket behind the gap. */
  lemma MemberRoundIs(s: string, a: nat, b: nat, ms: seq<Member>, i: nat, cap: nat, d: nat)
    requires i < |ms| <= OBJECT_MAX_CAPACITY && DistinctNames(ms) && ms[i].value != Error
    requires InChain(cap) && i <= cap <= OBJECT_MAX_CAPACITY && a < |s| && b <= |s|
    requires KeyAt(s, a).Ok? && KeyAt(s, a).value == ms[i].name
    requires ValueAt(s, KeyAt(s, a).pos, d) == Ok(Trim(ms[i].value), b)
    ensures var c := SkipSpaces(s, b);
            var done := TrimMembers(ms)[..i + 1];
            MemberRound(s, a, TrimMembers(ms)[..i], cap, d) ==
            if At(s, c) == ',' then More(SkipSpaces(s, c + 1), done, GrownCapacity(i, cap))
            else Done(c, done, GrownCapacity(i, cap))
  {
    hide ValueAt, KeyAt, SkipSpaces;
    ChainGrows(i, cap, OBJECT_MAX_CAPACITY);
    NewName(ms, i);
    assert TrimMembers(ms)[..i] + [Member(ms[i].name, Trim(ms[i].value))] == TrimMembers(ms)[..i + 1];
  }

  // ----------------------------------------------------------------- documents

  /** A document is read from any spelling of it, spaces in front included. */
  lemma DocumentIsRead(s: string, p: nat, q: nat, v: Value)
    requires WellFormed(v) && WholeNumbers(v) && (v.Array? || v.Object?)
    requires Gap(s, 0, p) && Spelled(s, p, q, v)
    ensures ParseString(s) == if Height(v) <= 19 && CleanStrings(v) then Ok(Trim(v), q) else Fail
  {
    hide ValueAt, Gap, SkipSpaces, ItemsSpelled, MembersSpelled, ClosedBy, WellFormed, WholeNumbers, CleanStrings;
    SpelledStarts(s, p, q, v);
    GapSkipped(s, 0, p);
    SpelledIsRead(s, p, q, v, 0);
  }

  /** So spaces between the tokens do not change what is parsed. */
  lemma SpacesDoNotMatter(s: string, p: nat, q: nat, t: string, k: nat, l: nat, v: Value)
    requires WellFormed(v) && WholeNumbers(v) && (v.Array? || v.Object?)
    requires Gap(s, 0, p) && Spelled(s, p, q, v) && Gap(t, 0, k) && Spelled(t, k, l, v)
    ensures ParseString(s).Ok? <==> ParseString(t).Ok?
    ensures ParseString(s).Ok? ==> ParseString(s).value == ParseString(t).value
  {
    hide ParseString, Gap, Spelled;
    DocumentIsRead(s, p, q, v);
    DocumentIsRead(t, k, l, v);
  }
}

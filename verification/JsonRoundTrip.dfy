/**
 Printing a tree and parsing the text: when the tree comes back, and what the
 parser can produce at all.
 */
module JsonRoundTrip {
  import opened CStrings
  import opened JsonStrings
  import opened JsonValues
  import opened JsonSerializer
  import opened JsonParser
  import opened JsonLayout

  // ------------------------------------------------------ a print is a spelling

  /** The text of the items from the `i`-th on, and the bracket behind it. */
  lemma ItemsTextStep(items: seq<Value>, i: nat)
    requires i < |items|
    ensures ItemsText(items, i) + "]" == Text(items[i]) + Comma(i, |items|) + (ItemsText(items, i + 1) + "]")
    ensures i + 1 == |items| ==> ItemsText(items, i + 1) + "]" == "]"
  {
    hide Text;
    var t, rest := Text(items[i]) + Comma(i, |items|), ItemsText(items, i + 1);
    assert t + rest + "]" == t + (rest + "]");
  }

  /** It begins as the `i`-th item does. */
  lemma ItemsTextHead(items: seq<Value>, i: nat)
    requires i < |items| && items[i] != Error
    ensures ItemsText(items, i) + "]" != "" && Text(items[i]) != "" && (ItemsText(items, i) + "]")[0] == Text(items[i])[0]
  {
    hide Text, ItemsText;
    FirstCharacter(items[i]);
    ItemsTextStep(items, i);
  }

  /** Where the item, the separator behind it and the rest are found. */
  lemma ItemPieces(s: string, p: nat, items: seq<Value>, i: nat)
    requires i < |items| && forall k | 0 <= k < |items| :: Readable(items[k])
    requires Occurs(s, p, ItemsText(items, i) + "]")
    ensures At(s, p) != '\0' && Occurs(s, p, Text(items[i]))
    ensures var q := p + |Text(items[i])|;
            if i + 1 == |items| then At(s, q) == ']'
            else At(s, q) == ',' && Occurs(s, q + 1, ItemsText(items, i + 1) + "]") && !IsSpace(At(s, q + 1))
  {
    hide Text, ItemsText, SkipSpaces, Occurs;
    var t, rest := Text(items[i]), ItemsText(items, i + 1) + "]";
    ItemsTextStep(items, i);
    NextElement(s, p, t, Comma(i, |items|), rest, ItemsText(items, i) + "]");
    FirstCharacter(items[i]);
    OccursAt(s, p, t, 0);
    OccursAt(s, p + |t| + |Comma(i, |items|)|, rest, 0);
    if i + 1 < |items| {
      FirstCharacter(items[i + 1]);
      ItemsTextHead(items, i + 1);
    }
  }

  /** An element, the comma or nothing behind it, and the rest occur in turn. */
  lemma NextElement(s: string, p: nat, t: string, comma: string, rest: string, whole: string)
    requires Occurs(s, p, whole) && whole == t + comma + rest
    requires comma == "" || comma == ","
    ensures Occurs(s, p, t) && Occurs(s, p + |t| + |comma|, rest)
    ensures comma != "" ==> At(s, p + |t|) == ','
  {
    assert t + comma + rest == t + (comma + rest);
    OccursSplit(s, p, t, comma + rest);
    OccursSplit(s, p + |t|, comma, rest);
    if comma != "" {
      OccursAt(s, p + |t|, comma, 0);
    }
  }

  lemma MembersTextLength(ms: seq<Member>, i: nat)
    requires i < |ms| && DistinctNames(ms)
    ensures |MembersText(ms, i)| == |Quoted(ms[i].name)| + 1 + |Text(ms[i].value)|
                                    + if i + 1 == |ms| then 0 else 1 + |MembersText(ms, i + 1)|
  {
    hide Text, EscapeAll;
    FindByIndex(ms, i);
  }

  /** Where the member, the separator behind it and the rest are found. */
  lemma MemberPieces(s: string, p: nat, ms: seq<Member>, i: nat)
    requires i < |ms| && DistinctNames(ms)
    requires Occurs(s, p, MembersText(ms, i) + "}")
    ensures At(s, p) == '"' && Occurs(s, p, Quoted(ms[i].name) + ":" + Text(ms[i].value))
    ensures var q := p + |Quoted(ms[i].name)| + 1 + |Text(ms[i].value)|;
            if i + 1 == |ms| then At(s, q) == '}'
            else At(s, q) == ',' && Occurs(s, q + 1, MembersText(ms, i + 1) + "}") && At(s, q + 1) == '"'
  {
    hide Text, EscapeAll, Occurs;
    FindByIndex(ms, i);
    var t, rest := MemberText(ms, i), MembersText(ms, i + 1) + "}";
    assert t == Quoted(ms[i].name) + ":" + Text(ms[i].value);
    NextElement(s, p, t, Comma(i, |ms|), rest, MembersText(ms, i) + "}");
    OccursAt(s, p, t, 0);
    OccursAt(s, p + |t| + |Comma(i, |ms|)|, rest, 0);
    if i + 1 < |ms| {
      MembersTextHead(ms, i + 1);
      assert rest[0] == MembersText(ms, i + 1)[0];
    }
  }

  lemma MembersTextHead(ms: seq<Member>, i: nat)
    requires i < |ms|
    ensures MembersText(ms, i) != "" && MembersText(ms, i)[0] == '"'
  {
    var t := MemberText(ms, i);
    assert t[0] == '"';
    assert MembersText(ms, i)[0] == t[0];
  }

  lemma NoGap(s: string, p: nat)
    requires p <= |s|
    ensures Gap(s, p, p)
  {
  }

  /** The print of a tree spells it, without gaps. */
  lemma {:induction false} PrintSpells(s: string, p: nat, v: Value)
    requires Readable(v) && Occurs(s, p, Text(v))
    ensures Spelled(s, p, p + |Text(v)|, v)
    decreases v, 0
  {
    hide Occurs, ArrayText, ObjectText, ItemsSpelled, MembersSpelled, Gap, Quoted, DigitsText;
    match v
    case Array(items, cap) => ArrayPrintSpells(s, p, items, cap);
    case Object(ms, cap) => ObjectPrintSpells(s, p, ms, cap);
    case _ =>
      FirstCharacter(v);
      OccursRange(s, p, Text(v));
  }

  /** Brackets around a body. */
  lemma BracketsAround(s: string, p: nat, open: string, body: string, close: string)
    requires |open| == 1 == |close| && Occurs(s, p, open + body + close)
    ensures p + |body| + 2 <= |s| && s[p] == open[0] && Occurs(s, p + 1, body + close)
    ensures At(s, p + 1 + |body|) == close[0]
  {
    hide Occurs;
    assert open + body + close == open + (body + close);
    OccursRange(s, p, open + body + close);
    OccursSplit(s, p, open, body + close);
    OccursAt(s, p, open, 0);
    OccursSplit(s, p + 1, body, close);
    OccursAt(s, p + 1 + |body|, close, 0);
  }

  lemma {:induction false} ArrayPrintSpells(s: string, p: nat, items: seq<Value>, cap: nat)
    requires Readable(Array(items, cap)) && Occurs(s, p, ArrayText(items))
    ensures Spelled(s, p, p + |ArrayText(items)|, Array(items, cap))
    decreases items, |items| + 1
  {
    hide Occurs, ItemsSpelled, Gap, Text;
    BracketsAround(s, p, "[", ItemsText(items, 0), "]");
    if items == [] {
      NoGap(s, p + 1);
    } else {
      hide ItemsText;
      ItemsPrintSpells(s, p + 1, items, 0);
    }
  }

  lemma {:induction false} ObjectPrintSpells(s: string, p: nat, ms: seq<Member>, cap: nat)
    requires Readable(Object(ms, cap)) && Occurs(s, p, ObjectText(ms))
    ensures Spelled(s, p, p + |ObjectText(ms)|, Object(ms, cap))
    decreases ms, |ms| + 1
  {
    hide Occurs, MembersSpelled, Gap, Text, MemberText, DistinctNames;
    BracketsAround(s, p, "{", MembersText(ms, 0), "}");
    if ms == [] {
      NoGap(s, p + 1);
    } else {
      hide MembersText;
      MembersPrintSpells(s, p + 1, ms, 0);
    }
  }

  lemma OccursRange(s: string, p: nat, t: string)
    requires Occurs(s, p, t)
    ensures p + |t| <= |s|
  {
  }

  lemma {:induction false} ItemsPrintSpells(s: string, p: nat, items: seq<Value>, i: nat)
    requires i < |items| && forall k | 0 <= k < |items| :: Readable(items[k])
    requires Occurs(s, p, ItemsText(items, i) + "]")
    ensures ItemsSpelled(s, p, p + |ItemsText(items, i)| + 1, items, i)
    decreases items, |items| - i
  {
    hide Occurs, Text, Spelled, Readable, Gap;
    var b := p + |Text(items[i])|;
    ItemPieces(s, p, items, i);
    OccursRange(s, p, Text(items[i]));
    PrintSpells(s, p, items[i]);
    NoGap(s, p);
    NoGap(s, b);
    if i + 1 < |items| {
      ItemsPrintSpells(s, b + 1, items, i + 1);
    }
    assert Gap(s, p, p) && Spelled(s, p, b, items[i]) && Gap(s, b, b);
  }

  lemma {:induction false} MemberPrintSpells(s: string, p: nat, m: Member)
    requires Readable(m.value) && Occurs(s, p, Quoted(m.name) + ":" + Text(m.value))
    ensures MemberSpelled(s, p, p + |Quoted(m.name)| + 1 + |Text(m.value)|, m.name, m.value)
    decreases m, 1
  {
    hide Occurs, Text, Spelled, Readable, Gap, Quoted;
    var name, t := Quoted(m.name), Text(m.value);
    assert name + ":" + t == name + (":" + t);
    OccursSplit(s, p, name, ":" + t);
    OccursSplit(s, p + |name|, ":", t);
    OccursAt(s, p + |name|, ":", 0);
    OccursRange(s, p + |name| + 1, t);
    PrintSpells(s, p + |name| + 1, m.value);
    NoGap(s, p + |name|);
    NoGap(s, p + |name| + 1);
  }

  lemma {:induction false} MembersPrintSpells(s: string, p: nat, ms: seq<Member>, i: nat)
    requires i < |ms| && DistinctNames(ms) && forall k | 0 <= k < |ms| :: Readable(ms[k].value)
    requires Occurs(s, p, MembersText(ms, i) + "}")
    ensures MembersSpelled(s, p, p + |MembersText(ms, i)| + 1, ms, i)
    decreases ms, |ms| - i
  {
    hide Occurs, Text, MemberSpelled, Readable, Gap, Quoted, MembersText, MemberText;
    var t := Quoted(ms[i].name) + ":" + Text(ms[i].value);
    var b := p + |t|;
    MemberPieces(s, p, ms, i);
    MembersTextLength(ms, i);
    OccursRange(s, p, t);
    MemberPrintSpells(s, p, ms[i]);
    NoGap(s, p);
    NoGap(s, b);
    if i + 1 < |ms| {
      MembersPrintSpells(s, b + 1, ms, i + 1);
    }
    assert Gap(s, p, p) && MemberSpelled(s, p, b, ms[i].name, ms[i].value) && Gap(s, b, b);
  }

  /** The printed text of a value reads back, or is refused, exactly by the two conditions. */
  lemma ParsesBack(s: string, p: nat, v: Value, d: nat)
    requires Readable(v) && Occurs(s, p, Text(v))
    requires Delimited(s, p + |Text(v)|) || v.Array? || v.Object?
    ensures ValueAt(s, p, d) == if ReadsBack(v, d) then Ok(Trim(v), p + |Text(v)|) else Fail
  {
    hide Occurs, Text, Spelled, Readable, ValueAt, ReadsBack;
    PrintSpells(s, p, v);
    SpelledIsRead(s, p, p + |Text(v)|, v, d);
  }

  /**
   The round trip.  A well-formed object or array of whole numbers is printed and parsed back
   to the same tree in the same order, with capacities trimmed, if and only if
   nothing in it is nested deeper than 19 and no string or name holds a
   control character without an escape; otherwise the parser returns NULL.
   */
  lemma RoundTrip(v: Value)
    requires WellFormed(v) && WholeNumbers(v) && (v.Array? || v.Object?)
    ensures ParseString(Text(v)) ==
            if Height(v) <= 19 && CleanStrings(v) then Ok(Trim(v), |Text(v)|) else Fail
  {
    hide Text, ParseString, Spelled;
    var s := Text(v);
    assert s[0..|s|] == s;
    PrintSpells(s, 0, v);
    NoGap(s, 0);
    DocumentIsRead(s, 0, |s|, v);
  }

  // --------------------------------------------------- what the parser produces

  /** A value as the parser makes them at nesting `d`: well-formed, of whole numbers, trimmed, not too deep. */
  ghost predicate AsParsed(v: Value, d: nat) {
    WellFormed(v) && WholeNumbers(v) && Trim(v) == v && d + Height(v) <= MAX_NESTING
  }

  lemma {:induction false} ValueAsParsed(s: string, p: nat, d: nat)
    requires p <= |s| && ValueAt(s, p, d).Ok?
    ensures AsParsed(ValueAt(s, p, d).value, d)
    decreases |s| - p, 3
  {
    hide ArrayAt, ObjectAt, CloseQuote, Unescape, DigitsEnd;
    var q := SkipSpaces(s, p);
    if At(s, q) == '{' {
      ObjectAsParsed(s, q, d);
    } else if At(s, q) == '[' {
      ArrayAsParsed(s, q, d);
    }
  }

  lemma {:induction false} ArrayAsParsed(s: string, p: nat, d: nat)
    requires p < |s| && d <= MAX_NESTING && ArrayAt(s, p, d + 1).Ok?
    ensures AsParsed(ArrayAt(s, p, d + 1).value, d)
    decreases |s| - p, 2
  {
    hide ItemsAt;
    var q := SkipSpaces(s, p + 1);
    if At(s, q) != ']' {
      ItemsAsParsed(s, q, [], 0, d);
    }
  }

  lemma ArrayOfParsed(items: seq<Value>, d: nat)
    requires d <= MAX_NESTING && |items| <= ARRAY_MAX_CAPACITY
    requires forall i | 0 <= i < |items| :: AsParsed(items[i], d + 1)
    ensures AsParsed(Array(items, |items|), d)
  {
    ItemsHeightBound(items, MAX_NESTING - d);
    assert TrimItems(items) == items;
  }

  lemma {:induction false} ItemsAsParsed(s: string, p: nat, items: seq<Value>, cap: nat, d: nat)
    requires p <= |s| && d <= MAX_NESTING && ItemsAt(s, p, items, cap, d + 1).Ok?
    requires |items| <= cap <= ARRAY_MAX_CAPACITY
    requires forall i | 0 <= i < |items| :: AsParsed(items[i], d + 1)
    ensures AsParsed(ItemsAt(s, p, items, cap, d + 1).value, d)
    decreases |s| - p, 5
  {
    hide ValueAt, AsParsed, SkipSpaces;
    ValueAsParsed(s, p, d + 1);
    match ItemRound(s, p, items, cap, d + 1)
    case More(q, items', cap') => ItemsAsParsed(s, q, items', cap', d);
    case Done(q, items', _) => ArrayOfParsed(items', d);
  }

  lemma {:induction false} ObjectAsParsed(s: string, p: nat, d: nat)
    requires p < |s| && d <= MAX_NESTING && ObjectAt(s, p, d + 1).Ok?
    ensures AsParsed(ObjectAt(s, p, d + 1).value, d)
    decreases |s| - p, 2
  {
    hide MembersAt;
    var q := SkipSpaces(s, p + 1);
    if At(s, q) != '}' {
      MembersAsParsed(s, q, [], 0, d);
    }
  }

  lemma ObjectOfParsed(ms: seq<Member>, d: nat)
    requires d <= MAX_NESTING && |ms| <= OBJECT_MAX_CAPACITY && DistinctNames(ms)
    requires forall i | 0 <= i < |ms| :: NulFree(ms[i].name) && AsParsed(ms[i].value, d + 1)
    ensures AsParsed(Object(ms, |ms|), d)
  {
    MembersHeightBound(ms, MAX_NESTING - d);
    assert TrimMembers(ms) == ms;
  }

  /** A name the parser accepts is a C string. */
  lemma KeyIsCString(s: string, p: nat)
    requires p < |s| && KeyAt(s, p).Ok?
    ensures NulFree(KeyAt(s, p).value)
  {
    hide CloseQuote, Unescape;
  }

  /** Adding a new name keeps names distinct. */
  lemma AddKeepsDistinct(ms: seq<Member>, cap: nat, name: string, v: Value)
    requires DistinctNames(ms) && AddMember(ms, cap, name, v).ok && |ms| <= cap
    requires forall i | 0 <= i < |ms| :: ms[i].value != Error
    ensures DistinctNames(AddMember(ms, cap, name, v).members)
    ensures AddMember(ms, cap, name, v).members == ms + [Member(name, v)]
    ensures |ms| + 1 <= AddMember(ms, cap, name, v).cap <= OBJECT_MAX_CAPACITY
  {
  }

  lemma {:induction false} MembersAsParsed(s: string, p: nat, ms: seq<Member>, cap: nat, d: nat)
    requires p <= |s| && d <= MAX_NESTING && MembersAt(s, p, ms, cap, d + 1).Ok?
    requires |ms| <= cap <= OBJECT_MAX_CAPACITY && DistinctNames(ms)
    requires forall i | 0 <= i < |ms| :: NulFree(ms[i].name) && AsParsed(ms[i].value, d + 1)
    ensures AsParsed(MembersAt(s, p, ms, cap, d + 1).value, d)
    decreases |s| - p, 5
  {
    hide ValueAt, AsParsed, SkipSpaces, KeyAt, AddMember;
    assert forall i | 0 <= i < |ms| :: ms[i].value != Error by {
      forall i | 0 <= i < |ms| ensures ms[i].value != Error { ParsedIsNoError(ms[i].value, d + 1); }
    }
    var key := KeyAt(s, p);
    var v := ValueAt(s, key.pos, d + 1);
    KeyIsCString(s, p);
    ValueAsParsed(s, key.pos, d + 1);
    AddKeepsDistinct(ms, cap, key.value, v.value);
    match MemberRound(s, p, ms, cap, d + 1)
    case More(q, ms', cap') => MembersAsParsed(s, q, ms', cap', d);
    case Done(q, ms', _) => ObjectOfParsed(ms', d);
  }

  lemma ParsedIsNoError(v: Value, d: nat)
    requires AsParsed(v, d)
    ensures v != Error
  {
  }

  /**
   Every tree the parser returns satisfies the library's invariant and fits
   its nesting limit, so it prints, and the printed text parses back to the
   very same tree unless a string came to hold a bare control character.
   */
  lemma Reparse(s: string)
    requires ParseString(s).Ok?
    ensures var v := ParseString(s).value;
            && WellFormed(v) && WholeNumbers(v) && Trim(v) == v && Height(v) <= MAX_NESTING
            && ParseString(Text(v)) == if CleanStrings(v) then Ok(v, |Text(v)|) else Fail
  {
    var p := SkipSpaces(s, 0);
    var v := ParseString(s).value;
    ValueAsParsed(s, 0, 0);
    assert ValueAt(s, p, 0) == ValueAt(s, 0, 0);
    RoundTrip(v);
  }
}

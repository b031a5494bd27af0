/**
 What the parser accepts, said without its loops: a text is read as a value
 exactly when it has the shape of that value.
 */
module JsonGrammar {
  import opened CStrings
  import opened JsonStrings
  import opened JsonValues
  import opened JsonParser
  import opened JsonLayout
  import opened JsonRoundTrip

  /** From `p` to `q` stands the value `v`.  Numbers and strings are what their own scans read. */
  ghost predicate Stands(s: string, p: nat, q: nat, v: Value)
    decreases v, 0
  {
    && p <= q <= |s| && p < |s|
    && match v
       case Null => Occurs(s, p, "null") && q == p + 4
       case Boolean(b) => Occurs(s, p, if b then "true" else "false") && q == p + if b then 4 else 5
       case Number(_) => (s[p] == '-' || '0' <= s[p] <= '9') && NumberAt(s, p) == Ok(v, q)
       case String(t) => s[p] == '"' && QuotedAt(s, p) == Ok(t, q)
       case Array(items, _) =>
         s[p] == '[' && if items == [] then ClosedBy(s, p + 1, q, ']') else ItemsStand(s, p + 1, q, items, 0)
       case Object(ms, _) =>
         s[p] == '{' && if ms == [] then ClosedBy(s, p + 1, q, '}') else MembersStand(s, p + 1, q, ms, 0)
       case _ => false
  }

  /** The items from the `i`-th on, with gaps around them and commas between them, and the bracket. */
  ghost predicate ItemsStand(s: string, p: nat, q: nat, items: seq<Value>, i: nat)
    requires i < |items|
    decreases items, |items| - i
  {
    exists a: nat, b: nat, c: nat ::
      && Gap(s, p, a) && Stands(s, a, b, items[i]) && Gap(s, b, c)
      && if i + 1 == |items| then At(s, c) == ']' && q == c + 1
         else At(s, c) == ',' && ItemsStand(s, c + 1, q, items, i + 1)
  }

  /** A name, a colon and a value.  Any character but a space may stand where a quote should open the name. */
  ghost predicate MemberStands(s: string, p: nat, q: nat, name: string, v: Value)
    decreases v, 1
  {
    && p < |s| && s[p] != '\0' && s[p] as int !in SPACES
    && exists k: nat, b: nat, c: nat ::
         QuotedAt(s, p) == Ok(name, k) && Gap(s, k, b) && At(s, b) == ':' && Gap(s, b + 1, c) && Stands(s, c, q, v)
  }

  /** The members from the `i`-th on; a bracket that opens the first name would close the object. */
  ghost predicate MembersStand(s: string, p: nat, q: nat, ms: seq<Member>, i: nat)
    requires i < |ms|
    decreases ms, |ms| - i
  {
    exists a: nat, b: nat, c: nat ::
      && Gap(s, p, a) && MemberStands(s, a, b, ms[i].name, ms[i].value) && Gap(s, b, c)
      && (i == 0 ==> At(s, a) != '}')
      && if i + 1 == |ms| then At(s, c) == '}' && q == c + 1
         else At(s, c) == ',' && MembersStand(s, c + 1, q, ms, i + 1)
  }

  // ------------------------------------------------------ what is read stands there

  lemma {:induction false} SkippedGap(s: string, p: nat)
    requires p <= |s|
    ensures Gap(s, p, SkipSpaces(s, p))
    decreases |s| - p
  {
    if IsSpace(At(s, p)) {
      SkippedGap(s, p + 1);
      SpacesExactly(s[p]);
    }
  }

  lemma {:induction false} ValueStands(s: string, start: nat, d: nat)
    requires start <= |s| && ValueAt(s, start, d).Ok?
    ensures Stands(s, SkipSpaces(s, start), ValueAt(s, start, d).pos, ValueAt(s, start, d).value)
    decreases |s| - start, 3
  {
    hide ArrayAt, ObjectAt, NumberAt, QuotedAt, ItemsStand, MembersStand, ClosedBy;
    var p := SkipSpaces(s, start);
    if At(s, p) == '{' {
      ObjectStands(s, p, d + 1);
    } else if At(s, p) == '[' {
      ArrayStands(s, p, d + 1);
    } else if At(s, p) == 'f' || At(s, p) == 't' || At(s, p) == 'n' {
      LiteralStands(s, p);
    } else if At(s, p) != '"' {
      NumberIsNumber(s, p);
    }
  }

  lemma LiteralStands(s: string, p: nat)
    requires p < |s| && LiteralAt(s, p).Ok?
    ensures Stands(s, p, LiteralAt(s, p).pos, LiteralAt(s, p).value)
  {
  }

  lemma NumberIsNumber(s: string, p: nat)
    requires p < |s| && NumberAt(s, p).Ok?
    ensures NumberAt(s, p).value.Number?
  {
  }

  lemma {:induction false} ArrayStands(s: string, p: nat, n: nat)
    requires p < |s| && s[p] == '[' && ArrayAt(s, p, n).Ok?
    ensures Stands(s, p, ArrayAt(s, p, n).pos, ArrayAt(s, p, n).value)
    decreases |s| - p, 2
  {
    hide ItemsAt, ItemsStand, Gap;
    var a := SkipSpaces(s, p + 1);
    SkippedGap(s, p + 1);
    if At(s, a) != ']' {
      ItemsThatStand(s, a, [], 0, n);
      InFront(s, p + 1, a, ItemsAt(s, a, [], 0, n).pos, ItemsAt(s, a, [], 0, n).value.items, 0);
    }
  }

  lemma GapBehindGap(s: string, o: nat, p: nat)
    requires Gap(s, o, p)
    ensures forall a: nat | Gap(s, p, a) :: Gap(s, o, a)
  {
  }

  /** A gap in front of a gap is a gap. */
  lemma InFront(s: string, o: nat, p: nat, q: nat, items: seq<Value>, i: nat)
    requires Gap(s, o, p) && i < |items| && ItemsStand(s, p, q, items, i)
    ensures ItemsStand(s, o, q, items, i)
  {
    hide Stands;
    GapBehindGap(s, o, p);
    var a: nat, b: nat, c: nat :|
      && Gap(s, p, a) && Stands(s, a, b, items[i]) && Gap(s, b, c)
      && if i + 1 == |items| then At(s, c) == ']' && q == c + 1
         else At(s, c) == ',' && ItemsStand(s, c + 1, q, items, i + 1);
    ItemsBegin(s, o, a, b, c, q, items, i);
  }

  lemma ItemsBegin(s: string, p: nat, a: nat, b: nat, c: nat, q: nat, items: seq<Value>, i: nat)
    requires i < |items| && Gap(s, p, a) && Stands(s, a, b, items[i]) && Gap(s, b, c)
    requires if i + 1 == |items| then At(s, c) == ']' && q == c + 1
             else At(s, c) == ',' && ItemsStand(s, c + 1, q, items, i + 1)
    ensures ItemsStand(s, p, q, items, i)
  {
    hide Gap, Stands;
  }

  /** The loop leaves the items it has, and appends those that stand in the rest. */
  lemma {:induction false} ItemsThatStand(s: string, p: nat, items: seq<Value>, cap: nat, n: nat)
    requires p <= |s| && ItemsAt(s, p, items, cap, n).Ok?
    ensures var r := ItemsAt(s, p, items, cap, n);
            |r.value.items| > |items| && r.value.items[..|items|] == items && ItemsStand(s, p, r.pos, r.value.items, |items|)
    decreases |s| - p, 5
  {
    hide ValueAt, SkipSpaces, Gap, Stands, ItemsStand;
    var i := |items|;
    var v := ValueAt(s, p, n);
    ValueStands(s, p, n);
    SkippedGap(s, p);
    var a, b, c := SkipSpaces(s, p), v.pos, SkipSpaces(s, v.pos);
    SkippedGap(s, b);
    var r := ItemsAt(s, p, items, cap, n);
    match ItemRound(s, p, items, cap, n)
    case More(q, items', cap') =>
      ItemsThatStand(s, q, items', cap', n);
      SkippedGap(s, c + 1);
      InFront(s, c + 1, q, r.pos, r.value.items, i + 1);
      assert r.value.items[i] == r.value.items[..i + 1][i];
      assert r.value.items[..i] == r.value.items[..i + 1][..i];
      ItemsBegin(s, p, a, b, c, r.pos, r.value.items, i);
    case Done(q, items', _) =>
      assert r.value.items[i] == v.value;
      ItemsBegin(s, p, a, b, c, r.pos, r.value.items, i);
  }

  // ------------------------------------------------------------------- objects

  lemma {:induction false} ObjectStands(s: string, p: nat, n: nat)
    requires p < |s| && s[p] == '{' && ObjectAt(s, p, n).Ok?
    ensures Stands(s, p, ObjectAt(s, p, n).pos, ObjectAt(s, p, n).value)
    decreases |s| - p, 2
  {
    hide MembersAt, MembersStand, Gap;
    var a := SkipSpaces(s, p + 1);
    SkippedGap(s, p + 1);
    if At(s, a) != '}' {
      MembersThatStand(s, a, [], 0, n);
      MembersInFront(s, p + 1, a, MembersAt(s, a, [], 0, n).pos, MembersAt(s, a, [], 0, n).value.members, 0);
    }
  }

  lemma MembersInFront(s: string, o: nat, p: nat, q: nat, ms: seq<Member>, i: nat)
    requires Gap(s, o, p) && i < |ms| && MembersStand(s, p, q, ms, i)
    ensures MembersStand(s, o, q, ms, i)
  {
    hide MemberStands;
    GapBehindGap(s, o, p);
    var a: nat, b: nat, c: nat :|
      && Gap(s, p, a) && MemberStands(s, a, b, ms[i].name, ms[i].value) && Gap(s, b, c)
      && (i == 0 ==> At(s, a) != '}')
      && if i + 1 == |ms| then At(s, c) == '}' && q == c + 1
         else At(s, c) == ',' && MembersStand(s, c + 1, q, ms, i + 1);
    MembersBegin(s, o, a, b, c, q, ms, i);
  }

  lemma MembersBegin(s: string, p: nat, a: nat, b: nat, c: nat, q: nat, ms: seq<Member>, i: nat)
    requires i < |ms| && Gap(s, p, a) && MemberStands(s, a, b, ms[i].name, ms[i].value) && Gap(s, b, c)
    requires i == 0 ==> At(s, a) != '}'
    requires if i + 1 == |ms| then At(s, c) == '}' && q == c + 1
             else At(s, c) == ',' && MembersStand(s, c + 1, q, ms, i + 1)
    ensures MembersStand(s, p, q, ms, i)
  {
    hide Gap, MemberStands;
  }

  lemma {:induction false} MemberThatStands(s: string, p: nat, n: nat)
    requires p < |s| && At(s, p) != '\0' && !IsSpace(At(s, p)) && KeyAt(s, p).Ok? && ValueAt(s, KeyAt(s, p).pos, n).Ok?
    ensures MemberStands(s, p, ValueAt(s, KeyAt(s, p).pos, n).pos, KeyAt(s, p).value, ValueAt(s, KeyAt(s, p).pos, n).value)
    decreases |s| - p, 1
  {
    hide ValueAt, QuotedAt, SkipSpaces, Gap, Stands;
    var key, k := KeyAt(s, p), QuotedAt(s, p).pos;
    var b := SkipSpaces(s, k);
    SpacesExactly(s[p]);
    SkippedGap(s, k);
    SkippedGap(s, b + 1);
    ValueStands(s, key.pos, n);
  }

  /** The loop leaves the members it has, and appends those that stand in the rest. */
  lemma {:induction false} MembersThatStand(s: string, p: nat, ms: seq<Member>, cap: nat, n: nat)
    requires p <= |s| && !IsSpace(At(s, p)) && (ms == [] ==> At(s, p) != '}') && MembersAt(s, p, ms, cap, n).Ok?
    ensures var r := MembersAt(s, p, ms, cap, n);
            |r.value.members| > |ms| && r.value.members[..|ms|] == ms && MembersStand(s, p, r.pos, r.value.members, |ms|)
    decreases |s| - p, 5
  {
    hide ValueAt, KeyAt, SkipSpaces, Gap, Stands, MemberStands, MembersStand, IsSpace;
    var i := |ms|;
    var key := KeyAt(s, p);
    var v := ValueAt(s, key.pos, n);
    MemberThatStands(s, p, n);
    NoGap(s, p);
    var b, c := v.pos, SkipSpaces(s, v.pos);
    SkippedGap(s, b);
    var r := MembersAt(s, p, ms, cap, n);
    match MemberRound(s, p, ms, cap, n)
    case More(q, ms', cap') =>
      MembersThatStand(s, q, ms', cap', n);
      SkippedGap(s, c + 1);
      MembersInFront(s, c + 1, q, r.pos, r.value.members, i + 1);
      assert r.value.members[i] == r.value.members[..i + 1][i];
      assert r.value.members[..i] == r.value.members[..i + 1][..i];
      MembersBegin(s, p, p, b, c, r.pos, r.value.members, i);
    case Done(q, ms', _) =>
      assert r.value.members[i] == Member(key.value, v.value);
      MembersBegin(s, p, p, b, c, r.pos, r.value.members, i);
  }

  // ------------------------------------------------------ what stands there is read

  lemma StandsStarts(s: string, p: nat, q: nat, v: Value)
    requires Stands(s, p, q, v)
    ensures p < |s| && !IsSpace(s[p]) && s[p] != ']' && s[p] != '\0'
  {
    hide ItemsStand, MembersStand, NumberAt, QuotedAt, Occurs;
    match v
    case Null => OccursAt(s, p, "null", 0);
    case Boolean(b) => OccursAt(s, p, if b then "true" else "false", 0);
    case _ =>
  }

  lemma StandingLiteral(s: string, p: nat, q: nat, v: Value)
    requires Stands(s, p, q, v) && (v.Null? || v.Boolean?)
    ensures LiteralAt(s, p) == Ok(v, q) && (At(s, p) == 'n' || At(s, p) == 't' || At(s, p) == 'f')
  {
    LiteralParsesBack(s, p, v);
  }

  lemma ItemsAsParsedToo(items: seq<Value>, cap: nat, d: nat)
    requires AsParsed(Array(items, cap), d)
    ensures cap == |items| <= ARRAY_MAX_CAPACITY && TrimItems(items) == items && d <= MAX_NESTING
    ensures forall k | 0 <= k < |items| :: AsParsed(items[k], d + 1)
  {
    ItemsHeightBound(items, MAX_NESTING - d);
    assert forall k | 0 <= k < |items| :: TrimItems(items)[k] == Trim(items[k]);
  }

  lemma MembersAsParsedToo(ms: seq<Member>, cap: nat, d: nat)
    requires AsParsed(Object(ms, cap), d)
    ensures cap == |ms| <= OBJECT_MAX_CAPACITY && TrimMembers(ms) == ms && d <= MAX_NESTING && DistinctNames(ms)
    ensures forall k | 0 <= k < |ms| :: NulFree(ms[k].name) && AsParsed(ms[k].value, d + 1)
  {
    MembersHeightBound(ms, MAX_NESTING - d);
    assert forall k | 0 <= k < |ms| :: TrimMembers(ms)[k] == Member(ms[k].name, Trim(ms[k].value));
  }

  lemma {:induction false} StandingIsRead(s: string, p: nat, q: nat, v: Value, d: nat)
    requires Stands(s, p, q, v) && AsParsed(v, d)
    ensures ValueAt(s, p, d) == Ok(v, q)
    decreases v, 2
  {
    hide ArrayAt, ObjectAt, NumberAt, QuotedAt, LiteralAt, ItemsStand, MembersStand, ClosedBy, Occurs, WellFormed, Trim;
    StandsStarts(s, p, q, v);
    assert SkipSpaces(s, p) == p;
    match v {
      case Null => StandingLiteral(s, p, q, v);
      case Boolean(_) => StandingLiteral(s, p, q, v);
      case Number(_) =>
      case String(_) =>
      case Array(items, cap) => StandingArray(s, p, q, items, cap, d);
      case Object(ms, cap) => StandingObject(s, p, q, ms, cap, d);
    }
  }

  lemma {:induction false} StandingArray(s: string, p: nat, q: nat, items: seq<Value>, cap: nat, d: nat)
    requires Stands(s, p, q, Array(items, cap)) && AsParsed(Array(items, cap), d)
    ensures ArrayAt(s, p, d + 1) == Ok(Array(items, cap), q)
    decreases items, |items| + 2
  {
    hide ValueAt, ItemsAt, ItemsStand, SkipSpaces, AsParsed;
    ItemsAsParsedToo(items, cap, d);
    if items == [] {
      ClosedAtOnce(s, p + 1, q, ']');
    } else {
      StandingItems(s, p + 1, q, items, 0, 0, d + 1);
    }
  }

  lemma StandingItem(s: string, p: nat, q: nat, items: seq<Value>, i: nat) returns (a: nat, b: nat, c: nat)
    requires i < |items| && ItemsStand(s, p, q, items, i)
    ensures Gap(s, p, a) && Stands(s, a, b, items[i]) && Gap(s, b, c)
    ensures if i + 1 == |items| then At(s, c) == ']' && q == c + 1
            else At(s, c) == ',' && ItemsStand(s, c + 1, q, items, i + 1)
  {
    hide Gap, Stands;
    a, b, c :|
      && Gap(s, p, a) && Stands(s, a, b, items[i]) && Gap(s, b, c)
      && if i + 1 == |items| then At(s, c) == ']' && q == c + 1
         else At(s, c) == ',' && ItemsStand(s, c + 1, q, items, i + 1);
  }

  /** One round of the loop over the items. */
  lemma ItemsTurn(s: string, p: nat, items: seq<Value>, cap: nat, d: nat)
    requires p < |s| && s[p] != '\0'
    ensures ItemsAt(s, p, items, cap, d) ==
            match ItemRound(s, p, items, cap, d)
            case Abort(out) => if out then OutOfModel else Fail
            case More(q, items', cap') => ItemsAt(s, q, items', cap', d)
            case Done(q, items', _) => if At(s, q) == ']' then Ok(Array(items', |items'|), q + 1) else Fail
  {
    hide ItemRound;
  }

  lemma {:induction false} StandingItems(s: string, p: nat, q: nat, items: seq<Value>, i: nat, cap: nat, d: nat)
    requires i < |items| <= ARRAY_MAX_CAPACITY && TrimItems(items) == items
    requires forall k | 0 <= k < |items| :: AsParsed(items[k], d)
    requires p <= |s| && ItemsStand(s, p, q, items, i)
    requires InChain(cap) && i <= cap <= ARRAY_MAX_CAPACITY
    ensures At(s, SkipSpaces(s, p)) != ']'
    ensures ItemsAt(s, SkipSpaces(s, p), items[..i], cap, d) == Ok(Array(items, |items|), q)
    decreases items, |items| - i
  {
    hide Gap, AsParsed, ValueAt, ItemRound, ItemsAt, Stands, SkipSpaces, InChain, GrownCapacity, IsSpace, Trim;
    var a, b, c := StandingItem(s, p, q, items, i);
    hide ItemsStand;
    StandsStarts(s, a, b, items[i]);
    GapSkipped(s, p, a);
    GapDelimits(s, b, c);
    StandingIsRead(s, a, b, items[i], d);
    assert TrimItems(items)[i] == Trim(items[i]);
    hide TrimItems;
    ItemRoundIs(s, a, b, items, i, cap, d);
    ItemsTurn(s, a, items[..i], cap, d);
    if i + 1 == |items| {
      assert items[..i + 1] == items;
    } else {
      ChainGrows(i, cap, ARRAY_MAX_CAPACITY);
      StandingItems(s, c + 1, q, items, i + 1, GrownCapacity(i, cap), d);
    }
  }

  lemma {:induction false} StandingObject(s: string, p: nat, q: nat, ms: seq<Member>, cap: nat, d: nat)
    requires Stands(s, p, q, Object(ms, cap)) && AsParsed(Object(ms, cap), d)
    ensures ObjectAt(s, p, d + 1) == Ok(Object(ms, cap), q)
    decreases ms, |ms| + 2
  {
    hide ValueAt, MembersAt, MembersStand, SkipSpaces, AsParsed;
    MembersAsParsedToo(ms, cap, d);
    if ms == [] {
      ClosedAtOnce(s, p + 1, q, '}');
    } else {
      StandingMembers(s, p + 1, q, ms, 0, 0, d + 1);
    }
  }

  lemma StandingMember(s: string, p: nat, q: nat, ms: seq<Member>, i: nat) returns (a: nat, b: nat, c: nat)
    requires i < |ms| && MembersStand(s, p, q, ms, i)
    ensures Gap(s, p, a) && MemberStands(s, a, b, ms[i].name, ms[i].value) && Gap(s, b, c)
    ensures i == 0 ==> At(s, a) != '}'
    ensures if i + 1 == |ms| then At(s, c) == '}' && q == c + 1
            else At(s, c) == ',' && MembersStand(s, c + 1, q, ms, i + 1)
  {
    hide Gap, MemberStands;
    a, b, c :|
      && Gap(s, p, a) && MemberStands(s, a, b, ms[i].name, ms[i].value) && Gap(s, b, c)
      && (i == 0 ==> At(s, a) != '}')
      && if i + 1 == |ms| then At(s, c) == '}' && q == c + 1
         else At(s, c) == ',' && MembersStand(s, c + 1, q, ms, i + 1);
  }

  lemma StandingColon(s: string, p: nat, q: nat, name: string, v: Value) returns (b: nat, c: nat)
    requires MemberStands(s, p, q, name, v)
    ensures p < |s| && s[p] != '\0' && !IsSpace(At(s, p)) && KeyAt(s, p) == Ok(name, b + 1)
    ensures Gap(s, b + 1, c) && Stands(s, c, q, v)
  {
    hide QuotedAt, Gap, Stands, SkipSpaces, IsSpace;
    SpacesExactly(s[p]);
    var k: nat;
    k, b, c :| QuotedAt(s, p) == Ok(name, k) && Gap(s, k, b) && At(s, b) == ':' && Gap(s, b + 1, c) && Stands(s, c, q, v);
    SpacesExactly(':');
    GapIsRange(s, k, b);
    GapSkipped(s, k, b);
  }

  lemma {:induction false} StandingKey(s: string, p: nat, q: nat, name: string, v: Value, d: nat)
    requires MemberStands(s, p, q, name, v) && AsParsed(v, d)
    ensures p < |s| && s[p] != '\0' && !IsSpace(At(s, p)) && q <= |s|
    ensures KeyAt(s, p).Ok? && KeyAt(s, p).value == name && ValueAt(s, KeyAt(s, p).pos, d) == Ok(v, q)
    decreases v, 3
  {
    hide KeyAt, Gap, MemberStands, Stands, ValueAt, SkipSpaces, AsParsed, IsSpace;
    var b, c := StandingColon(s, p, q, name, v);
    StandsStarts(s, c, q, v);
    GapSkipped(s, b + 1, c);
    GapIsRange(s, b + 1, c);
    StandingIsRead(s, c, q, v, d);
    SpacesInFront(s, b + 1, c, d);
  }

  lemma StandingRound(s: string, a: nat, b: nat, ms: seq<Member>, i: nat, cap: nat, d: nat)
    requires i < |ms| <= OBJECT_MAX_CAPACITY && DistinctNames(ms) && TrimMembers(ms) == ms && AsParsed(ms[i].value, d)
    requires InChain(cap) && i <= cap <= OBJECT_MAX_CAPACITY && a < |s| && b <= |s|
    requires KeyAt(s, a).Ok? && KeyAt(s, a).value == ms[i].name && ValueAt(s, KeyAt(s, a).pos, d) == Ok(ms[i].value, b)
    ensures var c := SkipSpaces(s, b);
            MemberRound(s, a, ms[..i], cap, d) ==
            if At(s, c) == ',' then More(SkipSpaces(s, c + 1), ms[..i + 1], GrownCapacity(i, cap))
            else Done(c, ms[..i + 1], GrownCapacity(i, cap))
  {
    hide AsParsed, ValueAt, KeyAt, MemberRound, SkipSpaces, InChain, GrownCapacity, Trim, DistinctNames;
    assert TrimMembers(ms)[i] == Member(ms[i].name, Trim(ms[i].value));
    ParsedIsNoError(ms[i].value, d);
    MemberRoundIs(s, a, b, ms, i, cap, d);
  }

  /** One round of the loop over the members. */
  lemma MembersTurn(s: string, p: nat, ms: seq<Member>, cap: nat, d: nat)
    requires p < |s| && s[p] != '\0'
    ensures MembersAt(s, p, ms, cap, d) ==
            match MemberRound(s, p, ms, cap, d)
            case Abort(out) => if out then OutOfModel else Fail
            case More(q, ms', cap') => MembersAt(s, q, ms', cap', d)
            case Done(q, ms', _) => if At(s, q) == '}' then Ok(Object(ms', |ms'|), q + 1) else Fail
  {
    hide MemberRound;
  }

  /** The next member is read, and what follows it is found. */
  lemma {:induction false} NextMember(s: string, p: nat, q: nat, ms: seq<Member>, i: nat, d: nat) returns (b: nat, c: nat)
    requires i < |ms| && AsParsed(ms[i].value, d) && MembersStand(s, p, q, ms, i)
    ensures p <= |s|
    ensures var a := SkipSpaces(s, p);
            && a < |s| && s[a] != '\0' && (i == 0 ==> s[a] != '}')
            && KeyAt(s, a).Ok? && KeyAt(s, a).value == ms[i].name && ValueAt(s, KeyAt(s, a).pos, d) == Ok(ms[i].value, b)
    ensures b <= c < |s| && SkipSpaces(s, b) == c
    ensures if i + 1 == |ms| then At(s, c) == '}' && q == c + 1
            else At(s, c) == ',' && MembersStand(s, c + 1, q, ms, i + 1)
    decreases ms, 0
  {
    hide Gap, AsParsed, ValueAt, KeyAt, MemberStands, SkipSpaces, IsSpace;
    var a;
    a, b, c := StandingMember(s, p, q, ms, i);
    hide MembersStand;
    StandingKey(s, a, b, ms[i].name, ms[i].value, d);
    GapIsRange(s, p, a);
    GapSkipped(s, p, a);
    GapDelimits(s, b, c);
  }

  lemma {:induction false} StandingMembers(s: string, p: nat, q: nat, ms: seq<Member>, i: nat, cap: nat, d: nat)
    requires i < |ms| <= OBJECT_MAX_CAPACITY && DistinctNames(ms) && TrimMembers(ms) == ms
    requires forall k | 0 <= k < |ms| :: AsParsed(ms[k].value, d)
    requires p <= |s| && MembersStand(s, p, q, ms, i)
    requires InChain(cap) && i <= cap <= OBJECT_MAX_CAPACITY
    ensures i == 0 ==> At(s, SkipSpaces(s, p)) != '}'
    ensures MembersAt(s, SkipSpaces(s, p), ms[..i], cap, d) == Ok(Object(ms, |ms|), q)
    decreases ms, |ms| - i
  {
    hide AsParsed, ValueAt, KeyAt, MemberRound, MembersAt, MembersStand, SkipSpaces, InChain, GrownCapacity, TrimMembers,
      DistinctNames;
    var a := SkipSpaces(s, p);
    var b, c := NextMember(s, p, q, ms, i, d);
    StandingRound(s, a, b, ms, i, cap, d);
    MembersTurn(s, a, ms[..i], cap, d);
    if i + 1 == |ms| {
      assert ms[..i + 1] == ms;
    } else {
      ChainGrows(i, cap, OBJECT_MAX_CAPACITY);
      StandingMembers(s, c + 1, q, ms, i + 1, GrownCapacity(i, cap), d);
    }
  }

  // ------------------------------------------------------------------- exactly

  /**
   A value is read if and only if it stands there behind a gap, keeps the invariant, is
   trimmed and of whole numbers, and fits the nesting that is left.
   */
  lemma ReadExactly(s: string, start: nat, d: nat, v: Value, q: nat)
    requires start <= |s|
    ensures ValueAt(s, start, d) == Ok(v, q) <==> AsParsed(v, d) && exists p: nat :: Gap(s, start, p) && Stands(s, p, q, v)
  {
    hide ValueAt, AsParsed, Stands, Gap;
    if ValueAt(s, start, d) == Ok(v, q) {
      ValueAsParsed(s, start, d);
      ValueStands(s, start, d);
      SkippedGap(s, start);
    } else if AsParsed(v, d) && exists p: nat :: Gap(s, start, p) && Stands(s, p, q, v) {
      var p: nat :| Gap(s, start, p) && Stands(s, p, q, v);
      StandsStarts(s, p, q, v);
      GapSkipped(s, start, p);
      GapIsRange(s, start, p);
      StandingIsRead(s, p, q, v, d);
      SpacesInFront(s, start, p, d);
    }
  }

  /** A document is read from a text if and only if the text begins with it. */
  lemma DocumentExactly(s: string, v: Value, q: nat)
    ensures ParseString(s) == Ok(v, q) <==>
            && WellFormed(v) && WholeNumbers(v) && Trim(v) == v && Height(v) <= 19
            && (v.Array? || v.Object?) && exists p: nat :: Gap(s, 0, p) && Stands(s, p, q, v)
  {
    hide ValueAt, Gap, WellFormed, WholeNumbers, Trim, ItemsStand, MembersStand, ClosedBy, SkipSpaces, QuotedAt, NumberAt;
    ReadExactly(s, 0, 0, v, q);
    var a := SkipSpaces(s, 0);
    SkippedGap(s, 0);
    if a < |s| {
      SpacesInFront(s, 0, a, 0);
    }
    forall p: nat | Gap(s, 0, p) && Stands(s, p, q, v) ensures p == a {
      StandsStarts(s, p, q, v);
      GapSkipped(s, 0, p);
    }
  }

  // ------------------------------------------------------- the character in front

  lemma {:induction false} SameClose(s: string, t: string, q: nat)
    requires q <= |s| == |t| && forall i | q <= i < |s| :: s[i] == t[i]
    ensures CloseQuote(s, q) == CloseQuote(t, q)
    decreases |s| - q
  {
    if q < |s| && At(s, q) != '"' {
      if At(s, q) == '\\' && q + 1 < |s| {
        SameClose(s, t, q + 2);
      } else {
        SameClose(s, t, q + 1);
      }
    }
  }

  /** Whatever stands where the quote in front of a name should be, the name read is the same. */
  lemma FrontIgnored(s: string, p: nat, c: char)
    requires p < |s|
    ensures QuotedAt(s[p := c], p) == QuotedAt(s, p)
  {
    hide CloseQuote, Unescape;
    var t := s[p := c];
    SameClose(s, t, p + 1);
    var q := CloseQuote(s, p + 1);
    assert s[p + 1..q] == t[p + 1..q];
    assert At(s, q) == At(t, q) && At(s, q + 1) == At(t, q + 1);
  }
}

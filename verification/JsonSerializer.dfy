/**
 Printing a value tree: the text, the separate calculation of its size, and
 the method that writes it into a buffer.
 */
module JsonSerializer {
  import opened Basics
  import opened JsonStrings
  import opened JsonValues

  /** `%d` without the sign. */
  function DigitsText(n: nat): (t: string)
    ensures t != "" && forall i | 0 <= i < |t| :: '0' <= t[i] <= '9'
  {
    var d := [(n % 10 + '0' as int) as char];
    if n < 10 then d else DigitsText(n / 10) + d
  }

  function NumberText(n: int): string {
    if n < 0 then "-" + DigitsText(-n) else DigitsText(n)
  }

  /** The nearest whole number, and of two the even one. */
  function Rounded(y: real): nat
    requires y >= 0.0
  {
    var n: nat := y.Floor;
    var rest := y - n as real;
    if rest < 0.5 || (rest == 0.5 && n % 2 == 0) then n else n + 1
  }

  /** `%f`: six digits behind the point. */
  function FixedText(x: real): string {
    var n := Rounded((if x < 0.0 then -x else x) * 1000000.0);
    (if x < 0.0 then "-" else "") + DigitsText(n / 1000000) + "." + DigitsText(1000000 + n % 1000000)[1..]
  }

  /** `%d` for what equals a 32-bit integer, else `%f`. */
  function RealText(x: real): string {
    if x == x.Floor as real && -0x8000_0000 <= x.Floor < 0x8000_0000 then NumberText(x.Floor) else FixedText(x)
  }

  /** The text json_serialize_to_buffer_r prints; members are looked up by name. */
  function Text(v: Value): string
    decreases v, 0
  {
    match v
    case Error => ""
    case Null => "null"
    case Boolean(b) => if b then "true" else "false"
    case Number(n) => NumberText(n)
    case Fraction(x) => RealText(x)
    case String(s) => Quoted(s)
    case Array(items, _) => ArrayText(items)
    case Object(ms, _) => ObjectText(ms)
  }

  function ArrayText(items: seq<Value>): string
    decreases items, |items| + 1
  {
    "[" + ItemsText(items, 0) + "]"
  }

  function ObjectText(ms: seq<Member>): string
    decreases ms, |ms| + 2
  {
    "{" + MembersText(ms, 0) + "}"
  }

  function Comma(i: nat, count: nat): string {
    if i + 1 < count then "," else ""
  }

  /** The items from the `i`-th on. */
  function ItemsText(items: seq<Value>, i: nat): string
    requires i <= |items|
    decreases items, |items| - i
  {
    if i == |items| then ""
    else Text(items[i]) + Comma(i, |items|) + ItemsText(items, i + 1)
  }

  function MemberText(ms: seq<Member>, i: nat): string
    requires i < |ms|
    decreases ms, 0
  {
    var j := Find(ms, ms[i].name);
    Quoted(ms[i].name) + ":" + if j < |ms| then Text(ms[j].value) else ""
  }

  /** The members from the `i`-th on. */
  function MembersText(ms: seq<Member>, i: nat): string
    requires i <= |ms|
    decreases ms, |ms| - i + 1
  {
    if i == |ms| then ""
    else MemberText(ms, i) + Comma(i, |ms|) + MembersText(ms, i + 1)
  }

  /** Printing succeeds: no NULL pointer is reached. */
  predicate Printable(v: Value)
    decreases v, 0
  {
    match v
    case Error => false
    case Array(items, _) => forall i | 0 <= i < |items| :: Printable(items[i])
    case Object(ms, _) => PrintableFrom(ms, 0)
    case _ => true
  }

  predicate PrintableFrom(ms: seq<Member>, i: nat)
    requires i <= |ms|
    decreases ms, |ms| - i
  {
    i < |ms| ==>
      var j := Find(ms, ms[i].name);
      j < |ms| && Printable(ms[j].value) && PrintableFrom(ms, i + 1)
  }

  /** json_serialization_size_r, which counts brackets and separators at once. */
  function Size(v: Value): nat
    decreases v, 0
  {
    match v
    case Error => 0
    case Null => 4
    case Boolean(b) => if b then 4 else 5
    case Number(n) => |NumberText(n)|
    case Fraction(x) => |RealText(x)|
    case String(s) => |EscapeAll(s)| + 2
    case Array(items, _) =>
      2 + (if |items| > 0 then |items| - 1 else 0) + ItemsSize(items, 0)
    case Object(ms, _) =>
      2 + (if |ms| > 0 then |ms| * 2 - 1 else 0) + MembersSize(ms, 0)
  }

  function ItemsSize(items: seq<Value>, i: nat): nat
    requires i <= |items|
    decreases items, |items| - i
  {
    if i == |items| then 0 else Size(items[i]) + ItemsSize(items, i + 1)
  }

  function MembersSize(ms: seq<Member>, i: nat): nat
    requires i <= |ms|
    decreases ms, |ms| - i
  {
    if i == |ms| then 0
    else
      var j := Find(ms, ms[i].name);
      |EscapeAll(ms[i].name)| + 2 + (if j < |ms| then Size(ms[j].value) else 0) + MembersSize(ms, i + 1)
  }

  /** The calculated size is the length of the printed text, for every tree. */
  lemma {:induction false} SizeIsLength(v: Value)
    ensures Size(v) == |Text(v)|
    decreases v, 0
  {
    match v
    case Array(items, _) => ItemsSizeIsLength(items, 0);
    case Object(ms, _) => MembersSizeIsLength(ms, 0);
    case _ =>
  }

  lemma {:induction false} ItemsSizeIsLength(items: seq<Value>, i: nat)
    requires i <= |items|
    ensures |ItemsText(items, i)| == ItemsSize(items, i) + if i < |items| then |items| - i - 1 else 0
    decreases items, |items| - i
  {
    if i < |items| {
      SizeIsLength(items[i]);
      ItemsSizeIsLength(items, i + 1);
    }
  }

  lemma {:induction false} MembersSizeIsLength(ms: seq<Member>, i: nat)
    requires i <= |ms|
    ensures |MembersText(ms, i)| == MembersSize(ms, i) + if i < |ms| then 2 * (|ms| - i) - 1 else 0
    decreases ms, |ms| - i
  {
    if i < |ms| {
      SizeIsLength(ms[Find(ms, ms[i].name)].value);
      MembersSizeIsLength(ms, i + 1);
    }
  }

  /** A well-formed tree can always be printed. */
  lemma {:induction false} WellFormedPrintable(v: Value)
    requires WellFormed(v)
    ensures Printable(v)
    decreases v, 0
  {
    match v
    case Array(items, _) =>
      forall i | 0 <= i < |items| ensures Printable(items[i]) { WellFormedPrintable(items[i]); }
    case Object(ms, _) => WellFormedPrintableFrom(ms, 0);
    case _ =>
  }

  lemma {:induction false} WellFormedPrintableFrom(ms: seq<Member>, i: nat)
    requires i <= |ms| && DistinctNames(ms)
    requires forall k | 0 <= k < |ms| :: WellFormed(ms[k].value)
    ensures PrintableFrom(ms, i)
    decreases ms, |ms| - i
  {
    if i < |ms| {
      FindByIndex(ms, i);
      WellFormedPrintable(ms[i].value);
      WellFormedPrintableFrom(ms, i + 1);
    }
  }

  /** After json_array_remove an array can be printed if and only if it was its last item that went. */
  lemma RemovedPrintable(items: seq<Value>, ix: nat, cap: nat)
    requires ix < |items| && forall i | 0 <= i < |items| :: Printable(items[i])
    ensures Printable(Array(RemoveItem(items, ix).value, cap)) <==> ix == |items| - 1
  {
    var r := RemoveItem(items, ix).value;
    if ix < |items| - 1 {
      assert r[ix] == Error;
    }
  }

  // ---------------------------------------------------------- into a buffer

  /** `off += sprintf(buf + off, t)`: the text and its terminator. */
  method Print(buf: array<char>, off: nat, t: string) returns (p: nat)
    requires off + |t| < buf.Length
    modifies buf
    ensures p == off + |t|
    ensures buf[..p] == old(buf[..off]) + t && buf[p] == '\0'
  {
    p := off;
    var i := 0;
    while i < |t|
      invariant 0 <= i <= |t| && p == off + i
      invariant buf[..p] == old(buf[..off]) + t[..i]
    {
      buf[p] := t[i];
      p := p + 1;
      i := i + 1;
    }
    buf[p] := '\0';
  }

  method SerializeString(s: string, buf: array<char>, off: nat) returns (p: nat)
    requires off + |Quoted(s)| < buf.Length
    modifies buf
    ensures p == off + |Quoted(s)|
    ensures buf[..p] == old(buf[..off]) + Quoted(s) && buf[p] == '\0'
  {
    p := Print(buf, off, "\"");
    p := SerializeCharacters(s, buf, p);
    p := Print(buf, p, "\"");
  }

  method SerializeCharacters(s: string, buf: array<char>, off: nat) returns (p: nat)
    requires off + |EscapeAll(s)| < buf.Length
    modifies buf
    ensures p == off + |EscapeAll(s)|
    ensures buf[..p] == old(buf[..off]) + EscapeAll(s)
  {
    ghost var whole := buf[..off] + EscapeAll(s);
    p := off;
    var i := 0;
    while i < |s|
      invariant 0 <= i <= |s| && p < buf.Length
      invariant buf[..p] + EscapeAll(s[i..]) == whole
    {
      ghost var before := buf[..p];
      assert s[i..][1..] == s[i + 1..];
      p := Print(buf, p, EscapeChar(s[i]));
      Regroup(before, EscapeChar(s[i]), EscapeAll(s[i + 1..]));
      i := i + 1;
    }
    assert buf[..p] == whole;
  }

  /** json_object_nget_value: the scan over the names. */
  method NGetValue(ms: seq<Member>, name: string) returns (i: nat)
    ensures i == Find(ms, name)
  {
    i := 0;
    while i < |ms|
      invariant 0 <= i <= |ms|
      invariant forall j | 0 <= j < i :: ms[j].name != name
    {
      if |ms[i].name| == |name| && ms[i].name == name {
        return;
      }
      i := i + 1;
    }
  }

  /** json_serialize_to_buffer_r: `ok` is false where the library returns NULL. */
  method SerializeToBufferR(v: Value, buf: array<char>, off: nat) returns (ok: bool, p: nat)
    requires off + |Text(v)| < buf.Length
    modifies buf
    ensures ok == Printable(v)
    ensures ok ==> p == off + |Text(v)| && buf[..p] == old(buf[..off]) + Text(v) && buf[p] == '\0'
    decreases v, 0
  {
    ok, p := true, off;
    match v
    case Error => ok := false;
    case Null => p := Print(buf, off, "null");
    case Boolean(b) => p := Print(buf, off, if b then "true" else "false");
    case Number(n) => p := Print(buf, off, NumberText(n));
    case Fraction(x) => p := Print(buf, off, RealText(x));
    case String(s) => p := SerializeString(s, buf, off);
    case Array(items, _) =>
      ok, p := SerializeArray(items, buf, off);
    case Object(ms, _) =>
      ok, p := SerializeObject(ms, buf, off);
  }

  method SerializeArray(items: seq<Value>, buf: array<char>, off: nat) returns (ok: bool, p: nat)
    requires off + |ArrayText(items)| < buf.Length
    modifies buf
    ensures ok == forall i | 0 <= i < |items| :: Printable(items[i])
    ensures ok ==> p == off + |ArrayText(items)|
    ensures ok ==> buf[..p] == old(buf[..off]) + ArrayText(items) && buf[p] == '\0'
    decreases items, 2
  {
    p := Print(buf, off, "[");
    ok, p := SerializeItems(items, buf, p);
    if ok {
      p := Print(buf, p, "]");
    }
  }

  method SerializeItems(items: seq<Value>, buf: array<char>, off: nat) returns (ok: bool, p: nat)
    requires off + |ItemsText(items, 0)| < buf.Length
    modifies buf
    ensures ok == forall i | 0 <= i < |items| :: Printable(items[i])
    ensures ok ==> p == off + |ItemsText(items, 0)|
    ensures ok ==> buf[..p] == old(buf[..off]) + ItemsText(items, 0)
    decreases items, 1
  {
    ghost var whole := buf[..off] + ItemsText(items, 0);
    p := off;
    var i := 0;
    while i < |items|
      invariant 0 <= i <= |items| && p < buf.Length
      invariant buf[..p] + ItemsText(items, i) == whole
      invariant forall j | 0 <= j < i :: Printable(items[j])
    {
      ghost var before := buf[..p];
      ok, p := SerializeItem(items, i, buf, p);
      if !ok {
        return;
      }
      Regroup(before, Text(items[i]) + Comma(i, |items|), ItemsText(items, i + 1));
      i := i + 1;
    }
    ok := true;
    assert buf[..p] == whole;
  }

  /** One round of the array loop: the item and the comma behind it. */
  method SerializeItem(items: seq<Value>, i: nat, buf: array<char>, off: nat) returns (ok: bool, p: nat)
    requires i < |items| && off + |Text(items[i]) + Comma(i, |items|)| < buf.Length
    modifies buf
    ensures ok == Printable(items[i])
    ensures ok ==> p == off + |Text(items[i]) + Comma(i, |items|)|
    ensures ok ==> buf[..p] == old(buf[..off]) + (Text(items[i]) + Comma(i, |items|))
    decreases items[i], 1
  {
    ok, p := SerializeToBufferR(items[i], buf, off);
    if ok && i + 1 < |items| {
      p := Print(buf, p, ",");
    }
  }

  method SerializeObject(ms: seq<Member>, buf: array<char>, off: nat) returns (ok: bool, p: nat)
    requires off + |ObjectText(ms)| < buf.Length
    modifies buf
    ensures ok == PrintableFrom(ms, 0)
    ensures ok ==> p == off + |ObjectText(ms)|
    ensures ok ==> buf[..p] == old(buf[..off]) + ObjectText(ms) && buf[p] == '\0'
    decreases ms, 2
  {
    hide MembersText, PrintableFrom;
    ghost var before := buf[..off];
    p := Print(buf, off, "{");
    ok, p := SerializeMembers(ms, buf, p);
    if ok {
      p := Print(buf, p, "}");
      Regroup(before, "{", MembersText(ms, 0));
      Regroup(before, "{" + MembersText(ms, 0), "}");
    }
  }

  method SerializeMembers(ms: seq<Member>, buf: array<char>, off: nat) returns (ok: bool, p: nat)
    requires off + |MembersText(ms, 0)| < buf.Length
    modifies buf
    ensures ok == PrintableFrom(ms, 0)
    ensures ok ==> p == off + |MembersText(ms, 0)|
    ensures ok ==> buf[..p] == old(buf[..off]) + MembersText(ms, 0)
    decreases ms, 1
  {
    ghost var whole := buf[..off] + MembersText(ms, 0);
    p := off;
    var i := 0;
    while i < |ms|
      invariant 0 <= i <= |ms| && p < buf.Length
      invariant buf[..p] + MembersText(ms, i) == whole
      invariant PrintableFrom(ms, 0) == PrintableFrom(ms, i)
    {
      ghost var before := buf[..p];
      ok, p := SerializeMember(ms, i, buf, p);
      if !ok {
        return;
      }
      Regroup(before, MemberText(ms, i) + Comma(i, |ms|), MembersText(ms, i + 1));
      i := i + 1;
    }
    ok := true;
    assert buf[..p] == whole;
  }

  /** One round of the object loop: name, colon, the value looked up by name, comma. */
  method SerializeMember(ms: seq<Member>, i: nat, buf: array<char>, off: nat) returns (ok: bool, p: nat)
    requires i < |ms| && off + |MemberText(ms, i) + Comma(i, |ms|)| < buf.Length
    modifies buf
    ensures ok ==> PrintableFrom(ms, i) == PrintableFrom(ms, i + 1)
    ensures !ok ==> !PrintableFrom(ms, i)
    ensures ok ==> p == off + |MemberText(ms, i) + Comma(i, |ms|)|
    ensures ok ==> buf[..p] == old(buf[..off]) + (MemberText(ms, i) + Comma(i, |ms|))
    decreases ms, 0
  {
    var j := NGetValue(ms, ms[i].name);
    p := SerializeString(ms[i].name, buf, off);
    p := Print(buf, p, ":");
    ghost var named := buf[..p];
    assert named == old(buf[..off]) + (Quoted(ms[i].name) + ":");
    ok, p := SerializeToBufferR(ms[j].value, buf, p);
    if ok {
      Regroup(old(buf[..off]), Quoted(ms[i].name) + ":", Text(ms[j].value));
      assert buf[..p] == old(buf[..off]) + MemberText(ms, i);
      if i + 1 < |ms| {
        p := Print(buf, p, ",");
      }
    }
  }

  lemma Regroup(a: string, b: string, c: string)
    ensures a + (b + c) == a + b + c
  {
  }

  /** json_serialize_to_buffer: refuses a buffer the text and its terminator do not fit in. */
  method SerializeToBuffer(v: Value, buf: array<char>) returns (ok: bool)
    modifies buf
    ensures ok <==> Printable(v) && |Text(v)| + 1 <= buf.Length
    ensures ok ==> buf[..|Text(v)|] == Text(v) && buf[|Text(v)|] == '\0'
    ensures buf.Length < |Text(v)| + 1 ==> buf[..] == old(buf[..])
  {
    SizeIsLength(v);
    var needed := Size(v) + 1;
    if buf.Length < needed {
      return false;
    }
    var p;
    ok, p := SerializeToBufferR(v, buf, 0);
  }

  /** json_serialize_to_string: the calculated size is enough, so only a NULL pointer inside can make it fail. */
  method SerializeToString(v: Value) returns (r: Option<string>)
    ensures r == if Printable(v) then Some(Text(v)) else None
  {
    SizeIsLength(v);
    var size := Size(v) + 1;
    var buf := new char[size];
    var ok := SerializeToBuffer(v, buf);
    if !ok {
      return None;
    }
    r := Some(buf[..size - 1]);
  }
}

/**
 The recursive-descent parser: as functions of the text and a position, and
 as methods that move a cursor and fill the containers in place.
 */
module JsonParser {
  import opened Basics
  import opened CStrings
  import opened JsonStrings
  import opened JsonValues
  import opened JsonObjects

  /**
   A value and the position behind it, or failure (NULL).  `OutOfModel` marks a
   text with a number that is not a 32-bit integer literal: what the C library
   makes of fractions, exponents and larger numbers is not modelled.
   */
  datatype Parsed<+T> = Ok(value: T, pos: nat) | Fail | OutOfModel

  function SkipSpaces(s: string, p: nat): (q: nat)
    requires p <= |s|
    ensures p <= q <= |s| && !IsSpace(At(s, q))
    decreases |s| - p
  {
    if IsSpace(At(s, p)) then SkipSpaces(s, p + 1) else p
  }

  // ----------------------------------------------------------------- numbers

  predicate IsDigit(c: char) {
    '0' <= c <= '9'
  }

  function DigitsEnd(s: string, p: nat): (q: nat)
    requires p <= |s|
    ensures p <= q <= |s| && !IsDigit(At(s, q))
    ensures forall i | p <= i < q :: IsDigit(s[i])
    decreases |s| - p
  {
    if IsDigit(At(s, p)) then DigitsEnd(s, p + 1) else p
  }

  function DigitValue(c: char): nat
    requires IsDigit(c)
  {
    c as int - '0' as int
  }

  function DigitsValue(t: string): nat
    requires forall i | 0 <= i < |t| :: IsDigit(t[i])
  {
    if t == "" then 0
    else DigitsValue(t[..|t| - 1]) * 10 + DigitValue(t[|t| - 1])
  }

  /** is_decimal, on a literal of digits after an optional minus sign. */
  predicate IsDecimal(t: string) {
    && !(|t| > 1 && t[0] == '0' && t[1] != '.')
    && !(|t| > 2 && t[0] == '-' && t[1] == '0' && t[2] != '.')
    && forall i | 0 <= i < |t| :: t[i] != 'x' && t[i] != 'X'
  }

  /**
   parse_number_value.  Where the conversion finds no number it reads
   nothing, which is_decimal accepts as zero.
   */
  function NumberAt(s: string, p: nat): (r: Parsed<Value>)
    requires p < |s|
    ensures r.Ok? ==> p <= r.pos <= |s|
  {
    var d := if s[p] == '-' then p + 1 else p;
    var e := DigitsEnd(s, d);
    if e == d then
      if At(s, e) in ".iInN" then OutOfModel else Ok(Number(0), p)
    else if At(s, e) in ".eExX" then OutOfModel
    else if !IsDecimal(s[p..e]) then Fail
    else
      assert forall i | 0 <= i < e - d :: s[d..e][i] == s[d + i];
      var m: int := DigitsValue(s[d..e]);
      var n := if s[p] == '-' then -m else m;
      if -0x8000_0000 <= n < 0x8000_0000 then Ok(Number(n), e) else OutOfModel
  }

  // ----------------------------------------------------------------- strings

  /** get_quoted_string: the C string between the quotes; the first character is not looked at. */
  function QuotedAt(s: string, p: nat): (r: Parsed<string>)
    requires p < |s|
    ensures r.Ok? ==> p + 2 <= r.pos < |s|
  {
    var q := CloseQuote(s, p + 1);
    if At(s, q) != '"' || At(s, q + 1) == '\0' then Fail
    else
      match Unescape(s[p + 1..q])
      case None => Fail
      case Some(t) => Ok(CStr(t), q + 1)
  }

  function StringAt(s: string, p: nat): (r: Parsed<Value>)
    requires p < |s|
    ensures r.Ok? ==> p + 2 <= r.pos < |s|
  {
    match QuotedAt(s, p)
    case Ok(t, q) => Ok(String(t), q)
    case _ => Fail
  }

  // ------------------------------------------------------------------ values

  predicate StartsWith(s: string, p: nat, t: string) {
    p + |t| <= |s| && s[p..p + |t|] == t
  }

  function LiteralAt(s: string, p: nat): (r: Parsed<Value>)
    requires p <= |s|
    ensures r.Ok? ==> p < r.pos <= |s|
  {
    if StartsWith(s, p, "true") then Ok(Boolean(true), p + 4)
    else if StartsWith(s, p, "false") then Ok(Boolean(false), p + 5)
    else if StartsWith(s, p, "null") then Ok(Null, p + 4)
    else Fail
  }

  /** parse_value. */
  function ValueAt(s: string, start: nat, nesting: nat): (r: Parsed<Value>)
    requires start <= |s|
    ensures r.Ok? ==> start <= r.pos <= |s| && r.value != Error
    decreases |s| - start, 3
  {
    if nesting > MAX_NESTING then Fail
    else
      var p := SkipSpaces(s, start);
      var c := At(s, p);
      if c == '{' then ObjectAt(s, p, nesting + 1)
      else if c == '[' then ArrayAt(s, p, nesting + 1)
      else if c == '"' then StringAt(s, p)
      else if c == 'f' || c == 't' || c == 'n' then LiteralAt(s, p)
      else if c == '-' || IsDigit(c) then NumberAt(s, p)
      else Fail
  }

  /** parse_array_value. */
  function ArrayAt(s: string, start: nat, nesting: nat): (r: Parsed<Value>)
    requires start < |s|
    ensures r.Ok? ==> start < r.pos <= |s| && r.value.Array?
    decreases |s| - start, 2
  {
    var p := SkipSpaces(s, start + 1);
    if At(s, p) == ']' then Ok(Array([], 0), p + 1)
    else ItemsAt(s, p, [], 0, nesting)
  }

  /** One round of a container's loop: the elements so far, and whether a comma followed. */
  datatype Round<T> =
    | Abort(outOfModel: bool)
    | More(at: nat, elems: seq<T>, cap: nat)
    | Done(at: nat, elems: seq<T>, cap: nat)

  /** What follows an element: a comma and spaces, or something else after spaces. */
  function SeparatorAt(s: string, q: nat): (r: (bool, nat))
    requires q <= |s|
    ensures q <= r.1 <= |s| && (r.0 ==> q < r.1)
  {
    var p := SkipSpaces(s, q);
    if At(s, p) == ',' then (true, SkipSpaces(s, p + 1)) else (false, p)
  }

  function Separator<T>(s: string, q: nat, elems: seq<T>, cap: nat): (r: Round<T>)
    requires q <= |s|
    ensures r.More? ==> q < r.at <= |s|
    ensures r.Done? ==> q <= r.at <= |s|
  {
    var (comma, at) := SeparatorAt(s, q);
    if comma then More(at, elems, cap) else Done(at, elems, cap)
  }

  function ItemRound(s: string, p: nat, items: seq<Value>, cap: nat, nesting: nat): (r: Round<Value>)
    requires p <= |s|
    ensures r.More? ==> p < r.at <= |s|
    ensures r.Done? ==> p <= r.at <= |s|
    decreases |s| - p, 4
  {
    match ValueAt(s, p, nesting)
    case Fail => Abort(false)
    case OutOfModel => Abort(true)
    case Ok(v, q) =>
      var added := AddItem(items, cap, v);
      if added.ok then Separator(s, q, added.items, added.cap) else Abort(false)
  }

  /** The loop of parse_array_value with `items` parsed already, and its end. */
  function ItemsAt(s: string, p: nat, items: seq<Value>, cap: nat, nesting: nat): (r: Parsed<Value>)
    requires p <= |s|
    ensures r.Ok? ==> p < r.pos <= |s| && r.value.Array?
    decreases |s| - p, 5
  {
    if At(s, p) == '\0' then Fail
    else
      match ItemRound(s, p, items, cap, nesting)
      case Abort(out) => if out then OutOfModel else Fail
      case More(q, items', cap') => ItemsAt(s, q, items', cap', nesting)
      case Done(q, items', _) => if At(s, q) == ']' then Ok(Array(items', |items'|), q + 1) else Fail
  }

  /** parse_object_value. */
  function ObjectAt(s: string, start: nat, nesting: nat): (r: Parsed<Value>)
    requires start < |s|
    ensures r.Ok? ==> start < r.pos <= |s| && r.value.Object?
    decreases |s| - start, 2
  {
    var p := SkipSpaces(s, start + 1);
    if At(s, p) == '}' then Ok(Object([], 0), p + 1)
    else MembersAt(s, p, [], 0, nesting)
  }

  /** A name and the colon behind it. */
  function KeyAt(s: string, p: nat): (r: Parsed<string>)
    requires p < |s|
    ensures r.Ok? ==> p < r.pos <= |s|
  {
    match QuotedAt(s, p)
    case Ok(key, k) =>
      var colon := SkipSpaces(s, k);
      if At(s, colon) == ':' then Ok(key, colon + 1) else Fail
    case _ => Fail
  }

  function MemberRound(s: string, p: nat, ms: seq<Member>, cap: nat, nesting: nat): (r: Round<Member>)
    requires p < |s|
    ensures r.More? ==> p < r.at <= |s|
    ensures r.Done? ==> p <= r.at <= |s|
    decreases |s| - p, 4
  {
    var key := KeyAt(s, p);
    if !key.Ok? then Abort(false)
    else
      match ValueAt(s, key.pos, nesting)
      case Fail => Abort(false)
      case OutOfModel => Abort(true)
      case Ok(v, q) =>
        var added := AddMember(ms, cap, key.value, v);
        if added.ok then Separator(s, q, added.members, added.cap) else Abort(false)
  }

  /** The loop of parse_object_value with `ms` parsed already, and its end. */
  function MembersAt(s: string, p: nat, ms: seq<Member>, cap: nat, nesting: nat): (r: Parsed<Value>)
    requires p <= |s|
    ensures r.Ok? ==> p < r.pos <= |s| && r.value.Object?
    decreases |s| - p, 5
  {
    if At(s, p) == '\0' then Fail
    else
      match MemberRound(s, p, ms, cap, nesting)
      case Abort(out) => if out then OutOfModel else Fail
      case More(q, ms', cap') => MembersAt(s, q, ms', cap', nesting)
      case Done(q, ms', _) => if At(s, q) == '}' then Ok(Object(ms', |ms'|), q + 1) else Fail
  }

  /** json_parse_string: the root must be an object or an array; what follows it is not looked at. */
  function ParseString(s: string): Parsed<Value> {
    var p := SkipSpaces(s, 0);
    if At(s, p) != '{' && At(s, p) != '[' then Fail else ValueAt(s, p, 0)
  }

  // ------------------------------------------------------- the moving cursor

  method SkipWhitespaces(s: string, start: nat) returns (p: nat)
    requires start <= |s|
    ensures p == SkipSpaces(s, start)
  {
    p := start;
    while IsSpace(At(s, p))
      invariant start <= p <= |s| && SkipSpaces(s, p) == SkipSpaces(s, start)
      decreases |s| - p
    {
      p := p + 1;
    }
  }

  method GetQuotedString(s: string, start: nat) returns (r: Parsed<string>)
    requires start < |s|
    ensures r == QuotedAt(s, start)
  {
    hide CloseQuote, Unescape, CStr;
    var p := SkipQuotes(s, start);
    if At(s, p) == '\0' {
      return Fail;
    }
    var t := ProcessString(s, start + 1, p - start - 2);
    match t
    case None => r := Fail;
    case Some(u) => r := Ok(CStr(u), p);
  }

  method ParseValue(s: string, start: nat, nesting: nat) returns (r: Parsed<Value>)
    requires start <= |s|
    ensures r == ValueAt(s, start, nesting)
    decreases |s| - start, 3
  {
    hide ArrayAt, ObjectAt, QuotedAt, DigitsEnd, SkipSpaces;
    if nesting > MAX_NESTING {
      return Fail;
    }
    var p := SkipWhitespaces(s, start);
    var c := At(s, p);
    if c == '{' {
      r := ParseObjectValue(s, p, nesting + 1);
    } else if c == '[' {
      r := ParseArrayValue(s, p, nesting + 1);
    } else if c == '"' {
      var t := GetQuotedString(s, p);
      r := if t.Ok? then Ok(String(t.value), t.pos) else Fail;
    } else if c == 'f' || c == 't' || c == 'n' {
      r := LiteralAt(s, p);
    } else if c == '-' || IsDigit(c) {
      r := NumberAt(s, p);
    } else {
      r := Fail;
    }
  }

  /** A container's loop runs at least once before its end is looked for. */
  method ParseArrayValue(s: string, start: nat, nesting: nat) returns (r: Parsed<Value>)
    requires start < |s|
    ensures r == ArrayAt(s, start, nesting)
    decreases |s| - start, 2
  {
    hide ItemRound, SkipSpaces;
    var output := new JsonArray();
    var p := SkipWhitespaces(s, start + 1);
    if At(s, p) == ']' {
      return Ok(Array([], 0), p + 1);
    }
    while At(s, p) != '\0'
      invariant start < p <= |s| && output.Valid() && fresh(output) && fresh(output.items)
      invariant ItemsAt(s, p, output.Contents(), output.capacity, nesting) == ArrayAt(s, start, nesting)
      decreases |s| - p
    {
      var failure, more, q := ParseItem(s, p, nesting, output);
      if failure.Some? {
        return if failure.value then OutOfModel else Fail;
      }
      p := q;
      if !more {
        if At(s, p) != ']' {
          return Fail;
        }
        var trimmed := output.Resize(output.count);
        return Ok(Array(output.Contents(), output.capacity), p + 1);
      }
    }
    r := Fail;
  }

  method SkipSeparator(s: string, end: nat) returns (comma: bool, p: nat)
    requires end <= |s|
    ensures (comma, p) == SeparatorAt(s, end)
  {
    p := SkipWhitespaces(s, end);
    comma := At(s, p) == ',';
    if comma {
      p := SkipWhitespaces(s, p + 1);
    }
  }

  method ParseItem(s: string, p: nat, nesting: nat, output: JsonArray)
    returns (failure: Option<bool>, more: bool, q: nat)
    requires p <= |s| && output.Valid()
    modifies output, output.items
    ensures output.Valid() && (output.items == old(output.items) || fresh(output.items))
    ensures var round := ItemRound(s, p, old(output.Contents()), old(output.capacity), nesting);
            match failure
            case Some(out) => round == Abort(out)
            case None =>
              && round == (if more then More(q, output.Contents(), output.capacity)
                           else Done(q, output.Contents(), output.capacity))
              && output.count > 0
    decreases |s| - p, 4
  {
    hide ValueAt, GrownCapacity, SkipSpaces, SeparatorAt;
    failure, more, q := Some(false), false, p;
    var item := ParseValue(s, p, nesting);
    match item
    case Fail =>
    case OutOfModel => failure := Some(true);
    case Ok(v, end) =>
      var ok := output.Add(v);
      if ok {
        failure := None;
        more, q := SkipSeparator(s, end);
      }
  }

  method ParseObjectValue(s: string, start: nat, nesting: nat) returns (r: Parsed<Value>)
    requires start < |s|
    ensures r == ObjectAt(s, start, nesting)
    decreases |s| - start, 2
  {
    hide MemberRound, SkipSpaces, DistinctNames;
    var output := new JsonObject();
    var p := SkipWhitespaces(s, start + 1);
    if At(s, p) == '}' {
      return Ok(Object([], 0), p + 1);
    }
    while At(s, p) != '\0'
      invariant start < p <= |s| && output.Valid()
      invariant fresh(output) && fresh(output.names) && fresh(output.values)
      invariant MembersAt(s, p, output.Contents(), output.capacity, nesting) == ObjectAt(s, start, nesting)
      decreases |s| - p
    {
      var failure, more, q := ParseMember(s, p, nesting, output);
      if failure.Some? {
        return if failure.value then OutOfModel else Fail;
      }
      p := q;
      if !more {
        if At(s, p) != '}' {
          return Fail;
        }
        var trimmed := output.Resize(output.count);
        return Ok(Object(output.Contents(), output.capacity), p + 1);
      }
    }
    r := Fail;
  }

  method ParseKey(s: string, p: nat) returns (r: Parsed<string>)
    requires p < |s|
    ensures r == KeyAt(s, p)
  {
    var key := GetQuotedString(s, p);
    if !key.Ok? {
      return Fail;
    }
    var colon := SkipWhitespaces(s, key.pos);
    r := if At(s, colon) == ':' then Ok(key.value, colon + 1) else Fail;
  }

  method ParseMember(s: string, p: nat, nesting: nat, output: JsonObject)
    returns (failure: Option<bool>, more: bool, q: nat)
    requires p < |s| && output.Valid()
    modifies output, output.names, output.values
    ensures output.Valid()
    ensures output.names == old(output.names) || fresh(output.names)
    ensures output.values == old(output.values) || fresh(output.values)
    ensures var round := MemberRound(s, p, old(output.Contents()), old(output.capacity), nesting);
            match failure
            case Some(out) => round == Abort(out)
            case None =>
              && round == (if more then More(q, output.Contents(), output.capacity)
                           else Done(q, output.Contents(), output.capacity))
              && output.count > 0
    decreases |s| - p, 4
  {
    hide ValueAt, KeyAt, GrownCapacity, Find, SkipSpaces, SeparatorAt, DistinctNames;
    failure, more, q := Some(false), false, p;
    var key := ParseKey(s, p);
    if !key.Ok? {
      return;
    }
    var item := ParseValue(s, key.pos, nesting);
    match item
    case Fail =>
    case OutOfModel => failure := Some(true);
    case Ok(v, end) =>
      var ok := output.Add(key.value, v);
      if ok {
        failure := None;
        more, q := SkipSeparator(s, end);
      }
  }

  method JsonParseString(s: string) returns (r: Parsed<Value>)
    ensures r == ParseString(s)
  {
    var p := SkipWhitespaces(s, 0);
    if At(s, p) != '{' && At(s, p) != '[' {
      return Fail;
    }
    r := ParseValue(s, p, 0);
  }
}

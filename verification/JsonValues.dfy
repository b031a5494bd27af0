/**
 The value tree of the JSON library, and what its name lookup, insertion and
 removal do to the member list of one object.
 */
module JsonValues {
  import opened Basics
  import opened CStrings

  const STARTING_CAPACITY: nat := 15
  const ARRAY_MAX_CAPACITY: nat := 122880
  const OBJECT_MAX_CAPACITY: nat := 960
  const MAX_NESTING: nat := 19

  type Int32 = n: int | -0x8000_0000 <= n < 0x8000_0000

  /**
   `Error` stands for the NULL pointer, whose type the library reports as
   JSONError.  A `Fraction` is a number that is no 32-bit integer.
   */
  datatype Value =
    | Error
    | Null
    | Boolean(b: bool)
    | Number(n: Int32)
    | Fraction(x: real)
    | String(s: string)
    | Array(items: seq<Value>, cap: nat)
    | Object(members: seq<Member>, cap: nat)

  datatype Member = Member(name: string, value: Value)

  /** Index of the first member called `name`, or the number of members. */
  function Find(ms: seq<Member>, name: string): (i: nat)
    ensures i <= |ms|
    ensures i < |ms| ==> ms[i].name == name
    ensures forall j | 0 <= j < i :: ms[j].name != name
  {
    if ms == [] || ms[0].name == name then 0 else 1 + Find(ms[1..], name)
  }

  /** The value stored under `name`, or the NULL pointer. */
  function Lookup(ms: seq<Member>, name: string): Value {
    var i := Find(ms, name);
    if i < |ms| then ms[i].value else Error
  }

  ghost predicate HasName(ms: seq<Member>, name: string) {
    exists i | 0 <= i < |ms| :: ms[i].name == name
  }

  ghost predicate DistinctNames(ms: seq<Member>) {
    forall i, j | 0 <= i < j < |ms| :: ms[i].name != ms[j].name
  }

  /**
   The invariant of the library's trees: names are distinct C strings, no
   stored pointer is NULL, and counts stay below capacities below the limits.
   */
  ghost predicate WellFormed(v: Value) {
    match v
    case Error => false
    case Null => true
    case Boolean(_) => true
    case Number(_) => true
    case Fraction(_) => true
    case String(s) => NulFree(s)
    case Array(items, cap) =>
      && |items| <= cap <= ARRAY_MAX_CAPACITY
      && forall i | 0 <= i < |items| :: WellFormed(items[i])
    case Object(ms, cap) =>
      && |ms| <= cap <= OBJECT_MAX_CAPACITY
      && DistinctNames(ms)
      && forall i | 0 <= i < |ms| :: NulFree(ms[i].name) && WellFormed(ms[i].value)
  }

  /** Every number is a 32-bit integer. */
  predicate WholeNumbers(v: Value) {
    match v
    case Fraction(_) => false
    case Array(items, _) => forall i | 0 <= i < |items| :: WholeNumbers(items[i])
    case Object(ms, _) => forall i | 0 <= i < |ms| :: WholeNumbers(ms[i].value)
    case _ => true
  }

  /** The tree with every capacity cut down to the count, as the parser leaves it. */
  function Trim(v: Value): Value {
    match v
    case Array(items, _) => Array(TrimItems(items), |items|)
    case Object(ms, _) => Object(TrimMembers(ms), |ms|)
    case _ => v
  }

  function TrimItems(items: seq<Value>): (r: seq<Value>)
    ensures |r| == |items|
  {
    seq(|items|, i requires 0 <= i < |items| => Trim(items[i]))
  }

  function TrimMembers(ms: seq<Member>): (r: seq<Member>)
    ensures |r| == |ms|
  {
    seq(|ms|, i requires 0 <= i < |ms| => Member(ms[i].name, Trim(ms[i].value)))
  }

  /** The capacity the next insertion needs: doubled from 15 when the block is full. */
  function GrownCapacity(count: nat, cap: nat): nat {
    if count < cap then cap
    else if cap * 2 > STARTING_CAPACITY then cap * 2 else STARTING_CAPACITY
  }

  datatype AddResult = AddResult(ok: bool, members: seq<Member>, cap: nat)

  /** json_object_add: grows first, then refuses a name that is present. */
  function AddMember(ms: seq<Member>, cap: nat, name: string, value: Value): AddResult {
    var cap' := GrownCapacity(|ms|, cap);
    if value == Error || cap' > OBJECT_MAX_CAPACITY then AddResult(false, ms, cap)
    else if Lookup(ms, name) != Error then AddResult(false, ms, cap')
    else AddResult(true, ms + [Member(name, value)], cap')
  }

  /** json_object_set_value: overwrites in place, or adds at the end. */
  function SetMember(ms: seq<Member>, cap: nat, name: string, value: Value): AddResult {
    if value == Error then AddResult(false, ms, cap)
    else if Lookup(ms, name) != Error then
      AddResult(true, ms[Find(ms, name) := Member(name, value)], cap)
    else AddMember(ms, cap, name, value)
  }

  /** json_object_remove: the last member takes the removed one's place. */
  function RemoveMember(ms: seq<Member>, name: string): Option<seq<Member>> {
    if Lookup(ms, name) == Error then None else Some(GapFilled(ms, Find(ms, name)))
  }

  /** The members with the last one in the place of the `i`-th. */
  function GapFilled(ms: seq<Member>, i: nat): seq<Member>
    requires i < |ms|
  {
    ms[i := ms[|ms| - 1]][..|ms| - 1]
  }

  lemma GapFilledDistinct(ms: seq<Member>, i: nat)
    requires i < |ms| && DistinctNames(ms)
    ensures DistinctNames(GapFilled(ms, i))
    ensures forall k | 0 <= k < |ms| - 1 :: GapFilled(ms, i)[k] in ms
  {
  }

  datatype ItemsResult = ItemsResult(ok: bool, items: seq<Value>, cap: nat)

  /** json_array_add. */
  function AddItem(items: seq<Value>, cap: nat, value: Value): ItemsResult {
    var cap' := GrownCapacity(|items|, cap);
    if cap' > ARRAY_MAX_CAPACITY then ItemsResult(false, items, cap)
    else ItemsResult(true, items + [value], cap')
  }

  /**
   json_array_remove: the count is lowered before the last item is fetched to
   fill the gap, so the fetch is out of range and NULL is stored instead.
   */
  function RemoveItem(items: seq<Value>, ix: nat): Option<seq<Value>> {
    if ix >= |items| then None
    else
      var last := |items| - 1;
      Some(if ix != last then items[..last][ix := Error] else items[..last])
  }

  lemma FindByIndex(ms: seq<Member>, i: nat)
    requires DistinctNames(ms) && i < |ms|
    ensures Find(ms, ms[i].name) == i
  {
  }

  lemma FindAbsent(ms: seq<Member>, name: string)
    ensures Find(ms, name) < |ms| <==> HasName(ms, name)
  {
  }

  /** The capacities a container passes through as it grows. */
  predicate InChain(cap: nat) {
    cap in {0, 15, 30, 60, 120, 240, 480, 960, 1920, 3840, 7680, 15360, 30720, 61440, 122880}
  }

  lemma ChainGrows(count: nat, cap: nat, limit: nat)
    requires InChain(cap) && count <= cap <= limit && count < limit
    requires limit == OBJECT_MAX_CAPACITY || limit == ARRAY_MAX_CAPACITY
    ensures InChain(GrownCapacity(count, cap)) && count + 1 <= GrownCapacity(count, cap) <= limit
  {
  }
}

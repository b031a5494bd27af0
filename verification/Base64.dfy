/**
 Base64 (section 4 of RFC 4648): three bytes become four symbols.  The encoder
 and the decoder here are the program's own, table search, padding rule and
 buffer sizes included.
 */
module Base64 {
  import opened Basics

  // ------------------------------------------------------------------ the table

  const TABLE_SIZE: nat := 66

  /** The table of symbols.  '=' stands at 64, and the string's terminator at 65. */
  function Symbol(i: nat): (c: char)
    requires i <= 65
  {
    if i < 26 then ('A' as int + i) as char
    else if i < 52 then ('a' as int + i - 26) as char
    else if i < 62 then ('0' as int + i - 52) as char
    else if i == 62 then '+'
    else if i == 63 then '/'
    else if i == 64 then '='
    else '\0'
  }

  /** The last of the first `n` places of the table that holds `c`; -1 where none does. */
  function LastPlace(c: char, n: nat): (p: int)
    requires n <= TABLE_SIZE
    ensures -1 <= p < n
    ensures p >= 0 ==> Symbol(p) == c
    ensures forall i | p < i < n :: Symbol(i) != c
  {
    if n == 0 then -1 else if Symbol(n - 1) == c then n - 1 else LastPlace(c, n - 1)
  }

  ghost predicate InTable(c: char) {
    exists i | 0 <= i < TABLE_SIZE :: Symbol(i) == c
  }

  ghost predicate FromTable(s: string) {
    forall i | 0 <= i < |s| :: InTable(s[i])
  }

  /** find_pos */
  function FindPos(c: char): (p: nat)
    requires InTable(c)
    ensures p <= 65 && Symbol(p) == c
  {
    LastPlace(c, TABLE_SIZE)
  }

  /** No symbol is in the table twice, so a symbol is found where it was taken from. */
  lemma FoundWhereTaken(i: nat)
    requires i <= 65
    ensures InTable(Symbol(i)) && FindPos(Symbol(i)) == i
  {
    hide LastPlace;
    var p := LastPlace(Symbol(i), TABLE_SIZE);
    SymbolsDiffer(i, if p >= 0 then p else i);
  }

  lemma SymbolsDiffer(i: nat, j: nat)
    requires i <= 65 && j <= 65 && Symbol(i) == Symbol(j)
    ensures i == j
  {
  }

  // ------------------------------------------------------------------- encoding

  /** `prepare` after up to three bytes: each is shifted in from the right. */
  function Joined(g: seq<Byte>): (p: nat)
    requires |g| <= 3
    ensures |g| == 0 ==> p == 0
    ensures |g| == 1 ==> p < 0x100
    ensures |g| == 2 ==> p < 0x1_0000
    ensures |g| == 3 ==> p < 0x100_0000
  {
    if g == [] then 0 else Joined(g[..|g| - 1]) * 256 + g[|g| - 1]
  }

  /** A value shifted left by as many bytes as are missing from three. */
  function Aligned(p: nat, count: nat): nat
    requires 1 <= count <= 3
  {
    if count == 1 then p * 0x1_0000 else if count == 2 then p * 0x100 else p
  }

  /** The symbol of place `i` in a group of `count` bytes; the places after the last byte are padding. */
  function GroupSymbol(prepare: nat, count: nat, i: nat): char
    requires i < 4
  {
    if count < i then Symbol(0x40)
    else if i == 0 then Symbol(prepare / 0x4_0000 % 64)
    else if i == 1 then Symbol(prepare / 0x1000 % 64)
    else if i == 2 then Symbol(prepare / 0x40 % 64)
    else Symbol(prepare % 64)
  }

  function EncodeGroup(g: seq<Byte>): string
    requires 1 <= |g| <= 3
  {
    var prepare := Aligned(Joined(g), |g|);
    [GroupSymbol(prepare, |g|, 0), GroupSymbol(prepare, |g|, 1),
     GroupSymbol(prepare, |g|, 2), GroupSymbol(prepare, |g|, 3)]
  }

  function Encoded(d: seq<Byte>): string {
    if d == [] then []
    else if |d| <= 3 then EncodeGroup(d)
    else EncodeGroup(d[..3]) + Encoded(d[3..])
  }

  /** How much padding the encoding of `n` bytes ends with. */
  function Padding(n: nat): nat {
    if n % 3 == 0 then 0 else 3 - n % 3
  }

  /** A symbol that stands for six bits. */
  ghost predicate Plain(c: char) {
    InTable(c) && FindPos(c) < 64
  }

  /** The form of an encoding of `n` bytes: four symbols for every three bytes begun, padded at the end. */
  ghost predicate Shaped(s: string, n: nat) {
    && |s| == 4 * ((n + 2) / 3)
    && (forall i | 0 <= i < |s| - Padding(n) :: Plain(s[i]))
    && (forall i | |s| - Padding(n) <= i < |s| :: s[i] == '=')
  }

  lemma {:induction false} EncodedShape(d: seq<Byte>)
    ensures Shaped(Encoded(d), |d|)
  {
    hide Shaped, EncodeGroup;
    if d == [] {
      ShapedEmpty();
    } else if |d| <= 3 {
      GroupShape(d);
    } else {
      GroupShape(d[..3]);
      EncodedShape(d[3..]);
      ShapedAppend(EncodeGroup(d[..3]), Encoded(d[3..]), |d| - 3);
    }
  }

  lemma ShapedEmpty()
    ensures Shaped([], 0)
  {
  }

  lemma ShapedAppend(g: string, s: string, n: nat)
    requires Shaped(g, 3) && Shaped(s, n) && n > 0
    ensures Shaped(g + s, n + 3)
  {
    hide Plain;
  }

  lemma GroupShape(g: seq<Byte>)
    requires 1 <= |g| <= 3
    ensures Shaped(EncodeGroup(g), |g|)
  {
    hide LastPlace, Joined, Aligned, FindPos, InTable;
    var p := Aligned(Joined(g), |g|);
    FoundWhereTaken(p / 0x4_0000 % 64);
    FoundWhereTaken(p / 0x1000 % 64);
    FoundWhereTaken(p / 0x40 % 64);
    FoundWhereTaken(p % 64);
  }

  /** The bytes of one group, shifted into one number. */
  method JoinBytes(data: seq<Byte>, from: nat) returns (prepare: nat, temp: nat)
    requires from < |data|
    ensures temp == if |data| - from < 3 then |data| - from else 3
    ensures prepare == Joined(data[from..from + temp])
  {
    hide Joined;
    prepare, temp := 0, 0;
    JoinedNothing();
    assert data[from..from] == [];
    while temp < 3 && from + temp < |data|
      invariant temp <= 3 && from + temp <= |data|
      invariant prepare == Joined(data[from..from + temp])
    {
      JoinedStep(data, from, from + temp);
      prepare := prepare * 256 + data[from + temp];
      temp := temp + 1;
    }
  }

  lemma JoinedNothing()
    ensures Joined([]) == 0
  {
  }

  lemma JoinedStep(d: seq<Byte>, from: nat, to: nat)
    requires from <= to < |d| && to < from + 3
    ensures Joined(d[from..to + 1]) == Joined(d[from..to]) * 256 + d[to]
  {
    assert d[from..to + 1][..to - from] == d[from..to];
  }

  /** The four symbols of one group. */
  method WriteGroup(ret: array<char>, at: nat, prepare: nat, temp: nat, ghost g: seq<Byte>) returns (f: nat)
    requires 1 <= |g| == temp <= 3 && prepare == Aligned(Joined(g), temp) && at + 4 <= ret.Length
    modifies ret
    ensures f == at + 4 && ret[..f] == old(ret[..at]) + EncodeGroup(g)
  {
    hide Joined, Aligned, GroupSymbol;
    f := at;
    var i := 0;
    while i < 4
      invariant 0 <= i <= 4 && f == at + i
      invariant ret[..f] == old(ret[..at]) + EncodeGroup(g)[..i]
    {
      ghost var before := ret[..f];
      ret[f] := GroupSymbol(prepare, temp, i);
      assert ret[..f + 1] == before + [ret[f]];
      f, i := f + 1, i + 1;
    }
  }

  /** base64_encode: the buffer is exactly as long as the symbols and their terminator. */
  method Encode(data: seq<Byte>) returns (ret: array<char>)
    ensures fresh(ret) && ret[..] == Encoded(data) + ['\0']
  {
    hide Encoded, EncodeGroup, Joined, Aligned, Encoding;
    var retLen := |data| / 3;
    if |data| % 3 > 0 {
      retLen := retLen + 1;
    }
    retLen := retLen * 4 + 1;
    ret := new char[retLen](_ => '\0');
    EncodedLength(data);
    var f, tmp := 0, 0;
    EncodingStarts(data);
    assert ret[..0] == [];
    while tmp < |data|
      invariant 0 <= tmp <= |data| && 0 <= f < ret.Length
      invariant Encoding(data, tmp, ret[..f])
    {
      ghost var done := ret[..f];
      var prepare, temp := JoinBytes(data, tmp);
      EncodingStep(data, tmp, done, temp);
      f := WriteGroup(ret, f, Aligned(prepare, temp), temp, data[tmp..tmp + temp]);
      tmp := tmp + temp;
    }
    EncodingEnds(data, ret[..f]);
    ret[f] := '\0';
    assert ret[..] == ret[..f] + ['\0'];
  }

  lemma EncodedLength(d: seq<Byte>)
    ensures |Encoded(d)| == 4 * ((|d| + 2) / 3)
  {
    hide Encoded, Plain;
    EncodedShape(d);
  }

  /** `done` is the encoding of the bytes before `tmp`. */
  ghost predicate Encoding(d: seq<Byte>, tmp: nat, done: string) {
    tmp <= |d| && done + Encoded(d[tmp..]) == Encoded(d)
  }

  lemma EncodingStarts(d: seq<Byte>)
    ensures Encoding(d, 0, [])
  {
    hide Encoded;
    assert d[0..] == d;
  }

  lemma EncodingStep(d: seq<Byte>, tmp: nat, done: string, temp: nat)
    requires Encoding(d, tmp, done) && tmp < |d| && temp == if |d| - tmp < 3 then |d| - tmp else 3
    ensures |EncodeGroup(d[tmp..tmp + temp])| == 4 && |done| + 4 <= |Encoded(d)|
    ensures Encoding(d, tmp + temp, done + EncodeGroup(d[tmp..tmp + temp]))
  {
    hide Encoded, EncodeGroup;
    var rest := d[tmp..];
    EncodedStep(rest);
    assert rest[..temp] == d[tmp..tmp + temp] && rest[temp..] == d[tmp + temp..];
    var group := EncodeGroup(rest[..temp]);
    assert done + (group + Encoded(rest[temp..])) == done + group + Encoded(rest[temp..]);
  }

  lemma EncodingEnds(d: seq<Byte>, done: string)
    requires Encoding(d, |d|, done)
    ensures done == Encoded(d)
  {
    EncodedOfNothing();
    assert d[|d|..] == [];
  }

  lemma EncodedOfNothing()
    ensures Encoded([]) == []
  {
  }

  lemma EncodedStep(d: seq<Byte>)
    requires d != []
    ensures var n := if |d| < 3 then |d| else 3;
            |EncodeGroup(d[..n])| == 4 && Encoded(d) == EncodeGroup(d[..n]) + Encoded(d[n..])
  {
    hide GroupSymbol, Joined, Aligned;
    if |d| <= 3 {
      assert d[..|d|] == d && d[|d|..] == [];
    }
  }

  // ------------------------------------------------------------------- decoding

  /** `(prepare << 6) | p`, where bit 6 of `p` falls on the lowest bit of `prepare`. */
  function ShiftIn(prepare: nat, p: nat): nat {
    (if p < 64 then prepare else prepare + 1 - prepare % 2) * 64 + p % 64
  }

  /** `prepare` after up to four symbols. */
  function Gathered(q: string): nat
    requires |q| <= 4 && FromTable(q)
  {
    if q == [] then 0 else ShiftIn(Gathered(q[..|q| - 1]), FindPos(q[|q| - 1]))
  }

  /** A value shifted left by as many symbols as are missing from four. */
  function AlignedSymbols(p: nat, count: nat): nat
    requires 1 <= count <= 4
  {
    if count == 1 then p * 0x4_0000 else if count == 2 then p * 0x1000 else if count == 3 then p * 0x40 else p
  }

  /** Byte `i` of a group. */
  function GroupByte(prepare: nat, i: nat): Byte
    requires i < 3
  {
    if i == 0 then (prepare / 0x1_0000 % 256)
    else if i == 1 then (prepare / 0x100 % 256)
    else (prepare % 256)
  }

  /** A group of one symbol is one byte, of two is two, of three or four is three. */
  function DecodeGroup(q: string): seq<Byte>
    requires 1 <= |q| <= 4 && FromTable(q)
  {
    var prepare := AlignedSymbols(Gathered(q), |q|);
    [GroupByte(prepare, 0), GroupByte(prepare, 1), GroupByte(prepare, 2)][..if |q| < 3 then |q| else 3]
  }

  function DecodedSymbols(s: string): seq<Byte>
    requires FromTable(s)
  {
    if s == [] then []
    else if |s| <= 4 then DecodeGroup(s)
    else DecodeGroup(s[..4]) + DecodedSymbols(s[4..])
  }

  /** How many of the last three symbols are '='. */
  function EqualCount(s: string): (n: nat)
    requires |s| >= 3
    ensures n <= 3
  {
    (if s[|s| - 1] == '=' then 1 else 0) + (if s[|s| - 2] == '=' then 1 else 0) + if s[|s| - 3] == '=' then 1 else 0
  }

  function Decoded(s: string): seq<Byte>
    requires |s| >= 3 && FromTable(s)
  {
    DecodedSymbols(s[..|s| - EqualCount(s)])
  }

  /** How many bytes the decoder writes for `n` symbols. */
  function ByteCount(n: nat): nat {
    n / 4 * 3 + if n % 4 < 3 then n % 4 else 3
  }

  lemma {:induction false} DecodedLength(s: string)
    requires FromTable(s)
    ensures |DecodedSymbols(s)| == ByteCount(|s|)
  {
    hide Gathered, LastPlace, InTable;
    if |s| > 4 {
      DecodedLength(s[4..]);
    }
  }

  lemma DecodedStep(s: string)
    requires s != [] && FromTable(s)
    ensures var n := if |s| < 4 then |s| else 4;
            DecodedSymbols(s) == DecodeGroup(s[..n]) + DecodedSymbols(s[n..])
  {
    hide DecodeGroup, InTable;
    if |s| <= 4 {
      assert s[..|s|] == s && s[|s|..] == [];
    }
  }

  /** The symbols of one group, shifted into one number. */
  method GatherSymbols(data: string, from: nat, dataLen: nat) returns (prepare: nat, temp: nat)
    requires from < dataLen <= |data| && FromTable(data)
    ensures temp == if dataLen - from < 4 then dataLen - from else 4
    ensures prepare == Gathered(data[from..from + temp])
  {
    hide InTable, ShiftIn, Gathered, FindPos;
    prepare, temp := 0, 0;
    GatheredNothing();
    assert data[from..from] == [];
    while temp < 4 && from + temp < dataLen
      invariant temp <= 4 && from + temp <= dataLen
      invariant prepare == Gathered(data[from..from + temp])
    {
      GatheredStep(data, from, from + temp);
      prepare := ShiftIn(prepare, FindPos(data[from + temp]));
      temp := temp + 1;
    }
  }

  lemma GatheredNothing()
    ensures Gathered([]) == 0
  {
  }

  lemma GatheredStep(s: string, from: nat, to: nat)
    requires from <= to < |s| && to < from + 4 && FromTable(s)
    ensures Gathered(s[from..to + 1]) == ShiftIn(Gathered(s[from..to]), FindPos(s[to]))
  {
    hide FindPos, ShiftIn, InTable;
    assert s[from..to + 1][..to - from] == s[from..to];
  }

  /** The bytes of one group: up to three, and no more than there were symbols. */
  method WriteBytes(ret: array<Byte>, at: nat, prepare: nat, temp: nat, ghost group: seq<Byte>) returns (f: nat)
    requires 1 <= temp <= 4 && |group| == (if temp < 3 then temp else 3) && at + |group| <= ret.Length
    requires forall i | 0 <= i < |group| :: group[i] == GroupByte(prepare, i)
    modifies ret
    ensures f == at + |group| && ret[..f] == old(ret[..at]) + group
    ensures forall i | f <= i < ret.Length :: ret[i] == old(ret[i])
  {
    hide GroupByte;
    f := at;
    var i := 0;
    while i < 3 && i != temp
      invariant 0 <= i <= |group| && f == at + i
      invariant ret[..f] == old(ret[..at]) + group[..i]
      invariant forall k | f <= k < ret.Length :: ret[k] == old(ret[k])
    {
      ghost var before := ret[..f];
      ret[f] := GroupByte(prepare, i);
      assert ret[..f + 1] == before + [ret[f]];
      TakeOneMore(old(ret[..at]), group, i);
      f, i := f + 1, i + 1;
    }
  }

  lemma TakeOneMore(front: seq<Byte>, group: seq<Byte>, i: nat)
    requires i < |group|
    ensures front + group[..i] + [group[i]] == front + group[..i + 1]
  {
  }

  lemma DecodeGroupBytes(q: string, prepare: nat)
    requires 1 <= |q| <= 4 && FromTable(q) && prepare == AlignedSymbols(Gathered(q), |q|)
    ensures |DecodeGroup(q)| == if |q| < 3 then |q| else 3
    ensures forall i | 0 <= i < |DecodeGroup(q)| :: DecodeGroup(q)[i] == GroupByte(prepare, i)
  {
    hide Gathered, GroupByte, FromTable, AlignedSymbols;
  }

  /** The size of the scratch array `need`, and how many bytes of it every group clears. */
  const NEED_SIZE: nat := 3
  const NEED_CLEARED: nat := 4

  /**
   The loop of base64_decode over the groups of the first `dataLen` symbols.
   `cleared` is how far into `need` it has written.
   */
  method DecodeGroups(ret: array<Byte>, data: string, dataLen: nat) returns (f: nat, cleared: nat)
    requires dataLen <= |data| && FromTable(data) && FromTable(data[..dataLen])
    requires |DecodedSymbols(data[..dataLen])| < ret.Length && forall i | 0 <= i < ret.Length :: ret[i] == 0
    modifies ret
    ensures f < ret.Length && ret[..f] == DecodedSymbols(data[..dataLen])
    ensures forall i | f <= i < ret.Length :: ret[i] == 0
    ensures cleared == if dataLen > 0 then NEED_CLEARED else 0
  {
    hide DecodedSymbols, DecodeGroup, Gathered, AlignedSymbols, Decoding, FromTable;
    ghost var symbols := data[..dataLen];
    f, cleared := 0, 0;
    var tmp := 0;
    DecodingStarts(symbols);
    assert ret[..0] == [];
    while tmp < dataLen
      invariant 0 <= tmp <= dataLen && 0 <= f < ret.Length
      invariant Decoding(symbols, tmp, ret[..f])
      invariant forall i | f <= i < ret.Length :: ret[i] == 0
      invariant cleared == if tmp > 0 then NEED_CLEARED else 0
    {
      ghost var done := ret[..f];
      cleared := NEED_CLEARED;
      var prepare, temp := GatherSymbols(data, tmp, dataLen);
      DecodingStep(symbols, tmp, done, temp);
      SliceOfPrefix(data, dataLen, tmp, tmp + temp);
      prepare := AlignedSymbols(prepare, temp);
      DecodeGroupBytes(data[tmp..tmp + temp], prepare);
      f := WriteBytes(ret, f, prepare, temp, DecodeGroup(data[tmp..tmp + temp]));
      tmp := tmp + temp;
    }
    DecodingEnds(symbols, ret[..f]);
  }

  lemma SliceOfPrefix(s: string, n: nat, from: nat, to: nat)
    requires from <= to <= n <= |s|
    ensures s[..n][from..to] == s[from..to]
  {
  }

  /** The loop over the groups runs for every text but three signs of padding. */
  lemma GroupLoopRuns(s: string)
    requires |s| >= 3
    ensures |s| > EqualCount(s) <==> s != "==="
  {
    if |s| == 3 {
      assert s == [s[0], s[1], s[2]];
    }
  }

  /**
   base64_decode: what is decoded fits into the buffer `ret`, and the rest of
   it is zero.  The scratch array `need` is written past its end whenever there
   is a group to decode.
   */
  method Decode(data: string) returns (ret: array<Byte>, cleared: nat)
    requires |data| >= 3 && FromTable(data)
    ensures fresh(ret) && |Decoded(data)| < ret.Length
    ensures ret[..|Decoded(data)|] == Decoded(data)
    ensures forall i | |Decoded(data)| <= i < ret.Length :: ret[i] == 0
    ensures cleared > NEED_SIZE <==> data != "==="
  {
    hide DecodedSymbols, FromTable, ByteCount;
    GroupLoopRuns(data);
    var retLen := |data| / 4 * 3;
    var equalCount := 0;
    if data[|data| - 1] == '=' {
      equalCount := equalCount + 1;
    }
    if data[|data| - 2] == '=' {
      equalCount := equalCount + 1;
    }
    if data[|data| - 3] == '=' {
      equalCount := equalCount + 1;
    }
    assert equalCount == EqualCount(data);
    hide EqualCount;
    retLen := retLen + if equalCount <= 1 then 4 else if equalCount == 2 then 3 else 2;
    ret := new Byte[retLen](_ => 0);
    FromTableSlice(data, 0, |data| - equalCount);
    DecodedLength(data[..|data| - equalCount]);
    BufferSuffices(|data|, equalCount);
    var f;
    f, cleared := DecodeGroups(ret, data, |data| - equalCount);
    ret[f] := 0;
  }

  lemma FromTableSlice(s: string, from: nat, to: nat)
    requires FromTable(s) && from <= to <= |s|
    ensures FromTable(s[from..to])
  {
    hide InTable;
  }

  lemma BufferSuffices(n: nat, equalCount: nat)
    requires equalCount <= 3 <= n
    ensures ByteCount(n - equalCount) < n / 4 * 3 + if equalCount <= 1 then 4 else if equalCount == 2 then 3 else 2
  {
  }

  /** `done` is what the symbols before `tmp` are decoded to. */
  ghost predicate Decoding(s: string, tmp: nat, done: seq<Byte>)
    requires FromTable(s)
  {
    tmp <= |s| && done + DecodedSymbols(s[tmp..]) == DecodedSymbols(s)
  }

  lemma DecodingStarts(s: string)
    requires FromTable(s)
    ensures Decoding(s, 0, [])
  {
    hide InTable, DecodedSymbols;
    assert s[0..] == s;
  }

  lemma DecodingStep(s: string, tmp: nat, done: seq<Byte>, temp: nat)
    requires FromTable(s) && tmp < |s| && temp == if |s| - tmp < 4 then |s| - tmp else 4
    ensures FromTable(s[tmp..tmp + temp])
    ensures Decoding(s, tmp, done) ==>
              && |done| + |DecodeGroup(s[tmp..tmp + temp])| <= |DecodedSymbols(s)|
              && Decoding(s, tmp + temp, done + DecodeGroup(s[tmp..tmp + temp]))
  {
    hide InTable, DecodedSymbols, DecodeGroup;
    var rest := s[tmp..];
    DecodedStep(rest);
    assert rest[..temp] == s[tmp..tmp + temp] && rest[temp..] == s[tmp + temp..];
    var group := DecodeGroup(rest[..temp]);
    assert done + (group + DecodedSymbols(rest[temp..])) == done + group + DecodedSymbols(rest[temp..]);
  }

  lemma DecodingEnds(s: string, done: seq<Byte>)
    requires FromTable(s) && Decoding(s, |s|, done)
    ensures done == DecodedSymbols(s)
  {
    DecodedOfNothing();
    assert s[|s|..] == [];
  }

  lemma DecodedOfNothing()
    ensures DecodedSymbols([]) == []
  {
  }
}

/**
 A request written as a line and parsed again.
 */
module RequestRoundTrip {
  import opened Basics
  import opened CStrings
  import opened RequestLine

  datatype Arg = Arg(key: string, value: string)

  datatype Request = Request(httpMethod: string, path: string, args: seq<Arg>, version: string)

  // -------------------------------------------------------------------- rendering

  /** `k=v&k=v...` */
  function ArgsText(args: seq<Arg>): string
    requires args != []
  {
    if |args| == 1 then args[0].key + "=" + args[0].value
    else args[0].key + "=" + (args[0].value + "&" + ArgsText(args[1..]))
  }

  function VersionText(r: Request, proto: string): string {
    " " + (proto + (r.version + "\r\n"))
  }

  /** The line behind the method and the space. */
  function TargetText(r: Request, proto: string): string {
    if r.args == [] then r.path + VersionText(r, proto)
    else r.path + ("?" + (ArgsText(r.args) + VersionText(r, proto)))
  }

  function LineText(r: Request, proto: string): (line: string)
    ensures |line| >= 2 && line[|line| - 2..] == "\r\n"
  {
    r.httpMethod + (" " + TargetText(r, proto))
  }

  /** Every argument, inserted in order: of equal keys the first one stays. */
  function InsertedAll(m: map<string, string>, args: seq<Arg>): map<string, string>
    decreases |args|
  {
    if args == [] then m else InsertedAll(Inserted(m, args[0].key, args[0].value), args[1..])
  }

  /** The first argument with the key `k`, or the number of arguments. */
  function FirstWith(args: seq<Arg>, k: string): (i: nat)
    ensures i <= |args| && (i < |args| ==> args[i].key == k)
    ensures forall j | 0 <= j < i :: args[j].key != k
  {
    if args == [] || args[0].key == k then 0 else 1 + FirstWith(args[1..], k)
  }

  /**
   What arguments leave in a map: its own keys keep their values, every other
   key of an argument has the value of the first argument with it, and there are no more keys.
   */
  lemma {:induction false} FirstValueStays(m: map<string, string>, args: seq<Arg>, k: string)
    ensures k in m ==> k in InsertedAll(m, args) && InsertedAll(m, args)[k] == m[k]
    ensures k !in m ==> (k in InsertedAll(m, args) <==> FirstWith(args, k) < |args|)
    ensures k !in m && FirstWith(args, k) < |args| ==> InsertedAll(m, args)[k] == args[FirstWith(args, k)].value
    decreases |args|
  {
    if args != [] {
      FirstValueStays(Inserted(m, args[0].key, args[0].value), args[1..], k);
    }
  }

  // ------------------------------------------------------------------- conditions

  predicate Without(s: string, c: char) {
    forall i | 0 <= i < |s| :: s[i] != c
  }

  ghost predicate ArgsReadable(args: seq<Arg>) {
    forall a | a in args ::
      Without(a.key, ' ') && Without(a.key, '=') && Without(a.value, ' ') && Without(a.value, '&')
  }

  /**
   No delimiter stands where the parser would take it for one.  A line without
   arguments must do without '?' and '=' altogether; a line with arguments need
   not, outside the path and the keys.
   */
  ghost predicate Readable(r: Request, proto: string) {
    && (proto == "HTTP/" || proto == "http/")
    && Without(r.httpMethod, ' ')
    && (r.args == [] ==>
          && Without(r.path, ' ') && Without(r.path, '?') && Without(r.path, '=')
          && Without(r.version, '?') && Without(r.version, '='))
    && (r.args != [] ==> Without(r.path, '?') && ArgsReadable(r.args))
    && (proto == "HTTP/" ==> forall i: nat :: !Occurs(r.version, i, "http/"))
  }

  /** The line ends where it ends and nowhere before, and fits. */
  ghost predicate OneLine(line: string) {
    NulFree(line) && |line| < 1024 && EndsOnce(line)
  }

  ghost predicate EndsOnce(line: string) {
    forall i: nat | i + 2 < |line| :: !Occurs(line, i, "\r\n")
  }

  // -------------------------------------------------------------- what scans find

  lemma StrChrIs(s: string, p: nat, c: char, q: nat)
    requires p <= q < |s| && s[q] == c && forall i | p <= i < q :: s[i] != c
    ensures StrChr(s, p, c) == Some(q)
  {
  }

  /** A text without `c`, with `c` behind it. */
  lemma StrChrBehind(s: string, p: nat, t: string, c: char)
    requires Occurs(s, p, t) && Without(t, c) && At(s, p + |t|) == c != '\0'
    ensures StrChr(s, p, c) == Some(p + |t|)
  {
    hide StrChr, Occurs;
    forall i | p <= i < p + |t| ensures s[i] != c {
      OccursAt(s, p, t, i - p);
    }
    StrChrIs(s, p, c, p + |t|);
  }

  lemma StrStrIs(s: string, p: nat, t: string, q: nat)
    requires p <= q && Occurs(s, q, t) && forall i: nat | p <= i < q :: !Occurs(s, i, t)
    ensures StrStr(s, p, t) == Some(q)
  {
    hide StrStr, Occurs;
    var r := StrStr(s, p, t);
    assert r.Some?;
  }

  lemma StrStrIsNone(s: string, p: nat, t: string)
    requires forall i: nat | p <= i :: !Occurs(s, i, t)
    ensures StrStr(s, p, t) == None
  {
    hide StrStr, Occurs;
    var r := StrStr(s, p, t);
  }

  lemma UntilIs(s: string, p: nat, t: string, c: char, a: char, b: char)
    requires NulFree(s) && Occurs(s, p, t + [c]) && (c == a || c == b) && Without(t, a) && Without(t, b)
    ensures Until(s, p, a, b) == p + |t| && s[p..p + |t|] == t && At(s, p + |t|) == c
  {
    OccursSplit(s, p, t, [c]);
    OccursAt(s, p + |t|, [c], 0);
    forall i | p <= i < p + |t| ensures s[i] == t[i - p] {
      OccursAt(s, p, t, i - p);
    }
  }

  // -------------------------------------------------------------------- arguments

  /** Where the key and the value of `k=v` end, when `c` follows. */
  lemma ArgEnds(line: string, p: nat, arg: Arg, c: char)
    requires NulFree(line) && ArgsReadable([arg]) && (c == ' ' || c == '&')
    requires Occurs(line, p, arg.key + "=" + (arg.value + [c]))
    ensures var q := p + |arg.key|; var e := q + 1 + |arg.value|;
            && p <= q < e < |line| && line[p..q] == arg.key && line[q] == '=' && line[q + 1..e] == arg.value && line[e] == c
            && Until(line, p, ' ', '=') == q && Until(line, q + 1, ' ', '&') == e
  {
    hide Until, Occurs, NulFree;
    assert arg in [arg];
    OccursSplit(line, p, arg.key + "=", arg.value + [c]);
    assert arg.key + "=" == arg.key + ['='];
    UntilIs(line, p, arg.key, '=', ' ', '=');
    UntilIs(line, p + |arg.key| + 1, arg.value, c, ' ', '&');
  }

  /** `k=v` followed by `c`, read as one round of the argument loop. */
  lemma ArgRead(line: string, p: nat, arg: Arg, c: char, m: map<string, string>)
    requires NulFree(line) && ArgsReadable([arg]) && (c == ' ' || c == '&')
    requires Occurs(line, p, arg.key + "=" + (arg.value + [c]))
    ensures var e := p + |arg.key| + 1 + |arg.value|;
            var more := Inserted(m, arg.key, arg.value);
            p < e < |line| && line[e] == c
            && ParseArgs(line, p, m) == if c == ' ' then Args(Some(e), more) else ParseArgs(line, e + 1, more)
  {
    hide Until, ParseArgs, Inserted, Occurs, ArgsReadable;
    ArgEnds(line, p, arg, c);
    assert At(line, p) != '\0';
    ParseArgsStep(line, p, m);
  }

  /** Where the key and the value end when spaces stand between them. */
  lemma SpacedArgEnds(line: string, p: nat, arg: Arg, gap: string, c: char)
    requires NulFree(line) && ArgsReadable([arg]) && arg.value != "" && (c == ' ' || c == '&')
    requires gap != "" && forall i | 0 <= i < |gap| :: gap[i] == ' '
    requires Occurs(line, p, arg.key + (gap + (arg.value + [c])))
    ensures var q := p + |arg.key|; var v := q + |gap|; var e := v + |arg.value|;
            && p <= q < v < e < |line| && line[p..q] == arg.key && line[q] == ' ' && line[v..e] == arg.value && line[e] == c
            && Until(line, p, ' ', '=') == q && SkipSpaces(line, q) == v && Until(line, v, ' ', '&') == e
  {
    hide Until, Occurs, NulFree, SkipSpaces;
    var q := p + |arg.key|;
    var v := q + |gap|;
    OccursSplit(line, p, arg.key, gap + (arg.value + [c]));
    OccursSplit(line, q, gap, arg.value + [c]);
    OccursAt(line, v, arg.value + [c], 0);
    SpacesSkipped(line, q, gap);
    assert arg in [arg];
    UntilIs(line, v, arg.value, c, ' ', '&');
    KeyEndsAtSpace(line, p, arg.key, gap);
  }

  lemma KeyEndsAtSpace(line: string, p: nat, key: string, gap: string)
    requires NulFree(line) && Without(key, ' ') && Without(key, '=') && gap != "" && gap[0] == ' '
    requires Occurs(line, p, key) && Occurs(line, p + |key|, gap)
    ensures Until(line, p, ' ', '=') == p + |key| < |line| && line[p..p + |key|] == key && line[p + |key|] == ' '
  {
    hide Until, Occurs, NulFree;
    OccursAt(line, p + |key|, gap, 0);
    forall i | p <= i < p + |key| ensures line[i] == key[i - p] {
      OccursAt(line, p, key, i - p);
    }
    UntilStops(line, p, p + |key|, ' ', '=');
  }

  lemma UntilStops(line: string, p: nat, q: nat, a: char, b: char)
    requires NulFree(line) && p <= q < |line| && (line[q] == a || line[q] == b)
    requires forall i | p <= i < q :: line[i] != a && line[i] != b
    ensures Until(line, p, a, b) == q
  {
  }

  /** A key and its value may also stand apart by spaces instead of the '='. */
  lemma SpacedArgRead(line: string, p: nat, arg: Arg, gap: string, c: char, m: map<string, string>)
    requires NulFree(line) && ArgsReadable([arg]) && arg.value != "" && (c == ' ' || c == '&')
    requires gap != "" && forall i | 0 <= i < |gap| :: gap[i] == ' '
    requires Occurs(line, p, arg.key + (gap + (arg.value + [c])))
    ensures var e := p + |arg.key| + |gap| + |arg.value|;
            var more := Inserted(m, arg.key, arg.value);
            p < e < |line| && line[e] == c
            && ParseArgs(line, p, m) == if c == ' ' then Args(Some(e), more) else ParseArgs(line, e + 1, more)
  {
    hide Until, ParseArgs, Inserted, Occurs, NulFree, SkipSpaces, ArgsReadable;
    SpacedArgEnds(line, p, arg, gap, c);
    InLine(line, p);
    InLine(line, p + |arg.key| + |gap|);
    ParseArgsStep(line, p, m);
  }

  lemma InLine(line: string, p: nat)
    requires NulFree(line) && p < |line|
    ensures At(line, p) != '\0'
  {
  }

  lemma {:induction false} SpacesSkipped(line: string, q: nat, gap: string)
    requires Occurs(line, q, gap) && (forall i | 0 <= i < |gap| :: gap[i] == ' ') && At(line, q + |gap|) != ' '
    ensures q + |gap| <= |line| && SkipSpaces(line, q) == q + |gap|
    decreases |gap|
  {
    if gap != "" {
      OccursHead(line, q, gap);
      SpacesSkipped(line, q + 1, gap[1..]);
    }
  }

  /** A key that nothing ends, or a value that nothing ends, is an error. */
  lemma UnfinishedArg(line: string, p: nat, m: map<string, string>)
    requires NulFree(line) && p < |line|
    ensures (forall i | p <= i < |line| :: line[i] != ' ' && line[i] != '=') ==> ParseArgs(line, p, m).end == None
    ensures forall q | p <= q < |line| && line[q] == '=' ::
              (forall i | p <= i < q :: line[i] != ' ' && line[i] != '=')
              && (forall i | q < i < |line| :: line[i] != ' ' && line[i] != '&')
              ==> ParseArgs(line, p, m).end == None
  {
    hide ParseArgs, Inserted;
    ParseArgsStep(line, p, m);
  }

  lemma {:induction false} ArgsRead(line: string, p: nat, args: seq<Arg>, m: map<string, string>)
    requires NulFree(line) && args != [] && ArgsReadable(args) && Occurs(line, p, ArgsText(args) + " ")
    ensures p + |ArgsText(args)| <= |line|
    ensures ParseArgs(line, p, m) == Args(Some(p + |ArgsText(args)|), InsertedAll(m, args))
    decreases |args|
  {
    hide ParseArgs, Inserted, Occurs;
    var arg := args[0];
    var more := Inserted(m, arg.key, arg.value);
    assert arg in args;
    assert ArgsReadable([arg]);
    if |args| == 1 {
      assert ArgsText(args) + " " == arg.key + "=" + (arg.value + [' ']);
      ArgRead(line, p, arg, ' ', m);
      assert InsertedAll(m, args) == InsertedAll(more, []) == more by { assert args[1..] == []; }
    } else {
      var rest := ArgsText(args[1..]) + " ";
      assert ArgsText(args) + " " == arg.key + "=" + (arg.value + ['&']) + rest;
      OccursSplit(line, p, arg.key + "=" + (arg.value + ['&']), rest);
      ArgRead(line, p, arg, '&', m);
      ArgsRead(line, p + |arg.key| + 1 + |arg.value| + 1, args[1..], more);
    }
  }

  // ---------------------------------------------------------------------- version

  /** An occurrence inside an occurrence. */
  lemma OccursInside(s: string, p: nat, t: string, i: nat, u: string)
    requires Occurs(s, p, t) && Occurs(s, i, u) && p <= i && i + |u| <= p + |t|
    ensures Occurs(t, i - p, u)
  {
    forall k | 0 <= k < |u| ensures t[i - p + k] == u[k] {
      assert s[p..p + |t|][i - p + k] == s[i + k] == s[i..i + |u|][k];
    }
  }

  /** The four parts of the end of the line. */
  ghost predicate VersionAt(line: string, p: nat, lead: string, proto: string, version: string) {
    && (lead == "" || lead == " ") && |proto| == 5
    && Occurs(line, p, lead) && Occurs(line, p + |lead|, proto)
    && Occurs(line, p + |lead| + 5, version) && Occurs(line, p + |lead| + 5 + |version|, "\r\n")
    && p + |lead| + 5 + |version| + 2 == |line|
  }

  /** No occurrence of "http/" begins in " HTTP/", or reaches over the end of the line. */
  lemma NoLowerCase(line: string, p: nat, lead: string, version: string, i: nat)
    requires VersionAt(line, p, lead, "HTTP/", version) && p <= i
    requires forall k: nat :: !Occurs(version, k, "http/")
    ensures !Occurs(line, i, "http/")
  {
    hide Occurs;
    if Occurs(line, i, "http/") {
      var q, e := p + |lead|, |line| - 2;
      OccursAt(line, i, "http/", 0);
      if i < q {
        OccursAt(line, p, lead, 0);
      } else if i < q + 5 {
        OccursAt(line, q, "HTTP/", i - q);
      } else if i + 5 <= e {
        OccursInside(line, q + 5, version, i, "http/");
      } else {
        AcrossTheEnd(line, i);
      }
    }
  }

  lemma AcrossTheEnd(line: string, i: nat)
    requires |line| >= 2 && Occurs(line, |line| - 2, "\r\n") && i + 5 > |line| - 2
    ensures !Occurs(line, i, "http/")
  {
    if Occurs(line, i, "http/") {
      var e: nat := |line| - 2;
      OccursAt(line, e, "\r\n", 0);
      OccursAt(line, i, "http/", e - i);
    }
  }

  lemma VersionRead(line: string, p: nat, lead: string, proto: string, version: string, h: Header)
    requires (proto == "HTTP/" || proto == "http/") && OneLine(line) && VersionAt(line, p, lead, proto, version)
    requires proto == "HTTP/" ==> forall i: nat :: !Occurs(version, i, "http/")
    ensures ParseVersion(line, p, h) == Parsed(Ok, h.(httpVersion := version))
  {
    hide StrStr, Occurs;
    var q := p + |lead|;
    ProtocolFound(line, p, lead, proto, version);
    if proto == "HTTP/" {
      forall i: nat | p <= i ensures !Occurs(line, i, "http/") {
        NoLowerCase(line, p, lead, version, i);
      }
      StrStrIsNone(line, p, "http/");
    }
    var e := q + 5 + |version|;
    StrStrIs(line, q + 5, "\r\n", e);
    OccursSlice(line, q + 5, version);
  }

  lemma ProtocolFound(line: string, p: nat, lead: string, proto: string, version: string)
    requires (proto == "HTTP/" || proto == "http/") && VersionAt(line, p, lead, proto, version)
    ensures StrStr(line, p, proto) == Some(p + |lead|)
  {
    hide Occurs;
    if lead == " " {
      OccursAt(line, p, lead, 0);
      if Occurs(line, p, proto) {
        OccursAt(line, p, proto, 0);
      }
    }
    StrStrIs(line, p, proto, p + |lead|);
  }

  lemma VersionTextAt(line: string, p: nat, lead: string, proto: string, version: string)
    requires (lead == "" || lead == " ") && |proto| == 5
    requires Occurs(line, p, lead + (proto + (version + "\r\n"))) && p + |lead| + 5 + |version| + 2 == |line|
    ensures VersionAt(line, p, lead, proto, version)
  {
    hide Occurs;
    OccursSplit(line, p, lead, proto + (version + "\r\n"));
    OccursSplit(line, p + |lead|, proto, version + "\r\n");
    OccursSplit(line, p + |lead| + 5, version, "\r\n");
  }

  // ------------------------------------------------------------------- round trip

  /** Where the parts of a line are. */
  lemma LineParts(r: Request, proto: string)
    ensures var line, sp := LineText(r, proto), |r.httpMethod|;
            && Occurs(line, 0, r.httpMethod) && Occurs(line, sp, " " + r.path)
            && Occurs(line, sp, " ") && Occurs(line, sp + 1, r.path)
            && Occurs(line, sp + 1 + |r.path|, TargetText(r, proto)[|r.path|..])
  {
    hide Occurs;
    var line, sp := LineText(r, proto), |r.httpMethod|;
    var rest := TargetText(r, proto)[|r.path|..];
    assert TargetText(r, proto) == r.path + rest;
    OccursWhole(line);
    OccursSplit(line, 0, r.httpMethod, " " + TargetText(r, proto));
    OccursSplit(line, sp, " ", r.path + rest);
    OccursSplit(line, sp + 1, r.path, rest);
    assert " " + (r.path + rest) == (" " + r.path) + rest;
    OccursSplit(line, sp, " " + r.path, rest);
  }

  lemma OccursWhole(s: string)
    ensures Occurs(s, 0, s)
  {
  }

  lemma TargetRead(line: string, r: Request, proto: string, h: Header)
    requires Readable(r, proto) && OneLine(line) && line == LineText(r, proto)
    ensures |r.httpMethod| < |line|
    ensures ParseTarget(line, |r.httpMethod|, h) ==
            Parsed(Ok, Header(h.httpMethod, " " + r.path, InsertedAll(h.urlArgs, r.args), r.version))
  {
    if r.args == [] {
      BareTargetRead(line, r, proto, h);
    } else {
      ArgsTargetRead(line, r, proto, h);
    }
  }

  /** A place is where `c` is first found behind the method, when the path does without it. */
  lemma FoundBehindPath(line: string, r: Request, proto: string, c: char)
    requires line == LineText(r, proto) && Without(r.path, c)
    requires At(line, |r.httpMethod| + 1 + |r.path|) == c != '\0'
    ensures StrChr(line, |r.httpMethod| + 1, c) == Some(|r.httpMethod| + 1 + |r.path|)
  {
    hide LineText, TargetText, Without, StrChr, Occurs, At;
    LineParts(r, proto);
    StrChrBehind(line, |r.httpMethod| + 1, r.path, c);
  }

  /** What stands behind the path of a line without arguments. */
  lemma BareTail(r: Request, proto: string)
    requires r.args == []
    ensures TargetText(r, proto)[|r.path|..] == " " + (proto + (r.version + "\r\n"))
  {
  }

  /** Where the parts of a line without arguments are. */
  lemma BareTargetParts(line: string, r: Request, proto: string)
    requires |proto| == 5 && line == LineText(r, proto) && r.args == []
    ensures var sp := |r.httpMethod|; var q := sp + 1 + |r.path|;
            && q < |line| && line[q] == ' ' && line[sp..q] == " " + r.path
            && VersionAt(line, q + 1, "", proto, r.version)
  {
    hide LineText, TargetText, Occurs, VersionAt;
    var sp := |r.httpMethod|;
    var q := sp + 1 + |r.path|;
    LineParts(r, proto);
    OccursSlice(line, sp, " " + r.path);
    var version := proto + (r.version + "\r\n");
    BareTail(r, proto);
    OccursSplit(line, q, " ", version);
    OccursAt(line, q, " ", 0);
    LineLength(r, proto);
    assert "" + version == version;
    VersionTextAt(line, q + 1, "", proto, r.version);
  }

  lemma BareTargetRead(line: string, r: Request, proto: string, h: Header)
    requires Readable(r, proto) && OneLine(line) && line == LineText(r, proto) && r.args == []
    ensures |r.httpMethod| < |line|
    ensures ParseTarget(line, |r.httpMethod|, h) ==
            Parsed(Ok, Header(h.httpMethod, " " + r.path, h.urlArgs, r.version))
  {
    hide StrChr, ParseVersion, LineText, OneLine, VersionAt, ArgsReadable, Without;
    var q := |r.httpMethod| + 1 + |r.path|;
    BareTargetParts(line, r, proto);
    NoMarks(line, r, proto);
    FoundBehindPath(line, r, proto, ' ');
    VersionRead(line, q + 1, "", proto, r.version, h.(serverPath := " " + r.path));
  }

  lemma LineLength(r: Request, proto: string)
    requires |proto| == 5
    ensures |LineText(r, proto)| == |r.httpMethod| + 1 + |r.path|
                                    + (if r.args == [] then 0 else 1 + |ArgsText(r.args)|) + 1 + 5 + |r.version| + 2
  {
    hide ArgsText;
  }

  /** A line without arguments holds no '?' and no '=' behind its method. */
  lemma NoMarks(line: string, r: Request, proto: string)
    requires Readable(r, proto) && r.args == [] && line == LineText(r, proto)
    ensures |r.httpMethod| < |line|
    ensures StrChr(line, |r.httpMethod| + 1, '?') == None && StrChr(line, |r.httpMethod| + 1, '=') == None
  {
    hide StrChr, Occurs, LineText, TargetText;
    var p := |r.httpMethod| + 1;
    var q := p + |r.path|;
    LineParts(r, proto);
    LineLength(r, proto);
    BareTail(r, proto);
    VersionTextAt(line, q, " ", proto, r.version);
    forall i | p <= i < |line| ensures line[i] != '?' && line[i] != '=' {
      if i < q {
        OccursAt(line, p, r.path, i - p);
      } else {
        NoMarksInVersion(line, q, proto, r.version, i);
      }
    }
  }

  lemma NoMarksInVersion(line: string, q: nat, proto: string, version: string, i: nat)
    requires (proto == "HTTP/" || proto == "http/") && VersionAt(line, q, " ", proto, version) && q <= i < |line|
    requires Without(version, '?') && Without(version, '=')
    ensures line[i] != '?' && line[i] != '='
  {
    hide Occurs;
    if i == q {
      OccursAt(line, q, " ", 0);
    } else if i < q + 6 {
      OccursAt(line, q + 1, proto, i - q - 1);
    } else if i < q + 6 + |version| {
      OccursAt(line, q + 6, version, i - q - 6);
    } else {
      OccursAt(line, q + 6 + |version|, "\r\n", i - q - 6 - |version|);
    }
  }

  lemma ArgsTargetRead(line: string, r: Request, proto: string, h: Header)
    requires Readable(r, proto) && OneLine(line) && line == LineText(r, proto) && r.args != []
    ensures |r.httpMethod| < |line|
    ensures ParseTarget(line, |r.httpMethod|, h) ==
            Parsed(Ok, Header(h.httpMethod, " " + r.path, InsertedAll(h.urlArgs, r.args), r.version))
  {
    hide StrChr, ParseVersion, ParseArgs, LineText, Occurs, ArgsText, ArgsReadable, InsertedAll;
    var sp := |r.httpMethod|;
    var q := sp + 1 + |r.path|;
    var a := ArgsText(r.args);
    LineParts(r, proto);
    OccursSlice(line, sp, " " + r.path);
    var version := VersionText(r, proto);
    assert TargetText(r, proto)[|r.path|..] == "?" + (a + version);
    OccursSplit(line, q, "?", a + version);
    OccursAt(line, q, "?", 0);
    OccursSplit(line, q + 1, a, version);
    LineLength(r, proto);
    VersionTextAt(line, q + 1 + |a|, " ", proto, r.version);
    assert a + version == (a + " ") + (proto + (r.version + "\r\n"));
    OccursSplit(line, q + 1, a + " ", proto + (r.version + "\r\n"));
    FoundBehindPath(line, r, proto, '?');
    ArgsRead(line, q + 1, r.args, h.urlArgs);
    VersionRead(line, q + 1 + |a|, " ", proto, r.version,
                h.(serverPath := " " + r.path, urlArgs := InsertedAll(h.urlArgs, r.args)));
  }

  /**
   A readable request on one line under 1024 characters is parsed to what it
   was written from, whatever follows the line: the path comes back with the
   space in front of it.
   */
  lemma RoundTrip(r: Request, proto: string, rest: string, length: nat, h: Header)
    requires Readable(r, proto) && OneLine(LineText(r, proto)) && length > 0
    ensures ParseHeader(Some(LineText(r, proto) + rest), length, h) ==
            Parsed(Ok, Header(r.httpMethod, " " + r.path, InsertedAll(h.urlArgs, r.args), r.version))
  {
    hide StrChr, StrStr, ParseTarget, CStr, LineText;
    var line := LineText(r, proto);
    var s := line + CStr(rest);
    CStrOfPrefix(line, rest);
    LineEnds(line, CStr(rest));
    assert s[..|line|] == line;
    MethodEnds(r, proto);
    TargetRead(line, r, proto, h.(httpMethod := r.httpMethod));
  }

  lemma MethodEnds(r: Request, proto: string)
    requires Without(r.httpMethod, ' ')
    ensures var line := LineText(r, proto); var sp := |r.httpMethod|;
            sp < |line| && line[..sp] == r.httpMethod && StrChr(line, 0, ' ') == Some(sp)
  {
    StrChrIs(LineText(r, proto), 0, ' ', |r.httpMethod|);
  }

  lemma LineEnds(line: string, rest: string)
    requires EndsOnce(line) && |line| >= 2 && line[|line| - 2..] == "\r\n"
    ensures StrStr(line + rest, 0, "\r\n") == Some(|line| - 2)
  {
    hide StrStr;
    var s, e := line + rest, |line| - 2;
    assert line[e] == line[e..][0] && line[e + 1] == line[e..][1];
    assert s[e..e + 2] == "\r\n";
    forall i: nat | i < e ensures !Occurs(s, i, "\r\n") {
      assert !Occurs(line, i, "\r\n");
      assert s[i..i + 2] == line[i..i + 2];
    }
    StrStrIs(s, 0, "\r\n", e);
  }

  /** Distinct keys come back with their values, and no other keys with them. */
  lemma {:induction false} DistinctArgsComeBack(args: seq<Arg>, m: map<string, string>)
    requires forall i, j | 0 <= i < j < |args| :: args[i].key != args[j].key
    requires forall i | 0 <= i < |args| :: args[i].key !in m
    ensures forall i | 0 <= i < |args| :: args[i].key in InsertedAll(m, args) && InsertedAll(m, args)[args[i].key] == args[i].value
    ensures forall k :: k in InsertedAll(m, args) && k !in m ==> exists i :: 0 <= i < |args| && args[i].key == k
    ensures forall k :: k in m ==> k in InsertedAll(m, args) && InsertedAll(m, args)[k] == m[k]
    decreases |args|
  {
    if args != [] {
      var rest := args[1..];
      DistinctArgsComeBack(rest, Inserted(m, args[0].key, args[0].value));
      forall k | k in InsertedAll(m, args) && k !in m ensures exists i :: 0 <= i < |args| && args[i].key == k {
        if k != args[0].key {
          var i :| 0 <= i < |rest| && rest[i].key == k;
          assert args[i + 1].key == k;
        }
      }
    }
  }
}

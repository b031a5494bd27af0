/**
 What the parser of request lines can give back at all, and with it the exact
 condition for a written request to come back.
 */
module RequestExact {
  import opened Basics
  import opened CStrings
  import opened RequestLine
  import opened RequestRoundTrip

  /** No line end in `s`. */
  ghost predicate NoLineEnd(s: string) {
    forall i | 0 <= i < |s| - 1 :: s[i] == '\r' ==> s[i + 1] != '\n'
  }

  /** Text that can stand inside a line. */
  ghost predicate Inside(s: string) {
    NulFree(s) && NoLineEnd(s)
  }

  /** The one line the parser works on: it ends with the first line end. */
  ghost predicate IsLine(line: string) {
    && |line| >= 2 && NulFree(line) && line[|line| - 2..] == "\r\n"
    && forall i | 0 <= i < |line| - 2 :: line[i] == '\r' ==> line[i + 1] != '\n'
  }

  lemma LineCharacters(line: string)
    requires IsLine(line)
    ensures line[|line| - 2] == '\r' && line[|line| - 1] == '\n'
  {
    assert line[|line| - 2] == line[|line| - 2..][0] && line[|line| - 1] == line[|line| - 2..][1];
  }

  /** A part that ends before the line end stands inside the line. */
  lemma PartInside(line: string, a: nat, b: nat)
    requires IsLine(line) && a <= b <= |line| - 2
    ensures Inside(line[a..b])
  {
    var part := line[a..b];
    assert forall i | 0 <= i < |part| :: part[i] == line[a + i];
  }

  // ------------------------------------------------------- what can be parsed

  ghost predicate KeyOk(k: string) {
    Inside(k) && Without(k, ' ') && Without(k, '=')
  }

  ghost predicate ValueOk(v: string) {
    Inside(v) && Without(v, ' ') && Without(v, '&')
  }

  ghost predicate ArgsOk(m: map<string, string>) {
    forall k | k in m :: KeyOk(k) && ValueOk(m[k])
  }

  lemma InsertedOk(m: map<string, string>, k: string, v: string)
    requires ArgsOk(m) && KeyOk(k) && ValueOk(v)
    ensures ArgsOk(Inserted(m, k, v)) && k in Inserted(m, k, v)
  {
    hide KeyOk, ValueOk;
  }

  /** One argument that the loop took. */
  lemma ArgOk(line: string, p: nat)
    requires IsLine(line) && p <= |line|
    requires var q := Until(line, p, ' ', '=');
             ValueStart(line, q).Some? && At(line, Until(line, ValueStart(line, q).value, ' ', '&')) in " &"
    ensures var q := Until(line, p, ' ', '=');
            var v := ValueStart(line, q).value;
            KeyOk(line[p..q]) && ValueOk(line[v..Until(line, v, ' ', '&')])
  {
    hide Until;
    LineCharacters(line);
    var q := Until(line, p, ' ', '=');
    var v := ValueStart(line, q).value;
    var e := Until(line, v, ' ', '&');
    PartInside(line, p, q);
    PartInside(line, v, e);
  }

  /** Arguments that are taken have no delimiter inside, and at least one is taken. */
  lemma {:induction false} ParsedArgsOk(line: string, p: nat, m: map<string, string>)
    requires IsLine(line) && p <= |line| && ArgsOk(m) && ParseArgs(line, p, m).end.Some?
    ensures ArgsOk(ParseArgs(line, p, m).args)
    ensures p < |line| || m != map[] ==> ParseArgs(line, p, m).args != map[]
    decreases |line| - p
  {
    hide ParseArgs, Until, ValueStart, ArgsOk, KeyOk, ValueOk, IsLine, Inserted;
    if p < |line| {
      NeverNul(line, p);
      ParseArgsStep(line, p, m);
      var q := Until(line, p, ' ', '=');
      var v := ValueStart(line, q).value;
      var e := Until(line, v, ' ', '&');
      var more := Inserted(m, line[p..q], line[v..e]);
      ArgOk(line, p);
      InsertedOk(m, line[p..q], line[v..e]);
      if At(line, e) != ' ' {
        ParsedArgsOk(line, e + 1, more);
      }
    } else {
      NothingToParse(line, p, m);
    }
  }

  lemma NeverNul(line: string, p: nat)
    requires IsLine(line) && p < |line|
    ensures At(line, p) != '\0'
  {
  }

  lemma NothingToParse(line: string, p: nat, m: map<string, string>)
    requires p == |line|
    ensures ParseArgs(line, p, m) == Args(Some(p), m)
  {
  }

  /** The first line end is the end of the line. */
  lemma LineEndIsLast(line: string, e: nat)
    requires IsLine(line) && Occurs(line, e, "\r\n")
    ensures e == |line| - 2
  {
    OccursAt(line, e, "\r\n", 0);
    OccursAt(line, e, "\r\n", 1);
  }

  /** The version at the end of the line stands behind the protocol that was found first. */
  ghost predicate BehindProtocol(line: string, version: string) {
    var at := |line| - 2 - |version|;
    && at >= 5 && version == line[at..at + |version|]
    && (Occurs(line, at - 5, "http/") || forall i: nat | at <= i :: !Occurs(line, i, "http/"))
  }

  /** A version that is taken ends where the line ends. */
  lemma ParsedVersionOk(line: string, p: nat, h: Header)
    requires IsLine(line) && ParseVersion(line, p, h).code == Ok
    ensures var r := ParseVersion(line, p, h).header;
            && r == h.(httpVersion := r.httpVersion) && Inside(r.httpVersion)
            && p + 5 + |r.httpVersion| + 2 <= |line| && BehindProtocol(line, r.httpVersion)
  {
    hide StrStr, IsLine, Inside;
    LineCharactersExist(line);
    var lower := StrStr(line, p, "http/");
    var q := if lower.Some? then lower.value else StrStr(line, p, "HTTP/").value;
    var e := StrStr(line, q + 5, "\r\n").value;
    LineEndIsLast(line, e);
    PartInside(line, q + 5, e);
  }

  lemma LineCharactersExist(line: string)
    requires IsLine(line)
    ensures |line| >= 2
  {
  }

  /** What is taken from the line behind its method. */
  ghost predicate TargetOk(line: string, sp: nat, r: Header) {
    && r.serverPath != "" && r.serverPath[0] == ' '
    && var path := r.serverPath[1..];
       && Inside(path) && Without(path, '?')
       && ArgsOk(r.urlArgs) && Inside(r.httpVersion) && BehindProtocol(line, r.httpVersion)
       && (r.urlArgs == map[] ==>
             && Without(path, ' ') && Without(path, '=')
             && Without(r.httpVersion, '?') && Without(r.httpVersion, '='))
  }

  lemma ParsedTargetOk(line: string, sp: nat, h: Header)
    requires IsLine(line) && sp < |line| && line[sp] == ' ' && h.urlArgs == map[]
    requires ParseTarget(line, sp, h).code == Ok
    ensures TargetOk(line, sp, ParseTarget(line, sp, h).header)
    ensures ParseTarget(line, sp, h).header.httpMethod == h.httpMethod
  {
    hide StrChr, ParseArgs, ParseVersion, IsLine, BehindProtocol, ArgsOk, Inside;
    LineCharacters(line);
    var mark := StrChr(line, sp + 1, '?');
    if mark.Some? {
      var q := mark.value;
      var h1 := h.(serverPath := line[sp..q]);
      var args := ParseArgs(line, q + 1, map[]);
      NoArgsOk();
      PartInside(line, sp + 1, q);
      assert line[sp..q][1..] == line[sp + 1..q];
      ParsedArgsOk(line, q + 1, map[]);
      ParsedVersionOk(line, args.end.value, h1.(urlArgs := args.args));
    } else {
      var q := StrChr(line, sp + 1, ' ').value;
      PartInside(line, sp + 1, q);
      assert line[sp..q][1..] == line[sp + 1..q];
      NoArgsOk();
      ParsedVersionOk(line, q + 1, h.(serverPath := line[sp..q]));
      var version := ParseVersion(line, q + 1, h.(serverPath := line[sp..q])).header.httpVersion;
      NoMarksInPart(line, sp + 1, sp + 1, q);
      VersionPart(line, version);
      NoMarksInPart(line, sp + 1, |line| - 2 - |version|, |line| - 2);
    }
  }

  lemma NoArgsOk()
    ensures ArgsOk(map[])
  {
  }

  lemma VersionPart(line: string, version: string)
    requires BehindProtocol(line, version)
    ensures |version| + 7 <= |line| && version == line[|line| - 2 - |version|..|line| - 2]
  {
  }

  lemma NoMarksInPart(line: string, p: nat, a: nat, b: nat)
    requires p <= a <= b <= |line| && StrChr(line, p, '?').None? && StrChr(line, p, '=').None?
    ensures Without(line[a..b], '?') && Without(line[a..b], '=')
  {
    hide StrChr;
  }

  // -------------------------------------------------------- the other direction

  /** Arguments without a line end are written without one. */
  lemma {:induction false} ArgsInside(args: seq<Arg>)
    requires args != [] && forall a | a in args :: Inside(a.key) && Inside(a.value)
    ensures Inside(ArgsText(args))
    decreases |args|
  {
    hide Inside;
    Separators();
    var a := args[0];
    assert a in args;
    InsideJoins2(a.key, "=");
    if |args| == 1 {
      InsideJoins1(a.key + "=", a.value);
    } else {
      ArgsInside(args[1..]);
      InsideJoins2(a.value, "&");
      InsideJoins1(a.value + "&", ArgsText(args[1..]));
      InsideJoins1(a.key + "=", a.value + "&" + ArgsText(args[1..]));
      assert a.value + "&" + ArgsText(args[1..]) == a.value + ("&" + ArgsText(args[1..]));
    }
  }

  lemma Separators()
    ensures Inside("=") && Inside("&") && Inside(" ") && Inside("?") && Inside("HTTP/") && Inside("http/")
  {
  }

  /** In front: text that does not end in '\\r'. */
  lemma InsideJoins1(a: string, b: string)
    requires Inside(a) && Inside(b) && a != "" && a[|a| - 1] != '\r'
    ensures Inside(a + b)
  {
  }

  /** Behind: text that does not begin with '\\n'. */
  lemma InsideJoins2(a: string, b: string)
    requires Inside(a) && Inside(b) && b != "" && b[0] != '\n'
    ensures Inside(a + b)
  {
  }

  /** A line written from parts without a line end has none before its own. */
  lemma LineEndsOnce(r: Request, proto: string)
    requires proto == "HTTP/" || proto == "http/"
    requires Inside(r.httpMethod) && Inside(r.path) && Inside(r.version)
    requires forall a | a in r.args :: Inside(a.key) && Inside(a.value)
    ensures NulFree(LineText(r, proto)) && EndsOnce(LineText(r, proto))
  {
    hide Inside, ArgsText, Occurs, NulFree, EndsOnce, LineText;
    Separators();
    InsideJoins1(proto, r.version);
    InsideJoins1(" ", proto + r.version);
    var version := " " + (proto + r.version);
    if r.args != [] {
      ArgsInside(r.args);
      InsideJoins2(ArgsText(r.args), version);
      InsideJoins1("?", ArgsText(r.args) + version);
    }
    var rest := if r.args == [] then version else "?" + (ArgsText(r.args) + version);
    InsideJoins2(r.path, rest);
    InsideJoins1(" ", r.path + rest);
    InsideJoins2(r.httpMethod, " " + (r.path + rest));
    var body := r.httpMethod + (" " + (r.path + rest));
    LineTextIs(r, proto, body);
    BodyEndsOnce(body);
  }

  lemma LineTextIs(r: Request, proto: string, body: string)
    requires var version := " " + (proto + r.version);
             var rest := if r.args == [] then version else "?" + (ArgsText(r.args) + version);
             body == r.httpMethod + (" " + (r.path + rest))
    ensures LineText(r, proto) == body + "\r\n"
  {
    hide ArgsText;
  }

  lemma BodyEndsOnce(body: string)
    requires Inside(body)
    ensures NulFree(body + "\r\n") && EndsOnce(body + "\r\n")
  {
    var line := body + "\r\n";
    forall i: nat | i + 2 < |line| ensures !Occurs(line, i, "\r\n") {
      if Occurs(line, i, "\r\n") {
        OccursAt(line, i, "\r\n", 0);
        OccursAt(line, i, "\r\n", 1);
      }
    }
  }

  /** Where the protocol and the version of a written line are. */
  lemma ProtocolAt(r: Request, proto: string)
    requires |proto| == 5
    ensures var at := |LineText(r, proto)| - 2 - |r.version|;
            at >= 5 && Occurs(LineText(r, proto), at - 5, proto) && Occurs(LineText(r, proto), at, r.version)
  {
    hide ArgsText, LineText, Occurs;
    var line := LineText(r, proto);
    var q := |r.httpMethod| + 1 + |r.path|;
    LineParts(r, proto);
    LineLength(r, proto);
    var version := VersionText(r, proto);
    if r.args == [] {
      assert TargetText(r, proto)[|r.path|..] == version;
      VersionTextAt(line, q, " ", proto, r.version);
    } else {
      var a := ArgsText(r.args);
      assert TargetText(r, proto)[|r.path|..] == "?" + (a + version);
      OccursSplit(line, q, "?", a + version);
      OccursSplit(line, q + 1, a, version);
      VersionTextAt(line, q + 1 + |a|, " ", proto, r.version);
    }
  }

  lemma OccursWithin(s: string, p: nat, t: string, k: nat, u: string)
    requires Occurs(s, p, t) && Occurs(t, k, u)
    ensures Occurs(s, p + k, u)
  {
    forall j | 0 <= j < |u| ensures s[p + k + j] == u[j] {
      OccursAt(t, k, u, j);
      OccursAt(s, p, t, k + j);
    }
  }

  /** The text up to its first line end is one line. */
  lemma FirstLine(s: string, p: nat)
    requires NulFree(s) && StrStr(s, 0, "\r\n") == Some(p)
    ensures p + 2 <= |s| && IsLine(s[..p + 2])
  {
    hide StrStr, Occurs;
    assert Occurs(s, p, "\r\n");
    OccursSlice(s, p, "\r\n");
    var line := s[..p + 2];
    assert line[..p] == s[..p];
    forall i | 0 <= i < |line| - 2 && line[i] == '\r' ensures line[i + 1] != '\n' {
      if line[i + 1] == '\n' {
        LineEndOccurs(s, i);
      }
    }
  }

  lemma LineEndOccurs(s: string, i: nat)
    requires i + 1 < |s| && s[i] == '\r' && s[i + 1] == '\n'
    ensures Occurs(s, i, "\r\n")
  {
  }

  lemma NothingInserted()
    ensures InsertedAll(map[], []) == map[]
  {
  }

  /** An argument whose key was there before, so that its value is lost, has no delimiter in it. */
  ghost predicate LostValuesOk(args: seq<Arg>) {
    forall i, j | 0 <= i < j < |args| && args[i].key == args[j].key :: ValueOk(args[j].value)
  }

  /** Arguments whose first values came back had no delimiter inside. */
  lemma ArgsComeBackOk(args: seq<Arg>)
    requires LostValuesOk(args) && ArgsOk(InsertedAll(map[], args))
    ensures ArgsReadable(args) && forall a | a in args :: Inside(a.key) && Inside(a.value)
  {
    hide InsertedAll, Inside;
    forall a | a in args ensures KeyOk(a.key) && ValueOk(a.value) {
      var j :| 0 <= j < |args| && args[j] == a;
      FirstValueStays(map[], args, a.key);
      var i := FirstWith(args, a.key);
      assert i <= j;
    }
  }

  /** A version with "http/" in it would have been taken for the protocol. */
  lemma NoOtherProtocol(r: Request)
    requires BehindProtocol(LineText(r, "HTTP/"), r.version)
    ensures forall i: nat :: !Occurs(r.version, i, "http/")
  {
    hide LineText, Occurs;
    var line := LineText(r, "HTTP/");
    var at := |line| - 2 - |r.version|;
    ProtocolAt(r, "HTTP/");
    OccursAt(line, at - 5, "HTTP/", 0);
    if Occurs(line, at - 5, "http/") {
      OccursAt(line, at - 5, "http/", 0);
    }
    forall i: nat ensures !Occurs(r.version, i, "http/") {
      if Occurs(r.version, i, "http/") {
        OccursWithin(line, at, r.version, i, "http/");
      }
    }
  }

  /**
   The exact condition.  A request, written as a line with anything behind it and
   parsed into an empty header, comes back with the first value of every key if and
   only if it is readable and makes one line under 1024 characters.  Of the values
   that are lost, those of keys that were there before, none may hold a delimiter.
   */
  lemma RoundTripExactly(r: Request, proto: string, rest: string, length: nat, h: Header)
    requires (proto == "HTTP/" || proto == "http/") && length > 0 && h.urlArgs == map[]
    requires LostValuesOk(r.args)
    ensures ParseHeader(Some(LineText(r, proto) + rest), length, h) ==
            Parsed(Ok, Header(r.httpMethod, " " + r.path, InsertedAll(map[], r.args), r.version))
            <==> Readable(r, proto) && OneLine(LineText(r, proto))
  {
    hide LineText, StrStr, StrChr, CStr, ParseTarget, InsertedAll, Inside, BehindProtocol, ArgsOk, ArgsReadable, EndsOnce, LostValuesOk;
    var text := LineText(r, proto);
    if Readable(r, proto) && OneLine(text) {
      RoundTrip(r, proto, rest, length, h);
    } else if ParseHeader(Some(text + rest), length, h) ==
              Parsed(Ok, Header(r.httpMethod, " " + r.path, InsertedAll(map[], r.args), r.version)) {
      var s := CStr(text + rest);
      var p := StrStr(s, 0, "\r\n").value;
      FirstLine(s, p);
      var line := s[..p + 2];
      var sp := StrChr(line, 0, ' ').value;
      LineCharacters(line);
      PartInside(line, 0, sp);
      ParsedTargetOk(line, sp, h.(httpMethod := line[..sp]));
      assert line[0..sp] == line[..sp] == r.httpMethod;
      assert (" " + r.path)[1..] == r.path;
      ArgsComeBackOk(r.args);
      LineEndsOnce(r, proto);
      CStrOfPrefix(text, rest);
      LineEnds(text, CStr(rest));
      assert line == text;
      if proto == "HTTP/" {
        NoOtherProtocol(r);
      }
      NothingInserted();
    }
  }

  /** A value with a '&' and the same key in it is written like two arguments. */
  function Hiding(front: seq<Arg>, k: string, v: string, w: string, back: seq<Arg>): seq<Arg> {
    front + ([Arg(k, v + ("&" + (k + "=" + w)))] + back)
  }

  function Split(front: seq<Arg>, k: string, v: string, w: string, back: seq<Arg>): seq<Arg> {
    front + ([Arg(k, v), Arg(k, w)] + back)
  }

  lemma {:induction false} SameText(front: seq<Arg>, k: string, v: string, w: string, back: seq<Arg>)
    ensures ArgsText(Hiding(front, k, v, w, back)) == ArgsText(Split(front, k, v, w, back))
  {
    if front == [] {
      HidingInFront(k, v, w, back);
      assert Hiding([], k, v, w, back) == [Arg(k, v + ("&" + (k + "=" + w)))] + back;
      assert Split([], k, v, w, back) == [Arg(k, v), Arg(k, w)] + back;
    } else {
      SameText(front[1..], k, v, w, back);
      assert Hiding(front, k, v, w, back)[1..] == Hiding(front[1..], k, v, w, back);
      assert Split(front, k, v, w, back)[1..] == Split(front[1..], k, v, w, back);
    }
  }

  lemma HidingInFront(k: string, v: string, w: string, back: seq<Arg>)
    ensures ArgsText([Arg(k, v + ("&" + (k + "=" + w)))] + back) == ArgsText([Arg(k, v), Arg(k, w)] + back)
  {
    var value := v + ("&" + (k + "=" + w));
    var hiding, split := [Arg(k, value)] + back, [Arg(k, v), Arg(k, w)] + back;
    assert hiding[1..] == back && split[1..] == [Arg(k, w)] + back && split[1..][1..] == back;
    if back == [] {
      assert ArgsText(split[1..]) == k + "=" + w;
      assert v + "&" + (k + "=" + w) == value;
    } else {
      var more := ArgsText(back);
      assert ArgsText(split[1..]) == k + "=" + (w + "&" + more);
      assert v + "&" + (k + "=" + (w + "&" + more)) == value + "&" + more;
    }
  }

  lemma {:induction false} SameValues(m: map<string, string>, front: seq<Arg>, k: string, v: string, w: string, back: seq<Arg>)
    requires k in m || FirstWith(front, k) < |front|
    ensures InsertedAll(m, Hiding(front, k, v, w, back)) == InsertedAll(m, Split(front, k, v, w, back))
    decreases |front|
  {
    var hiding, split := Hiding(front, k, v, w, back), Split(front, k, v, w, back);
    if front == [] {
      assert hiding[1..] == back && split[1..] == [Arg(k, w)] + back && split[1..][1..] == back;
    } else {
      SameValues(Inserted(m, front[0].key, front[0].value), front[1..], k, v, w, back);
      assert hiding[1..] == Hiding(front[1..], k, v, w, back);
      assert split[1..] == Split(front[1..], k, v, w, back);
    }
  }

  /**
   The condition on lost values is needed: one that hides the same key again is
   not readable, and its line still comes to the same, because it is read as two.
   */
  lemma LostValueMayHide(r: Request, front: seq<Arg>, k: string, v: string, w: string, back: seq<Arg>,
                         proto: string, rest: string, length: nat, h: Header)
    requires FirstWith(front, k) < |front| && r.args == Hiding(front, k, v, w, back) && length > 0
    requires var s := r.(args := Split(front, k, v, w, back)); Readable(s, proto) && OneLine(LineText(s, proto))
    ensures !Readable(r, proto)
    ensures ParseHeader(Some(LineText(r, proto) + rest), length, h) ==
            Parsed(Ok, Header(r.httpMethod, " " + r.path, InsertedAll(h.urlArgs, r.args), r.version))
  {
    hide ArgsText, InsertedAll, ParseHeader, OneLine;
    var s := r.(args := Split(front, k, v, w, back));
    SameText(front, k, v, w, back);
    SameValues(h.urlArgs, front, k, v, w, back);
    assert LineText(r, proto) == LineText(s, proto);
    RoundTrip(s, proto, rest, length, h);
    var hidden := Arg(k, v + ("&" + (k + "=" + w)));
    assert r.args[|front|] == hidden && hidden in r.args;
    assert hidden.value[|v|] == '&' && !Without(hidden.value, '&');
    assert !ArgsReadable(r.args);
  }

  // -------------------------------------------------------------------- the codes

  /** The first line end is at `p`. */
  ghost predicate LineEndAt(s: string, p: nat) {
    Occurs(s, p, "\r\n") && forall i: nat | i < p :: !Occurs(s, i, "\r\n")
  }

  /** Which texts are refused before anything is taken from them, and why. */
  lemma CodesExactly(text: Option<string>, length: nat, h: Header)
    ensures var code := ParseHeader(text, length, h).code;
            && (code == ArgumentError <==> text.None? || length == 0)
            && (text.Some? && length > 0 ==>
                  && (code == LengthError <==> exists p: nat :: LineEndAt(CStr(text.value), p) && p + 2 > 1024)
                  && (code == Unterminated <==> exists p: nat :: LineEndAt(CStr(text.value), p) && p + 2 == 1024)
                  && ((forall p: nat :: !LineEndAt(CStr(text.value), p)) ==> code == FormatError))
  {
    hide CStr, StrStr, Occurs, ParseTarget, StrChr;
    if text.Some? && length > 0 {
      var s := CStr(text.value);
      var found := StrStr(s, 0, "\r\n");
      if found.Some? {
        assert LineEndAt(s, found.value);
        forall p: nat | LineEndAt(s, p) ensures p == found.value {
          FirstIsFirst(s, p, found.value);
        }
        TargetCodes(text, length, h);
      } else {
        forall p: nat ensures !LineEndAt(s, p) {}
      }
    }
  }

  lemma FirstIsFirst(s: string, p: nat, q: nat)
    requires LineEndAt(s, p) && LineEndAt(s, q)
    ensures p == q
  {
    hide Occurs;
  }

  /** Behind the line end the codes are Ok and FormatError alone. */
  lemma TargetCodes(text: Option<string>, length: nat, h: Header)
    requires text.Some? && length > 0
    ensures var p := StrStr(CStr(text.value), 0, "\r\n");
            p.Some? && p.value + 2 < 1024 ==> ParseHeader(text, length, h).code in {Ok, FormatError}
  {
    hide CStr, StrStr, StrChr, ParseArgs;
  }
}

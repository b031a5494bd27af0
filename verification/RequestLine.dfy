/**
 The first line of an HTTP request, as the relay parses it: a method, a path,
 arguments behind a '?', and a version.
 */
module RequestLine {
  import opened Basics
  import opened CStrings

  /** What the parser fills in. */
  datatype Header = Header(httpMethod: string, serverPath: string, urlArgs: map<string, string>, httpVersion: string)

  /** Unterminated: the line fills its buffer of 1024 bytes to the last one, and no terminator follows it. */
  datatype Code = Ok | ArgumentError | FormatError | LengthError | Unterminated

  datatype Parsed = Parsed(code: Code, header: Header)

  const LINE_SIZE: nat := 1024

  // -------------------------------------------------------------------- scanning

  /** strchr from `p` on. */
  function StrChr(s: string, p: nat, c: char): (r: Option<nat>)
    ensures r.Some? ==> p <= r.value < |s| && s[r.value] == c && forall i | p <= i < r.value :: s[i] != c
    ensures r.None? ==> forall i | p <= i < |s| :: s[i] != c
    decreases |s| - p
  {
    if p >= |s| then None else if s[p] == c then Some(p) else StrChr(s, p + 1, c)
  }

  /** strstr from `p` on. */
  function StrStr(s: string, p: nat, t: string): (r: Option<nat>)
    ensures r.Some? ==> p <= r.value <= |s| - |t| && Occurs(s, r.value, t) && forall i | p <= i < r.value :: !Occurs(s, i, t)
    ensures r.None? ==> forall i | p <= i :: !Occurs(s, i, t)
    decreases |s| - p
  {
    if p + |t| > |s| then None else if s[p..p + |t|] == t then Some(p) else StrStr(s, p + 1, t)
  }

  /** The first place from `p` on that holds `a`, `b` or the terminator. */
  function Until(s: string, p: nat, a: char, b: char): (q: nat)
    requires p <= |s|
    ensures p <= q <= |s|
    ensures q == |s| || s[q] == '\0' || s[q] == a || s[q] == b
    ensures forall i | p <= i < q :: s[i] != '\0' && s[i] != a && s[i] != b
    decreases |s| - p
  {
    if p == |s| || s[p] == '\0' || s[p] == a || s[p] == b then p else Until(s, p + 1, a, b)
  }

  function SkipSpaces(s: string, p: nat): (q: nat)
    requires p <= |s|
    ensures p <= q <= |s| && At(s, q) != ' '
    ensures forall i | p <= i < q :: s[i] == ' '
    decreases |s| - p
  {
    if p < |s| && s[p] == ' ' then SkipSpaces(s, p + 1) else p
  }

  // --------------------------------------------------------------------- parsing

  /** std::map::insert: an earlier value stays. */
  function Inserted(m: map<string, string>, key: string, value: string): map<string, string> {
    if key in m then m else m[key := value]
  }

  /** Where the arguments end, if they are well formed, and what was inserted on the way. */
  datatype Args = Args(end: Option<nat>, args: map<string, string>)

  /** Where the value starts behind a key that ends at `q`: behind the '=', or behind spaces. */
  function ValueStart(line: string, q: nat): Option<nat>
    requires q <= |line|
    ensures ValueStart(line, q).Some? ==> q <= ValueStart(line, q).value <= |line|
  {
    if At(line, q) == ' ' then
      var v := SkipSpaces(line, q);
      if At(line, v) == '\0' then None else Some(v)
    else if At(line, q) == '=' then Some(q + 1)
    else None
  }

  function ParseArgs(line: string, p: nat, args: map<string, string>): (r: Args)
    requires p <= |line|
    ensures r.end.Some? ==> p <= r.end.value <= |line|
    decreases |line| - p
  {
    if At(line, p) == '\0' then Args(Some(p), args)
    else
      var q := Until(line, p, ' ', '=');
      match ValueStart(line, q)
      case None => Args(None, args)
      case Some(v) =>
        var e := Until(line, v, ' ', '&');
        var more := Inserted(args, line[p..q], line[v..e]);
        if At(line, e) == ' ' then Args(Some(e), more)
        else if At(line, e) == '\0' then Args(None, more)
        else ParseArgs(line, e + 1, more)
  }

  /** The version: behind the first "http/", or else behind the first "HTTP/", up to the end of the line. */
  function ParseVersion(line: string, p: nat, h: Header): Parsed {
    var lower := StrStr(line, p, "http/");
    var found := if lower.Some? then lower else StrStr(line, p, "HTTP/");
    match found
    case None => Parsed(FormatError, h)
    case Some(q) =>
      match StrStr(line, q + 5, "\r\n")
      case None => Parsed(FormatError, h)
      case Some(e) => Parsed(Ok, h.(httpVersion := line[q + 5..e]))
  }

  /** The line behind its method, which ends at the space at `sp`. */
  function ParseTarget(line: string, sp: nat, h: Header): Parsed
    requires sp < |line|
  {
    match StrChr(line, sp + 1, '?')
    case Some(q) =>
      var h1 := h.(serverPath := line[sp..q]);
      var args := ParseArgs(line, q + 1, h1.urlArgs);
      var h2 := h1.(urlArgs := args.args);
      if args.end.None? then Parsed(FormatError, h2) else ParseVersion(line, args.end.value, h2)
    case None =>
      if StrChr(line, sp + 1, '=').Some? then Parsed(FormatError, h)
      else
        match StrChr(line, sp + 1, ' ')
        case None => Parsed(FormatError, h)
        case Some(q) => ParseVersion(line, q + 1, h.(serverPath := line[sp..q]))
  }

  /** What parse_simple_rosehttp_header makes of a text and of what the header held before. */
  function ParseHeader(text: Option<string>, length: nat, h: Header): Parsed {
    if text.None? || length == 0 then Parsed(ArgumentError, h)
    else
      match StrStr(CStr(text.value), 0, "\r\n")
      case None => Parsed(FormatError, h)
      case Some(p) =>
        if p + 2 > LINE_SIZE then Parsed(LengthError, h)
        else if p + 2 == LINE_SIZE then Parsed(Unterminated, h)
        else
          var line := CStr(text.value)[..p + 2];
          match StrChr(line, 0, ' ')
          case None => Parsed(FormatError, h)
          case Some(sp) => ParseTarget(line, sp, h.(httpMethod := line[..sp]))
  }

  /** One round of the loop over the arguments. */
  lemma ParseArgsStep(line: string, p: nat, args: map<string, string>)
    requires p <= |line| && At(line, p) != '\0'
    ensures var q := Until(line, p, ' ', '=');
            var v := ValueStart(line, q);
            && (v.None? ==> ParseArgs(line, p, args) == Args(None, args))
            && (v.Some? ==>
                  var e := Until(line, v.value, ' ', '&');
                  var more := Inserted(args, line[p..q], line[v.value..e]);
                  ParseArgs(line, p, args) ==
                  if At(line, e) == ' ' then Args(Some(e), more)
                  else if At(line, e) == '\0' then Args(None, more)
                  else ParseArgs(line, e + 1, more))
  {
  }

  // ------------------------------------------------------------------ in place

  class SimpleRosehttpHeader {
    var httpMethod: string
    var serverPath: string
    var urlArgs: map<string, string>
    var httpVersion: string

    function View(): Header
      reads this
    {
      Header(httpMethod, serverPath, urlArgs, httpVersion)
    }

    constructor ()
      ensures View() == Header("", "", map[], "")
    {
      httpMethod, serverPath, urlArgs, httpVersion := "", "", map[], "";
    }

    /** The loop over the arguments. */
    method TakeArgs(line: string, start: nat) returns (end: Option<nat>)
      requires start <= |line|
      modifies this`urlArgs
      ensures Args(end, urlArgs) == ParseArgs(line, start, old(urlArgs))
    {
      hide Until, ValueStart, Inserted, At;
      var p := start;
      while At(line, p) != '\0'
        invariant start <= p <= |line|
        invariant ParseArgs(line, p, urlArgs) == ParseArgs(line, start, old(urlArgs))
        decreases |line| - p
      {
        ParseArgsStep(line, p, urlArgs);
        var key, q := ReadUntil(line, p, ' ', '=');
        var v := FindValue(line, q);
        if v.None? {
          return None;
        }
        var value, e := ReadUntil(line, v.value, ' ', '&');
        urlArgs := Inserted(urlArgs, key, value);
        p := e;
        if At(line, p) == ' ' {
          return Some(p);
        } else if At(line, p) == '\0' {
          return None;
        }
        p := p + 1;
      }
      end := Some(p);
    }

    method TakeVersion(line: string, p: nat) returns (code: Code)
      modifies this`httpVersion
      ensures Parsed(code, View()) == ParseVersion(line, p, old(View()))
    {
      var found := StrStr(line, p, "http/");
      if found.None? {
        found := StrStr(line, p, "HTTP/");
      }
      if found.None? {
        return FormatError;
      }
      var e := StrStr(line, found.value + 5, "\r\n");
      if e.None? {
        return FormatError;
      }
      httpVersion := line[found.value + 5..e.value];
      code := Ok;
    }

    /** parse_simple_rosehttp_header: the fields are filled in as far as the line is well formed. */
    method Parse(text: Option<string>, length: nat) returns (code: Code)
      modifies this
      ensures Parsed(code, View()) == ParseHeader(text, length, old(View()))
    {
      hide StrChr, StrStr, ParseArgs, ParseVersion, CStr, Occurs;
      if text.None? || length == 0 {
        return ArgumentError;
      }
      var s := CStr(text.value);
      var pos := StrStr(s, 0, "\r\n");
      if pos.None? {
        return FormatError;
      }
      if pos.value + 2 > LINE_SIZE {
        return LengthError;
      }
      if pos.value + 2 == LINE_SIZE {
        return Unterminated;
      }
      var line := s[..pos.value + 2];
      var space := StrChr(line, 0, ' ');
      if space.None? {
        return FormatError;
      }
      httpMethod := line[..space.value];
      var cur := StrChr(line, space.value + 1, '?');
      var hasArg := cur.Some?;
      if !hasArg {
        if StrChr(line, space.value + 1, '=').Some? {
          return FormatError;
        }
        cur := StrChr(line, space.value + 1, ' ');
        if cur.None? {
          return FormatError;
        }
      }
      serverPath := line[space.value..cur.value];
      var prev := cur.value + 1;
      if hasArg {
        var end := TakeArgs(line, prev);
        if end.None? {
          return FormatError;
        }
        prev := end.value;
      }
      code := TakeVersion(line, prev);
    }
  }

  /** What stands between a key and its value. */
  method FindValue(line: string, q: nat) returns (v: Option<nat>)
    requires q <= |line|
    ensures v == ValueStart(line, q)
  {
    var p := q;
    if At(line, p) == ' ' {
      while At(line, p) == ' '
        invariant q <= p <= |line| && SkipSpaces(line, p) == SkipSpaces(line, q)
        decreases |line| - p
      {
        p := p + 1;
      }
      if At(line, p) == '\0' {
        return None;
      }
    } else if At(line, p) == '=' {
      p := p + 1;
    } else {
      return None;
    }
    v := Some(p);
  }

  /** The inner loops over a key and over a value. */
  method ReadUntil(line: string, p: nat, a: char, b: char) returns (word: string, q: nat)
    requires p <= |line|
    ensures q == Until(line, p, a, b) && word == line[p..q]
  {
    word, q := "", p;
    while q < |line| && line[q] != '\0' && line[q] != a && line[q] != b
      invariant p <= q <= |line| && word == line[p..q]
      invariant Until(line, q, a, b) == Until(line, p, a, b)
    {
      word := word + [line[q]];
      q := q + 1;
    }
  }
}

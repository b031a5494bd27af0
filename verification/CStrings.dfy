/**
 C strings: a `string` whose characters are byte values.  The terminating
 NUL is not stored; reading at or past the end gives NUL, as reading the
 terminator does.
 */
module CStrings {

  /** The character a C pointer `s + i` sees. */
  function At(s: string, i: nat): char {
    if i < |s| then s[i] else '\0'
  }

  /** No character of `s` is the terminator, so `strlen` gives `|s|`. */
  predicate NulFree(s: string) {
    forall i | 0 <= i < |s| :: s[i] != '\0'
  }

  /** The part of `s` that C string functions see: everything before the first NUL. */
  function CStr(s: string): (t: string)
    ensures NulFree(t)
    ensures t <= s
    ensures |t| < |s| ==> s[|t|] == '\0'
    ensures NulFree(s) ==> t == s
  {
    if s == "" || s[0] == '\0' then ""
    else [s[0]] + CStr(s[1..])
  }

  /** `isspace` in the C locale. */
  predicate IsSpace(c: char) {
    c == ' ' || ('\t' <= c <= '\r')
  }

  /** `t` is the part of `s` that starts at `p`. */
  ghost predicate Occurs(s: string, p: nat, t: string) {
    p + |t| <= |s| && s[p..p + |t|] == t
  }

  /** A text that occurs is read character by character, and its halves occur one after the other. */
  lemma OccursSplit(s: string, p: nat, t: string, u: string)
    requires Occurs(s, p, t + u)
    ensures Occurs(s, p, t) && Occurs(s, p + |t|, u)
  {
    var w := s[p..p + |t + u|];
    assert s[p..p + |t|] == w[..|t|];
    assert s[p + |t|..p + |t| + |u|] == w[|t|..];
    assert (t + u)[..|t|] == t && (t + u)[|t|..] == u;
  }

  lemma OccursAt(s: string, p: nat, t: string, i: nat)
    requires Occurs(s, p, t) && i < |t|
    ensures At(s, p + i) == t[i]
  {
    assert s[p..p + |t|][i] == s[p + i];
  }

  lemma OccursHead(s: string, p: nat, t: string)
    requires Occurs(s, p, t) && |t| > 0
    ensures At(s, p) == t[0] && Occurs(s, p + 1, t[1..])
  {
    OccursAt(s, p, t, 0);
    assert t == t[..1] + t[1..];
    OccursSplit(s, p, t[..1], t[1..]);
  }

  lemma OccursSlice(s: string, p: nat, t: string)
    requires Occurs(s, p, t)
    ensures p + |t| <= |s| && s[p..p + |t|] == t
  {
  }

  /** A text that begins with a NUL-free part, as C string functions see it. */
  lemma {:induction false} CStrOfPrefix(a: string, b: string)
    requires NulFree(a)
    ensures CStr(a + b) == a + CStr(b)
    decreases |a|
  {
    if a == "" {
      assert a + b == b;
    } else {
      assert (a + b)[0] == a[0] != '\0' && (a + b)[1..] == a[1..] + b;
      CStrOfPrefix(a[1..], b);
      PrefixJoins(a, CStr(b));
    }
  }

  lemma PrefixJoins(a: string, c: string)
    requires a != ""
    ensures [a[0]] + (a[1..] + c) == a + c
  {
  }
}

/**
 * The few Python string operations the translator relies on:
 * `s.split(sep)[-1]` (the text after the last separator) and `s.strip(chars)`.
 */
module Strings {

  /** `s.startswith(t)` */
  predicate StartsWith(s: string, t: string)
  {
    |t| <= |s| && forall i :: 0 <= i < |t| ==> s[i] == t[i]
  }

  /** `s.endswith(t)` */
  predicate EndsWith(s: string, t: string)
  {
    |t| <= |s| && forall i :: 0 <= i < |t| ==> s[|s| - |t| + i] == t[i]
  }

  /** `s.split(sep)[-1]`: the longest suffix of `s` that does not contain `sep`. */
  function AfterLast(s: string, sep: char): (r: string)
    ensures |r| <= |s| && forall i :: 0 <= i < |r| ==> r[i] == s[|s| - |r| + i]
    ensures sep !in r
    ensures |r| < |s| ==> s[|s| - |r| - 1] == sep
  {
    if s == [] then []
    else if s[|s| - 1] == sep then []
    else AfterLast(s[..|s| - 1], sep) + [s[|s| - 1]]
  }

  /** Appending a character: a separator empties the tail, anything else extends it. */
  lemma AfterLastSnoc(s: string, sep: char, c: char)
    ensures AfterLast(s + [c], sep) == if c == sep then [] else AfterLast(s, sep) + [c]
  {
    assert (s + [c])[..|s|] == s;
  }

  /** A separator-free tail that follows a separator (or is the whole string) is what `AfterLast` returns. */
  lemma {:induction false} AfterLastOfTail(head: string, sep: char, tail: string)
    requires sep !in tail
    requires head == [] || head[|head| - 1] == sep
    ensures AfterLast(head + tail, sep) == tail
  {
    if tail == [] {
      assert head + tail == head;
    } else {
      var n := |tail| - 1;
      var front := tail[..n];
      assert tail == front + [tail[n]];
      assert head + tail == (head + front) + [tail[n]];
      AfterLastOfTail(head, sep, front);
      AfterLastSnoc(head + front, sep, tail[n]);
    }
  }

  /** When `j` holds the last separator, `AfterLast` returns what follows it. */
  lemma AfterLastAt(s: string, sep: char, j: nat)
    requires j < |s| && s[j] == sep && sep !in s[j + 1..]
    ensures AfterLast(s, sep) == s[j + 1..]
  {
    assert s == s[..j + 1] + s[j + 1..];
    AfterLastOfTail(s[..j + 1], sep, s[j + 1..]);
  }

  /** A separator at index `j` bounds the tail `AfterLast` returns to what follows it. */
  lemma {:induction false} AfterLastBound(s: string, sep: char, j: nat)
    requires j < |s| && s[j] == sep
    ensures |AfterLast(s, sep)| < |s| - j
  {
    if s[|s| - 1] != sep {
      assert s[..|s| - 1][j] == sep;
      AfterLastBound(s[..|s| - 1], sep, j);
    }
  }

  /** `s.lstrip(chars)`: drop the leading characters that belong to `cs`. */
  function StripLeading(s: string, cs: set<char>): (r: string)
    ensures |r| <= |s| && r == s[|s| - |r|..]
    ensures r == [] || r[0] !in cs
    ensures forall i :: 0 <= i < |s| - |r| ==> s[i] in cs
  {
    if s != [] && s[0] in cs then StripLeading(s[1..], cs) else s
  }

  /** `s.rstrip(chars)`: drop the trailing characters that belong to `cs`. */
  function StripTrailing(s: string, cs: set<char>): (r: string)
    ensures |r| <= |s| && r == s[..|r|]
    ensures r == [] || r[|r| - 1] !in cs
    ensures forall i :: |r| <= i < |s| ==> s[i] in cs
  {
    if s != [] && s[|s| - 1] in cs then StripTrailing(s[..|s| - 1], cs) else s
  }

  /** `s.strip(chars)`: both ends. */
  function Strip(s: string, cs: set<char>): (r: string)
    ensures |r| <= |s|
    ensures r == [] || (r[0] !in cs && r[|r| - 1] !in cs)
    ensures (s == [] || (s[0] !in cs && s[|s| - 1] !in cs)) ==> r == s
  {
    StripTrailing(StripLeading(s, cs), cs)
  }

  /**
   * `r` is `s` with its first `a` characters and everything after `r` removed,
   * and every removed character belongs to `cs`.
   */
  predicate TrimmedAt(s: string, cs: set<char>, a: nat, r: string)
  {
    a + |r| <= |s| && r == s[a..a + |r|] &&
    (forall i :: 0 <= i < a ==> s[i] in cs) && (forall i :: a + |r| <= i < |s| ==> s[i] in cs)
  }

  /** Stripping removes characters of `cs` from the two ends and nothing else. */
  lemma StripRemovesOnlyEnds(s: string, cs: set<char>)
    ensures exists a :: TrimmedAt(s, cs, a, Strip(s, cs))
  {
    var l := StripLeading(s, cs);
    var r := StripTrailing(l, cs);
    var a := |s| - |l|;
    assert r == s[a..a + |r|] by {
      assert l == s[a..] && r == l[..|r|];
    }
    forall i | a + |r| <= i < |s|
      ensures s[i] in cs
    {
      assert s[i] == l[i - a];
    }
    assert Strip(s, cs) == r && TrimmedAt(s, cs, a, r);
  }

  /**
   * When the first `a` and the last `b` characters of `s` belong to `cs`,
   * stripping removes at least those (or everything).
   */
  lemma StripBound(s: string, cs: set<char>, a: nat, b: nat)
    requires a + b <= |s|
    requires forall i :: 0 <= i < a ==> s[i] in cs
    requires forall i :: |s| - b <= i < |s| ==> s[i] in cs
    ensures Strip(s, cs) == [] || |Strip(s, cs)| <= |s| - a - b
  {
    var l := StripLeading(s, cs);
    if l != [] {
      assert l[0] == s[|s| - |l|];
      var m := StripTrailing(l, cs);
      if m != [] {
        assert m[|m| - 1] == s[|s| - |l| + |m| - 1];
      }
    }
  }

}

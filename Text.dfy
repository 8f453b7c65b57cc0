/**
 * The parts of .NET string handling the facades rely on: lower-casing
 * (ASCII only), `Char.IsWhiteSpace`, and `String.Trim`.
 */
module Text {

  /** ASCII lower-casing of one character: 'A'..'Z' become 'a'..'z', everything else is kept. */
  function Lower(c: char): char
  {
    if 'A' <= c <= 'Z' then (c as int + 32) as char else c
  }

  /** `String.ToLower`, restricted to ASCII letters. */
  function ToLower(s: string): string
  {
    seq(|s|, i requires 0 <= i < |s| => Lower(s[i]))
  }

  /** `Char.IsWhiteSpace`: the Unicode separators plus U+0009..U+000D, U+0085 and U+00A0. */
  predicate IsWhiteSpace(c: char)
  {
    var n := c as int;
    || 0x09 <= n <= 0x0D || n == 0x20 || n == 0x85 || n == 0xA0 || n == 0x1680
    || 0x2000 <= n <= 0x200A || n == 0x2028 || n == 0x2029 || n == 0x202F
    || n == 0x205F || n == 0x3000
  }

  predicate AllWhiteSpace(s: string)
  {
    forall i :: 0 <= i < |s| ==> IsWhiteSpace(s[i])
  }

  /** `String.TrimStart()`: the suffix left after dropping every leading white-space character. */
  function TrimStart(s: string): (r: string)
    ensures |r| <= |s| && r == s[|s| - |r|..]
    ensures AllWhiteSpace(s[..|s| - |r|])
    ensures r == [] || !IsWhiteSpace(r[0])
  {
    if s != [] && IsWhiteSpace(s[0]) then TrimStart(s[1..]) else s
  }

  /** `String.TrimEnd()`: the prefix left after dropping every trailing white-space character. */
  function TrimEnd(s: string): (r: string)
    ensures |r| <= |s| && r == s[..|r|]
    ensures AllWhiteSpace(s[|r|..])
    ensures r == [] || !IsWhiteSpace(r[|r| - 1])
  {
    if s != [] && IsWhiteSpace(s[|s| - 1]) then
      var r := TrimEnd(s[..|s| - 1]);
      assert s[|r|..] == s[..|s| - 1][|r|..] + [s[|s| - 1]];
      r
    else s
  }

  /** `String.Trim()`: white space removed at both ends and nowhere else. */
  function Trim(s: string): (r: string)
    ensures |r| <= |s|
    ensures r == [] || (!IsWhiteSpace(r[0]) && !IsWhiteSpace(r[|r| - 1]))
  {
    TrimEnd(TrimStart(s))
  }

  lemma {:induction false} TrimStartPadding(pre: string, s: string)
    requires AllWhiteSpace(pre)
    ensures TrimStart(pre + s) == TrimStart(s)
    decreases |pre|
  {
    if pre != [] {
      assert (pre + s)[0] == pre[0] && IsWhiteSpace(pre[0]);
      assert (pre + s)[1..] == pre[1..] + s;
      assert TrimStart(pre + s) == TrimStart(pre[1..] + s);
      TrimStartPadding(pre[1..], s);
    } else {
      assert pre + s == s;
    }
  }

  lemma {:induction false} TrimEndPadding(s: string, post: string)
    requires AllWhiteSpace(post)
    ensures TrimEnd(s + post) == TrimEnd(s)
    decreases |post|
  {
    if post != [] {
      var last := |post| - 1;
      assert (s + post)[|s + post| - 1] == post[last] && IsWhiteSpace(post[last]);
      assert (s + post)[..|s + post| - 1] == s + post[..last];
      assert TrimEnd(s + post) == TrimEnd(s + post[..last]);
      TrimEndPadding(s, post[..last]);
    } else {
      assert s + post == s;
    }
  }

  /** Trailing white space that `TrimStart` does not reach is kept as it is. */
  lemma {:induction false} TrimStartKeepsTail(s: string, post: string)
    requires !AllWhiteSpace(s)
    ensures TrimStart(s + post) == TrimStart(s) + post
    decreases |s|
  {
    if IsWhiteSpace(s[0]) {
      assert (s + post)[1..] == s[1..] + post;
      assert !AllWhiteSpace(s[1..]) by {
        var j :| 0 <= j < |s| && !IsWhiteSpace(s[j]);
        assert s[1..][j - 1] == s[j];
      }
      TrimStartKeepsTail(s[1..], post);
    }
  }

  /** A string with no white space at either end is its own trim. */
  lemma TrimUnpadded(s: string)
    requires s == [] || (!IsWhiteSpace(s[0]) && !IsWhiteSpace(s[|s| - 1]))
    ensures Trim(s) == s
  {
    assert TrimStart(s) == s;
  }

  /** White space around a string never changes what `Trim` returns. */
  lemma TrimIgnoresPadding(pre: string, s: string, post: string)
    requires AllWhiteSpace(pre) && AllWhiteSpace(post)
    ensures Trim(pre + s + post) == Trim(s)
  {
    assert pre + s + post == pre + (s + post);
    TrimStartPadding(pre, s + post);
    if AllWhiteSpace(s) {
      assert AllWhiteSpace(s + post);
      assert TrimStart(s + post) == [] && TrimStart(s) == [];
    } else {
      TrimStartKeepsTail(s, post);
      TrimEndPadding(TrimStart(s), post);
    }
  }

  /** Trimming a trimmed string changes nothing. */
  lemma TrimIdempotent(s: string)
    ensures Trim(Trim(s)) == Trim(s)
  {
  }

  /** A trimmed lower-case string is still lower-case: `Trim` only cuts characters off the ends. */
  lemma TrimKeepsLowerCase(t: string)
    requires ToLower(t) == t
    ensures ToLower(Trim(t)) == Trim(t)
  {
    var v := TrimStart(t);
    var u := TrimEnd(v);
    var k := |t| - |v|;
    forall i | 0 <= i < |u|
      ensures Lower(u[i]) == u[i]
    {
      assert u[i] == v[i] == t[k + i];
      assert Lower(t[k + i]) == ToLower(t)[k + i];
    }
  }

  lemma ToLowerAppend(a: string, b: string)
    ensures ToLower(a + b) == ToLower(a) + ToLower(b)
  {
    assert forall i :: 0 <= i < |a + b| ==> ToLower(a + b)[i] == (ToLower(a) + ToLower(b))[i];
  }

  /** Lower-casing changes no white-space character. */
  lemma ToLowerKeepsWhiteSpace(s: string)
    requires AllWhiteSpace(s)
    ensures ToLower(s) == s
  {
  }

  /** Lower-casing twice is lower-casing once. */
  lemma ToLowerIdempotent(s: string)
    ensures ToLower(ToLower(s)) == ToLower(s)
  {
  }
}

/** NUL-terminated strings in fixed-size buffers. */
module CStrings {

  const NUL: char := '\0'

  ghost predicate NulFree(s: string) {
    forall i | 0 <= i < |s| :: s[i] != NUL
  }

  /** The characters before the first NUL, or all of them. */
  function CStr(s: string): (r: string)
    ensures |r| <= |s| && r == s[..|r|]
    ensures NulFree(r) && (|r| < |s| ==> s[|r|] == NUL)
  {
    if s == [] || s[0] == NUL then [] else [s[0]] + CStr(s[1..])
  }

  /** The first `n` characters. */
  function Cut(s: string, n: nat): (r: string)
    ensures |r| == (if |s| < n then |s| else n) && r == s[..|r|]
  {
    if |s| <= n then s else s[..n]
  }

  /** The text that a C reader sees is determined by where its first NUL is. */
  lemma {:induction false} CStrIs(s: string, n: nat)
    requires n <= |s| && NulFree(s[..n]) && (n < |s| ==> s[n] == NUL)
    ensures CStr(s) == s[..n]
  {
    if n > 0 {
      assert s[1..][..n - 1] == s[..n][1..];
      CStrIs(s[1..], n - 1);
    }
  }

  lemma CStrOfNulFree(s: string)
    requires NulFree(s)
    ensures CStr(s) == s
  {
    CStrIs(s, |s|);
  }

  /** A text that was shortened, but not too much, is still there. */
  lemma CutKeeps(s: string, n: nat)
    requires |CStr(s)| <= n && CStr(s) != s
    ensures CStr(Cut(s, n)) == CStr(s)
  {
    CStrIs(Cut(s, n), |CStr(s)|);
  }

  /** The end of a text belongs to its C form. */
  lemma CStrWithEnd(s: string)
    ensures CStr(s + [NUL]) == CStr(s) && CStr(s + [NUL]) != s + [NUL]
  {
    var n := |CStr(s)|;
    assert (s + [NUL])[..n] == CStr(s);
    CStrIs(s + [NUL], n);
  }

  /** `safe_strlen`: the length of the text at the start of `s`, at most `max`. */
  method SafeStrlen(s: string, max: nat) returns (n: nat)
    requires max <= |s| || CStr(s) != s
    ensures n == |CStr(Cut(s, max))|
  {
    n := 0;
    while n < max && s[n] != NUL
      invariant n <= |s| && n <= max && NulFree(s[..n])
      invariant max <= |s| || n <= |CStr(s)|
    {
      n := n + 1;
    }
    assert Cut(s, max)[..n] == s[..n];
    CStrIs(Cut(s, max), n);
  }

  /** `strlen` and `s_strlen`: the text must have an end. */
  method Strlen(s: string) returns (n: nat)
    requires CStr(s) != s
    ensures n == |CStr(s)|
  {
    n := 0;
    while s[n] != NUL
      invariant n <= |CStr(s)|
      decreases |s| - n
    {
      n := n + 1;
    }
  }

  /** `s_streq`: whether two texts in buffers are equal. */
  method StrEq(a: string, b: string) returns (eq: bool)
    requires CStr(a) != a && CStr(b) != b
    ensures eq <==> CStr(a) == CStr(b)
  {
    var i := 0;
    while true
      invariant i <= |CStr(a)| && i <= |CStr(b)| && a[..i] == b[..i]
      decreases |a| - i
    {
      if a[i] != b[i] { return false; }
      if a[i] == NUL { return true; }
      i := i + 1;
    }
  }
}

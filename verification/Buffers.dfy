/** Fixed-size buffers of characters that are cleared and filled in place. */
module Buffers {
  import opened CStrings

  ghost function Zeros(n: nat): (r: string)
    ensures |r| == n && forall i | 0 <= i < n :: r[i] == NUL
  {
    seq(n, i => NUL)
  }

  /** Contents `b` with text `x` written at position `at`. */
  ghost function Overlay(b: string, at: nat, x: string): (r: string)
    requires at + |x| <= |b|
    ensures |r| == |b|
  {
    b[..at] + x + b[at + |x|..]
  }

  ghost function Region(b: string, at: nat, n: nat): (r: string)
    requires at + n <= |b|
    ensures |r| == n
  {
    b[at..at + n]
  }

  /** The text in the field of `n` characters at position `at`, up to its first NUL. */
  ghost function TextAt(b: string, at: nat, n: nat): (r: string)
    requires at + n <= |b|
    ensures |r| <= n && NulFree(r)
  {
    CStr(Region(b, at, n))
  }

  /** Writing and reading text, character by character. */
  lemma BufferIs(b: string, at: nat, x: string, i: nat)
    requires at + |x| <= |b| && i < |b|
    ensures Overlay(b, at, x)[i] == if at <= i < at + |x| then x[i - at] else b[i]
    ensures at <= i < at + |x| ==> Region(b, at, |x|)[i - at] == b[i]
  {
  }

  /** What is written is there, and what lies beside it stays. */
  lemma OverlayRegion(b: string, at: nat, x: string, at': nat, n': nat)
    requires at + |x| <= |b| && at' + n' <= |b|
    ensures Region(Overlay(b, at, x), at, |x|) == x
    ensures at' + n' <= at || at + |x| <= at' ==> Region(Overlay(b, at, x), at', n') == Region(b, at', n')
  {
    var r := Overlay(b, at, x);
    assert forall i | 0 <= i < |x| :: r[at + i] == x[i];
    assert forall i | 0 <= i < at :: r[i] == b[i];
    assert forall i | at + |x| <= i < |b| :: r[i] == b[i];
  }

  /** Contents `b` with a field of `n` characters cleared and then `x` written to it. */
  ghost function Refilled(b: string, at: nat, n: nat, x: string): (r: string)
    requires at + n <= |b| && |x| <= n
    ensures |r| == |b|
  {
    Overlay(Overlay(b, at, Zeros(n)), at, x)
  }

  /** Refilling a field stores the text, if it leaves room for a NUL, and no other field changes. */
  lemma RefilledRegion(b: string, at: nat, n: nat, x: string, at': nat, n': nat)
    requires at + n <= |b| && |x| < n && at' + n' <= |b|
    ensures TextAt(Refilled(b, at, n, x), at, n) == CStr(x) && |CStr(x)| < n
    ensures at' + n' <= at || at + n <= at' ==> Region(Refilled(b, at, n, x), at', n') == Region(b, at', n')
  {
    var r := Refilled(b, at, n, x);
    OverlayRegion(b, at, Zeros(n), at', n');
    OverlayRegion(Overlay(b, at, Zeros(n)), at, x, at', n');
    var l := |CStr(x)|;
    assert Region(r, at, n)[..l] == CStr(x);
    assert r[at + l] == if l < |x| then x[l] else Overlay(b, at, Zeros(n))[at + l];
    assert Overlay(b, at, Zeros(n))[at + l] == Zeros(n)[l];
    assert Region(r, at, n)[l] == NUL;
    CStrIs(Region(r, at, n), l);
  }

  /** After clearing a field it makes no difference whether the text comes with its NUL. */
  lemma RefilledWithEnd(b: string, at: nat, n: nat, x: string)
    requires at + n <= |b| && |x| < n
    ensures Overlay(Overlay(b, at, Zeros(n)), at, x + [NUL]) == Refilled(b, at, n, x)
  {
    assert forall i | 0 <= i < n :: Overlay(b, at, Zeros(n))[at + i] == Zeros(n)[i];
  }

  /** Writing a text into a field that is clear stores it. */
  lemma OverlayClear(b: string, at: nat, n: nat, x: string)
    requires at + n <= |b| && Region(b, at, n) == Zeros(n) && |x| < n && NulFree(x)
    ensures TextAt(Overlay(b, at, x), at, n) == x
  {
    assert Overlay(b, at, x) == Refilled(b, at, n, x) by {
      assert Overlay(b, at, Zeros(n)) == b by {
        assert forall i | 0 <= i < n :: b[at + i] == Region(b, at, n)[i];
      }
    }
    RefilledRegion(b, at, n, x, at, n);
    CStrOfNulFree(x);
  }

  lemma RegionOfZeros(b: string, at: nat, n: nat, at': nat, n': nat)
    requires at + n <= |b| && at <= at' && at' + n' <= at + n
    ensures Region(Overlay(b, at, Zeros(n)), at', n') == Zeros(n')
  {
    assert forall i | 0 <= i < n :: Overlay(b, at, Zeros(n))[at + i] == Zeros(n)[i];
  }

  /** What a C reader finds at a position is the text of the field there, if that has an end. */
  lemma Reads(b: string, at: nat, n: nat)
    requires at + n <= |b| && |TextAt(b, at, n)| < n
    ensures CStr(b[at..]) == TextAt(b, at, n) && CStr(b[at..]) != b[at..]
    ensures CStr(Cut(b[at..], n - 1)) == TextAt(b, at, n)
    ensures b[at..at + |TextAt(b, at, n)|] == TextAt(b, at, n)
  {
    var t := TextAt(b, at, n);
    assert b[at..][..|t|] == t == Region(b, at, n)[..|t|] == Cut(b[at..], n - 1)[..|t|];
    assert b[at..][|t|] == Region(b, at, n)[|t|] == NUL;
    CStrIs(b[at..], |t|);
    CStrIs(Cut(b[at..], n - 1), |t|);
  }

  /** `TEE_MemFill` and `memset`, with zeros. */
  method MemFill(b: array<char>, at: nat, n: nat)
    requires at + n <= b.Length
    modifies b
    ensures b[..] == Overlay(old(b[..]), at, Zeros(n))
  {
    forall i | at <= i < at + n { b[i] := NUL; }
    assert b[..] == Overlay(old(b[..]), at, Zeros(n));
  }

  /** `TEE_MemMove` and `memcpy`. */
  method MemMove(b: array<char>, at: nat, x: string)
    requires at + |x| <= b.Length
    modifies b
    ensures b[..] == Overlay(old(b[..]), at, x)
  {
    forall i | at <= i < at + |x| { b[i] := x[i - at]; }
    assert b[..] == Overlay(old(b[..]), at, x);
  }
}

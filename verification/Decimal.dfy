/** Decimal numbers in text, on a machine whose words wrap. */
module Decimal {
  import opened Arithmetic
  import opened CStrings
  import opened Buffers

  /** One more than the largest `unsigned long`.  Any word has at most 32 decimal digits. */
  type WordSize = w: nat | 0 < w <= 100_000_000_000_000_000_000_000_000_000_000 witness 1

  const SCRATCH: nat := 32

  predicate IsDigit(c: char) {
    '0' <= c <= '9'
  }

  function DigitValue(c: char): (d: nat)
    requires IsDigit(c)
    ensures d < 10
  {
    c as int - '0' as int
  }

  function DigitChar(d: nat): (c: char)
    requires d < 10
    ensures IsDigit(c) && DigitValue(c) == d && (c == '0' <==> d == 0)
  {
    ('0' as int + d) as char
  }

  /** Which characters are digits, and which digit stands for which number. */
  lemma TenDigits(c: char)
    ensures IsDigit(c) <==> c in "0123456789"
    ensures IsDigit(c) ==> "0123456789"[DigitValue(c)] == c
    ensures forall d: nat | d < 10 :: DigitChar(d) == "0123456789"[d]
  {
  }

  /** The decimal digits that `s` starts with. */
  ghost function LeadingDigits(s: string): (r: string)
    ensures |r| <= |s| && r == s[..|r|]
    ensures forall i | 0 <= i < |r| :: IsDigit(r[i])
    ensures |r| < |s| ==> !IsDigit(s[|r|])
  {
    if s == [] || !IsDigit(s[0]) then [] else [s[0]] + LeadingDigits(s[1..])
  }

  /** The number that a string of digits denotes. */
  ghost function Number(ds: string): (r: nat)
    requires forall i | 0 <= i < |ds| :: IsDigit(ds[i])
  {
    if ds == [] then 0 else Number(ds[..|ds| - 1]) * 10 + DigitValue(ds[|ds| - 1])
  }

  /** What parsing text `s` gives: the number it starts with, wrapped. */
  ghost function Parsed(s: string, word: WordSize): (r: nat) {
    Number(LeadingDigits(s)) % word
  }

  /** Printing a number: its digits, without leading zeros. */
  ghost function Printed(v: nat): (r: string)
    ensures r != [] && forall i | 0 <= i < |r| :: IsDigit(r[i])
    ensures v > 0 ==> r[0] != '0'
  {
    if v < 10 then [DigitChar(v)] else Printed(v / 10) + [DigitChar(v % 10)]
  }

  lemma {:induction false} NumberOfPrinted(v: nat)
    ensures Number(Printed(v)) == v
  {
    if v >= 10 {
      NumberOfPrinted(v / 10);
      assert Printed(v)[..|Printed(v)| - 1] == Printed(v / 10);
    }
  }

  /** Joining digits: `b` behind `a` shifts `a` by the length of `b`. */
  lemma {:induction false} NumberOfJoined(a: string, b: string)
    requires (forall i | 0 <= i < |a| :: IsDigit(a[i])) && forall i | 0 <= i < |b| :: IsDigit(b[i])
    ensures Number(a + b) == Number(a) * Pow10(|b|) + Number(b)
    ensures Number("") == 0 && Pow10(0) == 1 && (b != "" ==> Pow10(|b|) == 10 * Pow10(|b| - 1))
    ensures |b| == 1 ==> "0123456789"[Number(b)] == b[0]
  {
    if b == "" {
      assert a + b == a;
    } else {
      var front, last := b[..|b| - 1], b[|b| - 1];
      assert (a + b)[..|a + b| - 1] == a + front;
      NumberOfJoined(a, front);
      TenDigits(last);
      Distribute(Number(a), Pow10(|front|), Number(front));
    }
  }

  lemma Distribute(x: nat, p: nat, y: nat)
    ensures (x * p + y) * 10 == x * (10 * p) + y * 10
  {
  }

  /** Zeros in front of digits do not change the number. */
  lemma {:induction false} LeadingZeros(zeros: string, ds: string)
    requires (forall i | 0 <= i < |zeros| :: zeros[i] == '0') && forall i | 0 <= i < |ds| :: IsDigit(ds[i])
    ensures Number(zeros + ds) == Number(ds)
  {
    if zeros == "" {
      assert zeros + ds == ds;
    } else {
      assert zeros + ds == ['0'] + (zeros[1..] + ds);
      NumberOfJoined(['0'], zeros[1..] + ds);
      LeadingZeros(zeros[1..], ds);
    }
  }

  /** Digits without leading zeros are what their number is printed as. */
  lemma {:induction false} PrintedNumber(ds: string)
    requires ds != [] && (forall i | 0 <= i < |ds| :: IsDigit(ds[i])) && (|ds| > 1 ==> ds[0] != '0')
    ensures Printed(Number(ds)) == ds && (|ds| > 1 ==> Number(ds) >= 10)
  {
    var front := ds[..|ds| - 1];
    assert ds == front + [ds[|ds| - 1]];
    if |ds| > 1 { PrintedNumber(front); }
  }

  lemma {:induction false} LeadingDigitsIs(s: string, n: nat)
    requires n <= |s| && (forall i | 0 <= i < n :: IsDigit(s[i])) && (n < |s| ==> !IsDigit(s[n]))
    ensures LeadingDigits(s) == s[..n]
  {
    if n > 0 {
      LeadingDigitsIs(s[1..], n - 1);
    }
  }

  /** Printing then parsing gives the number back, whatever follows the digits. */
  lemma RoundTrip(v: nat, word: WordSize, after: string)
    requires v < word && (after != [] ==> !IsDigit(after[0]))
    ensures Parsed(Printed(v) + after, word) == v
  {
    var s := Printed(v) + after;
    LeadingDigitsIs(s, |Printed(v)|);
    assert s[..|Printed(v)|] == Printed(v);
    NumberOfPrinted(v);
    Small(v, word);
  }

  /** Wrapping early or late makes no difference. */
  lemma WrapStep(x: nat, d: nat, m: nat)
    requires m > 0
    ensures (x % m * 10 + d) % m == (x * 10 + d) % m
  {
    var q := x / m;
    assert x == m * q + x % m;
    assert x * 10 + d == (x % m * 10 + d) + m * (q * 10);
    WrapAround(x % m * 10 + d, q * 10, m);
  }

  ghost function Pow10(k: nat): (r: nat) {
    if k == 0 then 1 else 10 * Pow10(k - 1)
  }

  lemma Pow10Step(k: nat)
    ensures Pow10(k + 8) == 100_000_000 * Pow10(k) && Pow10(0) == 1
  {
    assert Pow10(k + 2) == 100 * Pow10(k);
    assert Pow10(k + 4) == 100 * Pow10(k + 2);
    assert Pow10(k + 6) == 100 * Pow10(k + 4);
  }

  lemma {:induction false} DigitCount(v: nat, k: nat)
    requires v < Pow10(k) && k > 0
    ensures |Printed(v)| <= k
  {
    if v >= 10 { DigitCount(v / 10, k - 1); }
  }

  /** A word fits in the scratch buffer. */
  lemma WordFits(v: nat, word: WordSize)
    requires v < word
    ensures |Printed(v)| <= SCRATCH
  {
    hide Pow10, Printed;
    Pow10Step(0);
    Pow10Step(8);
    Pow10Step(16);
    Pow10Step(24);
    DigitCount(v, SCRATCH);
  }

  /** `s_atoul` */
  method Atoul(s: string, word: WordSize) returns (v: nat)
    requires CStr(s) != s
    ensures v == Parsed(CStr(s), word)
  {
    v := 0;
    var i := 0;
    while IsDigit(s[i])
      invariant i <= |CStr(s)| && forall j | 0 <= j < i :: IsDigit(s[j])
      invariant v == Number(s[..i]) % word
      decreases |s| - i
    {
      assert s[..i + 1][..i] == s[..i];
      WrapStep(Number(s[..i]), DigitValue(s[i]), word);
      v := (v * 10 + DigitValue(s[i])) % word;
      i := i + 1;
    }
    assert CStr(s)[..i] == s[..i];
    LeadingDigitsIs(CStr(s), i);
  }

  lemma PrintedZero()
    ensures Printed(0) == ['0']
  {
  }

  /** The digits that `s_ultoa` puts into its scratch buffer, last one first. */
  ghost function Reversed(s: string): (r: string)
    ensures |r| == |s| && forall i | 0 <= i < |s| :: r[i] == s[|s| - 1 - i]
  {
    if s == [] then [] else [s[|s| - 1]] + Reversed(s[..|s| - 1])
  }

  /** `s_ultoa`: prints `v` into the `outLen` characters of `b` at `at`, as much as fits. */
  method Ultoa(v: nat, b: array<char>, at: nat, outLen: int, word: WordSize)
    requires v < word && at + outLen <= b.Length
    modifies b
    ensures outLen > 1 ==> b[..] == Overlay(old(b[..]), at, Cut(Printed(v), outLen - 1) + [NUL])
    ensures outLen == 1 ==> b[..] == Overlay(old(b[..]), at, [if v == 0 then '0' else NUL])
    ensures outLen <= 0 ==> b[..] == old(b[..])
  {
    hide Printed, Reversed, Overlay, Cut;
    if outLen <= 0 { return; }
    if v == 0 {
      PrintZero(b, at, outLen);
      return;
    }
    var buf := new char[SCRATCH];
    var i: nat := Scratch(v, buf, word);
    CopyReversed(buf, i, b, at, outLen, Printed(v));
    if outLen == 1 { CutToNothing(Printed(v)); }
  }

  /** Prints zero, which is not a word that the digit loop could print. */
  method PrintZero(b: array<char>, at: nat, outLen: nat)
    requires outLen > 0 && at + outLen <= b.Length
    modifies b
    ensures outLen > 1 ==> b[..] == Overlay(old(b[..]), at, Cut(Printed(0), outLen - 1) + [NUL])
    ensures outLen == 1 ==> b[..] == Overlay(old(b[..]), at, ['0'])
  {
    hide Printed;
    PrintedZero();
    b[at] := '0';
    if outLen > 1 { b[at + 1] := NUL; }
  }

  lemma CutToNothing(p: string)
    ensures Cut(p, 0) + [NUL] == [NUL]
  {
  }

  /** Copies the digits in `buf`, which are in reverse, to `b`, as much as fits with a NUL. */
  method CopyReversed(buf: array<char>, digits: nat, b: array<char>, at: nat, outLen: nat, ghost p: string)
    requires digits == |p| <= buf.Length && buf[..digits] == Reversed(p) && buf != b
    requires outLen > 0 && at + outLen <= b.Length
    modifies b
    ensures b[..] == Overlay(old(b[..]), at, Cut(p, outLen - 1) + [NUL])
  {
    hide Reversed;
    var i: nat := digits;
    var k: nat := 0;
    assert forall j | 0 <= j < |p| :: buf[j] == buf[..digits][j];
    while i > 0 && k < outLen - 1
      invariant i + k == |p| && k <= outLen - 1
      invariant forall j | 0 <= j < |p| :: buf[j] == p[|p| - 1 - j]
      invariant forall j | 0 <= j < b.Length :: b[j] == if at <= j < at + k then p[j - at] else old(b[j])
    {
      i := i - 1;
      b[at + k] := buf[i];
      k := k + 1;
    }
    b[at + k] := NUL;
    assert Cut(p, outLen - 1) == p[..k];
  }

  /** The digit loop of `s_ultoa`; the scratch buffer is never too short. */
  method Scratch(v0: nat, buf: array<char>, word: WordSize) returns (i: nat)
    requires 0 < v0 < word && buf.Length == 32
    modifies buf
    ensures i == |Printed(v0)| <= 32 && buf[..i] == Reversed(Printed(v0))
  {
    hide Printed;
    var v: nat := v0;
    i := 0;
    WordFits(v0, word);
    ghost var p := Printed(v0);
    while v > 0 && i < SCRATCH
      invariant i <= |p| <= SCRATCH && (v > 0 ==> Printed(v) == p[..|p| - i]) && (v == 0 ==> i == |p|)
      invariant buf[..i] == Reversed(p)[..i]
      decreases v
    {
      LastDigit(v, p[..|p| - i]);
      buf[i] := DigitChar(v % 10);
      i := i + 1;
      v := v / 10;
    }
    assert v > 0 ==> |Printed(v)| == |p| - i;
  }

  lemma LastDigit(v: nat, p: string)
    requires Printed(v) == p
    ensures p[|p| - 1] == DigitChar(v % 10)
    ensures v >= 10 ==> Printed(v / 10) == p[..|p| - 1]
    ensures v < 10 ==> |p| == 1
  {
  }
}

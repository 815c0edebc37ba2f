/** The arithmetic that decides when, and to what size, the table is resized. */
module LoadFactor {
  import opened Arithmetic

  const MIN_TABLE_SIZE: nat := 8
  const MAX_TABLE_SIZE: nat := 0x1000_0000_0000_0000

  /** Values of `size_t` wrap at this bound. */
  const SIZE_RANGE: nat := 0x1_0000_0000_0000_0000

  ghost predicate IsPowerOfTwo(n: nat) {
    n == 1 || (n > 1 && n % 2 == 0 && IsPowerOfTwo(n / 2))
  }

  ghost predicate IsTableSize(n: nat) {
    MIN_TABLE_SIZE <= n && IsPowerOfTwo(n)
  }

  lemma TableSizeIsEven(n: nat)
    requires IsTableSize(n)
    ensures n % 2 == 0 && forall b: nat | b < n && b % 2 == 0 :: b + 1 < n
  {
  }

  ghost function Remainder(x: nat, n: nat): (r: nat)
    requires n > 0
  {
    x % n
  }

  /** Masking with one less than a power of two is the remainder by it. */
  lemma {:induction false} MaskIsRemainder(x: nat, n: nat)
    requires IsPowerOfTwo(n)
    ensures BitAnd(x, n - 1) == Remainder(x, n)
  {
    hide Remainder;
    if n == 1 || x == 0 {
      SmallRemainder(x, n);
    } else {
      var m := n / 2;
      MaskIsRemainder(x / 2, m);
      assert (n - 1) / 2 == m - 1 && (n - 1) % 2 == 1;
      RemainderOfDouble(x, m);
    }
  }

  lemma SmallRemainder(x: nat, n: nat)
    requires n > 0 && (n == 1 || x == 0)
    ensures Remainder(x, n) == 0
  {
  }

  lemma RemainderOfDouble(x: nat, m: nat)
    requires m > 0
    ensures Remainder(x, 2 * m) == 2 * Remainder(x / 2, m) + x % 2
  {
    var h := x / 2;
    var q, r := h / m, h % m;
    assert h == m * q + r;
    assert (2 * m) * q == 2 * (m * q);
    RemainderIs(x, 2 * m, q, 2 * r + x % 2);
  }

  /** `x << k` */
  function Shl(x: nat, k: nat): (r: nat) {
    if k == 0 then x else 2 * Shl(x, k - 1)
  }

  /** `x >> k` */
  function Shr(x: nat, k: nat): (r: nat) {
    if k == 0 then x else Shr(x / 2, k - 1)
  }

  /** From this many elements on, a table of `n` buckets is too full. */
  function HiCutoff(n: nat): (r: nat) {
    n * 12 / 16
  }

  /** Up to this many elements, a table of `n` buckets is too empty. */
  function LoCutoff(n: nat): (r: nat) {
    HiCutoff(n) / 4
  }

  /** The load every table keeps that is still allowed to grow. */
  ghost predicate LoadIsBounded(elements: nat, buckets: nat) {
    buckets <= MAX_TABLE_SIZE && (buckets < MAX_TABLE_SIZE ==> 5 * elements < 6 * buckets)
  }

  lemma {:induction false} ShrIsTableSize(n: nat, k: nat)
    requires IsPowerOfTwo(n)
    ensures Shr(n, k) == 0 || IsPowerOfTwo(Shr(n, k))
    ensures Shr(n, k) <= n && (k > 0 ==> Shr(n, k) < n)
    ensures k > 0 ==> Shr(n, k) == Shr(n, k - 1) / 2
  {
    if k > 0 && n > 1 {
      ShrIsTableSize(n / 2, k - 1);
    } else if k > 0 {
      ShrZero(k - 1);
      if k > 1 { ShrZero(k - 2); }
    }
  }

  lemma {:induction false} ShrZero(k: nat)
    ensures Shr(0, k) == 0
  {
    if k > 0 { ShrZero(k - 1); }
  }

  /** What does not fill three quarters of a power of two when shifted left, does not fill
      three quarters of that power shifted right. */
  lemma {:induction false} ShiftAcross(x: nat, n: nat, k: nat)
    requires IsPowerOfTwo(n) && x > 0 && 4 * Shl(x, k) < 3 * n
    ensures 4 * x < 3 * Shr(n, k)
  {
    if k > 0 {
      ShlGrows(x, k);
      ShiftAcross(x, n / 2, k - 1);
    }
  }

  lemma {:induction false} ShlGrows(x: nat, k: nat)
    ensures Shl(x, k) >= x
  {
    if k > 0 { ShlGrows(x, k - 1); }
  }

  /** In a table of `m` buckets, to which one of `n` is shrunk, `newSize` elements and a quarter more fill
      at least three quarters, unless it is the smallest; in the next larger one they would not. */
  ghost predicate IsShrunkFor(n: nat, newSize: nat, m: nat) {
    && (m == 8 || 3 * m <= 4 * (newSize * 5 / 4 + 1))
    && (2 * m < n ==> 4 * (newSize * 5 / 4 + 1) < 6 * m)
  }

  /** The size that a table of `n` buckets has to have for `newSize` elements: doubled if they fill three
      quarters, shrunk if they fill less than a quarter of that, and otherwise the same. */
  ghost predicate IsSizedFor(n: nat, newSize: nat, m: nat) {
    if 4 * newSize >= 3 * n then m == if 2 * n <= 0x1000_0000_0000_0000 then 2 * n else n
    else if 16 * newSize <= 3 * n && n > 8 then IsTableSize(m) && 2 * m <= n && IsShrunkFor(n, newSize, m)
    else m == n
  }

  /** There is only one such size. */
  lemma SizeIsUnique(n: nat, newSize: nat, m: nat, m': nat)
    requires IsTableSize(n) && IsSizedFor(n, newSize, m) && IsSizedFor(n, newSize, m')
    ensures m == m'
  {
    hide IsPowerOfTwo;
    if m < m' { HalfOrLess(m, m'); }
    if m' < m { HalfOrLess(m', m); }
  }

  /** The cutoffs are three quarters of the buckets, and a quarter of that. */
  lemma CutoffsAre(n: nat)
    requires IsTableSize(n)
    ensures 4 * HiCutoff(n) == 3 * n && (n > 8 ==> 16 * LoCutoff(n) == 3 * n)
  {
    HiCutoffIsExact(n);
    if n > 8 {
      Halved(n);
      Halved(n / 2);
      Halved(n / 2 / 2);
      Halved(n / 2 / 2 / 2);
      LoCutoffOfSixteen(n / 2 / 2 / 2 / 2);
    }
  }

  lemma LoCutoffOfSixteen(q: nat)
    ensures LoCutoff(16 * q) == 3 * q
  {
    HiCutoffOfFour(4 * q);
  }

  /** The size to shrink a table of `n` buckets to, so that it can take `newSize` elements. */
  method ShrunkSize(n: nat, newSize: nat) returns (m: nat)
    requires IsTableSize(n) && MIN_TABLE_SIZE < n <= MAX_TABLE_SIZE
    requires newSize <= LoCutoff(n)
    ensures IsTableSize(m) && 2 * m <= n
    ensures IsShrunkFor(n, newSize, m)
    ensures 5 * newSize < 6 * m
    ensures 4 * newSize < 3 * m <==> LeavesRoom(newSize)
  {
    hide LeavesRoom, IsTableSize;
    var hiCutoff := HiCutoff(n);
    var lg := 1;
    var hypothetical := Hypothetical(newSize);
    while Shl(hypothetical, lg) < hiCutoff
      invariant lg >= 1 && Shl(hypothetical, lg) < 2 * hiCutoff < SIZE_RANGE
      invariant lg > 1 ==> Shl(hypothetical, lg - 1) < hiCutoff
      decreases hiCutoff - Shl(hypothetical, lg)
    {
      ShlGrows(hypothetical, lg);
      lg := lg + 1;
    }
    m := if MIN_TABLE_SIZE < Shr(n, lg) then Shr(n, lg) else MIN_TABLE_SIZE;
    ChosenSize(n, newSize, lg, m);
    RoomAfterShrinking(n, newSize, m);
  }

  lemma HiCutoffIsExact(n: nat)
    requires IsTableSize(n)
    ensures 4 * HiCutoff(n) == 3 * n
  {
    Halved(n);
    Halved(n / 2);
    HiCutoffOfFour(n / 2 / 2);
  }

  lemma HiCutoffOfFour(q: nat)
    ensures HiCutoff(4 * q) == 3 * q
  {
    assert (4 * q) * 12 == 48 * q;
  }

  lemma Halved(n: nat)
    requires IsPowerOfTwo(n) && n > 1
    ensures n == 2 * (n / 2) && IsPowerOfTwo(n / 2)
  {
  }

  /** What the number of halvings that was chosen says of the size. */
  lemma ChosenSize(n: nat, newSize: nat, lg: nat, m: nat)
    requires IsTableSize(n) && MIN_TABLE_SIZE < n && lg > 0
    requires HiCutoff(n) <= Shl(Hypothetical(newSize), lg)
    requires lg > 1 ==> Shl(Hypothetical(newSize), lg - 1) < HiCutoff(n)
    requires m == if MIN_TABLE_SIZE < Shr(n, lg) then Shr(n, lg) else MIN_TABLE_SIZE
    ensures IsTableSize(m) && 2 * m <= n
    ensures newSize >= 6 ==> 3 * m <= 4 * Hypothetical(newSize)
    ensures IsShrunkFor(n, newSize, m)
  {
    var h := Hypothetical(newSize);
    assert IsPowerOfTwo(8);
    HalfOrLess(8, n);
    HiCutoffIsExact(n);
    ShrIsTableSize(n, lg);
    ShrIsTableSize(n, lg - 1);
    ShiftBack(h, n, lg);
    if lg > 1 {
      ShiftAcross(h, n, lg - 1);
    }
  }

  /** The estimate that the table is shrunk for. */
  function Hypothetical(newSize: nat): (r: nat) {
    newSize * 5 / 4 + 1
  }

  /** Some table size fits `newSize` elements below three quarters, but not the estimate. */
  ghost predicate LeavesRoom(newSize: nat) {
    newSize < 6 || exists q: nat :: IsTableSize(q) && 4 * newSize < 3 * q && 3 * q <= 4 * Hypothetical(newSize)
  }

  lemma {:induction false} ShiftBack(x: nat, n: nat, k: nat)
    requires IsPowerOfTwo(n) && 3 * n <= 4 * Shl(x, k)
    ensures 3 * Shr(n, k) <= 4 * x
  {
    if n > 1 && k > 0 {
      ShiftBack(x, n / 2, k - 1);
    } else if k > 0 {
      ShrZero(k - 1);
    }
  }

  /** When the load after shrinking is below three quarters: the number of elements decides it. */
  lemma RoomAfterShrinking(n: nat, newSize: nat, m: nat)
    requires IsTableSize(n) && newSize <= LoCutoff(n) && IsTableSize(m) && 2 * m <= n
    requires newSize >= 6 ==> 3 * m <= 4 * Hypothetical(newSize)
    requires newSize >= 6 && 2 * m < n ==> 4 * Hypothetical(newSize) < 6 * m
    ensures 4 * newSize < 3 * m <==> LeavesRoom(newSize)
  {
    if newSize >= 6 && LeavesRoom(newSize) {
      var q: nat :| IsTableSize(q) && 4 * newSize < 3 * q && 3 * q <= 4 * Hypothetical(newSize);
      if m < q { HalfOrLess(m, q); }
    }
  }

  /** Powers of two are at least a factor of two apart. */
  lemma HalfOrLess(n: nat, m: nat)
    requires IsPowerOfTwo(n) && IsPowerOfTwo(m) && n < m
    ensures 2 * n <= m
  {
    if m < 2 * n { PowerOfTwoBetween(n, m); }
  }

  /** Shrinking does not always leave the load below three quarters. */
  lemma ShrinkingCanFill()
    ensures IsTableSize(1024) && 192 <= LoCutoff(1024) && !LeavesRoom(192)
  {
    hide IsPowerOfTwo;
    PowersUpTo1024();
    assert Hypothetical(192) == 241;
    if q: nat :| IsTableSize(q) && 4 * 192 < 3 * q && 3 * q <= 4 * 241 {
      HalfOrLess(256, q);
    }
  }

  lemma PowersUpTo1024()
    ensures IsPowerOfTwo(256) && IsPowerOfTwo(1024)
  {
    assert IsPowerOfTwo(2) && IsPowerOfTwo(8) && IsPowerOfTwo(32) && IsPowerOfTwo(128);
  }

  /** A table that cannot be doubled has the maximal size. */
  lemma TableSizeAtMost(n: nat)
    requires IsPowerOfTwo(n) && MAX_TABLE_SIZE / 2 < n <= MAX_TABLE_SIZE
    ensures n == MAX_TABLE_SIZE
  {
    hide Shl, IsPowerOfTwo;
    ShlOne(60);
    ShlTen(0);
    ShlTen(10);
    ShlTen(20);
    ShlTen(30);
    ShlTen(40);
    ShlTen(50);
    PowerOfTwoBetween(n, MAX_TABLE_SIZE);
  }

  lemma ShlTen(k: nat)
    ensures Shl(1, k + 10) == 1024 * Shl(1, k) && Shl(1, 0) == 1
  {
    assert Shl(1, k + 2) == 4 * Shl(1, k);
    assert Shl(1, k + 4) == 4 * Shl(1, k + 2);
    assert Shl(1, k + 6) == 4 * Shl(1, k + 4);
    assert Shl(1, k + 8) == 4 * Shl(1, k + 6);
  }

  lemma {:induction false} ShlOne(k: nat)
    ensures IsPowerOfTwo(Shl(1, k))
  {
    if k > 0 {
      ShlOne(k - 1);
      ShlGrows(1, k - 1);
    }
  }

  lemma {:induction false} PowerOfTwoBetween(n: nat, m: nat)
    requires IsPowerOfTwo(n) && IsPowerOfTwo(m) && m < 2 * n && n <= m
    ensures n == m
  {
    if n > 1 { PowerOfTwoBetween(n / 2, m / 2); }
  }

  lemma LoadAfterErase(elements: nat, buckets: nat)
    requires LoadIsBounded(elements, buckets) && elements > 0
    ensures LoadIsBounded(elements - 1, buckets)
  {
  }
}

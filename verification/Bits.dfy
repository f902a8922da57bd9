/** The machine arithmetic of the hash table: masking by a capacity, the wrapping sum that
    selects a bucket, and the single-precision load test. */
module Bits {
  import opened Prelude

  predicate IsPow2(n: nat) {
    n == 1 || (n > 1 && n % 2 == 0 && IsPow2(n / 2))
  }

  function Pow2(k: nat): (p: nat)
    ensures 0 < p
  {
    if k == 0 then 1 else 2 * Pow2(k - 1)
  }

  /** Bitwise conjunction of two unsigned words. */
  function BitAnd(a: nat, b: nat): (r: nat)
    ensures r <= a && r <= b
  {
    if a == 0 || b == 0 then 0
    else 2 * BitAnd(a / 2, b / 2) + (if a % 2 == 1 && b % 2 == 1 then 1 else 0)
  }

  lemma MulMonotone(n: nat, a: int, b: int)
    requires a <= b
    ensures n * a <= n * b
  {
  }

  lemma QuotientUnique(x: nat, n: nat, q: nat, r: nat)
    requires r < n && x == n * q + r
    ensures x / n == q && x % n == r
  {
    if q < x / n {
      MulMonotone(n, q + 1, x / n);
    } else if x / n < q {
      MulMonotone(n, x / n + 1, q);
    }
  }

  lemma Distribute(n: nat, a: nat, b: nat)
    ensures n * a + n * b == n * (a + b)
  {
  }

  lemma Regroup(a: nat, b: nat, c: nat)
    ensures (a * b) * c == a * (b * c) == (a * c) * b
  {
  }

  lemma HalvedRemainder(x: nat, m: nat)
    requires 0 < m
    ensures x % (2 * m) == 2 * ((x / 2) % m) + x % 2
  {
    var h, bit := x / 2, x % 2;
    var t, s := h / m, h % m;
    Regroup(2, m, t);
    QuotientUnique(x, 2 * m, t, 2 * s + bit);
  }

  lemma BitAndStep(x: nat, m: nat)
    requires 0 < m
    ensures BitAnd(x, 2 * m - 1) == 2 * BitAnd(x / 2, m - 1) + x % 2
  {
    assert (2 * m - 1) / 2 == m - 1 && (2 * m - 1) % 2 == 1;
  }

  /** Masking with `n - 1` is reduction modulo a power of two `n`. */
  lemma {:induction false} MaskIsRemainder(x: nat, n: nat)
    requires IsPow2(n)
    ensures BitAnd(x, n - 1) == x % n
    decreases n
  {
    hide BitAnd;
    if n == 1 {
      NoBits(x);
    } else {
      var m := n / 2;
      MaskIsRemainder(x / 2, m);
      BitAndStep(x, m);
      HalvedRemainder(x, m);
    }
  }

  lemma NoBits(x: nat)
    ensures BitAnd(x, 0) == 0
  {
  }

  lemma Pow2Doubles(n: nat)
    requires IsPow2(n)
    ensures IsPow2(2 * n)
  {
    assert (2 * n) % 2 == 0 && (2 * n) / 2 == n;
  }

  lemma {:induction false} Pow2Divides(n: nat, w: nat) returns (c: nat)
    requires IsPow2(n) && IsPow2(w) && n <= w
    ensures w == n * c
    decreases n
  {
    if n == 1 {
      c := w;
    } else {
      c := Pow2Divides(n / 2, w / 2);
    }
  }

  /** A release build adds modulo 2^64. Every capacity divides 2^64, so the slot is the same. */
  lemma WrappingKeepsRemainder(x: nat, n: nat)
    requires IsPow2(n) && n <= WORD
    ensures (x % WORD) % n == x % n
  {
    WordIsPow2();
    var c := Pow2Divides(n, WORD);
    RemainderOfRemainder(x, n, c);
  }

  lemma RemainderOfRemainder(x: nat, n: nat, c: nat)
    requires 0 < n && 0 < n * c
    ensures (x % (n * c)) % n == x % n
  {
    var q, y := x / (n * c), x % (n * c);
    var u, r := y / n, y % n;
    Regroup(n, c, q);
    Distribute(n, c * q, u);
    QuotientUnique(x, n, c * q + u, r);
  }

  lemma {:induction false} Pow2IsPow2(k: nat)
    ensures IsPow2(Pow2(k))
  {
    if k > 0 {
      Pow2IsPow2(k - 1);
    }
  }

  lemma WordIsPow2()
    ensures IsPow2(WORD)
  {
    assert IsPow2(2) && IsPow2(4) && IsPow2(16);
    Pow2Product(16, 16);
    Pow2Product(0x100, 0x100);
    Pow2Product(0x1_0000, 0x1_0000);
    Pow2Product(0x1_0000_0000, 0x1_0000_0000);
  }

  lemma {:induction false} Pow2Product(a: nat, b: nat)
    requires IsPow2(a) && IsPow2(b)
    ensures IsPow2(a * b)
    decreases a
  {
    if a > 1 {
      Pow2Product(a / 2, b);
      assert a * b == 2 * ((a / 2) * b);
    }
  }

  lemma {:induction false} Pow2Sum(a: nat, b: nat)
    ensures Pow2(a + b) == Pow2(a) * Pow2(b)
  {
    if a > 0 {
      Pow2Sum(a - 1, b);
    }
  }

  // ---------------------------------------------------------------------------------------
  // The load test: `len as f32 / capacity as f32 >= 0.75`
  // ---------------------------------------------------------------------------------------

  function BitLength(n: nat): nat {
    if n == 0 then 0 else 1 + BitLength(n / 2)
  }

  lemma {:induction false} BitLengthLow(n: nat)
    requires 0 < n || 0 < BitLength(n)
    ensures 0 < BitLength(n) && Pow2(BitLength(n) - 1) <= n < Pow2(BitLength(n))
  {
    if n > 1 {
      BitLengthLow(n / 2);
    }
  }

  lemma {:induction false} Pow2Monotone(a: nat, b: nat)
    requires a <= b
    ensures Pow2(a) <= Pow2(b)
    decreases b
  {
    if a < b {
      Pow2Monotone(a, b - 1);
    }
  }

  /** Conversion of an integer to single precision: 24 significant bits, ties to even. */
  function RoundToF32(n: nat): nat {
    if BitLength(n) <= 24 then n
    else
      var unit := Pow2(BitLength(n) - 24);
      var q, r := n / unit, n % unit;
      if 2 * r > unit || (2 * r == unit && q % 2 == 1) then unit * (q + 1) else unit * q
  }

  /** A capacity is a power of two, so dividing by it is exact and only the length is rounded. */
  predicate ShouldResize(len: nat, capacity: nat) {
    4 * RoundToF32(len) >= 3 * capacity
  }

  /** The share of the capacity by which rounding brings the growth of a table forward. */
  function Early(capacity: nat): nat {
    capacity / 0x80_0000
  }

  /** The load test, exactly: the table grows at three quarters of its capacity, less a share of
      2^-23 that matters from a capacity of 2^25 on. */
  lemma LoadTest(len: nat, capacity: nat)
    requires IsPow2(capacity) && 4 <= capacity
    ensures ShouldResize(len, capacity) <==> 4 * len >= 3 * capacity - Early(capacity)
  {
    hide RoundToF32, BitLength;
    var k := BitLength(len);
    if k <= 24 {
      RoundShort(len);
      ShortLoad(len, capacity);
    } else {
      BitLengthLow(len);
      Pow2IsPow2(k - 1);
      Pow2IsPow2(k);
      RoundBounds(len);
      if capacity < Pow2(k) {
        Pow2Gap(capacity, Pow2(k));
      } else if Pow2(k) < capacity {
        Pow2Gap(Pow2(k), capacity);
      } else {
        LoadAtUnit(len, capacity);
      }
    }
  }

  /** The smallest table that grows early. */
  lemma FirstEarlyGrowth()
    ensures ShouldResize(25165823, 0x200_0000) && 4 * 25165823 < 3 * 0x200_0000
  {
    assert IsPow2(2) && IsPow2(0x200);
    Pow2Product(0x100, 0x100);
    Pow2Product(0x200, 0x1_0000);
    LoadTest(25165823, 0x200_0000);
  }

  /** The table grows at exactly three quarters, at every length, if and only if its capacity is
      below 2^25. */
  lemma ThreeQuarters(capacity: nat)
    requires IsPow2(capacity) && 4 <= capacity
    ensures (forall len: nat :: ShouldResize(len, capacity) <==> 4 * len >= 3 * capacity) <==> capacity < 0x200_0000
  {
    hide ShouldResize;
    var quarter := FourDivides(capacity);
    forall len: nat | capacity < 0x200_0000
      ensures ShouldResize(len, capacity) <==> 4 * len >= 3 * capacity
    {
      LoadTest(len, capacity);
    }
    if 0x200_0000 <= capacity {
      var len := 3 * quarter - 1;
      LoadTest(len, capacity);
      assert ShouldResize(len, capacity) && 4 * len < 3 * capacity;
    }
  }

  lemma RoundShort(len: nat)
    requires BitLength(len) <= 24
    ensures RoundToF32(len) == len < 0x100_0000
  {
    hide BitLength;
    if len > 0 {
      BitLengthLow(len);
      Pow2Monotone(BitLength(len), 24);
      SixteenMillion();
    }
  }

  /** Short lengths are compared as they are, and no long table is full of so few entries. */
  lemma ShortLoad(len: nat, capacity: nat)
    requires IsPow2(capacity) && 4 <= capacity && len < 0x100_0000
    ensures 4 * len >= 3 * capacity <==> 4 * len >= 3 * capacity - Early(capacity)
  {
    hide IsPow2;
    if capacity < 0x200_0000 {
      var quarter := FourDivides(capacity);
      assert Early(capacity) < 4;
      hide Early;
      SmallShare(len, quarter, Early(capacity));
    } else {
      assert 4 * len < 2 * capacity && Early(capacity) <= capacity;
    }
  }

  lemma SmallShare(len: nat, quarter: nat, share: nat)
    requires share < 4
    ensures 4 * len >= 3 * (4 * quarter) <==> 4 * len >= 3 * (4 * quarter) - share
  {
  }

  lemma FourDivides(n: nat) returns (quarter: nat)
    requires IsPow2(n) && 4 <= n
    ensures n == 4 * quarter
  {
    quarter := n / 2 / 2;
  }

  lemma SixteenMillion()
    ensures Pow2(24) == 0x100_0000
  {
    assert Pow2(8) == 256;
    Pow2Sum(8, 8);
    Pow2Sum(8, 16);
  }

  lemma {:induction false} Pow2Gap(a: nat, b: nat)
    requires IsPow2(a) && IsPow2(b) && a < b
    ensures 2 * a <= b
    decreases a
  {
    if a > 1 {
      Pow2Gap(a / 2, b / 2);
    }
  }

  /** In its units, a length of more than 24 bits is a number of exactly 24 bits. */
  lemma WholeUnits(len: nat, unit: nat)
    requires 24 < BitLength(len) && unit == Pow2(BitLength(len) - 24)
    ensures 0x80_0000 <= len / unit < 0x100_0000
    ensures Pow2(BitLength(len) - 1) == unit * 0x80_0000 && Pow2(BitLength(len)) == unit * 0x100_0000
  {
    hide BitLength;
    BitLengthLow(len);
    SixteenMillion();
    Pow2Sum(24, BitLength(len) - 24);
    QuotientBetween(len, unit, 0x80_0000, 0x100_0000);
  }

  /** Rounding does not leave the powers of two around a number. */
  lemma RoundBounds(len: nat)
    requires 24 < BitLength(len)
    ensures Pow2(BitLength(len) - 1) <= RoundToF32(len) <= Pow2(BitLength(len))
  {
    hide BitLength, Pow2, RoundToF32;
    var unit := Pow2(BitLength(len) - 24);
    var q := len / unit;
    WholeUnits(len, unit);
    RoundsUpOrDown(len, unit);
    MulMonotone(unit, 0x80_0000, q);
    MulMonotone(unit, q, q + 1);
    MulMonotone(unit, q + 1, 0x100_0000);
  }

  lemma RoundsUpOrDown(len: nat, unit: nat)
    requires 24 < BitLength(len) && unit == Pow2(BitLength(len) - 24)
    ensures var q, r := len / unit, len % unit;
            RoundToF32(len) == if 2 * r > unit || (2 * r == unit && q % 2 == 1) then unit * (q + 1) else unit * q
  {
    hide BitLength, Pow2;
  }

  /** Single precision: a long number is rounded to the nearest number of 24 significant bits, of
      two equally near ones to the even one. */
  lemma NearestEven(len: nat) returns (unit: nat, q: nat)
    requires 0x100_0000 <= len
    ensures IsPow2(unit) && unit * 0x80_0000 <= len < unit * 0x100_0000
    ensures RoundToF32(len) == unit * q
    ensures 2 * (unit * q) - unit <= 2 * len <= 2 * (unit * q) + unit
    ensures 2 * len == 2 * (unit * q) - unit || 2 * len == 2 * (unit * q) + unit ==> q % 2 == 0
  {
    hide BitLength, RoundToF32, Pow2;
    LongNumber(len);
    unit := Pow2(BitLength(len) - 24);
    Pow2IsPow2(BitLength(len) - 24);
    BitLengthLow(len);
    WholeUnits(len, unit);
    RoundsUpOrDown(len, unit);
    q := len / unit;
    assert len == unit * q + len % unit;
    Distribute(unit, q, 1);
    if RoundToF32(len) != unit * q {
      q := q + 1;
    }
  }

  lemma LongNumber(len: nat)
    requires 0x100_0000 <= len
    ensures 24 < BitLength(len)
  {
    if BitLength(len) <= 24 {
      RoundShort(len);
    }
  }

  lemma QuotientBetween(x: nat, n: nat, lo: nat, hi: nat)
    requires 0 < n && lo * n <= x < hi * n
    ensures lo <= x / n < hi
  {
    if x / n < lo {
      MulMonotone(n, x / n + 1, lo);
    }
    if hi <= x / n {
      MulMonotone(n, hi, x / n);
    }
  }

  /** A length with one bit less than the capacity has: three quarters is a whole, even number of
      units, so that half a unit below it is rounded up. */
  lemma LoadAtUnit(len: nat, capacity: nat)
    requires 24 < BitLength(len) && capacity == Pow2(BitLength(len))
    ensures 4 * RoundToF32(len) >= 3 * capacity <==> 4 * len >= 3 * capacity - Early(capacity)
  {
    hide BitLength, RoundToF32, Early, Pow2;
    var unit := Pow2(BitLength(len) - 24);
    WholeUnits(len, unit);
    EarlyIsTwoUnits(unit);
    EvenUnit(BitLength(len) - 24);
    RoundsUpOrDown(len, unit);
    LoadInUnits(len, unit, len / unit, len % unit, RoundToF32(len));
  }

  lemma EvenUnit(e: nat)
    requires 0 < e
    ensures Pow2(e) % 2 == 0
  {
  }

  lemma EarlyIsTwoUnits(unit: nat)
    ensures Early(unit * 0x100_0000) == 2 * unit
  {
  }

  lemma LoadInUnits(len: nat, unit: nat, q: nat, r: nat, rounded: nat)
    requires unit % 2 == 0 && r < unit && len == unit * q + r
    requires rounded == if 2 * r > unit || (2 * r == unit && q % 2 == 1) then unit * (q + 1) else unit * q
    ensures 4 * rounded >= 3 * (unit * 0x100_0000) <==> 4 * len >= 3 * (unit * 0x100_0000) - 2 * unit
  {
    if q >= 0xC0_0000 {
      MulMonotone(unit, 0xC0_0000, q);
    } else if q < 0xBF_FFFF {
      MulMonotone(unit, q + 1, 0xBF_FFFF);
    }
    Distribute(unit, q, 1);
    NearThreeQuarters(unit, unit * q, r, q % 2 == 1, rounded);
  }

  /** `down` is a whole number of units, of which three quarters of the capacity are 0xC0_0000. */
  lemma NearThreeQuarters(unit: nat, down: nat, r: nat, odd: bool, rounded: nat)
    requires unit % 2 == 0 && r < unit
    requires rounded == if 2 * r > unit || (2 * r == unit && odd) then down + unit else down
    requires down >= 0xC0_0000 * unit || down + unit <= 0xBF_FFFF * unit || (down == 0xBF_FFFF * unit && odd)
    ensures 4 * rounded >= 3 * 0x100_0000 * unit <==> 4 * (down + r) >= 3 * 0x100_0000 * unit - 2 * unit
  {
  }
}

/** Binary arithmetic on naturals: the bit operators of the two hash tables,
    written out bit by bit, and the two ways they round up to a power of two. */
module Bits {

  function Pow2(n: nat): (r: nat)
    ensures r >= 1
  {
    if n == 0 then 1 else 2 * Pow2(n - 1)
  }

  ghost predicate IsPow2(x: nat) {
    exists n: nat :: Pow2(n) == x
  }

  /** Bit i of x. */
  predicate Bit(x: nat, i: nat) {
    if i == 0 then x % 2 == 1 else Bit(x / 2, i - 1)
  }

  /** x & y */
  function BitAnd(x: nat, y: nat): nat {
    if x == 0 || y == 0 then 0
    else 2 * BitAnd(x / 2, y / 2) + (if x % 2 == 1 && y % 2 == 1 then 1 else 0)
  }

  /** x | y */
  function BitOr(x: nat, y: nat): nat
    decreases x + y
  {
    if x == 0 && y == 0 then 0
    else 2 * BitOr(x / 2, y / 2) + (if x % 2 == 1 || y % 2 == 1 then 1 else 0)
  }

  /** x >> k */
  function Shr(x: nat, k: nat): nat {
    if k == 0 then x else Shr(x / 2, k - 1)
  }

  /** Number of significant bits: the position of the last set bit, 0 for 0. */
  function BitLen(x: nat): nat {
    if x == 0 then 0 else 1 + BitLen(x / 2)
  }

  // ---------- bit-level facts ----------

  lemma {:induction false} BitOfZero(i: nat)
    ensures !Bit(0, i)
  {
    if i > 0 { BitOfZero(i - 1); }
  }

  lemma {:induction false} BitOfOr(x: nat, y: nat, i: nat)
    ensures Bit(BitOr(x, y), i) <==> Bit(x, i) || Bit(y, i)
  {
    if i == 0 {
    } else if x == 0 && y == 0 {
      BitOfZero(i);
    } else {
      BitOfOr(x / 2, y / 2, i - 1);
    }
  }

  lemma {:induction false} BitOfShr(x: nat, k: nat, i: nat)
    ensures Bit(Shr(x, k), i) <==> Bit(x, i + k)
  {
    if k > 0 { BitOfShr(x / 2, k - 1, i); }
  }

  lemma {:induction false} BitOfOnes(n: nat, i: nat)
    ensures Bit(Pow2(n) - 1, i) <==> i < n
  {
    if n == 0 {
      BitOfZero(i);
    } else if i > 0 {
      BitOfOnes(n - 1, i - 1);
      assert (Pow2(n) - 1) / 2 == Pow2(n - 1) - 1;
    }
  }

  /** Two numbers with the same bits are equal. */
  lemma {:induction false} SameBits(x: nat, y: nat)
    requires forall i: nat :: Bit(x, i) <==> Bit(y, i)
    ensures x == y
    decreases x + y
  {
    assert Bit(x, 0) <==> Bit(y, 0);
    if x + y > 0 {
      forall i: nat ensures Bit(x / 2, i) <==> Bit(y / 2, i) {
        assert Bit(x, i + 1) <==> Bit(y, i + 1);
      }
      SameBits(x / 2, y / 2);
    }
  }

  /** The highest set bit of x is bit BitLen(x) - 1. */
  lemma {:induction false} TopBit(x: nat, i: nat)
    ensures i >= BitLen(x) ==> !Bit(x, i)
    ensures i + 1 == BitLen(x) ==> Bit(x, i)
  {
    if x == 0 {
      BitOfZero(i);
    } else if i > 0 {
      TopBit(x / 2, i - 1);
    }
  }

  lemma {:induction false} BitLenBounds(x: nat)
    ensures x < Pow2(BitLen(x))
    ensures x > 0 ==> Pow2(BitLen(x) - 1) <= x
  {
    if x > 1 { BitLenBounds(x / 2); }
  }

  lemma {:induction false} Pow2Mono(a: nat, b: nat)
    requires a <= b
    ensures Pow2(a) <= Pow2(b)
    ensures a < b ==> 2 * Pow2(a) <= Pow2(b)
  {
    if a < b { Pow2Mono(a, b - 1); }
  }

  lemma {:induction false} Pow2Product(a: nat, b: nat)
    ensures Pow2(a + b) == Pow2(a) * Pow2(b)
  {
    if a > 0 {
      Pow2Product(a - 1, b);
      assert Pow2(a) * Pow2(b) == 2 * (Pow2(a - 1) * Pow2(b));
    }
  }

  // ---------- masking ----------

  lemma ModHalf(h: nat, m: nat)
    requires m > 0
    ensures h % (2 * m) == 2 * ((h / 2) % m) + h % 2
  {
    var q, r := (h / 2) / m, (h / 2) % m;
    assert h == q * (2 * m) + (2 * r + h % 2);
    DivModUnique(h, 2 * m, q, 2 * r + h % 2);
  }

  lemma DivModUnique(x: nat, m: nat, q: nat, r: nat)
    requires r < m && x == q * m + r
    ensures x % m == r && x / m == q
  {
    var q', r' := x / m, x % m;
    assert x == q' * m + r';
    MulDiff(q, q', m);
    if q > q' {
      MulAtLeast(q - q', m);
    } else if q < q' {
      MulAtLeast(q' - q, m);
    }
  }

  lemma MulDiff(a: nat, b: nat, m: nat)
    ensures a * m - b * m == (a - b) * m
  {
  }

  lemma MulAtLeast(k: nat, m: nat)
    requires k > 0
    ensures k * m >= m
  {
  }

  lemma AndOdd(h: nat, m: nat)
    requires m > 0
    ensures BitAnd(h, 2 * m - 1) == 2 * BitAnd(h / 2, m - 1) + h % 2
  {
    assert (2 * m - 1) / 2 == m - 1 && (2 * m - 1) % 2 == 1;
  }

  lemma AndMaskStep(h: nat, m: nat)
    requires m > 0 && BitAnd(h / 2, m - 1) == (h / 2) % m
    ensures BitAnd(h, 2 * m - 1) == h % (2 * m)
  {
    AndOdd(h, m);
    ModHalf(h, m);
  }

  /** A remainder survives a coarser one. */
  lemma ModOfMod(k: int, n: nat, m: nat)
    requires n > 0 && m > 0
    ensures n * m > 0 && (k % (n * m)) % n == k % n
  {
    MulAtLeast(n, m);
    var q, r := k / (n * m), k % (n * m);
    assert k == q * (n * m) + r;
    assert q * (n * m) == (q * m) * n;
    var p := r / n;
    assert r == p * n + r % n;
    assert (q * m) * n + p * n == (q * m + p) * n;
    IntModUnique(k, n, q * m + p, r % n);
  }

  lemma IntModUnique(x: int, m: nat, q: int, r: nat)
    requires r < m && x == q * m + r
    ensures x % m == r
  {
    var q', r' := x / m, x % m;
    assert x == q' * m + r';
    assert (q - q') * m == r' - r;
    if q > q' {
      MulAtLeast(q - q', m);
    } else if q < q' {
      MulAtLeast(q' - q, m);
    }
  }

  /** Masking with 2^n - 1 is the remainder modulo 2^n. */
  lemma {:induction false} AndMask(h: nat, n: nat)
    ensures BitAnd(h, Pow2(n) - 1) == h % Pow2(n)
  {
    if n > 0 {
      AndMask(h / 2, n - 1);
      AndMaskStep(h, Pow2(n - 1));
    }
  }

  /** The index computation of both tables, for any power-of-two bucket count. */
  lemma MaskIsMod(h: nat, count: nat)
    requires IsPow2(count)
    ensures count > 0
    ensures BitAnd(h, count - 1) == h % count < count
  {
    var n: nat :| Pow2(n) == count;
    AndMask(h, n);
  }

  // ---------- rounding up to a power of two ----------

  const SIZE_T: nat := 0x1_0000_0000_0000_0000
  const UINT: nat := 0x1_0000_0000

  /** Hashing an integer key: its conversion to size_t. */
  function SizeT(k: int): nat { k % SIZE_T }

  /** Conversion to a 32-bit signed integer. */
  function ToInt(x: nat): int {
    var w := x % UINT;
    if w < UINT / 2 then w else w - UINT
  }

  /** The 64-bit mask computation of the chained table: decrement (wrapping), then smear. */
  function SmearedMask(min: nat): nat
    requires min < SIZE_T
  {
    Smear((min + SIZE_T - 1) % SIZE_T)
  }

  function Smear(m0: nat): nat {
    var m1 := BitOr(m0, Shr(m0, 1));
    var m2 := BitOr(m1, Shr(m1, 2));
    var m3 := BitOr(m2, Shr(m2, 4));
    var m4 := BitOr(m3, Shr(m3, 8));
    var m5 := BitOr(m4, Shr(m4, 16));
    BitOr(m5, Shr(m5, 32))
  }

  /** The rounding of the linear table: a 64-bit shift by the last set bit, returned as an int. */
  function NextPowTwo(x: nat): int
    requires x < UINT
  {
    ToInt(if x != 0 then Pow2(BitLen(x - 1)) else 1)
  }

  /** r is the least power of two that is not below x. */
  ghost predicate LeastPow2(x: nat, r: nat) {
    && IsPow2(r)
    && x <= r
    && forall n: nat :: x <= Pow2(n) ==> r <= Pow2(n)
  }

  lemma RoundUp(x: nat)
    requires x > 0
    ensures LeastPow2(x, Pow2(BitLen(x - 1)))
  {
    BitLenBounds(x - 1);
    forall n: nat | x <= Pow2(n) ensures Pow2(BitLen(x - 1)) <= Pow2(n) {
      if n < BitLen(x - 1) {
        Pow2Mono(n, BitLen(x - 1) - 1);
      } else {
        Pow2Mono(BitLen(x - 1), n);
      }
    }
  }

  /** Some bit of x in positions i .. i + k - 1 is set. */
  ghost predicate AnyBit(x: nat, i: nat, k: nat)
    decreases k
  {
    k > 0 && (Bit(x, i) || AnyBit(x, i + 1, k - 1))
  }

  lemma {:induction false} AnyBitSplit(x: nat, i: nat, a: nat, b: nat)
    ensures AnyBit(x, i, a + b) <==> AnyBit(x, i, a) || AnyBit(x, i + a, b)
    decreases a
  {
    if a > 0 { AnyBitSplit(x, i + 1, a - 1, b); }
  }

  lemma {:induction false} AnyBitBelowTop(x: nat, i: nat, k: nat)
    requires BitLen(x) <= i + k
    ensures AnyBit(x, i, k) <==> i < BitLen(x)
    decreases k
  {
    TopBit(x, i);
    if k > 0 { AnyBitBelowTop(x, i + 1, k - 1); }
  }

  /** y is x with every bit smeared over the k - 1 positions below it. */
  ghost predicate Smeared(x: nat, y: nat, k: nat) {
    forall i: nat :: Bit(y, i) <==> AnyBit(x, i, k)
  }

  lemma SmearStep(x: nat, y: nat, k: nat)
    requires Smeared(x, y, k)
    ensures Smeared(x, BitOr(y, Shr(y, k)), k + k)
  {
    forall i: nat ensures Bit(BitOr(y, Shr(y, k)), i) <==> AnyBit(x, i, k + k) {
      BitOfOr(y, Shr(y, k), i);
      BitOfShr(y, k, i);
      AnyBitSplit(x, i, k, k);
      assert Bit(y, i) <==> AnyBit(x, i, k);
      assert Bit(y, i + k) <==> AnyBit(x, i + k, k);
    }
  }

  lemma {:induction false} ShortBitLen(x: nat, n: nat)
    requires x < Pow2(n)
    ensures BitLen(x) <= n
  {
    if x > 0 { ShortBitLen(x / 2, n - 1); }
  }

  lemma Pow2Of64()
    ensures Pow2(64) == SIZE_T && Pow2(63) == 0x8000_0000_0000_0000
    ensures Pow2(32) == UINT && Pow2(31) == 0x8000_0000 && Pow2(30) == 0x4000_0000
  {
    assert Pow2(10) == 1024;
    assert Pow2(20) == 1048576;
    assert Pow2(30) == 0x4000_0000;
    assert Pow2(40) == 0x100_0000_0000;
    assert Pow2(50) == 0x4_0000_0000_0000;
    assert Pow2(60) == 0x1000_0000_0000_0000;
  }

  lemma SmearFillsBelowTop(m0: nat)
    requires BitLen(m0) <= 64
    ensures Smear(m0) == Pow2(BitLen(m0)) - 1
  {
    var m1 := BitOr(m0, Shr(m0, 1));
    var m2 := BitOr(m1, Shr(m1, 2));
    var m3 := BitOr(m2, Shr(m2, 4));
    var m4 := BitOr(m3, Shr(m3, 8));
    var m5 := BitOr(m4, Shr(m4, 16));
    assert Smeared(m0, m0, 1) by {
      forall i: nat ensures Bit(m0, i) <==> AnyBit(m0, i, 1) {
        assert !AnyBit(m0, i + 1, 0);
      }
    }
    SmearStep(m0, m0, 1);
    SmearStep(m0, m1, 2);
    SmearStep(m0, m2, 4);
    SmearStep(m0, m3, 8);
    SmearStep(m0, m4, 16);
    SmearStep(m0, m5, 32);
    SmearedIsOnes(m0, Smear(m0), 64);
  }

  lemma SmearedIsOnes(x: nat, y: nat, k: nat)
    requires Smeared(x, y, k) && BitLen(x) <= k
    ensures y == Pow2(BitLen(x)) - 1
  {
    forall i: nat ensures Bit(y, i) <==> Bit(Pow2(BitLen(x)) - 1, i) {
      assert Bit(y, i) <==> AnyBit(x, i, k);
      AnyBitBelowTop(x, i, k);
      BitOfOnes(BitLen(x), i);
    }
    SameBits(y, Pow2(BitLen(x)) - 1);
  }

  lemma WrapDown(min: nat)
    requires min < SIZE_T
    ensures (min + SIZE_T - 1) % SIZE_T == if min == 0 then SIZE_T - 1 else min - 1
  {
  }

  /** For 1 <= min the smeared mask is one less than the least power of two not below min;
      min == 0 and min above 2^63 leave every bit of the 64-bit mask set. */
  lemma SmearedMaskRounds(min: nat)
    requires min < SIZE_T
    ensures min > 0 ==> LeastPow2(min, SmearedMask(min) + 1)
    ensures min > 0 ==> SmearedMask(min) + 1 == Pow2(BitLen(min - 1))
    ensures SmearedMask(min) + 1 < SIZE_T <==> 0 < min <= SIZE_T / 2
    ensures SmearedMask(min) + 1 <= SIZE_T
  {
    var m0 := if min == 0 then SIZE_T - 1 else min - 1;
    WrapDown(min);
    SmearInSizeT(m0);
    OnesBounds(min, m0, Pow2(BitLen(m0)));
  }

  lemma SmearInSizeT(m0: nat)
    requires m0 < SIZE_T
    ensures Smear(m0) == Pow2(BitLen(m0)) - 1
  {
    Pow2Of64();
    ShortBitLen(m0, 64);
    SmearFillsBelowTop(m0);
  }

  lemma OnesBounds(min: nat, m0: nat, r: nat)
    requires min < SIZE_T && m0 == (if min == 0 then SIZE_T - 1 else min - 1)
    requires r == Pow2(BitLen(m0))
    ensures min > 0 ==> LeastPow2(min, r)
    ensures r < SIZE_T <==> 0 < min <= SIZE_T / 2
    ensures r <= SIZE_T
  {
    Pow2Of64();
    ShortBitLen(m0, 64);
    BitLenBounds(m0);
    Pow2Mono(BitLen(m0), 64);
    if min > 0 {
      RoundUp(min);
    }
    if 0 < min <= SIZE_T / 2 {
      ShortBitLen(m0, 63);
      Pow2Mono(BitLen(m0), 63);
    }
  }

  /** NextPowTwo gives the least power of two not below x exactly when x <= 2^30: above that
      the int it returns cannot hold the answer. */
  lemma NextPowTwoRounds(x: nat)
    requires 0 < x < UINT
    ensures x <= 0x4000_0000 <==> NextPowTwo(x) > 0 && LeastPow2(x, NextPowTwo(x))
    ensures x <= 0x4000_0000 ==> NextPowTwo(x) == Pow2(BitLen(x - 1))
  {
    RoundUp(x);
    if x <= 0x4000_0000 {
      ShortRound(x);
    } else {
      LongBitLen(x - 1);
      ToIntOfHigh(BitLen(x - 1));
    }
  }

  lemma ShortRound(x: nat)
    requires 0 < x <= 0x4000_0000
    ensures NextPowTwo(x) == Pow2(BitLen(x - 1))
  {
    Pow2Of64();
    ShortBitLen(x - 1, 30);
    Pow2Mono(BitLen(x - 1), 30);
  }

  /** 2^31 and 2^32 do not fit an int. */
  lemma ToIntOfHigh(n: nat)
    requires n == 31 || n == 32
    ensures ToInt(Pow2(n)) <= 0
  {
    Pow2Of64();
  }

  lemma LongBitLen(y: nat)
    requires 0x4000_0000 <= y < UINT
    ensures BitLen(y) == 31 || BitLen(y) == 32
  {
    Pow2Of64();
    ShortBitLen(y, 32);
    BitLenBounds(y);
    if BitLen(y) <= 30 {
      Pow2Mono(BitLen(y), 30);
    }
  }

  /** The two roundings agree wherever both are defined. */
  lemma RoundingsAgree(x: nat)
    requires 0 < x <= 0x4000_0000
    ensures NextPowTwo(x) == SmearedMask(x) + 1
  {
    SmearedMaskRounds(x);
    NextPowTwoRounds(x);
  }

  lemma NextPowTwoFixed(x: nat)
    requires IsPow2(x) && x <= 0x4000_0000
    ensures 0 < x && NextPowTwo(x) == x
  {
    var n: nat :| Pow2(n) == x;
    NextPowTwoRounds(x);
    assert x <= Pow2(n);
  }

  lemma Pow2Double(x: nat)
    requires IsPow2(x)
    ensures x > 0 && IsPow2(2 * x)
    ensures x > 1 ==> x % 2 == 0 && IsPow2(x / 2)
  {
    var n: nat :| Pow2(n) == x;
    assert Pow2(n + 1) == 2 * x;
    if n > 0 {
      assert Pow2(n - 1) == x / 2;
    }
  }
}

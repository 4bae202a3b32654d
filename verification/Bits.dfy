/** Shifts, masks and bitwise operations on natural numbers.

    Machine words are modelled as naturals below 2^64 (or 2^32). The shifts are defined by
    recursion on the distance, so that everything about them is linear arithmetic. */
module Bits {

  type U8 = x: int | 0 <= x < 256

  /** x << n, that is x times 2^n. */
  function Shl(x: nat, n: nat): (r: nat)
    ensures x <= r
  {
    if n == 0 then x else 2 * Shl(x, n - 1)
  }

  /** x >> n. */
  function Shr(x: nat, n: nat): (r: nat)
    ensures r <= x
  {
    if n == 0 then x else Shr(x / 2, n - 1)
  }

  /** The n low bits of x. */
  function Low(x: nat, n: nat): (r: nat)
    ensures r <= x
  {
    if n == 0 then 0 else x % 2 + 2 * Low(x / 2, n - 1)
  }

  function Pow2(n: nat): (p: nat)
    ensures p > 0
  {
    Shl(1, n)
  }

  /** Bits [pos, pos + width) of x, as a number. */
  function Slice(x: nat, pos: nat, width: nat): nat
  {
    Low(Shr(x, pos), width)
  }

  // ----- shifts

  lemma {:induction false} ShlAdd(x: nat, y: nat, n: nat)
    ensures Shl(x + y, n) == Shl(x, n) + Shl(y, n)
  {
    if n > 0 {
      ShlAdd(x, y, n - 1);
    }
  }

  lemma {:induction false} ShlShl(x: nat, a: nat, b: nat)
    ensures Shl(Shl(x, a), b) == Shl(x, a + b)
  {
    if b > 0 {
      ShlShl(x, a, b - 1);
    }
  }

  lemma {:induction false} ShlDouble(x: nat, n: nat)
    ensures Shl(2 * x, n) == 2 * Shl(x, n)
  {
    if n > 0 {
      ShlDouble(x, n - 1);
    }
  }

  lemma {:induction false} ShlMono(x: nat, y: nat, n: nat)
    requires x <= y
    ensures Shl(x, n) <= Shl(y, n)
  {
    if n > 0 {
      ShlMono(x, y, n - 1);
    }
  }

  lemma {:induction false} ShlZero(n: nat)
    ensures Shl(0, n) == 0
  {
    if n > 0 {
      ShlZero(n - 1);
    }
  }

  lemma {:induction false} ShrShr(x: nat, a: nat, b: nat)
    ensures Shr(Shr(x, a), b) == Shr(x, a + b)
  {
    if a > 0 {
      ShrShr(x / 2, a - 1, b);
    }
  }

  lemma ShrLess(x: nat, n: nat)
    ensures Shr(x, n) <= x
  {
  }

  // ----- splitting a number at a bit

  lemma {:induction false} Split(x: nat, n: nat)
    ensures x == Low(x, n) + Shl(Shr(x, n), n)
    ensures Low(x, n) < Pow2(n)
  {
    if n > 0 {
      Split(x / 2, n - 1);
    }
  }

  /** The two halves of a split are the only ones: lo + (hi << n) with lo below 2^n. */
  lemma {:induction false} SplitUnique(lo: nat, hi: nat, n: nat)
    requires lo < Pow2(n)
    ensures Low(lo + Shl(hi, n), n) == lo
    ensures Shr(lo + Shl(hi, n), n) == hi
  {
    if n > 0 {
      assert (lo + Shl(hi, n)) / 2 == lo / 2 + Shl(hi, n - 1);
      SplitUnique(lo / 2, hi, n - 1);
    }
  }

  lemma LowSmall(x: nat, n: nat)
    requires x < Pow2(n)
    ensures Low(x, n) == x && Shr(x, n) == 0
  {
    ShlZero(n);
    SplitUnique(x, 0, n);
  }

  /** A number with n low bits `lo` and m bits `hi` above them has n + m bits. */
  lemma JoinBound(lo: nat, n: nat, hi: nat, m: nat)
    requires lo < Pow2(n) && hi < Pow2(m)
    ensures lo + Shl(hi, n) < Pow2(n + m)
  {
    ShlMono(hi + 1, Pow2(m), n);
    ShlAdd(hi, 1, n);
    ShlShl(1, m, n);
  }

  lemma {:induction false} ShrBound(x: nat, n: nat, m: nat)
    requires x < Pow2(n + m)
    ensures Shr(x, n) < Pow2(m)
  {
    if n > 0 {
      ShrBound(x / 2, n - 1, m);
    }
  }

  lemma {:induction false} LowLow(x: nat, a: nat, b: nat)
    ensures Low(Low(x, a + b), a) == Low(x, a)
    ensures Shr(Low(x, a + b), a) == Low(Shr(x, a), b)
  {
    if a > 0 {
      LowLow(x / 2, a - 1, b);
      assert Low(x, a + b) / 2 == Low(x / 2, a - 1 + b);
    }
  }

  /** A field inside a window of x is the same field of x. */
  lemma SliceOfSlice(x: nat, base: nat, size: nat, pos: nat, width: nat)
    requires pos + width <= size
    ensures Slice(Slice(x, base, size), pos, width) == Slice(x, base + pos, width)
  {
    LowLow(Shr(x, base), pos, size - pos);
    LowLow(Shr(x, base + pos), width, size - pos - width);
    ShrShr(x, base, pos);
  }

  /** Bits added above position `pos + width` do not change a field below it. */
  lemma SliceBelow(lo: nat, hi: nat, n: nat, pos: nat, width: nat)
    requires lo < Pow2(n) && pos + width <= n
    ensures Slice(lo + Shl(hi, n), pos, width) == Slice(lo, pos, width)
  {
    SplitUnique(lo, hi, n);
    SliceOfSlice(lo + Shl(hi, n), 0, n, pos, width);
  }

  // ----- powers of two

  lemma Pow2Add(a: nat, b: nat)
    ensures Shl(Pow2(a), b) == Pow2(a + b)
  {
    ShlShl(1, a, b);
  }

  lemma {:induction false} Pow2Mono(a: nat, b: nat)
    requires a <= b
    ensures Pow2(a) <= Pow2(b)
    ensures a < b ==> 2 * Pow2(a) <= Pow2(b)
  {
    if a < b {
      Pow2Mono(a, b - 1);
    }
  }

  lemma Pow2Values()
    ensures Pow2(0) == 1 && Pow2(1) == 2 && Pow2(2) == 4 && Pow2(3) == 8 && Pow2(4) == 16
    ensures Pow2(5) == 32 && Pow2(6) == 64 && Pow2(7) == 128 && Pow2(8) == 256
    ensures Pow2(12) == 4096 && Pow2(16) == 0x1_0000 && Pow2(32) == 0x1_0000_0000
    ensures Pow2(64) == 0x1_0000_0000_0000_0000
  {
    Shift8(1);
    Shift8(256);
    ShlShl(1, 8, 8);
    assert Pow2(16) == 0x1_0000;
    Shift8(0x1_0000);
    ShlShl(1, 16, 8);
    Shift8(0x100_0000);
    ShlShl(1, 24, 8);
    assert Pow2(32) == 0x1_0000_0000;
    Shift8(0x1_0000_0000);
    ShlShl(1, 32, 8);
    Shift8(0x100_0000_0000);
    ShlShl(1, 40, 8);
    Shift8(0x1_0000_0000_0000);
    ShlShl(1, 48, 8);
    Shift8(0x100_0000_0000_0000);
    ShlShl(1, 56, 8);
  }

  /** Shifting by a whole byte. */
  lemma Shift8(x: nat)
    ensures Shl(x, 8) == 256 * x
    ensures Shr(x, 8) == x / 256
    ensures Low(x, 8) == x % 256
  {
    Shift4(x);
    ShlShl(x, 4, 4);
    Shift4(16 * x);
    ShrShr(x, 4, 4);
    Shift4(x / 16);
    Split(x, 8);
    Shift4(x / 256);
    ShlShl(x / 256, 4, 4);
    Shift4(16 * (x / 256));
    Shift4(1);
    Shift4(16);
    ShlShl(1, 4, 4);
  }

  lemma Shift4(x: nat)
    ensures Shl(x, 4) == 16 * x
    ensures Shr(x, 4) == x / 16
  {
    assert Shl(x, 1) == 2 * x;
    assert Shl(x, 2) == 4 * x;
    assert Shl(x, 3) == 8 * x;
    var y := x / 2;
    assert Shr(y / 2 / 2, 1) == y / 2 / 2 / 2;
    assert Shr(y / 2, 2) == Shr(y / 2 / 2, 1);
    assert Shr(y, 3) == Shr(y / 2, 2);
    assert Shr(x, 4) == Shr(y, 3);
  }

  lemma DoublePow(n: nat)
    ensures Pow2(n + 1) == 2 * Pow2(n)
  {
  }

  /** The mask of the low n bits is a remainder. */
  lemma {:induction false} LowMod(x: nat, n: nat)
    ensures Low(x, n) == x % Pow2(n)
  {
    Split(x, n);
    ShlTimes(Shr(x, n), n);
    RemainderUnique(x, Pow2(n), Shr(x, n), Low(x, n));
  }

  lemma {:induction false} ShlTimes(x: nat, n: nat)
    ensures Shl(x, n) == x * Pow2(n)
  {
    if n > 0 {
      ShlTimes(x, n - 1);
    }
  }

  /** The quotient and the remainder are the only q and r with x == q * d + r, 0 <= r < d. */
  lemma RemainderUnique(x: int, d: int, q: int, r: int)
    requires d > 0 && 0 <= r < d
    requires x == q * d + r
    ensures x / d == q && x % d == r
  {
    var q' := x / d;
    assert (q - q') * d == x % d - r && (q' - q) * d == r - x % d;
    if q > q' {
      AtLeastOne(q - q', d);
    } else if q < q' {
      AtLeastOne(q' - q, d);
    }
  }

  lemma AtLeastOne(k: int, d: int)
    requires k >= 1 && d > 0
    ensures k * d >= d
  {
  }

  // ----- highest bit

  /** The position of the highest set bit, as ZSTD_highbit32 returns it. */
  function HighBit(x: nat): (k: nat)
    requires x > 0
    ensures Pow2(k) <= x < Pow2(k + 1)
  {
    if x == 1 then 0 else HighBit(x / 2) + 1
  }

  lemma HighBitSpec(x: nat)
    requires x > 0
    ensures Pow2(HighBit(x)) <= x < Pow2(HighBit(x) + 1)
  {
  }

  lemma HighBitUnique(x: nat, k: nat)
    requires Pow2(k) <= x < Pow2(k + 1)
    ensures x > 0 && HighBit(x) == k
  {
    if HighBit(x) < k {
      Pow2Mono(HighBit(x) + 1, k);
    } else if k < HighBit(x) {
      Pow2Mono(k + 1, HighBit(x));
    }
  }

  lemma HighBitBelow(x: nat, n: nat)
    requires 0 < x < Pow2(n)
    ensures HighBit(x) < n
  {
    if n <= HighBit(x) {
      Pow2Mono(n, HighBit(x));
    }
  }

  /** Shifting right by j moves the highest bit down by j. */
  lemma {:induction false} HighBitShr(x: nat, j: nat)
    requires x > 0 && j <= HighBit(x)
    ensures Shr(x, j) > 0 && HighBit(Shr(x, j)) == HighBit(x) - j
  {
    if j > 0 {
      HighBitShr(x / 2, j - 1);
    }
  }

  /** The number of zero bits below the lowest one. */
  function CountTrailingZeros(x: nat): nat
    requires x > 0
  {
    if x % 2 == 1 then 0 else CountTrailingZeros(x / 2) + 1
  }

  // ----- bitwise operators

  function BitAnd(a: nat, b: nat): nat
  {
    if a == 0 || b == 0 then 0
    else 2 * BitAnd(a / 2, b / 2) + if a % 2 == 1 && b % 2 == 1 then 1 else 0
  }

  function BitOr(a: nat, b: nat): nat
  {
    if a == 0 && b == 0 then 0
    else 2 * BitOr(a / 2, b / 2) + if a % 2 == 1 || b % 2 == 1 then 1 else 0
  }

  lemma {:induction false} LowZero(n: nat)
    ensures Low(0, n) == 0
  {
    if n > 0 {
      LowZero(n - 1);
    }
  }

  /** And-ing with a mask of n ones keeps the n low bits. */
  lemma {:induction false} AndMask(x: nat, n: nat)
    ensures BitAnd(x, Pow2(n) - 1) == Low(x, n)
  {
    LowZero(n);
    if n > 0 && x > 0 {
      AndMask(x / 2, n - 1);
      assert (Pow2(n) - 1) / 2 == Pow2(n - 1) - 1;
    }
  }

  lemma {:induction false} OrZero(x: nat)
    ensures BitOr(0, x) == x && BitOr(x, 0) == x
  {
    if x > 0 {
      OrZero(x / 2);
    }
  }

  /** Or-ing a field above the low n bits is adding it. */
  lemma {:induction false} OrDisjoint(a: nat, b: nat, n: nat)
    requires a < Pow2(n)
    ensures BitOr(a, Shl(b, n)) == a + Shl(b, n)
  {
    if n == 0 {
      OrZero(b);
    } else {
      OrDisjoint(a / 2, b, n - 1);
    }
  }
}

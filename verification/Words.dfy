/** Unsigned words of a fixed width: what exclusive or, rotation and multiplication do to them,
    and that each can be undone. */
module Words {
  import opened Bits

  // Exclusive or.

  function BitXor(a: nat, b: nat): nat
  {
    if a == 0 && b == 0 then 0
    else 2 * BitXor(a / 2, b / 2) + if a % 2 == b % 2 then 0 else 1
  }

  lemma {:induction false} XorBound(a: nat, b: nat, n: nat)
    requires a < Pow2(n) && b < Pow2(n)
    ensures BitXor(a, b) < Pow2(n)
  {
    if n > 0 {
      XorBound(a / 2, b / 2, n - 1);
    }
  }

  lemma {:induction false} XorSwaps(a: nat, b: nat)
    ensures BitXor(a, b) == BitXor(b, a)
  {
    if a != 0 || b != 0 {
      XorSwaps(a / 2, b / 2);
    }
  }

  lemma {:induction false} XorCancels(a: nat, b: nat, c: nat)
    requires BitXor(a, c) == BitXor(b, c)
    ensures a == b
    decreases a + b + c
  {
    if a != 0 || b != 0 || c != 0 {
      assert BitXor(a, c) / 2 == BitXor(a / 2, c / 2) && BitXor(b, c) / 2 == BitXor(b / 2, c / 2);
      assert BitXor(a, c) % 2 == BitXor(b, c) % 2;
      XorCancels(a / 2, b / 2, c / 2);
    }
  }

  lemma {:induction false} XorShr(a: nat, b: nat, s: nat)
    ensures Shr(BitXor(a, b), s) == BitXor(Shr(a, s), Shr(b, s))
  {
    if s > 0 {
      assert BitXor(a, b) / 2 == BitXor(a / 2, b / 2);
      XorShr(a / 2, b / 2, s - 1);
    }
  }

  /** x ^ (x >> s) determines x, for every shift s > 0. */
  lemma {:induction false} XorShiftInjective(x: nat, y: nat, s: nat)
    requires s > 0 && BitXor(x, Shr(x, s)) == BitXor(y, Shr(y, s))
    ensures x == y
    decreases x + y
  {
    if x != 0 || y != 0 {
      XorShr(x, Shr(x, s), s);
      XorShr(y, Shr(y, s), s);
      ShrSmaller(x, s);
      ShrSmaller(y, s);
      XorShiftInjective(Shr(x, s), Shr(y, s), s);
      XorCancels(x, y, Shr(x, s));
    }
  }

  lemma {:induction false} ShrSmaller(x: nat, s: nat)
    requires s > 0
    ensures if x == 0 then Shr(x, s) == 0 else Shr(x, s) < x
  {
    if s > 1 {
      ShrSmaller(x / 2, s - 1);
    }
  }

  // Rotation.

  /** (x << r) | (x >> (n - r)) on n-bit words. */
  function Rotate(x: nat, r: nat, n: nat): nat
    requires r <= n
  {
    BitOr(Low(Shl(x, r), n), Shr(x, n - r))
  }

  /** The high r bits and the low n - r bits change places. */
  lemma RotateIs(x: nat, r: nat, n: nat)
    requires r <= n && x < Pow2(n)
    ensures Shr(x, n - r) < Pow2(r)
    ensures Rotate(x, r, n) == Shr(x, n - r) + Shl(Low(x, n - r), r)
    ensures Rotate(x, r, n) < Pow2(n)
  {
    hide Shl, Shr, Low, BitOr, Pow2;
    var lo, hi := Low(x, n - r), Shr(x, n - r);
    Split(x, n - r);
    ShrBound(x, n - r, r);
    ShlAdd(lo, Shl(hi, n - r), r);
    ShlShl(hi, n - r, r);
    JoinBound(0, r, lo, n - r);
    ZeroBelow(r);
    SplitUnique(Shl(lo, r), hi, n);
    OrSwaps(Shl(lo, r), hi);
    OrDisjoint(hi, lo, r);
    JoinBound(hi, r, lo, n - r);
  }

  lemma ZeroBelow(r: nat)
    ensures 0 < Pow2(r)
  {
  }

  lemma {:induction false} OrSwaps(a: nat, b: nat)
    ensures BitOr(a, b) == BitOr(b, a)
  {
    if a != 0 || b != 0 {
      OrSwaps(a / 2, b / 2);
    }
  }

  lemma RotateInjective(x: nat, y: nat, r: nat, n: nat)
    requires r <= n && x < Pow2(n) && y < Pow2(n) && Rotate(x, r, n) == Rotate(y, r, n)
    ensures x == y
  {
    hide Shl, Shr, Low, Pow2, Rotate;
    RotateIs(x, r, n);
    RotateIs(y, r, n);
    SplitUnique(Shr(x, n - r), Low(x, n - r), r);
    SplitUnique(Shr(y, n - r), Low(y, n - r), r);
    Split(x, n - r);
    Split(y, n - r);
  }

  // Multiplication.

  /** Multiplying by k and then by its inverse modulo m gives the word back. */
  lemma MulUndone(x: nat, k: nat, inverse: nat, c: nat, m: nat)
    requires x < m && k * inverse == 1 + c * m
    ensures (((x * k) % m) * inverse) % m == x
  {
    var q, r := (x * k) / m, (x * k) % m;
    calc {
      r * inverse;
      (x * k - q * m) * inverse;
      x * k * inverse - q * m * inverse;
      { assert x * k * inverse == x * (k * inverse); }
      x * (1 + c * m) - q * m * inverse;
      { assert q * m * inverse == q * inverse * m; }
      x + x * c * m - q * inverse * m;
      (x * c - q * inverse) * m + x;
    }
    RemainderUnique(r * inverse, m, x * c - q * inverse, x);
  }

  lemma MulInjective(x: nat, y: nat, k: nat, inverse: nat, c: nat, m: nat)
    requires x < m && y < m && k * inverse == 1 + c * m && (x * k) % m == (y * k) % m
    ensures x == y
  {
    MulUndone(x, k, inverse, c, m);
    MulUndone(y, k, inverse, c, m);
  }

  lemma AddInjective(x: nat, y: nat, z: nat, m: nat)
    requires x < m && y < m && (x + z) % m == (y + z) % m
    ensures x == y
  {
    var p, q := (x + z) / m, (y + z) / m;
    assert x - y == (p - q) * m;
    if p > q {
      AtLeastOne(p - q, m);
    } else if q > p {
      AtLeastOne(q - p, m);
    }
  }
}

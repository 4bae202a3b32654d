/** Exclusive or worked out byte by byte, for words written in hexadecimal. */
module XorBytes {
  import opened Bits
  import opened Words

  /** Words by their bytes, the highest first. */
  function Word4(a: bv8, b: bv8, c: bv8, d: bv8): nat
  {
    0x100_0000 * Num(a) + 0x1_0000 * Num(b) + 0x100 * Num(c) + Num(d)
  }

  function Word8(a: bv8, b: bv8, c: bv8, d: bv8, e: bv8, f: bv8, g: bv8, h: bv8): nat
  {
    0x1_0000_0000 * Word4(a, b, c, d) + Word4(e, f, g, h)
  }

  // Bytes as bit vectors.

  function Num(x: bv8): nat { x as nat }

  function Half(x: bv8): bv8 { x >> 1 }

  function XorByte(x: bv8, y: bv8): bv8 { x ^ y }

  lemma HalfIs(x: bv8)
    ensures Num(Half(x)) == Num(x) / 2 && (x & 1) as nat == Num(x) % 2
  {
  }

  /** The lowest bit of an exclusive or, and the rest of it. */
  lemma XorStep(x: bv8, y: bv8)
    ensures Num(XorByte(x, y))
            == 2 * Num(XorByte(Half(x), Half(y))) + if Num(x) % 2 == Num(y) % 2 then 0 else 1
  {
    HalfIs(x);
    HalfIs(y);
    HalfIs(XorByte(x, y));
    assert Half(XorByte(x, y)) == XorByte(Half(x), Half(y));
    assert XorByte(x, y) & 1 == (x & 1) ^ (y & 1);
  }

  lemma NoBits(x: bv8, y: bv8)
    requires Num(x) == Num(y) == 0
    ensures Num(XorByte(x, y)) == 0
  {
  }

  lemma {:induction false} XorBits(x: bv8, y: bv8, n: nat)
    requires Num(x) < Pow2(n) && Num(y) < Pow2(n)
    ensures BitXor(Num(x), Num(y)) == Num(XorByte(x, y))
  {
    if n > 0 {
      DoublePow(n - 1);
      hide Pow2, Num, Half, XorByte;
      HalfIs(x);
      HalfIs(y);
      XorStep(x, y);
      XorBits(Half(x), Half(y), n - 1);
    } else {
      NoBits(x, y);
    }
  }

  // Words.

  lemma {:induction false} XorJoin(x: nat, a: nat, y: nat, b: nat, n: nat)
    requires a < Pow2(n) && b < Pow2(n)
    ensures BitXor(a + Shl(x, n), b + Shl(y, n)) == BitXor(a, b) + Shl(BitXor(x, y), n)
  {
    if n > 0 {
      assert (a + Shl(x, n)) / 2 == a / 2 + Shl(x, n - 1);
      assert (b + Shl(y, n)) / 2 == b / 2 + Shl(y, n - 1);
      XorJoin(x, a / 2, y, b / 2, n - 1);
    }
  }

  lemma XorOne(x: bv8, y: bv8)
    ensures Num(x) < 0x100 && Num(y) < 0x100 && BitXor(Num(x), Num(y)) == Num(XorByte(x, y))
  {
    assert Pow2(8) == 0x100 by { Pow2Values(); }
    XorBits(x, y, 8);
  }

  lemma ShiftBytes(x: nat)
    ensures Shl(x, 8) == 0x100 * x && Shl(x, 16) == 0x1_0000 * x && Shl(x, 32) == 0x1_0000_0000 * x
    ensures Pow2(8) == 0x100 && Pow2(16) == 0x1_0000 && Pow2(32) == 0x1_0000_0000
  {
    Pow2Values();
    ShlTimes(x, 8);
    ShlTimes(x, 16);
    ShlTimes(x, 32);
  }

  /** Two parts of one byte each, joined. */
  lemma Xor2(a: bv8, b: bv8, a': bv8, b': bv8)
    ensures 0x100 * Num(a) + Num(b) < 0x1_0000 && 0x100 * Num(a') + Num(b') < 0x1_0000
    ensures BitXor(0x100 * Num(a) + Num(b), 0x100 * Num(a') + Num(b')) == 0x100 * Num(XorByte(a, a')) + Num(XorByte(b, b'))
  {
    hide BitXor, Num, XorByte, Pow2, Shl;
    XorOne(a, a');
    XorOne(b, b');
    ShiftBytes(Num(a));
    ShiftBytes(Num(a'));
    ShiftBytes(Num(XorByte(a, a')));
    XorJoin(Num(a), Num(b), Num(a'), Num(b'), 8);
  }

  lemma Xor4(a: bv8, b: bv8, c: bv8, d: bv8, a': bv8, b': bv8, c': bv8, d': bv8)
    ensures Word4(a, b, c, d) < 0x1_0000_0000 && Word4(a', b', c', d') < 0x1_0000_0000
    ensures BitXor(Word4(a, b, c, d), Word4(a', b', c', d'))
            == Word4(XorByte(a, a'), XorByte(b, b'), XorByte(c, c'), XorByte(d, d'))
  {
    hide BitXor, Num, XorByte, Pow2, Shl;
    Xor2(a, b, a', b');
    Xor2(c, d, c', d');
    var x, x' := 0x100 * Num(a) + Num(b), 0x100 * Num(a') + Num(b');
    ShiftBytes(x);
    ShiftBytes(x');
    ShiftBytes(BitXor(x, x'));
    XorJoin(x, 0x100 * Num(c) + Num(d), x', 0x100 * Num(c') + Num(d'), 16);
  }

  lemma Xor8(a: bv8, b: bv8, c: bv8, d: bv8, e: bv8, f: bv8, g: bv8, h: bv8,
             a': bv8, b': bv8, c': bv8, d': bv8, e': bv8, f': bv8, g': bv8, h': bv8)
    ensures BitXor(Word8(a, b, c, d, e, f, g, h), Word8(a', b', c', d', e', f', g', h'))
            == Word8(XorByte(a, a'), XorByte(b, b'), XorByte(c, c'), XorByte(d, d'),
                     XorByte(e, e'), XorByte(f, f'), XorByte(g, g'), XorByte(h, h'))
  {
    hide BitXor, Num, XorByte, Word4, Pow2, Shl;
    Xor4(a, b, c, d, a', b', c', d');
    Xor4(e, f, g, h, e', f', g', h');
    ShiftBytes(Word4(a, b, c, d));
    ShiftBytes(Word4(a', b', c', d'));
    ShiftBytes(BitXor(Word4(a, b, c, d), Word4(a', b', c', d')));
    XorJoin(Word4(a, b, c, d), Word4(e, f, g, h), Word4(a', b', c', d'), Word4(e', f', g', h'), 32);
  }
}

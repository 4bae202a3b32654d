/** Reference answers of XXH32: what its parts do as plain arithmetic, and the hash in numbers of
    two inputs that together take every path of it. */
module Xxh32Answers {
  import opened Bits
  import opened LittleEndian
  import opened Words
  import opened XorBytes
  import opened Numbers
  import opened Xxh32

  // Plain arithmetic.

  lemma RotlIs(x: Word, r: nat, low: nat, high: nat)
    requires r <= 32 && low == Pow2(r) && high == Pow2(32 - r)
    ensures Rotl(x, r) == x / high + x % high * low
  {
    assert Pow2(32) == 0x1_0000_0000 by { Pow2Values(); }
    RotateIs(x, r, 32);
    Divides(x, 32 - r);
    ShlTimes(Low(x, 32 - r), r);
  }

  lemma Powers()
    ensures Pow2(1) == 0x2 && Pow2(31) == 0x80000000
    ensures Pow2(7) == 0x80 && Pow2(25) == 0x2000000
    ensures Pow2(11) == 0x800 && Pow2(21) == 0x200000
    ensures Pow2(12) == 0x1000 && Pow2(20) == 0x100000
    ensures Pow2(13) == 0x2000 && Pow2(19) == 0x80000
    ensures Pow2(17) == 0x20000 && Pow2(15) == 0x8000
    ensures Pow2(18) == 0x40000 && Pow2(14) == 0x4000
    ensures Pow2(16) == 0x1_0000
  {
    Pow2Values();
    hide Pow2;
    PowerSum(8, 3);
    PowerSum(12, 1);
    PowerSum(12, 2);
    PowerSum(12, 3);
    PowerSum(16, 1);
    PowerSum(16, 2);
    PowerSum(16, 3);
    PowerSum(16, 4);
    PowerSum(16, 5);
    PowerSum(16, 9);
    PowerSum(16, 15);
    PowerSum(8, 1);
    PowerSum(12, 8);
  }

  lemma Rotations(x: Word)
    ensures Rotl(x, 1) == x / 0x80000000 + x % 0x80000000 * 0x2
    ensures Rotl(x, 7) == x / 0x2000000 + x % 0x2000000 * 0x80
    ensures Rotl(x, 11) == x / 0x200000 + x % 0x200000 * 0x800
    ensures Rotl(x, 12) == x / 0x100000 + x % 0x100000 * 0x1000
    ensures Rotl(x, 13) == x / 0x80000 + x % 0x80000 * 0x2000
    ensures Rotl(x, 17) == x / 0x8000 + x % 0x8000 * 0x20000
    ensures Rotl(x, 18) == x / 0x4000 + x % 0x4000 * 0x40000
  {
    Powers();
    hide Pow2, Rotl;
    RotlIs(x, 1, 0x2, 0x80000000);
    RotlIs(x, 7, 0x80, 0x2000000);
    RotlIs(x, 11, 0x800, 0x200000);
    RotlIs(x, 12, 0x1000, 0x100000);
    RotlIs(x, 13, 0x2000, 0x80000);
    RotlIs(x, 17, 0x20000, 0x8000);
    RotlIs(x, 18, 0x40000, 0x4000);
  }

  /** One round: x is the sum that is turned by 13 bits, y the result of that. */
  lemma RoundIs(acc: Word, input: Word, x: nat, y: nat)
    requires x == (acc + input * 0x85EBCA77) % 0x1_0000_0000 && y == x / 0x8_0000 + x % 0x8_0000 * 0x2000
    ensures Round(acc, input) == y * 0x9E3779B1 % 0x1_0000_0000
  {
    hide Rotl;
    Sum(acc, input * 0x85EBCA77);
    Rotations(x);
  }

  lemma Sum(x: nat, y: nat)
    ensures (x + y % 0x1_0000_0000) % 0x1_0000_0000 == (x + y) % 0x1_0000_0000
  {
  }

  /** The lanes are turned by 1, 7, 12 and 18 bits and added up. */
  lemma ConvergeIs(v1: Word, v2: Word, v3: Word, v4: Word)
    ensures Converge(Lanes(v1, v2, v3, v4))
            == (Turned(v1, 1) + Turned(v2, 7) + Turned(v3, 12) + Turned(v4, 18)) % 0x1_0000_0000
  {
    hide Rotl, Add, Turned;
    AddFour(Rotl(v1, 1), Rotl(v2, 7), Rotl(v3, 12), Rotl(v4, 18));
    TurnedIs(v1);
    TurnedIs(v2);
    TurnedIs(v3);
    TurnedIs(v4);
  }

  lemma AddFour(a: Word, b: Word, c: Word, d: Word)
    ensures Add(Add(Add(a, b), c), d) == (a + b + c + d) % 0x1_0000_0000
  {
    Sum(c, a + b);
    Sum(d, a + b + c);
  }

  /** A rotation in numbers. */
  function Turned(v: Word, r: nat): nat
    requires r in {1, 7, 12, 18}
  {
    if r == 1 then v / 0x8000_0000 + v % 0x8000_0000 * 0x2
    else if r == 7 then v / 0x200_0000 + v % 0x200_0000 * 0x80
    else if r == 12 then v / 0x10_0000 + v % 0x10_0000 * 0x1000
    else v / 0x4000 + v % 0x4000 * 0x4_0000
  }

  lemma TurnedIs(v: Word)
    ensures Rotl(v, 1) == Turned(v, 1) && Rotl(v, 7) == Turned(v, 7)
    ensures Rotl(v, 12) == Turned(v, 12) && Rotl(v, 18) == Turned(v, 18)
  {
    hide Rotl;
    Rotations(v);
  }

  /** A unit of the tail: x is what its share makes of the hash, y that turned by 17 or 11 bits. */
  lemma UnitOf4(hash: Word, u: seq<U8>, x: nat, y: nat)
    requires |u| == 4 && x == (hash + Read32(u) * 0xC2B2AE3D) % 0x1_0000_0000
    requires y == x / 0x8000 + x % 0x8000 * 0x2_0000
    ensures MixUnit(hash, u) == y * 0x27D4EB2F % 0x1_0000_0000
  {
    hide Rotl, Read32;
    Sum(hash, Read32(u) * 0xC2B2AE3D);
    Rotations(x);
  }

  lemma UnitOf1(hash: Word, u: seq<U8>, x: nat, y: nat)
    requires |u| == 1 && x == (hash + (u[0] as int) * 0x165667B1) % 0x1_0000_0000
    requires y == x / 0x20_0000 + x % 0x20_0000 * 0x800
    ensures MixUnit(hash, u) == y * 0x9E3779B1 % 0x1_0000_0000
  {
    hide Rotl, Read32;
    Sum(hash, (u[0] as int) * 0x165667B1);
    Rotations(x);
  }

  lemma Word32At(s: seq<U8>, at: nat, first: nat)
    requires at + 4 <= |s| && forall i :: at <= i < at + 4 ==> s[i] == first + i - at
    ensures Read32(s[at..at + 4]) == first * 0x101_0101 + 0x302_0100
  {
    hide LE;
    FourBytes(s[at..at + 4]);
  }

  // The answers.

  lemma EmptyShift15()
    ensures XorShift(0x165667B1, 15) == 0x16564B1D
  {
    hide BitXor, Shr, Pow2;
    Powers();
    Divides(0x165667B1, 15);
    Xor4(0x16, 0x56, 0x67, 0xB1, 0x00, 0x00, 0x2C, 0xAC);
  }

  lemma EmptyShift13()
    ensures XorShift(0x7E00CC7B, 13) == 0x7E033C7D
  {
    hide BitXor, Shr, Pow2;
    Powers();
    Divides(0x7E00CC7B, 13);
    Xor4(0x7E, 0x00, 0xCC, 0x7B, 0x00, 0x03, 0xF0, 0x06);
  }

  lemma EmptyShift16()
    ensures XorShift(0x2CC5FC9, 16) == 0x2CC5D05
  {
    hide BitXor, Shr, Pow2;
    Powers();
    Divides(0x2CC5FC9, 16);
    Xor4(0x02, 0xCC, 0x5F, 0xC9, 0x00, 0x00, 0x02, 0xCC);
  }

  lemma EmptyAvalanche()
    ensures Avalanche(0x165667B1) == 0x2CC5D05
  {
    hide XorShift;
    EmptyShift15();
    EmptyShift13();
    EmptyShift16();
  }

  /** XXH32 of nothing, with seed 0. */
  lemma EmptyAnswer()
    ensures Hash([], 0) == 0x2CC5D05
  {
    EmptyAvalanche();
    hide Avalanche;
    assert Units([]) == [];
  }

  lemma StartOf21()
    ensures StartLanes(0x9E3779B1) == Lanes(0xC25ABDD9, 0x24234428, 0x9E3779B1, 0x0)
  {
  }

  lemma Lane1Of21()
    ensures Round(0xC25ABDD9, 0x3020100) == 0xECCB9862
  {
    hide *;
    RoundIs(0xC25ABDD9, 0x3020100, 0xA81334D9, 0x669B3502);
  }

  lemma Lane2Of21()
    ensures Round(0x24234428, 0x7060504) == 0xF6D64D32
  {
    hide *;
    RoundIs(0x24234428, 0x7060504, 0xD690C104, 0x18209AD2);
  }

  lemma Lane3Of21()
    ensures Round(0x9E3779B1, 0xB0A0908) == 0xDA2E7C3B
  {
    hide *;
    RoundIs(0x9E3779B1, 0xB0A0908, 0x1D59FC69, 0x3F8D23AB);
  }

  lemma Lane4Of21()
    ensures Round(0x0, 0xF0E0D0C) == 0x4601B75A
  {
    hide *;
    RoundIs(0x0, 0xF0E0D0C, 0x4BD78894, 0xF112897A);
  }

  lemma StripeOf21(s: seq<U8>)
    requires |s| == 16 && forall i :: 0 <= i < 16 ==> s[i] == i
    ensures AbsorbStripe(StartLanes(0x9E3779B1), s) == Lanes(0xECCB9862, 0xF6D64D32, 0xDA2E7C3B, 0x4601B75A)
  {
    hide Round, Read32, StartLanes;
    StartOf21();
    Word32At(s, 0, 0);
    Word32At(s, 4, 4);
    Word32At(s, 8, 8);
    Word32At(s, 12, 12);
    assert s[..4] == s[0..4] && s[12..] == s[12..16];
    Lane1Of21();
    Lane2Of21();
    Lane3Of21();
    Lane4Of21();
  }

  lemma ConvergeOf21()
    ensures Converge(Lanes(0xECCB9862, 0xF6D64D32, 0xDA2E7C3B, 0x4601B75A)) == 0x9EA9FE8
  {
    hide Converge;
    ConvergeIs(0xECCB9862, 0xF6D64D32, 0xDA2E7C3B, 0x4601B75A);
    assert Turned(0xECCB9862, 1) == 0xD99730C5;
    assert Turned(0xF6D64D32, 7) == 0x6B26997B;
    assert Turned(0xDA2E7C3B, 12) == 0xE7C3BDA2;
    assert Turned(0x4601B75A, 18) == 0xDD691806;
    hide Turned;
  }

  /** The four bytes after the stripe. */
  lemma FourOf21(u: seq<U8>)
    requires |u| == 4 && Read32(u) == 0x13121110
    ensures MixUnit(0x9EA9FFD, u) == 0xA6B367AD
  {
    hide *;
    UnitOf4(0x9EA9FFD, u, 0xD9F190CD, 0x219BB3E3);
  }

  /** And the last byte. */
  lemma OneOf21(u: seq<U8>)
    requires u == [20]
    ensures MixUnit(0xA6B367AD, u) == 0x85D80BBB
  {
    hide *;
    UnitOf1(0xA6B367AD, u, 0x65738181, 0x9C0C0B2B);
  }

  lemma StripeShift15()
    ensures XorShift(0x9EA9FF8, 15) == 0x9EA8C2D
  {
    hide BitXor, Shr, Pow2;
    Powers();
    Divides(0x9EA9FF8, 15);
    Xor4(0x09, 0xEA, 0x9F, 0xF8, 0x00, 0x00, 0x13, 0xD5);
  }

  lemma StripeShift13()
    ensures XorShift(0xBCF1AAEB, 13) == 0xBCF44D66
  {
    hide BitXor, Shr, Pow2;
    Powers();
    Divides(0xBCF1AAEB, 13);
    Xor4(0xBC, 0xF1, 0xAA, 0xEB, 0x00, 0x05, 0xE7, 0x8D);
  }

  lemma StripeShift16()
    ensures XorShift(0x2FBDC54E, 16) == 0x2FBDEAF3
  {
    hide BitXor, Shr, Pow2;
    Powers();
    Divides(0x2FBDC54E, 16);
    Xor4(0x2F, 0xBD, 0xC5, 0x4E, 0x00, 0x00, 0x2F, 0xBD);
  }

  lemma StripeAvalanche()
    ensures Avalanche(0x9EA9FF8) == 0x2FBDEAF3
  {
    hide XorShift;
    StripeShift15();
    StripeShift13();
    StripeShift16();
  }

  lemma StripeSum()
    ensures Add(0x9EA9FE8, Wrap(16)) == 0x9EA9FF8
  {
  }

  /** XXH32 of the bytes 0 to 15 with seed 2654435761: one stripe and nothing after it. */
  lemma StripeAnswer()
    ensures Hash(Counting(16), 0x9E3779B1) == 0x2FBDEAF3
  {
    hide *;
    var s := Counting(16);
    var lanes := StartLanes(0x9E3779B1);
    AbsorbNone(lanes, s);
    AbsorbNext(lanes, s, 0);
    StripeOf21(s[0..16]);
    ConvergeOf21();
    StripeSum();
    assert s[16..] == [];
    FinishNothing(0x9EA9FF8);
    StripeAvalanche();
    HashIs(s, 0x9E3779B1, 1);
  }

  lemma FinishNothing(h: Word)
    ensures Finish(h, []) == Avalanche(h)
  {
    hide Avalanche;
    assert Units([]) == [];
  }

  lemma LongShift15()
    ensures XorShift(0x85D80BBB, 15) == 0x85D9000B
  {
    hide BitXor, Shr, Pow2;
    Powers();
    Divides(0x85D80BBB, 15);
    Xor4(0x85, 0xD8, 0x0B, 0xBB, 0x00, 0x01, 0x0B, 0xB0);
  }

  lemma LongShift13()
    ensures XorShift(0x3300B31D, 13) == 0x33012B18
  {
    hide BitXor, Shr, Pow2;
    Powers();
    Divides(0x3300B31D, 13);
    Xor4(0x33, 0x00, 0xB3, 0x1D, 0x00, 0x01, 0x98, 0x05);
  }

  lemma LongShift16()
    ensures XorShift(0x194194B8, 16) == 0x19418DF9
  {
    hide BitXor, Shr, Pow2;
    Powers();
    Divides(0x194194B8, 16);
    Xor4(0x19, 0x41, 0x94, 0xB8, 0x00, 0x00, 0x19, 0x41);
  }

  lemma LongAvalanche()
    ensures Avalanche(0x85D80BBB) == 0x19418DF9
  {
    hide XorShift;
    LongShift15();
    LongShift13();
    LongShift16();
  }

  lemma TailOf21(t: seq<U8>)
    requires |t| == 5 && forall i :: 0 <= i < 5 ==> t[i] == 16 + i
    ensures Finish(0x9EA9FFD, t) == 0x19418DF9
  {
    hide MixUnit, Avalanche, Read32, Mix, Units;
    MixAt(0x9EA9FFD, t, 0, 4);
    Word32At(t, 0, 16);
    FourOf21(t[0..4]);
    MixAt(0xA6B367AD, t, 4, 1);
    OneOf21(t[4..5]);
    assert t[0..] == t && t[5..] == [];
    MixNothing(0x85D80BBB);
    LongAvalanche();
  }

  lemma LongSum()
    ensures Add(0x9EA9FE8, Wrap(21)) == 0x9EA9FFD
  {
  }

  /** XXH32 of the bytes 0 to 20 with seed 2654435761: a stripe, and a tail of 4 and 1 bytes. */
  lemma LongAnswer()
    ensures Hash(Counting(21), 0x9E3779B1) == 0x19418DF9
  {
    hide *;
    var s := Counting(21);
    var lanes := StartLanes(0x9E3779B1);
    AbsorbNone(lanes, s);
    AbsorbNext(lanes, s, 0);
    StripeOf21(s[0..16]);
    ConvergeOf21();
    LongSum();
    TailOf21(s[16..]);
    HashIs(s, 0x9E3779B1, 1);
  }
}

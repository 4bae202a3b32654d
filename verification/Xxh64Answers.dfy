/** Reference answers of XXH64: what its parts do as plain arithmetic, and the hash in numbers of
    two inputs that together take every path of it. */
module Xxh64Answers {
  import opened Bits
  import opened LittleEndian
  import opened Words
  import opened XorBytes
  import opened Numbers
  import opened Xxh64

  // Plain arithmetic.

  lemma Powers()
    ensures Pow2(1) == 0x2 && Pow2(63) == 0x8000000000000000
    ensures Pow2(7) == 0x80 && Pow2(57) == 0x200000000000000
    ensures Pow2(11) == 0x800 && Pow2(53) == 0x20000000000000
    ensures Pow2(12) == 0x1000 && Pow2(52) == 0x10000000000000
    ensures Pow2(18) == 0x40000 && Pow2(46) == 0x400000000000
    ensures Pow2(23) == 0x800000 && Pow2(41) == 0x20000000000
    ensures Pow2(27) == 0x8000000 && Pow2(37) == 0x2000000000
    ensures Pow2(31) == 0x80000000 && Pow2(33) == 0x200000000
    ensures Pow2(29) == 0x2000_0000 && Pow2(32) == 0x1_0000_0000 && Pow2(33) == 0x2_0000_0000
  {
    Pow2Values();
    hide Pow2;
    PowerSum(8, 3);
    PowerSum(16, 2);
    PowerSum(16, 7);
    PowerSum(16, 11);
    PowerSum(16, 12);
    PowerSum(8, 5);
    PowerSum(16, 13);
    PowerSum(8, 7);
    PowerSum(16, 15);
    PowerSum(32, 1);
    PowerSum(32, 5);
    PowerSum(8, 1);
    PowerSum(32, 9);
    PowerSum(8, 6);
    PowerSum(32, 14);
    PowerSum(16, 4);
    PowerSum(32, 20);
    PowerSum(16, 5);
    PowerSum(32, 21);
    PowerSum(16, 9);
    PowerSum(32, 25);
    PowerSum(32, 31);
  }

  /** The high r bits come down, the others go up. */
  lemma RotlIs(x: Word, r: nat, low: nat, high: nat)
    requires r <= 64 && low == Pow2(r) && high == Pow2(64 - r)
    ensures Rotl(x, r) == x / high + x % high * low
  {
    assert Pow2(64) == 0x1_0000_0000_0000_0000 by { Pow2Values(); }
    RotateIs(x, r, 64);
    Divides(x, 64 - r);
    ShlTimes(Low(x, 64 - r), r);
  }

  lemma Rotations(x: Word)
    ensures Rotl(x, 1) == x / 0x8000000000000000 + x % 0x8000000000000000 * 0x2
    ensures Rotl(x, 7) == x / 0x200000000000000 + x % 0x200000000000000 * 0x80
    ensures Rotl(x, 11) == x / 0x20000000000000 + x % 0x20000000000000 * 0x800
    ensures Rotl(x, 12) == x / 0x10000000000000 + x % 0x10000000000000 * 0x1000
    ensures Rotl(x, 18) == x / 0x400000000000 + x % 0x400000000000 * 0x40000
    ensures Rotl(x, 23) == x / 0x20000000000 + x % 0x20000000000 * 0x800000
    ensures Rotl(x, 27) == x / 0x2000000000 + x % 0x2000000000 * 0x8000000
    ensures Rotl(x, 31) == x / 0x200000000 + x % 0x200000000 * 0x80000000
  {
    Powers();
    hide Pow2, Rotl;
    RotlIs(x, 1, 0x2, 0x8000000000000000);
    RotlIs(x, 7, 0x80, 0x200000000000000);
    RotlIs(x, 11, 0x800, 0x20000000000000);
    RotlIs(x, 12, 0x1000, 0x10000000000000);
    RotlIs(x, 18, 0x40000, 0x400000000000);
    RotlIs(x, 23, 0x800000, 0x20000000000);
    RotlIs(x, 27, 0x8000000, 0x2000000000);
    RotlIs(x, 31, 0x80000000, 0x200000000);
  }

  /** One round: x is the sum that is turned by 31 bits, y the result of that. */
  lemma RoundIs(acc: Word, input: Word, x: nat, y: nat)
    requires x == (acc + input * 0xC2B2AE3D27D4EB4F) % 0x1_0000_0000_0000_0000
    requires y == x / 0x2_0000_0000 + x % 0x2_0000_0000 * 0x8000_0000
    ensures Round(acc, input) == y * 0x9E3779B185EBCA87 % 0x1_0000_0000_0000_0000
  {
    Rotations(Add(acc, Mul(input, PRIME_2)));
    hide Rotl;
    Sum(acc, input * 0xC2B2AE3D27D4EB4F);
  }

  lemma Sum(x: nat, y: nat)
    ensures (x + y % 0x1_0000_0000_0000_0000) % 0x1_0000_0000_0000_0000 == (x + y) % 0x1_0000_0000_0000_0000
  {
  }

  lemma AddFour(a: Word, b: Word, c: Word, d: Word)
    ensures Add(Add(Add(a, b), c), d) == (a + b + c + d) % 0x1_0000_0000_0000_0000
  {
    Sum(c, a + b);
    Sum(d, a + b + c);
  }

  /** The lanes are turned by 1, 7, 12 and 18 bits and added up, and then merged in one by one. */
  lemma ConvergeIs(v1: Word, v2: Word, v3: Word, v4: Word, h: Word)
    requires h == (Turned(v1, 1) + Turned(v2, 7) + Turned(v3, 12) + Turned(v4, 18)) % 0x1_0000_0000_0000_0000
    ensures Converge(Lanes(v1, v2, v3, v4)) == MergeRound(MergeRound(MergeRound(MergeRound(h, v1), v2), v3), v4)
  {
    hide Rotl, MergeRound, Add, Turned;
    AddFour(Rotl(v1, 1), Rotl(v2, 7), Rotl(v3, 12), Rotl(v4, 18));
    TurnedIs(v1);
    TurnedIs(v2);
    TurnedIs(v3);
    TurnedIs(v4);
  }

  /** A rotation in numbers. */
  function Turned(v: Word, r: nat): nat
    requires r in {1, 7, 12, 18}
  {
    if r == 1 then v / 0x8000_0000_0000_0000 + v % 0x8000_0000_0000_0000 * 0x2
    else if r == 7 then v / 0x200_0000_0000_0000 + v % 0x200_0000_0000_0000 * 0x80
    else if r == 12 then v / 0x10_0000_0000_0000 + v % 0x10_0000_0000_0000 * 0x1000
    else v / 0x4000_0000_0000 + v % 0x4000_0000_0000 * 0x4_0000
  }

  lemma TurnedIs(v: Word)
    ensures Rotl(v, 1) == Turned(v, 1) && Rotl(v, 7) == Turned(v, 7)
    ensures Rotl(v, 12) == Turned(v, 12) && Rotl(v, 18) == Turned(v, 18)
  {
    hide Rotl;
    Rotations(v);
  }

  lemma MergeIs(acc: Word, val: Word, r: Word, x: Word)
    requires r == Round(0, val) && x == BitXor(acc, r)
    ensures MergeRound(acc, val) == (x * 0x9E3779B185EBCA87 + 0x85EBCA77C2B2AE63) % 0x1_0000_0000_0000_0000
  {
    hide Round, BitXor;
    Sum(0x85EBCA77C2B2AE63, x * 0x9E3779B185EBCA87);
  }

  /** A unit of the tail: r is its share, x what that makes of the hash, y that turned by 27, 23
      or 11 bits. */
  lemma UnitOf8(hash: Word, u: seq<U8>, r: Word, x: Word, y: nat)
    requires |u| == 8 && r == Round(0, Read64(u)) && x == BitXor(hash, r)
    requires y == x / 0x20_0000_0000 + x % 0x20_0000_0000 * 0x800_0000
    ensures MixUnit(hash, u) == (y * 0x9E3779B185EBCA87 + 0x85EBCA77C2B2AE63) % 0x1_0000_0000_0000_0000
  {
    hide Round, BitXor, Rotl, Read64, Read32;
    Rotations(x);
    Sum(0x85EBCA77C2B2AE63, y * 0x9E3779B185EBCA87);
  }

  lemma UnitOf4(hash: Word, u: seq<U8>, r: Word, x: Word, y: nat)
    requires |u| == 4 && r == Read32(u) * 0x9E3779B185EBCA87 % 0x1_0000_0000_0000_0000 && x == BitXor(hash, r)
    requires y == x / 0x200_0000_0000 + x % 0x200_0000_0000 * 0x80_0000
    ensures MixUnit(hash, u) == (y * 0xC2B2AE3D27D4EB4F + 0x165667B19E3779F9) % 0x1_0000_0000_0000_0000
  {
    hide Round, BitXor, Rotl, Read64, Read32;
    Rotations(x);
    Sum(0x165667B19E3779F9, y * 0xC2B2AE3D27D4EB4F);
  }

  lemma UnitOf1(hash: Word, u: seq<U8>, r: Word, x: Word, y: nat)
    requires |u| == 1 && r == (u[0] as int) * 0x27D4EB2F165667C5 % 0x1_0000_0000_0000_0000 && x == BitXor(hash, r)
    requires y == x / 0x20_0000_0000_0000 + x % 0x20_0000_0000_0000 * 0x800
    ensures MixUnit(hash, u) == y * 0x9E3779B185EBCA87 % 0x1_0000_0000_0000_0000
  {
    hide Round, BitXor, Rotl, Read64, Read32;
    Rotations(x);
  }

  lemma Word64At(s: seq<U8>, at: nat, first: nat)
    requires at + 8 <= |s| && forall i :: at <= i < at + 8 ==> s[i] == first + i - at
    ensures Read64(s[at..at + 8]) == first * 0x101_0101_0101_0101 + 0x706_0504_0302_0100
  {
    hide LE;
    EightBytes(s[at..at + 8]);
  }

  lemma Word32At(s: seq<U8>, at: nat, first: nat)
    requires at + 4 <= |s| && forall i :: at <= i < at + 4 ==> s[i] == first + i - at
    ensures Read32(s[at..at + 4]) == first * 0x101_0101 + 0x302_0100
  {
    hide LE;
    FourBytes(s[at..at + 4]);
  }

  // The answers.

  lemma EmptyShift33()
    ensures XorShift(0x27D4EB2F165667C5, 33) == 0x27D4EB2F05BC1252
  {
    hide BitXor, Shr, Pow2;
    Powers();
    Divides(0x27D4EB2F165667C5, 33);
    Xor8(0x27, 0xD4, 0xEB, 0x2F, 0x16, 0x56, 0x67, 0xC5,
         0x00, 0x00, 0x00, 0x00, 0x13, 0xEA, 0x75, 0x97);
  }

  lemma EmptyShift29()
    ensures XorShift(0xBEB13DDA13C2ED4E, 29) == 0xBEB13DDFE64B039E
  {
    hide BitXor, Shr, Pow2;
    Powers();
    Divides(0xBEB13DDA13C2ED4E, 29);
    Xor8(0xBE, 0xB1, 0x3D, 0xDA, 0x13, 0xC2, 0xED, 0x4E,
         0x00, 0x00, 0x00, 0x05, 0xF5, 0x89, 0xEE, 0xD0);
  }

  lemma EmptyShift32()
    ensures XorShift(0xEF46DB37BE9E32AE, 32) == 0xEF46DB3751D8E999
  {
    hide BitXor, Shr, Pow2;
    Powers();
    Divides(0xEF46DB37BE9E32AE, 32);
    Xor8(0xEF, 0x46, 0xDB, 0x37, 0xBE, 0x9E, 0x32, 0xAE,
         0x00, 0x00, 0x00, 0x00, 0xEF, 0x46, 0xDB, 0x37);
  }

  lemma EmptyAvalanche()
    ensures Avalanche(0x27D4EB2F165667C5) == 0xEF46DB3751D8E999
  {
    hide XorShift;
    EmptyShift33();
    EmptyShift29();
    EmptyShift32();
  }

  /** XXH64 of nothing, with seed 0. */
  lemma EmptyAnswer()
    ensures Hash([], 0) == 0xEF46DB3751D8E999
  {
    EmptyAvalanche();
    hide Avalanche;
    assert Units([]) == [];
  }

  lemma StartOf45()
    ensures StartLanes(0x9E3779B1) == Lanes(0x60EA27EF4BF82F87, 0xC2B2AE3DC60C6500, 0x9E3779B1, 0x61C8864F184BAF2A)
  {
  }

  lemma Lane1Of45()
    ensures Round(0x60EA27EF4BF82F87, 0x706050403020100) == 0xE4962682C06B5E99
  {
    hide *;
    RoundIs(0x60EA27EF4BF82F87, 0x706050403020100,
            0x9C506BBEE4817E87, 0x7240BF43CE2835DF);
  }

  lemma Lane2Of45()
    ensures Round(0xC2B2AE3DC60C6500, 0xF0E0D0C0B0A0908) == 0xB3B4367C9FC32561
  {
    hide *;
    RoundIs(0xC2B2AE3DC60C6500, 0xF0E0D0C0B0A0908,
            0xBCC205AF170F8678, 0x8B87C33C5E6102D7);
  }

  lemma Lane3Of45()
    ensures Round(0x9E3779B1, 0x1716151413121110) == 0xBB07AB3348A1553F
  {
    hide *;
    RoundIs(0x9E3779B1, 0x1716151413121110,
            0xB8B86B13A7B46DA1, 0xD3DA36D0DC5C3589);
  }

  lemma Lane4Of45()
    ensures Round(0x61C8864F184BAF2A, 0x1F1E1D1C1B1A1918) == 0x8A25BB2D27F91C07
  {
    hide *;
    RoundIs(0x61C8864F184BAF2A, 0x1F1E1D1C1B1A1918,
            0xD92A0503DA427592, 0xED213AC96C950281);
  }

  lemma StripeOf45(s: seq<U8>)
    requires |s| == 32 && forall i :: 0 <= i < 32 ==> s[i] == i
    ensures AbsorbStripe(StartLanes(0x9E3779B1), s) == Lanes(0xE4962682C06B5E99, 0xB3B4367C9FC32561,
                                                             0xBB07AB3348A1553F, 0x8A25BB2D27F91C07)
  {
    hide Round, Read64, StartLanes;
    StartOf45();
    Word64At(s, 0, 0);
    Word64At(s, 8, 8);
    Word64At(s, 16, 16);
    Word64At(s, 24, 24);
    assert s[..8] == s[0..8] && s[24..] == s[24..32];
    Lane1Of45();
    Lane2Of45();
    Lane3Of45();
    Lane4Of45();
  }

  lemma Merge1Xor()
    ensures BitXor(0xAAF5FC3E7DB9252, 0x73B0E39F188CC92E) == 0x791FBC5CFF575B7C
  {
    hide BitXor;
    Xor8(0x0A, 0xAF, 0x5F, 0xC3, 0xE7, 0xDB, 0x92, 0x52,
         0x73, 0xB0, 0xE3, 0x9F, 0x18, 0x8C, 0xC9, 0x2E);
  }

  lemma Merge1Of45()
    ensures MergeRound(0xAAF5FC3E7DB9252, 0xE4962682C06B5E99) == 0xAF982571BEC7C4C7
  {
    hide *;
    Merge1Xor();
    RoundIs(0x0, 0xE4962682C06B5E99,
            0xBB8B25C496ACA437, 0x4B56521BDDC592E2);
    MergeIs(0xAAF5FC3E7DB9252, 0xE4962682C06B5E99, 0x73B0E39F188CC92E, 0x791FBC5CFF575B7C);
  }

  lemma Merge2Xor()
    ensures BitXor(0xAF982571BEC7C4C7, 0xF1458175E8D98AD5) == 0x5EDDA404561E4E12
  {
    hide BitXor;
    Xor8(0xAF, 0x98, 0x25, 0x71, 0xBE, 0xC7, 0xC4, 0xC7,
         0xF1, 0x45, 0x81, 0x75, 0xE8, 0xD9, 0x8A, 0xD5);
  }

  lemma Merge2Of45()
    ensures MergeRound(0xAF982571BEC7C4C7, 0xB3B4367C9FC32561) == 0xA9FD881ACE0DE1
  {
    hide *;
    Merge2Xor();
    RoundIs(0x0, 0xB3B4367C9FC32561,
            0x328615872BDC93EF, 0x95EE49F799430AC3);
    MergeIs(0xAF982571BEC7C4C7, 0xB3B4367C9FC32561, 0xF1458175E8D98AD5, 0x5EDDA404561E4E12);
  }

  lemma Merge3Xor()
    ensures BitXor(0xA9FD881ACE0DE1, 0xD14111DF2FEE2C54) == 0xD1E8EC57352021B5
  {
    hide BitXor;
    Xor8(0x00, 0xA9, 0xFD, 0x88, 0x1A, 0xCE, 0x0D, 0xE1,
         0xD1, 0x41, 0x11, 0xDF, 0x2F, 0xEE, 0x2C, 0x54);
  }

  lemma Merge3Of45()
    ensures MergeRound(0xA9FD881ACE0DE1, 0xBB07AB3348A1553F) == 0x23ED8D871B6446D6
  {
    hide *;
    Merge3Xor();
    RoundIs(0x0, 0xBB07AB3348A1553F,
            0x523EC419B4362371, 0xDA1B11B8A91F620C);
    MergeIs(0xA9FD881ACE0DE1, 0xBB07AB3348A1553F, 0xD14111DF2FEE2C54, 0xD1E8EC57352021B5);
  }

  lemma Merge4Xor()
    ensures BitXor(0x23ED8D871B6446D6, 0xB0030EAB0626B882) == 0x93EE832C1D42FE54
  {
    hide BitXor;
    Xor8(0x23, 0xED, 0x8D, 0x87, 0x1B, 0x64, 0x46, 0xD6,
         0xB0, 0x03, 0x0E, 0xAB, 0x06, 0x26, 0xB8, 0x82);
  }

  lemma Merge4Of45()
    ensures MergeRound(0x23ED8D871B6446D6, 0x8A25BB2D27F91C07) == 0x7279FC8728D114AF
  {
    hide *;
    Merge4Xor();
    RoundIs(0x0, 0x8A25BB2D27F91C07,
            0xC939B3DC49661329, 0x24B30994E49CD9EE);
    MergeIs(0x23ED8D871B6446D6, 0x8A25BB2D27F91C07, 0xB0030EAB0626B882, 0x93EE832C1D42FE54);
  }

  lemma SumOf45()
    ensures (  Turned(0xE4962682C06B5E99, 1) + Turned(0xB3B4367C9FC32561, 7)
             + Turned(0xBB07AB3348A1553F, 12) + Turned(0x8A25BB2D27F91C07, 18)) % 0x1_0000_0000_0000_0000 == 0xAAF5FC3E7DB9252
  {
    assert Turned(0xE4962682C06B5E99, 1) == 0xC92C4D0580D6BD33;
    assert Turned(0xB3B4367C9FC32561, 7) == 0xDA1B3E4FE192B0D9;
    assert Turned(0xBB07AB3348A1553F, 12) == 0x7AB3348A1553FBB0;
    assert Turned(0x8A25BB2D27F91C07, 18) == 0xECB49FE4701E2896;
    hide Turned;
  }

  lemma ConvergeOf45()
    ensures Converge(Lanes(0xE4962682C06B5E99, 0xB3B4367C9FC32561,
                           0xBB07AB3348A1553F, 0x8A25BB2D27F91C07)) == 0x7279FC8728D114AF
  {
    hide *;
    SumOf45();
    ConvergeIs(0xE4962682C06B5E99, 0xB3B4367C9FC32561,
               0xBB07AB3348A1553F, 0x8A25BB2D27F91C07, 0xAAF5FC3E7DB9252);
    Merge1Of45();
    Merge2Of45();
    Merge3Of45();
    Merge4Of45();
  }

  lemma EightXor()
    ensures BitXor(0x7279FC8728D114DC, 0x8E6D3B08ECFE83AD) == 0xFC14C78FC42F9771
  {
    hide BitXor;
    Xor8(0x72, 0x79, 0xFC, 0x87, 0x28, 0xD1, 0x14, 0xDC,
         0x8E, 0x6D, 0x3B, 0x08, 0xEC, 0xFE, 0x83, 0xAD);
  }

  /** The eight bytes after the stripe. */
  lemma EightOf45(u: seq<U8>)
    requires |u| == 8 && Read64(u) == 0x2726252423222120
    ensures MixUnit(0x7279FC8728D114DC, u) == 0xCFB6A5F9AA69B007
  {
    hide *;
    EightXor();
    RoundIs(0x0, 0x2726252423222120,
            0x360A92567A7098E0, 0x3D384C701B05492B);
    UnitOf8(0x7279FC8728D114DC, u, 0x8E6D3B08ECFE83AD, 0xFC14C78FC42F9771, 0x7E217CBB8FE0A63C);
  }

  lemma FourXor()
    ensures BitXor(0xCFB6A5F9AA69B007, 0x63C705E3976D4418) == 0xAC71A01A3D04F41F
  {
    hide BitXor;
    Xor8(0xCF, 0xB6, 0xA5, 0xF9, 0xAA, 0x69, 0xB0, 0x07,
         0x63, 0xC7, 0x05, 0xE3, 0x97, 0x6D, 0x44, 0x18);
  }

  /** The four bytes after those. */
  lemma FourOf45(u: seq<U8>)
    requires |u| == 4 && Read32(u) == 0x2B2A2928
    ensures MixUnit(0xCFB6A5F9AA69B007, u) == 0x4B4E6184E3B9F229
  {
    hide *;
    FourXor();
    UnitOf4(0xCFB6A5F9AA69B007, u, 0x63C705E3976D4418, 0xAC71A01A3D04F41F, 0xD1E827A0FD638D0);
  }

  lemma OneXor()
    ensures BitXor(0x4B4E6184E3B9F229, 0xD8986C17D6D9D5DC) == 0x93D60D93356027F5
  {
    hide BitXor;
    Xor8(0x4B, 0x4E, 0x61, 0x84, 0xE3, 0xB9, 0xF2, 0x29,
         0xD8, 0x98, 0x6C, 0x17, 0xD6, 0xD9, 0xD5, 0xDC);
  }

  /** And the last byte. */
  lemma OneOf45(u: seq<U8>)
    requires u == [44]
    ensures MixUnit(0x4B4E6184E3B9F229, u) == 0x31B5398971D2B352
  {
    hide *;
    OneXor();
    UnitOf1(0x4B4E6184E3B9F229, u, 0xD8986C17D6D9D5DC, 0x93D60D93356027F5, 0xB06C99AB013FAC9E);
  }

  lemma StripeShift33()
    ensures XorShift(0x7279FC8728D114CF, 33) == 0x7279FC8711EDEA8C
  {
    hide BitXor, Shr, Pow2;
    Powers();
    Divides(0x7279FC8728D114CF, 33);
    Xor8(0x72, 0x79, 0xFC, 0x87, 0x28, 0xD1, 0x14, 0xCF,
         0x00, 0x00, 0x00, 0x00, 0x39, 0x3C, 0xFE, 0x43);
  }

  lemma StripeShift29()
    ensures XorShift(0x2A7F0E417EA9E534, 29) == 0x2A7F0E402D51973F
  {
    hide BitXor, Shr, Pow2;
    Powers();
    Divides(0x2A7F0E417EA9E534, 29);
    Xor8(0x2A, 0x7F, 0x0E, 0x41, 0x7E, 0xA9, 0xE5, 0x34,
         0x00, 0x00, 0x00, 0x01, 0x53, 0xF8, 0x72, 0x0B);
  }

  lemma StripeShift32()
    ensures XorShift(0x718135470561E347, 32) == 0x7181354774E0D600
  {
    hide BitXor, Shr, Pow2;
    Powers();
    Divides(0x718135470561E347, 32);
    Xor8(0x71, 0x81, 0x35, 0x47, 0x05, 0x61, 0xE3, 0x47,
         0x00, 0x00, 0x00, 0x00, 0x71, 0x81, 0x35, 0x47);
  }

  lemma StripeAvalanche()
    ensures Avalanche(0x7279FC8728D114CF) == 0x7181354774E0D600
  {
    hide XorShift;
    StripeShift33();
    StripeShift29();
    StripeShift32();
  }

  lemma StripeSum()
    ensures Add(0x7279FC8728D114AF, Wrap(32)) == 0x7279FC8728D114CF
  {
  }

  /** XXH64 of the bytes 0 to 31 with seed 2654435761: one stripe and nothing after it. */
  lemma StripeAnswer()
    ensures Hash(Counting(32), 0x9E3779B1) == 0x7181354774E0D600
  {
    hide *;
    var s := Counting(32);
    var lanes := StartLanes(0x9E3779B1);
    AbsorbNone(lanes, s);
    AbsorbNext(lanes, s, 0);
    StripeOf45(s[0..32]);
    ConvergeOf45();
    StripeSum();
    assert s[32..] == [];
    FinishNothing(0x7279FC8728D114CF);
    StripeAvalanche();
    HashIs(s, 0x9E3779B1, 1);
  }

  lemma FinishNothing(h: Word)
    ensures Finish(h, []) == Avalanche(h)
  {
    hide Avalanche;
    assert Units([]) == [];
  }

  lemma LongShift33()
    ensures XorShift(0x31B5398971D2B352, 33) == 0x31B5398969082F96
  {
    hide BitXor, Shr, Pow2;
    Powers();
    Divides(0x31B5398971D2B352, 33);
    Xor8(0x31, 0xB5, 0x39, 0x89, 0x71, 0xD2, 0xB3, 0x52,
         0x00, 0x00, 0x00, 0x00, 0x18, 0xDA, 0x9C, 0xC4);
  }

  lemma LongShift29()
    ensures XorShift(0xA12069972F6D614A, 29) == 0xA1206992266E2DF3
  {
    hide BitXor, Shr, Pow2;
    Powers();
    Divides(0xA12069972F6D614A, 29);
    Xor8(0xA1, 0x20, 0x69, 0x97, 0x2F, 0x6D, 0x61, 0x4A,
         0x00, 0x00, 0x00, 0x05, 0x09, 0x03, 0x4C, 0xB9);
  }

  lemma LongShift32()
    ensures XorShift(0x24D78F5C4E178C5B, 32) == 0x24D78F5C6AC00307
  {
    hide BitXor, Shr, Pow2;
    Powers();
    Divides(0x24D78F5C4E178C5B, 32);
    Xor8(0x24, 0xD7, 0x8F, 0x5C, 0x4E, 0x17, 0x8C, 0x5B,
         0x00, 0x00, 0x00, 0x00, 0x24, 0xD7, 0x8F, 0x5C);
  }

  lemma LongAvalanche()
    ensures Avalanche(0x31B5398971D2B352) == 0x24D78F5C6AC00307
  {
    hide XorShift;
    LongShift33();
    LongShift29();
    LongShift32();
  }

  lemma TailOf45(t: seq<U8>)
    requires |t| == 13 && forall i :: 0 <= i < 13 ==> t[i] == 32 + i
    ensures Finish(0x7279FC8728D114DC, t) == 0x24D78F5C6AC00307
  {
    hide MixUnit, Avalanche, Read64, Read32, Mix, Units;
    MixAt(0x7279FC8728D114DC, t, 0, 8);
    Word64At(t, 0, 32);
    EightOf45(t[0..8]);
    MixAt(0xCFB6A5F9AA69B007, t, 8, 4);
    Word32At(t, 8, 40);
    FourOf45(t[8..12]);
    MixAt(0x4B4E6184E3B9F229, t, 12, 1);
    OneOf45(t[12..13]);
    assert t[0..] == t && t[13..] == [];
    MixNothing(0x31B5398971D2B352);
    LongAvalanche();
  }

  lemma LongSum()
    ensures Add(0x7279FC8728D114AF, Wrap(45)) == 0x7279FC8728D114DC
  {
  }

  /** XXH64 of the bytes 0 to 44 with seed 2654435761: a stripe, and a tail of 8, 4 and 1 bytes. */
  lemma LongAnswer()
    ensures Hash(Counting(45), 0x9E3779B1) == 0x24D78F5C6AC00307
  {
    hide *;
    var s := Counting(45);
    var lanes := StartLanes(0x9E3779B1);
    AbsorbNone(lanes, s);
    AbsorbNext(lanes, s, 0);
    StripeOf45(s[0..32]);
    ConvergeOf45();
    LongSum();
    TailOf45(s[32..]);
    HashIs(s, 0x9E3779B1, 1);
  }
}

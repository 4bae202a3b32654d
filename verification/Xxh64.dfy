/** XXH64 as a function of the whole input and the seed. */
module Xxh64 {
  import opened Bits
  import opened LittleEndian
  import opened Words

  const WORD_RANGE: nat := 0x1_0000_0000_0000_0000

  /** A 64-bit word. */
  type Word = x: nat | x < 0x1_0000_0000_0000_0000

  const PRIME_1: Word := 0x9E3779B185EBCA87
  const PRIME_2: Word := 0xC2B2AE3D27D4EB4F
  const PRIME_3: Word := 0x165667B19E3779F9
  const PRIME_4: Word := 0x85EBCA77C2B2AE63
  const PRIME_5: Word := 0x27D4EB2F165667C5

  /** A length as an unsigned 64-bit integer. */
  function Wrap(n: nat): Word
  {
    n % 0x1_0000_0000_0000_0000
  }

  // Words.

  function Add(x: Word, y: Word): Word { (x + y) % 0x1_0000_0000_0000_0000 }

  function Sub(x: Word, y: Word): Word { (x - y) % 0x1_0000_0000_0000_0000 }

  function Mul(x: Word, k: Word): Word { (x * k) % 0x1_0000_0000_0000_0000 }

  function Xor(x: Word, y: Word): Word
  {
    Pow2Values();
    XorBound(x, y, 64);
    BitXor(x, y)
  }

  /** x ^= x >> r. */
  function XorShift(x: Word, r: nat): Word
  {
    Pow2Values();
    ShrLess(x, r);
    XorBound(x, Shr(x, r), 64);
    BitXor(x, Shr(x, r))
  }

  function Rotl(x: Word, r: nat): Word
    requires r <= 64
  {
    Pow2Values();
    RotateIs(x, r, 64);
    Rotate(x, r, 64)
  }

  function Round(acc: Word, input: Word): Word
  {
    Mul(Rotl(Add(acc, Mul(input, PRIME_2)), 31), PRIME_1)
  }

  function MergeRound(acc: Word, val: Word): Word
  {
    Add(Mul(Xor(acc, Round(0, val)), PRIME_1), PRIME_4)
  }

  function Avalanche(hash: Word): Word
  {
    var a := Mul(XorShift(hash, 33), PRIME_2);
    var b := Mul(XorShift(a, 29), PRIME_3);
    XorShift(b, 32)
  }

  /** XXH_readLE32. */
  function Read32(s: seq<U8>): Word
    requires |s| == 4
  {
    Pow2Values();
    LEBound(s);
    LE(s)
  }

  /** XXH_readLE64. */
  function Read64(s: seq<U8>): Word
    requires |s| == 8
  {
    Pow2Values();
    LEBound(s);
    LE(s)
  }

  // The definition of the hash.

  /** The four accumulator lanes. */
  datatype Lanes = Lanes(v1: Word, v2: Word, v3: Word, v4: Word)

  function StartLanes(seed: Word): Lanes
  {
    Lanes(Add(Add(seed, PRIME_1), PRIME_2), Add(seed, PRIME_2), seed, Sub(seed, PRIME_1))
  }

  function AbsorbStripe(lanes: Lanes, stripe: seq<U8>): Lanes
    requires |stripe| == 32
  {
    Lanes(Round(lanes.v1, Read64(stripe[..8])), Round(lanes.v2, Read64(stripe[8..16])),
          Round(lanes.v3, Read64(stripe[16..24])), Round(lanes.v4, Read64(stripe[24..])))
  }

  /** The lanes after the first `n` stripes of `s`. */
  function Absorb(lanes: Lanes, s: seq<U8>, n: nat): Lanes
    requires 32 * n <= |s|
  {
    if n == 0 then lanes else AbsorbStripe(Absorb(lanes, s, n - 1), s[32 * (n - 1)..32 * n])
  }

  function Converge(lanes: Lanes): Word
  {
    var h := Add(Add(Add(Rotl(lanes.v1, 1), Rotl(lanes.v2, 7)), Rotl(lanes.v3, 12)), Rotl(lanes.v4, 18));
    MergeRound(MergeRound(MergeRound(MergeRound(h, lanes.v1), lanes.v2), lanes.v3), lanes.v4)
  }

  predicate IsUnit(u: seq<U8>) { |u| == 8 || |u| == 4 || |u| == 1 }

  /** How a tail is taken up: whole 8-byte words, then one 4-byte word, then single bytes. */
  function UnitSize(left: nat): (size: nat)
    requires left > 0
    ensures 0 < size <= left && (size == 8 || size == 4 || size == 1)
  {
    if left >= 8 then 8 else if left >= 4 then 4 else 1
  }

  function Units(tail: seq<U8>): (units: seq<seq<U8>>)
    ensures forall i :: 0 <= i < |units| ==> IsUnit(units[i])
    decreases |tail|
  {
    if tail == [] then [] else [tail[..UnitSize(|tail|)]] + Units(tail[UnitSize(|tail|)..])
  }

  function MixUnit(hash: Word, u: seq<U8>): Word
    requires IsUnit(u)
  {
    if |u| == 8 then Add(Mul(Rotl(Xor(hash, Round(0, Read64(u))), 27), PRIME_1), PRIME_4)
    else if |u| == 4 then Add(Mul(Rotl(Xor(hash, Mul(Read32(u), PRIME_1)), 23), PRIME_2), PRIME_3)
    else Mul(Rotl(Xor(hash, Mul(u[0], PRIME_5)), 11), PRIME_1)
  }

  function Mix(hash: Word, units: seq<seq<U8>>): Word
    requires forall i :: 0 <= i < |units| ==> IsUnit(units[i])
    decreases |units|
  {
    if units == [] then hash else Mix(MixUnit(hash, units[0]), units[1..])
  }

  function Finish(hash: Word, tail: seq<U8>): Word
  {
    Avalanche(Mix(hash, Units(tail)))
  }

  /** The hash of a whole input. */
  function Hash(input: seq<U8>, seed: Word): Word
  {
    var stripes := |input| / 32;
    var h := if |input| >= 32 then Converge(Absorb(StartLanes(seed), input, stripes)) else Add(seed, PRIME_5);
    Finish(Add(h, Wrap(|input|)), input[32 * stripes..])
  }

  // Unfolding the definition.

  lemma MixUnitIs(hash: Word, u: seq<U8>)
    requires IsUnit(u)
    ensures |u| == 8 ==> MixUnit(hash, u) == Add(Mul(Rotl(Xor(hash, Round(0, Read64(u))), 27), PRIME_1), PRIME_4)
    ensures |u| == 4 ==> MixUnit(hash, u) == Add(Mul(Rotl(Xor(hash, Mul(Read32(u), PRIME_1)), 23), PRIME_2), PRIME_3)
    ensures |u| == 1 ==> MixUnit(hash, u) == Mul(Rotl(Xor(hash, Mul(u[0], PRIME_5)), 11), PRIME_1)
  {
    hide Add, Mul, Xor, Rotl, Round, Read64, Read32;
  }

  /** One unit taken off the tail that starts at `i`. */
  lemma MixAt(hash: Word, tail: seq<U8>, i: nat, size: nat)
    requires i < |tail| && size == UnitSize(|tail| - i)
    ensures IsUnit(tail[i..i + size])
    ensures Mix(hash, Units(tail[i..])) == Mix(MixUnit(hash, tail[i..i + size]), Units(tail[i + size..]))
  {
    hide MixUnit;
    var left := tail[i..];
    assert left[..size] == tail[i..i + size] && left[size..] == tail[i + size..];
    assert Units(left) == [left[..size]] + Units(left[size..]);
    assert Units(left)[1..] == Units(left[size..]);
  }

  /** How a tail is cut up: as many words of eight bytes as it has, one of four if four bytes are
      left then, and the last up to three bytes one by one. */
  lemma {:induction false} UnitsAre(tail: seq<U8>)
    ensures |Units(tail)| == UnitCount(|tail|)
    ensures forall i :: 0 <= i < |Units(tail)| ==> |Units(tail)[i]| == SizeAt(|tail|, i)
    decreases |tail|
  {
    if tail != [] {
      var size := UnitSize(|tail|);
      OneLess(|tail|);
      UnitsAre(tail[size..]);
      assert Units(tail) == [tail[..size]] + Units(tail[size..]);
      hide UnitCount, SizeAt, UnitSize;
    }
  }

  function UnitCount(n: nat): nat
  {
    n / 8 + n % 8 / 4 + n % 4
  }

  function SizeAt(n: nat, i: nat): nat
  {
    if i < n / 8 then 8 else if i < n / 8 + n % 8 / 4 then 4 else 1
  }

  lemma OneLess(n: nat)
    requires n > 0
    ensures var size := UnitSize(n);
            && UnitCount(n) == 1 + UnitCount(n - size) && SizeAt(n, 0) == size
            && forall i: nat :: i > 0 ==> SizeAt(n, i) == SizeAt(n - size, i - 1)
  {
    if n >= 8 {
      EightLess(n);
      assert UnitSize(n) == 8;
    } else {
      assert n / 8 == 0 && n % 8 == n;
    }
  }

  lemma EightLess(n: nat)
    requires n >= 8
    ensures n / 8 == 1 + (n - 8) / 8 && n % 8 == (n - 8) % 8 && n % 4 == (n - 8) % 4
  {
    RemainderUnique(n, 8, 1 + (n - 8) / 8, (n - 8) % 8);
    RemainderUnique(n, 4, 2 + (n - 8) / 4, (n - 8) % 4);
  }

  lemma MixNothing(hash: Word)
    ensures Mix(hash, Units([])) == hash
  {
  }

  lemma AbsorbNone(lanes: Lanes, s: seq<U8>)
    ensures Absorb(lanes, s, 0) == lanes
  {
  }

  lemma AbsorbNext(lanes: Lanes, s: seq<U8>, n: nat)
    requires 32 * n + 32 <= |s|
    ensures Absorb(lanes, s, n + 1) == AbsorbStripe(Absorb(lanes, s, n), s[32 * n..32 * n + 32])
  {
    hide AbsorbStripe;
  }

  /** The lanes depend on the absorbed stripes alone. */
  lemma {:induction false} AbsorbPrefix(lanes: Lanes, s: seq<U8>, t: seq<U8>, n: nat)
    requires 32 * n <= |s| && 32 * n <= |t| && s[..32 * n] == t[..32 * n]
    ensures Absorb(lanes, s, n) == Absorb(lanes, t, n)
  {
    hide AbsorbStripe;
    if n > 0 {
      var m := 32 * (n - 1);
      assert s[..m] == s[..32 * n][..m] && t[..m] == t[..32 * n][..m];
      AbsorbPrefix(lanes, s, t, n - 1);
      assert s[m..32 * n] == s[..32 * n][m..] && t[m..32 * n] == t[..32 * n][m..];
    }
  }

  lemma StripeAt(lanes: Lanes, s: seq<U8>, at: nat)
    requires at + 32 <= |s|
    ensures AbsorbStripe(lanes, s[at..at + 32])
            == Lanes(Round(lanes.v1, Read64(s[at..at + 8])), Round(lanes.v2, Read64(s[at + 8..at + 16])),
                     Round(lanes.v3, Read64(s[at + 16..at + 24])), Round(lanes.v4, Read64(s[at + 24..at + 32])))
  {
    hide Round, Read64;
    var stripe := s[at..at + 32];
    assert stripe[..8] == s[at..at + 8];
    assert forall k :: 0 <= k < 8 ==> stripe[8..16][k] == s[at + 8..at + 16][k];
    assert stripe[8..16] == s[at + 8..at + 16];
    assert forall k :: 0 <= k < 8 ==> stripe[16..24][k] == s[at + 16..at + 24][k];
    assert stripe[16..24] == s[at + 16..at + 24];
    assert stripe[24..] == s[at + 24..at + 32];
  }

  lemma HashIs(input: seq<U8>, seed: Word, n: nat)
    requires 32 * n <= |input| < 32 * n + 32
    ensures var h := if |input| >= 32 then Converge(Absorb(StartLanes(seed), input, n)) else Add(seed, PRIME_5);
            Hash(input, seed) == Finish(Add(h, Wrap(|input|)), input[32 * n..])
  {
    hide Add, Converge, Absorb, StartLanes, Finish, Wrap;
    assert n == |input| / 32;
  }

  lemma SeedLane(seed: Word)
    ensures StartLanes(seed).v3 == seed
  {
  }

  // One-shot computation.

  /** XXH64_finalize, on the first `len % 32` bytes at `ptr`. */
  method Finalize(hash: Word, ptr: seq<U8>, len: nat) returns (h: Word)
    requires |ptr| >= len % 32
    ensures h == Finish(hash, ptr[..len % 32])
  {
    hide MixUnit, Mix, Units, Add, Mul, Xor, Rotl, Round, Read64, Read32, Avalanche;
    var tail := ptr[..len % 32];
    h := hash;
    var i := 0;
    assert tail[0..] == tail;
    while |tail| - i >= 8
      invariant i <= |tail|
      invariant Mix(h, Units(tail[i..])) == Mix(hash, Units(tail))
    {
      MixAt(h, tail, i, 8);
      MixUnitIs(h, tail[i..i + 8]);
      h := Xor(h, Round(0, Read64(tail[i..i + 8])));
      h := Add(Mul(Rotl(h, 27), PRIME_1), PRIME_4);
      i := i + 8;
    }
    if |tail| - i >= 4 {
      MixAt(h, tail, i, 4);
      MixUnitIs(h, tail[i..i + 4]);
      h := Xor(h, Mul(Read32(tail[i..i + 4]), PRIME_1));
      h := Add(Mul(Rotl(h, 23), PRIME_2), PRIME_3);
      i := i + 4;
    }
    while i < |tail|
      invariant |tail| - 4 < i <= |tail|
      invariant Mix(h, Units(tail[i..])) == Mix(hash, Units(tail))
    {
      MixAt(h, tail, i, 1);
      MixUnitIs(h, tail[i..i + 1]);
      var byte: U8 := ptr[i];
      assert tail[i] == tail[i..i + 1][0] == byte;
      h := Xor(h, Mul(byte, PRIME_5));
      h := Mul(Rotl(h, 11), PRIME_1);
      i := i + 1;
    }
    assert tail[i..] == [];
    MixNothing(h);
    h := Avalanche(h);
  }

  /** How the lanes flow together, one MergeRound at a time. */
  method ConvergeLanes(v1: Word, v2: Word, v3: Word, v4: Word) returns (h: Word)
    ensures h == Converge(Lanes(v1, v2, v3, v4))
  {
    hide Add, Rotl, MergeRound;
    h := Add(Add(Add(Rotl(v1, 1), Rotl(v2, 7)), Rotl(v3, 12)), Rotl(v4, 18));
    h := MergeRound(h, v1);
    h := MergeRound(h, v2);
    h := MergeRound(h, v3);
    h := MergeRound(h, v4);
  }

  /** XXH64, by way of XXH64_endian_align. */
  method OneShot(input: seq<U8>, seed: Word) returns (h: Word)
    ensures h == Hash(input, seed)
  {
    hide Absorb, AbsorbStripe, Add, Sub, Round, Read64, Converge, Finish, Wrap;
    var len := |input|;
    var p := 0;
    if len >= 32 {
      var limit := len - 31;
      var v1, v2, v3, v4 := Add(Add(seed, PRIME_1), PRIME_2), Add(seed, PRIME_2), seed, Sub(seed, PRIME_1);
      ghost var start := StartLanes(seed);
      AbsorbNone(start, input);
      ghost var n := 0;
      while p < limit
        invariant p == 32 * n <= len
        invariant Lanes(v1, v2, v3, v4) == Absorb(start, input, n)
      {
        AbsorbNext(start, input, n);
        StripeAt(Lanes(v1, v2, v3, v4), input, p);
        v1 := Round(v1, Read64(input[p..p + 8]));
        p := p + 8;
        v2 := Round(v2, Read64(input[p..p + 8]));
        p := p + 8;
        v3 := Round(v3, Read64(input[p..p + 8]));
        p := p + 8;
        v4 := Round(v4, Read64(input[p..p + 8]));
        p := p + 8;
        n := n + 1;
      }
      h := ConvergeLanes(v1, v2, v3, v4);
    } else {
      h := Add(seed, PRIME_5);
    }
    h := Add(h, Wrap(len));
    assert input[p..] == input[p..][..len % 32];
    h := Finalize(h, input[p..], len);
  }
}

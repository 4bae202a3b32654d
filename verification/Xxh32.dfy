/** XXH32 as a function of the whole input and the seed. */
module Xxh32 {
  import opened Bits
  import opened LittleEndian
  import opened Words
  import opened Pieces

  const WORD_RANGE: nat := 0x1_0000_0000

  /** A 32-bit word. */
  type Word = x: nat | x < 0x1_0000_0000

  const PRIME_1: Word := 0x9E3779B1
  const PRIME_2: Word := 0x85EBCA77
  const PRIME_3: Word := 0xC2B2AE3D
  const PRIME_4: Word := 0x27D4EB2F
  const PRIME_5: Word := 0x165667B1

  /** A length as an unsigned 32-bit integer. */
  function Wrap(n: nat): Word
  {
    n % 0x1_0000_0000
  }

  // Words.

  function Add(x: Word, y: Word): Word { (x + y) % 0x1_0000_0000 }

  function Sub(x: Word, y: Word): Word { (x - y) % 0x1_0000_0000 }

  function Mul(x: Word, k: Word): Word { (x * k) % 0x1_0000_0000 }

  /** x ^= x >> r. */
  function XorShift(x: Word, r: nat): Word
  {
    Pow2Values();
    ShrLess(x, r);
    XorBound(x, Shr(x, r), 32);
    BitXor(x, Shr(x, r))
  }

  function Rotl(x: Word, r: nat): Word
    requires r <= 32
  {
    Pow2Values();
    RotateIs(x, r, 32);
    Rotate(x, r, 32)
  }

  function Round(acc: Word, input: Word): Word
  {
    Mul(Rotl(Add(acc, Mul(input, PRIME_2)), 13), PRIME_1)
  }

  function Avalanche(hash: Word): Word
  {
    var a := Mul(XorShift(hash, 15), PRIME_2);
    var b := Mul(XorShift(a, 13), PRIME_3);
    XorShift(b, 16)
  }

  /** XXH_readLE32. */
  function Read32(s: seq<U8>): Word
    requires |s| == 4
  {
    Pow2Values();
    LEBound(s);
    LE(s)
  }

  // The definition of the hash.

  /** The four accumulator lanes. */
  datatype Lanes = Lanes(v1: Word, v2: Word, v3: Word, v4: Word)

  function StartLanes(seed: Word): Lanes
  {
    Lanes(Add(Add(seed, PRIME_1), PRIME_2), Add(seed, PRIME_2), seed, Sub(seed, PRIME_1))
  }

  function AbsorbStripe(lanes: Lanes, stripe: seq<U8>): Lanes
    requires |stripe| == 16
  {
    Lanes(Round(lanes.v1, Read32(stripe[..4])), Round(lanes.v2, Read32(stripe[4..8])),
          Round(lanes.v3, Read32(stripe[8..12])), Round(lanes.v4, Read32(stripe[12..])))
  }

  /** The lanes after the first `n` stripes of `s`. */
  function Absorb(lanes: Lanes, s: seq<U8>, n: nat): Lanes
    requires 16 * n <= |s|
  {
    if n == 0 then lanes else AbsorbStripe(Absorb(lanes, s, n - 1), s[16 * (n - 1)..16 * n])
  }

  function Converge(lanes: Lanes): Word
  {
    Add(Add(Add(Rotl(lanes.v1, 1), Rotl(lanes.v2, 7)), Rotl(lanes.v3, 12)), Rotl(lanes.v4, 18))
  }

  predicate IsUnit(u: seq<U8>) { |u| == 4 || |u| == 1 }

  /** How a tail is taken up: whole 4-byte words, then single bytes. */
  function UnitSize(left: nat): (size: nat)
    requires left > 0
    ensures 0 < size <= left && (size == 4 || size == 1)
  {
    if left >= 4 then 4 else 1
  }

  function Units(tail: seq<U8>): (units: seq<seq<U8>>)
    ensures forall i :: 0 <= i < |units| ==> IsUnit(units[i])
    decreases |tail|
  {
    if tail == [] then [] else [tail[..UnitSize(|tail|)]] + Units(tail[UnitSize(|tail|)..])
  }

  function MixUnit(hash: Word, u: seq<U8>): Word
    requires IsUnit(u)
  {
    if |u| == 4 then Mul(Rotl(Add(hash, Mul(Read32(u), PRIME_3)), 17), PRIME_4)
    else Mul(Rotl(Add(hash, Mul(u[0], PRIME_5)), 11), PRIME_1)
  }

  function Mix(hash: Word, units: seq<seq<U8>>): Word
    requires forall i :: 0 <= i < |units| ==> IsUnit(units[i])
    decreases |units|
  {
    if units == [] then hash else Mix(MixUnit(hash, units[0]), units[1..])
  }

  function Finish(hash: Word, tail: seq<U8>): Word
  {
    Avalanche(Mix(hash, Units(tail)))
  }

  /** The hash of a whole input. */
  function Hash(input: seq<U8>, seed: Word): Word
  {
    var stripes := |input| / 16;
    var h := if |input| >= 16 then Converge(Absorb(StartLanes(seed), input, stripes)) else Add(seed, PRIME_5);
    Finish(Add(h, Wrap(|input|)), input[16 * stripes..])
  }

  // Unfolding the definition.

  lemma MixUnitIs(hash: Word, u: seq<U8>)
    requires IsUnit(u)
    ensures |u| == 4 ==> MixUnit(hash, u) == Mul(Rotl(Add(hash, Mul(Read32(u), PRIME_3)), 17), PRIME_4)
    ensures |u| == 1 ==> MixUnit(hash, u) == Mul(Rotl(Add(hash, Mul(u[0], PRIME_5)), 11), PRIME_1)
  {
    hide Add, Mul, Rotl, Read32;
  }

  /** One unit taken off the tail that starts at `i`. */
  lemma MixAt(hash: Word, tail: seq<U8>, i: nat, size: nat)
    requires i < |tail| && size == UnitSize(|tail| - i)
    ensures IsUnit(tail[i..i + size])
    ensures Mix(hash, Units(tail[i..])) == Mix(MixUnit(hash, tail[i..i + size]), Units(tail[i + size..]))
  {
    hide MixUnit;
    var left := tail[i..];
    assert left[..size] == tail[i..i + size] && left[size..] == tail[i + size..];
    assert Units(left) == [left[..size]] + Units(left[size..]);
    assert Units(left)[1..] == Units(left[size..]);
  }

  /** How a tail is cut up: as many words of four bytes as it has, and the last up to three bytes
      one by one. */
  lemma {:induction false} UnitsAre(tail: seq<U8>)
    ensures var n := |tail|;
            |Units(tail)| == n / 4 + n % 4
            && forall i :: 0 <= i < |Units(tail)| ==>
                 |Units(tail)[i]| == if i < n / 4 then 4 else 1
    decreases |tail|
  {
    var n := |tail|;
    if n > 0 {
      var size := UnitSize(n);
      UnitsAre(tail[size..]);
      assert Units(tail) == [tail[..size]] + Units(tail[size..]);
    }
  }

  lemma {:induction false} UnitsJoin(tail: seq<U8>)
    ensures Joined(Units(tail)) == tail
    decreases |tail|
  {
    if tail != [] {
      UnitsJoin(tail[UnitSize(|tail|)..]);
      assert Units(tail)[1..] == Units(tail[UnitSize(|tail|)..]);
    }
  }

  lemma MixNothing(hash: Word)
    ensures Mix(hash, Units([])) == hash
  {
  }

  lemma AbsorbNone(lanes: Lanes, s: seq<U8>)
    ensures Absorb(lanes, s, 0) == lanes
  {
  }

  lemma AbsorbNext(lanes: Lanes, s: seq<U8>, n: nat)
    requires 16 * n + 16 <= |s|
    ensures Absorb(lanes, s, n + 1) == AbsorbStripe(Absorb(lanes, s, n), s[16 * n..16 * n + 16])
  {
    hide AbsorbStripe;
  }

  /** The lanes depend on the absorbed stripes alone. */
  lemma {:induction false} AbsorbPrefix(lanes: Lanes, s: seq<U8>, t: seq<U8>, n: nat)
    requires 16 * n <= |s| && 16 * n <= |t| && s[..16 * n] == t[..16 * n]
    ensures Absorb(lanes, s, n) == Absorb(lanes, t, n)
  {
    hide AbsorbStripe;
    if n > 0 {
      var m := 16 * (n - 1);
      assert s[..m] == s[..16 * n][..m] && t[..m] == t[..16 * n][..m];
      AbsorbPrefix(lanes, s, t, n - 1);
      assert s[m..16 * n] == s[..16 * n][m..] && t[m..16 * n] == t[..16 * n][m..];
    }
  }

  lemma StripeAt(lanes: Lanes, s: seq<U8>, at: nat)
    requires at + 16 <= |s|
    ensures AbsorbStripe(lanes, s[at..at + 16])
            == Lanes(Round(lanes.v1, Read32(s[at..at + 4])), Round(lanes.v2, Read32(s[at + 4..at + 8])),
                     Round(lanes.v3, Read32(s[at + 8..at + 12])), Round(lanes.v4, Read32(s[at + 12..at + 16])))
  {
    hide Round, Read32;
    var stripe := s[at..at + 16];
    assert stripe[..4] == s[at..at + 4];
    assert forall k :: 0 <= k < 4 ==> stripe[4..8][k] == s[at + 4..at + 8][k];
    assert stripe[4..8] == s[at + 4..at + 8];
    assert forall k :: 0 <= k < 4 ==> stripe[8..12][k] == s[at + 8..at + 12][k];
    assert stripe[8..12] == s[at + 8..at + 12];
    assert stripe[12..] == s[at + 12..at + 16];
  }

  lemma HashIs(input: seq<U8>, seed: Word, n: nat)
    requires 16 * n <= |input| < 16 * n + 16
    ensures var h := if |input| >= 16 then Converge(Absorb(StartLanes(seed), input, n)) else Add(seed, PRIME_5);
            Hash(input, seed) == Finish(Add(h, Wrap(|input|)), input[16 * n..])
  {
    hide Add, Converge, Absorb, StartLanes, Finish, Wrap;
    assert n == |input| / 16;
  }

  lemma SeedLane(seed: Word)
    ensures StartLanes(seed).v3 == seed
  {
  }

  // One-shot computation.

  /** XXH_PROCESS4: one word of the tail. */
  method Process4(hash: Word, tail: seq<U8>, i: nat) returns (h: Word, next: nat)
    requires i + 4 <= |tail|
    ensures next == i + 4 && Mix(h, Units(tail[next..])) == Mix(hash, Units(tail[i..]))
  {
    MixAt(hash, tail, i, 4);
    hide MixUnit, Mix, Units, Add, Mul, Rotl, Read32;
    MixUnitIs(hash, tail[i..i + 4]);
    h := Add(hash, Mul(Read32(tail[i..i + 4]), PRIME_3));
    next := i + 4;
    h := Mul(Rotl(h, 17), PRIME_4);
  }

  /** XXH_PROCESS1: one byte, when no word is left. */
  method Process1(hash: Word, tail: seq<U8>, i: nat) returns (h: Word, next: nat)
    requires i < |tail| < i + 4
    ensures next == i + 1 && Mix(h, Units(tail[next..])) == Mix(hash, Units(tail[i..]))
  {
    MixAt(hash, tail, i, 1);
    hide MixUnit, Mix, Units, Add, Mul, Rotl;
    MixUnitIs(hash, tail[i..i + 1]);
    h := Add(hash, Mul(tail[i], PRIME_5));
    next := i + 1;
    h := Mul(Rotl(h, 11), PRIME_1);
  }

  /** XXH32_finalize, on the first `len % 16` bytes at `ptr`, as two loops. */
  method Finalize(hash: Word, ptr: seq<U8>, len: nat) returns (h: Word)
    requires |ptr| >= len % 16
    ensures h == Finish(hash, ptr[..len % 16])
  {
    hide Mix, Units, Avalanche;
    var tail := ptr[..len % 16];
    h := hash;
    var i := 0;
    assert tail[0..] == tail;
    while |tail| - i >= 4
      invariant i <= |tail|
      invariant Mix(h, Units(tail[i..])) == Mix(hash, Units(tail))
    {
      h, i := Process4(h, tail, i);
    }
    while i < |tail|
      invariant |tail| - 4 < i <= |tail|
      invariant Mix(h, Units(tail[i..])) == Mix(hash, Units(tail))
    {
      h, i := Process1(h, tail, i);
    }
    assert tail[i..] == [];
    MixNothing(h);
    h := Avalanche(h);
  }

  /** XXH32_finalize as a jump table: the four chains of the switch, each entered at the case
      for the length of the tail and followed to its end. */
  method FinalizeByJump(hash: Word, ptr: seq<U8>, len: nat) returns (h: Word)
    requires |ptr| >= len % 16
    ensures h == Finish(hash, ptr[..len % 16])
  {
    hide Mix, Units, Avalanche;
    var tail, n := ptr[..len % 16], len % 16;
    h := hash;
    var i := 0;
    assert tail[0..] == tail;
    if n == 12 || n == 8 || n == 4 {
      if n >= 12 { h, i := Process4(h, tail, i); }
      if n >= 8 { h, i := Process4(h, tail, i); }
      h, i := Process4(h, tail, i);
    } else if n == 13 || n == 9 || n == 5 {
      if n >= 13 { h, i := Process4(h, tail, i); }
      if n >= 9 { h, i := Process4(h, tail, i); }
      h, i := Process4(h, tail, i);
      h, i := Process1(h, tail, i);
    } else if n == 14 || n == 10 || n == 6 {
      if n >= 14 { h, i := Process4(h, tail, i); }
      if n >= 10 { h, i := Process4(h, tail, i); }
      h, i := Process4(h, tail, i);
      h, i := Process1(h, tail, i);
      h, i := Process1(h, tail, i);
    } else {
      if n >= 15 { h, i := Process4(h, tail, i); }
      if n >= 11 { h, i := Process4(h, tail, i); }
      if n >= 7 { h, i := Process4(h, tail, i); }
      if n >= 3 { h, i := Process1(h, tail, i); }
      if n >= 2 { h, i := Process1(h, tail, i); }
      if n >= 1 { h, i := Process1(h, tail, i); }
    }
    assert tail[i..] == [];
    MixNothing(h);
    h := Avalanche(h);
  }

  /** XXH32, by way of XXH32_endian_align. */
  method OneShot(input: seq<U8>, seed: Word) returns (h: Word)
    ensures h == Hash(input, seed)
  {
    hide Absorb, AbsorbStripe, Add, Sub, Rotl, Round, Read32, Finish, Wrap;
    var len := |input|;
    var p := 0;
    if len >= 16 {
      var limit := len - 15;
      var v1, v2, v3, v4 := Add(Add(seed, PRIME_1), PRIME_2), Add(seed, PRIME_2), seed, Sub(seed, PRIME_1);
      ghost var start := StartLanes(seed);
      AbsorbNone(start, input);
      ghost var n := 0;
      while p < limit
        invariant p == 16 * n <= len
        invariant Lanes(v1, v2, v3, v4) == Absorb(start, input, n)
      {
        AbsorbNext(start, input, n);
        StripeAt(Lanes(v1, v2, v3, v4), input, p);
        v1 := Round(v1, Read32(input[p..p + 4]));
        p := p + 4;
        v2 := Round(v2, Read32(input[p..p + 4]));
        p := p + 4;
        v3 := Round(v3, Read32(input[p..p + 4]));
        p := p + 4;
        v4 := Round(v4, Read32(input[p..p + 4]));
        p := p + 4;
        n := n + 1;
      }
      h := Add(Add(Add(Rotl(v1, 1), Rotl(v2, 7)), Rotl(v3, 12)), Rotl(v4, 18));
    } else {
      h := Add(seed, PRIME_5);
    }
    h := Add(h, Wrap(len));
    assert input[p..] == input[p..][..len % 16];
    h := Finalize(h, input[p..], len);
  }
}

/** What the end of an XXH64 input is worth: every step that takes up a tail unit is a bijection,
    so no change to one unit can be lost. */
module Xxh64Tail {
  import opened Bits
  import opened LittleEndian
  import opened Words
  import opened Pieces
  import opened Xxh64

  // Words: what each operation does can be undone.

  /** The multipliers are odd, so each has an inverse modulo 2^64. */
  lemma MulInjective(x: Word, y: Word)
    ensures Mul(x, PRIME_1) == Mul(y, PRIME_1) ==> x == y
    ensures Mul(x, PRIME_2) == Mul(y, PRIME_2) ==> x == y
    ensures Mul(x, PRIME_3) == Mul(y, PRIME_3) ==> x == y
    ensures Mul(x, PRIME_5) == Mul(y, PRIME_5) ==> x == y
  {
    if Mul(x, PRIME_1) == Mul(y, PRIME_1) {
      Words.MulInjective(x, y, 0x9E3779B185EBCA87, 0x887493432BADB37, 0x545584CCD1FA67A, WORD_RANGE);
    }
    if Mul(x, PRIME_2) == Mul(y, PRIME_2) {
      Words.MulInjective(x, y, 0xC2B2AE3D27D4EB4F, 0xBA79078168D4BAF, 0x8DD1DEC21860607, WORD_RANGE);
    }
    if Mul(x, PRIME_3) == Mul(y, PRIME_3) {
      Words.MulInjective(x, y, 0x165667B19E3779F9, 0xE9E9F4C41D6DF849, 0x14690E6081378F7F, WORD_RANGE);
    }
    if Mul(x, PRIME_5) == Mul(y, PRIME_5) {
      Words.MulInjective(x, y, 0x27D4EB2F165667C5, 0xC592C09FDFBA7F0D, 0x1EBDAE61ED7C1B77, WORD_RANGE);
    }
  }

  lemma RotlInjective(x: Word, y: Word, r: nat)
    requires r <= 64 && Rotl(x, r) == Rotl(y, r)
    ensures x == y
  {
    hide Rotate, Pow2;
    Pow2Values();
    RotateInjective(x, y, r, 64);
  }

  lemma XorShiftUndone(x: Word, y: Word, r: nat)
    requires r > 0 && XorShift(x, r) == XorShift(y, r)
    ensures x == y
  {
    hide BitXor;
    XorShiftInjective(x, y, r);
  }

  lemma AddInjective(x: Word, y: Word, z: Word)
    requires Add(x, z) == Add(y, z)
    ensures x == y
  {
    Words.AddInjective(x, y, z, WORD_RANGE);
  }

  lemma XorInjective(x: Word, y: Word, z: Word)
    ensures Xor(x, z) == Xor(y, z) ==> x == y
    ensures Xor(z, x) == Xor(z, y) ==> x == y
  {
    hide BitXor;
    XorSwaps(x, z);
    XorSwaps(y, z);
    if BitXor(x, z) == BitXor(y, z) {
      XorCancels(x, y, z);
    }
  }

  lemma RoundInjective(x: Word, y: Word)
    requires Round(0, x) == Round(0, y)
    ensures x == y
  {
    hide Mul, Rotl;
    MulInjective(Rotl(Mul(x, PRIME_2), 31), Rotl(Mul(y, PRIME_2), 31));
    RotlInjective(Mul(x, PRIME_2), Mul(y, PRIME_2), 31);
    MulInjective(x, y);
  }

  lemma AvalancheInjective(x: Word, y: Word)
    requires Avalanche(x) == Avalanche(y)
    ensures x == y
  {
    hide Mul, XorShift;
    var a, b := Mul(XorShift(x, 33), PRIME_2), Mul(XorShift(y, 33), PRIME_2);
    var c, d := Mul(XorShift(a, 29), PRIME_3), Mul(XorShift(b, 29), PRIME_3);
    XorShiftUndone(c, d, 32);
    MulInjective(XorShift(a, 29), XorShift(b, 29));
    XorShiftUndone(a, b, 29);
    MulInjective(XorShift(x, 33), XorShift(y, 33));
    XorShiftUndone(x, y, 33);
  }

  // One unit.

  /** What a unit adds to the hash before the bits are spread. */
  function Content(u: seq<U8>): Word
    requires IsUnit(u)
  {
    if |u| == 8 then Round(0, Read64(u))
    else if |u| == 4 then Mul(Read32(u), PRIME_1)
    else Mul(u[0], PRIME_5)
  }

  lemma ContentInjective(u: seq<U8>, w: seq<U8>)
    requires IsUnit(u) && |u| == |w| && Content(u) == Content(w)
    ensures u == w
  {
    hide Round, LE, Mul;
    if |u| == 8 {
      RoundInjective(Read64(u), Read64(w));
      LEInjective(u, w);
    } else if |u| == 4 {
      MulInjective(Read32(u), Read32(w));
      LEInjective(u, w);
    } else {
      MulInjective(u[0], w[0]);
    }
  }

  /** A step of the tail loses neither the hash so far nor the unit. */
  lemma MixUnitInjective(h: Word, g: Word, u: seq<U8>, w: seq<U8>)
    requires IsUnit(u) && |u| == |w| && MixUnit(h, u) == MixUnit(g, w)
    ensures u == w ==> h == g
    ensures h == g ==> u == w
  {
    hide Mul, Rotl, Add, Xor, Round, Read64, Read32;
    var x, y := Xor(h, Content(u)), Xor(g, Content(w));
    if |u| == 8 {
      AddInjective(Mul(Rotl(x, 27), PRIME_1), Mul(Rotl(y, 27), PRIME_1), PRIME_4);
      MulInjective(Rotl(x, 27), Rotl(y, 27));
      RotlInjective(x, y, 27);
    } else if |u| == 4 {
      AddInjective(Mul(Rotl(x, 23), PRIME_2), Mul(Rotl(y, 23), PRIME_2), PRIME_3);
      MulInjective(Rotl(x, 23), Rotl(y, 23));
      RotlInjective(x, y, 23);
    } else {
      MulInjective(Rotl(x, 11), Rotl(y, 11));
      RotlInjective(x, y, 11);
    }
    XorInjective(h, g, Content(u));
    XorInjective(Content(u), Content(w), h);
    if h == g {
      ContentInjective(u, w);
    }
  }

  // The tail.

  lemma {:induction false} MixInjective(h: Word, g: Word, units: seq<seq<U8>>)
    requires forall i :: 0 <= i < |units| ==> IsUnit(units[i])
    requires Mix(h, units) == Mix(g, units)
    ensures h == g
    decreases |units|
  {
    hide MixUnit;
    if units != [] {
      MixInjective(MixUnit(h, units[0]), MixUnit(g, units[0]), units[1..]);
      MixUnitInjective(h, g, units[0], units[0]);
    }
  }

  ghost predicate SameShape(us: seq<seq<U8>>, ws: seq<seq<U8>>)
  {
    && |us| == |ws|
    && forall i :: 0 <= i < |us| ==> IsUnit(us[i]) && |us[i]| == |ws[i]|
  }

  lemma {:induction false} UnitsShape(s: seq<U8>, t: seq<U8>)
    requires |s| == |t|
    ensures SameShape(Units(s), Units(t))
    decreases |s|
  {
    if s != [] {
      var n := UnitSize(|s|);
      UnitsShape(s[n..], t[n..]);
    }
  }

  /** The units are the tail, cut up. */
  lemma {:induction false} UnitsJoin(tail: seq<U8>)
    ensures Joined(Units(tail)) == tail
    decreases |tail|
  {
    if tail != [] {
      UnitsJoin(tail[UnitSize(|tail|)..]);
      assert Units(tail)[1..] == Units(tail[UnitSize(|tail|)..]);
    }
  }

  ghost predicate DifferAtOnly(us: seq<seq<U8>>, ws: seq<seq<U8>>, i: nat)
  {
    && SameShape(us, ws) && i < |us| && us[i] != ws[i]
    && forall j :: 0 <= j < |us| && j != i ==> us[j] == ws[j]
  }

  lemma {:induction false} MixTellsApart(h: Word, us: seq<seq<U8>>, ws: seq<seq<U8>>, i: nat)
    requires DifferAtOnly(us, ws, i)
    ensures Mix(h, us) != Mix(h, ws)
    decreases |us|
  {
    hide MixUnit;
    if i > 0 {
      MixTellsApart(MixUnit(h, us[0]), us[1..], ws[1..], i - 1);
    } else {
      assert us[1..] == ws[1..];
      var a, b := MixUnit(h, us[0]), MixUnit(h, ws[0]);
      if a == b {
        MixUnitInjective(h, h, us[0], ws[0]);
        assert false;
      } else if Mix(a, us[1..]) == Mix(b, us[1..]) {
        MixInjective(a, b, us[1..]);
        assert false;
      }
    }
  }

  /** Two inputs that agree on the stripes and differ in exactly one tail unit never collide. */
  lemma TailSensitive(a: seq<U8>, b: seq<U8>, seed: Word, i: nat)
    requires |a| == |b|
    requires var stripes := 32 * (|a| / 32);
             a[..stripes] == b[..stripes] && DifferAtOnly(Units(a[stripes..]), Units(b[stripes..]), i)
    ensures Hash(a, seed) != Hash(b, seed)
  {
    hide Absorb, Converge, Add, StartLanes, Wrap, Avalanche, Mix, Units, DifferAtOnly;
    var n := |a| / 32;
    AbsorbPrefix(StartLanes(seed), a, b, n);
    var h := Add(if |a| >= 32 then Converge(Absorb(StartLanes(seed), a, n)) else Add(seed, PRIME_5), Wrap(|a|));
    var us, ws := Units(a[32 * n..]), Units(b[32 * n..]);
    MixTellsApart(h, us, ws, i);
    if Avalanche(Mix(h, us)) == Avalanche(Mix(h, ws)) {
      AvalancheInjective(Mix(h, us), Mix(h, ws));
      assert false;
    }
  }

  lemma {:induction false} OneByteOneUnit(s: seq<U8>, t: seq<U8>, p: nat) returns (i: nat)
    requires p < |s| == |t| && s[p] != t[p] && t == s[p := t[p]]
    ensures DifferAtOnly(Units(s), Units(t), i)
    decreases |s|
  {
    UnitsShape(s, t);
    var n := UnitSize(|s|);
    assert Units(s) == [s[..n]] + Units(s[n..]) && Units(t) == [t[..n]] + Units(t[n..]);
    if p < n {
      i := 0;
      assert s[n..] == t[n..] && s[..n][p] != t[..n][p];
    } else {
      assert t[n..] == s[n..][p - n := t[p]] && s[..n] == t[..n];
      i := OneByteOneUnit(s[n..], t[n..], p - n);
      i := i + 1;
    }
  }

  /** So changing any one byte after the last whole stripe changes the hash. */
  lemma ByteSensitive(a: seq<U8>, b: seq<U8>, seed: Word, p: nat)
    requires 32 * (|a| / 32) <= p < |a| == |b| && a[p] != b[p] && b == a[p := b[p]]
    ensures Hash(a, seed) != Hash(b, seed)
  {
    hide Hash, Units, DifferAtOnly;
    var from := 32 * (|a| / 32);
    assert b[from..] == a[from..][p - from := b[p]] && a[..from] == b[..from];
    var i := OneByteOneUnit(a[from..], b[from..], p - from);
    TailSensitive(a, b, seed, i);
  }
}

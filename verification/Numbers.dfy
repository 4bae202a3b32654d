/** Shifts as divisions, and little-endian words in numbers. */
module Numbers {
  import opened Bits
  import opened LittleEndian
  import opened XorBytes

  lemma Divides(x: nat, n: nat)
    ensures Shr(x, n) == x / Pow2(n) && Low(x, n) == x % Pow2(n)
  {
    hide Shr, Low, Shl, Pow2;
    Split(x, n);
    ShlTimes(Shr(x, n), n);
    RemainderUnique(x, Pow2(n), Shr(x, n), Low(x, n));
  }

  lemma PowerSum(a: nat, b: nat)
    ensures Pow2(a + b) == Pow2(a) * Pow2(b)
  {
    Pow2Add(a, b);
    ShlTimes(Pow2(a), b);
  }

  // Bytes 0, 1, 2 and so on.

  function Counting(n: nat): (s: seq<U8>)
    requires n <= 256
    ensures |s| == n && forall i :: 0 <= i < n ==> s[i] == i
  {
    seq(n, i requires 0 <= i < n => i)
  }

  function Four(a: nat, b: nat, c: nat, d: nat): nat
  {
    a + 0x100 * b + 0x1_0000 * c + 0x100_0000 * d
  }

  lemma FourBytes(s: seq<U8>)
    requires |s| == 4
    ensures LE(s) == Four(s[0], s[1], s[2], s[3])
  {
    assert s[1..][1..] == s[2..] && s[2..][1..] == s[3..] && s[3..][1..] == [];
    assert LE(s[3..]) == s[3] && LE(s[2..]) == s[2] + 256 * LE(s[3..]) && LE(s[1..]) == s[1] + 256 * LE(s[2..]);
  }

  lemma EightBytes(s: seq<U8>)
    requires |s| == 8
    ensures LE(s) == Four(s[0], s[1], s[2], s[3]) + 0x1_0000_0000 * Four(s[4], s[5], s[6], s[7])
  {
    hide LE, Shl, Pow2;
    var a, b := s[..4], s[4..];
    assert s == a + b;
    LEConcat(a, b);
    FourBytes(a);
    FourBytes(b);
    ShiftBytes(LE(b));
  }
}

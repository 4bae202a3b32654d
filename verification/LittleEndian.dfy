/** Byte sequences read as little-endian natural numbers. */
module LittleEndian {
  import opened Bits

  /** The number a byte sequence spells, least significant byte first. */
  function LE(s: seq<U8>): nat
  {
    if s == [] then 0 else s[0] + 256 * LE(s[1..])
  }

  /** The n low bytes of x, as an n-byte little-endian store writes them. */
  function Bytes(x: nat, n: nat): (s: seq<U8>)
    ensures |s| == n
  {
    if n == 0 then [] else [x % 256] + Bytes(x / 256, n - 1)
  }

  lemma {:induction false} ByteShifts(x: nat, n: nat)
    ensures Shl(x, 8 * (n + 1)) == 256 * Shl(x, 8 * n)
    ensures Shr(x, 8 * (n + 1)) == Shr(x / 256, 8 * n)
    ensures Low(x, 8 * (n + 1)) == x % 256 + 256 * Low(x / 256, 8 * n)
  {
    hide Shl, Shr, Low;
    ShlShl(x, 8 * n, 8);
    Shift8(Shl(x, 8 * n));
    Shift8(x);
    ShrShr(x, 8, 8 * n);
    LowLow(x, 8, 8 * n);
    Split(Low(x, 8 + 8 * n), 8);
    Shift8(Low(Shr(x, 8), 8 * n));
  }

  lemma {:induction false} LEBound(s: seq<U8>)
    ensures LE(s) < Pow2(8 * |s|)
  {
    if s != [] {
      LEBound(s[1..]);
      ByteShifts(1, |s| - 1);
    }
  }

  lemma {:induction false} LEInjective(s: seq<U8>, t: seq<U8>)
    requires |s| == |t| && LE(s) == LE(t)
    ensures s == t
  {
    if s != [] {
      LEInjective(s[1..], t[1..]);
      assert s == [s[0]] + s[1..] && t == [t[0]] + t[1..];
    }
  }

  lemma LESingle(b: U8)
    ensures LE([b]) == b
  {
  }

  lemma {:induction false} LEConcat(a: seq<U8>, b: seq<U8>)
    ensures LE(a + b) == LE(a) + Shl(LE(b), 8 * |a|)
  {
    if a == [] {
      assert a + b == b;
    } else {
      assert (a + b)[1..] == a[1..] + b;
      LEConcat(a[1..], b);
      ByteShifts(LE(b), |a| - 1);
    }
  }

  /** Cutting a byte sequence cuts its number at the same byte. */
  lemma LESplit(s: seq<U8>, i: nat)
    requires i <= |s|
    ensures LE(s[..i]) == Low(LE(s), 8 * i)
    ensures LE(s[i..]) == Shr(LE(s), 8 * i)
  {
    hide LE, Shl, Shr, Low;
    assert s == s[..i] + s[i..];
    LEConcat(s[..i], s[i..]);
    LEBound(s[..i]);
    SplitUnique(LE(s[..i]), LE(s[i..]), 8 * i);
  }

  lemma {:induction false} BytesLE(x: nat, n: nat)
    ensures LE(Bytes(x, n)) == Low(x, 8 * n)
  {
    if n > 0 {
      BytesLE(x / 256, n - 1);
      ByteShifts(x, n - 1);
      assert Bytes(x, n)[1..] == Bytes(x / 256, n - 1);
    }
  }

  lemma {:induction false} BytesPrefix(x: nat, n: nat, k: nat)
    requires k <= n
    ensures Bytes(x, n)[..k] == Bytes(x, k)
  {
    if k > 0 {
      BytesPrefix(x / 256, n - 1, k - 1);
      assert Bytes(x, n)[..k] == [x % 256] + Bytes(x / 256, n - 1)[..k - 1];
    }
  }

  lemma {:induction false} BytesAt(x: nat, n: nat, k: nat)
    requires k < n
    ensures Bytes(x, n)[k] == Shr(x, 8 * k) % 256
  {
    if k > 0 {
      BytesAt(x / 256, n - 1, k - 1);
      ByteShifts(x, k - 1);
    }
  }
}

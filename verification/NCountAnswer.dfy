/** Headers of normalized counts in plain arithmetic: what one count and one run of zeros read,
    and a whole header in numbers. */
module NCountAnswer {
  import opened Bits
  import opened LittleEndian
  import opened Numbers
  import opened FseCounts
  import opened NCount

  /** A value below the number of short codewords is said in one bit less. A long codeword with
      its top bit set stands for a value that much smaller. */
  lemma ReadIs(x: nat, remaining: nat, nbBits: nat, threshold: nat)
    requires nbBits >= 1 && threshold == Pow2(nbBits - 1) <= remaining < 2 * threshold
    ensures var max := 2 * threshold - 1 - remaining;
            && (x % threshold < max ==> ReadValue(x, remaining, nbBits) == (x % threshold, nbBits - 1))
            && (max <= x % threshold && x % (2 * threshold) < threshold ==>
                  ReadValue(x, remaining, nbBits) == (x % (2 * threshold), nbBits))
            && (max <= x % threshold && x % (2 * threshold) >= threshold ==>
                  ReadValue(x, remaining, nbBits) == (x % (2 * threshold) - max, nbBits))
  {
    Divides(x, nbBits - 1);
    Divides(x, nbBits);
    DoublePow(nbBits - 1);
    hide Pow2, Low;
  }

  /** k codes 3 and another code say 3 * k zeros and as many as that code says. */
  lemma {:induction false} RunIs(x: nat, k: nat, last: nat)
    requires last < 3 && Low(x, 2 * k + 2) == last * Pow2(2 * k) + (Pow2(2 * k) - 1)
    ensures ZeroRun(x) == (3 * k + last, 2 * k + 2)
  {
    if k > 0 {
      LowQuarter(x, 2 * k);
      Quadruple(2 * k - 2);
      assert last * Pow2(2 * k) == 4 * (last * Pow2(2 * k - 2));
      RunIs(x / 4, k - 1, last);
    } else {
      LowQuarter(x, 0);
    }
  }

  lemma Quadruple(n: nat)
    ensures Pow2(n + 2) == 4 * Pow2(n)
  {
    DoublePow(n);
    DoublePow(n + 1);
  }

  lemma LowQuarter(x: nat, n: nat)
    ensures Low(x, n + 2) == 4 * Low(x / 4, n) + x % 4
  {
    assert Low(x, n + 2) == x % 2 + 2 * Low(x / 2, n + 1);
    assert x / 2 / 2 == x / 4;
  }

  // A header of three bytes, for 7 symbols at table log 5.

  const HEADER: seq<U8> := [0xD0, 0x1B, 0x03]
  const V: nat := 0x3_1BD0

  lemma HeaderIs()
    ensures LE(HEADER) == V && Low(V, 4) == 0
  {
    var s := HEADER;
    assert s[1..] == [0x1B, 0x03] && s[1..][1..] == [0x03] && s[1..][1..][1..] == [];
    Divides(V, 4);
    Pow2Values();
  }

  lemma Powers()
    ensures Pow2(1) == 2 && Pow2(2) == 4 && Pow2(3) == 8 && Pow2(4) == 16 && Pow2(5) == 32
    ensures Pow2(9) == 512 && Pow2(11) == 2048 && Pow2(15) == 32768 && Pow2(18) == 262144
  {
    Pow2Values();
    hide Pow2;
    PowerSum(8, 1);
    PowerSum(8, 3);
    PowerSum(8, 7);
    PowerSum(16, 2);
  }

  lemma Widths()
    ensures HighBit(5) == 2 && HighBit(2) == 1
  {
  }

  lemma Places()
    ensures Shr(V, 4) == V / 16 && Shr(V, 9) == V / 512 && Shr(V, 11) == V / 2048
    ensures Shr(V, 15) == V / 32768 && Shr(V, 18) == V / 262144
  {
    Powers();
    Divides(V, 4);
    Divides(V, 9);
    Divides(V, 11);
    Divides(V, 15);
    Divides(V, 18);
  }

  lemma FirstCount()
    ensures ReaderOk(Reader(4, 33, 6, [], false))
    ensures NextCount(V, Reader(4, 33, 6, [], false)) == Reader(9, 5, 3, [28], false)
  {
    Powers();
    Places();
    Widths();
    hide Pow2, Shr, Low, HighBit, ReadValue;
    ReadIs(V / 16, 33, 6, 32);
  }

  lemma SecondCount()
    ensures ReaderOk(Reader(9, 5, 3, [28], false))
    ensures NextCount(V, Reader(9, 5, 3, [28], false)) == Reader(11, 5, 3, [28, 0], true)
  {
    Powers();
    Places();
    hide Pow2, Shr, Low, HighBit, ReadValue;
    ReadIs(V / 512, 5, 3, 4);
  }

  lemma FourZeros()
    ensures ZeroRun(Shr(V, 11)) == (3, 4) && Zeros(3) == [0, 0, 0]
  {
    Places();
    assert ZeroRun(24) == (0, 2);
    assert ZeroRun(99) == (3, 4);
    assert Zeros(1) == [0] && Zeros(2) == [0, 0];
  }

  lemma SixthCount()
    ensures ReaderOk(Reader(15, 5, 3, [28, 0, 0, 0, 0], true))
    ensures NextCount(V, Reader(15, 5, 3, [28, 0, 0, 0, 0], true)) == Reader(18, 2, 2, [28, 0, 0, 0, 0, 3], false)
  {
    Powers();
    Places();
    Widths();
    hide Pow2, Shr, Low, HighBit, ReadValue;
    ReadIs(V / 32768, 5, 3, 4);
  }

  lemma LastCount()
    ensures ReaderOk(Reader(18, 2, 2, [28, 0, 0, 0, 0, 3], false))
    ensures NextCount(V, Reader(18, 2, 2, [28, 0, 0, 0, 0, 3], false)) == Reader(19, 1, 2, [28, 0, 0, 0, 0, 3, -1], false)
  {
    Powers();
    Places();
    hide Pow2, Shr, Low, HighBit, ReadValue;
    ReadIs(V / 262144, 2, 2, 2);
  }

  lemma FromSixth(maxSV1: nat)
    requires maxSV1 >= 7
    ensures ReaderOk(Reader(15, 5, 3, [28, 0, 0, 0, 0], true))
    ensures ParseCount(V, 3, 5, maxSV1, Reader(15, 5, 3, [28, 0, 0, 0, 0], true))
            == Accepted(3, 5, [28, 0, 0, 0, 0, 3, -1])
  {
    SixthCount();
    LastCount();
    hide NextCount, ReaderOk;
    assert ParseCount(V, 3, 5, maxSV1, Reader(18, 2, 2, [28, 0, 0, 0, 0, 3], false))
        == Accepted(3, 5, [28, 0, 0, 0, 0, 3, -1]);
  }

  lemma FromThird(maxSV1: nat)
    requires maxSV1 >= 7
    ensures ReaderOk(Reader(11, 5, 3, [28, 0], true))
    ensures ParseFrom(V, 3, 5, maxSV1, Reader(11, 5, 3, [28, 0], true)) == Accepted(3, 5, [28, 0, 0, 0, 0, 3, -1])
  {
    FourZeros();
    FromSixth(maxSV1);
    assert ReaderOk(Reader(11, 5, 3, [28, 0], true)) by { Powers(); hide Pow2; }
    hide NextCount, ReaderOk, ZeroRun, Zeros, Shr, ParseCount;
    assert [28, 0] + [0, 0, 0] == [28, 0, 0, 0, 0];
  }

  lemma FromFirst(maxSV1: nat)
    requires maxSV1 >= 7
    ensures ReaderOk(Reader(4, 33, 6, [], false))
    ensures ParseFrom(V, 3, 5, maxSV1, Reader(4, 33, 6, [], false)) == Accepted(3, 5, [28, 0, 0, 0, 0, 3, -1])
  {
    FromThird(maxSV1);
    SecondCount();
    hide NextCount, ReaderOk;
    GoesOn(Reader(9, 5, 3, [28], false), Reader(11, 5, 3, [28, 0], true), maxSV1);
    FirstCount();
    GoesOn(Reader(4, 33, 6, [], false), Reader(9, 5, 3, [28], false), maxSV1);
  }

  /** One count that does not end the header. */
  lemma GoesOn(rd: Reader, next: Reader, maxSV1: nat)
    requires ReaderOk(rd) && !rd.previous0 && NextCount(V, rd) == next && ReaderOk(next)
    requires next.remaining > 1 && |next.counts| < maxSV1 && next.pos < 24
    ensures ParseFrom(V, 3, 5, maxSV1, rd) == ParseFrom(V, 3, 5, maxSV1, next)
  {
    hide NextCount, ReaderOk;
  }

  /** Table log 5, a count of 28, four zeros with the code for three more, a count of 3 and a
      low-probability symbol, with codewords of 5, 2, 3 and 1 bits. */
  lemma HeaderAnswer(maxSV1: nat)
    requires maxSV1 >= 7
    ensures ParseHeader(HEADER, maxSV1) == Accepted(3, 5, [28, 0, 0, 0, 0, 3, -1])
  {
    HeaderIs();
    FromFirst(maxSV1);
    Powers();
    hide *;
    assert MIN_TABLELOG == 5 && TABLELOG_ABSOLUTE_MAX == 15;
    ParseIs(HEADER, maxSV1, 5);
  }
}

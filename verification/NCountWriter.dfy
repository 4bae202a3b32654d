/** FSE_writeNCount: the other direction of the header of normalized counts. What it writes is
    spelt out as one number, and the parser's specification reads that number back. */
module NCountWriter {
  import opened Bits
  import opened LittleEndian
  import opened FseCounts
  import opened NCount

  // ------------------------------------------------------------------ pieces of a header

  /** A number of so many bits. */
  datatype Piece = Piece(number: nat, width: nat)

  const Nothing: Piece := Piece(0, 0)

  /** One piece and, above it, another. */
  function Then(a: Piece, b: Piece): Piece
  {
    Piece(a.number + Shl(b.number, a.width), a.width + b.width)
  }

  lemma ThenAssociates(a: Piece, b: Piece, c: Piece)
    ensures Then(Then(a, b), c) == Then(a, Then(b, c))
  {
    ShlShl(c.number, b.width, a.width);
    ShlAdd(b.number, Shl(c.number, b.width), a.width);
  }

  lemma ThenNothing(a: Piece)
    ensures Then(a, Nothing) == a && Then(Nothing, a) == a
  {
    ShlZero(a.width);
  }

  predicate Fits(p: Piece)
  {
    p.number < Pow2(p.width)
  }

  lemma ThenFits(a: Piece, b: Piece)
    requires Fits(a) && Fits(b)
    ensures Fits(Then(a, b))
  {
    JoinBound(a.number, a.width, b.number, b.width);
  }

  /** x begins with this piece. */
  predicate Begins(x: nat, p: Piece)
  {
    Low(x, p.width) == p.number
  }

  lemma BeginsWithBoth(x: nat, a: Piece, b: Piece)
    requires Fits(a) && Begins(x, Then(a, b))
    ensures Begins(x, a) && Begins(Shr(x, a.width), b)
  {
    hide Low, Shr, Shl, Pow2;
    LowLow(x, a.width, b.width);
    SplitUnique(a.number, b.number, a.width);
  }

  // ------------------------------------------------------------------ what is written

  /** Counts the writer takes: -1 marks a low probability. */
  predicate Countable(rest: seq<int>)
  {
    forall i :: 0 <= i < |rest| ==> rest[i] >= -1
  }

  /** A run of z more zeros: codes 3 for three each, and a smaller one to end it. */
  function Run(z: nat): Piece
  {
    if z < 3 then Piece(z, 2) else Then(Piece(3, 2), Run(z - 3))
  }

  function LeadingZeros(rest: seq<int>): (z: nat)
    ensures z <= |rest|
  {
    if rest == [] || rest[0] != 0 then 0 else 1 + LeadingZeros(rest[1..])
  }

  /** The width that fits what remains. */
  predicate Fitting(remaining: nat, nbBits: nat)
  {
    remaining > 1 ==> nbBits >= 2 && Pow2(nbBits - 1) <= remaining < 2 * Pow2(nbBits - 1)
  }

  function NextBits(remaining: nat, nbBits: nat): (r: nat)
    requires nbBits >= 1 && 1 <= remaining < 2 * Pow2(nbBits - 1)
    ensures Fitting(remaining, r)
  {
    if 1 < remaining < Pow2(nbBits - 1) then
      HighBitSpec(remaining);
      HighBitPositive(remaining);
      DoublePow(HighBit(remaining));
      HighBit(remaining) + 1
    else
      AtLeastTwo(remaining, nbBits);
      nbBits
  }

  lemma AtLeastTwo(remaining: nat, nbBits: nat)
    requires nbBits >= 1 && remaining < 2 * Pow2(nbBits - 1)
    ensures remaining > 1 ==> nbBits >= 2
  {
  }

  function CountPiece(count: int, remaining: nat, nbBits: nat): Piece
    requires remaining > 1 && Fitting(remaining, nbBits) && -1 <= count < remaining
  {
    var (code, width) := Codeword(count + 1, remaining, nbBits);
    Piece(code, width)
  }

  /** The counts from here on, as long as they fit what remains. */
  function SpellCount(rest: seq<int>, remaining: nat, nbBits: nat): Piece
    requires Countable(rest) && Fitting(remaining, nbBits)
    decreases |rest|, 0
  {
    if remaining <= 1 || rest == [] || Abs(rest[0]) >= remaining then Nothing
    else
      var left := remaining - Abs(rest[0]);
      Then(CountPiece(rest[0], remaining, nbBits), SpellRest(rest[1..], left, NextBits(left, nbBits), rest[0] == 0))
  }

  /** The same, after a zero with its run first. Zeros up to the end are not written. */
  function SpellRest(rest: seq<int>, remaining: nat, nbBits: nat, previous0: bool): Piece
    requires Countable(rest) && Fitting(remaining, nbBits)
    decreases |rest|, 1
  {
    if remaining <= 1 || !previous0 then SpellCount(rest, remaining, nbBits)
    else
      var z := LeadingZeros(rest);
      if z == |rest| then Nothing else Then(Run(z), SpellCount(rest[z..], remaining, nbBits))
  }

  /** What remains when the counts, or the probability, come to an end; below 1 if a count asks
      for more than there is. */
  function Left(rest: seq<int>, remaining: int): int
  {
    if remaining <= 1 || rest == [] then remaining else Left(rest[1..], remaining - Abs(rest[0]))
  }

  /** The counts up to the one that uses the probability up. */
  function Used(rest: seq<int>, remaining: int): (r: seq<int>)
    ensures r <= rest
  {
    if remaining <= 1 || rest == [] then [] else [rest[0]] + Used(rest[1..], remaining - Abs(rest[0]))
  }

  /** The whole header. */
  function Spelt(counts: seq<int>, tableLog: nat): Piece
    requires MIN_TABLELOG <= tableLog && Countable(counts)
  {
    TableFitting(tableLog);
    Then(Piece(tableLog - MIN_TABLELOG, 4), SpellCount(counts, Pow2(tableLog) + 1, tableLog + 1))
  }

  lemma TableFitting(tableLog: nat)
    requires MIN_TABLELOG <= tableLog
    ensures Fitting(Pow2(tableLog) + 1, tableLog + 1)
  {
    Pow2Mono(1, tableLog);
    Pow2Values();
  }

  // ------------------------------------------------------------------ reading it back

  /** A run is read as that many zeros. */
  lemma {:induction false} RunRead(x: nat, z: nat)
    requires Begins(x, Run(z))
    ensures ZeroRun(x) == (z, Run(z).width)
  {
    hide Low, Shr, Shl, Pow2;
    TwoBits(x);
    if z >= 3 {
      assert Fits(Piece(3, 2)) by { Pow2Values(); }
      BeginsWithBoth(x, Piece(3, 2), Run(z - 3));
      RunRead(Shr(x, 2), z - 3);
    }
  }

  lemma RunFits(z: nat)
    ensures Fits(Run(z)) && Run(z).width >= 2
  {
    hide Shl, Pow2;
    Pow2Values();
    if z >= 3 {
      RunFits(z - 3);
      ThenFits(Piece(3, 2), Run(z - 3));
    }
  }

  /** A count is read back from its codeword, whatever follows. */
  lemma CountRead(x: nat, count: int, remaining: nat, nbBits: nat)
    requires remaining > 1 && Fitting(remaining, nbBits) && -1 <= count < remaining
    requires Begins(x, CountPiece(count, remaining, nbBits))
    ensures Fits(CountPiece(count, remaining, nbBits)) && 1 <= CountPiece(count, remaining, nbBits).width <= nbBits
    ensures ReadValue(x, remaining, nbBits) == (count + 1, CountPiece(count, remaining, nbBits).width)
  {
    hide Low, Pow2, ReadValue;
    CompletePrefixCode(x, count + 1, remaining, nbBits);
  }

  lemma CountFits(count: int, remaining: nat, nbBits: nat)
    requires remaining > 1 && Fitting(remaining, nbBits) && -1 <= count < remaining
    ensures Fits(CountPiece(count, remaining, nbBits)) && 1 <= CountPiece(count, remaining, nbBits).width <= nbBits
  {
    hide Low, Pow2, ReadValue;
    CompletePrefixCode(0, count + 1, remaining, nbBits);
  }

  /** Counts that use the probability up exactly say something. */
  lemma SaysSomething(rest: seq<int>, remaining: nat, nbBits: nat)
    requires Countable(rest) && remaining > 1 && Fitting(remaining, nbBits) && Left(rest, remaining) == 1
    ensures rest != [] && Abs(rest[0]) < remaining && SpellCount(rest, remaining, nbBits).width >= 1
    ensures |Used(rest, remaining)| >= 1
  {
    hide Pow2, Shl, SpellRest;
    LeftBelow(rest[1..], remaining - Abs(rest[0]));
    CountFits(rest[0], remaining, nbBits);
  }

  lemma LeftBelow(rest: seq<int>, remaining: int)
    ensures Left(rest, remaining) <= remaining
  {
  }

  lemma {:induction false} ZerosSkipped(rest: seq<int>, remaining: nat)
    requires Countable(rest) && remaining > 1 && Left(rest, remaining) == 1
    ensures var z := LeadingZeros(rest);
            && z < |rest| && Left(rest[z..], remaining) == 1
            && Used(rest, remaining) == Zeros(z) + Used(rest[z..], remaining)
  {
    hide *;
    LeadingZero(rest, remaining);
    var z := LeadingZeros(rest);
    if z == 0 {
      assert rest[0..] == rest;
    } else {
      ZerosSkipped(rest[1..], remaining);
      assert rest[1..][z - 1..] == rest[z..];
      ZerosCons(z);
    }
  }

  lemma LeadingZero(rest: seq<int>, remaining: nat)
    requires Countable(rest) && remaining > 1 && Left(rest, remaining) == 1
    ensures rest != [] && Zeros(0) == []
    ensures LeadingZeros(rest) > 0 ==>
              && Countable(rest[1..]) && LeadingZeros(rest) == 1 + LeadingZeros(rest[1..])
              && Left(rest[1..], remaining) == 1 && Used(rest, remaining) == [0] + Used(rest[1..], remaining)
  {
  }

  lemma {:induction false} ZerosCons(z: nat)
    requires z > 0
    ensures Zeros(z) == [0] + Zeros(z - 1)
  {
    if z > 1 {
      ZerosCons(z - 1);
    }
  }

  /** The specification of the parser, on a header that goes on with these counts. */
  ghost predicate ReadsBack(v: nat, n: nat, tableLog: nat, maxSV1: nat, rd: Reader, rest: seq<int>, p: Piece, parse: Parse)
  {
    Begins(Shr(v, rd.pos), p) && rd.pos + p.width <= 8 * n && |rd.counts| + |Used(rest, rd.remaining)| <= maxSV1
    ==> parse == Accepted((rd.pos + p.width + 7) / 8, tableLog, rd.counts + Used(rest, rd.remaining))
  }

  lemma {:induction false} ReadsRest(v: nat, n: nat, tableLog: nat, maxSV1: nat, rd: Reader, rest: seq<int>)
    requires ReaderOk(rd) && 1 < rd.remaining <= 0x8000 && Countable(rest) && Left(rest, rd.remaining) == 1
    ensures Fitting(rd.remaining, rd.nbBits)
    ensures ReadsBack(v, n, tableLog, maxSV1, rd, rest, SpellRest(rest, rd.remaining, rd.nbBits, rd.previous0),
                      ParseFrom(v, n, tableLog, maxSV1, rd))
    decreases |rest|, 1
  {
    hide Pow2, Low, Shr, Shl, ParseFrom, ParseCount, SpellRest, SpellCount, ZeroRun, Run, Left, Used, LeadingZeros,
         ReaderOk, Zeros, Countable, Fitting;
    ReaderFits(rd);
    if rd.previous0 {
      ZerosSkipped(rest, rd.remaining);
      var z := LeadingZeros(rest);
      RestSpelt(rest, rd.remaining, rd.nbBits);
      SaysSomething(rest[z..], rd.remaining, rd.nbBits);
      var rd' := rd.(pos := rd.pos + Run(z).width, counts := rd.counts + Zeros(z));
      ReaderMoved(rd, rd');
      ReadsCount(v, n, tableLog, maxSV1, rd', rest[z..]);
      if Begins(Shr(v, rd.pos), SpellRest(rest, rd.remaining, rd.nbBits, true)) {
        RunFits(z);
        BeginsWithBoth(Shr(v, rd.pos), Run(z), SpellCount(rest[z..], rd.remaining, rd.nbBits));
        RunRead(Shr(v, rd.pos), z);
        ShrShr(v, rd.pos, Run(z).width);
        RunUnfolds(v, n, tableLog, maxSV1, rd, z, Run(z).width);
      }
      assert rd'.counts + Used(rest[z..], rd.remaining) == rd.counts + Used(rest, rd.remaining);
    } else {
      ReadsCount(v, n, tableLog, maxSV1, rd, rest);
      NoRunUnfolds(v, n, tableLog, maxSV1, rd, rest);
    }
  }

  lemma ReaderFits(rd: Reader)
    requires ReaderOk(rd)
    ensures Fitting(rd.remaining, rd.nbBits)
  {
  }

  lemma ReaderMoved(rd: Reader, rd': Reader)
    requires ReaderOk(rd) && rd'.remaining == rd.remaining && rd'.nbBits == rd.nbBits
    ensures ReaderOk(rd')
  {
  }

  lemma RestSpelt(rest: seq<int>, remaining: nat, nbBits: nat)
    requires Countable(rest) && remaining > 1 && Fitting(remaining, nbBits) && LeadingZeros(rest) < |rest|
    ensures Countable(rest[LeadingZeros(rest)..])
    ensures SpellRest(rest, remaining, nbBits, true)
            == Then(Run(LeadingZeros(rest)), SpellCount(rest[LeadingZeros(rest)..], remaining, nbBits))
  {
    hide Pow2, Then, Run, SpellCount, LeadingZeros;
  }

  lemma RunUnfolds(v: nat, n: nat, tableLog: nat, maxSV1: nat, rd: Reader, z: nat, width: nat)
    requires ReaderOk(rd) && rd.previous0 && ZeroRun(Shr(v, rd.pos)) == (z, width)
    ensures var rd' := rd.(pos := rd.pos + width, counts := rd.counts + Zeros(z));
            && ReaderOk(rd')
            && (rd'.pos < 8 * n && |rd'.counts| < maxSV1 ==>
                  ParseFrom(v, n, tableLog, maxSV1, rd) == ParseCount(v, n, tableLog, maxSV1, rd'))
  {
    hide Pow2, ZeroRun, Zeros, ParseCount, Shr;
  }

  lemma NoRunUnfolds(v: nat, n: nat, tableLog: nat, maxSV1: nat, rd: Reader, rest: seq<int>)
    requires ReaderOk(rd) && !rd.previous0 && Countable(rest) && Fitting(rd.remaining, rd.nbBits)
    ensures ParseFrom(v, n, tableLog, maxSV1, rd) == ParseCount(v, n, tableLog, maxSV1, rd)
    ensures SpellRest(rest, rd.remaining, rd.nbBits, false) == SpellCount(rest, rd.remaining, rd.nbBits)
  {
    hide Pow2, ReaderOk, ParseCount, SpellCount;
  }

  lemma {:induction false} ReadsCount(v: nat, n: nat, tableLog: nat, maxSV1: nat, rd: Reader, rest: seq<int>)
    requires ReaderOk(rd) && 1 < rd.remaining <= 0x8000 && Countable(rest) && Left(rest, rd.remaining) == 1
    ensures Fitting(rd.remaining, rd.nbBits)
    ensures ReadsBack(v, n, tableLog, maxSV1, rd, rest, SpellCount(rest, rd.remaining, rd.nbBits),
                      ParseCount(v, n, tableLog, maxSV1, rd))
    decreases |rest|, 0
  {
    hide Pow2, Low, Shr, Shl, ParseFrom, ParseCount, SpellRest, SpellCount, CountPiece, HighBit, Used, Left, ReaderOk, NextCount;
    CountOpens(rest, rd);
    CountSpelt(rest, rd);
    var count, p := rest[0], SpellCount(rest, rd.remaining, rd.nbBits);
    if Begins(Shr(v, rd.pos), p) {
      var next := After(rd, count);
      NextIs(v, rd, rest);
      if next.remaining > 1 {
        ReadsRest(v, n, tableLog, maxSV1, next, rest[1..]);
        SaysMore(rest[1..], next.remaining, next.nbBits, count == 0);
        ShrShr(v, rd.pos, CountPiece(count, rd.remaining, rd.nbBits).width);
        GoesOn(v, n, tableLog, maxSV1, rd);
        assert next.counts + Used(rest[1..], next.remaining) == rd.counts + Used(rest, rd.remaining);
      } else {
        NothingLeft(rest[1..], next.remaining, next.nbBits, count == 0);
        ThenNothing(CountPiece(count, rd.remaining, rd.nbBits));
        Ends(v, n, tableLog, maxSV1, rd);
      }
    }
  }

  /** The parser once it has read this count. */
  function After(rd: Reader, count: int): Reader
    requires ReaderOk(rd) && -1 <= count < rd.remaining && rd.remaining > 1
  {
    var left := rd.remaining - Abs(count);
    Reader(rd.pos + CountPiece(count, rd.remaining, rd.nbBits).width, left, NextBits(left, rd.nbBits),
           rd.counts + [count], count == 0)
  }

  /** What is left to do after a count. */
  lemma CountOpens(rest: seq<int>, rd: Reader)
    requires ReaderOk(rd) && 1 < rd.remaining && Countable(rest) && Left(rest, rd.remaining) == 1
    ensures rest != [] && -1 <= rest[0] < rd.remaining && Countable(rest[1..]) && Fitting(rd.remaining, rd.nbBits)
    ensures var next := After(rd, rest[0]);
            && next.remaining == rd.remaining - Abs(rest[0]) >= 1 && Left(rest[1..], next.remaining) == 1
            && (next.remaining > 1 ==> ReaderOk(next))
            && Used(rest, rd.remaining) == [rest[0]] + Used(rest[1..], next.remaining)
  {
    hide Pow2, Then, CountPiece, HighBit, SpellRest, SpellCount, Left, Used;
    SaysSomething(rest, rd.remaining, rd.nbBits);
    CountUsed(rest, rd.remaining);
  }

  /** What the writer spells at a count. */
  lemma CountSpelt(rest: seq<int>, rd: Reader)
    requires ReaderOk(rd) && 1 < rd.remaining && Countable(rest) && rest != [] && -1 <= rest[0] < rd.remaining
    requires Fitting(rd.remaining, rd.nbBits) && Countable(rest[1..])
    ensures var next := After(rd, rest[0]);
            && Fitting(next.remaining, next.nbBits)
            && SpellCount(rest, rd.remaining, rd.nbBits)
               == Then(CountPiece(rest[0], rd.remaining, rd.nbBits),
                       SpellRest(rest[1..], next.remaining, next.nbBits, rest[0] == 0))
  {
    hide Pow2, Then, CountPiece, HighBit, SpellRest;
  }

  lemma CountUsed(rest: seq<int>, remaining: nat)
    requires 1 < remaining && rest != [] && Left(rest, remaining) == 1
    ensures Left(rest[1..], remaining - Abs(rest[0])) == 1
    ensures Used(rest, remaining) == [rest[0]] + Used(rest[1..], remaining - Abs(rest[0]))
  {
  }

  lemma NothingLeft(rest: seq<int>, remaining: nat, nbBits: nat, previous0: bool)
    requires Countable(rest) && remaining <= 1
    ensures Fitting(remaining, nbBits) && SpellRest(rest, remaining, nbBits, previous0) == Nothing
    ensures Used(rest, remaining) == []
  {
  }

  lemma NextIs(v: nat, rd: Reader, rest: seq<int>)
    requires ReaderOk(rd) && 1 < rd.remaining <= 0x8000 && Countable(rest) && Left(rest, rd.remaining) == 1
    requires Fitting(rd.remaining, rd.nbBits) && Begins(Shr(v, rd.pos), SpellCount(rest, rd.remaining, rd.nbBits))
    ensures rest != [] && -1 <= rest[0] < rd.remaining && NextCount(v, rd) == After(rd, rest[0])
    ensures var next := After(rd, rest[0]);
            Begins(Shr(Shr(v, rd.pos), CountPiece(rest[0], rd.remaining, rd.nbBits).width),
                   SpellRest(rest[1..], next.remaining, next.nbBits, rest[0] == 0))
  {
    hide Pow2, Low, Shr, Shl, SpellRest, SpellCount, CountPiece, HighBit, Used, Left;
    CountOpens(rest, rd);
    CountSpelt(rest, rd);
    var piece, next := CountPiece(rest[0], rd.remaining, rd.nbBits), After(rd, rest[0]);
    CountFits(rest[0], rd.remaining, rd.nbBits);
    BeginsWithBoth(Shr(v, rd.pos), piece, SpellRest(rest[1..], next.remaining, next.nbBits, rest[0] == 0));
    CountRead(Shr(v, rd.pos), rest[0], rd.remaining, rd.nbBits);
  }

  lemma GoesOn(v: nat, n: nat, tableLog: nat, maxSV1: nat, rd: Reader)
    requires ReaderOk(rd)
    ensures var next := NextCount(v, rd);
            next.remaining > 1 && ReaderOk(next) && |next.counts| < maxSV1 && next.pos < 8 * n ==>
              ParseCount(v, n, tableLog, maxSV1, rd) == ParseFrom(v, n, tableLog, maxSV1, next)
  {
    hide NextCount, ReaderOk, ParseFrom;
  }

  lemma Ends(v: nat, n: nat, tableLog: nat, maxSV1: nat, rd: Reader)
    requires ReaderOk(rd) && NextCount(v, rd).remaining == 1
    ensures var next := NextCount(v, rd);
            |next.counts| <= maxSV1 && next.pos <= 8 * n ==>
              ParseCount(v, n, tableLog, maxSV1, rd) == Accepted((next.pos + 7) / 8, tableLog, next.counts)
  {
    hide NextCount, ReaderOk, ParseFrom;
  }

  lemma SaysMore(rest: seq<int>, remaining: nat, nbBits: nat, previous0: bool)
    requires Countable(rest) && remaining > 1 && Fitting(remaining, nbBits) && Left(rest, remaining) == 1
    ensures SpellRest(rest, remaining, nbBits, previous0).width >= 1 && |Used(rest, remaining)| >= 1
  {
    hide Pow2, Shl;
    SaysSomething(rest, remaining, nbBits);
    if previous0 {
      ZerosSkipped(rest, remaining);
      SaysSomething(rest[LeadingZeros(rest)..], remaining, nbBits);
    }
  }

  /** A header that begins with what the writer spells is accepted, with exactly those counts,
      whatever follows it. */
  lemma HeaderReadsBack(header: seq<U8>, counts: seq<int>, tableLog: nat, maxSV1: nat)
    requires MIN_TABLELOG <= tableLog <= MAX_TABLELOG && Countable(counts) && Left(counts, Pow2(tableLog) + 1) == 1
    requires Begins(LE(header), Spelt(counts, tableLog)) && (Spelt(counts, tableLog).width + 7) / 8 <= |header|
    requires |Used(counts, Pow2(tableLog) + 1)| <= maxSV1
    ensures ParseHeader(header, maxSV1)
            == Accepted((Spelt(counts, tableLog).width + 7) / 8, tableLog, Used(counts, Pow2(tableLog) + 1))
  {
    hide *;
    TableFitting(tableLog);
    TableLogPiece(tableLog);
    SpeltIs(counts, tableLog);
    var v := LE(header);
    var log, rest := Piece(tableLog - MIN_TABLELOG, 4), SpellCount(counts, Pow2(tableLog) + 1, tableLog + 1);
    BeginsWithBoth(v, log, rest);
    HeaderUnfolds(header, tableLog, maxSV1);
    var rd := Reader(4, Pow2(tableLog) + 1, tableLog + 1, [], false);
    ReadsRest(v, |header|, tableLog, maxSV1, rd, counts);
    NoRunUnfolds(v, |header|, tableLog, maxSV1, rd, counts);
    Means(v, |header|, tableLog, maxSV1, rd, counts, rest, ParseHeader(header, maxSV1));
    assert [] + Used(counts, Pow2(tableLog) + 1) == Used(counts, Pow2(tableLog) + 1);
  }

  lemma SpeltIs(counts: seq<int>, tableLog: nat)
    requires MIN_TABLELOG <= tableLog && Countable(counts)
    ensures Fitting(Pow2(tableLog) + 1, tableLog + 1)
    ensures var log, rest := Piece(tableLog - MIN_TABLELOG, 4), SpellCount(counts, Pow2(tableLog) + 1, tableLog + 1);
            Spelt(counts, tableLog) == Then(log, rest) && Spelt(counts, tableLog).width == 4 + rest.width
  {
    hide Pow2, Fitting, SpellCount, Countable;
    TableFitting(tableLog);
  }

  lemma HeaderUnfolds(header: seq<U8>, tableLog: nat, maxSV1: nat)
    requires MIN_TABLELOG <= tableLog <= MAX_TABLELOG && Begins(LE(header), Piece(tableLog - MIN_TABLELOG, 4))
    ensures ReaderOk(Reader(4, Pow2(tableLog) + 1, tableLog + 1, [], false))
    ensures ParseHeader(header, maxSV1)
            == ParseFrom(LE(header), |header|, tableLog, maxSV1, Reader(4, Pow2(tableLog) + 1, tableLog + 1, [], false))
  {
    hide LE, Low, Pow2, ParseFrom, ReaderOk;
    TableLogPiece(tableLog);
  }

  lemma Means(v: nat, n: nat, tableLog: nat, maxSV1: nat, rd: Reader, rest: seq<int>, p: Piece, parse: Parse)
    requires ReadsBack(v, n, tableLog, maxSV1, rd, rest, p, parse) && Begins(Shr(v, rd.pos), p)
    requires (rd.pos + p.width + 7) / 8 <= n && |rd.counts| + |Used(rest, rd.remaining)| <= maxSV1
    ensures parse == Accepted((rd.pos + p.width + 7) / 8, tableLog, rd.counts + Used(rest, rd.remaining))
  {
    hide Begins, Used, Shr;
  }

  lemma TableLogPiece(tableLog: nat)
    requires MIN_TABLELOG <= tableLog <= MAX_TABLELOG
    ensures Fits(Piece(tableLog - MIN_TABLELOG, 4)) && 1 < Pow2(tableLog) + 1 <= 4097
    ensures ReaderOk(Reader(4, Pow2(tableLog) + 1, tableLog + 1, [], false))
  {
    Pow2Values();
    Pow2Mono(1, tableLog);
    Pow2Mono(tableLog, 12);
  }

  // ------------------------------------------------------------------ normalized counts

  lemma {:induction false} SumFromFront(rest: seq<int>)
    requires rest != []
    ensures WeightSum(rest) == Weight(rest[0]) + WeightSum(rest[1..])
  {
    var n := |rest| - 1;
    if n > 0 {
      SumFromFront(rest[..n]);
      assert rest[..n][1..] == rest[1..][..n - 1];
    }
  }

  /** Normalized counts use the probability up exactly, and only zeros follow the count that does. */
  lemma {:induction false} NormalizedLeft(rest: seq<int>, remaining: nat)
    requires Countable(rest) && remaining >= 1 && WeightSum(rest) == remaining - 1
    ensures Left(rest, remaining) == 1 && WeightSum(Used(rest, remaining)) == remaining - 1
    ensures forall i :: |Used(rest, remaining)| <= i < |rest| ==> rest[i] == 0
  {
    hide WeightSum;
    EmptySum();
    if remaining <= 1 {
      NoSum(rest);
    } else {
      SumFromFront(rest);
      NoSumBelow(rest[1..]);
      NormalizedLeft(rest[1..], remaining - Abs(rest[0]));
      var used := Used(rest[1..], remaining - Abs(rest[0]));
      SumFromFront([rest[0]] + used);
      assert ([rest[0]] + used)[1..] == used;
    }
  }

  lemma {:induction false} NoSumBelow(rest: seq<int>)
    requires Countable(rest)
    ensures WeightSum(rest) >= 0
  {
    if rest != [] {
      NoSumBelow(rest[..|rest| - 1]);
    }
  }

  lemma {:induction false} NoSum(rest: seq<int>)
    requires Countable(rest) && WeightSum(rest) <= 0
    ensures WeightSum(rest) == 0 && forall i :: 0 <= i < |rest| ==> rest[i] == 0
  {
    if rest != [] {
      var init := rest[..|rest| - 1];
      NoSumBelow(init);
      NoSum(init);
      assert forall i :: 0 <= i < |init| ==> rest[i] == init[i];
    }
  }

  lemma EmptySum()
    ensures WeightSum([]) == 0
  {
  }

  /** Normalized counts are all written, but for zeros at the end. */
  lemma NormalizedWritten(counts: seq<int>, tableLog: nat)
    requires Normalized(counts, tableLog)
    ensures Countable(counts) && Left(counts, Pow2(tableLog) + 1) == 1
    ensures var used := Used(counts, Pow2(tableLog) + 1);
            && used <= counts && Normalized(used, tableLog)
            && (forall i :: |used| <= i < |counts| ==> counts[i] == 0)
            && (counts != [] && counts[|counts| - 1] != 0 ==> used == counts)
  {
    hide WeightSum, Pow2, Left, Used;
    NormalizedLeft(counts, Pow2(tableLog) + 1);
  }

  // ------------------------------------------------------------------ the writer

  type U32 = x: nat | x < 0x1_0000_0000

  datatype WriteError = TableLogTooLarge | Generic | DstSizeTooSmall

  datatype WriteResult = Written(size: nat) | WriteFailed(error: WriteError)

  /** Bytes to write, with a register that is stored two bytes at a time. */
  function RoomFor(width: nat): nat
    requires width > 0
  {
    2 * ((width - 1) / 16) + 2
  }

  /** The stored bytes, the register above them, and what is still to come spell the whole. */
  ghost predicate Spelling(bytes: seq<U8>, bitStream: nat, bitCount: nat, rest: Piece, whole: Piece)
  {
    && bitStream < Pow2(bitCount)
    && Then(Piece(LE(bytes) + Shl(bitStream, 8 * |bytes|), 8 * |bytes| + bitCount), rest) == whole
  }

  lemma Push(bytes: seq<U8>, bitStream: nat, bitCount: nat, p: Piece, rest: Piece, whole: Piece)
    requires Spelling(bytes, bitStream, bitCount, Then(p, rest), whole) && Fits(p)
    ensures Spelling(bytes, bitStream + Shl(p.number, bitCount), bitCount + p.width, rest, whole)
  {
    hide LE, Shl, Pow2;
    JoinBound(bitStream, bitCount, p.number, p.width);
    ShlAdd(bitStream, Shl(p.number, bitCount), 8 * |bytes|);
    ShlShl(p.number, bitCount, 8 * |bytes|);
    ThenAssociates(Piece(LE(bytes) + Shl(bitStream, 8 * |bytes|), 8 * |bytes| + bitCount), p, rest);
  }

  lemma Drop(bytes: seq<U8>, bitStream: nat, bitCount: nat, rest: Piece, whole: Piece)
    requires Spelling(bytes, bitStream, bitCount, rest, whole) && bitCount >= 16
    ensures Spelling(bytes + Bytes(bitStream, 2), Shr(bitStream, 16), bitCount - 16, rest, whole)
  {
    hide LE, Shl, Shr, Low, Pow2, Bytes;
    ShrBound(bitStream, 16, bitCount - 16);
    LEConcat(bytes, Bytes(bitStream, 2));
    BytesLE(bitStream, 2);
    Split(bitStream, 16);
    ShlAdd(Low(bitStream, 16), Shl(Shr(bitStream, 16), 16), 8 * |bytes|);
    ShlShl(Shr(bitStream, 16), 16, 8 * |bytes|);
  }

  lemma Room(bytes: seq<U8>, bitStream: nat, bitCount: nat, rest: Piece, whole: Piece)
    requires Spelling(bytes, bitStream, bitCount, rest, whole) && |bytes| % 2 == 0 && bitCount >= 1
    ensures whole.width > 0
    ensures bitCount > 16 ==> RoomFor(whole.width) > |bytes| + 2
    ensures bitCount <= 16 && rest == Nothing ==> RoomFor(whole.width) == |bytes| + 2
  {
    hide LE, Shl, Pow2;
    var half := |bytes| / 2;
    assert whole.width == 16 * half + bitCount + rest.width;
  }

  /** Stores the two low bytes of the register if there is room for them. */
  method Emit(header: array<U8>, pos: nat, bitStream: U32, ghost bitCount: nat, ghost rest: Piece, ghost whole: Piece)
    returns (ok: bool, left: U32)
    requires pos <= header.Length && 16 <= bitCount && Spelling(header[..pos], bitStream, bitCount, rest, whole)
    modifies header
    ensures ok <==> pos + 2 <= header.Length
    ensures ok ==> Spelling(header[..pos + 2], left, bitCount - 16, rest, whole) && left <= bitStream
    ensures ok ==> forall k :: pos + 2 <= k < header.Length ==> header[k] == old(header[k])
    ensures !ok ==> header[..] == old(header[..])
  {
    if pos + 2 > header.Length {
      return false, bitStream;
    }
    hide Spelling, Shr;
    Drop(header[..pos], bitStream, bitCount, rest, whole);
    TwoBytes(bitStream);
    ShrLess(bitStream, 16);
    ghost var bytes := header[..pos];
    header[pos] := bitStream % 256;
    header[pos + 1] := bitStream / 256 % 256;
    assert header[..pos + 2] == bytes + Bytes(bitStream, 2);
    ok, left := true, Shr(bitStream, 16);
  }

  lemma TwoBytes(x: nat)
    ensures Bytes(x, 2) == [x % 256, x / 256 % 256]
  {
    assert Bytes(x / 256, 1) == [x / 256 % 256] + Bytes(x / 256 / 256, 0);
  }

  /** Eight codes 3 are sixteen ones. */
  lemma Run24(z: nat)
    requires z >= 24
    ensures Run(z) == Then(Piece(0xFFFF, 16), Run(z - 24))
  {
    hide Shl;
    Threes(z, 8);
    Pow2Values();
  }

  lemma {:induction false} Threes(z: nat, k: nat)
    requires z >= 3 * k
    ensures Run(z) == Then(Piece(Pow2(2 * k) - 1, 2 * k), Run(z - 3 * k))
  {
    hide Shl, Pow2;
    if k == 0 {
      assert Pow2(0) == 1 by { Pow2Values(); }
      ThenNothing(Run(z));
    } else {
      Threes(z - 3, k - 1);
      ThenAssociates(Piece(3, 2), Piece(Pow2(2 * (k - 1)) - 1, 2 * (k - 1)), Run(z - 3 * k));
      ThreeMore(2 * (k - 1));
    }
  }

  lemma ThreeMore(n: nat)
    ensures Then(Piece(3, 2), Piece(Pow2(n) - 1, n)) == Piece(Pow2(n + 2) - 1, n + 2)
  {
    assert Shl(Pow2(n) - 1, 1) == 2 * (Pow2(n) - 1);
    assert Shl(Pow2(n) - 1, 2) == 4 * (Pow2(n) - 1);
    DoublePow(n);
    DoublePow(n + 1);
  }

  /** The codes for the zeros from `start0` to `symbol`. */
  method WriteRun(header: array<U8>, pos0: nat, bitStream0: U32, bitCount0: nat, start0: nat, symbol: nat,
                  ghost rest: Piece, ghost whole: Piece)
    returns (ok: bool, pos: nat, bitStream: U32, bitCount: nat)
    requires start0 <= symbol && pos0 <= header.Length && pos0 % 2 == 0 && 1 <= bitCount0 <= 16
    requires Spelling(header[..pos0], bitStream0, bitCount0, Then(Run(symbol - start0), rest), whole)
    modifies header
    ensures ok ==> pos <= header.Length && pos % 2 == 0 && 1 <= bitCount <= 16
                   && Spelling(header[..pos], bitStream, bitCount, rest, whole)
    ensures ok ==> pos0 <= pos && forall k :: pos <= k < header.Length ==> header[k] == old(header[k])
    ensures !ok ==> whole.width > 0 && RoomFor(whole.width) > header.Length
  {
    hide Spelling, Run, Shl, Pow2, Then, RoomFor;
    pos, bitStream, bitCount := pos0, bitStream0, bitCount0;
    var start := start0;
    while symbol >= start + 24
      invariant start <= symbol && pos0 <= pos <= header.Length && pos % 2 == 0
      invariant Spelling(header[..pos], bitStream, bitCount, Then(Run(symbol - start), rest), whole)
      invariant forall k :: pos <= k < header.Length ==> header[k] == old(header[k])
    {
      Run24(symbol - start);
      ThenAssociates(Piece(0xFFFF, 16), Run(symbol - (start + 24)), rest);
      assert Fits(Piece(0xFFFF, 16)) by { Pow2Values(); }
      start := start + 24;
      Push(header[..pos], bitStream, bitCount, Piece(0xFFFF, 16), Then(Run(symbol - start), rest), whole);
      RegisterBound(header[..pos], bitStream + Shl(0xFFFF, bitCount), bitCount + 16, Then(Run(symbol - start), rest), whole);
      bitStream := bitStream + Shl(0xFFFF, bitCount);
      Room(header[..pos], bitStream, bitCount + 16, Then(Run(symbol - start), rest), whole);
      ok, bitStream := Emit(header, pos, bitStream, bitCount + 16, Then(Run(symbol - start), rest), whole);
      if !ok {
        return;
      }
      pos := pos + 2;
    }
    bitStream, bitCount := PushRun(header[..pos], bitStream, bitCount, symbol - start, rest, whole);
    ok := true;
    if bitCount > 16 {
      Room(header[..pos], bitStream, bitCount, rest, whole);
      ok, bitStream := Emit(header, pos, bitStream, bitCount, rest, whole);
      if !ok {
        return;
      }
      pos, bitCount := pos + 2, bitCount - 16;
    }
  }

  lemma RegisterBound(bytes: seq<U8>, bitStream: nat, bitCount: nat, rest: Piece, whole: Piece)
    requires Spelling(bytes, bitStream, bitCount, rest, whole) && bitCount <= 32
    ensures bitStream < 0x1_0000_0000
  {
    Pow2Mono(bitCount, 32);
    Pow2Values();
  }

  /** Fewer than 24 zeros: at most seven codes 3 and the last code. */
  method PushRun(ghost bytes: seq<U8>, bitStream0: U32, bitCount0: nat, zeros: nat, ghost rest: Piece, ghost whole: Piece)
    returns (bitStream: U32, bitCount: nat)
    requires zeros < 24 && 1 <= bitCount0 <= 16
    requires Spelling(bytes, bitStream0, bitCount0, Then(Run(zeros), rest), whole)
    ensures Spelling(bytes, bitStream, bitCount, rest, whole) && 1 <= bitCount <= 32
  {
    hide Spelling, Shl, Pow2, Then;
    assert Pow2(2) == 4 by { Pow2Values(); }
    bitStream, bitCount := bitStream0, bitCount0;
    var z := zeros;
    ghost var k := 0;
    while z >= 3
      invariant z + 3 * k == zeros && bitCount == bitCount0 + 2 * k
      invariant Spelling(bytes, bitStream, bitCount, Then(Run(z), rest), whole)
    {
      assert Run(z) == Then(Piece(3, 2), Run(z - 3));
      ThenAssociates(Piece(3, 2), Run(z - 3), rest);
      z, k := z - 3, k + 1;
      Push(bytes, bitStream, bitCount, Piece(3, 2), Then(Run(z), rest), whole);
      RegisterBound(bytes, bitStream + Shl(3, bitCount), bitCount + 2, Then(Run(z), rest), whole);
      bitStream, bitCount := bitStream + Shl(3, bitCount), bitCount + 2;
    }
    assert Run(z) == Piece(z, 2);
    Push(bytes, bitStream, bitCount, Piece(z, 2), rest, whole);
    RegisterBound(bytes, bitStream + Shl(z, bitCount), bitCount + 2, rest, whole);
    bitStream, bitCount := bitStream + Shl(z, bitCount), bitCount + 2;
  }

  /** The codeword of one count, as the code works it out. */
  method CountCode(count: int, remaining: nat, nbBits: nat, threshold: nat) returns (code: nat, width: nat)
    requires remaining > 1 && Fitting(remaining, nbBits) && threshold == Pow2(nbBits - 1) && count >= -1
    ensures count < remaining ==> Piece(code, width) == CountPiece(count, remaining, nbBits)
    ensures code == 1 <==> count == 0
  {
    hide Pow2;
    ThresholdAtLeastTwo(nbBits);
    var max := 2 * threshold - 1 - remaining;
    code := count + 1;
    if code >= threshold {
      code := code + max;
    }
    width := nbBits - if code < max then 1 else 0;
  }

  lemma ThresholdAtLeastTwo(nbBits: nat)
    requires nbBits >= 2
    ensures Pow2(nbBits - 1) >= 2
  {
    Pow2Mono(1, nbBits - 1);
  }

  /** Halves the threshold until it fits what remains. */
  method Narrow(remaining: nat, nbBits0: nat, threshold0: nat) returns (nbBits: nat, threshold: nat)
    requires nbBits0 >= 1 && threshold0 == Pow2(nbBits0 - 1) && 1 <= remaining < 2 * threshold0
    ensures 1 <= nbBits <= nbBits0 && threshold == Pow2(nbBits - 1) && Fitting(remaining, nbBits)
    ensures remaining > 1 ==> nbBits == NextBits(remaining, nbBits0)
  {
    nbBits, threshold := nbBits0, threshold0;
    while remaining < threshold
      invariant 1 <= nbBits <= nbBits0 && threshold == Pow2(nbBits - 1) && remaining < 2 * threshold
      invariant nbBits < nbBits0 ==> remaining < threshold0
    {
      DoublePow(nbBits - 2);
      nbBits, threshold := nbBits - 1, threshold / 2;
    }
    hide Pow2;
    AtLeastTwo(remaining, nbBits);
    DoublePow(nbBits - 1);
    HighBitUnique(remaining, nbBits - 1);
  }

  /** The writer between two symbols. */
  ghost predicate Writing(bytes: seq<U8>, bitStream: nat, bitCount: nat, rest: seq<int>,
                          remaining: nat, nbBits: nat, threshold: nat, previous0: bool, whole: Piece)
  {
    && |bytes| % 2 == 0 && 1 <= bitCount <= 16 && Countable(rest)
    && 1 <= nbBits <= 13 && threshold == Pow2(nbBits - 1) && 1 <= remaining < 2 * threshold && Fitting(remaining, nbBits)
    && Spelling(bytes, bitStream, bitCount, SpellRest(rest, remaining, nbBits, previous0), whole)
  }

  /** The first symbol from `start` on whose count is not zero. */
  method FindCount(counts: seq<int>, start: nat, ghost remaining: nat) returns (symbol: nat)
    requires start <= |counts| && remaining > 1
    ensures start <= symbol <= |counts| && symbol - start == LeadingZeros(counts[start..])
    ensures Left(counts[symbol..], remaining) == Left(counts[start..], remaining)
    ensures symbol == |counts| ==> Left(counts[start..], remaining) == remaining
  {
    symbol := start;
    while symbol < |counts| && counts[symbol] == 0
      invariant start <= symbol <= |counts|
      invariant LeadingZeros(counts[start..]) == symbol - start + LeadingZeros(counts[symbol..])
      invariant Left(counts[symbol..], remaining) == Left(counts[start..], remaining)
    {
      assert counts[symbol..][1..] == counts[symbol + 1..];
      symbol := symbol + 1;
    }
  }

  datatype Option<T> = None | Some(value: T)

  /** One count: its codeword, what remains, and the width that fits it. */
  method WriteCount(header: array<U8>, pos0: nat, bitStream0: U32, bitCount0: nat, count: int,
                    remaining: nat, nbBits0: nat, threshold0: nat, ghost rest: seq<int>, ghost whole: Piece)
    returns (error: Option<WriteError>, pos: nat, bitStream: U32, bitCount: nat, left: nat, nbBits: nat, threshold: nat)
    requires pos0 <= header.Length && remaining > 1 && Countable(rest) && rest != [] && count == rest[0] >= -1
    requires pos0 % 2 == 0 && 1 <= bitCount0 <= 16 && 1 <= nbBits0 <= 13 && Fitting(remaining, nbBits0)
    requires threshold0 == Pow2(nbBits0 - 1) && remaining < 2 * threshold0
    requires Spelling(header[..pos0], bitStream0, bitCount0, SpellCount(rest, remaining, nbBits0), whole)
    modifies header
    ensures error == None ==>
              && Abs(count) < remaining && left == remaining - Abs(count) && pos0 <= pos <= header.Length
              && Writing(header[..pos], bitStream, bitCount, rest[1..], left, nbBits, threshold, count == 0, whole)
              && forall k :: pos <= k < header.Length ==> header[k] == old(header[k])
    ensures error != None ==>
              || (error == Some(Generic) && Abs(count) >= remaining)
              || (error == Some(WriteError.DstSizeTooSmall) && whole.width > 0 && RoomFor(whole.width) > header.Length)
  {
    hide Spelling, SpellCount, SpellRest, Shl, Pow2, RoomFor, Then, CountPiece, Fitting, Countable, Fits;
    error, pos, bitStream, bitCount := None, pos0, bitStream0, bitCount0;
    left, nbBits, threshold := 0, nbBits0, threshold0;
    var code, width := CountCode(count, remaining, nbBits0, threshold0);
    if Abs(count) >= remaining {
      error := Some(Generic);
      return;
    }
    left := remaining - Abs(count);
    CountFits(count, remaining, nbBits0);
    SpellOne(rest, remaining, nbBits0);
    ghost var later := SpellRest(rest[1..], left, NextBits(left, nbBits0), count == 0);
    Push(header[..pos], bitStream, bitCount, Piece(code, width), later, whole);
    bitCount := bitCount + width;
    RegisterBound(header[..pos], bitStream + Shl(code, bitCount0), bitCount, later, whole);
    bitStream := bitStream + Shl(code, bitCount0);
    nbBits, threshold := Narrow(left, nbBits0, threshold0);
    SameRest(rest[1..], left, NextBits(left, nbBits0), nbBits, count == 0);
    if bitCount > 16 {
      Room(header[..pos], bitStream, bitCount, later, whole);
      var ok;
      ok, bitStream := Emit(header, pos, bitStream, bitCount, later, whole);
      if !ok {
        error := Some(WriteError.DstSizeTooSmall);
        return;
      }
      pos, bitCount := pos + 2, bitCount - 16;
    }
  }

  lemma SpellOne(rest: seq<int>, remaining: nat, nbBits: nat)
    requires Countable(rest) && Fitting(remaining, nbBits) && remaining > 1 && rest != [] && Abs(rest[0]) < remaining
    ensures -1 <= rest[0] < remaining && Countable(rest[1..]) && nbBits >= 1 && remaining < 2 * Pow2(nbBits - 1)
    ensures var left := remaining - Abs(rest[0]);
            && SpellCount(rest, remaining, nbBits)
               == Then(CountPiece(rest[0], remaining, nbBits), SpellRest(rest[1..], left, NextBits(left, nbBits), rest[0] == 0))
  {
    hide Pow2, Then, CountPiece, SpellRest;
  }

  lemma SameRest(rest: seq<int>, left: nat, a: nat, b: nat, previous0: bool)
    requires Countable(rest) && Fitting(left, a) && Fitting(left, b) && (left > 1 ==> a == b)
    ensures SpellRest(rest, left, a, previous0) == SpellRest(rest, left, b, previous0)
  {
    if left <= 1 {
      NothingLeft(rest, left, a, previous0);
      NothingLeft(rest, left, b, previous0);
    }
  }

  /** The zeros after a zero, found and written; `symbol` is the next one with a count, or the
      end if there is none. */
  method BeforeCount(header: array<U8>, pos0: nat, bitStream0: U32, bitCount0: nat, counts: seq<int>, start: nat,
                     remaining: nat, nbBits: nat, ghost threshold: nat, previous0: bool, ghost whole: Piece)
    returns (error: Option<WriteError>, pos: nat, bitStream: U32, bitCount: nat, symbol: nat)
    requires start < |counts| && pos0 <= header.Length && remaining > 1
    requires Writing(header[..pos0], bitStream0, bitCount0, counts[start..], remaining, nbBits, threshold, previous0, whole)
    modifies header
    ensures error == None ==>
              && start <= symbol <= |counts| && pos0 <= pos <= header.Length
              && Left(counts[symbol..], remaining) == Left(counts[start..], remaining)
              && (forall k :: pos <= k < header.Length ==> header[k] == old(header[k]))
              && (symbol < |counts| ==> Ready(header[..pos], bitStream, bitCount, counts[symbol..], remaining, nbBits, whole))
    ensures error != None ==>
              error == Some(WriteError.DstSizeTooSmall) && whole.width > 0 && RoomFor(whole.width) > header.Length
  {
    hide Spelling, SpellCount, SpellRest, Pow2, RoomFor, Then, Fitting, Left, LeadingZeros, Countable, Run;
    error, pos, bitStream, bitCount, symbol := None, pos0, bitStream0, bitCount0, start;
    if !previous0 {
      PlainRest(counts[start..], remaining, nbBits);
      return;
    }
    symbol := FindCount(counts, start, remaining);
    if symbol == |counts| {
      return;
    }
    assert counts[start..][symbol - start..] == counts[symbol..];
    RestSpelt(counts[start..], remaining, nbBits);
    var ok;
    ok, pos, bitStream, bitCount := WriteRun(header, pos0, bitStream0, bitCount0, start, symbol,
                                             SpellCount(counts[symbol..], remaining, nbBits), whole);
    if !ok {
      error := Some(WriteError.DstSizeTooSmall);
    }
  }

  /** The writer before a count, its run of zeros behind it. */
  ghost predicate Ready(bytes: seq<U8>, bitStream: nat, bitCount: nat, rest: seq<int>,
                        remaining: nat, nbBits: nat, whole: Piece)
  {
    && |bytes| % 2 == 0 && 1 <= bitCount <= 16 && Countable(rest) && Fitting(remaining, nbBits)
    && Spelling(bytes, bitStream, bitCount, SpellCount(rest, remaining, nbBits), whole)
  }

  lemma PlainRest(rest: seq<int>, remaining: nat, nbBits: nat)
    requires Countable(rest) && Fitting(remaining, nbBits)
    ensures SpellRest(rest, remaining, nbBits, false) == SpellCount(rest, remaining, nbBits)
  {
  }

  // ------------------------------------------------------------------ the whole writer

  /** How writing a header with these counts ends. */
  ghost predicate WriteDone(r: WriteResult, header: seq<U8>, counts: seq<int>, tableLog: nat)
    requires MIN_TABLELOG <= tableLog && Countable(counts)
  {
    var whole := Spelt(counts, tableLog);
    if Left(counts, Pow2(tableLog) + 1) != 1 then r.WriteFailed?
    else
      && whole.width > 0
      && if RoomFor(whole.width) > |header| then r == WriteFailed(WriteError.DstSizeTooSmall)
         else
           && r == Written((whole.width + 7) / 8) && r.size <= |header|
           && LE(header[..r.size]) == whole.number && Fits(whole)
  }

  lemma Failing(error: WriteError, header: seq<U8>, counts: seq<int>, tableLog: nat)
    requires MIN_TABLELOG <= tableLog && Countable(counts)
    requires var whole := Spelt(counts, tableLog);
             || (error == Generic && Left(counts, Pow2(tableLog) + 1) != 1)
             || (error == WriteError.DstSizeTooSmall && whole.width > 0 && RoomFor(whole.width) > |header|)
    ensures WriteDone(WriteFailed(error), header, counts, tableLog)
  {
    hide Spelt, Left, RoomFor, LE;
  }

  lemma WritingStarts(counts: seq<int>, tableLog: nat)
    requires MIN_TABLELOG <= tableLog <= MAX_TABLELOG && Countable(counts)
    ensures Writing([], tableLog - MIN_TABLELOG, 4, counts, Pow2(tableLog) + 1, tableLog + 1, Pow2(tableLog), false,
                    Spelt(counts, tableLog))
  {
    hide SpellCount, Countable, Fitting;
    TableLogPiece(tableLog);
    SpeltIs(counts, tableLog);
    PlainRest(counts, Pow2(tableLog) + 1, tableLog + 1);
    hide Pow2, SpellRest;
  }

  lemma LogRange()
    ensures MIN_TABLELOG == 5 && MAX_TABLELOG == 12
  {
  }

  lemma LeftStep(counts: seq<int>, symbol: nat, remaining: nat)
    requires symbol < |counts| && remaining > 1
    ensures counts[symbol..][1..] == counts[symbol + 1..]
    ensures Left(counts[symbol..], remaining) == Left(counts[symbol + 1..], remaining - Abs(counts[symbol]))
    ensures Abs(counts[symbol]) >= remaining ==> Left(counts[symbol..], remaining) < 1
  {
  }

  lemma LeftAtEnd(rest: seq<int>, remaining: nat)
    requires rest == [] || remaining <= 1
    ensures Left(rest, remaining) == remaining
  {
  }

  lemma Countables(counts: seq<int>, symbol: nat)
    requires Countable(counts) && symbol < |counts|
    ensures Countable(counts[symbol..]) && counts[symbol..] != [] && counts[symbol] == counts[symbol..][0] >= -1
  {
  }

  lemma WritingRange(bytes: seq<U8>, bitStream: nat, bitCount: nat, rest: seq<int>,
                     remaining: nat, nbBits: nat, threshold: nat, previous0: bool, whole: Piece)
    requires Writing(bytes, bitStream, bitCount, rest, remaining, nbBits, threshold, previous0, whole)
    ensures 1 <= nbBits <= 13 && threshold == Pow2(nbBits - 1) && remaining < 2 * threshold && Fitting(remaining, nbBits)
    ensures 1 <= remaining && |bytes| % 2 == 0 && 1 <= bitCount <= 16
  {
    hide Pow2, Fitting, Spelling, SpellRest;
  }

  lemma ReadyRange(bytes: seq<U8>, bitStream: nat, bitCount: nat, rest: seq<int>,
                   remaining: nat, nbBits: nat, whole: Piece)
    requires Ready(bytes, bitStream, bitCount, rest, remaining, nbBits, whole)
    ensures |bytes| % 2 == 0 && 1 <= bitCount <= 16 && Countable(rest) && Fitting(remaining, nbBits)
    ensures Spelling(bytes, bitStream, bitCount, SpellCount(rest, remaining, nbBits), whole)
  {
    hide Fitting, Spelling, SpellCount, Countable;
  }

  lemma WritingEnds(bytes: seq<U8>, bitStream: nat, bitCount: nat, rest: seq<int>,
                    nbBits: nat, threshold: nat, previous0: bool, whole: Piece)
    requires Writing(bytes, bitStream, bitCount, rest, 1, nbBits, threshold, previous0, whole)
    ensures Spelling(bytes, bitStream, bitCount, Nothing, whole)
  {
    hide Pow2, Fitting, Spelling, SpellRest, Countable;
    NothingLeft(rest, 1, nbBits, previous0);
  }

  lemma Flushed(bytes: seq<U8>, bitStream: nat, bitCount: nat, whole: Piece)
    requires Spelling(bytes, bitStream, bitCount, Nothing, whole) && 1 <= bitCount <= 16
    ensures var n := (bitCount + 7) / 8;
            1 <= n <= 2 && LE(bytes + Bytes(bitStream, n)) == whole.number && Bytes(bitStream, n) == Bytes(bitStream, 2)[..n]
    ensures whole.width == 8 * |bytes| + bitCount && Fits(whole)
  {
    hide LE, Shl, Low, Pow2, Bytes;
    var n := (bitCount + 7) / 8;
    Pow2Mono(bitCount, 8 * n);
    LowSmall(bitStream, 8 * n);
    LEConcat(bytes, Bytes(bitStream, n));
    BytesLE(bitStream, n);
    BytesPrefix(bitStream, 2, n);
    LEBound(bytes);
    ThenNothing(Piece(LE(bytes) + Shl(bitStream, 8 * |bytes|), 8 * |bytes| + bitCount));
    JoinBound(LE(bytes), 8 * |bytes|, bitStream, bitCount);
  }

  /** The register's last one or two bytes; room for two is asked for either way. */
  method FlushHeader(header: array<U8>, pos: nat, bitStream: U32, bitCount: nat, ghost counts: seq<int>,
                     ghost tableLog: nat, ghost whole: Piece)
    returns (r: WriteResult)
    requires MIN_TABLELOG <= tableLog && Countable(counts) && whole == Spelt(counts, tableLog)
    requires Left(counts, Pow2(tableLog) + 1) == 1 && pos <= header.Length && pos % 2 == 0 && 1 <= bitCount <= 16
    requires Spelling(header[..pos], bitStream, bitCount, Nothing, whole)
    modifies header
    ensures WriteDone(r, header[..], counts, tableLog)
    ensures r.Written? ==> pos < r.size && forall k :: r.size < k < header.Length ==> header[k] == old(header[k])
  {
    hide Spelling, Spelt, Left, LE, Bytes, Fits, RoomFor, Countable;
    Room(header[..pos], bitStream, bitCount, Nothing, whole);
    Flushed(header[..pos], bitStream, bitCount, whole);
    TwoBytes(bitStream);
    if pos + 2 > header.Length {
      return WriteFailed(WriteError.DstSizeTooSmall);
    }
    ghost var bytes, n := header[..pos], (bitCount + 7) / 8;
    header[pos] := bitStream % 256;
    header[pos + 1] := bitStream / 256 % 256;
    r := Written(pos + (bitCount + 7) / 8);
    assert header[..pos + 2] == bytes + Bytes(bitStream, 2);
    assert header[..][..r.size] == header[..r.size] == bytes + Bytes(bitStream, n);
    assert (whole.width + 7) / 8 == r.size;
  }

  /** Counts and writer undone by the parser: what was written is read back, whatever follows it. */
  lemma WrittenReadsBack(r: WriteResult, header: seq<U8>, more: seq<U8>, counts: seq<int>, tableLog: nat, maxSV1: nat)
    requires MIN_TABLELOG <= tableLog <= MAX_TABLELOG && Countable(counts)
    requires r.Written? && WriteDone(r, header, counts, tableLog)
    requires |Used(counts, Pow2(tableLog) + 1)| <= maxSV1
    ensures r.size <= |header|
    ensures ParseHeader(header[..r.size] + more, maxSV1) == Accepted(r.size, tableLog, Used(counts, Pow2(tableLog) + 1))
  {
    DoneIs(r, header, counts, tableLog);
    hide *;
    var whole, bytes := Spelt(counts, tableLog), header[..r.size];
    LEConcat(bytes, more);
    StillBegins(LE(bytes), LE(more), 8 * r.size, whole);
    HeaderReadsBack(bytes + more, counts, tableLog, maxSV1);
  }

  lemma DoneIs(r: WriteResult, header: seq<U8>, counts: seq<int>, tableLog: nat)
    requires MIN_TABLELOG <= tableLog && Countable(counts) && r.Written? && WriteDone(r, header, counts, tableLog)
    ensures Left(counts, Pow2(tableLog) + 1) == 1 && r.size <= |header|
    ensures var whole := Spelt(counts, tableLog);
            && r.size == (whole.width + 7) / 8 && whole.width <= 8 * r.size && Fits(whole)
            && LE(header[..r.size]) == whole.number && RoomFor(whole.width) <= |header| && whole.width > 0
  {
    hide Spelt, Left, LE, RoomFor, Fits, Countable, Pow2;
  }

  lemma StillBegins(x: nat, y: nat, n: nat, p: Piece)
    requires Fits(p) && x == p.number && p.width <= n
    ensures Begins(x + Shl(y, n), p)
  {
    hide Low, Shr, Shl, Pow2;
    Pow2Mono(p.width, n);
    SplitUnique(x, y, n);
    LowLow(x + Shl(y, n), p.width, n - p.width);
    LowSmall(x, p.width);
  }

  /** FSE_writeNCount into a buffer that may be too small. */
  method WriteNCount(header: array<U8>, counts: seq<int>, tableLog: nat) returns (r: WriteResult)
    requires Countable(counts)
    modifies header
    ensures tableLog > MAX_TABLELOG ==> r == WriteFailed(WriteError.TableLogTooLarge)
    ensures tableLog < MIN_TABLELOG ==> r == WriteFailed(Generic)
    ensures MIN_TABLELOG <= tableLog <= MAX_TABLELOG ==> WriteDone(r, header[..], counts, tableLog)
    ensures r.Written? ==> forall k :: r.size < k < header.Length ==> header[k] == old(header[k])
  {
    hide *;
    LogRange();
    if tableLog > MAX_TABLELOG {
      return WriteFailed(WriteError.TableLogTooLarge);
    }
    if tableLog < MIN_TABLELOG {
      return WriteFailed(Generic);
    }
    ghost var whole := Spelt(counts, tableLog);
    var bitStream: U32, bitCount: nat, pos: nat := tableLog - MIN_TABLELOG, 4, 0;
    var tableSize := Pow2(tableLog);
    var remaining: nat, threshold: nat, nbBits: nat := tableSize + 1, tableSize, tableLog + 1;
    var symbol: nat, previousIs0 := 0, false;
    WritingStarts(counts, tableLog);
    assert counts[0..] == counts && header[..0] == [];
    while symbol < |counts| && remaining > 1
      invariant symbol <= |counts| && pos <= header.Length && remaining >= 1
      invariant Left(counts[symbol..], remaining) == Left(counts, tableSize + 1)
      invariant Writing(header[..pos], bitStream, bitCount, counts[symbol..], remaining, nbBits, threshold, previousIs0, whole)
      invariant forall k :: pos <= k < header.Length ==> header[k] == old(header[k])
    {
      var error;
      WritingRange(header[..pos], bitStream, bitCount, counts[symbol..], remaining, nbBits, threshold, previousIs0, whole);
      error, pos, bitStream, bitCount, symbol := BeforeCount(header, pos, bitStream, bitCount, counts, symbol, remaining,
                                                             nbBits, threshold, previousIs0, whole);
      if error.Some? {
        Failing(error.value, header[..], counts, tableLog);
        return WriteFailed(error.value);
      }
      if symbol == |counts| {
        break;
      }
      ReadyRange(header[..pos], bitStream, bitCount, counts[symbol..], remaining, nbBits, whole);
      Countables(counts, symbol);
      LeftStep(counts, symbol, remaining);
      var count, left: nat := counts[symbol], remaining;
      error, pos, bitStream, bitCount, left, nbBits, threshold
        := WriteCount(header, pos, bitStream, bitCount, count, remaining, nbBits, threshold, counts[symbol..], whole);
      if error.Some? {
        Failing(error.value, header[..], counts, tableLog);
        return WriteFailed(error.value);
      }
      remaining := left;
      symbol := symbol + 1;
      previousIs0 := count == 0;
      WritingRange(header[..pos], bitStream, bitCount, counts[symbol..], remaining, nbBits, threshold, previousIs0, whole);
    }
    LeftAtEnd(counts[symbol..], remaining);
    if remaining != 1 {
      Failing(Generic, header[..], counts, tableLog);
      return WriteFailed(Generic);
    }
    WritingRange(header[..pos], bitStream, bitCount, counts[symbol..], 1, nbBits, threshold, previousIs0, whole);
    WritingEnds(header[..pos], bitStream, bitCount, counts[symbol..], nbBits, threshold, previousIs0, whole);
    r := FlushHeader(header, pos, bitStream, bitCount, counts, tableLog, whole);
  }
}

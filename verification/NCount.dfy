/** FSE_readNCount: the compact header of normalized counts (section 4.1.1 of RFC 8878). The
    parser keeps a 32-bit window on the header; it is specified by a reader that takes the
    header as one number and a bit position. */
module NCount {
  import opened Bits
  import opened LittleEndian
  import opened FseCounts

  datatype NCountError = TableLogTooLarge | CorruptionDetected | MaxSymbolValueTooSmall

  datatype NCountResult = Parsed(size: nat, maxSymbolValue: nat, tableLog: nat) | Failed(error: NCountError)

  // ------------------------------------------------------------------ one count

  /** The number of bits the short codewords save: values below it take one bit less. */
  function ShortCodes(remaining: nat, threshold: nat): int
  {
    2 * threshold - 1 - remaining
  }

  /** Reads one value in [0, remaining] from the low bits of x; `nbBits` is the long width. */
  function ReadValue(x: nat, remaining: nat, nbBits: nat): (r: (nat, nat))
    requires nbBits >= 1 && Pow2(nbBits - 1) <= remaining < 2 * Pow2(nbBits - 1)
    ensures r.0 <= remaining && r.1 <= nbBits
  {
    var threshold := Pow2(nbBits - 1);
    var max := ShortCodes(remaining, threshold);
    Split(x, nbBits - 1);
    Split(x, nbBits);
    DoublePow(nbBits - 1);
    if Low(x, nbBits - 1) < max then (Low(x, nbBits - 1), nbBits - 1)
    else
      var count := Low(x, nbBits);
      (if count >= threshold then count - max else count, nbBits)
  }

  /** The codeword of a value: its bits and its width. */
  function Codeword(value: nat, remaining: nat, nbBits: nat): (nat, nat)
    requires nbBits >= 1 && Pow2(nbBits - 1) <= remaining < 2 * Pow2(nbBits - 1) && value <= remaining
  {
    var threshold := Pow2(nbBits - 1);
    var max := ShortCodes(remaining, threshold);
    if value < max then (value, nbBits - 1)
    else if value < threshold then (value, nbBits)
    else (value + max, nbBits)
  }

  /** The codewords form a complete prefix code: x starts with the codeword of exactly the
      value that ReadValue returns, and consumes exactly its width. */
  lemma CompletePrefixCode(x: nat, value: nat, remaining: nat, nbBits: nat)
    requires nbBits >= 1 && Pow2(nbBits - 1) <= remaining < 2 * Pow2(nbBits - 1) && value <= remaining
    ensures var (code, width) := Codeword(value, remaining, nbBits);
            code < Pow2(width) && (Low(x, width) == code <==> ReadValue(x, remaining, nbBits) == (value, width))
    ensures ReadValue(x, remaining, nbBits).0 == value ==>
              ReadValue(x, remaining, nbBits).1 == Codeword(value, remaining, nbBits).1
  {
    Split(x, nbBits - 1);
    Split(x, nbBits);
    DoublePow(nbBits - 1);
    TopBit(x, nbBits - 1);
    hide Shl, Low;
  }

  /** Which prefix code: the shorter codewords belong to the smallest values, and among
      codewords of one width a larger value has the larger codeword. */
  lemma CodewordsOrdered(a: nat, b: nat, remaining: nat, nbBits: nat)
    requires nbBits >= 1 && Pow2(nbBits - 1) <= remaining < 2 * Pow2(nbBits - 1) && a < b <= remaining
    ensures nbBits - 1 <= Codeword(a, remaining, nbBits).1 <= Codeword(b, remaining, nbBits).1 <= nbBits
    ensures Codeword(a, remaining, nbBits).1 == nbBits - 1 <==> a + remaining + 1 < 2 * Pow2(nbBits - 1)
    ensures Codeword(a, remaining, nbBits).1 == Codeword(b, remaining, nbBits).1 ==>
              Codeword(a, remaining, nbBits).0 < Codeword(b, remaining, nbBits).0
  {
    hide Pow2;
  }

  /** The example of section 4.1.1 of RFC 8878: with 157 as the largest value, 7 bits below 98 say
      the value; 8 bits are needed for 98 to 127, and for 128 to 157, which are moved up by 98. */
  lemma CodewordExample(value: nat)
    requires value <= 157
    ensures 2 * Pow2(7) == 256
    ensures Codeword(value, 157, 8) == if value < 98 then (value, 7) else if value < 128 then (value, 8) else (value + 98, 8)
  {
    assert Pow2(7) == 128 by { Pow2Values(); }
    hide Pow2;
  }

  lemma TopBit(x: nat, n: nat)
    ensures Low(x, n + 1) == Low(x, n) || Low(x, n + 1) == Low(x, n) + Pow2(n)
  {
    LowLow(x, n, 1);
    Split(Low(x, n + 1), n);
    var b := Low(Shr(x, n), 1);
    assert b == 0 || b == 1;
    ShlZero(n);
  }

  // ------------------------------------------------------------------ runs of zeros

  /** A run of two-bit codes: each 3 means three more zeros and another code. */
  function ZeroRun(x: nat): (r: (nat, nat))
  {
    if x % 4 == 3 then
      var rest := ZeroRun(x / 4);
      (rest.0 + 3, rest.1 + 2)
    else (x % 4, 2)
  }

  /** The number of leading codes 3 in a 32-bit window, as the code computes it. */
  function Repeats(bitStream: nat): nat
    requires bitStream < 0x1_0000_0000
  {
    CtzPositive(0xFFFF_FFFF - bitStream);
    CountTrailingZeros(BitOr(0xFFFF_FFFF - bitStream, 0x8000_0000)) / 2
  }

  lemma CtzPositive(a: nat)
    ensures BitOr(a, 0x8000_0000) > 0
  {
    OrAtLeast(a, 0x8000_0000);
  }

  lemma {:induction false} OrAtLeast(a: nat, b: nat)
    ensures BitOr(a, b) >= b
  {
    if a != 0 || b != 0 {
      OrAtLeast(a / 2, b / 2);
    }
  }

  /** Counting trailing zeros of the complement counts trailing ones. */
  lemma {:induction false} TrailingOnes(b: nat, n: nat)
    requires n >= 1 && b < Pow2(n)
    ensures BitOr(Pow2(n) - 1 - b, Pow2(n - 1)) > 0
    ensures OnesEnd(b, n, CountTrailingZeros(BitOr(Pow2(n) - 1 - b, Pow2(n - 1))))
  {
    hide Pow2, BitOr, CountTrailingZeros, OnesEnd;
    var p := Pow2(n - 1);
    var a := 2 * p - 1 - b;
    DoublePow(n - 1);
    OrAtLeast(a, p);
    if n > 1 && b % 2 == 1 {
      DoublePow(n - 2);
      TrailingOnes(b / 2, n - 1);
      OrEven(a, Pow2(n - 2));
      assert a / 2 == p - 1 - b / 2;
      OneMore(b, n, CountTrailingZeros(BitOr(a / 2, Pow2(n - 2))));
    } else {
      NoOnes(b, n);
      OrOdd(a, p);
    }
  }

  /** The lowest k bits of the n-bit number b are ones, and the next one, if there is room left
      to see it, is not. */
  ghost predicate OnesEnd(b: nat, n: nat, k: nat)
  {
    n >= 1 && k <= n - 1 && Low(b, k) == Pow2(k) - 1 && (k < n - 1 ==> Shr(b, k) % 2 == 0)
  }

  lemma NoOnes(b: nat, n: nat)
    requires n == 1 || (n > 1 && b % 2 == 0)
    ensures OnesEnd(b, n, 0) && Pow2(0) == 1
  {
  }

  lemma OneMore(b: nat, n: nat, k: nat)
    requires b % 2 == 1 && n > 1 && OnesEnd(b / 2, n - 1, k)
    ensures OnesEnd(b, n, k + 1)
  {
  }

  lemma OrEven(a: nat, q: nat)
    requires a % 2 == 0
    ensures BitOr(a, 2 * q) == 2 * BitOr(a / 2, q)
    ensures BitOr(a / 2, q) > 0 ==> CountTrailingZeros(BitOr(a, 2 * q)) == CountTrailingZeros(BitOr(a / 2, q)) + 1
  {
  }

  lemma OrOdd(a: nat, p: nat)
    requires a % 2 == 1 || p % 2 == 1
    ensures BitOr(a, p) % 2 == 1 && CountTrailingZeros(BitOr(a, p)) == 0
  {
  }

  /** What `repeats` tells about the window: that many codes 3, and then, if there is room
      left to see it, a code that is not 3. */
  lemma RepeatsSpec(bitStream: nat)
    requires bitStream < 0x1_0000_0000
    ensures var r := Repeats(bitStream);
            && r <= 15 && Low(bitStream, 2 * r) == Pow2(2 * r) - 1
            && (r < 15 ==> Low(Shr(bitStream, 2 * r), 2) < 3)
  {
    hide Shl, Shr, Low, CountTrailingZeros, BitOr;
    Pow2Values();
    DoublePow(31);
    TrailingOnes(bitStream, 32);
    PairsOfOnes(bitStream, CountTrailingZeros(BitOr(0xFFFF_FFFF - bitStream, 0x8000_0000)));
  }

  /** k trailing ones are k / 2 codes 3, and the bit after them spoils the next code. */
  lemma PairsOfOnes(x: nat, k: nat)
    requires Low(x, k) == Pow2(k) - 1
    ensures Low(x, 2 * (k / 2)) == Pow2(2 * (k / 2)) - 1
    ensures Shr(x, k) % 2 == 0 ==> Low(Shr(x, 2 * (k / 2)), 2) < 3
  {
    hide *;
    if k % 2 == 1 {
      AllOnes(x, k - 1, 1);
      ShrShr(x, k - 1, 1);
      TwoBits(Shr(x, k - 1));
      Quarter(Shr(x, k - 1));
    } else {
      TwoBits(Shr(x, k));
      Quarter(Shr(x, k));
    }
  }

  lemma TwoBits(y: nat)
    ensures Low(y, 2) == y % 4 && Shr(y, 1) == y / 2 && Shr(y, 2) == y / 4
  {
    OneBit(y);
    OneBit(y / 2);
    Quarter(y);
    assert Low(y, 2) == y % 2 + 2 * Low(y / 2, 1);
    assert Shr(y, 2) == Shr(y / 2, 1);
  }

  lemma OneBit(y: nat)
    ensures Low(y, 1) == y % 2 && Shr(y, 1) == y / 2
  {
    assert Low(y / 2, 0) == 0;
  }

  lemma Quarter(y: nat)
    ensures y % 4 == y % 2 + 2 * (y / 2 % 2) && y / 4 == y / 2 / 2
  {
  }

  lemma AllOnes(x: nat, a: nat, b: nat)
    requires Low(x, a + b) == Pow2(a + b) - 1
    ensures Low(x, a) == Pow2(a) - 1 && Low(Shr(x, a), b) == Pow2(b) - 1
  {
    LowLow(x, a, b);
    Pow2Add(b, a);
    ShlAdd(Pow2(b) - 1, 1, a);
    SplitUnique(Pow2(a) - 1, Pow2(b) - 1, a);
  }

  lemma ShrNone(x: nat)
    ensures Shr(x, 0) == x
  {
  }

  /** Skipping r codes 3 adds three zeros each. */
  lemma {:induction false} SkipThrees(x: nat, r: nat)
    requires Low(x, 2 * r) == Pow2(2 * r) - 1
    ensures ZeroRun(x) == (3 * r + ZeroRun(Shr(x, 2 * r)).0, 2 * r + ZeroRun(Shr(x, 2 * r)).1)
  {
    hide Low, Shr, Pow2;
    ShrNone(x);
    if r > 0 {
      AllOnes(x, 2, 2 * (r - 1));
      assert Pow2(2) == 4 by { Pow2Values(); }
      TwoBits(x);
      ShrShr(x, 2, 2 * (r - 1));
      SkipThrees(x / 4, r - 1);
    }
  }

  // ------------------------------------------------------------------ the specification

  datatype Parse =
    | Accepted(size: nat, tableLog: nat, counts: seq<int>)
    | Rejected(error: NCountError)
    | Truncated  // the header ends before the counts do

  /** A count stored as a 16-bit signed number. */
  function ToShort(count: int): int
  {
    if count >= 0x8000 then count - 0x1_0000 else count
  }

  function Abs(count: int): nat
  {
    if count < 0 then -count else count
  }

  /** The counts read so far and what is left to read: position in the header number v of
      n bytes, remaining probability plus one, width of a long codeword. */
  datatype Reader = Reader(pos: nat, remaining: nat, nbBits: nat, counts: seq<int>, previous0: bool)

  predicate ReaderOk(rd: Reader)
  {
    rd.nbBits >= 2 && Pow2(rd.nbBits - 1) <= rd.remaining < 2 * Pow2(rd.nbBits - 1)
  }

  function Zeros(n: nat): (r: seq<int>)
    ensures |r| == n
    ensures forall i :: 0 <= i < n ==> r[i] == 0
  {
    if n == 0 then [] else Zeros(n - 1) + [0]
  }

  function Finish(n: nat, tableLog: nat, maxSV1: nat, pos: nat, remaining: nat, counts: seq<int>): Parse
  {
    if remaining != 1 then Rejected(CorruptionDetected)
    else if |counts| > maxSV1 then Rejected(MaxSymbolValueTooSmall)
    else if pos > 8 * n then Rejected(CorruptionDetected)
    else Accepted((pos + 7) / 8, tableLog, counts)
  }

  /** Reads the rest of the counts. */
  function ParseFrom(v: nat, n: nat, tableLog: nat, maxSV1: nat, rd: Reader): Parse
    requires ReaderOk(rd)
    decreases maxSV1 - |rd.counts|, 1
  {
    if rd.previous0 then
      var run := ZeroRun(Shr(v, rd.pos));
      var rd' := rd.(pos := rd.pos + run.1, counts := rd.counts + Zeros(run.0));
      if rd'.pos >= 8 * n then Truncated
      else if |rd'.counts| >= maxSV1 then Finish(n, tableLog, maxSV1, rd'.pos, rd.remaining, rd'.counts)
      else ParseCount(v, n, tableLog, maxSV1, rd')
    else ParseCount(v, n, tableLog, maxSV1, rd)
  }

  /** Reads one count, and then the rest. */
  function ParseCount(v: nat, n: nat, tableLog: nat, maxSV1: nat, rd: Reader): Parse
    requires ReaderOk(rd)
    decreases maxSV1 - |rd.counts|, 0
  {
    var rd' := NextCount(v, rd);
    if rd'.remaining <= 1 || |rd'.counts| >= maxSV1 then
      Finish(n, tableLog, maxSV1, rd'.pos, rd'.remaining, rd'.counts)
    else if rd'.pos >= 8 * n then Truncated
    else
      NextCountOk(v, rd);
      ParseFrom(v, n, tableLog, maxSV1, rd')
  }

  /** The reader after one count. A count of -1 and a count of 1 both use up one unit. */
  function NextCount(v: nat, rd: Reader): Reader
    requires ReaderOk(rd)
  {
    Pow2Mono(1, rd.nbBits - 1);
    var (value, width) := ReadValue(Shr(v, rd.pos), rd.remaining, rd.nbBits);
    var count: int := value - 1;
    var remaining := rd.remaining - Abs(count);
    var nbBits := if remaining < Pow2(rd.nbBits - 1) && remaining > 1 then HighBit(remaining) + 1 else rd.nbBits;
    Reader(rd.pos + width, remaining, nbBits, rd.counts + [ToShort(count)], count == 0)
  }

  lemma NextCountOk(v: nat, rd: Reader)
    requires ReaderOk(rd)
    ensures NextCount(v, rd).remaining >= 1
    ensures NextCount(v, rd).remaining > 1 ==> ReaderOk(NextCount(v, rd))
  {
    var remaining := NextCount(v, rd).remaining;
    if 1 < remaining < Pow2(rd.nbBits - 1) {
      DoublePow(HighBit(remaining));
      HighBitPositive(remaining);
    }
  }

  lemma HighBitPositive(x: nat)
    requires x > 1
    ensures HighBit(x) >= 1
  {
  }

  /** The header as the format describes it. */
  function ParseHeader(header: seq<U8>, maxSV1: nat): Parse
  {
    var v, n := LE(header), |header|;
    var tableLog := Low(v, 4) + MIN_TABLELOG;
    if tableLog > TABLELOG_ABSOLUTE_MAX then Rejected(TableLogTooLarge)
    else
      var rd := Reader(4, Pow2(tableLog) + 1, tableLog + 1, [], false);
      Pow2Mono(1, tableLog);
      ParseFrom(v, n, tableLog, maxSV1, rd)
  }

  // ------------------------------------------------------------------ the parser

  /** MEM_readLE32. */
  function ReadLE32(header: seq<U8>, ip: nat): (w: nat)
    requires ip + 4 <= |header|
    ensures w < 0x1_0000_0000
  {
    LEBound(header[ip..ip + 4]);
    Pow2Values();
    LE(header[ip..ip + 4])
  }

  /** The window: `bitStream` is the word at ip shifted by the bits already consumed. Away
      from the end of the header fewer than eight of them are. */
  ghost predicate Window(header: seq<U8>, ip: nat, bitCount: nat, bitStream: nat)
  {
    && ip + 4 <= |header| && bitCount <= 31 && (ip + 4 < |header| ==> bitCount <= 7)
    && bitStream == Shr(ReadLE32(header, ip), bitCount)
  }

  /** Moves the window to the consumed position. Past the end of the header the 5-bit mask
      wraps the position around; before it the position is kept. */
  method Reload(header: seq<U8>, ip: nat, bitCount: nat) returns (ip': nat, bitCount': nat, bitStream: nat)
    requires ip + 4 <= |header| && (ip + 4 < |header| ==> bitCount <= 31)
    ensures Window(header, ip', bitCount', bitStream) && ip <= ip'
    ensures 8 * ip + bitCount < 8 * |header| ==> 8 * ip' + bitCount' == 8 * ip + bitCount
  {
    var iend := |header|;
    if ip <= iend - 7 || ip + bitCount / 8 <= iend - 4 {
      ip' := ip + bitCount / 8;
      bitCount' := bitCount % 8;
    } else {
      bitCount' := (bitCount - 8 * (iend - 4 - ip)) % 32;
      ip' := iend - 4;
    }
    bitStream := Shr(ReadLE32(header, ip'), bitCount');
  }

  /** Within its reach the window shows the bits of the header at the position. */
  lemma WindowShows(header: seq<U8>, ip: nat, bitCount: nat, bitStream: nat, width: nat)
    requires Window(header, ip, bitCount, bitStream)
    requires ip + 4 == |header| || width <= 25
    ensures Low(bitStream, width) == Low(Shr(LE(header), 8 * ip + bitCount), width)
    ensures bitStream < 0x1_0000_0000
  {
    hide Shl, Shr, Low, LE;
    var v := LE(header);
    LESplit(header, ip);
    ShrShr(v, 8 * ip, bitCount);
    var w := ReadLE32(header, ip);
    if ip + 4 == |header| {
      assert header[ip..ip + 4] == header[ip..];
    } else {
      LESplit(header[ip..], 4);
      assert header[ip..ip + 4] == header[ip..][..4];
      LowLow(LE(header[ip..]), bitCount, 32 - bitCount);
      LowLow(Shr(LE(header[ip..]), bitCount), width, 32 - bitCount - width);
    }
    ShrLess(w, bitCount);
  }

  /** The value of the next codeword, by masks, less one; and the bits it takes. */
  method ReadOneCount(bitStream: nat, remaining: nat, nbBits: nat, threshold: nat) returns (count: int, bits: nat)
    requires nbBits >= 1 && threshold == Pow2(nbBits - 1) <= remaining < 2 * threshold
    ensures (count + 1, bits) == ReadValue(bitStream, remaining, nbBits)
  {
    DoublePow(nbBits - 1);
    AndMask(bitStream, nbBits - 1);
    AndMask(bitStream, nbBits);
    hide Pow2, BitAnd, Low;
    var max := 2 * threshold - 1 - remaining;
    if BitAnd(bitStream, threshold - 1) < max {
      count := BitAnd(bitStream, threshold - 1);
      bits := nbBits - 1;
    } else {
      count := BitAnd(bitStream, 2 * threshold - 1);
      if count >= threshold {
        count := count - max;
      }
      bits := nbBits;
    }
    count := count - 1;
  }

  lemma SameValue(x: nat, y: nat, remaining: nat, nbBits: nat)
    requires nbBits >= 1 && Pow2(nbBits - 1) <= remaining < 2 * Pow2(nbBits - 1)
    requires Low(x, nbBits) == Low(y, nbBits)
    ensures ReadValue(x, remaining, nbBits) == ReadValue(y, remaining, nbBits)
  {
    hide Low, Shr, Shl, Pow2;
    LowLow(x, nbBits - 1, 1);
    LowLow(y, nbBits - 1, 1);
  }

  /** Skips a run of zero counts: twelve codes at a time while the window is full of ones, and
      then the rest. Exact as long as the run ends inside the header. */
  method SkipZeros(header: seq<U8>, ip0: nat, bitCount0: nat, bitStream0: nat, charnum0: nat)
    returns (ip: nat, bitCount: nat, charnum: nat)
    requires Window(header, ip0, bitCount0, bitStream0)
    ensures ip0 <= ip && ip + 4 <= |header| && (ip + 4 < |header| ==> bitCount <= 31)
    ensures charnum >= charnum0
    ensures var run := ZeroRun(Shr(LE(header), 8 * ip0 + bitCount0));
            8 * ip0 + bitCount0 + run.1 < 8 * |header| ==>
              8 * ip + bitCount == 8 * ip0 + bitCount0 + run.1 && charnum == charnum0 + run.0
  {
    hide *;
    var iend := |header|;
    ip, bitCount, charnum := ip0, bitCount0, charnum0;
    var bitStream := bitStream0;
    WindowBasics(header, ip, bitCount, bitStream);
    var repeats := Repeats(bitStream);
    SkippedNone(LE(header), iend, 8 * ip0 + bitCount0, charnum0);
    ghost var v, pos0 := LE(header), 8 * ip0 + bitCount0;
    while repeats >= 12
      invariant Window(header, ip, bitCount, bitStream) && ip0 <= ip && charnum >= charnum0
      invariant bitStream < 0x1_0000_0000 && repeats == Repeats(bitStream)
      invariant ip + 4 <= iend && bitCount <= 31 && (ip + 4 < iend ==> bitCount <= 7)
      invariant Skipped(v, iend, pos0, charnum0, 8 * ip + bitCount, charnum)
      decreases iend - ip, if repeats < 12 then 0 else if bitCount == 8 then 2 else 1
    {
      FullWindow(header, ip, bitCount, bitStream);
      SkipMore(v, iend, pos0, charnum0, 8 * ip + bitCount, charnum, 12);
      charnum := charnum + 36;
      ghost var pos := 8 * ip + bitCount + 24;
      if ip <= iend - 7 {
        ip := ip + 3;
      } else {
        bitCount := (bitCount - 8 * (iend - 7 - ip)) % 32;
        ip := iend - 4;
      }
      SkippedWrap(v, iend, pos0, charnum0, pos, 8 * ip + bitCount, charnum);
      bitStream := Shr(ReadLE32(header, ip), bitCount);
      NewWindow(header, ip, bitCount);
      repeats := Repeats(bitStream);
      if repeats >= 12 {
        FullWindow(header, ip, bitCount, bitStream);
      }
    }
    LastCode(header, ip, bitCount, bitStream);
    SkipMore(v, iend, pos0, charnum0, 8 * ip + bitCount, charnum, repeats);
    ghost var last := Low(Shr(bitStream, 2 * repeats), 2);
    SkippedAll(v, iend, pos0, charnum0, 8 * ip + bitCount + 2 * repeats, charnum + 3 * repeats, last);
    charnum := charnum + 3 * repeats;
    bitStream := Shr(bitStream, 2 * repeats);
    bitCount := bitCount + 2 * repeats;
    Mask3(bitStream);
    assert BitAnd(bitStream, 3) < 3;
    charnum := charnum + BitAnd(bitStream, 3);
    bitCount := bitCount + 2;
  }

  lemma Mask3(x: nat)
    ensures BitAnd(x, 3) == Low(x, 2)
  {
    AndMask(x, 2);
    Pow2Values();
  }

  lemma WindowBasics(header: seq<U8>, ip: nat, bitCount: nat, bitStream: nat)
    requires Window(header, ip, bitCount, bitStream)
    ensures ip + 4 <= |header| && bitCount <= 31 && (ip + 4 < |header| ==> bitCount <= 7)
    ensures bitStream < 0x1_0000_0000
  {
    WindowShows(header, ip, bitCount, bitStream, 0);
  }

  lemma NewWindow(header: seq<U8>, ip: nat, bitCount: nat)
    requires ip + 4 <= |header| && bitCount <= 31 && (ip + 4 < |header| ==> bitCount <= 7)
    ensures Window(header, ip, bitCount, Shr(ReadLE32(header, ip), bitCount))
    ensures Shr(ReadLE32(header, ip), bitCount) < 0x1_0000_0000
  {
    ShrLess(ReadLE32(header, ip), bitCount);
  }

  /** The zeros skipped so far and the bits they took, against the whole run; once the
      position has wrapped around, the run is known to leave the header. */
  ghost predicate Skipped(v: nat, n: nat, pos0: nat, charnum0: nat, pos: nat, charnum: nat)
  {
    var whole := ZeroRun(Shr(v, pos0));
    var rest := ZeroRun(Shr(v, pos));
    pos0 + whole.1 < 8 * n ==>
      charnum + rest.0 == charnum0 + whole.0 && pos + rest.1 == pos0 + whole.1
  }

  lemma SkippedNone(v: nat, n: nat, pos0: nat, charnum0: nat)
    ensures Skipped(v, n, pos0, charnum0, pos0, charnum0)
  {
  }

  /** A position past the end of the header makes every claim about the run void. */
  lemma SkippedWrap(v: nat, n: nat, pos0: nat, charnum0: nat, pos: nat, pos': nat, charnum: nat)
    requires Skipped(v, n, pos0, charnum0, pos, charnum)
    requires pos < 8 * n ==> pos' == pos
    ensures Skipped(v, n, pos0, charnum0, pos', charnum)
  {
    RunPositive(Shr(v, pos));
  }

  lemma SkippedAll(v: nat, n: nat, pos0: nat, charnum0: nat, pos: nat, charnum: nat, last: nat)
    requires Skipped(v, n, pos0, charnum0, pos, charnum) && ZeroRun(Shr(v, pos)) == (last, 2)
    ensures var run := ZeroRun(Shr(v, pos0));
            pos0 + run.1 < 8 * n ==> pos + 2 == pos0 + run.1 && charnum + last == charnum0 + run.0
  {
  }

  /** Three more zeros for each code 3 that is passed. */
  lemma SkipMore(v: nat, n: nat, pos0: nat, charnum0: nat, pos: nat, charnum: nat, r: nat)
    requires Skipped(v, n, pos0, charnum0, pos, charnum)
    requires Low(Shr(v, pos), 2 * r) == Pow2(2 * r) - 1
    ensures Skipped(v, n, pos0, charnum0, pos + 2 * r, charnum + 3 * r)
    ensures pos0 + ZeroRun(Shr(v, pos0)).1 < 8 * n ==> pos + 2 * r < 8 * n
  {
    hide Shl, Shr, Low, ZeroRun, Pow2;
    SkipThrees(Shr(v, pos), r);
    ShrShr(v, pos, 2 * r);
    RunPositive(Shr(v, pos + 2 * r));
  }

  lemma RunPositive(x: nat)
    ensures ZeroRun(x).1 >= 2
  {
  }

  /** Twelve codes 3 fill 24 bits, which at the end of the header leaves at most 8 consumed. */
  lemma FullWindow(header: seq<U8>, ip: nat, bitCount: nat, bitStream: nat)
    requires Window(header, ip, bitCount, bitStream) && bitStream < 0x1_0000_0000 && Repeats(bitStream) >= 12
    ensures Low(Shr(LE(header), 8 * ip + bitCount), 24) == Pow2(24) - 1
    ensures bitCount <= 8
  {
    hide Shl, Shr, Low, LE, Repeats;
    RepeatsSpec(bitStream);
    var r := Repeats(bitStream);
    AllOnes(bitStream, 24, 2 * r - 24);
    WindowShows(header, ip, bitCount, bitStream, 24);
    ShrBound32(ReadLE32(header, ip), bitCount);
    Split(bitStream, 24);
    LowAtMost(bitStream, 24);
    Pow2Mono(23, 24);
    if bitCount > 8 {
      Pow2Mono(32 - bitCount, 23);
    }
  }

  lemma LowAtMost(x: nat, n: nat)
    ensures Low(x, n) <= x
  {
  }

  lemma ShrBound32(w: nat, bitCount: nat)
    requires w < 0x1_0000_0000 && bitCount <= 32
    ensures Shr(w, bitCount) < Pow2(32 - bitCount)
  {
    Pow2Values();
    ShrBound(w, bitCount, 32 - bitCount);
  }

  /** The code after the last 3 in the window ends the run. */
  lemma LastCode(header: seq<U8>, ip: nat, bitCount: nat, bitStream: nat)
    requires Window(header, ip, bitCount, bitStream) && bitStream < 0x1_0000_0000 && Repeats(bitStream) < 12
    ensures var r, x := Repeats(bitStream), Shr(LE(header), 8 * ip + bitCount);
            && Low(x, 2 * r) == Pow2(2 * r) - 1
            && Low(Shr(bitStream, 2 * r), 2) < 3
            && ZeroRun(Shr(LE(header), 8 * ip + bitCount + 2 * r)) == (Low(Shr(bitStream, 2 * r), 2), 2)
  {
    hide Shl, Shr, Low, LE, Repeats;
    RepeatsSpec(bitStream);
    var r, x := Repeats(bitStream), Shr(LE(header), 8 * ip + bitCount);
    WindowShows(header, ip, bitCount, bitStream, 2 * r + 2);
    LowLow(bitStream, 2 * r, 2);
    LowLow(x, 2 * r, 2);
    ShrShr(LE(header), 8 * ip + bitCount, 2 * r);
    TwoBits(Shr(x, 2 * r));
  }

  // ------------------------------------------------------------------ conservation

  /** Sum of the absolute counts. */
  function AbsSum(counts: seq<int>): nat
  {
    if counts == [] then 0 else AbsSum(counts[..|counts| - 1]) + Abs(counts[|counts| - 1])
  }

  /** Counts as the parser stores them: at least -1, or the wrapped image of 2^15. */
  ghost predicate Stored(counts: seq<int>)
  {
    forall i :: 0 <= i < |counts| ==> counts[i] == -0x8000 || -1 <= counts[i] < 0x8000
  }

  ghost predicate ZeroFrom(counts: seq<int>, k: nat)
  {
    forall i :: k <= i < |counts| ==> counts[i] == 0
  }

  /** Accepted counts: they use up the whole table, end in a nonzero count, and zeros follow. */
  ghost predicate Conserved(r: NCountResult, counts: seq<int>)
    requires r.Parsed?
  {
    && MIN_TABLELOG <= r.tableLog <= TABLELOG_ABSOLUTE_MAX && r.maxSymbolValue < |counts|
    && var used := counts[..r.maxSymbolValue + 1];
    && Stored(used) && AbsSum(used) == Pow2(r.tableLog) && counts[r.maxSymbolValue] != 0
    && ZeroFrom(counts, r.maxSymbolValue + 1)
  }

  /** Parsed counts are normalized exactly when none is the wrapped 2^15; that happens at table
      log 15 only. */
  lemma ConservedNormalized(r: NCountResult, counts: seq<int>)
    requires r.Parsed? && Conserved(r, counts)
    ensures var used := counts[..r.maxSymbolValue + 1];
            && (Normalized(used, r.tableLog) <==> -0x8000 !in used)
            && (r.tableLog < 15 ==> Normalized(used, r.tableLog))
  {
    hide Pow2;
    var used := counts[..r.maxSymbolValue + 1];
    Pow2Mono(r.tableLog, 15);
    assert Pow2(15) == 0x8000 by { Pow2Values(); DoublePow(15); }
    if -0x8000 in used {
      var i :| 0 <= i < |used| && used[i] == -0x8000;
      AbsAtMost(used, i);
    } else {
      SumsAgree(used);
    }
  }

  lemma {:induction false} AbsAtMost(counts: seq<int>, i: nat)
    requires i < |counts|
    ensures Abs(counts[i]) <= AbsSum(counts)
  {
    if i < |counts| - 1 {
      AbsAtMost(counts[..|counts| - 1], i);
    }
  }

  lemma {:induction false} SumsAgree(counts: seq<int>)
    requires Stored(counts) && -0x8000 !in counts
    ensures WeightSum(counts) == AbsSum(counts)
    ensures forall i :: 0 <= i < |counts| ==> counts[i] >= -1
  {
    if counts != [] {
      SumsAgree(counts[..|counts| - 1]);
    }
  }

  // ------------------------------------------------------------------ the whole header

  /** The result against the specification, which says nothing about truncated headers. */
  ghost predicate Agrees(p: Parse, r: NCountResult, counts: seq<int>)
  {
    match p
    case Truncated => true
    case Rejected(e) => r == Failed(e)
    case Accepted(size, tableLog, cs) =>
      && 0 < |cs| <= |counts| && r == Parsed(size, |cs| - 1, tableLog)
      && counts[..|cs|] == cs && ZeroFrom(counts, |cs|)
  }

  /** The parser's variables, apart from its window. */
  ghost predicate Counting(tableLog: nat, remaining: nat, counts: seq<int>, charnum: nat)
  {
    && charnum <= |counts| && MIN_TABLELOG <= tableLog <= TABLELOG_ABSOLUTE_MAX && remaining >= 1
    && Stored(counts[..charnum]) && ZeroFrom(counts, charnum)
    && AbsSum(counts[..charnum]) + remaining == Pow2(tableLog) + 1
  }

  /** The specified reader in the parser's state. */
  function Here(pos: nat, remaining: nat, nbBits: nat, counts: seq<int>, charnum: nat, previous0: bool): Reader
    requires charnum <= |counts|
  {
    Reader(pos, remaining, nbBits, counts[..charnum], previous0)
  }

  /** From the parser's state the specification finds the whole result. */
  ghost predicate Follows(header: seq<U8>, tableLog: nat, maxSV1: nat, rd: Reader)
  {
    && ReaderOk(rd)
    && (ParseHeader(header, maxSV1) == Truncated
        || ParseFrom(LE(header), |header|, tableLog, maxSV1, rd) == ParseHeader(header, maxSV1))
  }

  ghost predicate CountFollows(header: seq<U8>, tableLog: nat, maxSV1: nat, rd: Reader)
  {
    && ReaderOk(rd)
    && (ParseHeader(header, maxSV1) == Truncated
        || ParseCount(LE(header), |header|, tableLog, maxSV1, rd) == ParseHeader(header, maxSV1))
  }

  /** The parser has left its loop. */
  ghost predicate Stopped(header: seq<U8>, tableLog: nat, maxSV1: nat, pos: nat, remaining: nat, counts: seq<int>, charnum: nat)
  {
    && (remaining == 1 ==> 0 < charnum <= |counts| && counts[charnum - 1] != 0 && Counting(tableLog, 1, counts, charnum))
    && (ParseHeader(header, maxSV1) == Truncated
        || ParseHeader(header, maxSV1) ==
           if remaining != 1 then Rejected(CorruptionDetected)
           else if charnum > |counts| then Truncated
           else Finish(|header|, tableLog, maxSV1, pos, 1, counts[..charnum]))
  }

  /** A run of zeros, as skipped by SkipZeros. */
  lemma ZeroStep(header: seq<U8>, tableLog: nat, maxSV1: nat, pos: nat, remaining: nat, nbBits: nat,
                 counts: seq<int>, charnum: nat, pos': nat, charnum': nat)
    requires |counts| == maxSV1 && Counting(tableLog, remaining, counts, charnum) && charnum <= charnum'
    requires Follows(header, tableLog, maxSV1, Here(pos, remaining, nbBits, counts, charnum, true))
    requires var run := ZeroRun(Shr(LE(header), pos));
             pos + run.1 < 8 * |header| ==> pos' == pos + run.1 && charnum' == charnum + run.0
    ensures remaining > 1
    ensures charnum' >= maxSV1 ==> Stopped(header, tableLog, maxSV1, pos', remaining, counts, charnum')
    ensures charnum' < maxSV1 ==>
              && Counting(tableLog, remaining, counts, charnum')
              && CountFollows(header, tableLog, maxSV1, Here(pos', remaining, nbBits, counts, charnum', true))
              && (ParseHeader(header, maxSV1) == Truncated || pos' < 8 * |header|)
  {
    hide *;
    CountingBasics(tableLog, remaining, counts, charnum);
    var rd := Here(pos, remaining, nbBits, counts, charnum, true);
    HereIs(pos, remaining, nbBits, counts, charnum, true);
    RunUnfolds(header, tableLog, maxSV1, rd);
    if charnum' < maxSV1 {
      ZerosSum(counts, charnum, charnum');
      CountingOn(tableLog, remaining, counts, charnum, charnum');
      HereIs(pos', remaining, nbBits, counts, charnum', true);
      if ParseHeader(header, maxSV1) == Truncated {
        AnyReader(header, tableLog, maxSV1, rd, Here(pos', remaining, nbBits, counts, charnum', true));
      } else {
        SameZeros(counts, charnum, charnum');
      }
    } else {
      StoppedShort(header, tableLog, maxSV1, pos', remaining, counts, charnum');
    }
  }

  lemma CountingBasics(tableLog: nat, remaining: nat, counts: seq<int>, charnum: nat)
    requires Counting(tableLog, remaining, counts, charnum)
    ensures charnum <= |counts| && ZeroFrom(counts, charnum)
  {
  }

  lemma CountingOn(tableLog: nat, remaining: nat, counts: seq<int>, k: nat, m: nat)
    requires Counting(tableLog, remaining, counts, k) && k <= m <= |counts|
    requires AbsSum(counts[..m]) == AbsSum(counts[..k])
    ensures Counting(tableLog, remaining, counts, m)
  {
    hide AbsSum, Pow2;
    assert forall i :: k <= i < m ==> counts[..m][i] == 0;
  }

  lemma SameZeros(counts: seq<int>, k: nat, m: nat)
    requires k <= m <= |counts| && ZeroFrom(counts, k)
    ensures counts[..m] == counts[..k] + Zeros(m - k)
  {
  }

  lemma AnyReader(header: seq<U8>, tableLog: nat, maxSV1: nat, rd: Reader, rd': Reader)
    requires ParseHeader(header, maxSV1) == Truncated && ReaderOk(rd)
    requires rd'.nbBits == rd.nbBits && rd'.remaining == rd.remaining
    ensures CountFollows(header, tableLog, maxSV1, rd')
  {
    hide ParseHeader;
  }

  lemma StoppedShort(header: seq<U8>, tableLog: nat, maxSV1: nat, pos: nat, remaining: nat, counts: seq<int>, charnum: nat)
    requires remaining > 1
    requires ParseHeader(header, maxSV1) == Truncated || ParseHeader(header, maxSV1) == Rejected(CorruptionDetected)
    ensures Stopped(header, tableLog, maxSV1, pos, remaining, counts, charnum)
  {
    hide ParseHeader;
  }

  /** One unfolding of the specification at a run of zeros. */
  lemma RunUnfolds(header: seq<U8>, tableLog: nat, maxSV1: nat, rd: Reader)
    requires Follows(header, tableLog, maxSV1, rd) && rd.previous0
    ensures rd.remaining > 1 && ReaderOk(rd)
    ensures var run := ZeroRun(Shr(LE(header), rd.pos));
            var rd' := rd.(pos := rd.pos + run.1, counts := rd.counts + Zeros(run.0));
            ParseHeader(header, maxSV1) != Truncated ==>
              && rd'.pos < 8 * |header|
              && |rd'.counts| == |rd.counts| + run.0
              && (|rd'.counts| >= maxSV1 ==> ParseHeader(header, maxSV1) == Rejected(CorruptionDetected))
              && (|rd'.counts| < maxSV1 ==> CountFollows(header, tableLog, maxSV1, rd'))
  {
    Pow2Mono(1, rd.nbBits - 1);
    hide Shr, LE, ZeroRun, ParseHeader, ParseCount, Pow2;
  }

  lemma {:induction false} ZerosSum(counts: seq<int>, k: nat, m: nat)
    requires k <= m <= |counts| && ZeroFrom(counts, k)
    ensures AbsSum(counts[..m]) == AbsSum(counts[..k])
  {
    if k < m {
      ZerosSum(counts, k, m - 1);
      assert counts[..m][..m - 1] == counts[..m - 1];
    }
  }

  /** One count: the conserved sum, and where the specification goes from here. */
  lemma CountStep(header: seq<U8>, tableLog: nat, maxSV1: nat, pos: nat, remaining: nat, nbBits: nat,
                  counts: seq<int>, charnum: nat, previous0: bool, count: int, bits: nat, remaining': int, nbBits': nat)
    requires |counts| == maxSV1 && charnum < maxSV1 && Counting(tableLog, remaining, counts, charnum)
    requires CountFollows(header, tableLog, maxSV1, Here(pos, remaining, nbBits, counts, charnum, previous0))
    requires (count + 1, bits) == ReadValue(Shr(LE(header), pos), remaining, nbBits)
    requires remaining' == remaining - Abs(count)
    requires nbBits' == if 1 < remaining' < Pow2(nbBits - 1) then HighBit(remaining') + 1 else nbBits
    ensures 1 <= remaining'
    ensures var counts' := counts[charnum := ToShort(count)];
            && Counting(tableLog, remaining', counts', charnum + 1)
            && (remaining' <= 1 || charnum + 1 >= maxSV1 ==>
                  Stopped(header, tableLog, maxSV1, pos + bits, remaining', counts', charnum + 1))
            && (remaining' > 1 && charnum + 1 < maxSV1 ==>
                  && Follows(header, tableLog, maxSV1,
                             Here(pos + bits, remaining', nbBits', counts', charnum + 1, count == 0))
                  && (ParseHeader(header, maxSV1) == Truncated || pos + bits < 8 * |header|))
  {
    hide *;
    var rd := Here(pos, remaining, nbBits, counts, charnum, previous0);
    var counts' := counts[charnum := ToShort(count)];
    HereIs(pos, remaining, nbBits, counts, charnum, previous0);
    FollowsOk(header, tableLog, maxSV1, rd);
    NextCountIs(LE(header), rd, count, bits);
    StoreCount(tableLog, remaining, counts, charnum, count);
    HereIs(pos + bits, remaining', nbBits', counts', charnum + 1, count == 0);
    assert counts'[..charnum + 1] == counts[..charnum] + [ToShort(count)];
    CountUnfolds(header, tableLog, maxSV1, rd, counts');
  }

  lemma AbsIs(count: int)
    ensures Abs(count) == if count >= 0 then count else -count
  {
  }

  lemma FollowsOk(header: seq<U8>, tableLog: nat, maxSV1: nat, rd: Reader)
    requires CountFollows(header, tableLog, maxSV1, rd)
    ensures ReaderOk(rd) && rd.nbBits >= 2 && Pow2(rd.nbBits - 1) <= rd.remaining < 2 * Pow2(rd.nbBits - 1)
    ensures rd.remaining > 1
  {
    Pow2Mono(1, rd.nbBits - 1);
  }

  lemma HereIs(pos: nat, remaining: nat, nbBits: nat, counts: seq<int>, charnum: nat, previous0: bool)
    requires charnum <= |counts|
    ensures Here(pos, remaining, nbBits, counts, charnum, previous0)
            == Reader(pos, remaining, nbBits, counts[..charnum], previous0)
  {
  }

  lemma NextCountIs(v: nat, rd: Reader, count: int, bits: nat)
    requires ReaderOk(rd) && (count + 1, bits) == ReadValue(Shr(v, rd.pos), rd.remaining, rd.nbBits)
    ensures rd.remaining > 1 && -1 <= count < rd.remaining && rd.remaining - Abs(count) >= 1
    ensures var remaining := rd.remaining - Abs(count);
            var nbBits := if 1 < remaining < Pow2(rd.nbBits - 1) then HighBit(remaining) + 1 else rd.nbBits;
            NextCount(v, rd) == Reader(rd.pos + bits, remaining, nbBits, rd.counts + [ToShort(count)], count == 0)
  {
    Pow2Mono(1, rd.nbBits - 1);
    hide Pow2, Shr, HighBit, ReadValue;
    assert ReadValue(Shr(v, rd.pos), rd.remaining, rd.nbBits).0 == count + 1;
    ReadAtMost(Shr(v, rd.pos), rd.remaining, rd.nbBits);
  }

  lemma ReadAtMost(x: nat, remaining: nat, nbBits: nat)
    requires nbBits >= 1 && Pow2(nbBits - 1) <= remaining < 2 * Pow2(nbBits - 1)
    ensures 0 <= ReadValue(x, remaining, nbBits).0 <= remaining
  {
  }

  /** One unfolding of the specification at a count. */
  lemma CountUnfolds(header: seq<U8>, tableLog: nat, maxSV1: nat, rd: Reader, counts: seq<int>)
    requires CountFollows(header, tableLog, maxSV1, rd)
    requires var next := NextCount(LE(header), rd);
             && |next.counts| <= |counts| == maxSV1 && counts[..|next.counts|] == next.counts && next.counts != []
             && Counting(tableLog, next.remaining, counts, |next.counts|)
             && (next.remaining == 1 ==> next.counts[|next.counts| - 1] != 0)
    ensures var next := NextCount(LE(header), rd);
            && (next.remaining <= 1 || |next.counts| >= maxSV1 ==>
                  Stopped(header, tableLog, maxSV1, next.pos, next.remaining, counts, |next.counts|))
            && (next.remaining > 1 && |next.counts| < maxSV1 ==>
                  && Follows(header, tableLog, maxSV1, next)
                  && (ParseHeader(header, maxSV1) == Truncated || next.pos < 8 * |header|))
  {
    NextCountOk(LE(header), rd);
    hide NextCount, ParseHeader, ParseFrom, LE, Pow2, AbsSum, Stored, ZeroFrom;
  }

  lemma StoreCount(tableLog: nat, remaining: nat, counts: seq<int>, charnum: nat, count: int)
    requires charnum < |counts| && Counting(tableLog, remaining, counts, charnum)
    requires -1 <= count < remaining && remaining > 1
    ensures Counting(tableLog, remaining - Abs(count), counts[charnum := ToShort(count)], charnum + 1)
    ensures remaining - Abs(count) == 1 ==> ToShort(count) != 0
  {
    hide Pow2;
    var counts' := counts[charnum := ToShort(count)];
    assert counts'[..charnum + 1][..charnum] == counts[..charnum];
    Pow2Mono(tableLog, 15);
    Pow2Values();
    DoublePow(15);
  }

  /** Opening: the table log field. */
  lemma TableLogBits(header: seq<U8>, maxSV1: nat, counts: seq<int>)
    requires |header| >= 8
    ensures BitAnd(ReadLE32(header, 0), 0xF) == Low(LE(header), 4)
    ensures var tableLog := Low(LE(header), 4) + MIN_TABLELOG;
            tableLog > TABLELOG_ABSOLUTE_MAX ==> Agrees(ParseHeader(header, maxSV1), Failed(TableLogTooLarge), counts)
  {
    hide Shl, Shr, Low, LE, BitAnd;
    Pow2Values();
    AndMask(ReadLE32(header, 0), 4);
    LESplit(header, 4);
    LowLow(LE(header), 4, 28);
    assert header[0..4] == header[..4];
  }

  lemma HeaderStarts(header: seq<U8>, maxSV1: nat, tableLog: nat, counts: seq<int>)
    requires |header| >= 8 && |counts| == maxSV1 && ZeroFrom(counts, 0)
    requires tableLog == Low(LE(header), 4) + MIN_TABLELOG <= TABLELOG_ABSOLUTE_MAX
    ensures Window(header, 0, 4, Shr(ReadLE32(header, 0), 4))
    ensures Counting(tableLog, Pow2(tableLog) + 1, counts, 0)
    ensures Follows(header, tableLog, maxSV1, Here(4, Pow2(tableLog) + 1, tableLog + 1, counts, 0, false))
  {
    hide Shr, Low, LE, ParseFrom, Shl;
    Pow2Mono(1, tableLog);
    Pow2Values();
    DoublePow(tableLog);
  }

  lemma NoRun(header: seq<U8>, tableLog: nat, maxSV1: nat, pos: nat, remaining: nat, nbBits: nat, counts: seq<int>, charnum: nat)
    requires charnum <= |counts|
    requires Follows(header, tableLog, maxSV1, Here(pos, remaining, nbBits, counts, charnum, false))
    ensures CountFollows(header, tableLog, maxSV1, Here(pos, remaining, nbBits, counts, charnum, false))
  {
    hide ParseHeader, ParseCount, LE, Pow2;
  }

  /** The position survives the reload unless the header is truncated. */
  lemma Reloaded(header: seq<U8>, tableLog: nat, maxSV1: nat, pos: nat, pos': nat, remaining: nat, nbBits: nat,
                 counts: seq<int>, charnum: nat, previous0: bool)
    requires ParseHeader(header, maxSV1) == Truncated || pos < 8 * |header|
    requires pos < 8 * |header| ==> pos' == pos
    requires charnum <= |counts|
    ensures CountFollows(header, tableLog, maxSV1, Here(pos, remaining, nbBits, counts, charnum, previous0)) ==>
              CountFollows(header, tableLog, maxSV1, Here(pos', remaining, nbBits, counts, charnum, previous0))
    ensures Follows(header, tableLog, maxSV1, Here(pos, remaining, nbBits, counts, charnum, previous0)) ==>
              Follows(header, tableLog, maxSV1, Here(pos', remaining, nbBits, counts, charnum, previous0))
  {
    hide ParseHeader, ParseCount, ParseFrom, LE, Pow2;
  }

  /** The window shows the next codeword. */
  lemma NextCodeword(header: seq<U8>, ip: nat, bitCount: nat, bitStream: nat, tableLog: nat, maxSV1: nat, remaining: nat, nbBits: nat,
                     counts: seq<int>, charnum: nat, previous0: bool)
    requires charnum <= |counts|
    requires Window(header, ip, bitCount, bitStream) && Counting(tableLog, remaining, counts, charnum)
    requires CountFollows(header, tableLog, maxSV1, Here(8 * ip + bitCount, remaining, nbBits, counts, charnum, previous0))
    ensures 2 <= nbBits <= 16 && 2 <= Pow2(nbBits - 1) <= remaining < 2 * Pow2(nbBits - 1)
    ensures ReadValue(bitStream, remaining, nbBits) == ReadValue(Shr(LE(header), 8 * ip + bitCount), remaining, nbBits)
  {
    FollowsOk(header, tableLog, maxSV1, Here(8 * ip + bitCount, remaining, nbBits, counts, charnum, previous0));
    hide Shr, Low, LE, ReadValue, Pow2, AbsSum, Window, CountFollows, ReaderOk;
    Pow2Mono(tableLog, 15);
    Pow2Mono(1, nbBits - 1);
    DoublePow(15);
    Pow2Values();
    if nbBits > 16 {
      Pow2Mono(16, nbBits - 1);
    }
    WindowShows(header, ip, bitCount, bitStream, nbBits);
    SameValue(bitStream, Shr(LE(header), 8 * ip + bitCount), remaining, nbBits);
  }

  /** What the parser returns after the loop. */
  lemma AfterLoop(header: seq<U8>, tableLog: nat, maxSV1: nat, ip: nat, bitCount: nat, remaining: nat, counts: seq<int>, charnum: nat)
    requires |counts| == maxSV1 && Stopped(header, tableLog, maxSV1, 8 * ip + bitCount, remaining, counts, charnum)
    requires ip + 4 <= |header| && (ip + 4 < |header| ==> bitCount <= 32)
    ensures remaining != 1 ==> Agrees(ParseHeader(header, maxSV1), Failed(CorruptionDetected), counts)
    ensures remaining == 1 ==>
              && 0 < charnum <= maxSV1
              && var r := Parsed(ip + (bitCount + 7) / 8, charnum - 1, tableLog);
              && (bitCount > 32 ==> Agrees(ParseHeader(header, maxSV1), Failed(CorruptionDetected), counts))
              && (bitCount <= 32 ==> Agrees(ParseHeader(header, maxSV1), r, counts))
              && (bitCount <= 32 ==> r.size <= |header|) && Conserved(r, counts)
  {
    hide ParseHeader, AbsSum, Pow2, Stored;
  }

  method ClearCounts(normalizedCounter: array<int>)
    modifies normalizedCounter
    ensures ZeroFrom(normalizedCounter[..], 0)
  {
    for i := 0 to normalizedCounter.Length
      invariant forall k :: 0 <= k < i ==> normalizedCounter[k] == 0
    {
      normalizedCounter[i] := 0;
    }
  }

  /** Reads one count, stores it as a short and takes it off what remains. */
  method TakeCount(normalizedCounter: array<int>, charnum: nat, ghost header: seq<U8>, ghost tableLog: nat,
                   ghost ip: nat, ghost bitCount: nat, bitStream: nat, remaining: nat, nbBits: nat, threshold: nat,
                   ghost previous0: bool)
    returns (count: int, bits: nat, left: nat)
    requires charnum < normalizedCounter.Length && nbBits >= 1 && threshold == Pow2(nbBits - 1)
    requires Window(header, ip, bitCount, bitStream) && Counting(tableLog, remaining, normalizedCounter[..], charnum)
    requires CountFollows(header, tableLog, normalizedCounter.Length,
                          Here(8 * ip + bitCount, remaining, nbBits, normalizedCounter[..], charnum, previous0))
    modifies normalizedCounter
    ensures ip + 4 <= |header| && (ip + 4 < |header| ==> bitCount + bits <= 31)
    ensures threshold > 1 && left >= 1 && Counting(tableLog, left, normalizedCounter[..], charnum + 1)
    ensures var maxSV1, to := normalizedCounter.Length, 8 * ip + bitCount + bits;
            && (left <= 1 || charnum + 1 >= maxSV1 ==>
                  Stopped(header, tableLog, maxSV1, to, left, normalizedCounter[..], charnum + 1))
            && (left > 1 && charnum + 1 < maxSV1 ==>
                  && Follows(header, tableLog, maxSV1,
                             Here(to, left, if left < threshold then HighBit(left) + 1 else nbBits,
                                  normalizedCounter[..], charnum + 1, count == 0))
                  && (ParseHeader(header, maxSV1) == Truncated || to < 8 * |header|))
  {
    hide *;
    var maxSV1 := normalizedCounter.Length;
    ghost var counts := normalizedCounter[..];
    WindowBasics(header, ip, bitCount, bitStream);
    NextCodeword(header, ip, bitCount, bitStream, tableLog, maxSV1, remaining, nbBits, counts, charnum, previous0);
    count, bits := ReadOneCount(bitStream, remaining, nbBits, threshold);
    ReadAtMost(bitStream, remaining, nbBits);
    AbsIs(count);
    CountStep(header, tableLog, maxSV1, 8 * ip + bitCount, remaining, nbBits, counts, charnum, previous0, count, bits,
              remaining - Abs(count),
              if 1 < remaining - Abs(count) < Pow2(nbBits - 1) then HighBit(remaining - Abs(count)) + 1 else nbBits);
    left := if count >= 0 then remaining - count else remaining + count;
    normalizedCounter[charnum] := ToShort(count);
    assert normalizedCounter[..] == counts[charnum := ToShort(count)];
  }

  /** The parser on headers of at least eight bytes. */
  method ReadLongHeader(normalizedCounter: array<int>, maxSymbolValue: nat, header: seq<U8>) returns (r: NCountResult)
    requires normalizedCounter.Length == maxSymbolValue + 1 && |header| >= 8
    modifies normalizedCounter
    ensures Agrees(ParseHeader(header, maxSymbolValue + 1), r, normalizedCounter[..])
    ensures r.Failed? ==> r.error != MaxSymbolValueTooSmall
    ensures r.Parsed? ==> r.size <= |header| && Conserved(r, normalizedCounter[..])
    ensures r.Parsed? ==> r.tableLog == Low(LE(header), 4) + MIN_TABLELOG
  {
    hide *;
    var maxSV1 := maxSymbolValue + 1;
    ClearCounts(normalizedCounter);
    var bitStream := ReadLE32(header, 0);
    var nbBits := BitAnd(bitStream, 0xF) + MIN_TABLELOG;
    TableLogBits(header, maxSV1, normalizedCounter[..]);
    if nbBits > TABLELOG_ABSOLUTE_MAX {
      return Failed(TableLogTooLarge);
    }
    bitStream := Shr(bitStream, 4);
    var ip: nat, bitCount: nat, charnum: nat := 0, 4, 0;
    var tableLog: nat, remaining: nat, threshold := nbBits, Pow2(nbBits) + 1, Pow2(nbBits);
    nbBits := nbBits + 1;
    var previous0 := false;
    HeaderStarts(header, maxSV1, tableLog, normalizedCounter[..]);
    while true
      invariant charnum < maxSV1 && remaining >= 1 && nbBits >= 1 && threshold == Pow2(nbBits - 1)
      invariant Window(header, ip, bitCount, bitStream)
      invariant Counting(tableLog, remaining, normalizedCounter[..], charnum)
      invariant Follows(header, tableLog, maxSV1, Here(8 * ip + bitCount, remaining, nbBits, normalizedCounter[..], charnum, previous0))
      decreases maxSV1 - charnum
    {
      if previous0 {
        ghost var pos, k := 8 * ip + bitCount, charnum;
        ip, bitCount, charnum := SkipZeros(header, ip, bitCount, bitStream, charnum);
        ZeroStep(header, tableLog, maxSV1, pos, remaining, nbBits, normalizedCounter[..], k, 8 * ip + bitCount, charnum);
        if charnum >= maxSV1 {
          break;
        }
        pos := 8 * ip + bitCount;
        ip, bitCount, bitStream := Reload(header, ip, bitCount);
        Reloaded(header, tableLog, maxSV1, pos, 8 * ip + bitCount, remaining, nbBits, normalizedCounter[..], charnum, true);
      } else {
        NoRun(header, tableLog, maxSV1, 8 * ip + bitCount, remaining, nbBits, normalizedCounter[..], charnum);
      }
      var count, bits, left := TakeCount(normalizedCounter, charnum, header, tableLog, ip, bitCount, bitStream,
                                         remaining, nbBits, threshold, previous0);
      bitCount := bitCount + bits;
      remaining := left;
      charnum := charnum + 1;
      previous0 := count == 0;
      if remaining < threshold {
        if remaining <= 1 {
          break;
        }
        nbBits := HighBit(remaining) + 1;
        threshold := Pow2(nbBits - 1);
      }
      if charnum >= maxSV1 {
        break;
      }
      ghost var to := 8 * ip + bitCount;
      ip, bitCount, bitStream := Reload(header, ip, bitCount);
      Reloaded(header, tableLog, maxSV1, to, 8 * ip + bitCount, remaining, nbBits, normalizedCounter[..], charnum, previous0);
    }
    AfterLoop(header, tableLog, maxSV1, ip, bitCount, remaining, normalizedCounter[..], charnum);
    if remaining != 1 {
      return Failed(CorruptionDetected);
    }
    if charnum > maxSV1 {
      return Failed(MaxSymbolValueTooSmall);
    }
    if bitCount > 32 {
      return Failed(CorruptionDetected);
    }
    r := Parsed(ip + (bitCount + 7) / 8, charnum - 1, tableLog);
  }

  // ------------------------------------------------------------------ short headers

  /** Zero bytes after the header change the result only where they let the counts run past
      the real end, which the size shows. */
  ghost predicate PaddedResult(p: Parse, q: Parse, n: nat)
  {
    p == Truncated || p == q || (q.Accepted? && q.size > n && p == Rejected(CorruptionDetected))
  }

  lemma {:induction false} PaddedFrom(v: nat, n: nat, n': nat, tableLog: nat, maxSV1: nat, rd: Reader)
    requires ReaderOk(rd) && n <= n'
    ensures PaddedResult(ParseFrom(v, n, tableLog, maxSV1, rd), ParseFrom(v, n', tableLog, maxSV1, rd), n)
    decreases maxSV1 - |rd.counts|, 1
  {
    hide Shr, ZeroRun, Pow2, ParseCount, ReaderOk;
    if rd.previous0 {
      var run := ZeroRun(Shr(v, rd.pos));
      var rd' := rd.(pos := rd.pos + run.1, counts := rd.counts + Zeros(run.0));
      SameReader(rd, rd');
      if rd'.pos < 8 * n && |rd'.counts| < maxSV1 {
        PaddedCount(v, n, n', tableLog, maxSV1, rd');
      }
    } else {
      PaddedCount(v, n, n', tableLog, maxSV1, rd);
    }
  }

  lemma SameReader(rd: Reader, rd': Reader)
    requires ReaderOk(rd) && rd'.remaining == rd.remaining && rd'.nbBits == rd.nbBits
    ensures ReaderOk(rd')
  {
  }

  lemma {:induction false} PaddedCount(v: nat, n: nat, n': nat, tableLog: nat, maxSV1: nat, rd: Reader)
    requires ReaderOk(rd) && n <= n'
    ensures PaddedResult(ParseCount(v, n, tableLog, maxSV1, rd), ParseCount(v, n', tableLog, maxSV1, rd), n)
    decreases maxSV1 - |rd.counts|, 0
  {
    NextCountOk(v, rd);
    NextCountGrows(v, rd);
    hide NextCount, Pow2, ParseFrom, ReaderOk;
    var rd' := NextCount(v, rd);
    if rd'.remaining > 1 && |rd'.counts| < maxSV1 && rd'.pos < 8 * n {
      PaddedFrom(v, n, n', tableLog, maxSV1, rd');
    }
  }

  lemma NextCountGrows(v: nat, rd: Reader)
    requires ReaderOk(rd)
    ensures |NextCount(v, rd).counts| == |rd.counts| + 1
  {
  }

  lemma {:induction false} PaddingIsZero(n: nat)
    ensures LE(Padding(n)) == 0
  {
    if n > 0 {
      PaddingIsZero(n - 1);
      assert Padding(n)[1..] == Padding(n - 1);
    }
  }

  lemma PaddedHeader(header: seq<U8>, m: nat, maxSV1: nat)
    ensures PaddedResult(ParseHeader(header, maxSV1), ParseHeader(header + Padding(m), maxSV1), |header|)
  {
    hide LE, Shl, Low, ParseFrom;
    PaddingIsZero(m);
    LEConcat(header, Padding(m));
    ShlZero(8 * |header|);
    var v := LE(header);
    var tableLog := Low(v, 4) + MIN_TABLELOG;
    var rd := Reader(4, Pow2(tableLog) + 1, tableLog + 1, [], false);
    Pow2Mono(1, tableLog);
    Pow2Values();
    DoublePow(tableLog);
    PaddedFrom(v, |header|, |header| + m, tableLog, maxSV1, rd);
  }

  lemma PaddedAgrees(header: seq<U8>, m: nat, maxSV1: nat, r: NCountResult, counts: seq<int>)
    requires Agrees(ParseHeader(header + Padding(m), maxSV1), r, counts)
    ensures Agrees(ParseHeader(header, maxSV1),
                   if r.Parsed? && r.size > |header| then Failed(CorruptionDetected) else r, counts)
  {
    PaddedHeader(header, m, maxSV1);
    hide ParseHeader;
    SizesInside(header, maxSV1);
  }

  /** An accepted size never exceeds the header. */
  lemma SizesInside(header: seq<U8>, maxSV1: nat)
    ensures ParseHeader(header, maxSV1).Accepted? ==> ParseHeader(header, maxSV1).size <= |header|
  {
    var v := LE(header);
    var tableLog := Low(v, 4) + MIN_TABLELOG;
    Pow2Mono(1, tableLog);
    Pow2Values();
    SizeFrom(v, |header|, tableLog, maxSV1, Reader(4, Pow2(tableLog) + 1, tableLog + 1, [], false));
  }

  lemma {:induction false} SizeFrom(v: nat, n: nat, tableLog: nat, maxSV1: nat, rd: Reader)
    requires ReaderOk(rd)
    ensures var p := ParseFrom(v, n, tableLog, maxSV1, rd); p.Accepted? ==> p.size <= n
    decreases maxSV1 - |rd.counts|, 1
  {
    hide Shr, ZeroRun, Pow2, ParseCount, ReaderOk;
    if rd.previous0 {
      var run := ZeroRun(Shr(v, rd.pos));
      var rd' := rd.(pos := rd.pos + run.1, counts := rd.counts + Zeros(run.0));
      SameReader(rd, rd');
      if |rd'.counts| < maxSV1 {
        SizeCount(v, n, tableLog, maxSV1, rd');
      }
    } else {
      SizeCount(v, n, tableLog, maxSV1, rd);
    }
  }

  lemma {:induction false} SizeCount(v: nat, n: nat, tableLog: nat, maxSV1: nat, rd: Reader)
    requires ReaderOk(rd)
    ensures var p := ParseCount(v, n, tableLog, maxSV1, rd); p.Accepted? ==> p.size <= n
    decreases maxSV1 - |rd.counts|, 0
  {
    NextCountOk(v, rd);
    NextCountGrows(v, rd);
    hide NextCount, Pow2, ParseFrom, ReaderOk;
    var rd' := NextCount(v, rd);
    if rd'.remaining > 1 && |rd'.counts| < maxSV1 {
      SizeFrom(v, n, tableLog, maxSV1, rd');
    }
  }

  /** FSE_readNCount_body. A header that is not truncated parses exactly as the format says;
      any header is parsed without reading or writing out of bounds, and what is accepted
      conserves the table, uses no more bytes than there are, and is normalized unless the
      header wraps around. */
  method ReadNCount(normalizedCounter: array<int>, maxSymbolValue: nat, header: seq<U8>) returns (r: NCountResult)
    requires normalizedCounter.Length == maxSymbolValue + 1
    modifies normalizedCounter
    ensures Agrees(ParseHeader(header, maxSymbolValue + 1), r, normalizedCounter[..])
    ensures r.Failed? ==> r.error != MaxSymbolValueTooSmall
    ensures r.Parsed? ==> r.size <= |header| && Conserved(r, normalizedCounter[..])
    ensures r.Parsed? ==> r.tableLog == Low(LE(header), 4) + MIN_TABLELOG
    ensures r.Parsed? && Low(LE(header), 4) != 10 ==> Normalized(normalizedCounter[..r.maxSymbolValue + 1], r.tableLog)
    ensures r.Parsed? && ParseHeader(header, maxSymbolValue + 1) != Truncated ==>
              (Normalized(normalizedCounter[..r.maxSymbolValue + 1], r.tableLog) <==> !WrapsAround(header))
  {
    hide *;
    if |header| < 8 {
      var padded := header + Padding(8 - |header|);
      r := ReadLongHeader(normalizedCounter, maxSymbolValue, padded);
      PaddedAgrees(header, 8 - |header|, maxSymbolValue + 1, r, normalizedCounter[..]);
      PaddedValue(header, 8 - |header|);
      if r.Parsed? && r.size > |header| {
        r := Failed(CorruptionDetected);
      }
    } else {
      r := ReadLongHeader(normalizedCounter, maxSymbolValue, header);
    }
    if r.Parsed? {
      InTable(r, normalizedCounter[..]);
      HeaderNormalized(header, r, normalizedCounter[..]);
      assert normalizedCounter[..][..r.maxSymbolValue + 1] == normalizedCounter[..r.maxSymbolValue + 1];
    }
  }

  lemma InTable(r: NCountResult, counts: seq<int>)
    requires r.Parsed? && Conserved(r, counts)
    ensures r.maxSymbolValue < |counts|
  {
  }

  lemma PaddedValue(header: seq<U8>, m: nat)
    ensures LE(header + Padding(m)) == LE(header)
  {
    PaddingIsZero(m);
    LEConcat(header, Padding(m));
    ShlZero(8 * |header|);
  }

  function Padding(n: nat): (p: seq<U8>)
    ensures |p| == n
  {
    if n == 0 then [] else [0] + Padding(n - 1)
  }

  // ------------------------------------------------------------------ the wrapped count

  /** Where the first count that is not zero is read, when all of the table is still left: a
      zero count is the 15-bit codeword 1, and a run of zeros follows it. */
  function FirstNonzero(v: nat, n: nat, pos: nat): nat
    decreases 8 * n - pos
  {
    if pos >= 8 * n || Low(Shr(v, pos), 15) != 1 then pos
    else FirstNonzero(v, n, pos + 15 + ZeroRun(Shr(v, pos + 15)).1)
  }

  /** The header announces table log 15, and its first count that is not zero is the 16-bit
      codeword of all ones. That stands for 2^15, which a 16-bit number stores as -2^15. */
  predicate WrapsAround(header: seq<U8>)
  {
    var v := LE(header);
    Low(v, 4) == 10 && Low(Shr(v, FirstNonzero(v, |header|, 4)), 16) == 0xFFFF
  }

  /** Once part of the table is used, no count can be 2^15. */
  lemma {:induction false} NoLateWrap(v: nat, n: nat, tableLog: nat, maxSV1: nat, rd: Reader)
    requires ReaderOk(rd) && rd.remaining <= 0x8000
    ensures var p := ParseFrom(v, n, tableLog, maxSV1, rd);
            p.Accepted? ==> (-0x8000 in p.counts <==> -0x8000 in rd.counts)
    decreases maxSV1 - |rd.counts|, 1
  {
    hide Shr, ZeroRun, Pow2, ParseCount, ReaderOk;
    if rd.previous0 {
      var run := ZeroRun(Shr(v, rd.pos));
      var rd' := rd.(pos := rd.pos + run.1, counts := rd.counts + Zeros(run.0));
      SameReader(rd, rd');
      if rd'.pos < 8 * n && |rd'.counts| < maxSV1 {
        NoLateWrapCount(v, n, tableLog, maxSV1, rd');
      }
    } else {
      NoLateWrapCount(v, n, tableLog, maxSV1, rd);
    }
  }

  lemma {:induction false} NoLateWrapCount(v: nat, n: nat, tableLog: nat, maxSV1: nat, rd: Reader)
    requires ReaderOk(rd) && rd.remaining <= 0x8000
    ensures var p := ParseCount(v, n, tableLog, maxSV1, rd);
            p.Accepted? ==> (-0x8000 in p.counts <==> -0x8000 in rd.counts)
    decreases maxSV1 - |rd.counts|, 0
  {
    NextCountOk(v, rd);
    NextCountKept(v, rd);
    hide NextCount, Pow2, ParseFrom, ReaderOk;
    var rd' := NextCount(v, rd);
    if rd'.remaining > 1 && |rd'.counts| < maxSV1 && rd'.pos < 8 * n {
      NoLateWrap(v, n, tableLog, maxSV1, rd');
    }
  }

  lemma NextCountKept(v: nat, rd: Reader)
    requires ReaderOk(rd) && rd.remaining <= 0x8000
    ensures |NextCount(v, rd).counts| == |rd.counts| + 1 && NextCount(v, rd).remaining <= 0x8000
    ensures -0x8000 in NextCount(v, rd).counts <==> -0x8000 in rd.counts
  {
    hide Pow2, Shr, ReadValue;
    ReadAtMost(Shr(v, rd.pos), rd.remaining, rd.nbBits);
    var count: int := ReadValue(Shr(v, rd.pos), rd.remaining, rd.nbBits).0 - 1;
    assert NextCount(v, rd).counts == rd.counts + [ToShort(count)];
  }

  /** The first codeword, while all of the table is left. */
  lemma FirstCodeword(x: nat)
    ensures Pow2(15) <= 0x8001 < 2 * Pow2(15)
    ensures Low(x, 15) == 1 ==> ReadValue(x, 0x8001, 16) == (1, 15)
    ensures Low(x, 15) != 1 ==> ReadValue(x, 0x8001, 16).0 != 1
    ensures ReadValue(x, 0x8001, 16).0 == 0x8001 <==> Low(x, 16) == 0xFFFF
    ensures Low(x, 15) == 1 ==> Low(x, 16) != 0xFFFF
  {
    Pow2Values();
    DoublePow(15);
    Split(x, 15);
    Split(x, 16);
    TopBit(x, 15);
    hide Shl, Low, Pow2;
  }

  /** Nothing of the table used yet, and no count wrapped. */
  predicate Untouched(rd: Reader)
  {
    ReaderOk(rd) && rd.remaining == 0x8001 && rd.nbBits == 16 && -0x8000 !in rd.counts
  }

  lemma {:induction false} FirstCount(v: nat, n: nat, tableLog: nat, maxSV1: nat, rd: Reader)
    requires Untouched(rd) && rd.pos < 8 * n
    ensures var p := ParseCount(v, n, tableLog, maxSV1, rd);
            p.Accepted? ==> (-0x8000 in p.counts <==> Low(Shr(v, FirstNonzero(v, n, rd.pos)), 16) == 0xFFFF)
    decreases maxSV1 - |rd.counts|, 0
  {
    hide *;
    CountSplit(v, n, tableLog, maxSV1, rd);
    NextOfFirst(v, rd);
    FirstNonzeroIs(v, n, rd.pos);
    var rd' := NextCount(v, rd);
    if rd'.remaining > 1 && |rd'.counts| < maxSV1 && rd'.pos < 8 * n {
      if rd'.previous0 {
        FirstRun(v, n, tableLog, maxSV1, rd');
      } else {
        NoLateWrap(v, n, tableLog, maxSV1, rd');
      }
    }
  }

  /** One unfolding of ParseCount, on what is accepted. */
  lemma CountSplit(v: nat, n: nat, tableLog: nat, maxSV1: nat, rd: Reader)
    requires Untouched(rd)
    ensures ReaderOk(rd) && |NextCount(v, rd).counts| == |rd.counts| + 1
    ensures var p, rd' := ParseCount(v, n, tableLog, maxSV1, rd), NextCount(v, rd);
            if rd'.remaining > 1 && |rd'.counts| < maxSV1 && rd'.pos < 8 * n
            then ReaderOk(rd') && p == ParseFrom(v, n, tableLog, maxSV1, rd')
            else p.Accepted? ==> p.counts == rd'.counts && rd'.remaining == 1
  {
    NextCountOk(v, rd);
    NextCountGrows(v, rd);
    hide NextCount, ParseFrom, Pow2;
  }

  lemma {:induction false} FirstRun(v: nat, n: nat, tableLog: nat, maxSV1: nat, rd: Reader)
    requires Untouched(rd) && rd.previous0
    ensures var p, next := ParseFrom(v, n, tableLog, maxSV1, rd), rd.pos + ZeroRun(Shr(v, rd.pos)).1;
            p.Accepted? ==> (-0x8000 in p.counts <==> Low(Shr(v, FirstNonzero(v, n, next)), 16) == 0xFFFF)
    decreases maxSV1 - |rd.counts|, 1
  {
    hide ParseCount, Pow2, Low, Shr, ZeroRun, FirstNonzero;
    var run := ZeroRun(Shr(v, rd.pos));
    var rd' := rd.(pos := rd.pos + run.1, counts := rd.counts + Zeros(run.0));
    if rd'.pos < 8 * n && |rd'.counts| < maxSV1 {
      FirstCount(v, n, tableLog, maxSV1, rd');
    }
  }

  lemma FirstNonzeroIs(v: nat, n: nat, pos: nat)
    requires pos < 8 * n
    ensures Low(Shr(v, pos), 15) != 1 ==> FirstNonzero(v, n, pos) == pos
    ensures Low(Shr(v, pos), 15) == 1 ==>
              FirstNonzero(v, n, pos) == FirstNonzero(v, n, pos + 15 + ZeroRun(Shr(v, pos + 15)).1)
  {
  }

  /** The reader after the first codeword: still untouched after a zero, past the danger after
      any other count. */
  lemma NextOfFirst(v: nat, rd: Reader)
    requires Untouched(rd)
    ensures ReaderOk(rd)
    ensures var x, rd' := Shr(v, rd.pos), NextCount(v, rd);
            if Low(x, 15) == 1 then
              && rd'.previous0 && rd'.pos == rd.pos + 15 && rd'.remaining == 0x8001
              && (ReaderOk(rd') ==> Untouched(rd'))
            else
              && !rd'.previous0 && rd'.remaining <= 0x8000
              && (-0x8000 in rd'.counts <==> Low(x, 16) == 0xFFFF)
  {
    FirstCodeword(Shr(v, rd.pos));
    ReadAtMost(Shr(v, rd.pos), rd.remaining, rd.nbBits);
    hide Pow2, Shr, Low, ReadValue;
    var count: int := ReadValue(Shr(v, rd.pos), 0x8001, 16).0 - 1;
    assert NextCount(v, rd).counts == rd.counts + [ToShort(count)];
  }

  /** An accepted header yields a wrapped count exactly when it wraps around. */
  lemma WrapsExactly(header: seq<U8>, maxSV1: nat)
    ensures var p := ParseHeader(header, maxSV1);
            p.Accepted? ==> p.tableLog == Low(LE(header), 4) + MIN_TABLELOG
    ensures var p := ParseHeader(header, maxSV1);
            p.Accepted? && p.tableLog == 15 ==> (-0x8000 in p.counts <==> WrapsAround(header))
  {
    hide LE, ParseFrom, Low, Shr, FirstNonzero;
    var v := LE(header);
    LogOfHeader(header, maxSV1);
    if Low(v, 4) == 10 {
      Pow2Values();
      DoublePow(15);
      NotEmpty(header);
      var rd := Reader(4, 0x8001, 16, [], false);
      StartOfCounts(v, |header|, maxSV1, rd);
      FirstCount(v, |header|, 15, maxSV1, rd);
    }
  }

  lemma NotEmpty(header: seq<U8>)
    requires Low(LE(header), 4) == 10
    ensures |header| > 0
  {
    LowZero(4);
  }

  lemma StartOfCounts(v: nat, n: nat, maxSV1: nat, rd: Reader)
    requires ReaderOk(rd) && !rd.previous0
    ensures ParseFrom(v, n, 15, maxSV1, rd) == ParseCount(v, n, 15, maxSV1, rd)
  {
    hide ParseCount;
  }

  lemma LogOfHeader(header: seq<U8>, maxSV1: nat)
    ensures var p := ParseHeader(header, maxSV1);
            p.Accepted? ==> p.tableLog == Low(LE(header), 4) + MIN_TABLELOG
  {
    hide LE, Low;
    var v := LE(header);
    var tableLog := Low(v, 4) + MIN_TABLELOG;
    Pow2Mono(1, tableLog);
    Pow2Values();
    DoublePow(tableLog);
    LogFrom(v, |header|, tableLog, maxSV1, Reader(4, Pow2(tableLog) + 1, tableLog + 1, [], false));
  }

  lemma {:induction false} LogFrom(v: nat, n: nat, tableLog: nat, maxSV1: nat, rd: Reader)
    requires ReaderOk(rd)
    ensures var p := ParseFrom(v, n, tableLog, maxSV1, rd); p.Accepted? ==> p.tableLog == tableLog
    decreases maxSV1 - |rd.counts|, 1
  {
    hide Shr, ZeroRun, Pow2, ParseCount, ReaderOk;
    if rd.previous0 {
      var run := ZeroRun(Shr(v, rd.pos));
      var rd' := rd.(pos := rd.pos + run.1, counts := rd.counts + Zeros(run.0));
      SameReader(rd, rd');
      if |rd'.counts| < maxSV1 {
        LogCount(v, n, tableLog, maxSV1, rd');
      }
    } else {
      LogCount(v, n, tableLog, maxSV1, rd);
    }
  }

  lemma {:induction false} LogCount(v: nat, n: nat, tableLog: nat, maxSV1: nat, rd: Reader)
    requires ReaderOk(rd)
    ensures var p := ParseCount(v, n, tableLog, maxSV1, rd); p.Accepted? ==> p.tableLog == tableLog
    decreases maxSV1 - |rd.counts|, 0
  {
    NextCountOk(v, rd);
    NextCountGrows(v, rd);
    hide NextCount, Pow2, ParseFrom, ReaderOk;
    var rd' := NextCount(v, rd);
    if rd'.remaining > 1 && |rd'.counts| < maxSV1 {
      LogFrom(v, n, tableLog, maxSV1, rd');
    }
  }

  /** Whether accepted counts are normalized can be told from the header: always when its low
      four bits are not 10, and otherwise, unless it is truncated, exactly when it does not wrap
      around. */
  lemma HeaderNormalized(header: seq<U8>, r: NCountResult, counts: seq<int>)
    requires r.Parsed? && Conserved(r, counts) && r.tableLog == Low(LE(header), 4) + MIN_TABLELOG
    requires Agrees(ParseHeader(header, |counts|), r, counts)
    ensures r.maxSymbolValue < |counts|
    ensures Low(LE(header), 4) != 10 ==> Normalized(counts[..r.maxSymbolValue + 1], r.tableLog)
    ensures ParseHeader(header, |counts|) != Truncated ==>
              (Normalized(counts[..r.maxSymbolValue + 1], r.tableLog) <==> !WrapsAround(header))
  {
    ConservedNormalized(r, counts);
    WrapsExactly(header, |counts|);
    hide ParseHeader, LE, Low, Normalized, Shr, FirstNonzero, Stored, AbsSum;
    assert MIN_TABLELOG == 5;
  }

  /** It does happen: table log 15, one symbol that takes the whole table, in three bytes. */
  lemma WrappedCount(maxSymbolValue: nat)
    ensures ParseHeader([0xFA, 0xFF, 0x0F], maxSymbolValue + 1) == Accepted(3, 15, [-0x8000])
    ensures WrapsAround([0xFA, 0xFF, 0x0F]) && !Normalized([-0x8000], 15)
  {
    hide *;
    HeaderValue();
    WrappedHeader(maxSymbolValue);
    NegativeWeight();
    ParseIs([0xFA, 0xFF, 0x0F], maxSymbolValue + 1, 15);
    WrapsExactly([0xFA, 0xFF, 0x0F], maxSymbolValue + 1);
    assert [-0x8000][0] == -0x8000;
  }

  lemma NegativeWeight()
    ensures !Normalized([-0x8000], 15) && MIN_TABLELOG == 5 && TABLELOG_ABSOLUTE_MAX == 15
  {
  }

  lemma ParseIs(header: seq<U8>, maxSV1: nat, tableLog: nat)
    requires tableLog == Low(LE(header), 4) + MIN_TABLELOG <= TABLELOG_ABSOLUTE_MAX
    ensures Pow2(tableLog) >= 2
    ensures ParseHeader(header, maxSV1)
            == ParseFrom(LE(header), |header|, tableLog, maxSV1, Reader(4, Pow2(tableLog) + 1, tableLog + 1, [], false))
  {
    hide LE, Low, Pow2, ParseFrom;
    Pow2Mono(1, tableLog);
    Pow2Values();
  }

  lemma WrappedHeader(maxSymbolValue: nat)
    ensures Low(0x0F_FFFA, 4) == 10 && ReaderOk(Reader(4, Pow2(15) + 1, 16, [], false))
    ensures ParseFrom(0x0F_FFFA, 3, 15, maxSymbolValue + 1, Reader(4, Pow2(15) + 1, 16, [], false))
            == Accepted(3, 15, [-0x8000])
  {
    var v := 0x0F_FFFA;
    Pow2Values();
    DoublePow(15);
    assert Low(v, 4) == 10 by { LowMod(v, 4); }
    Shift4(v);
    assert Pow2(15) == 0x8000;
    var rd := Reader(4, 0x8001, 16, [], false);
    WrappedRead();
    hide Pow2, Low, Shr, Shl, ReadValue;
    assert NextCount(v, rd) == Reader(20, 1, 16, [-0x8000], false);
    assert ParseCount(v, 3, 15, maxSymbolValue + 1, rd) == Accepted(3, 15, [-0x8000]);
  }

  lemma WrappedRead()
    ensures 2 <= 0x8001 && Pow2(15) <= 0x8001 < Pow2(16) && ReadValue(0xFFFF, 0x8001, 16) == (0x8001, 16)
  {
    assert Pow2(15) == 0x8000 && Pow2(16) == 0x1_0000 by {
      Pow2Values();
      DoublePow(15);
    }
    hide Pow2;
    assert Low(0xFFFF, 16) == 0xFFFF && Low(0xFFFF, 15) == 0x7FFF by {
      LowMod(0xFFFF, 16);
      LowMod(0xFFFF, 15);
    }
    hide Low;
  }

  lemma HeaderValue()
    ensures LE([0xFA, 0xFF, 0x0F]) == 0x0F_FFFA
  {
    var s: seq<U8> := [0xFA, 0xFF, 0x0F];
    assert s[1..] == [0xFF, 0x0F] && s[1..][1..] == [0x0F] && s[1..][1..][1..] == [];
  }
}

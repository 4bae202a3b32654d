/** HUF_compressWeights: a whole FSE block, from the source to a table description and a stream,
    and back through the block decoder. */
module HufWeights {
  import opened Bits
  import opened LittleEndian
  import opened BitStream
  import opened FseCounts
  import opened FseTable
  import opened Tans
  import opened FseCoder
  import opened FseBuildCTable
  import opened FseDecompress
  import opened FseTwoState
  import opened FseCompress
  import opened NCount
  import opened FseBlock
  import NCountWriter
  import Hist
  import HufStats

  const MAX_LOG: nat := 6

  datatype CompressResult =
    | NotCompressible
    | SingleSymbol
    | Block(size: nat)
    | HeaderTooLong  // FSE_writeNCount has no room

  /** What FSE_normalizeCount may return: every symbol of the source has cells, and the last
      count is that of the largest symbol. */
  ghost predicate NormOf(norm: seq<int>, tableLog: nat, weights: seq<nat>)
  {
    && MIN_TABLELOG <= tableLog <= MAX_LOG && Normalized(norm, tableLog) && 0 < |norm| <= HufStats.HUF_TABLELOG_MAX + 1
    && (forall i :: 0 <= i < |weights| ==> weights[i] < |norm| && norm[weights[i]] != 0)
    && norm[|norm| - 1] != 0
  }

  /** A block that says these symbols: its description gives the counts and the table log, and
      what follows decodes to the symbols, wherever there is room for them. */
  ghost predicate IsBlock(block: seq<U8>, norm: seq<int>, tableLog: nat, symbols: seq<nat>, c: Code, headerSize: nat)
  {
    && headerSize <= |block| && ParseHeader(block, MAX_SYMBOL_VALUE + 1) == Accepted(headerSize, tableLog, norm)
    && ByteCode(c) && c.counts == norm && c.tableLog == tableLog
    && forall capacity: nat :: SimpleDecode(c, block[headerSize..], capacity)
                               == if |symbols| <= capacity then Decoded(symbols) else DstSizeTooSmall
  }

  predicate AllSame(symbols: seq<nat>)
  {
    forall i :: 0 <= i < |symbols| ==> symbols[i] == symbols[0]
  }

  predicate AllDifferent(symbols: seq<nat>)
  {
    forall i, j :: 0 <= i < j < |symbols| ==> symbols[i] != symbols[j]
  }

  // ------------------------------------------------------------------ what the histogram tells

  lemma {:induction false} CountOf(s: seq<nat>, x: nat)
    ensures multiset(s)[x] <= |s|
    ensures multiset(s)[x] == |s| <==> forall i :: 0 <= i < |s| ==> s[i] == x
  {
    if s != [] {
      var init, last := s[..|s| - 1], s[|s| - 1];
      CountOf(init, x);
      assert s == init + [last];
      if forall i :: 0 <= i < |s| ==> s[i] == x {
        assert forall i :: 0 <= i < |init| ==> init[i] == s[i];
      }
    }
  }

  lemma {:induction false} CountOnce(s: seq<nat>, x: nat)
    requires AllDifferent(s)
    ensures multiset(s)[x] <= 1
  {
    if s != [] {
      var init, last := s[..|s| - 1], s[|s| - 1];
      assert s == init + [last];
      assert forall i :: 0 <= i < |init| ==> init[i] == s[i] != s[|s| - 1];
      CountOnce(init, x);
    }
  }

  lemma CountTwice(s: seq<nat>, i: nat, j: nat)
    requires i < j < |s| && s[i] == s[j]
    ensures multiset(s)[s[i]] >= 2
  {
    assert s == s[..j] + [s[j]] + s[j + 1..];
    assert s[..j][i] in multiset(s[..j]);
  }

  /** The largest count tells a single symbol, and symbols that are all different. */
  lemma LargestTells(weights: seq<U8>, count: seq<nat>, n: nat, m: nat, largest: nat)
    requires Hist.Tallied(weights, n, count, m, largest) && |weights| > 1
    ensures largest == |weights| <==> AllSame(weights)
    ensures largest == 1 <==> AllDifferent(weights)
  {
    var k :| 0 <= k < |weights| && largest == multiset(weights)[weights[k]];
    CountOf(weights, weights[k]);
    CountOf(weights, weights[0]);
    if AllDifferent(weights) {
      CountOnce(weights, weights[k]);
      assert weights[k] in multiset(weights);
    } else {
      var i, j :| 0 <= i < j < |weights| && weights[i] == weights[j];
      CountTwice(weights, i, j);
    }
  }

  lemma MoreThanTwo(weights: seq<nat>)
    ensures |weights| <= 2 ==> AllSame(weights) || AllDifferent(weights)
  {
  }

  /** With two symbols about, none takes the whole table. */
  lemma NoneTakesAll(c: Code, weights: seq<nat>, i: nat)
    requires ValidCode(c) && Sendable(c, weights) && i < |weights| && !AllSame(weights)
    ensures weights[i] < |c.counts| && Weight(c.counts[weights[i]]) < Size(c)
  {
    SendableAt(c, weights, i);
    SendableAt(c, weights, 0);
    var j :| 0 <= j < |weights| && weights[j] != weights[0];
    SendableAt(c, weights, j);
    hide ValidTable, Pow2;
    var k := if weights[i] == weights[0] then j else 0;
    TwoWeights(c, weights[i], weights[k]);
    HasCells(c, weights[k]);
  }

  lemma HasCells(c: Code, s: nat)
    requires ValidCode(c) && s < |c.counts| && c.counts[s] != 0
    ensures Weight(c.counts[s]) > 0
  {
    hide DecodingTable;
  }

  // ------------------------------------------------------------------ the block

  /** Room the table description asks for. */
  ghost function HeaderNeeded(norm: seq<int>, tableLog: nat): nat
    requires NormOf(norm, tableLog, [])
  {
    NormFacts(norm, tableLog, []);
    NCountWriter.RoomFor(NCountWriter.Spelt(norm, tableLog).width)
  }

  /** Room that is always enough for description and stream. */
  ghost function RoomNeeded(norm: seq<int>, tableLog: nat, length: nat): nat
    requires NormOf(norm, tableLog, [])
  {
    HeaderNeeded(norm, tableLog) + 9 + length * tableLog / 8
  }

  lemma NormFacts(norm: seq<int>, tableLog: nat, weights: seq<nat>)
    requires NormOf(norm, tableLog, weights)
    ensures NormOf(norm, tableLog, []) && 5 <= tableLog <= 6 && 0 < |norm| <= 13 && Normalized(norm, tableLog)
    ensures NCountWriter.Countable(norm) && NCountWriter.Left(norm, Pow2(tableLog) + 1) == 1
    ensures NCountWriter.Used(norm, Pow2(tableLog) + 1) == norm
    ensures NCountWriter.Spelt(norm, tableLog).width > 0
  {
    NCountWriter.NormalizedWritten(norm, tableLog);
    NCountWriter.SpeltIs(norm, tableLog);
    hide Normalized, Pow2, NCountWriter.Left, NCountWriter.Used, NCountWriter.Spelt;
  }

  /** The description and the stream behind it are a block. */
  lemma MakesBlock(written: NCountWriter.WriteResult, header: seq<U8>, stream: seq<U8>, norm: seq<int>, tableLog: nat,
                   weights: seq<nat>, c: Code, u1: nat, u2: nat)
    requires NormOf(norm, tableLog, weights) && written.Written? && NCountWriter.Countable(norm)
    requires NCountWriter.WriteDone(written, header, norm, tableLog)
    requires ByteCode(c) && c.counts == norm && c.tableLog == tableLog && Sendable(c, weights)
    requires |weights| >= 2 && !AllSame(weights) && u1 < Size(c) && u2 < Size(c)
    requires FirstCellOf(c, weights[|weights| - 2], u1) && FirstCellOf(c, weights[|weights| - 1], u2)
    requires Holds(stream, PairStream(c, weights, u1, u2))
    ensures written.size <= |header|
    ensures IsBlock(header[..written.size] + stream, norm, tableLog, weights, c, written.size)
  {
    hide *;
    Logs();
    NormFacts(norm, tableLog, weights);
    ByteCodeIs(c);
    NoneTakesAll(c, weights, |weights| - 2);
    NCountWriter.WrittenReadsBack(written, header, stream, norm, tableLog, MAX_SYMBOL_VALUE + 1);
    var block := header[..written.size] + stream;
    assert block[written.size..] == stream;
    forall capacity: nat
      ensures SimpleDecode(c, block[written.size..], capacity)
              == if |weights| <= capacity then Decoded(weights) else DstSizeTooSmall
    {
      WhatIsDecoded(c, weights, u1, u2, stream, capacity);
    }
    BlockIs(block, norm, tableLog, weights, c, written.size);
  }

  lemma BlockIs(block: seq<U8>, norm: seq<int>, tableLog: nat, symbols: seq<nat>, c: Code, headerSize: nat)
    requires headerSize <= |block| && ParseHeader(block, MAX_SYMBOL_VALUE + 1) == Accepted(headerSize, tableLog, norm)
    requires ByteCode(c) && c.counts == norm && c.tableLog == tableLog
    requires forall capacity: nat :: SimpleDecode(c, block[headerSize..], capacity)
                                     == if |symbols| <= capacity then Decoded(symbols) else DstSizeTooSmall
    ensures IsBlock(block, norm, tableLog, symbols, c, headerSize)
  {
    hide ParseHeader, ByteCode, SimpleDecode;
  }

  /** Description and stream, for a source with a symbol that occurs twice and another symbol. */
  method CompressBlock(dst: array<U8>, weights: seq<U8>, norm: seq<int>, tableLog: nat)
    returns (r: CompressResult, ghost c: Code, ghost headerSize: nat)
    requires NormOf(norm, tableLog, weights) && |weights| > 2 && !AllSame(weights)
    modifies dst
    ensures !r.SingleSymbol? && NormOf(norm, tableLog, [])
    ensures r.HeaderTooLong? <==> HeaderNeeded(norm, tableLog) > dst.Length
    ensures r.Block? ==> r.size <= dst.Length && IsBlock(dst[..r.size], norm, tableLog, weights, c, headerSize)
    ensures dst.Length > RoomNeeded(norm, tableLog, |weights|) ==> r.Block?
  {
    hide *;
    Logs();
    NormFacts(norm, tableLog, weights);
    NeededIs(norm, tableLog);
    c, headerSize := Code([], 0, []), 0;
    var written := NCountWriter.WriteNCount(dst, norm, tableLog);
    if written.WriteFailed? {
      NoRoom(written, dst[..], norm, tableLog);
      return HeaderTooLong, c, headerSize;
    }
    HeaderRoom(written, dst[..], norm, tableLog);
    var hSize := written.size;
    headerSize := hSize;
    var ct;
    ct, c := BuildTable(norm, tableLog);
    ByteCodeIs(c);
    NormSendable(c, norm, tableLog, weights);
    var stream := new U8[dst.Length - hSize];
    ghost var u1, u2, header := 0, 0, dst[..];
    var cSize;
    cSize, u1, u2 := CompressUsingCTable(stream, weights, ct, c);
    if stream.Length > 8 {
      StreamFits(c, weights, u1, u2, stream.Length);
    }
    if cSize == 0 {
      return NotCompressible, c, headerSize;
    }
    ghost var block := header[..hSize] + stream[..cSize];
    MakesBlock(written, header, stream[..cSize], norm, tableLog, weights, c, u1, u2);
    forall i | 0 <= i < cSize { dst[hSize + i] := stream[i]; }
    r := Block(hSize + cSize);
    assert dst[..r.size] == block;
  }

  method BuildTable(norm: seq<int>, tableLog: nat) returns (ct: CTable, ghost c: Code)
    requires 5 <= tableLog <= 6 && 0 < |norm| <= 13 && Normalized(norm, tableLog)
    ensures ByteCode(c) && c.counts == norm && c.tableLog == tableLog && Complements(ct, c)
  {
    hide Pow2, Normalized, Complements, WorkspaceSize, ValidCode;
    WorkspaceGrows(|norm| - 1, tableLog, 12, 6);
    var stateTable := new U16[Pow2(tableLog)];
    var symbolTT := new SymbolTransform[|norm|](_ => SymbolTransform(0, 0));
    var ok;
    ok, c := BuildCTable(stateTable, symbolTT, norm, tableLog, WorkspaceSize(12, 6));
    ct := CTable(tableLog, stateTable[..], symbolTT[..]);
  }

  lemma WorkspaceGrows(m: nat, tableLog: nat, m': nat, tableLog': nat)
    requires m <= m' && tableLog <= tableLog'
    ensures WorkspaceSize(m, tableLog) <= WorkspaceSize(m', tableLog') && WorkspaceSize(12, 6) == 164
  {
    Pow2Mono(tableLog, tableLog');
    Pow2Values();
    hide Pow2;
  }

  lemma ByteCodeIs(c: Code)
    requires ByteCode(c)
    ensures ValidCode(c)
  {
  }

  lemma Logs()
    ensures MIN_TABLELOG == 5 && MAX_TABLELOG == 12 && MAX_SYMBOL_VALUE == 255 && HufStats.HUF_TABLELOG_MAX == 12
  {
  }

  lemma NeededIs(norm: seq<int>, tableLog: nat)
    requires NormOf(norm, tableLog, []) && NCountWriter.Countable(norm) && MIN_TABLELOG <= tableLog
    requires NCountWriter.Spelt(norm, tableLog).width > 0
    ensures HeaderNeeded(norm, tableLog) == NCountWriter.RoomFor(NCountWriter.Spelt(norm, tableLog).width)
    ensures forall length: nat :: RoomNeeded(norm, tableLog, length) == HeaderNeeded(norm, tableLog) + 9 + length * tableLog / 8
  {
    hide Pow2, NCountWriter.Spelt, NCountWriter.RoomFor;
  }

  lemma NoRoom(written: NCountWriter.WriteResult, header: seq<U8>, norm: seq<int>, tableLog: nat)
    requires MIN_TABLELOG <= tableLog && NCountWriter.Countable(norm) && written.WriteFailed?
    requires NCountWriter.Left(norm, Pow2(tableLog) + 1) == 1 && NCountWriter.WriteDone(written, header, norm, tableLog)
    ensures NCountWriter.Spelt(norm, tableLog).width > 0
    ensures NCountWriter.RoomFor(NCountWriter.Spelt(norm, tableLog).width) > |header|
  {
    hide NCountWriter.Left, NCountWriter.Spelt, NCountWriter.RoomFor, LE, Pow2, NCountWriter.Countable, NCountWriter.Fits;
  }

  lemma HeaderRoom(written: NCountWriter.WriteResult, header: seq<U8>, norm: seq<int>, tableLog: nat)
    requires MIN_TABLELOG <= tableLog && NCountWriter.Countable(norm) && written.Written?
    requires NCountWriter.WriteDone(written, header, norm, tableLog)
    ensures NCountWriter.Spelt(norm, tableLog).width > 0
    ensures written.size <= NCountWriter.RoomFor(NCountWriter.Spelt(norm, tableLog).width) <= |header|
  {
    NCountWriter.DoneIs(written, header, norm, tableLog);
    hide NCountWriter.WriteDone, NCountWriter.Spelt, NCountWriter.Countable;
  }

  lemma NormSendable(c: Code, norm: seq<int>, tableLog: nat, weights: seq<nat>)
    requires NormOf(norm, tableLog, weights) && c.counts == norm
    ensures Sendable(c, weights)
  {
    hide Normalized;
  }

  lemma StreamFits(c: Code, weights: seq<nat>, u1: nat, u2: nat, length: nat)
    requires ValidCode(c) && Sendable(c, weights) && |weights| >= 2 && u1 < Size(c) && u2 < Size(c)
    ensures length > 9 + |weights| * c.tableLog / 8 ==>
              (Total(PairStream(c, weights, u1, u2)) + 1) / 8 < length - 8
  {
    hide *;
    StreamBits(c, weights, u1, u2);
    FseCompress.Enough(Total(PairStream(c, weights, u1, u2)), |weights| * c.tableLog, length);
  }

  /** HUF_compressWeights, with the normalized counts as parameters. The stream is made in an
      array of its own, as long as the room behind the description, and moved there. */
  method CompressWeights(dst: array<U8>, weights: seq<U8>, norm: seq<int>, tableLog: nat)
    returns (r: CompressResult, ghost c: Code, ghost headerSize: nat)
    requires Hist.AllWithin(weights, HufStats.HUF_TABLELOG_MAX)
    requires |weights| > 1 && !AllSame(weights) && !AllDifferent(weights) ==> NormOf(norm, tableLog, weights)
    modifies dst
    ensures |weights| <= 1 ==> r.NotCompressible?
    ensures r.SingleSymbol? <==> |weights| > 1 && AllSame(weights)
    ensures |weights| > 1 && AllDifferent(weights) ==> r.NotCompressible?
    ensures |weights| > 1 && !AllSame(weights) && !AllDifferent(weights) ==>
              NormOf(norm, tableLog, []) && (r.HeaderTooLong? <==> HeaderNeeded(norm, tableLog) > dst.Length)
    ensures r.Block? ==> r.size <= dst.Length && IsBlock(dst[..r.size], norm, tableLog, weights, c, headerSize)
    ensures |weights| > 1 && !AllSame(weights) && !AllDifferent(weights) ==>
              NormOf(norm, tableLog, []) && (dst.Length > RoomNeeded(norm, tableLog, |weights|) ==> r.Block?)
  {
    hide *;
    c, headerSize := Code([], 0, []), 0;
    Logs();
    if |weights| <= 1 {
      return NotCompressible, c, headerSize;
    }
    var count := new nat[13];
    var largest, maxSymbolValue := Hist.CountSimple(count, 12, weights);
    LargestTells(weights, count[..], 13, maxSymbolValue, largest);
    if largest == |weights| {
      return SingleSymbol, c, headerSize;
    }
    if largest == 1 {
      return NotCompressible, c, headerSize;
    }
    MoreThanTwo(weights);
    r, c, headerSize := CompressBlock(dst, weights, norm, tableLog);
  }

  // ------------------------------------------------------------------ and back

  /** The block decoder's every outcome on a block: the symbols, or too little room for them. */
  lemma BlockReadsBack(block: seq<U8>, norm: seq<int>, tableLog: nat, symbols: seq<nat>, c: Code, headerSize: nat,
                       r: BlockResult, capacity: nat, maxLog: nat, wkspSize: nat,
                       header: NCountResult, ncount: seq<int>, c': Code)
    requires IsBlock(block, norm, tableLog, symbols, c, headerSize) && tableLog <= maxLog && 0 < |norm|
    requires DecompressWkspSize(tableLog, |norm| - 1) <= wkspSize
    requires BlockDecodes(r, block, capacity, maxLog, wkspSize, header, ncount, c')
    ensures r == Stream(if |symbols| <= capacity then Decoded(symbols) else DstSizeTooSmall)
  {
    WorkspaceSuffices(tableLog, |norm| - 1, wkspSize);
    CodeLog(c);
    hide ParseHeader, SimpleDecode, ValidCode, DecompressWkspSize, BuildWkspSize, Pow2;
    assert header == Parsed(headerSize, |norm| - 1, tableLog);
    assert c'.counts == norm;
    SameCode(c, c');
  }

  lemma CodeLog(c: Code)
    requires ByteCode(c)
    ensures c.tableLog <= MAX_TABLELOG
  {
  }

  lemma SameCode(a: Code, b: Code)
    requires ValidCode(a) && ValidCode(b) && a.counts == b.counts && a.tableLog == b.tableLog
    ensures a == b
  {
    hide DecodingTable, Normalized;
    TableUnique(a.counts, a.tableLog, a.cells, b.cells);
  }

  /** A tree description that carries such a block gives HUF_readStats these weights. */
  lemma StatsReadBack(src: seq<U8>, block: seq<U8>, more: seq<U8>, norm: seq<int>, tableLog: nat, weights: seq<nat>,
                      c: Code, headerSize: nat, hwSize: nat, wkspSize: nat, found: seq<nat>, d: HufStats.Description)
    requires |block| < 128 && src == [|block|] + block + more
    requires IsBlock(block, norm, tableLog, weights, c, headerSize) && tableLog <= MAX_LOG && 0 < |norm|
    requires DecompressWkspSize(tableLog, |norm| - 1) <= wkspSize && |weights| < hwSize
    requires HufStats.HeaderWeights(src, hwSize, wkspSize, found, d)
    ensures found == weights
  {
    hide IsBlock, DecompressWkspSize, BlockDecodes;
    assert src[1..1 + src[0]] == block;
    BlockReadsBack(block, norm, tableLog, weights, c, headerSize, Stream(Decoded(found)), hwSize - 1, 6, wkspSize,
                   d.header, d.ncount, d.c);
  }

  /** FSE there and back: what HUF_compressWeights makes of any weights, FSE_decompress_wksp
      decodes to them. */
  method RoundTrip(dst: array<U8>, out: array<U8>, capacity: nat, weights: seq<U8>, norm: seq<int>, tableLog: nat,
                   wkspSize: nat)
    returns (r: CompressResult, back: BlockResult)
    requires Hist.AllWithin(weights, HufStats.HUF_TABLELOG_MAX) && NormOf(norm, tableLog, weights)
    requires capacity <= out.Length && dst != out && DecompressWkspSize(tableLog, |norm| - 1) <= wkspSize
    modifies dst, out
    ensures |weights| > 1 && !AllSame(weights) && !AllDifferent(weights) ==>
              NormOf(norm, tableLog, []) && (dst.Length > RoomNeeded(norm, tableLog, |weights|) ==> r.Block?)
    ensures r.Block? ==> back == Stream(if |weights| <= capacity then Decoded(weights) else DstSizeTooSmall)
    ensures r.Block? && |weights| <= capacity ==> out[..|weights|] == weights
  {
    NormFacts(norm, tableLog, weights);
    hide *;
    Logs();
    ghost var c, headerSize;
    r, c, headerSize := CompressWeights(dst, weights, norm, tableLog);
    back := WorkspaceTooSmall;
    if r.Block? {
      ghost var header, ncount, c';
      ghost var block := dst[..r.size];
      back, header, ncount, c' := DecompressBlock(out, capacity, dst[..r.size], MAX_LOG, wkspSize);
      BlockReadsBack(block, norm, tableLog, weights, c, headerSize, back, capacity, MAX_LOG, wkspSize, header, ncount, c');
    }
  }
}

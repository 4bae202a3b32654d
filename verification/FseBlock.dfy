/** FSE_decompress_wksp_body: header, table and stream of one compressed block. */
module FseBlock {
  import opened Bits
  import opened FseCounts
  import opened FseTable
  import opened FseCoder
  import opened FseDecompress
  import opened NCount

  datatype BlockResult =
    | Stream(outcome: Outcome)  // what the stream decoder returned
    | WorkspaceTooSmall
    | HeaderFailed(headerError: NCountError)
    | TableLogAboveLimit
    | BuildFailed(buildError: BuildError)

  /** FSE_DTABLE_SIZE and FSE_DECOMPRESS_WKSP_SIZE, in bytes. */
  function DTableSize(tableLog: nat): nat
  {
    4 * (1 + Pow2(tableLog))
  }

  function DecompressWkspSize(tableLog: nat, maxSymbolValue: nat): nat
  {
    4 * (1 + Pow2(tableLog) + 1 + (BuildWkspSize(tableLog, maxSymbolValue) + 3) / 4 + (MAX_SYMBOL_VALUE + 1) / 2 + 1)
  }

  /** sizeof(FSE_DecompressWksp). */
  const COUNTS_SIZE: nat := 2 * (MAX_SYMBOL_VALUE + 1)

  /** What the workspace test guarantees is enough for the builder. */
  lemma WorkspaceSuffices(tableLog: nat, maxSymbolValue: nat, wkspSize: nat)
    requires DecompressWkspSize(tableLog, maxSymbolValue) <= wkspSize
    ensures COUNTS_SIZE + DTableSize(tableLog) <= wkspSize
    ensures BuildWkspSize(tableLog, maxSymbolValue) <= wkspSize - COUNTS_SIZE - DTableSize(tableLog)
  {
  }

  /** The code a header describes: its counts, table log and the one table they determine. */
  ghost predicate CodeOfHeader(c: Code, header: NCountResult, ncount: seq<int>)
  {
    && header.Parsed? && header.maxSymbolValue < |ncount|
    && ByteCode(c) && c.tableLog == header.tableLog && c.counts == ncount[..header.maxSymbolValue + 1]
  }

  /** Every outcome under its condition. `header` and `ncount` are what the header parser made of
      the block, `c` the code they describe. */
  ghost predicate BlockDecodes(r: BlockResult, cSrc: seq<U8>, dstCapacity: nat, maxLog: nat, wkspSize: nat,
                               header: NCountResult, ncount: seq<int>, c: Code)
  {
    && (r.WorkspaceTooSmall? <==> wkspSize < COUNTS_SIZE)
    && (!r.WorkspaceTooSmall? ==>
          && Agrees(ParseHeader(cSrc, MAX_SYMBOL_VALUE + 1), header, ncount)
          && if header.Failed? then r == HeaderFailed(header.error)
             else if header.tableLog > maxLog || DecompressWkspSize(header.tableLog, header.maxSymbolValue) > wkspSize
             then r == TableLogAboveLimit
             else if header.tableLog > MAX_TABLELOG then r == BuildFailed(BuildError.TableLogTooLarge)
             else
               && r.Stream? && CodeOfHeader(c, header, ncount) && header.size <= |cSrc|
               && r.outcome == SimpleDecode(c, cSrc[header.size..], dstCapacity))
  }

  lemma Limits()
    ensures COUNTS_SIZE == 512 && MAX_TABLELOG == 12
  {
  }

  lemma BlockRefusedEarly(r: BlockResult, cSrc: seq<U8>, dstCapacity: nat, maxLog: nat, wkspSize: nat,
                          header: NCountResult, ncount: seq<int>, c: Code)
    requires wkspSize >= COUNTS_SIZE && Agrees(ParseHeader(cSrc, MAX_SYMBOL_VALUE + 1), header, ncount)
    requires if header.Failed? then r == HeaderFailed(header.error)
             else if header.tableLog > maxLog || DecompressWkspSize(header.tableLog, header.maxSymbolValue) > wkspSize
             then r == TableLogAboveLimit
             else header.tableLog > MAX_TABLELOG && r == BuildFailed(BuildError.TableLogTooLarge)
    ensures BlockDecodes(r, cSrc, dstCapacity, maxLog, wkspSize, header, ncount, c)
  {
    hide Agrees, ParseHeader, DecompressWkspSize;
  }

  lemma BlockAccepted(r: BlockResult, cSrc: seq<U8>, dstCapacity: nat, maxLog: nat, wkspSize: nat,
                      header: NCountResult, ncount: seq<int>, c: Code)
    requires wkspSize >= COUNTS_SIZE && Agrees(ParseHeader(cSrc, MAX_SYMBOL_VALUE + 1), header, ncount)
    requires header.Parsed? && header.tableLog <= maxLog && header.tableLog <= MAX_TABLELOG
    requires DecompressWkspSize(header.tableLog, header.maxSymbolValue) <= wkspSize
    requires r.Stream? && CodeOfHeader(c, header, ncount) && header.size <= |cSrc|
    requires r.outcome == SimpleDecode(c, cSrc[header.size..], dstCapacity)
    ensures BlockDecodes(r, cSrc, dstCapacity, maxLog, wkspSize, header, ncount, c)
  {
    hide Agrees, ParseHeader, DecompressWkspSize, CodeOfHeader, SimpleDecode;
  }

  lemma BlockWithoutRoom(cSrc: seq<U8>, dstCapacity: nat, maxLog: nat, wkspSize: nat,
                         header: NCountResult, ncount: seq<int>, c: Code)
    requires wkspSize < COUNTS_SIZE
    ensures BlockDecodes(WorkspaceTooSmall, cSrc, dstCapacity, maxLog, wkspSize, header, ncount, c)
  {
  }

  /** Decodes a block. A table that the header describes with a table log of at most 12 always
      builds. */
  method DecompressBlock(dst: array<U8>, dstCapacity: nat, cSrc: seq<U8>, maxLog: nat, wkspSize: nat)
    returns (r: BlockResult, ghost header: NCountResult, ghost ncount: seq<int>, ghost c: Code)
    requires dstCapacity <= dst.Length
    modifies dst
    ensures BlockDecodes(r, cSrc, dstCapacity, maxLog, wkspSize, header, ncount, c)
    ensures r.Stream? <==>
              && wkspSize >= 512 && header.Parsed? && header.tableLog <= maxLog && header.tableLog <= 12
              && DecompressWkspSize(header.tableLog, header.maxSymbolValue) <= wkspSize
    ensures r.Stream? && r.outcome.Decoded? ==> |r.outcome.out| <= dstCapacity && dst[..|r.outcome.out|] == r.outcome.out
    ensures dst[dstCapacity..] == old(dst[dstCapacity..])
    ensures !r.Stream? ==> dst[..] == old(dst[..])
  {
    hide *;
    Limits();
    header, ncount, c := NCountResult.Failed(NCountError.CorruptionDetected), [], Code([], 0, []);
    if wkspSize < COUNTS_SIZE {
      BlockWithoutRoom(cSrc, dstCapacity, maxLog, wkspSize, header, ncount, c);
      return WorkspaceTooSmall, header, ncount, c;
    }
    var counts := new int[MAX_SYMBOL_VALUE + 1];
    var parsed := ReadNCount(counts, MAX_SYMBOL_VALUE, cSrc);
    header, ncount := parsed, counts[..];
    if parsed.Failed? {
      BlockRefusedEarly(HeaderFailed(parsed.error), cSrc, dstCapacity, maxLog, wkspSize, header, ncount, c);
      return HeaderFailed(parsed.error), header, ncount, c;
    }
    var tableLog, maxSymbolValue := parsed.tableLog, parsed.maxSymbolValue;
    if tableLog > maxLog {
      BlockRefusedEarly(TableLogAboveLimit, cSrc, dstCapacity, maxLog, wkspSize, header, ncount, c);
      return TableLogAboveLimit, header, ncount, c;
    }
    if DecompressWkspSize(tableLog, maxSymbolValue) > wkspSize {
      BlockRefusedEarly(TableLogAboveLimit, cSrc, dstCapacity, maxLog, wkspSize, header, ncount, c);
      return TableLogAboveLimit, header, ncount, c;
    }
    WorkspaceSuffices(tableLog, maxSymbolValue, wkspSize);
    HeaderIsSane(parsed, ncount, wkspSize - COUNTS_SIZE - DTableSize(tableLog));
    var table := new Entry[Pow2(tableLog)];
    var used := counts[..maxSymbolValue + 1];
    var built := BuildDTable(table, used, tableLog, wkspSize - COUNTS_SIZE - DTableSize(tableLog));
    if built.Rejected? {
      BlockRefusedEarly(BuildFailed(built.error), cSrc, dstCapacity, maxLog, wkspSize, header, ncount, c);
      return BuildFailed(built.error), header, ncount, c;
    }
    c := Code(used, tableLog, table[..]);
    BuiltCode(c, built.fastMode);
    var outcome := DecompressUsingDTable(dst, dstCapacity, cSrc[parsed.size..], DTable(tableLog, built.fastMode, table[..]),
                                         built.fastMode, c);
    HeaderCode(c, header, ncount);
    BlockAccepted(Stream(outcome), cSrc, dstCapacity, maxLog, wkspSize, header, ncount, c);
    return Stream(outcome), header, ncount, c;
  }

  /** Parsed counts pass the builder's sanity checks as soon as the table log does, and are
      then normalized. */
  lemma HeaderIsSane(header: NCountResult, ncount: seq<int>, wkspSize: nat)
    requires header.Parsed? && |ncount| == MAX_SYMBOL_VALUE + 1 && Conserved(header, ncount)
    requires BuildWkspSize(header.tableLog, header.maxSymbolValue) <= wkspSize
    ensures header.maxSymbolValue <= MAX_SYMBOL_VALUE && 4 <= header.tableLog
    ensures var e := SanityError(header.maxSymbolValue, header.tableLog, wkspSize);
            && e == (if header.tableLog <= MAX_TABLELOG then [] else [BuildError.TableLogTooLarge])
            && (e == [] ==> Normalized(ncount[..header.maxSymbolValue + 1], header.tableLog))
  {
    ConservedNormalized(header, ncount);
    hide Pow2, Conserved, Normalized, BuildWkspSize;
    ConservedRange(header, ncount);
  }

  lemma ConservedRange(header: NCountResult, ncount: seq<int>)
    requires header.Parsed? && Conserved(header, ncount)
    ensures MIN_TABLELOG <= header.tableLog && header.maxSymbolValue < |ncount|
  {
  }

  lemma BuiltCode(c: Code, fastMode: bool)
    requires DecodingTable(c.counts, c.tableLog, c.cells) && Normalized(c.counts, c.tableLog)
    requires 4 <= c.tableLog <= MAX_TABLELOG && |c.counts| <= MAX_SYMBOL_VALUE + 1
    requires fastMode <==> forall s :: 0 <= s < |c.counts| ==> c.counts[s] < Pow2(c.tableLog - 1)
    ensures ByteCode(c) && (fastMode ==> AlwaysReads(c))
    ensures IsTableOf(DTable(c.tableLog, fastMode, c.cells), c)
  {
    hide DecodingTable, Normalized, Pow2, AlwaysReads;
    FastModeSound(c);
  }

  lemma HeaderCode(c: Code, header: NCountResult, ncount: seq<int>)
    requires header.Parsed? && header.maxSymbolValue < |ncount| && ByteCode(c)
    requires c.tableLog == header.tableLog && c.counts == ncount[..header.maxSymbolValue + 1]
    ensures CodeOfHeader(c, header, ncount)
  {
  }
}

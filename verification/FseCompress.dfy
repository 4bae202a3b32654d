/** FSE_compress_usingCTable: two encoder states on one stream. And the whole way there and back,
    from normalized counts: both tables built, compressed, and decoded by the unrolled decoder. */
module FseCompress {
  import opened Bits
  import opened BitStream
  import opened FseCounts
  import opened FseTable
  import opened Tans
  import opened FseCoder
  import opened FseBuildCTable
  import opened FseDecompress
  import opened FseTwoState

  /** The message from symbol `ip` on has been sent; `first` will be read first. */
  ghost predicate Sending(bitC: CStream, first: CState, second: CState, c: Code, message: seq<nat>, ip: nat, u1: nat, u2: nat)
    reads bitC, bitC.buf, first, second
  {
    && ValidCode(c) && Sendable(c, message) && ip + 2 <= |message| && u1 < Size(c) && u2 < Size(c)
    && bitC.Valid() && first.Valid(c) && second.Valid(c) && first != second && Sendable(c, message[ip..])
    && var p := EncodePair(c, message[ip..], u1, u2);
    first.value == Size(c) + p.first && second.value == Size(c) + p.second && bitC.fields == p.fields
  }

  lemma SendableFrom(c: Code, message: seq<nat>, ip: nat)
    requires Sendable(c, message) && ip <= |message|
    ensures Sendable(c, message[ip..])
  {
    assert forall k :: 0 <= k < |message| - ip ==> message[ip..][k] == message[k + ip];
  }

  /** FSE_encodeSymbol on the symbol before `ip`: the state that was to be read second takes it,
      and is now read first. */
  method Send(bitC: CStream, first: CState, second: CState, message: seq<nat>, ip: nat,
              ghost c: Code, ghost u1: nat, ghost u2: nat)
    requires 0 < ip && Sending(bitC, first, second, c, message, ip, u1, u2) && bitC.bitPos + c.tableLog < 64
    modifies bitC`bitContainer, bitC`bitPos, bitC`fields, second`value
    ensures Sending(bitC, second, first, c, message, ip - 1, u1, u2)
    ensures bitC.bitPos <= old(bitC.bitPos) + c.tableLog
  {
    hide Inverse, ValidTable, Total, Payload, EncodeStep, StepField, Pow2, Encodable, EncodePair;
    ghost var rest := message[ip - 1..];
    assert rest[1..] == message[ip..] && rest[0] == message[ip - 1];
    SendableFrom(c, message, ip - 1);
    EncodePairIs(c, rest, u1, u2);
    second.EncodeSymbol(bitC, message[ip - 1], c);
  }

  /** BIT_flushBits between two symbols. */
  method Flush(bitC: CStream, first: CState, second: CState, ghost message: seq<nat>, ghost ip: nat,
               ghost c: Code, ghost u1: nat, ghost u2: nat)
    requires Sending(bitC, first, second, c, message, ip, u1, u2)
    modifies bitC`bitContainer, bitC`bitPos, bitC`ptr, bitC.buf
    ensures Sending(bitC, first, second, c, message, ip, u1, u2) && bitC.bitPos < 8
  {
    hide Inverse, ValidTable, Total, Payload, Pow2, Encodable, EncodePair;
    bitC.FlushBits();
  }

  lemma SendingStarts(bitC: CStream, first: CState, second: CState, c: Code, message: seq<nat>, u1: nat, u2: nat)
    requires ValidCode(c) && Sendable(c, message) && |message| >= 2 && u1 < Size(c) && u2 < Size(c)
    requires bitC.Valid() && first.Valid(c) && second.Valid(c) && first != second && bitC.fields == []
    requires first.value == Size(c) + u1 && second.value == Size(c) + u2
    ensures Sending(bitC, first, second, c, message, |message| - 2, u1, u2)
  {
    hide ValidTable, Pow2, Encodable;
    SendableFrom(c, message, |message| - 2);
  }

  method FlushBoth(bitC: CStream, first: CState, second: CState,
                   ghost c: Code, ghost message: seq<nat>, ghost u1: nat, ghost u2: nat) returns (size: nat)
    requires Sending(bitC, first, second, c, message, 0, u1, u2) && bitC.bitPos < 8
    modifies bitC`bitContainer, bitC`bitPos, bitC`fields, bitC`ptr, bitC.buf
    ensures size > 0 ==> size <= bitC.buf.Length && Holds(bitC.buf[..size], PairStream(c, message, u1, u2))
    ensures size == 0 <==> (Total(PairStream(c, message, u1, u2)) + 1) / 8 >= bitC.buf.Length - 8
  {
    hide Inverse, ValidCode, Total, Payload, Pow2, Encodable, EncodePair, PairStream, Holds, Size, Sendable;
    TableLogSmall(c);
    assert message[0..] == message;
    PairStreamIs(c, message, u1, u2);
    second.FlushCState(bitC, c);
    first.FlushCState(bitC, c);
    size := bitC.CloseCStream();
  }

  /** FSE_compress_usingCTable_generic. The two states open on the last two symbols; the others
      are sent backward, one state and the other in turn: one of them first if their number is
      odd, then two if that leaves two modulo 4, then four for each flush, which the 64-bit
      register has room for. Sources of at most two symbols and destinations of at most eight
      bytes are refused. */
  method CompressUsingCTable(dst: array<U8>, src: seq<nat>, ct: CTable, ghost c: Code)
    returns (size: nat, ghost u1: nat, ghost u2: nat)
    requires Complements(ct, c) && Sendable(c, src)
    modifies dst
    ensures |src| <= 2 || dst.Length <= 8 ==> size == 0 && dst[..] == old(dst[..])
    ensures |src| > 2 && dst.Length > 8 ==> u1 < Size(c) && FirstCellOf(c, src[|src| - 2], u1)
    ensures |src| > 2 && dst.Length > 8 ==> u2 < Size(c) && FirstCellOf(c, src[|src| - 1], u2)
    ensures |src| > 2 && dst.Length > 8 ==>
              && (size == 0 <==> (Total(PairStream(c, src, u1, u2)) + 1) / 8 >= dst.Length - 8)
              && (size > 0 ==> size <= dst.Length && Holds(dst[..size], PairStream(c, src, u1, u2)))
  {
    hide Inverse, ValidTable, Total, Payload, Pow2, OpensAt, FirstCellOf, EncodePair, Sending, Holds, PairStream, Encodable, SecondBit;
    u1, u2 := 0, 0;
    if |src| <= 2 {
      return 0, u1, u2;
    }
    var bitC := new CStream(dst);
    var ok := bitC.InitCStream();
    if !ok {
      return 0, u1, u2;
    }
    var CState1 := new CState(ct);
    var CState2 := new CState(ct);
    u1, u2 := OpenBoth(bitC, CState1, CState2, src, c);
    LeftModuloFour(|src|);
    SendRest(bitC, CState1, CState2, src, |src| - 2 - |src| % 2, c, u1, u2);
    size := FlushBoth(bitC, CState1, CState2, c, src, u1, u2);
  }

  /** The opening, after which an even number of symbols is left and CState1 is read first. */
  method OpenBoth(bitC: CStream, CState1: CState, CState2: CState, src: seq<nat>, ghost c: Code)
    returns (ghost u1: nat, ghost u2: nat)
    requires ValidCode(c) && Inverse(CState1.table, c) && Sendable(c, src) && |src| > 2
    requires CState1 != CState2 && CState2.table == CState1.table
    requires forall s :: 0 <= s < |c.counts| && c.counts[s] != 0 ==> OpensAt(CState1.table, c, s)
    requires bitC.Valid() && bitC.fields == [] && bitC.bitPos == 0
    modifies bitC`bitContainer, bitC`bitPos, bitC`fields, bitC`ptr, bitC.buf, CState1`value, CState2`value
    ensures u1 < Size(c) && FirstCellOf(c, src[|src| - 2], u1)
    ensures u2 < Size(c) && FirstCellOf(c, src[|src| - 1], u2)
    ensures Sending(bitC, CState1, CState2, c, src, |src| - 2 - |src| % 2, u1, u2) && bitC.bitPos < 8
  {
    hide Inverse, ValidCode, Total, Payload, Pow2, OpensAt, FirstCellOf, EncodePair, Sending, Sendable, Size;
    TableLogSmall(c);
    SendableAt(c, src, |src| - 1);
    SendableAt(c, src, |src| - 2);
    var ip := |src| - 2;
    if |src| % 2 == 1 {
      CState1.InitCState2(src[ip + 1], c);
      CState2.InitCState2(src[ip], c);
      u1, u2 := CState2.value - Size(c), CState1.value - Size(c);
      SendingStarts(bitC, CState2, CState1, c, src, u1, u2);
      Send(bitC, CState2, CState1, src, ip, c, u1, u2);
      Flush(bitC, CState1, CState2, src, ip - 1, c, u1, u2);
    } else {
      CState2.InitCState2(src[ip + 1], c);
      CState1.InitCState2(src[ip], c);
      u1, u2 := CState1.value - Size(c), CState2.value - Size(c);
      SendingStarts(bitC, CState1, CState2, c, src, u1, u2);
    }
  }

  lemma SendableAt(c: Code, message: seq<nat>, i: nat)
    requires Sendable(c, message) && i < |message|
    ensures message[i] < |c.counts| && c.counts[message[i]] != 0
  {
  }

  method SendTwo(bitC: CStream, CState1: CState, CState2: CState, src: seq<nat>, ip: nat,
                 ghost c: Code, ghost u1: nat, ghost u2: nat)
    requires 2 <= ip && Sending(bitC, CState1, CState2, c, src, ip, u1, u2) && bitC.bitPos + 2 * c.tableLog < 64
    modifies bitC`bitContainer, bitC`bitPos, bitC`fields, CState1`value, CState2`value
    ensures Sending(bitC, CState1, CState2, c, src, ip - 2, u1, u2)
    ensures bitC.bitPos <= old(bitC.bitPos) + 2 * c.tableLog
  {
    hide *;
    Send(bitC, CState1, CState2, src, ip, c, u1, u2);
    Send(bitC, CState2, CState1, src, ip - 1, c, u1, u2);
  }

  /** The symbols before `start`, joined to a multiple of four, then four at a time. */
  method SendRest(bitC: CStream, CState1: CState, CState2: CState, src: seq<nat>, start: nat,
                  ghost c: Code, ghost u1: nat, ghost u2: nat)
    requires |src| > 2 && start % 4 == if SecondBit(|src| - 2) then 2 else 0
    requires Sending(bitC, CState1, CState2, c, src, start, u1, u2) && bitC.bitPos < 8
    modifies bitC`bitContainer, bitC`bitPos, bitC`fields, bitC`ptr, bitC.buf, CState1`value, CState2`value
    ensures Sending(bitC, CState1, CState2, c, src, 0, u1, u2) && bitC.bitPos < 8
  {
    hide *;
    SendingLog(bitC, CState1, CState2, c, src, start, u1, u2);
    var ip := start;
    if SecondBit(|src| - 2) {
      SendTwo(bitC, CState1, CState2, src, ip, c, u1, u2);
      ip := ip - 2;
      Flush(bitC, CState1, CState2, src, ip, c, u1, u2);
    }
    SendFours(bitC, CState1, CState2, src, ip, c, u1, u2);
  }

  /** x & 2. */
  predicate SecondBit(x: nat)
  {
    x / 2 % 2 == 1
  }

  /** What is left after the opening, modulo four. */
  lemma LeftModuloFour(n: nat)
    requires n > 2
    ensures (n - 2 - n % 2) % 4 == if SecondBit(n - 2) then 2 else 0
  {
    var q, r := (n - 2) / 4, (n - 2) % 4;
    assert (n - 2) / 2 == 2 * q + r / 2;
    assert n % 2 == r % 2;
  }

  method SendFours(bitC: CStream, CState1: CState, CState2: CState, src: seq<nat>, start: nat,
                   ghost c: Code, ghost u1: nat, ghost u2: nat)
    requires start % 4 == 0 && Sending(bitC, CState1, CState2, c, src, start, u1, u2) && bitC.bitPos < 8
    modifies bitC`bitContainer, bitC`bitPos, bitC`fields, bitC`ptr, bitC.buf, CState1`value, CState2`value
    ensures Sending(bitC, CState1, CState2, c, src, 0, u1, u2) && bitC.bitPos < 8
  {
    hide *;
    SendingLog(bitC, CState1, CState2, c, src, start, u1, u2);
    var ip := start;
    while ip > 0
      invariant ip % 4 == 0 && Sending(bitC, CState1, CState2, c, src, ip, u1, u2) && bitC.bitPos < 8
    {
      SendTwo(bitC, CState1, CState2, src, ip, c, u1, u2);
      SendTwo(bitC, CState1, CState2, src, ip - 2, c, u1, u2);
      ip := ip - 4;
      Flush(bitC, CState1, CState2, src, ip, c, u1, u2);
    }
  }

  lemma SendingLog(bitC: CStream, first: CState, second: CState, c: Code, message: seq<nat>, ip: nat, u1: nat, u2: nat)
    requires Sending(bitC, first, second, c, message, ip, u1, u2)
    ensures ip + 2 <= |message| && c.tableLog <= 12
  {
    TableLogSmall(c);
  }

  lemma StepWidth(c: Code, s: nat, x: nat)
    requires ValidCode(c) && s < |c.counts| && c.counts[s] != 0 && Size(c) <= x < 2 * Size(c)
    ensures StepField(c, s, x).width <= c.tableLog
  {
    hide ValidTable, OutBits, Prev, Pow2;
    PrevLeads(c.counts, c.tableLog, c.cells, s, x - Size(c));
    CellReads(c, Prev(c.counts, c.tableLog, c.cells, s, x - Size(c)));
    StepFieldIs(c, s, x);
  }

  /** A symbol costs at most the table log in bits. */
  lemma {:induction false} PairBits(c: Code, message: seq<nat>, u1: nat, u2: nat)
    requires ValidCode(c) && Sendable(c, message) && |message| >= 2 && u1 < Size(c) && u2 < Size(c)
    ensures Total(EncodePair(c, message, u1, u2).fields) <= (|message| - 2) * c.tableLog
  {
    hide ValidTable, Pow2, Encodable, EncodePair, StepField, EncodeStep, Total, Payload;
    EncodePairIs(c, message, u1, u2);
    if |message| > 2 {
      PairBits(c, message[1..], u1, u2);
      var later := EncodePair(c, message[1..], u1, u2);
      StepWidth(c, message[0], Size(c) + later.second);
      PayloadSnoc(later.fields, StepField(c, message[0], Size(c) + later.second));
      assert (|message| - 2) * c.tableLog == (|message| - 3) * c.tableLog + c.tableLog;
    } else {
      NoFields();
    }
  }

  lemma StreamBits(c: Code, message: seq<nat>, u1: nat, u2: nat)
    requires ValidCode(c) && Sendable(c, message) && |message| >= 2 && u1 < Size(c) && u2 < Size(c)
    ensures Total(PairStream(c, message, u1, u2)) <= |message| * c.tableLog
  {
    hide ValidTable, Pow2, Encodable, EncodePair, PairStream, Total, Payload;
    PairStreamIs(c, message, u1, u2);
    PairBits(c, message, u1, u2);
    var p := EncodePair(c, message, u1, u2);
    PayloadSnoc(p.fields, Field(Size(c) + p.second, c.tableLog));
    PayloadSnoc(p.fields + [Field(Size(c) + p.second, c.tableLog)], Field(Size(c) + p.first, c.tableLog));
    assert |message| * c.tableLog == (|message| - 2) * c.tableLog + 2 * c.tableLog;
  }

  lemma Enough(total: nat, most: nat, length: nat)
    requires total <= most
    ensures length > 9 + most / 8 ==> (total + 1) / 8 < length - 8
  {
  }

  /** There and back from the counts alone: the two builders run apart, on the same counts, and
      every source of more than two symbols that fits `buffer` is decoded to itself. A buffer with
      room for tableLog bits a symbol always does. Only a source of a symbol that takes the whole
      table is lost: nothing tells the decoder where to stop. */
  method RoundTrip(buffer: array<U8>, dst: array<U8>, capacity: nat, src: seq<nat>, counts: seq<int>, tableLog: nat)
    returns (size: nat, r: Outcome)
    requires 4 <= tableLog <= MAX_TABLELOG && Normalized(counts, tableLog) && 0 < |counts| <= MAX_SYMBOL_VALUE + 1
    requires |src| > 2 && forall i :: 0 <= i < |src| ==> src[i] < |counts| && counts[src[i]] != 0
    requires capacity <= dst.Length && buffer != dst
    modifies buffer, dst
    ensures buffer.Length > 9 + |src| * tableLog / 8 ==> size > 0
    ensures size > 0 ==>
              r == if |src| <= capacity && Weight(counts[src[|src| - 2]]) < Pow2(tableLog) then Decoded(src)
                   else DstSizeTooSmall
    ensures size > 0 && r == Decoded(src) ==> |src| <= capacity && dst[..|src|] == src
    ensures dst[capacity..] == old(dst[capacity..])
  {
    var dt, ct, c := BuildBoth(counts, tableLog);
    hide Inverse, ValidTable, OpensAt, FirstCellOf, Total, Holds, PairStream, SimpleDecode, AlwaysReads, IsTableOf;
    ghost var u1, u2;
    size, u1, u2 := CompressUsingCTable(buffer, src, ct, c);
    if buffer.Length > 8 {
      StreamBits(c, src, u1, u2);
      Enough(Total(PairStream(c, src, u1, u2)), |src| * tableLog, buffer.Length);
    }
    if size == 0 {
      return size, DstSizeTooSmall;
    }
    r := DecompressUsingDTable(dst, capacity, buffer[..size], dt, dt.fastMode, c);
    WhatIsDecoded(c, src, u1, u2, buffer[..size], capacity);
  }

  /** Both tables from the counts, each by its own builder. */
  method BuildBoth(counts: seq<int>, tableLog: nat) returns (dt: DTable, ct: CTable, ghost c: Code)
    requires 4 <= tableLog <= MAX_TABLELOG && Normalized(counts, tableLog) && 0 < |counts| <= MAX_SYMBOL_VALUE + 1
    ensures ByteCode(c) && c.counts == counts && c.tableLog == tableLog
    ensures IsTableOf(dt, c) && (dt.fastMode ==> AlwaysReads(c)) && Complements(ct, c)
  {
    hide Pow2, Normalized, DecodingTable, Complements, AlwaysReads;
    var cells := new Entry[Pow2(tableLog)](_ => Entry(0, 0, 0));
    var built := BuildDTable(cells, counts, tableLog, BuildWkspSize(tableLog, |counts| - 1));
    dt := DTable(tableLog, built.fastMode, cells[..]);
    ct, c := BuildOne(counts, tableLog);
    TableUnique(counts, tableLog, c.cells, cells[..]);
    FastModeSound(c);
  }

  method BuildOne(counts: seq<int>, tableLog: nat) returns (ct: CTable, ghost c: Code)
    requires 4 <= tableLog <= MAX_TABLELOG && Normalized(counts, tableLog) && 0 < |counts| <= MAX_SYMBOL_VALUE + 1
    ensures ByteCode(c) && c.counts == counts && c.tableLog == tableLog && Complements(ct, c)
  {
    hide Pow2, Normalized, DecodingTable, Complements;
    var stateTable := new U16[Pow2(tableLog)];
    var symbolTT := new SymbolTransform[|counts|](_ => SymbolTransform(0, 0));
    var ok;
    ok, c := BuildCTable(stateTable, symbolTT, counts, tableLog, WorkspaceSize(|counts| - 1, tableLog));
    ct := CTable(tableLog, stateTable[..], symbolTT[..]);
  }

  lemma WhatIsDecoded(c: Code, message: seq<nat>, u1: nat, u2: nat, src: seq<U8>, capacity: nat)
    requires ValidCode(c) && Sendable(c, message) && |message| >= 2 && u1 < Size(c) && u2 < Size(c)
    requires FirstCellOf(c, message[|message| - 2], u1) && FirstCellOf(c, message[|message| - 1], u2)
    requires Holds(src, PairStream(c, message, u1, u2))
    ensures message[|message| - 2] < |c.counts|
    ensures SimpleDecode(c, src, capacity)
            == if |message| <= capacity && Weight(c.counts[message[|message| - 2]]) < Size(c) then Decoded(message)
               else DstSizeTooSmall
  {
    SendableAt(c, message, |message| - 2);
    hide *;
    if Weight(c.counts[message[|message| - 2]]) < Size(c) {
      FirstCellsStart(c, message, u1, u2);
      PairRoundTrip(c, message, u1, u2, src, capacity);
    } else {
      WholeTableLost(c, message, u1, u2, src, capacity);
    }
  }

  lemma FirstCellsStart(c: Code, message: seq<nat>, u1: nat, u2: nat)
    requires ValidCode(c) && |message| >= 2
    requires FirstCellOf(c, message[|message| - 2], u1) && FirstCellOf(c, message[|message| - 1], u2)
    requires message[|message| - 2] < |c.counts| && Weight(c.counts[message[|message| - 2]]) < Size(c)
    ensures StartingCells(c, message, u1, u2)
  {
    FirstCellReads(c, message[|message| - 2], u1);
    hide ValidTable, Pow2;
  }
}

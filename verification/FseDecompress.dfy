/** FSE_decompress_usingDTable: the unrolled two-state decoder against a decoder that
    produces one symbol at a time. */
module FseDecompress {
  import opened Bits
  import opened LittleEndian
  import opened BitStream
  import opened FseCounts
  import opened FseTable
  import opened Tans
  import opened FseCoder

  datatype Outcome = Decoded(out: seq<nat>) | DstSizeTooSmall | Corrupted | NotOpened(error: OpenError)

  /** Symbols are bytes. */
  ghost predicate ByteCode(c: Code)
  {
    ValidCode(c) && |c.counts| <= MAX_SYMBOL_VALUE + 1
  }

  /** One symbol at a time, the two states taking turns, on the payload number v with
      `position` bits left. It asks for room for two symbols before each one, and ends with
      the other state's symbol once a state would need more bits than are left. */
  ghost function SimpleRun(c: Code, v: nat, position: nat, s1: nat, s2: nat, out: seq<nat>, capacity: nat): Outcome
    requires ValidCode(c) && s1 < Size(c) && s2 < Size(c)
    decreases capacity - |out|
  {
    CellCount(c);
    if |out| > capacity - 2 then DstSizeTooSmall
    else
      var cell := c.cells[s1];
      var out' := out + [cell.symbol];
      if position < cell.nbBits then Decoded(out' + [c.cells[s2].symbol])
      else SimpleRun(c, v, position - cell.nbBits, s2, NextState(c, v, position, s1), out', capacity)
  }

  /** One unfolding of the simple decoder. */
  lemma RunStep(c: Code, v: nat, position: nat, s1: nat, s2: nat, out: seq<nat>, capacity: nat)
    requires ValidCode(c) && s1 < Size(c) && s2 < Size(c) && |out| <= capacity - 2
    ensures |c.cells| == Size(c)
    ensures var nb, out' := c.cells[s1].nbBits, out + [c.cells[s1].symbol];
            if position < nb
            then SimpleRun(c, v, position, s1, s2, out, capacity) == Decoded(out' + [c.cells[s2].symbol])
            else
              && c.cells[s1].newState + Slice(v, position - nb, nb) < Size(c)
              && SimpleRun(c, v, position, s1, s2, out, capacity)
                 == SimpleRun(c, v, position - nb, s2, c.cells[s1].newState + Slice(v, position - nb, nb), out', capacity)
  {
    CellCount(c);
    hide ValidTable, Pow2, Slice;
    if c.cells[s1].nbBits <= position {
      assert NextState(c, v, position, s1) < Size(c);
    }
  }

  lemma RunFull(c: Code, v: nat, position: nat, s1: nat, s2: nat, out: seq<nat>, capacity: nat)
    requires ValidCode(c) && s1 < Size(c) && s2 < Size(c) && |out| > capacity - 2
    ensures SimpleRun(c, v, position, s1, s2, out, capacity) == DstSizeTooSmall
  {
  }

  ghost function NextState(c: Code, v: nat, position: nat, s: nat): (s': nat)
    requires ValidCode(c) && s < Size(c) && s < |c.cells| && c.cells[s].nbBits <= position
    ensures s' < Size(c)
  {
    var nb := c.cells[s].nbBits;
    var bits := Slice(v, position - nb, nb);
    SliceBound(v, position - nb, nb);
    StaysInTable(c.counts, c.tableLog, c.cells, s, bits);
    c.cells[s].newState + bits
  }

  lemma SliceBound(v: nat, pos: nat, width: nat)
    ensures Slice(v, pos, width) < Pow2(width)
  {
    Split(Shr(v, pos), width);
  }

  lemma CellCount(c: Code)
    requires ValidCode(c)
    ensures |c.cells| == Size(c)
  {
    SpreadSize(c.counts, c.tableLog, Symbols(c.cells));
  }

  /** The whole decoder: open, read two states, run. */
  ghost function SimpleDecode(c: Code, src: seq<U8>, capacity: nat): Outcome
    requires ValidCode(c)
  {
    if src == [] then NotOpened(SrcSizeWrong)
    else if src[|src| - 1] == 0 then NotOpened(if |src| >= 8 then EndMarkMissing else CorruptionDetected)
    else
      TopByte(src);
      StartRun(c, LE(src), capacity)
  }

  ghost function StartRun(c: Code, v: nat, capacity: nat): Outcome
    requires ValidCode(c) && v > 0
  {
    var top := HighBit(v);
    if top < 2 * c.tableLog then Corrupted
    else
      SliceBound(v, top - c.tableLog, c.tableLog);
      SliceBound(v, top - 2 * c.tableLog, c.tableLog);
      SimpleRun(c, v, top - 2 * c.tableLog, Slice(v, top - c.tableLog, c.tableLog),
                Slice(v, top - 2 * c.tableLog, c.tableLog), [], capacity)
  }

  lemma StartRunIs(c: Code, v: nat, capacity: nat)
    requires ValidCode(c) && v > 0
    ensures var top := HighBit(v);
            if top < 2 * c.tableLog then StartRun(c, v, capacity) == Corrupted
            else
              var p1, p2 := top - c.tableLog, top - 2 * c.tableLog;
              var s1, s2 := Slice(v, p1, c.tableLog), Slice(v, p2, c.tableLog);
              && s1 < Size(c) && s2 < Size(c)
              && StartRun(c, v, capacity) == SimpleRun(c, v, p2, s1, s2, [], capacity)
  {
    hide SimpleRun, HighBit, Slice, Pow2, ValidTable;
    var top := HighBit(v);
    if top >= 2 * c.tableLog {
      SliceBound(v, top - c.tableLog, c.tableLog);
      SliceBound(v, top - 2 * c.tableLog, c.tableLog);
    }
  }

  // ------------------------------------------------------------------ fast mode

  /** Every cell reads at least one bit. */
  ghost predicate AlwaysReads(c: Code)
  {
    forall u :: 0 <= u < |c.cells| ==> c.cells[u].nbBits >= 1
  }

  /** The header's fast mode is sound: it implies that every cell reads a bit. Every cell reads
      a bit exactly when no symbol takes more than half of the table. */
  lemma FastModeSound(c: Code)
    requires ValidCode(c)
    ensures AlwaysReads(c) <==> forall s :: 0 <= s < |c.counts| ==> Weight(c.counts[s]) <= Pow2(c.tableLog - 1)
    ensures (forall s :: 0 <= s < |c.counts| ==> c.counts[s] < Pow2(c.tableLog - 1)) ==> AlwaysReads(c)
  {
    hide Pow2, ValidTable, HighBit;
    TableLogSmall(c);
    DoublePow(c.tableLog - 1);
    if forall s :: 0 <= s < |c.counts| ==> Weight(c.counts[s]) <= Pow2(c.tableLog - 1) {
      forall u | 0 <= u < |c.cells|
        ensures c.cells[u].nbBits >= 1
      {
        CellFacts(c.counts, c.tableLog, c.cells, u);
        HighBitBelow(Weight(c.counts[c.cells[u].symbol]) + Rank(Symbols(c.cells), u), c.tableLog);
      }
    }
    forall s | 0 <= s < |c.counts| && AlwaysReads(c)
      ensures Weight(c.counts[s]) <= Pow2(c.tableLog - 1)
    {
      HalfOfTable(c, s);
    }
  }

  lemma HalfOfTable(c: Code, s: nat)
    requires ValidCode(c) && s < |c.counts| && AlwaysReads(c)
    ensures Weight(c.counts[s]) <= Pow2(c.tableLog - 1)
  {
    hide Pow2, HighBit, Spread, Symbols;
    var w := Weight(c.counts[s]);
    if w > Pow2(c.tableLog - 1) {
      SpreadCount(c.counts, c.tableLog, Symbols(c.cells), s);
      var u := CellOf(Symbols(c.cells), s, w - 1);
      SymbolsAt(c.cells, u);
      SymbolsLength(c.cells);
      CellFacts(c.counts, c.tableLog, c.cells, u);
      DoublePow(c.tableLog - 1);
      HighBitSpec(2 * w - 1);
      Pow2Mono(HighBit(2 * w - 1) + 1, c.tableLog);
      assert false;
    }
  }

  // ------------------------------------------------------------------ the decoder

  /** FSE_GETSYMBOL: one of the two instances of the decoder. */
  method GetSymbol(st: DState, bitD: DStream, fast: bool, ghost c: Code) returns (symbol: nat)
    requires ByteCode(c) && st.Valid(c) && bitD.Valid() && (fast ==> AlwaysReads(c))
    modifies st`state, bitD`bitsConsumed
    ensures st.Valid(c) && bitD.Valid()
    ensures symbol == c.cells[old(st.state)].symbol && symbol < 256
    ensures bitD.bitsConsumed == old(bitD.bitsConsumed) + c.cells[old(st.state)].nbBits
    ensures !bitD.Overflowed() ==>
              st.state == c.cells[old(st.state)].newState
                          + Slice(LE(bitD.src), bitD.Position(), c.cells[old(st.state)].nbBits)
  {
    CellFacts(c.counts, c.tableLog, c.cells, st.state);
    hide LE, Slice, ValidTable;
    if fast {
      symbol := st.DecodeSymbolFast(bitD, c);
    } else {
      symbol := st.DecodeSymbol(bitD, c);
    }
  }

  /** The decoder's state: both FSE states valid, the reader inside its source and reloaded. */
  ghost predicate Live(bitD: DStream, state1: DState, state2: DState, c: Code, src: seq<U8>)
    reads bitD, state1, state2
  {
    && state1 != state2 && bitD.Valid() && bitD.src == src && !bitD.Overflowed() && bitD.Position() >= 0
    && state1.Valid(c) && state2.Valid(c)
  }

  /** Where the simple decoder stands when the fast one is in this state. */
  ghost function Rest(bitD: DStream, state1: DState, state2: DState, c: Code, src: seq<U8>, out: seq<nat>, capacity: nat): Outcome
    requires Live(bitD, state1, state2, c, src)
    reads bitD, state1, state2
  {
    CellCount(c);
    SimpleRun(c, LE(src), bitD.Position(), state1.state, state2.state, out, capacity)
  }

  /** One symbol from state1 when the register has enough bits: the simple decoder does the
      same and goes on with the states exchanged. */
  method Step(bitD: DStream, state1: DState, state2: DState, fast: bool, ghost c: Code, ghost src: seq<U8>,
              ghost out: seq<nat>, ghost capacity: nat)
    returns (symbol: nat)
    requires ByteCode(c) && Live(bitD, state1, state2, c, src) && (fast ==> AlwaysReads(c))
    requires bitD.bitsConsumed + 12 <= 64
    modifies state1`state, bitD`bitsConsumed
    ensures Live(bitD, state2, state1, c, src) && symbol < 256
    ensures old(bitD.bitsConsumed) <= bitD.bitsConsumed <= old(bitD.bitsConsumed) + 12
    ensures Rest(bitD, state2, state1, c, src, out + [symbol], capacity)
            == old(Rest(bitD, state1, state2, c, src, out, capacity))
  {
    hide LE, Slice, ValidCode, AlwaysReads, Pow2, SimpleRun, Size;
    CellBits(c, state1.state);
    CellCount(c);
    if |out| > capacity - 2 {
      RunFull(c, LE(src), bitD.Position(), state1.state, state2.state, out, capacity);
    } else {
      RunStep(c, LE(src), bitD.Position(), state1.state, state2.state, out, capacity);
    }
    symbol := GetSymbol(state1, bitD, fast, c);
    if |out| > capacity - 2 {
      RunFull(c, LE(src), bitD.Position(), state2.state, state1.state, out + [symbol], capacity);
    }
  }

  /** FSE_decompress_usingDTable_generic. Both instances, fast or not, return what the simple
      decoder returns, and write nothing past the capacity. */
  method DecompressUsingDTable(dst: array<U8>, maxDstSize: nat, src: seq<U8>, dt: DTable, fast: bool, ghost c: Code)
    returns (r: Outcome)
    requires ByteCode(c) && IsTableOf(dt, c) && (fast ==> AlwaysReads(c))
    requires maxDstSize <= dst.Length
    modifies dst
    ensures r == SimpleDecode(c, src, maxDstSize)
    ensures r.Decoded? ==> |r.out| <= maxDstSize && dst[..|r.out|] == r.out
    ensures dst[maxDstSize..] == old(dst[maxDstSize..])
  {
    hide SimpleRun, LE, ValidTable, SimpleDecode;
    var bitD := new DStream();
    var state1 := new DState();
    var state2 := new DState();
    var failure := OpenStates(src, dt, bitD, state1, state2, c, maxDstSize);
    if failure.Some? {
      return failure.value;
    }
    assert dst[..0] == [];
    var op := 0;
    var status := bitD.ReloadDStream();
    while status == Unfinished && op < maxDstSize - 3
      invariant 0 <= op <= maxDstSize
      invariant Live(bitD, state1, state2, c, src) && bitD.Ready()
      invariant status == Unfinished ==> bitD.bitsConsumed <= 7
      invariant Rest(bitD, state1, state2, c, src, dst[..op], maxDstSize) == SimpleDecode(c, src, maxDstSize)
      invariant dst[maxDstSize..] == old(dst[maxDstSize..])
      modifies bitD, state1, state2, dst
      decreases maxDstSize - op
    {
      FourSymbols(dst, op, maxDstSize, bitD, state1, state2, fast, c, src);
      op := op + 4;
      status := bitD.ReloadDStream();
    }
    r := Tail(dst, op, maxDstSize, bitD, state1, state2, fast, c, src);
  }

  datatype Option<T> = None | Some(value: T)

  /** Opens the stream and reads the two initial states, with the reloads of the code. */
  method OpenStates(src: seq<U8>, dt: DTable, bitD: DStream, state1: DState, state2: DState,
                    ghost c: Code, ghost capacity: nat)
    returns (failure: Option<Outcome>)
    requires ByteCode(c) && IsTableOf(dt, c) && state1 != state2
    modifies bitD, state1, state2
    ensures failure.Some? ==> failure.value == SimpleDecode(c, src, capacity) && !failure.value.Decoded?
    ensures failure.None? ==> Live(bitD, state1, state2, c, src) && bitD.Ready()
    ensures failure.None? ==> Rest(bitD, state1, state2, c, src, [], capacity) == SimpleDecode(c, src, capacity)
  {
    hide SimpleRun, LE, Slice, HighBit, ValidTable, Pow2, StartRun;
    var open := bitD.InitDStream(src);
    if open.Failed? {
      return Some(NotOpened(open.error));
    }
    TopByte(src);
    var over := ReadStates(bitD, state1, state2, dt, c, src, capacity);
    failure := if over then Some(Corrupted) else None;
  }

  method ReadStates(bitD: DStream, state1: DState, state2: DState, dt: DTable,
                    ghost c: Code, ghost src: seq<U8>, ghost capacity: nat)
    returns (over: bool)
    requires ByteCode(c) && IsTableOf(dt, c) && state1 != state2
    requires bitD.Valid() && bitD.src == src && bitD.Ready() && !bitD.Overflowed()
    requires LE(src) > 0 && bitD.Position() == HighBit(LE(src))
    modifies bitD, state1, state2
    ensures over ==> StartRun(c, LE(src), capacity) == Corrupted
    ensures !over ==> Live(bitD, state1, state2, c, src) && bitD.Ready()
    ensures !over ==> Rest(bitD, state1, state2, c, src, [], capacity) == StartRun(c, LE(src), capacity)
  {
    hide SimpleRun, LE, Slice, HighBit, ValidCode, IsTableOf, AlwaysReads, Pow2, StartRun, Size;
    CellCount(c);
    StartRunIs(c, LE(src), capacity);
    over := ReadBoth(bitD, state1, state2, dt, c);
  }

  /** FSE_initDState twice, and the reload that tells whether the stream was long enough. */
  method ReadBoth(bitD: DStream, state1: DState, state2: DState, dt: DTable, ghost c: Code) returns (over: bool)
    requires ByteCode(c) && IsTableOf(dt, c) && state1 != state2
    requires bitD.Valid() && bitD.Ready() && !bitD.Overflowed()
    modifies bitD, state1, state2
    ensures bitD.Valid() && bitD.src == old(bitD.src) && state1.Valid(c) && state2.Valid(c)
    ensures bitD.Position() == old(bitD.Position()) - 2 * c.tableLog
    ensures over == bitD.Overflowed() && (over <==> bitD.Position() < 0) && (!over ==> bitD.Ready())
    ensures !over ==> state2.state == Slice(LE(bitD.src), bitD.Position(), c.tableLog)
                      && state1.state == Slice(LE(bitD.src), bitD.Position() + c.tableLog, c.tableLog)
  {
    TableLogSmall(c);
    hide LE, Slice, HighBit, ValidTable, Pow2, Size;
    state1.InitDState(bitD, dt, c);
    state2.InitDState(bitD, dt, c);
    var status := bitD.ReloadDStream();
    over := status == Overflow;
  }

  /** The body of the unrolled loop: no reload between its four symbols. */
  method FourSymbols(dst: array<U8>, op: nat, maxDstSize: nat, bitD: DStream, state1: DState, state2: DState,
                     fast: bool, ghost c: Code, ghost src: seq<U8>)
    requires ByteCode(c) && Live(bitD, state1, state2, c, src) && (fast ==> AlwaysReads(c))
    requires bitD.bitsConsumed <= 7 && op + 4 <= maxDstSize <= dst.Length
    modifies bitD`bitsConsumed, state1`state, state2`state, dst
    ensures Live(bitD, state1, state2, c, src)
    ensures bitD.bitsConsumed <= 55
    ensures Rest(bitD, state1, state2, c, src, dst[..op + 4], maxDstSize)
            == old(Rest(bitD, state1, state2, c, src, dst[..op], maxDstSize))
    ensures dst[maxDstSize..] == old(dst[maxDstSize..])
  {
    hide SimpleRun, LE, ValidTable;
    ghost var o0 := dst[..op];
    dst[op] := Step(bitD, state1, state2, fast, c, src, o0, maxDstSize);
    ghost var o1 := o0 + [dst[op]];
    dst[op + 1] := Step(bitD, state2, state1, fast, c, src, o1, maxDstSize);
    ghost var o2 := o1 + [dst[op + 1]];
    dst[op + 2] := Step(bitD, state1, state2, fast, c, src, o2, maxDstSize);
    ghost var o3 := o2 + [dst[op + 2]];
    dst[op + 3] := Step(bitD, state2, state1, fast, c, src, o3, maxDstSize);
    assert dst[..op + 4] == o3 + [dst[op + 3]];
  }

  /** The tail: one symbol at a time until the stream is overrun. */
  method Tail(dst: array<U8>, start: nat, maxDstSize: nat, bitD: DStream, state1: DState, state2: DState,
              fast: bool, ghost c: Code, ghost src: seq<U8>)
    returns (r: Outcome)
    requires ByteCode(c) && Live(bitD, state1, state2, c, src) && bitD.Ready() && (fast ==> AlwaysReads(c))
    requires start <= maxDstSize <= dst.Length
    modifies bitD, state1, state2, dst
    ensures r == old(Rest(bitD, state1, state2, c, src, dst[..start], maxDstSize))
    ensures r.Decoded? ==> |r.out| <= maxDstSize && dst[..|r.out|] == r.out
    ensures dst[maxDstSize..] == old(dst[maxDstSize..])
  {
    hide LE, ValidCode, AlwaysReads, SimpleRun, Size;
    CellCount(c);
    var op := start;
    while true
      invariant 0 <= op <= maxDstSize
      invariant Live(bitD, state1, state2, c, src) && bitD.Ready()
      invariant Rest(bitD, state1, state2, c, src, dst[..op], maxDstSize)
                == old(Rest(bitD, state1, state2, c, src, dst[..start], maxDstSize))
      invariant dst[maxDstSize..] == old(dst[maxDstSize..])
      modifies bitD, state1, state2, dst
      decreases maxDstSize - op
    {
      var end := HalfRound(dst, op, maxDstSize, bitD, state1, state2, fast, c, src);
      if end.Some? {
        return end.value;
      }
      end := HalfRound(dst, op + 1, maxDstSize, bitD, state2, state1, fast, c, src);
      if end.Some? {
        return end.value;
      }
      op := op + 2;
    }
  }

  /** Half of the tail loop's body: the room for two symbols, a symbol from state1, and the
      last symbol from state2 if the stream has ended. */
  method HalfRound(dst: array<U8>, op: nat, maxDstSize: nat, bitD: DStream, state1: DState, state2: DState,
                   fast: bool, ghost c: Code, ghost src: seq<U8>)
    returns (end: Option<Outcome>)
    requires ByteCode(c) && Live(bitD, state1, state2, c, src) && bitD.Ready() && (fast ==> AlwaysReads(c))
    requires op <= maxDstSize <= dst.Length
    modifies bitD, state1, state2, dst
    ensures dst[maxDstSize..] == old(dst[maxDstSize..])
    ensures end.None? ==> op < maxDstSize && Live(bitD, state2, state1, c, src) && bitD.Ready()
    ensures end.None? ==> Rest(bitD, state2, state1, c, src, dst[..op + 1], maxDstSize)
                          == old(Rest(bitD, state1, state2, c, src, dst[..op], maxDstSize))
    ensures end.Some? ==> end.value == old(Rest(bitD, state1, state2, c, src, dst[..op], maxDstSize))
    ensures end.Some? && end.value.Decoded? ==> |end.value.out| <= maxDstSize && dst[..|end.value.out|] == end.value.out
  {
    hide LE, ValidCode, AlwaysReads, SimpleRun, Size;
    CellCount(c);
    if op > maxDstSize - 2 {
      RunFull(c, LE(src), bitD.Position(), state1.state, state2.state, dst[..op], maxDstSize);
      return Some(DstSizeTooSmall);
    }
    ghost var out := dst[..op];
    var symbol, over := OneSymbol(bitD, state1, state2, fast, c, src, out, maxDstSize);
    dst[op] := symbol;
    assert dst[..op + 1] == out + [symbol];
    if over {
      dst[op + 1] := GetSymbol(state2, bitD, fast, c);
      assert dst[..op + 2] == out + [symbol] + [dst[op + 1]];
      return Some(Decoded(dst[..op + 2]));
    }
    end := None;
  }

  /** A symbol from state1 and a reload. If the reload reports an overflow, the run ends with
      the symbol of state2; otherwise it goes on. */
  method OneSymbol(bitD: DStream, state1: DState, state2: DState, fast: bool, ghost c: Code, ghost src: seq<U8>,
                   ghost out: seq<nat>, ghost capacity: nat)
    returns (symbol: nat, over: bool)
    requires ByteCode(c) && Live(bitD, state1, state2, c, src) && bitD.Ready() && (fast ==> AlwaysReads(c))
    requires |out| + 2 <= capacity
    modifies bitD, state1
    ensures symbol < 256 && state1.Valid(c) && state2.Valid(c) && bitD.Valid()
    ensures !over ==> Live(bitD, state2, state1, c, src) && bitD.Ready()
    ensures !over ==> Rest(bitD, state2, state1, c, src, out + [symbol], capacity)
                      == old(Rest(bitD, state1, state2, c, src, out, capacity))
    ensures over ==> state2.state < |c.cells|
                     && old(Rest(bitD, state1, state2, c, src, out, capacity))
                        == Decoded(out + [symbol] + [c.cells[state2.state].symbol])
  {
    hide LE, Slice, ValidCode, AlwaysReads, Pow2, SimpleRun, NextState, Size;
    CellCount(c);
    RunStep(c, LE(src), bitD.Position(), state1.state, state2.state, out, capacity);
    symbol, over := SymbolThenReload(bitD, state1, fast, c);
  }

  /** FSE_GETSYMBOL and the reload after it, which tells whether the cell's bits were there. */
  method SymbolThenReload(bitD: DStream, st: DState, fast: bool, ghost c: Code) returns (symbol: nat, over: bool)
    requires ByteCode(c) && st.Valid(c) && st.state < |c.cells| && (fast ==> AlwaysReads(c))
    requires bitD.Valid() && bitD.Ready() && !bitD.Overflowed() && bitD.Position() >= 0
    modifies st`state, bitD`bitContainer, bitD`bitsConsumed, bitD`ptr, bitD`zeroFilled
    ensures st.Valid(c) && bitD.Valid() && symbol == c.cells[old(st.state)].symbol && symbol < 256
    ensures bitD.Position() == old(bitD.Position()) - c.cells[old(st.state)].nbBits
    ensures over == bitD.Overflowed() && (over <==> bitD.Position() < 0) && (!over ==> bitD.Ready())
    ensures !over ==> st.state == c.cells[old(st.state)].newState
                                  + Slice(LE(bitD.src), bitD.Position(), c.cells[old(st.state)].nbBits)
  {
    CellBits(c, st.state);
    hide LE, Slice, ValidCode, AlwaysReads, Pow2, Size;
    symbol := GetSymbol(st, bitD, fast, c);
    var status := bitD.ReloadDStream();
    over := status == Overflow;
  }
}

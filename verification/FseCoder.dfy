/** The symbol coders of fse.h over the bit stream, and the law that connects them: what
    FSE_encodeSymbol pushed, FSE_decodeSymbol pops in reverse. */
module FseCoder {
  import opened Bits
  import opened LittleEndian
  import opened BitStream
  import opened FseCounts
  import opened Tans

  /** Normalized counts together with the decoding table built from them. */
  datatype Code = Code(counts: seq<int>, tableLog: nat, cells: seq<Entry>)

  ghost predicate ValidCode(c: Code)
  {
    ValidTable(c.counts, c.tableLog, c.cells)
  }

  function Size(c: Code): nat
  {
    Pow2(c.tableLog)
  }

  ghost predicate Sendable(c: Code, symbols: seq<nat>)
  {
    Encodable(c.counts, symbols)
  }

  // ------------------------------------------------------------------ compression table

  /** FSE_symbolCompressionTransform. */
  datatype SymbolTransform = SymbolTransform(deltaFindState: int, deltaNbBits: nat)

  datatype CTable = CTable(tableLog: nat, stateTable: seq<nat>, symbolTT: seq<SymbolTransform>)

  /** The number of bits FSE_encodeSymbol sends for symbol s from state value x. */
  function NbBitsOut(ct: CTable, s: nat, x: nat): nat
    requires s < |ct.symbolTT|
  {
    (x + ct.symbolTT[s].deltaNbBits) / 0x1_0000
  }

  /** The compression table inverts the decoding table at (s, x): shifting x by the number of
      bits sent lands in [n, 2n), and the entry found there is the cell of that rank. */
  ghost predicate InverseAt(ct: CTable, c: Code, s: nat, x: nat)
  {
    && s < |ct.symbolTT| && s < |c.counts|
    && var n := Weight(c.counts[s]);
    && var next := Shr(x, NbBitsOut(ct, s, x));
    && var i := next + ct.symbolTT[s].deltaFindState;
    && n <= next < 2 * n
    && 0 <= i < |ct.stateTable|
    && var u := ct.stateTable[i] - Size(c);
    && 0 <= u < |c.cells| && c.cells[u].symbol == s && Rank(Symbols(c.cells), u) == next - n
  }

  ghost predicate Inverse(ct: CTable, c: Code)
  {
    && ct.tableLog == c.tableLog
    && forall s, x :: 0 <= s < |c.counts| && c.counts[s] != 0 && Size(c) <= x < 2 * Size(c) ==> InverseAt(ct, c, s, x)
  }

  /** Cell u is the first cell of symbol s. */
  ghost predicate FirstCellOf(c: Code, s: nat, u: nat)
  {
    u < |c.cells| && c.cells[u].symbol == s && Rank(Symbols(c.cells), u) == 0
  }

  /** The number of bits of a symbol's dearest state, and the smallest value that sends them, as
      FSE_initCState2 works them out. */
  function OpeningBits(ct: CTable, s: nat): nat
    requires s < |ct.symbolTT|
  {
    (ct.symbolTT[s].deltaNbBits + 0x8000) / 0x1_0000
  }

  function OpeningValue(ct: CTable, s: nat): int
    requires s < |ct.symbolTT|
  {
    OpeningBits(ct, s) * 0x1_0000 - ct.symbolTT[s].deltaNbBits
  }

  /** From there the table leads to the symbol's first cell. */
  ghost predicate OpensAt(ct: CTable, c: Code, s: nat)
  {
    && s < |ct.symbolTT| && OpeningValue(ct, s) >= 0
    && var i := Shr(OpeningValue(ct, s), OpeningBits(ct, s)) + ct.symbolTT[s].deltaFindState;
    && 0 <= i < |ct.stateTable| && ct.stateTable[i] >= Size(c) && FirstCellOf(c, s, ct.stateTable[i] - Size(c))
  }

  /** Such a table sends the bits and enters the state of the run that the decoder undoes. */
  lemma InverseStep(ct: CTable, c: Code, s: nat, x: nat)
    requires ValidCode(c) && Inverse(ct, c)
    requires s < |c.counts| && c.counts[s] != 0 && Size(c) <= x < 2 * Size(c)
    ensures InverseAt(ct, c, s, x)
    ensures 0 < Weight(c.counts[s]) <= x
    ensures NbBitsOut(ct, s, x) == OutBits(Weight(c.counts[s]), x) <= c.tableLog
    ensures ct.stateTable[Shr(x, NbBitsOut(ct, s, x)) + ct.symbolTT[s].deltaFindState] == EncodeStep(c, s, x)
  {
    hide Shl, Shr, ValidTable, OutBits, NbBitsOut, Pow2, Symbols, Rank, Weight;
    assert InverseAt(ct, c, s, x);
    var y := x - Size(c);
    PrevRank(c.counts, c.tableLog, c.cells, s, y);
    PrevLeads(c.counts, c.tableLog, c.cells, s, y);
    var n, k := Weight(c.counts[s]), NbBitsOut(ct, s, x);
    OutBitsUnique(n, x, k);
    var u := ct.stateTable[Shr(x, k) + ct.symbolTT[s].deltaFindState] - Size(c);
    var v := Prev(c.counts, c.tableLog, c.cells, s, y);
    CellFacts(c.counts, c.tableLog, c.cells, v);
    SameRank(c.cells, u, v);
  }

  lemma SameRank(cells: seq<Entry>, u: nat, v: nat)
    requires u < |cells| && v < |cells| && cells[u].symbol == cells[v].symbol
    requires Rank(Symbols(cells), u) == Rank(Symbols(cells), v)
    ensures u == v
  {
    if u < v {
      RankDistinct(Symbols(cells), u, v);
    } else if v < u {
      RankDistinct(Symbols(cells), v, u);
    }
  }

  // ------------------------------------------------------------------ runs of the encoder

  /** The state value after sending s from x. */
  ghost function EncodeStep(c: Code, s: nat, x: nat): (x': nat)
    requires ValidCode(c) && s < |c.counts| && c.counts[s] != 0
    requires Size(c) <= x < 2 * Size(c)
    ensures Size(c) <= x' < 2 * Size(c)
  {
    CellFacts(c.counts, c.tableLog, c.cells, Prev(c.counts, c.tableLog, c.cells, s, x - Size(c)));
    Size(c) + Prev(c.counts, c.tableLog, c.cells, s, x - Size(c))
  }

  /** The field sent for s from x. */
  ghost function StepField(c: Code, s: nat, x: nat): Field
    requires ValidCode(c) && s < |c.counts| && c.counts[s] != 0
    requires Size(c) <= x < 2 * Size(c)
  {
    PrevLeads(c.counts, c.tableLog, c.cells, s, x - Size(c));
    Field(x, OutBits(Weight(c.counts[s]), x))
  }

  ghost function EncodeState(c: Code, x0: nat, symbols: seq<nat>): (x: nat)
    requires ValidCode(c) && Sendable(c, symbols) && Size(c) <= x0 < 2 * Size(c)
    ensures Size(c) <= x < 2 * Size(c)
  {
    if symbols == [] then x0
    else EncodeStep(c, symbols[|symbols| - 1], EncodeState(c, x0, symbols[..|symbols| - 1]))
  }

  ghost function EncodeFields(c: Code, x0: nat, symbols: seq<nat>): seq<Field>
    requires ValidCode(c) && Sendable(c, symbols) && Size(c) <= x0 < 2 * Size(c)
  {
    if symbols == [] then []
    else
      var init := symbols[..|symbols| - 1];
      EncodeFields(c, x0, init) + [StepField(c, symbols[|symbols| - 1], EncodeState(c, x0, init))]
  }

  /** One step back: the cell of the current state names the symbol, its width is that of the
      last field, and its bits restore the previous state. */
  lemma DecodeStep(c: Code, s: nat, x: nat)
    requires ValidCode(c) && s < |c.counts| && c.counts[s] != 0
    requires Size(c) <= x < 2 * Size(c)
    ensures var u, f := EncodeStep(c, s, x) - Size(c), StepField(c, s, x);
            && u < |c.cells| && c.cells[u].symbol == s && c.cells[u].nbBits == f.width
            && c.cells[u].newState + Low(f.value, f.width) == x - Size(c)
            && f.width <= c.tableLog
  {
    hide Shl, Shr, Low, ValidTable, OutBits;
    PrevLeads(c.counts, c.tableLog, c.cells, s, x - Size(c));
    CellFacts(c.counts, c.tableLog, c.cells, EncodeStep(c, s, x) - Size(c));
  }

  lemma StepFieldIs(c: Code, s: nat, x: nat)
    requires ValidCode(c) && s < |c.counts| && c.counts[s] != 0
    requires Size(c) <= x < 2 * Size(c)
    ensures 0 < Weight(c.counts[s]) <= x
    ensures StepField(c, s, x) == Field(x, OutBits(Weight(c.counts[s]), x))
  {
    PrevLeads(c.counts, c.tableLog, c.cells, s, x - Size(c));
  }

  lemma InverseIndex(ct: CTable, c: Code, s: nat, x: nat)
    requires InverseAt(ct, c, s, x)
    ensures s < |ct.symbolTT|
    ensures 0 <= Shr(x, NbBitsOut(ct, s, x)) + ct.symbolTT[s].deltaFindState < |ct.stateTable|
  {
  }

  lemma CellTotal(c: Code)
    requires ValidCode(c)
    ensures |c.cells| == Size(c)
  {
    SpreadSize(c.counts, c.tableLog, Symbols(c.cells));
  }

  lemma FirstCellInside(c: Code, s: nat, u: nat)
    requires FirstCellOf(c, s, u)
    ensures u < |c.cells|
  {
  }

  // ------------------------------------------------------------------ coder states

  /** FSE_CState_t. */
  class CState {
    var value: nat
    var table: CTable

    constructor (ct: CTable)
      ensures value == Pow2(ct.tableLog) && table == ct
    {
      value, table := Pow2(ct.tableLog), ct;
    }

    ghost predicate Valid(c: Code)
      reads this
    {
      ValidCode(c) && Inverse(table, c) && Size(c) <= value < 2 * Size(c)
    }

    /** FSE_initCState2: enters the first cell of the symbol, which is so sent for nothing. */
    method InitCState2(symbol: nat, ghost c: Code)
      requires ValidCode(c) && Inverse(table, c) && OpensAt(table, c, symbol)
      modifies this`value
      ensures Valid(c) && FirstCellOf(c, symbol, value - Size(c))
    {
      hide ValidTable, Inverse, Shr, Pow2, FirstCellOf;
      CellTotal(c);
      FirstCellInside(c, symbol, table.stateTable[Shr(OpeningValue(table, symbol), OpeningBits(table, symbol))
                                                  + table.symbolTT[symbol].deltaFindState] - Size(c));
      var nbBitsOut := (table.symbolTT[symbol].deltaNbBits + 0x8000) / 0x1_0000;
      value := nbBitsOut * 0x1_0000 - table.symbolTT[symbol].deltaNbBits;
      value := table.stateTable[Shr(value, nbBitsOut) + table.symbolTT[symbol].deltaFindState];
    }

    /** FSE_encodeSymbol. */
    method EncodeSymbol(bitC: CStream, symbol: nat, ghost c: Code)
      requires Valid(c) && bitC.Valid() && bitC.bitPos + c.tableLog < 64
      requires symbol < |c.counts| && c.counts[symbol] != 0
      modifies this`value, bitC`bitContainer, bitC`bitPos, bitC`fields
      ensures Valid(c) && bitC.Valid() && bitC.bitPos <= old(bitC.bitPos) + c.tableLog
      ensures value == EncodeStep(c, symbol, old(value))
      ensures bitC.fields == old(bitC.fields) + [StepField(c, symbol, old(value))]
    {
      InverseStep(table, c, symbol, value);
      TableLogSmall(c);
      StepFieldIs(c, symbol, value);
      InverseIndex(table, c, symbol, value);
      hide ValidTable, Inverse, OutBits, Shl, Shr, Total, Payload, EncodeStep, StepField, NbBitsOut, InverseAt, Pow2, Encodable;
      var nbBitsOut := NbBitsOut(table, symbol, value);
      bitC.AddBits(value, nbBitsOut);
      value := table.stateTable[Shr(value, nbBitsOut) + table.symbolTT[symbol].deltaFindState];
    }

    /** FSE_flushCState. */
    method FlushCState(bitC: CStream, ghost c: Code)
      requires Valid(c) && bitC.Valid() && bitC.bitPos + c.tableLog < 64
      modifies bitC`bitContainer, bitC`bitPos, bitC`fields, bitC`ptr, bitC.buf
      ensures bitC.Valid() && bitC.bitPos < 8
      ensures bitC.fields == old(bitC.fields) + [Field(value, c.tableLog)]
    {
      hide Shl, Shr, Total, Payload;
      bitC.AddBits(value, table.tableLog);
      bitC.FlushBits();
    }
  }

  /** FSE_DTable: a header and the cells. */
  datatype DTable = DTable(tableLog: nat, fastMode: bool, cells: seq<Entry>)

  ghost predicate IsTableOf(dt: DTable, c: Code)
  {
    ValidCode(c) && dt.tableLog == c.tableLog && dt.cells == c.cells
  }

  lemma CellReads(c: Code, u: nat)
    requires ValidCode(c) && u < |c.cells|
    ensures c.cells[u].nbBits <= c.tableLog
  {
    hide ValidTable;
    CellFacts(c.counts, c.tableLog, c.cells, u);
  }

  /** FSE_DState_t. */
  class DState {
    var state: nat
    var table: DTable

    constructor ()
    {
      state, table := 0, DTable(0, false, []);
    }

    ghost predicate Valid(c: Code)
      reads this
    {
      IsTableOf(table, c) && state < |table.cells|
    }

    /** FSE_initDState: reads a state; even a read past the end gives a state of the table. */
    method InitDState(bitD: DStream, dt: DTable, ghost c: Code)
      requires bitD.Valid() && IsTableOf(dt, c)
      modifies this, bitD
      ensures Valid(c) && table == dt && bitD.Valid() && bitD.src == old(bitD.src)
      ensures bitD.Overflowed() <==> old(bitD.bitsConsumed) + c.tableLog > 64
      ensures bitD.Position() == old(bitD.Position()) - c.tableLog
      ensures !bitD.Overflowed() ==> bitD.Ready() && state == Slice(LE(bitD.src), bitD.Position(), c.tableLog)
    {
      SpreadSize(c.counts, c.tableLog, Symbols(c.cells));
      hide LE, Slice, Spread;
      state := bitD.ReadBits(dt.tableLog);
      var _ := bitD.ReloadDStream();
      table := dt;
    }

    /** FSE_decodeSymbol. The symbol depends on the state alone; the next state is in the table
        whatever the register holds. */
    method DecodeSymbol(bitD: DStream, ghost c: Code) returns (symbol: nat)
      requires Valid(c) && bitD.Valid()
      modifies this`state, bitD`bitsConsumed
      ensures Valid(c) && bitD.Valid()
      ensures symbol == c.cells[old(state)].symbol
      ensures bitD.bitsConsumed == old(bitD.bitsConsumed) + c.cells[old(state)].nbBits
      ensures !bitD.Overflowed() ==>
                state == c.cells[old(state)].newState
                         + Slice(LE(bitD.src), bitD.Position(), c.cells[old(state)].nbBits)
    {
      TableLogSmall(c);
      hide LE, Slice, ValidTable, Pow2;
      CellReads(c, state);
      var dInfo := table.cells[state];
      symbol := dInfo.symbol;
      var lowBits := bitD.ReadBits(dInfo.nbBits);
      StaysInTable(c.counts, c.tableLog, c.cells, state, lowBits);
      state := dInfo.newState + lowBits;
    }

    /** FSE_decodeSymbolFast: the same where every cell reads at least one bit. */
    method DecodeSymbolFast(bitD: DStream, ghost c: Code) returns (symbol: nat)
      requires Valid(c) && bitD.Valid() && c.cells[state].nbBits >= 1
      modifies this`state, bitD`bitsConsumed
      ensures Valid(c) && bitD.Valid()
      ensures symbol == c.cells[old(state)].symbol
      ensures bitD.bitsConsumed == old(bitD.bitsConsumed) + c.cells[old(state)].nbBits
      ensures !bitD.Overflowed() ==>
                state == c.cells[old(state)].newState
                         + Slice(LE(bitD.src), bitD.Position(), c.cells[old(state)].nbBits)
    {
      TableLogSmall(c);
      hide LE, Slice, ValidTable, Pow2;
      CellReads(c, state);
      var dInfo := table.cells[state];
      symbol := dInfo.symbol;
      var lowBits := bitD.ReadBitsFast(dInfo.nbBits);
      StaysInTable(c.counts, c.tableLog, c.cells, state, lowBits);
      state := dInfo.newState + lowBits;
    }
  }

  // ------------------------------------------------------------------ round trip

  /** Sends all symbols from state value x0, flushing where asked and before the register
      would fill up, then the final state, and closes. */
  method EncodeStream(buffer: array<U8>, ct: CTable, symbols: seq<nat>, x0: nat, flush: seq<bool>, ghost c: Code)
    returns (size: nat)
    requires ValidCode(c) && Inverse(ct, c) && Sendable(c, symbols) && |flush| == |symbols|
    requires Size(c) <= x0 < 2 * Size(c)
    modifies buffer
    ensures size > 0 ==> size <= buffer.Length && Holds(buffer[..size], StreamOf(c, x0, symbols))
    ensures size == 0 <==> buffer.Length <= 8 || (Total(StreamOf(c, x0, symbols)) + 1) / 8 >= buffer.Length - 8
  {
    var bitC := new CStream(buffer);
    var ok := bitC.InitCStream();
    if !ok {
      return 0;
    }
    var st := new CState(ct);
    st.value := x0;
    hide Inverse, ValidTable, Total, Payload, EncodeStep, StepField, Pow2, Encodable;
    for i := 0 to |symbols|
      invariant bitC.Valid() && st.Valid(c) && st.table == ct
      invariant Sendable(c, symbols[..i])
      invariant st.value == EncodeState(c, x0, symbols[..i])
      invariant bitC.fields == EncodeFields(c, x0, symbols[..i])
      modifies bitC, buffer, st
    {
      SendableStep(c, symbols, i);
      TableLogSmall(c);
      if bitC.bitPos + ct.tableLog >= 64 {
        bitC.FlushBits();
      }
      assert symbols[..i + 1][..i] == symbols[..i];
      st.EncodeSymbol(bitC, symbols[i], c);
      if flush[i] {
        bitC.FlushBits();
      }
    }
    assert symbols[..|symbols|] == symbols;
    TableLogSmall(c);
    if bitC.bitPos + ct.tableLog >= 64 {
      bitC.FlushBits();
    }
    st.FlushCState(bitC, c);
    size := bitC.CloseCStream();
  }

  /** The whole stream: the fields of the symbols and then the final state. */
  ghost function StreamOf(c: Code, x0: nat, symbols: seq<nat>): seq<Field>
    requires ValidCode(c) && Sendable(c, symbols) && Size(c) <= x0 < 2 * Size(c)
  {
    EncodeFields(c, x0, symbols) + [Field(EncodeState(c, x0, symbols), c.tableLog)]
  }

  lemma TableLogSmall(c: Code)
    requires ValidCode(c)
    ensures 4 <= c.tableLog <= 12
  {
  }

  lemma SendableStep(c: Code, symbols: seq<nat>, i: nat)
    requires i < |symbols| && Sendable(c, symbols)
    ensures Sendable(c, symbols[..i]) && Sendable(c, symbols[..i + 1])
    ensures symbols[i] < |c.counts| && c.counts[symbols[i]] != 0
  {
  }

  lemma HoldsSize(bytes: seq<U8>, fs: seq<Field>)
    requires Holds(bytes, fs)
    ensures |bytes| > 0
  {
  }

  /** Opens the stream and reads the final state. */
  method OpenStream(src: seq<U8>, dt: DTable, ghost c: Code, ghost x0: nat, ghost symbols: seq<nat>)
    returns (bitD: DStream, st: DState)
    requires IsTableOf(dt, c) && Sendable(c, symbols)
    requires Size(c) <= x0 < 2 * Size(c)
    requires Holds(src, StreamOf(c, x0, symbols))
    ensures fresh(bitD) && fresh(st)
    ensures Reading(bitD, st, c, src)
    ensures At(c, x0, symbols, LE(src), bitD.Position(), st.state)
  {
    hide ValidCode, Sendable, Size, Slice, LE, HighBit, StreamOf, At, StartsWith, Holds, Reading, Total, Payload;
    ghost var fields := StreamOf(c, x0, symbols);
    ClosedStream(src, fields);
    HoldsSize(src, fields);
    FinalState(c, x0, symbols, LE(src));
    bitD := new DStream();
    var _ := bitD.InitDStream(src);
    st := FirstState(bitD, dt, c);
  }

  /** FSE_initDState on a freshly opened stream that holds at least a state. */
  method FirstState(bitD: DStream, dt: DTable, ghost c: Code) returns (st: DState)
    requires bitD.Valid() && bitD.Ready() && !bitD.Overflowed() && bitD.Position() >= c.tableLog
    requires IsTableOf(dt, c)
    modifies bitD
    ensures fresh(st) && Reading(bitD, st, c, old(bitD.src)) && bitD.src == old(bitD.src)
    ensures bitD.Position() == old(bitD.Position()) - c.tableLog
    ensures st.state == Slice(LE(bitD.src), bitD.Position(), c.tableLog)
  {
    TableLogSmall(c);
    hide ValidTable, Slice, LE;
    st := new DState();
    st.InitDState(bitD, dt, c);
  }

  /** Decodes n symbols, with a reload after each. */
  method DecodeStream(src: seq<U8>, dt: DTable, n: nat, ghost c: Code, ghost x0: nat, ghost symbols: seq<nat>)
    returns (out: seq<nat>, final: nat, atEnd: bool)
    requires IsTableOf(dt, c) && Sendable(c, symbols) && |symbols| == n
    requires Size(c) <= x0 < 2 * Size(c)
    requires Holds(src, StreamOf(c, x0, symbols))
    ensures |out| == n && forall i :: 0 <= i < n ==> out[i] == symbols[n - 1 - i]
    ensures final == x0 - Size(c) && atEnd
  {
    hide ValidTable, LE, Encodable, StreamOf, At, Reading, Holds;
    assert symbols[..0] == [];
    var bitD, st := OpenStream(src, dt, c, x0, symbols);
    out := [];
    assert symbols[..n] == symbols;
    var left := n;
    while left > 0
      invariant 0 <= left <= n && |out| == n - left
      invariant Reading(bitD, st, c, src)
      invariant At(c, x0, symbols[..left], LE(src), bitD.Position(), st.state)
      invariant forall i :: 0 <= i < n - left ==> out[i] == symbols[n - 1 - i]
      modifies bitD, st
    {
      assert symbols[..left][..left - 1] == symbols[..left - 1];
      var symbol := PopSymbol(bitD, st, c, x0, symbols[..left], src);
      out := out + [symbol];
      left := left - 1;
    }
    AtStart(c, x0, LE(src), bitD.Position(), st.state);
    final := st.state;
    atEnd := AtEnd(bitD, st, c, src);
  }

  /** A reader and a state in use on this source, not past its end. */
  ghost predicate Reading(bitD: DStream, st: DState, c: Code, src: seq<U8>)
    reads bitD, st
  {
    && bitD.Valid() && bitD.Ready() && !bitD.Overflowed() && bitD.src == src
    && st.Valid(c)
  }

  method AtEnd(bitD: DStream, st: DState, ghost c: Code, ghost src: seq<U8>) returns (r: bool)
    requires Reading(bitD, st, c, src)
    ensures r <==> bitD.Position() == 0
  {
    r := bitD.EndOfDStream();
  }

  /** FSE_decodeSymbol and a reload, on a stream that holds the symbol. */
  method PopSymbol(bitD: DStream, st: DState, ghost c: Code, ghost x0: nat, ghost symbols: seq<nat>, ghost src: seq<U8>)
    returns (symbol: nat)
    requires symbols != [] && Reading(bitD, st, c, src)
    requires At(c, x0, symbols, LE(src), bitD.Position(), st.state)
    modifies bitD, st
    ensures symbol == symbols[|symbols| - 1] && Reading(bitD, st, c, src)
    ensures At(c, x0, symbols[..|symbols| - 1], LE(src), bitD.Position(), st.state)
  {
    hide *;
    StepBack(c, x0, symbols, LE(src), bitD.Position(), st.state);
    symbol := DecodeAndReload(bitD, st, c, src);
  }

  /** FSE_decodeSymbol and a reload, where the position allows the read. */
  method DecodeAndReload(bitD: DStream, st: DState, ghost c: Code, ghost src: seq<U8>) returns (symbol: nat)
    requires Reading(bitD, st, c, src) && st.state < |c.cells| && c.cells[st.state].nbBits <= bitD.Position()
    modifies bitD, st
    ensures Reading(bitD, st, c, src)
    ensures symbol == c.cells[old(st.state)].symbol
    ensures bitD.Position() == old(bitD.Position()) - c.cells[old(st.state)].nbBits
    ensures bitD.Position() >= 0
    ensures st.state == c.cells[old(st.state)].newState
                        + Slice(LE(src), bitD.Position(), c.cells[old(st.state)].nbBits)
  {
    CellBits(c, st.state);
    hide ValidTable, Slice, LE, Pow2, Symbols, Normalized, DecodingTable;
    symbol := st.DecodeSymbol(bitD, c);
    assert !bitD.Overflowed();
    var _ := bitD.ReloadDStream();
  }

  lemma CellBits(c: Code, u: nat)
    requires ValidCode(c) && u < |c.cells|
    ensures c.cells[u].nbBits <= 12
  {
    CellFacts(c.counts, c.tableLog, c.cells, u);
  }

  /** The decoder stands just above the fields of these symbols, in the state they end in. */
  ghost predicate At(c: Code, x0: nat, symbols: seq<nat>, v: nat, position: int, state: nat)
  {
    && ValidCode(c) && Sendable(c, symbols) && Size(c) <= x0 < 2 * Size(c)
    && StartsWith(v, EncodeFields(c, x0, symbols)) && position == Total(EncodeFields(c, x0, symbols))
    && state + Size(c) == EncodeState(c, x0, symbols)
  }

  lemma FinalState(c: Code, x0: nat, symbols: seq<nat>, v: nat)
    requires ValidCode(c) && Sendable(c, symbols) && Size(c) <= x0 < 2 * Size(c)
    requires StartsWith(v, StreamOf(c, x0, symbols))
    ensures var p := Total(StreamOf(c, x0, symbols)) - c.tableLog;
            p >= 0 && At(c, x0, symbols, v, p, Slice(v, p, c.tableLog))
  {
    hide ValidTable, Low, Slice, Shl, Payload, Total, EncodeState, EncodeFields, Encodable;
    var x := EncodeState(c, x0, symbols);
    var f := Field(x, c.tableLog);
    PayloadSnoc(EncodeFields(c, x0, symbols), f);
    PopField(v, EncodeFields(c, x0, symbols), f);
    SplitUnique(x - Size(c), 1, c.tableLog);
    assert x == x - Size(c) + Shl(1, c.tableLog);
  }

  /** Popping one symbol moves from the state of a string to that of the string before it. */
  lemma StepBack(c: Code, x0: nat, symbols: seq<nat>, v: nat, position: int, state: nat)
    requires symbols != [] && At(c, x0, symbols, v, position, state)
    ensures state < |c.cells| && c.cells[state].symbol == symbols[|symbols| - 1]
    ensures var nb := c.cells[state].nbBits;
            && nb <= position && nb <= c.tableLog
            && At(c, x0, symbols[..|symbols| - 1], v, position - nb, c.cells[state].newState + Slice(v, position - nb, nb))
  {
    hide ValidTable, Low, Slice, Shl, Payload, Total, StepField, EncodeStep;
    var init, s := symbols[..|symbols| - 1], symbols[|symbols| - 1];
    var x := EncodeState(c, x0, init);
    DecodeStep(c, s, x);
    PayloadSnoc(EncodeFields(c, x0, init), StepField(c, s, x));
    PopField(v, EncodeFields(c, x0, init), StepField(c, s, x));
  }

  lemma AtStart(c: Code, x0: nat, v: nat, position: int, state: nat)
    requires At(c, x0, [], v, position, state)
    ensures position == 0 && state == x0 - Size(c)
  {
  }

  /** FSE is lossless: for every symbol string and start state, a stream that fits decodes to
      the string in reverse, returns to the start state and leaves no payload bit. */
  method RoundTrip(buffer: array<U8>, ct: CTable, dt: DTable, symbols: seq<nat>, x0: nat, flush: seq<bool>, ghost c: Code)
    returns (size: nat, out: seq<nat>, final: nat, atEnd: bool)
    requires IsTableOf(dt, c) && Inverse(ct, c) && Sendable(c, symbols) && |flush| == |symbols|
    requires Size(c) <= x0 < 2 * Size(c)
    modifies buffer
    ensures size > 0 ==> |out| == |symbols| && forall i :: 0 <= i < |symbols| ==> out[i] == symbols[|symbols| - 1 - i]
    ensures size > 0 ==> final == x0 - Size(c) && atEnd
    ensures size == 0 <==> buffer.Length <= 8 || (Total(StreamOf(c, x0, symbols)) + 1) / 8 >= buffer.Length - 8
  {
    hide ValidTable, Inverse, Total, Payload, Encodable, StreamOf, Holds, Pow2;
    size := EncodeStream(buffer, ct, symbols, x0, flush, c);
    out, final, atEnd := [], 0, false;
    if size > 0 {
      out, final, atEnd := DecodeStream(buffer[..size], dt, |symbols|, c, x0, symbols);
    }
  }
}

/** FSE_buildCTable_wksp: builds the compression table from normalized counts alone. It spreads
    the symbols as the decoder's builder does, so the two tables fit each other. */
module FseBuildCTable {
  import opened Bits
  import opened FseCounts
  import opened FseTable
  import opened Tans
  import opened FseCoder
  import opened FseCTable

  type U16 = x: nat | x < 0x1_0000

  /** FSE_BUILD_CTABLE_WORKSPACE_SIZE. */
  function WorkspaceSize(maxSymbolValue: nat, tableLog: nat): nat
  {
    4 * ((maxSymbolValue + 2 + Pow2(tableLog)) / 2 + 2)
  }

  /** Fails exactly when the work space is too small. Otherwise the table inverts `c`, the code
      with these counts, and FSE_initCState2 finds each symbol's first cell in it. No decoding
      table has been built for that: the symbols are spread here once more, and that they are
      spread as the decoder does makes the tables fit. */
  method BuildCTable(stateTable: array<U16>, symbolTT: array<SymbolTransform>, counts: seq<int>, tableLog: nat, wkspSize: nat)
    returns (ok: bool, ghost c: Code)
    requires 4 <= tableLog <= MAX_TABLELOG && Normalized(counts, tableLog) && 0 < |counts| <= MAX_SYMBOL_VALUE + 1
    requires stateTable.Length == Pow2(tableLog) && symbolTT.Length == |counts|
    modifies stateTable, symbolTT
    ensures ok <==> WorkspaceSize(|counts| - 1, tableLog) <= wkspSize
    ensures !ok ==> stateTable[..] == old(stateTable[..]) && symbolTT[..] == old(symbolTT[..])
    ensures ok ==> ValidCode(c) && c.counts == counts && c.tableLog == tableLog
                   && Complements(CTable(tableLog, stateTable[..], symbolTT[..]), c)
  {
    SmallTable(tableLog);
    hide *;
    assert MAX_SYMBOL_VALUE == 255 && MAX_TABLELOG == 12;
    var tableSize := Pow2(tableLog);
    if WorkspaceSize(|counts| - 1, tableLog) > wkspSize {
      return false, Code([], 0, []);
    }
    var cumul := new U16[|counts| + 1];
    var tableSymbol := new Entry[tableSize](_ => Entry(0, 0, 0));
    var highThreshold := StartPositions(cumul, tableSymbol, counts, tableLog);
    SpreadSymbols(tableSymbol, counts, tableLog, highThreshold);
    ok := true;
    c := CodeSpread(counts, tableLog, Symbols(tableSymbol[..]));
    SortStates(stateTable, cumul, tableSymbol, counts, tableLog);
    BuildTransforms(symbolTT, counts, tableLog);
    BuiltWhole(CTable(tableLog, stateTable[..], symbolTT[..]), c);
  }

  /** What the encoder needs of a compression table. */
  ghost predicate Complements(ct: CTable, c: Code)
  {
    && ValidCode(c) && Inverse(ct, c)
    && forall s :: 0 <= s < |c.counts| && c.counts[s] != 0 ==> OpensAt(ct, c, s)
  }

  /** The one code whose symbols are spread like this. */
  lemma CodeSpread(counts: seq<int>, tableLog: nat, symbols: seq<nat>) returns (c: Code)
    requires 4 <= tableLog <= MAX_TABLELOG && Normalized(counts, tableLog) && Spread(counts, tableLog, symbols)
    ensures ValidCode(c) && c.counts == counts && c.tableLog == tableLog && Symbols(c.cells) == symbols
    ensures |c.cells| == Pow2(tableLog)
  {
    SpreadSize(counts, tableLog, symbols);
    hide Spread, Pow2, HighBit, Shl, Normalized;
    forall u | 0 <= u < |symbols|
      ensures CellFits(counts, tableLog, symbols, u)
    {
      SubState(counts, tableLog, symbols, u);
    }
    var cells := seq(|symbols|, u requires 0 <= u < |symbols| && CellFits(counts, tableLog, symbols, u) =>
                                  CellAt(counts, tableLog, symbols, u));
    assert Symbols(cells) == symbols;
    c := Code(counts, tableLog, cells);
  }

  /** The sub-state of cell u has room in the table. */
  ghost predicate CellFits(counts: seq<int>, tableLog: nat, symbols: seq<nat>, u: nat)
  {
    && u < |symbols| && symbols[u] < |counts|
    && var next := Weight(counts[symbols[u]]) + Rank(symbols, u);
    0 < next && HighBit(next) <= tableLog && Pow2(tableLog) <= Shl(next, tableLog - HighBit(next))
  }

  ghost function CellAt(counts: seq<int>, tableLog: nat, symbols: seq<nat>, u: nat): Entry
    requires CellFits(counts, tableLog, symbols, u)
  {
    var next := Weight(counts[symbols[u]]) + Rank(symbols, u);
    var nbBits := tableLog - HighBit(next);
    Entry(Shl(next, nbBits) - Pow2(tableLog), symbols[u], nbBits)
  }

  lemma BuiltWhole(ct: CTable, c: Code)
    requires ValidCode(c) && ct.tableLog == c.tableLog && |ct.symbolTT| == |c.counts|
    requires Sorted(ct.stateTable, c.counts, Symbols(c.cells), |c.cells|)
    requires TransformsFor(ct.symbolTT, c.counts, c.tableLog, |c.counts|)
    ensures Complements(ct, c)
  {
    hide ValidCode, Inverse, OpensAt, Sorted, WeightSum, Weight, TransformFor;
    BuiltIsInverse(ct, c);
    forall s | 0 <= s < |c.counts| && c.counts[s] != 0
      ensures OpensAt(ct, c, s)
    {
      BuiltOpens(ct, c, s);
    }
  }

  /** The start of each symbol's slots, and the low-probability symbols in the last cells. Of
      the cells only the symbols are used. */
  method StartPositions(cumul: array<U16>, tableSymbol: array<Entry>, counts: seq<int>, tableLog: nat)
    returns (highThreshold: nat)
    requires tableLog <= MAX_TABLELOG && Normalized(counts, tableLog)
    requires tableSymbol.Length == Pow2(tableLog) <= 4096 && cumul.Length == |counts| + 1
    modifies cumul, tableSymbol
    ensures highThreshold == Wrap32(HighThreshold(counts, tableLog))
    ensures Reserved(Lows(counts), Symbols(tableSymbol[..]))
    ensures Started(counts, cumul[..], [])
  {
    hide Pow2, Lows, WeightSum, Reserved, Dec32, Wrap32, Symbols, Normalized;
    var tableSize := Pow2(tableLog);
    highThreshold := tableSize - 1;
    NoCounts(counts, Symbols(tableSymbol[..]));
    Dec32Wraps(tableSize - 1);
    cumul[0] := 0;
    for u := 1 to |counts| + 1
      invariant highThreshold == Wrap32(tableSize - 1 - |Lows(counts[..u - 1])|)
      invariant |Lows(counts[..u - 1])| <= WeightSum(counts[..u - 1]) <= tableSize
      invariant Reserved(Lows(counts[..u - 1]), Symbols(tableSymbol[..]))
      invariant forall t :: 0 <= t < u ==> cumul[t] == WeightSum(counts[..t])
    {
      NextStart(counts, tableLog, u - 1);
      if counts[u - 1] == -1 {
        cumul[u] := cumul[u - 1] + 1;
        highThreshold := ReserveCell(tableSymbol, highThreshold, u - 1, Lows(counts[..u - 1]));
      } else {
        cumul[u] := cumul[u - 1] + counts[u - 1];
      }
    }
    assert counts[..|counts|] == counts;
    cumul[|counts|] := tableSize + 1;
  }

  lemma NextStart(counts: seq<int>, tableLog: nat, s: nat)
    requires Normalized(counts, tableLog) && s < |counts| && |Lows(counts[..s])| <= WeightSum(counts[..s])
    ensures counts[s] >= -1
    ensures WeightSum(counts[..s + 1]) == WeightSum(counts[..s]) + (if counts[s] == -1 then 1 else counts[s])
    ensures |Lows(counts[..s + 1])| <= WeightSum(counts[..s + 1]) <= Pow2(tableLog)
    ensures Lows(counts[..s + 1]) == if counts[s] == -1 then Lows(counts[..s]) + [s] else Lows(counts[..s])
  {
    hide Lows, WeightSum, Pow2;
    SumMono(counts, s + 1);
    PrefixStep(counts, s);
  }

  /** Each symbol's next slot, once the cells with these symbols have been placed. */
  ghost predicate Started(counts: seq<int>, next: seq<nat>, seen: seq<nat>)
  {
    && |next| == |counts| + 1
    && forall s :: 0 <= s < |counts| ==> next[s] == WeightSum(counts[..s]) + multiset(seen)[s]
  }

  lemma StartedStep(counts: seq<int>, symbols: seq<nat>, u: nat, next: seq<nat>)
    requires u < |symbols| && symbols[u] < |counts| && Started(counts, next, symbols[..u])
    ensures symbols[u] < |next| && next[symbols[u]] == Slot(counts, symbols, u)
    ensures Started(counts, next[symbols[u] := next[symbols[u]] + 1], symbols[..u + 1])
  {
    assert symbols[..u + 1] == symbols[..u] + [symbols[u]];
  }

  /** Spreads the symbols over the cells, on either path. */
  method SpreadSymbols(tableSymbol: array<Entry>, counts: seq<int>, tableLog: nat, highThreshold: nat)
    requires 4 <= tableLog <= MAX_TABLELOG && Normalized(counts, tableLog) && |counts| <= MAX_SYMBOL_VALUE + 1
    requires tableSymbol.Length == Pow2(tableLog) <= 4096
    requires highThreshold == Wrap32(HighThreshold(counts, tableLog))
    requires Reserved(Lows(counts), Symbols(tableSymbol[..]))
    modifies tableSymbol
    ensures Spread(counts, tableLog, Symbols(tableSymbol[..]))
  {
    hide Pow2, Lows, Layout, Spread, Reserved, Symbols, WeightSum;
    LengthsSum(counts);
    var tableSize := Pow2(tableLog);
    if highThreshold == tableSize - 1 {
      var spread := new U8[tableSize + 8];
      LayInOrder(spread, counts, tableLog);
      DealUnrolled(tableSymbol, spread, counts, tableLog);
    } else {
      var position := DealDirectly(tableSymbol, counts, tableLog, highThreshold);
      assert position == 0;
    }
  }

  /** The next state values, sorted by symbol: cell u's goes into its slot. */
  method SortStates(stateTable: array<U16>, cumul: array<U16>, tableSymbol: array<Entry>, counts: seq<int>, tableLog: nat)
    requires 4 <= tableLog <= MAX_TABLELOG && Normalized(counts, tableLog)
    requires stateTable.Length == tableSymbol.Length == Pow2(tableLog) <= 4096
    requires Spread(counts, tableLog, Symbols(tableSymbol[..])) && Started(counts, cumul[..], [])
    requires stateTable != cumul
    modifies stateTable, cumul
    ensures Sorted(stateTable[..], counts, Symbols(tableSymbol[..]), stateTable.Length)
  {
    hide Pow2, Spread, Symbols, Normalized, Started, Sorted, Slot, WeightSum;
    var tableSize := stateTable.Length;
    ghost var symbols := Symbols(tableSymbol[..]);
    SymbolsLength(tableSymbol[..]);
    NothingSorted(stateTable[..], counts, symbols);
    assert symbols[..0] == [];
    for u := 0 to tableSize
      invariant Started(counts, cumul[..], symbols[..u])
      invariant Sorted(stateTable[..], counts, symbols, u)
    {
      SymbolsAt(tableSymbol[..], u);
      SlotInside(counts, tableLog, symbols, u);
      StartedStep(counts, symbols, u, cumul[..]);
      var s := tableSymbol[u].symbol;
      SortedStep(stateTable[..], counts, tableLog, symbols, u);
      ghost var states: seq<nat>, next: seq<nat> := stateTable[..], cumul[..];
      stateTable[cumul[s]] := tableSize + u;
      assert stateTable[..] == states[next[s] := tableSize + u];
      cumul[s] := cumul[s] + 1;
      assert cumul[..] == next[s := next[s] + 1];
    }
  }

  lemma NothingSorted(table: seq<nat>, counts: seq<int>, symbols: seq<nat>)
    ensures Sorted(table, counts, symbols, 0)
  {
  }

  lemma SortedStep(table: seq<nat>, counts: seq<int>, tableLog: nat, symbols: seq<nat>, u: nat)
    requires tableLog >= 4 && Normalized(counts, tableLog) && Spread(counts, tableLog, symbols)
    requires u < |symbols| == |table| == Pow2(tableLog) && Sorted(table, counts, symbols, u)
    ensures symbols[u] < |counts| && 0 <= Slot(counts, symbols, u) < |table|
    ensures Sorted(table[Slot(counts, symbols, u) := |symbols| + u], counts, symbols, u + 1)
  {
    hide Spread, Normalized, Pow2, Slot, WeightSum;
    SlotInside(counts, tableLog, symbols, u);
    forall v | 0 <= v < u
      ensures Slot(counts, symbols, v) != Slot(counts, symbols, u)
    {
      SlotsDistinct(counts, tableLog, symbols, v, u);
    }
  }

  ghost predicate TransformsFor(symbolTT: seq<SymbolTransform>, counts: seq<int>, tableLog: nat, n: nat)
  {
    && n <= |counts| == |symbolTT|
    && forall s :: 0 <= s < n && counts[s] != 0 ==>
                     TransformFor(symbolTT[s], Weight(counts[s]), tableLog, WeightSum(counts[..s]))
  }

  /** The symbol transformation table. */
  method BuildTransforms(symbolTT: array<SymbolTransform>, counts: seq<int>, tableLog: nat)
    requires 4 <= tableLog <= MAX_TABLELOG && Normalized(counts, tableLog) && symbolTT.Length == |counts|
    modifies symbolTT
    ensures TransformsFor(symbolTT[..], counts, tableLog, |counts|)
  {
    hide Pow2, WeightSum, TransformsFor, TransformFor;
    var total := 0;
    NoTransforms(symbolTT[..], counts, tableLog);
    for s := 0 to |counts|
      invariant total == WeightSum(counts[..s])
      invariant TransformsFor(symbolTT[..], counts, tableLog, s)
    {
      SumMono(counts, s);
      PrefixStep(counts, s);
      ghost var before := symbolTT[..];
      symbolTT[s], total := Transformed(symbolTT[s], counts[s], tableLog, total);
      OneTransform(before, counts, tableLog, s, symbolTT[s]);
      assert symbolTT[..] == before[s := symbolTT[s]];
    }
  }

  /** One entry of it. A symbol without cells gets a number of bits beyond any real one, and
      keeps whatever deltaFindState was there. */
  method Transformed(t0: SymbolTransform, count: int, tableLog: nat, total0: nat) returns (t: SymbolTransform, total: nat)
    requires 4 <= tableLog <= MAX_TABLELOG && -1 <= count <= Pow2(tableLog)
    ensures count != 0 ==> TransformFor(t, Weight(count), tableLog, total0)
    ensures count == 0 ==> t.deltaFindState == t0.deltaFindState && t.deltaNbBits > tableLog * 0x1_0000
    ensures total == total0 + Weight(count)
  {
    SmallTable(tableLog);
    hide Pow2, TransformFor, Shl, HighBit;
    t, total := t0, total0;
    if count == 0 {
      t := t.(deltaNbBits := (tableLog + 1) * 0x1_0000 - Pow2(tableLog));
    } else if count == -1 || count == 1 {
      t := SymbolTransform(total - 1, tableLog * 0x1_0000 - Pow2(tableLog));
      TransformOfOne(t, tableLog, total);
      total := total + 1;
    } else {
      TransformFits(count, tableLog);
      var maxBitsOut := tableLog - HighBit(count - 1);
      t := SymbolTransform(total - count, maxBitsOut * 0x1_0000 - Shl(count, maxBitsOut));
      TransformOfMany(t, count, tableLog, total);
      total := total + count;
    }
  }

  lemma NoTransforms(symbolTT: seq<SymbolTransform>, counts: seq<int>, tableLog: nat)
    requires |symbolTT| == |counts|
    ensures TransformsFor(symbolTT, counts, tableLog, 0) && WeightSum(counts[..0]) == 0
  {
  }

  lemma OneTransform(symbolTT: seq<SymbolTransform>, counts: seq<int>, tableLog: nat, s: nat, t: SymbolTransform)
    requires s < |counts| && TransformsFor(symbolTT, counts, tableLog, s)
    requires counts[s] != 0 ==> TransformFor(t, Weight(counts[s]), tableLog, WeightSum(counts[..s]))
    ensures TransformsFor(symbolTT[s := t], counts, tableLog, s + 1)
  {
    hide TransformFor, WeightSum, Weight;
  }

  lemma TransformOfOne(t: SymbolTransform, tableLog: nat, start: int)
    requires Pow2(tableLog) > 0 && t.deltaFindState == start - 1
    requires t.deltaNbBits == tableLog * 0x1_0000 - Pow2(tableLog)
    ensures TransformFor(t, 1, tableLog, start)
  {
  }

  lemma TransformFits(n: nat, tableLog: nat)
    requires 2 <= n <= Pow2(tableLog) && 4 <= tableLog <= 12
    ensures HighBit(n - 1) <= tableLog
    ensures 0 <= (tableLog - HighBit(n - 1)) * 0x1_0000 - Shl(n, tableLog - HighBit(n - 1))
  {
    hide Pow2, Shl, HighBit, OutBits;
    SmallTable(tableLog);
    HighBitBelow(n - 1, tableLog);
    BitsOut(n, tableLog, Pow2(tableLog));
  }

  lemma TransformOfMany(t: SymbolTransform, n: nat, tableLog: nat, start: int)
    requires 2 <= n <= Pow2(tableLog) && HighBit(n - 1) <= tableLog && t.deltaFindState == start - n
    requires var max := tableLog - HighBit(n - 1); t.deltaNbBits == max * 0x1_0000 - Shl(n, max)
    ensures TransformFor(t, n, tableLog, start)
  {
    hide Pow2, Shl, HighBit;
  }
}

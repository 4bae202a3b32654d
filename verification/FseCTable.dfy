/** The layout of a compression table, and that it inverts the decoding table: the states of a
    symbol lie together, and one addition and one shift give the number of bits to send. */
module FseCTable {
  import opened Bits
  import opened FseCounts
  import opened FseTable
  import opened Tans
  import opened FseCoder

  /** Where the table keeps the state of cell u: the symbols in order, each symbol's cells by rank. */
  ghost function Slot(counts: seq<int>, symbols: seq<nat>, u: nat): int
    requires u < |symbols| && symbols[u] < |counts|
  {
    WeightSum(counts[..symbols[u]]) + Rank(symbols, u)
  }

  predicate At(table: seq<nat>, i: int, x: nat)
  {
    0 <= i < |table| && table[i] == x
  }

  /** The states of the first n cells stand in their slots. */
  ghost predicate Sorted(table: seq<nat>, counts: seq<int>, symbols: seq<nat>, n: nat)
  {
    && n <= |symbols|
    && forall u :: 0 <= u < n ==> symbols[u] < |counts| && At(table, Slot(counts, symbols, u), |symbols| + u)
  }

  /** A symbol's slots lie between those of its neighbours. */
  lemma SlotInside(counts: seq<int>, tableLog: nat, symbols: seq<nat>, u: nat)
    requires tableLog >= 4 && Normalized(counts, tableLog) && Spread(counts, tableLog, symbols)
    requires u < |symbols|
    ensures symbols[u] < |counts|
    ensures var s := symbols[u];
            0 <= WeightSum(counts[..s]) <= Slot(counts, symbols, u) < WeightSum(counts[..s]) + Weight(counts[s])
    ensures Slot(counts, symbols, u) < Pow2(tableLog)
  {
    hide Spread, WeightSum, Pow2, HighBit, Shl;
    SubState(counts, tableLog, symbols, u);
    SumMono(counts, symbols[u]);
  }

  /** No two cells share a slot. */
  lemma SlotsDistinct(counts: seq<int>, tableLog: nat, symbols: seq<nat>, u: nat, v: nat)
    requires tableLog >= 4 && Normalized(counts, tableLog) && Spread(counts, tableLog, symbols)
    requires u < v < |symbols|
    ensures symbols[u] < |counts| && symbols[v] < |counts|
    ensures Slot(counts, symbols, u) != Slot(counts, symbols, v)
  {
    SlotInside(counts, tableLog, symbols, u);
    SlotInside(counts, tableLog, symbols, v);
    hide Spread, WeightSum, Pow2;
    if symbols[u] == symbols[v] {
      RankDistinct(symbols, u, v);
    } else if symbols[u] < symbols[v] {
      PrefixesOrdered(counts, symbols[u], symbols[v]);
    } else {
      PrefixesOrdered(counts, symbols[v], symbols[u]);
    }
  }

  /** The largest number of bits a symbol of weight n sends. */
  function MaxBitsOut(n: nat, tableLog: nat): nat
    requires 0 < n <= Pow2(tableLog)
  {
    if n == 1 then tableLog else
      HighBitBelow(n - 1, tableLog);
      tableLog - HighBit(n - 1)
  }

  lemma ShiftCompare(x: nat, n: nat, k: nat)
    ensures Shl(n, k) <= x <==> n <= Shr(x, k)
  {
    hide Shl, Shr, Low;
    Split(x, k);
    if n <= Shr(x, k) {
      ShlMono(n, Shr(x, k), k);
    } else {
      ShlMono(Shr(x, k) + 1, n, k);
      ShlAdd(Shr(x, k), 1, k);
    }
  }

  lemma TwiceIsShift(n: nat)
    ensures Shl(n, 1) == 2 * n
  {
    ShlDouble(n, 0);
  }

  /** State values from n << max on send max bits, smaller ones send one bit less. */
  lemma BitsOut(n: nat, tableLog: nat, x: nat)
    requires 0 < n <= Pow2(tableLog) <= x < 2 * Pow2(tableLog) && tableLog >= 1
    ensures var max := MaxBitsOut(n, tableLog);
            && 1 <= max <= tableLog && Shl(n, max) <= 2 * Pow2(tableLog)
            && OutBits(n, x) == max - (if x >= Shl(n, max) then 0 else 1)
  {
    hide Shl, Shr, OutBits, HighBit;
    var max := MaxBitsOut(n, tableLog);
    DoublePow(tableLog);
    if n == 1 {
      ShiftCompare(x, 1, tableLog);
      ShiftCompare(x, 2, tableLog);
      ShlDouble(1, tableLog);
      OutBitsUnique(1, x, tableLog);
    } else {
      HighBitBelow(n - 1, tableLog);
      HighBitSpec(n - 1);
      var h := HighBit(n - 1);
      DoublePow(h);
      Pow2Add(h + 1, max);
      ShlMono(Pow2(h + 1), 2 * n, max);
      ShiftCompare(x, 2 * n, max);
      ShlMono(n, Pow2(h + 1), max);
      ShiftCompare(x, n, max);
      if x >= Shl(n, max) {
        OutBitsUnique(n, x, max);
      } else {
        ShlDouble(n, max - 1);
        ShlShl(n, 1, max - 1);
        assert Shl(n, 1) == 2 * n by { TwiceIsShift(n); }
        ShiftCompare(x, 2 * n, max - 1);
        Pow2Add(h + 1, max - 1);
        ShlMono(n, Pow2(h + 1), max - 1);
        ShiftCompare(x, n, max - 1);
        OutBitsUnique(n, x, max - 1);
      }
    }
  }

  /** One addition and one shift by 16 find that number, and one more addition the slot. */
  ghost predicate TransformFor(t: SymbolTransform, n: int, tableLog: nat, start: int)
  {
    && 0 < n <= Pow2(tableLog)
    && var max := MaxBitsOut(n, tableLog);
    t.deltaFindState == start - n && t.deltaNbBits == max * 0x1_0000 - Shl(n, max)
  }

  lemma TransformCounts(t: SymbolTransform, n: nat, tableLog: nat, start: int, x: nat)
    requires 4 <= tableLog <= 12 && Pow2(tableLog) <= x < 2 * Pow2(tableLog) && TransformFor(t, n, tableLog, start)
    ensures 0 < n <= x && (x + t.deltaNbBits) / 0x1_0000 == OutBits(n, x)
  {
    hide Shl, Pow2, OutBits, MaxBitsOut;
    BitsOut(n, tableLog, x);
    SmallTable(tableLog);
    var max := MaxBitsOut(n, tableLog);
    assert 1 <= max && x < 0x1_0000 && Shl(n, max) < 0x1_0000;
  }

  /** What FSE_buildCTable_wksp makes of a code. */
  ghost predicate BuiltFor(ct: CTable, c: Code)
  {
    && ct.tableLog == c.tableLog && |ct.symbolTT| == |c.counts|
    && Sorted(ct.stateTable, c.counts, Symbols(c.cells), |c.cells|)
    && forall s :: 0 <= s < |c.counts| && c.counts[s] != 0 ==>
                     TransformFor(ct.symbolTT[s], Weight(c.counts[s]), c.tableLog, WeightSum(c.counts[..s]))
  }

  lemma TransformOfSymbol(ct: CTable, c: Code, s: nat)
    requires BuiltFor(ct, c) && s < |c.counts| && c.counts[s] != 0
    ensures s < |ct.symbolTT|
    ensures TransformFor(ct.symbolTT[s], Weight(c.counts[s]), c.tableLog, WeightSum(c.counts[..s]))
    ensures 0 < Weight(c.counts[s])
    ensures ct.symbolTT[s].deltaFindState == WeightSum(c.counts[..s]) - Weight(c.counts[s])
  {
    hide Pow2, Sorted, WeightSum, Weight;
  }

  /** The cell of each rank is found where the transform leads. */
  lemma StateInSlot(ct: CTable, c: Code, s: nat, r: nat)
    requires ValidCode(c) && BuiltFor(ct, c) && s < |c.counts| && r < Weight(c.counts[s])
    ensures r < multiset(Symbols(c.cells))[s]
    ensures var u := CellOf(Symbols(c.cells), s, r);
            && u < |c.cells| && c.cells[u].symbol == s && Rank(Symbols(c.cells), u) == r
            && At(ct.stateTable, WeightSum(c.counts[..s]) + r, Size(c) + u)
  {
    hide *;
    SymbolCells(c, s);
    CellTotal(c);
    var u := CellOf(Symbols(c.cells), s, r);
    CellSymbols(c.cells, u);
    BuiltSlot(ct, c, u);
  }

  lemma BuiltSlot(ct: CTable, c: Code, u: nat)
    requires BuiltFor(ct, c) && u < |c.cells|
    ensures u < |Symbols(c.cells)| == |c.cells| && Symbols(c.cells)[u] < |c.counts|
    ensures At(ct.stateTable, WeightSum(c.counts[..Symbols(c.cells)[u]]) + Rank(Symbols(c.cells), u), |c.cells| + u)
  {
    hide At, TransformFor, Rank, WeightSum, Weight;
  }

  /** A built table inverts the decoding table of the same counts. */
  lemma BuiltIsInverse(ct: CTable, c: Code)
    requires ValidCode(c) && BuiltFor(ct, c)
    ensures Inverse(ct, c)
  {
    hide InverseAt, ValidCode, TransformFor, Sorted, WeightSum, Size;
    forall s, x | 0 <= s < |c.counts| && c.counts[s] != 0 && Size(c) <= x < 2 * Size(c)
      ensures InverseAt(ct, c, s, x)
    {
      InverseThere(ct, c, s, x);
    }
  }

  lemma InverseThere(ct: CTable, c: Code, s: nat, x: nat)
    requires ValidCode(c) && BuiltFor(ct, c)
    requires s < |c.counts| && c.counts[s] != 0 && Size(c) <= x < 2 * Size(c)
    ensures InverseAt(ct, c, s, x)
  {
    hide Shr, Pow2, OutBits, ValidCode, BuiltFor, TransformFor, WeightSum, Weight, CellOf, Symbols, Rank;
    TableLogSmall(c);
    var n, start := Weight(c.counts[s]), WeightSum(c.counts[..s]);
    TransformOfSymbol(ct, c, s);
    TransformCounts(ct.symbolTT[s], n, c.tableLog, start, x);
    OutBitsSpec(n, x);
    StateInSlot(ct, c, s, Shr(x, OutBits(n, x)) - n);
  }

  lemma SymbolCells(c: Code, s: nat)
    requires ValidCode(c) && s < |c.counts|
    ensures multiset(Symbols(c.cells))[s] == Weight(c.counts[s])
  {
    SpreadCount(c.counts, c.tableLog, Symbols(c.cells), s);
  }

  lemma CellSymbols(cells: seq<Entry>, u: nat)
    requires u < |Symbols(cells)|
    ensures u < |cells| && Symbols(cells)[u] == cells[u].symbol
  {
  }

  /** FSE_initCState2 on a built table enters the symbol's first cell. */
  lemma BuiltOpens(ct: CTable, c: Code, s: nat)
    requires ValidCode(c) && BuiltFor(ct, c) && s < |c.counts| && c.counts[s] != 0
    ensures OpensAt(ct, c, s)
  {
    hide Shl, Shr, Pow2, ValidCode, BuiltFor, TransformFor, WeightSum, Weight, CellOf, Symbols, Rank;
    TableLogSmall(c);
    var n, start := Weight(c.counts[s]), WeightSum(c.counts[..s]);
    TransformOfSymbol(ct, c, s);
    TransformOpens(ct.symbolTT[s], n, c.tableLog, start);
    var max := OpeningBits(ct, s);
    ZeroBelow(max);
    SplitUnique(0, n, max);
    StateInSlot(ct, c, s, 0);
  }

  lemma ZeroBelow(n: nat)
    ensures 0 < Pow2(n)
  {
  }

  lemma TransformOpens(t: SymbolTransform, n: nat, tableLog: nat, start: int)
    requires 4 <= tableLog <= 12 && TransformFor(t, n, tableLog, start)
    ensures var max := (t.deltaNbBits + 0x8000) / 0x1_0000;
            max * 0x1_0000 - t.deltaNbBits == Shl(n, max)
  {
    hide Shl, Pow2, OutBits, MaxBitsOut;
    BitsOut(n, tableLog, Pow2(tableLog));
    SmallTable(tableLog);
    ShlPositive(n, MaxBitsOut(n, tableLog));
    Rounded(MaxBitsOut(n, tableLog), Shl(n, MaxBitsOut(n, tableLog)));
  }

  lemma SmallTable(tableLog: nat)
    requires tableLog <= 12
    ensures 0 < Pow2(tableLog) <= 4096
  {
    Pow2Mono(tableLog, 12);
    Pow2Values();
  }

  lemma Rounded(max: nat, low: nat)
    requires max >= 1 && low < 0x8000
    ensures 0 <= max * 0x1_0000 - low && (max * 0x1_0000 - low + 0x8000) / 0x1_0000 == max
  {
  }

  lemma {:induction false} ShlPositive(x: nat, n: nat)
    requires x > 0
    ensures Shl(x, n) > 0
  {
    if n > 0 {
      ShlPositive(x, n - 1);
    }
  }
}

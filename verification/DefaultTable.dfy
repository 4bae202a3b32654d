/** The decoding table that the block decoder carries ready-made for offset codes is the one
    table that the builders make of the default distribution of offset codes. */
module DefaultTable {
  import opened Bits
  import opened SpreadWalk
  import opened FseCounts
  import opened FseTable
  import opened Tans
  import opened FseFormat

  /** OF_defaultNorm, for table log 5. */
  const OF_NORM: seq<int> := [
    1, 1, 1, 1, 1, 1, 2, 2, 2, 1, 1, 1, 1, 1, 1, 1,
    1, 1, 1, 1, 1, 1, 1, 1, -1, -1, -1, -1, -1]

  /** OF_defaultDTable: newState, symbol and nbBits of each cell. */
  const OF_TABLE: seq<Entry> := [
    Entry(0, 0, 5), Entry(0, 6, 4), Entry(0, 9, 5), Entry(0, 15, 5),
    Entry(0, 21, 5), Entry(0, 3, 5), Entry(0, 7, 4), Entry(0, 12, 5),
    Entry(0, 18, 5), Entry(0, 23, 5), Entry(0, 5, 5), Entry(0, 8, 4),
    Entry(0, 14, 5), Entry(0, 20, 5), Entry(0, 2, 5), Entry(16, 7, 4),
    Entry(0, 11, 5), Entry(0, 17, 5), Entry(0, 22, 5), Entry(0, 4, 5),
    Entry(16, 8, 4), Entry(0, 13, 5), Entry(0, 19, 5), Entry(0, 1, 5),
    Entry(16, 6, 4), Entry(0, 10, 5), Entry(0, 16, 5), Entry(0, 28, 5),
    Entry(0, 27, 5), Entry(0, 26, 5), Entry(0, 25, 5), Entry(0, 24, 5)]

  /** Its cells, by symbol. */
  const OF_CELLS: seq<nat> := [
    0, 23, 14, 5, 19, 10, 1, 24, 6, 15, 11, 20, 2, 25, 16, 7,
    21, 12, 3, 26, 17, 8, 22, 13, 4, 18, 9, 31, 30, 29, 28, 27]

  lemma Sizes()
    ensures Pow2(4) == 16 && Pow2(5) == 32 && TableStep(32) == 23
  {
    Pow2Values();
  }

  // The distribution.

  /** The sum of the counts before symbol s. */
  function Start(s: nat): nat
  {
    if s <= 6 then s else if s <= 9 then 2 * s - 6 else s + 3
  }

  /** Symbols 0 to 23 have one cell each, but two for 6, 7 and 8; then come five of low
      probability. */
  ghost predicate OffsetCounts(counts: seq<int>)
  {
    && |counts| == 29
    && forall s :: 0 <= s < 29 ==> counts[s] == if s >= 24 then -1 else if 6 <= s <= 8 then 2 else 1
  }

  lemma {:induction false} Sums(counts: seq<int>, s: nat)
    requires OffsetCounts(counts) && s <= 29
    ensures WeightSum(counts[..s]) == Start(s)
    ensures |Layout(counts[..s])| == if s <= 24 then Start(s) else 27
    ensures |Lows(counts[..s])| == if s <= 24 then 0 else s - 24
    ensures forall i :: 0 <= i < |Lows(counts[..s])| ==> Lows(counts[..s])[i] == 24 + i
  {
    NothingLaid(counts);
    hide WeightSum, Layout, Lows;
    if s > 0 {
      Sums(counts, s - 1);
      PrefixStep(counts, s - 1);
    }
  }

  lemma NothingLaid(counts: seq<int>)
    ensures WeightSum(counts[..0]) == 0 && Layout(counts[..0]) == [] && Lows(counts[..0]) == []
  {
  }

  lemma Distribution()
    ensures OffsetCounts(OF_NORM) && Normalized(OF_NORM, 5) && HighThreshold(OF_NORM, 5) == 26
    ensures |Lows(OF_NORM)| == 5 && forall i :: 0 <= i < 5 ==> Lows(OF_NORM)[i] == 24 + i
  {
    hide WeightSum, Layout, Lows, Pow2;
    assert OffsetCounts(OF_NORM);
    Sums(OF_NORM, 29);
    assert OF_NORM[..29] == OF_NORM;
    Sizes();
  }

  // The walk.

  lemma WalkAt(j: nat)
    ensures Walk(5, j) == j * 23 % 32
  {
    WalkIsProduct(5, j);
    Sizes();
  }

  /** The walk meets the five reserved cells at these steps. */
  predicate Skipped(j: nat)
  {
    j == 4 || j == 11 || j == 18 || j == 25 || j == 29
  }

  lemma Skips(j: nat)
    requires j < 32
    ensures Walk(5, j) > 26 <==> Skipped(j)
  {
    hide Walk, Pow2;
    Sizes();
    forall i: nat | i < 32 && i != j && Skipped(i)
      ensures Walk(5, i) != Walk(5, j)
    {
      if i < j { WalkInjective(5, i, j); } else { WalkInjective(5, j, i); }
    }
    WalkAt(4);
    WalkAt(11);
    WalkAt(18);
    WalkAt(25);
    WalkAt(29);
    assert Walk(5, j) < Pow2(5);
  }

  /** How many symbols have been dealt before step j. */
  function Taken(j: int): int
  {
    if j <= 4 then j else if j <= 11 then j - 1 else if j <= 18 then j - 2 else if j <= 25 then j - 3
    else if j <= 29 then j - 4 else j - 5
  }

  lemma {:induction false} VisitsBefore(j: nat)
    requires j <= 32
    ensures |Visits(5, 26, j)| == Taken(j)
  {
    hide Walk;
    if j > 0 {
      VisitsBefore(j - 1);
      Skips(j - 1);
    }
  }

  /** The step at which the walk meets cell u: 7 * u modulo 32. */
  function StepTo(u: nat): int
  {
    7 * u - 32 * Rounds(u)
  }

  function Rounds(u: nat): nat
  {
    if u < 5 then 0 else if u < 10 then 1 else if u < 14 then 2 else if u < 19 then 3
    else if u < 23 then 4 else if u < 28 then 5 else 6
  }

  lemma Meets(u: nat)
    requires u < 32
    ensures 0 <= StepTo(u) < 32 && Walk(5, StepTo(u)) == u
  {
    var c := Rounds(u);
    WalkAt(7 * u - 32 * c);
    hide Walk, Rounds;
    RemainderUnique((7 * u - 32 * c) * 23, 32, 5 * u - 23 * c, u);
  }

  // The table.

  /** What is to be checked of cell u: its symbol is the one dealt there, or the reserved one. */
  predicate SymbolRight(table: seq<Entry>, u: nat)
    requires u < |table|
  {
    var s := table[u].symbol;
    if u > 26 then s == 55 - u else s < 24 && Start(s) <= Taken(StepTo(u)) < Start(s + 1)
  }

  /** And of slot i of the list: it is a cell of the symbol whose turn it is, further up than the
      one before, and its transition is that of the sub-state. */
  predicate SlotRight(table: seq<Entry>, order: seq<nat>, i: nat)
    requires i < |order|
  {
    && order[i] < |table|
    && var e := table[order[i]];
    && e.symbol < 29 && Start(e.symbol) <= i < Start(e.symbol + 1)
    && (i > Start(e.symbol) ==> order[i - 1] < order[i])
    && var x := (if 6 <= e.symbol <= 8 then 2 else 1) + i - Start(e.symbol);
    && e.newState + 32 == x * (if e.nbBits == 4 then 16 else 32) && 4 <= e.nbBits <= 5 && e.newState < 32
  }

  lemma SymbolsBelow(i: nat)
    requires i < 16
    ensures |OF_TABLE| == 32 && SymbolRight(OF_TABLE, i)
  {
  }

  lemma SymbolsAbove(i: nat)
    requires 16 <= i < 32
    ensures |OF_TABLE| == 32 && SymbolRight(OF_TABLE, i)
  {
  }

  lemma SlotsBelow(i: nat)
    requires i < 8
    ensures |OF_CELLS| == 32 && SlotRight(OF_TABLE, OF_CELLS, i)
  {
  }

  lemma SlotsBetween(i: nat)
    requires 8 <= i < 16
    ensures |OF_CELLS| == 32 && SlotRight(OF_TABLE, OF_CELLS, i)
  {
  }

  lemma SlotsAbove(i: nat)
    requires 16 <= i < 32
    ensures |OF_CELLS| == 32 && SlotRight(OF_TABLE, OF_CELLS, i)
  {
  }

  /** The place of a symbol in the layout, from its two ends. */
  lemma PlaceOf(counts: seq<int>, s: nat, k: nat)
    requires s < |counts| && |Layout(counts[..s])| <= k < |Layout(counts[..s + 1])|
    ensures k < |Layout(counts)| && Layout(counts)[k] == s
  {
    PrefixStep(counts, s);
    LayoutPrefix(counts, s + 1);
  }

  lemma SymbolIs(counts: seq<int>, symbols: seq<nat>, table: seq<Entry>, u: nat)
    requires OffsetCounts(counts) && Normalized(counts, 5) && Spread(counts, 5, symbols) && |symbols| == 32
    requires u < 32 == |table| && SymbolRight(table, u)
    ensures symbols[u] == table[u].symbol
  {
    if u <= 26 {
      DealtSymbol(counts, symbols, u, table[u].symbol);
    } else {
      ReservedSymbol(counts, symbols, u);
    }
  }

  lemma Threshold(counts: seq<int>)
    requires OffsetCounts(counts)
    ensures HighThreshold(counts, 5) == 26 && |Lows(counts)| == 5
    ensures forall i :: 0 <= i < 5 ==> Lows(counts)[i] == 24 + i
  {
    hide Lows, Layout, WeightSum, Pow2;
    Sums(counts, 29);
    assert counts[..29] == counts;
    Sizes();
  }

  lemma DealtSymbol(counts: seq<int>, symbols: seq<nat>, u: nat, s: nat)
    requires OffsetCounts(counts) && Normalized(counts, 5) && Spread(counts, 5, symbols) && |symbols| == 32
    requires u <= 26 && s < 24 && Start(s) <= Taken(StepTo(u)) < Start(s + 1)
    ensures symbols[u] == s
  {
    hide Walk, StepTo, Layout, Lows, Visits, Spread, WeightSum, Pow2, Normalized, HighThreshold, Start;
    Threshold(counts);
    Sizes();
    Meets(u);
    var j := StepTo(u);
    DealtAt(counts, 5, symbols, j);
    VisitsBefore(j);
    Sums(counts, s);
    Sums(counts, s + 1);
    PlaceOf(counts, s, Taken(j));
  }

  lemma ReservedSymbol(counts: seq<int>, symbols: seq<nat>, u: nat)
    requires OffsetCounts(counts) && Spread(counts, 5, symbols) && |symbols| == 32 && 26 < u < 32
    ensures symbols[u] == 55 - u
  {
    hide Lows, Dealt, Pow2, Layout;
    Threshold(counts);
    Sizes();
    assert symbols[32 - 1 - (31 - u)] == Lows(counts)[31 - u];
  }

  lemma SlotIs(counts: seq<int>, table: seq<Entry>, order: seq<nat>, i: nat)
    requires OffsetCounts(counts) && |table| == |order| == 32 && i < 32 && SlotRight(table, order, i)
    ensures SlotOk(counts, table, order, i)
  {
    hide WeightSum, Pow2, Layout, Lows;
    Sums(counts, table[order[i]].symbol);
    Sizes();
  }

  /** Any decoding table of the default distribution of offset codes is the ready-made one. */
  lemma OffsetTable(cells: seq<Entry>)
    requires DecodingTable(OF_NORM, 5, cells)
    ensures cells == OF_TABLE
  {
    Distribution();
    hide *;
    Sizes();
    Parts(cells);
    forall u | 0 <= u < 32
      ensures u < |OF_TABLE| && Symbols(cells)[u] == OF_TABLE[u].symbol
    {
      if u < 16 { SymbolsBelow(u); } else { SymbolsAbove(u); }
      SymbolIs(OF_NORM, Symbols(cells), OF_TABLE, u);
    }
    forall i | 0 <= i < 32
      ensures i < |OF_CELLS| && SlotOk(OF_NORM, OF_TABLE, OF_CELLS, i)
    {
      if i < 8 { SlotsBelow(i); } else if i < 16 { SlotsBetween(i); } else { SlotsAbove(i); }
      SymbolsBelow(0);
      SlotIs(OF_NORM, OF_TABLE, OF_CELLS, i);
    }
    SymbolsBelow(0);
    SlotsBelow(0);
    assert Symbols(OF_TABLE) == Symbols(cells);
    Lists(OF_NORM, OF_TABLE, OF_CELLS, cells);
    Recognized(OF_NORM, 5, OF_TABLE, OF_CELLS, cells);
  }

  lemma Parts(cells: seq<Entry>)
    requires DecodingTable(OF_NORM, 5, cells)
    ensures Spread(OF_NORM, 5, Symbols(cells)) && |Symbols(cells)| == |cells| == 32
  {
    hide Spread, Pow2;
    Sizes();
    SpreadSize(OF_NORM, 5, Symbols(cells));
  }

  lemma Lists(counts: seq<int>, table: seq<Entry>, order: seq<nat>, cells: seq<Entry>)
    requires Normalized(counts, 5) && DecodingTable(counts, 5, cells) && |table| == |order| == 32
    requires Symbols(table) == Symbols(cells)
    requires forall i :: 0 <= i < 32 ==> SlotOk(counts, table, order, i)
    ensures Listed(counts, 5, table, order, cells)
  {
    hide SlotOk, DecodingTable, Normalized, Pow2;
    Sizes();
  }

  /** So the builder makes it, with fastMode set as in its header. */
  method BuildOffsetTable() returns (table: array<Entry>, fastMode: bool)
    ensures table[..] == OF_TABLE && fastMode
  {
    Distribution();
    hide *;
    Sizes();
    NormFacts();
    table := new Entry[32](_ => Entry(0, 0, 0));
    var built := BuildDTable(table, OF_NORM, 5, BuildWkspSize(5, 28));
    fastMode := built.fastMode;
    OffsetTable(table[..]);
  }

  lemma NormFacts()
    ensures |OF_NORM| == 29 && SanityError(28, 5, BuildWkspSize(5, 28)) == []
    ensures forall s :: 0 <= s < 29 ==> OF_NORM[s] < Pow2(5 - 1)
  {
    Sizes();
  }
}

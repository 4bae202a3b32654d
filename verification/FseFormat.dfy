/** What a decoding table holds, in numbers: where the symbols stand, and what the cells of each
    symbol do, for all counts. */
module FseFormat {
  import opened Bits
  import opened SpreadWalk
  import opened FseCounts
  import opened Tans

  /** The distance between one symbol laid down and the next, as section 4.1.1 of RFC 8878 gives
      it: half of the table, an eighth of it, and three. */
  lemma StepIs(tableLog: nat)
    requires tableLog >= 3
    ensures TableStep(Pow2(tableLog)) == 5 * Pow2(tableLog - 3) + 3
  {
    DoublePow(tableLog - 1);
    DoublePow(tableLog - 2);
    DoublePow(tableLog - 3);
    hide Pow2;
  }

  lemma {:induction false} NoLows(counts: seq<int>, k: nat)
    requires k <= |counts| && forall s :: 0 <= s < |counts| ==> counts[s] >= 0
    ensures Lows(counts[..k]) == [] && |Layout(counts[..k])| == WeightSum(counts[..k]) >= 0
  {
    if k > 0 {
      NoLows(counts, k - 1);
      PrefixStep(counts, k - 1);
    }
  }

  /** Symbol s fills the places from the sum of the counts before it on. */
  lemma LayoutAt(counts: seq<int>, s: nat, r: nat)
    requires s < |counts| && r < counts[s] && forall t :: 0 <= t < |counts| ==> counts[t] >= 0
    ensures 0 <= WeightSum(counts[..s]) + r < |Layout(counts)|
    ensures Layout(counts)[WeightSum(counts[..s]) + r] == s
  {
    NoLows(counts, s);
    PrefixStep(counts, s);
    LayoutPrefix(counts, s + 1);
  }

  /** Without reserved cells, the k-th symbol laid out stands in cell k * (5 * size / 8 + 3),
      modulo the table size. */
  lemma SymbolAt(counts: seq<int>, tableLog: nat, symbols: seq<nat>, s: nat, r: nat)
    requires tableLog >= 4 && Normalized(counts, tableLog) && Spread(counts, tableLog, symbols)
    requires forall t :: 0 <= t < |counts| ==> counts[t] >= 0
    requires s < |counts| && r < counts[s]
    ensures var u := (WeightSum(counts[..s]) + r) * (5 * Pow2(tableLog - 3) + 3) % Pow2(tableLog);
            0 <= u < |symbols| && symbols[u] == s
  {
    hide Pow2, Layout, Lows, WeightSum, TableStep;
    var size, k := Pow2(tableLog), WeightSum(counts[..s]) + r;
    LayoutAt(counts, s, r);
    NoLows(counts, |counts|);
    assert counts[..|counts|] == counts;
    FullRound(tableLog, size);
    WalkIsProduct(tableLog, k);
    StepIs(tableLog);
  }

  lemma {:induction false} LowsBefore(counts: seq<int>, s: nat)
    requires s < |counts| && counts[s] == -1
    ensures |Lows(counts[..s])| < |Lows(counts)| && Lows(counts)[|Lows(counts[..s])|] == s
  {
    PrefixStep(counts, s);
    LayoutPrefix(counts, s + 1);
  }

  /** Low-probability symbols stand in the last cells, the first of them in the very last. */
  lemma LowSymbolAt(counts: seq<int>, tableLog: nat, symbols: seq<nat>, s: nat)
    requires tableLog >= 4 && Normalized(counts, tableLog) && Spread(counts, tableLog, symbols)
    requires s < |counts| && counts[s] == -1
    ensures var u := Pow2(tableLog) - 1 - |Lows(counts[..s])|;
            0 <= u < |symbols| && symbols[u] == s
  {
    hide Pow2, Layout, Lows, WeightSum, Dealt;
    LowsBefore(counts, s);
    LengthsSum(counts);
  }

  lemma {:induction false} VisitKept(tableLog: nat, high: int, j: nat, n: nat)
    requires j < n && Walk(tableLog, j) <= high
    ensures var v, k := Visits(tableLog, high, n), |Visits(tableLog, high, j)|;
            k < |v| && v[k] == Walk(tableLog, j)
    decreases n
  {
    hide Walk;
    if j < n - 1 {
      VisitKept(tableLog, high, j, n - 1);
    }
  }

  /** With reserved cells too: a step of the walk that ends in a free cell deals the next symbol,
      the one whose place is the number of free cells met before. */
  lemma DealtAt(counts: seq<int>, tableLog: nat, symbols: seq<nat>, j: nat)
    requires tableLog >= 4 && Normalized(counts, tableLog) && Spread(counts, tableLog, symbols)
    requires j < Pow2(tableLog) && Walk(tableLog, j) <= HighThreshold(counts, tableLog)
    ensures var k := |Visits(tableLog, HighThreshold(counts, tableLog), j)|;
            k < |Layout(counts)| && Walk(tableLog, j) < |symbols| && symbols[Walk(tableLog, j)] == Layout(counts)[k]
  {
    hide Layout, Lows, Walk, Visits, Pow2, WeightSum;
    var high := HighThreshold(counts, tableLog);
    VisitKept(tableLog, high, j, Pow2(tableLog));
    LengthsSum(counts);
    VisitsAll(tableLog, high);
  }

  /** A cell's transition: the weight of its symbol plus the number of the symbol's cells before
      it, shifted up until it lies between one and two table sizes. */
  lemma CellIs(counts: seq<int>, tableLog: nat, cells: seq<Entry>, u: nat)
    requires ValidTable(counts, tableLog, cells) && u < |cells|
    ensures cells[u].symbol < |counts|
    ensures var x := Weight(counts[cells[u].symbol]) + multiset(Symbols(cells)[..u])[cells[u].symbol];
            && cells[u].newState + Pow2(tableLog) == x * Pow2(cells[u].nbBits)
            && Pow2(tableLog) <= x * Pow2(cells[u].nbBits) < 2 * Pow2(tableLog)
  {
    hide ValidTable, Pow2, Shl, HighBit, Spread;
    CellFacts(counts, tableLog, cells, u);
    assert Symbols(cells)[u] == cells[u].symbol;
    var x := Weight(counts[cells[u].symbol]) + Rank(Symbols(cells), u);
    ShlTimes(x, cells[u].nbBits);
    HighBitSpec(x);
    ShlMono(x + 1, Pow2(HighBit(x) + 1), cells[u].nbBits);
    ShlAdd(x, 1, cells[u].nbBits);
    Pow2Add(HighBit(x) + 1, cells[u].nbBits);
    DoublePow(tableLog);
  }

  // ------------------------------------------------------------------ recognizing a table

  /** The cell of a symbol's sub-state x. */
  predicate IsCell(e: Entry, size: nat, x: nat)
  {
    e.newState + size == x * Pow2(e.nbBits) && size <= e.newState + size < 2 * size
  }

  /** Only one shift takes x to where it must be. */
  lemma CellUnique(a: Entry, b: Entry, size: nat, x: nat)
    requires IsCell(a, size, x) && IsCell(b, size, x) && a.symbol == b.symbol
    ensures a == b
  {
    if a.nbBits < b.nbBits {
      Larger(x, a.nbBits, b.nbBits);
    } else if b.nbBits < a.nbBits {
      Larger(x, b.nbBits, a.nbBits);
    }
  }

  lemma Larger(x: nat, m: nat, n: nat)
    requires m < n
    ensures 2 * (x * Pow2(m)) <= x * Pow2(n)
  {
    Pow2Mono(m, n);
    assert x * Pow2(n) == x * (2 * Pow2(m)) + x * (Pow2(n) - 2 * Pow2(m));
  }

  /** `order` lists the cells of the table by symbol, the cells of a symbol upward, and slot i
      says what the cell there does. */
  ghost predicate SlotOk(counts: seq<int>, table: seq<Entry>, order: seq<nat>, i: nat)
    requires i < |order|
  {
    && order[i] < |table| && table[order[i]].symbol < |counts|
    && var s := table[order[i]].symbol;
    && var r := i - WeightSum(counts[..s]);
    && 0 <= r < Weight(counts[s])
    && (r > 0 && i > 0 ==> order[i - 1] < order[i])
    && IsCell(table[order[i]], |table|, Weight(counts[s]) + r)
  }

  lemma OneInterval(counts: seq<int>, s: nat, t: nat, i: nat)
    requires s < |counts| && t < |counts| && forall k :: 0 <= k < |counts| ==> counts[k] >= -1
    requires WeightSum(counts[..s]) <= i < WeightSum(counts[..s]) + Weight(counts[s])
    requires WeightSum(counts[..t]) <= i < WeightSum(counts[..t]) + Weight(counts[t])
    ensures s == t
  {
    hide WeightSum, Weight;
    if s < t {
      PrefixesOrdered(counts, s, t);
    } else if t < s {
      PrefixesOrdered(counts, t, s);
    }
  }

  /** A listed table: the sizes fit, every slot is right, and the symbols are those of `a`. */
  ghost predicate Listed(counts: seq<int>, tableLog: nat, table: seq<Entry>, order: seq<nat>, a: seq<Entry>)
  {
    && ValidTable(counts, tableLog, a) && |order| == |table| == Pow2(tableLog)
    && Symbols(table) == Symbols(a)
    && forall i :: 0 <= i < |order| ==> SlotOk(counts, table, order, i)
  }

  lemma SlotSymbol(counts: seq<int>, tableLog: nat, table: seq<Entry>, order: seq<nat>, a: seq<Entry>, s: nat, r: nat)
    requires Listed(counts, tableLog, table, order, a) && s < |counts| && r < Weight(counts[s])
    ensures var i := WeightSum(counts[..s]) + r;
            && 0 <= WeightSum(counts[..s]) && i < |order| && order[i] < |table| && table[order[i]].symbol == s
            && (r > 0 ==> order[i - 1] < order[i]) && IsCell(table[order[i]], |table|, Weight(counts[s]) + r)
  {
    hide Pow2, IsCell, DecodingTable;
    SumMono(counts, s);
    var i := WeightSum(counts[..s]) + r;
    assert SlotOk(counts, table, order, i);
    OneInterval(counts, s, table[order[i]].symbol, i);
  }

  /** The cells of a symbol stand in the order of their ranks. */
  lemma {:induction false} RankAtLeast(counts: seq<int>, tableLog: nat, table: seq<Entry>, order: seq<nat>, a: seq<Entry>, s: nat, r: nat)
    requires Listed(counts, tableLog, table, order, a) && s < |counts| && r < Weight(counts[s])
    ensures var i := WeightSum(counts[..s]) + r;
            0 <= i < |order| && order[i] < |table| == |Symbols(table)| && Rank(Symbols(table), order[i]) >= r
  {
    SlotSymbol(counts, tableLog, table, order, a, s, r);
    if r > 0 {
      RankAtLeast(counts, tableLog, table, order, a, s, r - 1);
      SlotSymbol(counts, tableLog, table, order, a, s, r - 1);
      hide Listed, Rank, WeightSum, IsCell;
      var i := WeightSum(counts[..s]) + r;
      RankDistinct(Symbols(table), order[i - 1], order[i]);
    }
  }

  lemma {:induction false} RankAtMost(counts: seq<int>, tableLog: nat, table: seq<Entry>, order: seq<nat>, a: seq<Entry>, s: nat, r: nat)
    requires Listed(counts, tableLog, table, order, a) && s < |counts| && r < Weight(counts[s])
    ensures var i := WeightSum(counts[..s]) + r;
            0 <= i < |order| && order[i] < |table| == |Symbols(table)| && Rank(Symbols(table), order[i]) <= r
    decreases Weight(counts[s]) - r
  {
    SlotSymbol(counts, tableLog, table, order, a, s, r);
    var i := WeightSum(counts[..s]) + r;
    if r + 1 < Weight(counts[s]) {
      RankAtMost(counts, tableLog, table, order, a, s, r + 1);
      SlotSymbol(counts, tableLog, table, order, a, s, r + 1);
      hide Listed, Rank, WeightSum, IsCell;
      RankDistinct(Symbols(table), order[i], order[i + 1]);
    } else {
      RankBelow(counts, tableLog, a, order[i]);
    }
  }

  lemma RankBelow(counts: seq<int>, tableLog: nat, a: seq<Entry>, u: nat)
    requires ValidTable(counts, tableLog, a) && u < |a|
    ensures a[u].symbol < |counts| && |Symbols(a)| == |a| == Pow2(tableLog)
    ensures Symbols(a)[u] == a[u].symbol && Rank(Symbols(a), u) < Weight(counts[a[u].symbol])
  {
    hide ValidTable, Pow2, Rank;
    CellFacts(counts, tableLog, a, u);
  }

  /** A listed table is the one decoding table of the counts. */
  lemma Recognized(counts: seq<int>, tableLog: nat, table: seq<Entry>, order: seq<nat>, a: seq<Entry>)
    requires Listed(counts, tableLog, table, order, a)
    ensures a == table
  {
    forall u | 0 <= u < |a|
      ensures u < |table| && a[u] == table[u]
    {
      SameCell(counts, tableLog, table, order, a, u);
    }
    assert |Symbols(table)| == |table| && |Symbols(a)| == |a|;
  }

  lemma SameCell(counts: seq<int>, tableLog: nat, table: seq<Entry>, order: seq<nat>, a: seq<Entry>, u: nat)
    requires Listed(counts, tableLog, table, order, a) && u < |a|
    ensures u < |table| && a[u] == table[u]
  {
    RankBelow(counts, tableLog, a, u);
    CellIs(counts, tableLog, a, u);
    var s, r := a[u].symbol, Rank(Symbols(a), u);
    SlotSymbol(counts, tableLog, table, order, a, s, r);
    RankAtLeast(counts, tableLog, table, order, a, s, r);
    RankAtMost(counts, tableLog, table, order, a, s, r);
    var v := order[WeightSum(counts[..s]) + r];
    assert IsCell(a[u], |table|, Weight(counts[s]) + r);
    hide ValidTable, SlotOk, IsCell, Rank, Pow2, WeightSum;
    if u < v {
      RankDistinct(Symbols(a), u, v);
    } else if v < u {
      RankDistinct(Symbols(a), v, u);
    }
    CellUnique(a[u], table[v], |table|, Weight(counts[s]) + r);
  }
}

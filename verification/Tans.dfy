/** The table as an automaton: every cell sends its symbol and leads to an interval of
    states, and for each symbol these intervals partition the states. */
module Tans {
  import opened Bits
  import opened FseCounts
  import opened FseTable

  /** A table the builder can produce. */
  ghost predicate ValidTable(counts: seq<int>, tableLog: nat, cells: seq<Entry>)
  {
    4 <= tableLog <= MAX_TABLELOG && Normalized(counts, tableLog) && DecodingTable(counts, tableLog, cells)
  }

  /** The cell of the r-th occurrence of s, counting from 0. */
  ghost function CellOf(symbols: seq<nat>, s: nat, r: nat): (u: nat)
    requires r < multiset(symbols)[s]
    ensures u < |symbols| && symbols[u] == s && Rank(symbols, u) == r
  {
    var init, last := symbols[..|symbols| - 1], symbols[|symbols| - 1];
    assert symbols == init + [last];
    if last == s && multiset(init)[s] == r then |init|
    else
      var u := CellOf(init, s, r);
      assert symbols[..u] == init[..u];
      u
  }

  lemma RankDistinct(symbols: seq<nat>, u: nat, v: nat)
    requires u < |symbols| && v < |symbols| && symbols[u] == symbols[v] && u < v
    ensures Rank(symbols, u) < Rank(symbols, v)
  {
    assert symbols[..v] == symbols[..u] + [symbols[u]] + symbols[u + 1..v];
  }

  /** How far to shift x right for the result to lie in [n, 2n). */
  function OutBits(n: nat, x: nat): (k: nat)
    requires 0 < n <= x
    ensures n <= Shr(x, k) < 2 * n
  {
    if x < 2 * n then 0 else OutBits(n, x / 2) + 1
  }

  lemma {:induction false} OutBitsUnique(n: nat, x: nat, k: nat)
    requires 0 < n <= x && n <= Shr(x, k) < 2 * n
    ensures k == OutBits(n, x)
  {
    if k == 0 {
    } else {
      ShrLess(x / 2, k - 1);
      OutBitsUnique(n, x / 2, k - 1);
    }
  }

  lemma SpreadSize(counts: seq<int>, tableLog: nat, symbols: seq<nat>)
    requires Spread(counts, tableLog, symbols)
    ensures |symbols| == Pow2(tableLog)
  {
  }

  /** A symbol of a valid table: its cells, their sub-states and the bits they read. */
  lemma CellFacts(counts: seq<int>, tableLog: nat, cells: seq<Entry>, u: nat)
    requires ValidTable(counts, tableLog, cells) && u < |cells|
    ensures |cells| == Pow2(tableLog) && cells[u].symbol < |counts|
    ensures var s := cells[u].symbol;
            var next := Weight(counts[s]) + Rank(Symbols(cells), u);
            && 0 < Weight(counts[s]) <= next < 2 * Weight(counts[s])
            && Weight(counts[s]) <= Pow2(tableLog)
            && HighBit(next) <= tableLog && cells[u].nbBits == tableLog - HighBit(next)
            && cells[u].newState + Pow2(tableLog) == Shl(next, cells[u].nbBits)
  {
    SpreadSize(counts, tableLog, Symbols(cells));
    hide Pow2, Spread, Shl, HighBit, Normalized;
    assert CellOk(counts, tableLog, cells, u);
    assert Symbols(cells)[u] == cells[u].symbol;
    SubState(counts, tableLog, Symbols(cells), u);
  }

  /** The states a cell can lead to lie inside the table, whatever bits follow. */
  lemma StaysInTable(counts: seq<int>, tableLog: nat, cells: seq<Entry>, u: nat, bits: nat)
    requires ValidTable(counts, tableLog, cells) && u < |cells|
    requires bits < Pow2(cells[u].nbBits)
    ensures cells[u].newState + bits < Pow2(tableLog) == |cells|
  {
    hide Shl, HighBit, ValidTable;
    CellFacts(counts, tableLog, cells, u);
    var next := Weight(counts[cells[u].symbol]) + Rank(Symbols(cells), u);
    var nb, hb := cells[u].nbBits, HighBit(next);
    HighBitSpec(next);
    ShlAdd(next, 1, nb);
    ShlMono(next + 1, Pow2(hb + 1), nb);
    Pow2Add(hb + 1, nb);
    DoublePow(tableLog);
  }

  /** Decoding in cell u can lead to state y. */
  ghost predicate LeadsTo(cells: seq<Entry>, u: nat, y: nat)
    requires u < |cells|
  {
    cells[u].newState <= y < cells[u].newState + Pow2(cells[u].nbBits)
  }

  /** The cell from which a symbol leads to state y, computed from x = tableSize + y. */
  ghost function Prev(counts: seq<int>, tableLog: nat, cells: seq<Entry>, s: nat, y: nat): (u: nat)
    requires ValidTable(counts, tableLog, cells) && y < Pow2(tableLog)
    requires s < |counts| && counts[s] != 0
    ensures u < |cells| && cells[u].symbol == s
  {
    var n, x := Weight(counts[s]), Pow2(tableLog) + y;
    SpreadCount(counts, tableLog, Symbols(cells), s);
    SumMono(counts, s);
    SumMono(counts, s + 1);
    CellOf(Symbols(cells), s, Shr(x, OutBits(n, x)) - n)
  }

  /** The chosen cell reads exactly the bits that were shifted out. */
  lemma PrevLeads(counts: seq<int>, tableLog: nat, cells: seq<Entry>, s: nat, y: nat)
    requires ValidTable(counts, tableLog, cells) && y < Pow2(tableLog)
    requires s < |counts| && counts[s] != 0
    ensures var u, x, n := Prev(counts, tableLog, cells, s, y), Pow2(tableLog) + y, Weight(counts[s]);
            && 0 < n <= x && cells[u].nbBits == OutBits(n, x)
            && y == cells[u].newState + Low(x, cells[u].nbBits)
            && LeadsTo(cells, u, y)
  {
    hide Shl, Shr, Low, HighBit, ValidTable, OutBits;
    var u, x, n := Prev(counts, tableLog, cells, s, y), Pow2(tableLog) + y, Weight(counts[s]);
    CellFacts(counts, tableLog, cells, u);
    var k := OutBits(n, x);
    var next := Shr(x, k);
    OutBitsSpec(n, x);
    PrevRank(counts, tableLog, cells, s, y);
    DoublePow(tableLog);
    HighBitUnique(x, tableLog);
    ShiftOut(x, k);
    Split(x, k);
  }

  lemma OutBitsSpec(n: nat, x: nat)
    requires 0 < n <= x
    ensures n <= Shr(x, OutBits(n, x)) < 2 * n
  {
  }

  lemma PrevRank(counts: seq<int>, tableLog: nat, cells: seq<Entry>, s: nat, y: nat)
    requires ValidTable(counts, tableLog, cells) && y < Pow2(tableLog)
    requires s < |counts| && counts[s] != 0
    ensures var n, x := Weight(counts[s]), Pow2(tableLog) + y;
            && 0 < n <= x
            && n + Rank(Symbols(cells), Prev(counts, tableLog, cells, s, y)) == Shr(x, OutBits(n, x))
  {
    hide Shl, Shr, OutBits, Normalized, DecodingTable;
    CellFacts(counts, tableLog, cells, Prev(counts, tableLog, cells, s, y));
    OutBitsSpec(Weight(counts[s]), Pow2(tableLog) + y);
  }

  /** Shifting a number right k bits lowers its highest bit by k, if anything is left. */
  lemma {:induction false} ShiftOut(x: nat, k: nat)
    requires Shr(x, k) > 0
    ensures x > 0 && k <= HighBit(x) && HighBit(Shr(x, k)) == HighBit(x) - k
  {
    if k > 0 {
      ShiftOut(x / 2, k - 1);
    }
  }

  /** No other cell of the symbol leads there. */
  lemma PrevUnique(counts: seq<int>, tableLog: nat, cells: seq<Entry>, u: nat, y: nat)
    requires ValidTable(counts, tableLog, cells) && u < |cells| && LeadsTo(cells, u, y)
    ensures y < Pow2(tableLog) && cells[u].symbol < |counts| && counts[cells[u].symbol] != 0
    ensures u == Prev(counts, tableLog, cells, cells[u].symbol, y)
  {
    hide Shl, Shr, Low, HighBit, ValidTable, OutBits, Weight;
    CellFacts(counts, tableLog, cells, u);
    StaysInTable(counts, tableLog, cells, u, y - cells[u].newState);
    var s, nb, x := cells[u].symbol, cells[u].nbBits, Pow2(tableLog) + y;
    var n := Weight(counts[s]);
    var next := n + Rank(Symbols(cells), u);
    assert counts[s] != 0 by { WeightZero(); }
    SplitUnique(y - cells[u].newState, next, nb);
    OutBitsUnique(n, x, nb);
    PrevRank(counts, tableLog, cells, s, y);
    var v := Prev(counts, tableLog, cells, s, y);
    var symbols := Symbols(cells);
    assert symbols[u] == symbols[v] == s;
    if u < v {
      RankDistinct(symbols, u, v);
    } else if v < u {
      RankDistinct(symbols, v, u);
    }
  }

  lemma WeightZero()
    ensures Weight(0) == 0
  {
  }

  /** tANS bijection: each symbol occupies as many cells as its weight, and for every state y
      exactly one of them leads to y. */
  lemma IntervalsPartition(counts: seq<int>, tableLog: nat, cells: seq<Entry>, s: nat, y: nat)
    requires ValidTable(counts, tableLog, cells) && s < |counts| && y < Pow2(tableLog)
    ensures multiset(Symbols(cells))[s] == Weight(counts[s])
    ensures counts[s] != 0 ==>
              exists u: nat :: u < |cells| && cells[u].symbol == s && LeadsTo(cells, u, y)
    ensures forall u: nat, v: nat ::
              (u < |cells| && v < |cells| && cells[u].symbol == cells[v].symbol == s
               && LeadsTo(cells, u, y) && LeadsTo(cells, v, y)) ==> u == v
  {
    SpreadCount(counts, tableLog, Symbols(cells), s);
    hide Shl, ValidTable, LeadsTo, Symbols;
    if counts[s] != 0 {
      PrevLeads(counts, tableLog, cells, s, y);
      var u: nat := Prev(counts, tableLog, cells, s, y);
      assert u < |cells| && cells[u].symbol == s && LeadsTo(cells, u, y);
    }
    forall u: nat, v: nat | u < |cells| && v < |cells| && cells[u].symbol == cells[v].symbol == s
                            && LeadsTo(cells, u, y) && LeadsTo(cells, v, y)
      ensures u == v
    {
      PrevUnique(counts, tableLog, cells, u, y);
      PrevUnique(counts, tableLog, cells, v, y);
    }
  }

  // ----- whole runs of the decoder

  /** The decoder started in `state` sends `symbols` and stops in `final` when it is fed `bits`,
      one number of the right width per symbol. */
  ghost predicate Decodes(cells: seq<Entry>, state: nat, bits: seq<nat>, symbols: seq<nat>, final: nat)
    decreases |symbols|
  {
    if symbols == [] then bits == [] && state == final
    else
      && state < |cells| && bits != []
      && cells[state].symbol == symbols[0] && bits[0] < Pow2(cells[state].nbBits)
      && Decodes(cells, cells[state].newState + bits[0], bits[1..], symbols[1..], final)
  }

  /** Symbols the table has cells for. */
  ghost predicate Encodable(counts: seq<int>, symbols: seq<nat>)
  {
    forall i :: 0 <= i < |symbols| ==> symbols[i] < |counts| && counts[symbols[i]] != 0
  }

  lemma EncodableCons(counts: seq<int>, symbols: seq<nat>)
    ensures Encodable(counts, [])
    ensures symbols != [] ==>
              (Encodable(counts, symbols) <==>
               symbols[0] < |counts| && counts[symbols[0]] != 0 && Encodable(counts, symbols[1..]))
  {
    assert forall i :: 1 <= i < |symbols| ==> symbols[i] == symbols[1..][i - 1];
  }

  /** The start state of the run that sends `symbols` and stops in `final`. */
  ghost function Start(counts: seq<int>, tableLog: nat, cells: seq<Entry>, symbols: seq<nat>, final: nat): (u: nat)
    requires ValidTable(counts, tableLog, cells) && Encodable(counts, symbols) && final < Pow2(tableLog)
    ensures u < Pow2(tableLog)
  {
    if symbols == [] then final
    else Prev(counts, tableLog, cells, symbols[0], Start(counts, tableLog, cells, symbols[1..], final))
  }

  ghost function RunBits(counts: seq<int>, tableLog: nat, cells: seq<Entry>, symbols: seq<nat>, final: nat): seq<nat>
    requires ValidTable(counts, tableLog, cells) && Encodable(counts, symbols) && final < Pow2(tableLog)
  {
    if symbols == [] then []
    else
      var y := Start(counts, tableLog, cells, symbols[1..], final);
      PrevLeads(counts, tableLog, cells, symbols[0], y);
      var u := Prev(counts, tableLog, cells, symbols[0], y);
      [y - cells[u].newState] + RunBits(counts, tableLog, cells, symbols[1..], final)
  }

  /** Every encodable symbol string and final state has a run. */
  lemma {:induction false} RunExists(counts: seq<int>, tableLog: nat, cells: seq<Entry>, symbols: seq<nat>, final: nat)
    requires ValidTable(counts, tableLog, cells) && Encodable(counts, symbols) && final < Pow2(tableLog)
    ensures Decodes(cells, Start(counts, tableLog, cells, symbols, final),
                    RunBits(counts, tableLog, cells, symbols, final), symbols, final)
  {
    hide ValidTable, Prev, Encodable;
    EncodableCons(counts, symbols);
    if symbols != [] {
      RunExists(counts, tableLog, cells, symbols[1..], final);
      PrevLeads(counts, tableLog, cells, symbols[0], Start(counts, tableLog, cells, symbols[1..], final));
    }
  }

  /** And it has no other run: start state and bits are determined. */
  lemma {:induction false} RunUnique(counts: seq<int>, tableLog: nat, cells: seq<Entry>,
                                     state: nat, bits: seq<nat>, symbols: seq<nat>, final: nat)
    requires ValidTable(counts, tableLog, cells) && final < Pow2(tableLog)
    requires Decodes(cells, state, bits, symbols, final)
    ensures Encodable(counts, symbols)
    ensures state == Start(counts, tableLog, cells, symbols, final)
    ensures bits == RunBits(counts, tableLog, cells, symbols, final)
    decreases |symbols|
  {
    hide ValidTable, Prev, Pow2, Encodable;
    EncodableCons(counts, symbols);
    if symbols != [] {
      var next := cells[state].newState + bits[0];
      RunUnique(counts, tableLog, cells, next, bits[1..], symbols[1..], final);
      PrevUnique(counts, tableLog, cells, state, next);
      assert bits == [bits[0]] + bits[1..];
    }
  }
}

/** Normalized counts and the decoding table they determine. */
module FseCounts {
  import opened Bits
  import opened SpreadWalk

  const MAX_SYMBOL_VALUE: nat := 255
  const MIN_TABLELOG: nat := 5
  const MAX_TABLELOG: nat := 12
  const TABLELOG_ABSOLUTE_MAX: nat := 15

  /** FSE_decode_t. */
  datatype Entry = Entry(newState: nat, symbol: nat, nbBits: nat)

  /** Cells a symbol occupies: its count, or one for the low-probability mark -1. */
  function Weight(c: int): (w: int)
    ensures c >= -1 ==> w >= 0
  {
    if c == -1 then 1 else c
  }

  function WeightSum(counts: seq<int>): int
  {
    if counts == [] then 0 else WeightSum(counts[..|counts| - 1]) + Weight(counts[|counts| - 1])
  }

  ghost predicate Normalized(counts: seq<int>, tableLog: nat)
  {
    && (forall s :: 0 <= s < |counts| ==> counts[s] >= -1)
    && WeightSum(counts) == Pow2(tableLog)
  }

  function Repeat(s: nat, n: int): (r: seq<nat>)
    ensures |r| == if n > 0 then n else 0
    ensures forall i :: 0 <= i < |r| ==> r[i] == s
  {
    if n <= 0 then [] else Repeat(s, n - 1) + [s]
  }

  /** Symbols with a positive count, each as often as its count, in order. */
  function Layout(counts: seq<int>): seq<nat>
  {
    if counts == [] then []
    else Layout(counts[..|counts| - 1]) + Repeat(|counts| - 1, counts[|counts| - 1])
  }

  /** Symbols with the low-probability mark, in order. */
  function Lows(counts: seq<int>): seq<nat>
  {
    if counts == [] then []
    else Lows(counts[..|counts| - 1]) + if counts[|counts| - 1] == -1 then [|counts| - 1] else []
  }

  /** The last cell that is not reserved for a low-probability symbol; -1 if there is none. */
  function HighThreshold(counts: seq<int>, tableLog: nat): int
  {
    Pow2(tableLog) - 1 - |Lows(counts)|
  }

  function Symbols(cells: seq<Entry>): (r: seq<nat>)
    ensures |r| == |cells|
    ensures forall u :: 0 <= u < |cells| ==> r[u] == cells[u].symbol
  {
    seq(|cells|, u requires 0 <= u < |cells| => cells[u].symbol)
  }

  /** The table FSE describes: low-probability symbols downward from the last cell, the
      others dealt along the walk over the remaining cells. */
  ghost predicate Spread(counts: seq<int>, tableLog: nat, symbols: seq<nat>)
  {
    var high := HighThreshold(counts, tableLog);
    var size := Pow2(tableLog);
    && |symbols| == size
    && (forall i :: 0 <= i < |Lows(counts)| && i < size ==> symbols[size - 1 - i] == Lows(counts)[i])
    && Dealt(tableLog, high, symbols, Layout(counts))
  }

  /** The symbols of `dealt` stand, in order, on the visited cells. */
  ghost predicate Dealt(tableLog: nat, high: int, symbols: seq<nat>, dealt: seq<nat>)
  {
    var v := Visits(tableLog, high, Pow2(tableLog));
    && |dealt| <= |v|
    && forall k :: 0 <= k < |dealt| ==> v[k] < |symbols| && symbols[v[k]] == dealt[k]
  }

  /** Occurrences of the symbol of cell u in the cells before u. */
  ghost function Rank(symbols: seq<nat>, u: nat): nat
    requires u < |symbols|
  {
    multiset(symbols[..u])[symbols[u]]
  }

  /** The state transition of a cell: its sub-state is the weight plus the rank. */
  ghost predicate CellOk(counts: seq<int>, tableLog: nat, cells: seq<Entry>, u: nat)
    requires u < |cells|
  {
    && cells[u].symbol < |counts|
    && var next := Weight(counts[cells[u].symbol]) + Rank(Symbols(cells), u);
    && next > 0 && HighBit(next) <= tableLog
    && cells[u].nbBits == tableLog - HighBit(next)
    && cells[u].newState == Shl(next, cells[u].nbBits) - Pow2(tableLog)
  }

  /** A decoding table for these counts. */
  ghost predicate DecodingTable(counts: seq<int>, tableLog: nat, cells: seq<Entry>)
  {
    && Spread(counts, tableLog, Symbols(cells))
    && forall u :: 0 <= u < |cells| ==> CellOk(counts, tableLog, cells, u)
  }

  lemma SymbolsUpdate(cells: seq<Entry>, u: nat, e: Entry)
    requires u < |cells|
    ensures Symbols(cells[u := e]) == Symbols(cells)[u := e.symbol]
  {
  }

  // ----- counting symbols

  /** How one more symbol changes the sum and the two lists. */
  lemma PrefixStep(counts: seq<int>, s: nat)
    requires s < |counts|
    ensures WeightSum(counts[..s + 1]) == WeightSum(counts[..s]) + Weight(counts[s])
    ensures Layout(counts[..s + 1]) == Layout(counts[..s]) + Repeat(s, counts[s])
    ensures Lows(counts[..s + 1]) == if counts[s] == -1 then Lows(counts[..s]) + [s] else Lows(counts[..s])
  {
    assert counts[..s + 1][..s] == counts[..s];
  }

  lemma {:induction false} LengthsSum(counts: seq<int>)
    requires forall s :: 0 <= s < |counts| ==> counts[s] >= -1
    ensures |Layout(counts)| + |Lows(counts)| == WeightSum(counts)
  {
    if counts != [] {
      LengthsSum(counts[..|counts| - 1]);
    }
  }

  lemma {:induction false} SumMono(counts: seq<int>, k: nat)
    requires k <= |counts| && forall s :: 0 <= s < |counts| ==> counts[s] >= -1
    ensures 0 <= WeightSum(counts[..k]) <= WeightSum(counts)
    ensures k < |counts| ==> WeightSum(counts[..k]) + Weight(counts[k]) <= WeightSum(counts)
  {
    if counts == [] {
      assert counts[..k] == counts;
    } else {
      var init := counts[..|counts| - 1];
      SumMono(init, |init|);
      assert init[..|init|] == init;
      if k < |counts| {
        SumMono(init, k);
        assert init[..k] == counts[..k];
      } else {
        assert counts[..k] == counts;
      }
    }
  }

  lemma PrefixesOrdered(counts: seq<int>, s: nat, t: nat)
    requires s < t <= |counts| && forall k :: 0 <= k < |counts| ==> counts[k] >= -1
    ensures WeightSum(counts[..s]) + Weight(counts[s]) <= WeightSum(counts[..t])
  {
    hide WeightSum;
    SumMono(counts[..t], s);
    assert counts[..t][..s] == counts[..s];
  }

  lemma {:induction false} LayoutPrefix(counts: seq<int>, k: nat)
    requires k <= |counts|
    ensures Layout(counts[..k]) <= Layout(counts)
    ensures Lows(counts[..k]) <= Lows(counts)
  {
    if k < |counts| {
      var init := counts[..|counts| - 1];
      LayoutPrefix(init, k);
      assert init[..k] == counts[..k];
    } else {
      assert counts[..k] == counts;
    }
  }

  lemma {:induction false} RepeatCount(s: nat, n: int, t: nat)
    ensures multiset(Repeat(s, n))[t] == if t == s && n > 0 then n else 0
  {
    if n > 0 {
      RepeatCount(s, n - 1, t);
    }
  }

  lemma {:induction false} LayoutCount(counts: seq<int>, t: nat)
    requires forall s :: 0 <= s < |counts| ==> counts[s] >= -1
    ensures multiset(Layout(counts))[t] + multiset(Lows(counts))[t] ==
            if t < |counts| then Weight(counts[t]) else 0
  {
    if counts != [] {
      LayoutCount(counts[..|counts| - 1], t);
      RepeatCount(|counts| - 1, counts[|counts| - 1], t);
    }
  }

  /** Dealing values to distinct cells that cover the whole range permutes them. */
  lemma {:induction false} PermutationCount(cells: seq<nat>, places: seq<nat>, dealt: seq<nat>)
    requires |cells| == |places| == |dealt| && Distinct(places)
    requires forall k :: 0 <= k < |places| ==> places[k] < |cells| && cells[places[k]] == dealt[k]
    ensures multiset(cells) == multiset(dealt)
  {
    if places == [] {
    } else {
      var n := |places| - 1;
      var p := places[n];
      var cells' := cells[..p] + cells[p + 1..];
      var places' := Lower(places[..n], p);
      assert cells == cells[..p] + [cells[p]] + cells[p + 1..];
      assert dealt == dealt[..n] + [dealt[n]];
      assert Distinct(places');
      PermutationCount(cells', places', dealt[..n]);
    }
  }

  /** Indices after p move down by one when cell p is removed. */
  function Lower(places: seq<nat>, p: nat): (r: seq<nat>)
    requires p !in places
    ensures |r| == |places|
    ensures forall k :: 0 <= k < |r| ==> r[k] == if places[k] > p then places[k] - 1 else places[k]
  {
    if places == [] then []
    else
      var last := places[|places| - 1];
      Lower(places[..|places| - 1], p) + [if last > p then last - 1 else last]
  }

  /** Every symbol occupies exactly as many cells as its weight. */
  lemma SpreadCount(counts: seq<int>, tableLog: nat, symbols: seq<nat>, s: nat)
    requires tableLog >= 4 && Normalized(counts, tableLog) && Spread(counts, tableLog, symbols)
    ensures multiset(symbols)[s] == if s < |counts| then Weight(counts[s]) else 0
  {
    hide Pow2, Visits, Layout, Lows, WeightSum;
    var size, high := Pow2(tableLog), HighThreshold(counts, tableLog);
    LengthsSum(counts);
    VisitsAll(tableLog, high);
    var v := Visits(tableLog, high, size);
    var cells := symbols[..high + 1];
    assert forall k :: 0 <= k < |v| ==> v[k] in v;
    PermutationCount(cells, v, Layout(counts));
    var tail := symbols[high + 1..];
    var places := Downward(|tail|);
    PermutationCount(tail, places, Lows(counts));
    assert symbols == cells + tail;
    LayoutCount(counts, s);
  }

  function Downward(n: nat): (r: seq<nat>)
    ensures |r| == n && Distinct(r)
    ensures forall i :: 0 <= i < n ==> r[i] == n - 1 - i
  {
    seq(n, i requires 0 <= i < n => n - 1 - i)
  }

  /** The description leaves no freedom: two spreads of the same counts are equal. */
  lemma SpreadUnique(counts: seq<int>, tableLog: nat, a: seq<nat>, b: seq<nat>)
    requires tableLog >= 4 && Normalized(counts, tableLog)
    requires Spread(counts, tableLog, a) && Spread(counts, tableLog, b)
    ensures a == b
  {
    var size, high := Pow2(tableLog), HighThreshold(counts, tableLog);
    LengthsSum(counts);
    VisitsAll(tableLog, high);
    var v := Visits(tableLog, high, size);
    forall u: nat | u < size
      ensures a[u] == b[u]
    {
      if u <= high {
        assert u in v;
        var k :| 0 <= k < |v| && v[k] == u;
        assert a[v[k]] == Layout(counts)[k];
      } else {
        var i := size - 1 - u;
        assert a[size - 1 - i] == Lows(counts)[i];
      }
    }
  }
}

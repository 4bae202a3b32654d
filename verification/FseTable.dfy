/** FSE_buildDTable_internal: builds a decoding table in place. */
module FseTable {
  import opened Bits
  import opened LittleEndian
  import opened SpreadWalk
  import opened FseCounts

  datatype BuildError = MaxSymbolValueTooLarge | TableLogTooLarge | GenericError

  datatype BuildResult = Built(fastMode: bool) | Rejected(error: BuildError)

  /** FSE_BUILD_DTABLE_WKSP_SIZE. */
  function BuildWkspSize(tableLog: nat, maxSymbolValue: nat): nat
  {
    2 * (maxSymbolValue + 1) + Pow2(tableLog) + 8
  }

  /** The sanity checks, in the order of the code. */
  function SanityError(maxSymbolValue: nat, tableLog: nat, wkspSize: nat): (e: seq<BuildError>)
  {
    if BuildWkspSize(tableLog, maxSymbolValue) > wkspSize then [MaxSymbolValueTooLarge]
    else if maxSymbolValue > MAX_SYMBOL_VALUE then [MaxSymbolValueTooLarge]
    else if tableLog > MAX_TABLELOG then [TableLogTooLarge]
    else []
  }

  /** Both spreading paths, and any other way of meeting the description, give one table. */
  lemma TableUnique(counts: seq<int>, tableLog: nat, a: seq<Entry>, b: seq<Entry>)
    requires tableLog >= 4 && Normalized(counts, tableLog)
    requires DecodingTable(counts, tableLog, a) && DecodingTable(counts, tableLog, b)
    ensures a == b
  {
    hide Spread, Normalized, HighBit, Shl, Pow2;
    SpreadUnique(counts, tableLog, Symbols(a), Symbols(b));
    SymbolsLength(a);
    SymbolsLength(b);
    forall u | 0 <= u < |a|
      ensures a[u] == b[u]
    {
      assert CellOk(counts, tableLog, a, u) && CellOk(counts, tableLog, b, u);
      SymbolsAt(a, u);
      SymbolsAt(b, u);
    }
  }

  /** Builds the table for `counts`, one count per symbol 0..maxSymbolValue. Normalized counts
      that pass the sanity checks always build: the walk ends at position 0. */
  method BuildDTable(table: array<Entry>, counts: seq<int>, tableLog: nat, wkspSize: nat)
    returns (r: BuildResult)
    requires |counts| > 0 && tableLog >= 4 && table.Length == Pow2(tableLog)
    requires SanityError(|counts| - 1, tableLog, wkspSize) == [] ==> Normalized(counts, tableLog)
    modifies table
    ensures var e := SanityError(|counts| - 1, tableLog, wkspSize);
            if e != [] then r == Rejected(e[0]) && table[..] == old(table[..])
            else r.Built? && DecodingTable(counts, tableLog, table[..])
    ensures r == Rejected(MaxSymbolValueTooLarge) <==>
              2 * |counts| + Pow2(tableLog) + 8 > wkspSize || |counts| > 256
    ensures r == Rejected(TableLogTooLarge) <==>
              2 * |counts| + Pow2(tableLog) + 8 <= wkspSize && |counts| <= 256 && tableLog > 12
    ensures r.Built? ==> (r.fastMode <==> forall s :: 0 <= s < |counts| ==> counts[s] < Pow2(tableLog - 1))
  {
    hide Pow2, Lows, Layout, Spread, DecodingTable;
    var maxSymbolValue := |counts| - 1;
    if BuildWkspSize(tableLog, maxSymbolValue) > wkspSize {
      return Rejected(MaxSymbolValueTooLarge);
    }
    if maxSymbolValue > MAX_SYMBOL_VALUE {
      return Rejected(MaxSymbolValueTooLarge);
    }
    if tableLog > MAX_TABLELOG {
      return Rejected(TableLogTooLarge);
    }
    var tableSize := Pow2(tableLog);
    var symbolNext := new nat[|counts|];
    LengthsSum(counts);
    var highThreshold, fastMode := LayLowProbability(table, symbolNext, counts, tableLog);
    Pow2Mono(tableLog, 12);
    Pow2Values();
    if highThreshold == tableSize - 1 {
      var spread := new U8[tableSize + 8];
      LayInOrder(spread, counts, tableLog);
      DealUnrolled(table, spread, counts, tableLog);
    } else {
      var position := DealDirectly(table, counts, tableLog, highThreshold);
      if position != 0 {
        return Rejected(GenericError);
      }
    }
    BuildStates(table, symbolNext, counts, tableLog);
    r := Built(fastMode);
  }

  /** The reserved cells, filled downward from the last one. */
  ghost predicate Reserved(lows: seq<nat>, symbols: seq<nat>)
  {
    forall i :: 0 <= i < |lows| && i < |symbols| ==> symbols[|symbols| - 1 - i] == lows[i]
  }

  /** A 32-bit unsigned decrement. */
  function Dec32(x: nat): nat
  {
    (x + 0xFFFF_FFFF) % 0x1_0000_0000
  }

  function Wrap32(x: int): nat
  {
    x % 0x1_0000_0000
  }

  lemma Dec32Wraps(x: int)
    requires 0 <= x < 0x1_0000_0000
    ensures Wrap32(x) == x && Dec32(x) == Wrap32(x - 1)
  {
  }

  /** Lays down the low-probability symbols and initialises the sub-states. The threshold
      wraps around when every cell is reserved. */
  method LayLowProbability(table: array<Entry>, symbolNext: array<nat>, counts: seq<int>, tableLog: nat)
    returns (highThreshold: nat, fastMode: bool)
    requires 1 <= tableLog <= MAX_TABLELOG && Normalized(counts, tableLog)
    requires table.Length == Pow2(tableLog) && symbolNext.Length == |counts|
    modifies table, symbolNext
    ensures highThreshold == Wrap32(HighThreshold(counts, tableLog))
    ensures Reserved(Lows(counts), Symbols(table[..]))
    ensures forall s :: 0 <= s < |counts| ==> symbolNext[s] == Weight(counts[s])
    ensures fastMode <==> forall s :: 0 <= s < |counts| ==> counts[s] < Pow2(tableLog - 1)
  {
    hide Pow2, Lows, WeightSum, Reserved, Dec32, Wrap32, Symbols;
    Pow2Mono(tableLog, 12);
    Pow2Values();
    var tableSize := Pow2(tableLog);
    highThreshold := tableSize - 1;
    fastMode := true;
    var largeLimit := Pow2(tableLog - 1);
    NoCounts(counts, Symbols(table[..]));
    Dec32Wraps(tableSize - 1);
    for s := 0 to |counts|
      invariant highThreshold == Wrap32(tableSize - 1 - |Lows(counts[..s])|)
      invariant |Lows(counts[..s])| <= WeightSum(counts[..s]) <= tableSize
      invariant Reserved(Lows(counts[..s]), Symbols(table[..]))
      invariant forall t :: 0 <= t < s ==> symbolNext[t] == Weight(counts[t])
      invariant fastMode <==> forall t :: 0 <= t < s ==> counts[t] < largeLimit
    {
      SumMono(counts, s + 1);
      PrefixStep(counts, s);
      if counts[s] == -1 {
        highThreshold := ReserveCell(table, highThreshold, s, Lows(counts[..s]));
        symbolNext[s] := 1;
      } else {
        if counts[s] >= largeLimit {
          fastMode := false;
        }
        symbolNext[s] := counts[s];
      }
    }
    assert counts[..|counts|] == counts;
  }

  /** A low-probability symbol in the highest free cell. */
  method ReserveCell(table: array<Entry>, highThreshold: nat, s: nat, ghost lows: seq<nat>) returns (next: nat)
    requires |lows| < table.Length <= 4096 && highThreshold == Wrap32(table.Length - 1 - |lows|)
    requires Reserved(lows, Symbols(table[..]))
    modifies table
    ensures Reserved(lows + [s], Symbols(table[..])) && next == Wrap32(table.Length - 1 - |lows + [s]|)
  {
    hide Reserved, Symbols;
    ghost var cells := table[..];
    SymbolsLength(cells);
    ReservedOne(lows, Symbols(cells), s);
    SymbolsUpdate(cells, highThreshold, cells[highThreshold].(symbol := s));
    table[highThreshold] := table[highThreshold].(symbol := s);
    assert table[..] == cells[highThreshold := cells[highThreshold].(symbol := s)];
    Dec32Wraps(table.Length - 1 - |lows|);
    next := Dec32(highThreshold);
  }

  lemma NoCounts(counts: seq<int>, symbols: seq<nat>)
    ensures Lows(counts[..0]) == [] && WeightSum(counts[..0]) == 0 && Layout(counts[..0]) == []
    ensures Reserved([], symbols)
  {
  }

  lemma ReservedOne(lows: seq<nat>, symbols: seq<nat>, s: nat)
    requires Reserved(lows, symbols) && |lows| < |symbols|
    ensures Reserved(lows + [s], symbols[|symbols| - 1 - |lows| := s])
  {
  }

  /** First stage without reserved cells: the symbols in order, eight bytes at a time. The
      stores overlap and the last one may run eight bytes past the table size. */
  method LayInOrder(spread: array<U8>, counts: seq<int>, tableLog: nat)
    requires Normalized(counts, tableLog) && Lows(counts) == [] && |counts| <= MAX_SYMBOL_VALUE + 1
    requires spread.Length == Pow2(tableLog) + 8
    modifies spread
    ensures spread[..Pow2(tableLog)] == Layout(counts)
  {
    hide Pow2, Lows, WeightSum, Layout, Repeat, Bytes;
    var pos, sv := 0, 0;
    NoCounts(counts, []);
    for s := 0 to |counts|
      invariant pos == |Layout(counts[..s])| == WeightSum(counts[..s]) <= Pow2(tableLog)
      invariant sv == s * 0x0101_0101_0101_0101 % 0x1_0000_0000_0000_0000
      invariant spread[..pos] == Layout(counts[..s])
    {
      SumMono(counts, s + 1);
      PrefixStep(counts, s);
      LayoutPrefix(counts, s + 1);
      var n := counts[s];
      assert n >= 0;
      SameBytes(s);
      WriteU64(spread, pos, sv);
      var i := 8;
      while i < n
        invariant (i == 8 || 8 <= i < n + 8) && spread[..pos] == Layout(counts[..s])
        invariant forall k :: pos <= k < pos + i ==> spread[k] == s
      {
        WriteU64(spread, pos + i, sv);
        i := i + 8;
      }
      SameValue(spread[..], pos, n, s);
      assert spread[..][pos..pos + n] == spread[pos..pos + n];
      assert spread[..pos + n] == spread[..pos] + spread[pos..pos + n];
      pos := pos + n;
      sv := (sv + 0x0101_0101_0101_0101) % 0x1_0000_0000_0000_0000;
    }
    assert counts[..|counts|] == counts;
  }

  lemma SameValue(a: seq<nat>, pos: nat, n: nat, s: nat)
    requires pos + n <= |a| && forall k :: pos <= k < pos + n ==> a[k] == s
    ensures a[pos..pos + n] == Repeat(s, n)
  {
  }

  /** MEM_write64. */
  method WriteU64(a: array<U8>, at: nat, x: nat)
    requires at + 8 <= a.Length
    modifies a
    ensures forall k :: at <= k < at + 8 ==> a[k] == Bytes(x, 8)[k - at]
    ensures forall k :: 0 <= k < at || at + 8 <= k < a.Length ==> a[k] == old(a[k])
  {
    var bytes := Bytes(x, 8);
    for i := 0 to 8
      invariant forall k :: at <= k < at + i ==> a[k] == bytes[k - at]
      invariant forall k :: 0 <= k < at || at + 8 <= k < a.Length ==> a[k] == old(a[k])
    {
      a[at + i] := bytes[i];
    }
  }

  lemma SameBytes(s: nat)
    requires s < 256
    ensures s * 0x0101_0101_0101_0101 < 0x1_0000_0000_0000_0000
    ensures forall k :: 0 <= k < 8 ==> Bytes(s * 0x0101_0101_0101_0101, 8)[k] == s
  {
    Repeated(s, 0x0101_0101_0101_0101, 8);
  }

  lemma {:induction false} Repeated(s: nat, ones: nat, n: nat)
    requires s < 256 && Ones(ones, n)
    ensures forall k :: 0 <= k < n ==> Bytes(s * ones, n)[k] == s
  {
    if n > 0 {
      Peel(s, ones / 256);
      Repeated(s, ones / 256, n - 1);
    }
  }

  lemma Peel(s: nat, k: nat)
    requires s < 256
    ensures s * (256 * k + 1) % 256 == s && s * (256 * k + 1) / 256 == s * k
  {
    assert s * (256 * k + 1) == s + 256 * (s * k);
  }

  predicate Ones(x: nat, n: nat)
  {
    if n == 0 then x == 0 else x % 256 == 1 && Ones(x / 256, n - 1)
  }

  /** Second stage: the laid-out symbols dealt along the walk, two per iteration. */
  method DealUnrolled(table: array<Entry>, spread: array<U8>, counts: seq<int>, tableLog: nat)
    requires 4 <= tableLog && Normalized(counts, tableLog) && Lows(counts) == []
    requires table.Length == Pow2(tableLog) && spread.Length == Pow2(tableLog) + 8
    requires spread[..Pow2(tableLog)] == Layout(counts)
    modifies table
    ensures Spread(counts, tableLog, Symbols(table[..]))
  {
    hide Pow2, TableStep, BitAnd, Walk, Layout, Lows, Symbols, Dealt, Spread;
    var tableSize := Pow2(tableLog);
    var step := TableStep(tableSize);
    var position, s := 0, 0;
    WalkEnds(tableLog);
    while s < tableSize
      invariant s % 2 == 0 && s <= tableSize && position == Walk(tableLog, s)
      invariant OnWalk(tableLog, Symbols(table[..]), spread[..s])
    {
      for u: nat := 0 to 2
        invariant OnWalk(tableLog, Symbols(table[..]), spread[..s + u])
      {
        Masked(tableLog, position, u, s);
        var uPosition := BitAnd(position + u * step, tableSize - 1);
        DealOne(table, uPosition, spread[s + u], tableLog, spread[..s + u]);
        assert spread[..s + u + 1] == spread[..s + u] + [spread[s + u]];
      }
      Masked(tableLog, position, 2, s);
      position := BitAnd(position + 2 * step, tableSize - 1);
      s := s + 2;
    }
    assert position == 0;
    DealtRound(counts, tableLog, Symbols(table[..]));
  }

  method DealOne(table: array<Entry>, position: nat, symbol: nat, ghost tableLog: nat, ghost dealt: seq<nat>)
    requires tableLog >= 4 && OnWalk(tableLog, Symbols(table[..]), dealt) && |dealt| < Pow2(tableLog) == table.Length
    requires position == Walk(tableLog, |dealt|)
    modifies table
    ensures OnWalk(tableLog, Symbols(table[..]), dealt + [symbol])
  {
    hide Pow2, Walk, Symbols, OnWalk;
    ghost var cells := table[..];
    ghost var e := cells[position].(symbol := symbol);
    SymbolsUpdate(cells, position, e);
    OnWalkOne(tableLog, Symbols(cells), dealt, symbol);
    table[position] := table[position].(symbol := symbol);
    assert table[..] == cells[position := e];
  }

  /** The k-th dealt value stands on the k-th position of the walk. */
  ghost predicate OnWalk(tableLog: nat, symbols: seq<nat>, dealt: seq<nat>)
  {
    && |symbols| == Pow2(tableLog)
    && forall k: nat :: k < |dealt| ==> symbols[Walk(tableLog, k)] == dealt[k]
  }

  lemma OnWalkOne(tableLog: nat, symbols: seq<nat>, dealt: seq<nat>, s: nat)
    requires tableLog >= 4 && OnWalk(tableLog, symbols, dealt) && |dealt| < Pow2(tableLog)
    ensures OnWalk(tableLog, symbols[Walk(tableLog, |dealt|) := s], dealt + [s])
  {
    hide Pow2;
    forall k: nat | k < |dealt|
      ensures Walk(tableLog, k) != Walk(tableLog, |dealt|)
    {
      WalkInjective(tableLog, k, |dealt|);
    }
  }

  lemma WalkEnds(tableLog: nat)
    ensures Walk(tableLog, 0) == 0 && Walk(tableLog, Pow2(tableLog)) == 0
    ensures tableLog > 0 ==> Pow2(tableLog) % 2 == 0
    ensures forall symbols :: |symbols| == Pow2(tableLog) ==> OnWalk(tableLog, symbols, [])
  {
    hide TableStep;
    WalkReturns(tableLog);
  }

  /** Masking after u more steps lands on the u-th next position of the walk. */
  lemma Masked(tableLog: nat, position: nat, u: nat, s: nat)
    requires position == Walk(tableLog, s) && u <= 2
    ensures BitAnd(position + u * TableStep(Pow2(tableLog)), Pow2(tableLog) - 1) == Walk(tableLog, s + u)
  {
    hide *;
    UpToTwice(u, TableStep(Pow2(tableLog)));
    MaskedSteps(tableLog, s);
  }

  lemma MaskedSteps(tableLog: nat, s: nat)
    ensures var position, step, mask := Walk(tableLog, s), TableStep(Pow2(tableLog)), Pow2(tableLog) - 1;
            && BitAnd(position, mask) == position
            && BitAnd(position + step, mask) == Walk(tableLog, s + 1)
            && BitAnd(position + (step + step), mask) == Walk(tableLog, s + 2)
  {
    hide *;
    var position, step := Walk(tableLog, s), TableStep(Pow2(tableLog));
    WalkNext(tableLog, s);
    WalkNext(tableLog, s + 1);
    MaskIs(position, tableLog);
    MaskIs(position + step, tableLog);
    MaskIs(position + (step + step), tableLog);
    Small(position, Pow2(tableLog));
    AddAgain(position + step, step, Pow2(tableLog));
    assert position + step + step == position + (step + step);
  }

  lemma UpToTwice(u: nat, x: nat)
    requires u <= 2
    ensures u * x == if u == 0 then 0 else if u == 1 then x else x + x
  {
  }

  lemma MaskIs(x: nat, n: nat)
    ensures BitAnd(x, Pow2(n) - 1) == x % Pow2(n)
  {
    hide *;
    AndMask(x, n);
    LowMod(x, n);
  }

  lemma WalkNext(tableLog: nat, s: nat)
    ensures Walk(tableLog, s) < Pow2(tableLog)
    ensures Walk(tableLog, s + 1) == (Walk(tableLog, s) + TableStep(Pow2(tableLog))) % Pow2(tableLog)
  {
    hide Pow2, TableStep;
  }

  lemma Small(x: nat, d: nat)
    requires x < d
    ensures x % d == x
  {
  }

  lemma AddAgain(x: nat, y: nat, d: nat)
    requires d > 0
    ensures (x % d + y) % d == (x + y) % d
  {
    Quotient(x, d);
    var z := x % d + y;
    Quotient(z, d);
    assert x + y == (x / d + z / d) * d + z % d;
    RemainderUnique(x + y, d, x / d + z / d, z % d);
  }

  lemma DealtRound(counts: seq<int>, tableLog: nat, symbols: seq<nat>)
    requires Lows(counts) == [] && |Layout(counts)| == Pow2(tableLog)
    requires OnWalk(tableLog, symbols, Layout(counts))
    ensures Spread(counts, tableLog, symbols)
  {
    hide Pow2, Layout, Lows, Visits;
    var size := Pow2(tableLog);
    FullRound(tableLog, size);
    var v := Visits(tableLog, size - 1, size);
    forall k | 0 <= k < size
      ensures v[k] < size && symbols[v[k]] == Layout(counts)[k]
    {
      var i: nat := k;
      assert v[i] == Walk(tableLog, i);
    }
    assert Dealt(tableLog, size - 1, symbols, Layout(counts));
  }

  /** Deals the symbols along the walk, skipping the reserved cells above the threshold. */
  method DealDirectly(table: array<Entry>, counts: seq<int>, tableLog: nat, highThreshold: nat)
    returns (position: nat)
    requires 4 <= tableLog <= MAX_TABLELOG && Normalized(counts, tableLog)
    requires table.Length == Pow2(tableLog)
    requires highThreshold == Wrap32(HighThreshold(counts, tableLog))
    requires Reserved(Lows(counts), Symbols(table[..]))
    modifies table
    ensures position == 0
    ensures Spread(counts, tableLog, Symbols(table[..]))
  {
    hide *;
    ghost var high := HighThreshold(counts, tableLog);
    DealSetup(counts, tableLog, highThreshold);
    position := 0;
    ghost var w := 0;
    NoCounts(counts, []);
    StandingAtStart(tableLog, high, Symbols(table[..]));
    for s := 0 to |counts|
      invariant Standing(tableLog, high, w, position, |Layout(counts[..s])|)
      invariant Progress(tableLog, high, Symbols(table[..]), w, Layout(counts[..s]))
      invariant Reserved(Lows(counts), Symbols(table[..]))
    {
      PrefixStep(counts, s);
      LayoutPrefix(counts, s + 1);
      ghost var before := Layout(counts[..s]);
      RepeatStart(before, s);
      RepeatLength(s, counts[s]);
      var i := 0;
      while i < counts[s]
        invariant 0 <= i && (i <= counts[s] || i == 0)
        invariant Standing(tableLog, high, w, position, |before| + i)
        invariant Progress(tableLog, high, Symbols(table[..]), w, before + Repeat(s, i))
        invariant Reserved(Lows(counts), Symbols(table[..]))
      {
        ghost var cells := table[..];
        SymbolsLength(cells);
        StillInside(tableLog, high, w, position, |before| + i);
        ghost var e := cells[position].(symbol := s);
        SymbolsUpdate(cells, position, e);
        DealtOne(tableLog, high, Symbols(cells), w, before + Repeat(s, i), s, Lows(counts));
        RepeatStep(before, s, i);
        table[position] := table[position].(symbol := s);
        assert table[..] == cells[position := e];
        position, w := NextFree(tableLog, position, highThreshold, high, w, Symbols(table[..]), before + Repeat(s, i + 1));
        i := i + 1;
      }
      LastRepeat(before, s, i, counts[s]);
    }
    assert counts[..|counts|] == counts;
    SymbolsLength(table[..]);
    WholeRound(counts, tableLog, Symbols(table[..]), w, position);
  }

  /** How many cells the walk may use, and where the threshold stands. */
  lemma DealSetup(counts: seq<int>, tableLog: nat, highThreshold: nat)
    requires tableLog <= MAX_TABLELOG && Normalized(counts, tableLog)
    requires highThreshold == Wrap32(HighThreshold(counts, tableLog))
    ensures var high := HighThreshold(counts, tableLog);
            && -1 <= high < Pow2(tableLog) && |Layout(counts)| == high + 1
            && high == Pow2(tableLog) - 1 - |Lows(counts)|
            && (high >= 0 ==> highThreshold == high)
  {
    LengthsSum(counts);
    Pow2Mono(tableLog, 12);
    Pow2Values();
    hide Pow2, Layout, Lows, WeightSum;
  }

  lemma RepeatLength(s: nat, n: int)
    ensures |Repeat(s, n)| == if n > 0 then n else 0
  {
  }

  /** One step of the walk, then as many more as it takes to leave the reserved area. */
  method NextFree(tableLog: nat, from: nat, highThreshold: nat,
                  ghost high: int, ghost before: nat, ghost symbols: seq<nat>, ghost dealt: seq<nat>)
    returns (position: nat, ghost w: nat)
    requires 0 <= high == highThreshold && before < Pow2(tableLog) && from == Walk(tableLog, before)
    requires Progress(tableLog, high, symbols, before + 1, dealt)
    ensures position <= highThreshold && Standing(tableLog, high, w, position, |dealt|)
    ensures Progress(tableLog, high, symbols, w, dealt)
  {
    hide Pow2, TableStep, BitAnd, Walk, Standing, Progress;
    var step, tableMask := TableStep(Pow2(tableLog)), Pow2(tableLog) - 1;
    Masked(tableLog, from, 1, before);
    position, w := BitAnd(from + step, tableMask), before + 1;
    while position > highThreshold
      invariant w <= Pow2(tableLog) && position == Walk(tableLog, w)
      invariant Progress(tableLog, high, symbols, w, dealt)
      decreases Pow2(tableLog) - w
    {
      SkipReserved(tableLog, high, symbols, w, dealt);
      Masked(tableLog, position, 1, w);
      position, w := BitAnd(position + step, tableMask), w + 1;
    }
    StandAgain(tableLog, high, symbols, w, position, dealt);
  }

  lemma RepeatStart(before: seq<nat>, s: nat)
    ensures before + Repeat(s, 0) == before && |Repeat(s, 0)| == 0
  {
  }

  lemma RepeatStep(before: seq<nat>, s: nat, i: nat)
    ensures before + Repeat(s, i) + [s] == before + Repeat(s, i + 1)
    ensures |Repeat(s, i)| == i && |Repeat(s, i + 1)| == i + 1
  {
  }

  lemma LastRepeat(before: seq<nat>, s: nat, i: nat, n: int)
    requires i >= n && (i <= n || i == 0)
    ensures before + Repeat(s, i) == before + Repeat(s, n) && |Repeat(s, n)| == i
  {
  }

  lemma StandingAtStart(tableLog: nat, high: int, symbols: seq<nat>)
    ensures Standing(tableLog, high, 0, 0, 0)
    ensures Progress(tableLog, high, symbols, 0, [])
  {
  }

  /** A cell above the threshold is never the end of the round, and is not visited. */
  lemma SkipReserved(tableLog: nat, high: int, symbols: seq<nat>, w: nat, dealt: seq<nat>)
    requires 0 <= high < Walk(tableLog, w) && w <= Pow2(tableLog)
    requires Progress(tableLog, high, symbols, w, dealt)
    ensures w < Pow2(tableLog) && Progress(tableLog, high, symbols, w + 1, dealt)
  {
    hide Pow2;
    WalkReturns(tableLog);
  }

  lemma StandAgain(tableLog: nat, high: int, symbols: seq<nat>, w: nat, position: nat, dealt: seq<nat>)
    requires w <= Pow2(tableLog) && position == Walk(tableLog, w) && 0 <= high && position <= high
    requires Progress(tableLog, high, symbols, w, dealt)
    ensures Standing(tableLog, high, w, position, |dealt|)
  {
  }

  /** When all symbols are dealt the round is over: the walk is back at position 0. */
  lemma WholeRound(counts: seq<int>, tableLog: nat, symbols: seq<nat>, w: nat, position: nat)
    requires tableLog >= 4 && Normalized(counts, tableLog) && |symbols| == Pow2(tableLog)
    requires var high := HighThreshold(counts, tableLog);
             && Standing(tableLog, high, w, position, |Layout(counts)|)
             && Progress(tableLog, high, symbols, w, Layout(counts))
    requires Reserved(Lows(counts), symbols)
    ensures position == 0 && Spread(counts, tableLog, symbols)
  {
    hide Pow2, Layout, Lows, Visits;
    var high := HighThreshold(counts, tableLog);
    LengthsSum(counts);
    VisitsAll(tableLog, high);
    StillInside(tableLog, high, w, position, |Layout(counts)|);
    WalkReturns(tableLog);
  }

  /** The walk stands at step w, having visited k cells, on a free cell or at the end. */
  ghost predicate Standing(tableLog: nat, high: int, w: nat, position: nat, k: nat)
  {
    && w <= Pow2(tableLog) && position == Walk(tableLog, w)
    && |Visits(tableLog, high, w)| == k
    && (if high < 0 then w == 0 else w == Pow2(tableLog) || position <= high)
  }

  /** Everything dealt so far stands on the visited cells. */
  ghost predicate Progress(tableLog: nat, high: int, symbols: seq<nat>, w: nat, dealt: seq<nat>)
  {
    var v := Visits(tableLog, high, w);
    && |dealt| == |v|
    && forall k :: 0 <= k < |v| ==> v[k] < |symbols| && symbols[v[k]] == dealt[k]
  }

  /** While symbols are left the walk is inside its round; when none is left it is over. */
  lemma StillInside(tableLog: nat, high: int, w: nat, position: nat, k: nat)
    requires tableLog >= 4 && -1 <= high < Pow2(tableLog)
    requires Standing(tableLog, high, w, position, k)
    ensures position == Walk(tableLog, w) && w <= Pow2(tableLog)
    ensures k < high + 1 ==> w < Pow2(tableLog) && position <= high
    ensures k == high + 1 && high >= 0 ==> w == Pow2(tableLog)
  {
    VisitsAll(tableLog, high);
    if w < Pow2(tableLog) {
      VisitsGrow(tableLog, high, w + 1, Pow2(tableLog));
    }
  }

  lemma {:induction false} VisitsGrow(tableLog: nat, high: int, i: nat, j: nat)
    requires i <= j
    ensures Visits(tableLog, high, i) <= Visits(tableLog, high, j)
  {
    if i < j {
      VisitsGrow(tableLog, high, i, j - 1);
    }
  }

  /** Writing the next symbol on the cell the walk stands on extends the dealt prefix. */
  lemma DealtOne(tableLog: nat, high: int, symbols: seq<nat>, w: nat, dealt: seq<nat>, s: nat, lows: seq<nat>)
    requires tableLog >= 4 && w < Pow2(tableLog) == |symbols|
    requires Walk(tableLog, w) <= high == |symbols| - 1 - |lows|
    requires Progress(tableLog, high, symbols, w, dealt) && Reserved(lows, symbols)
    ensures var symbols' := symbols[Walk(tableLog, w) := s];
            Progress(tableLog, high, symbols', w + 1, dealt + [s]) && Reserved(lows, symbols')
  {
    NotVisited(tableLog, high, w);
    var v := Visits(tableLog, high, w);
    assert forall k :: 0 <= k < |v| ==> v[k] in v;
  }

  /** Fills in sub-states: each cell takes the next one of its symbol. */
  method BuildStates(table: array<Entry>, symbolNext: array<nat>, counts: seq<int>, tableLog: nat)
    requires 4 <= tableLog && Normalized(counts, tableLog)
    requires table.Length == Pow2(tableLog) && symbolNext.Length == |counts|
    requires forall s :: 0 <= s < |counts| ==> symbolNext[s] == Weight(counts[s])
    requires Spread(counts, tableLog, Symbols(table[..]))
    modifies table, symbolNext
    ensures DecodingTable(counts, tableLog, table[..])
  {
    hide Pow2, Spread, Symbols, Normalized, CellOk, HighBit, Shl, Weight, Counters;
    ghost var symbols := Symbols(table[..]);
    NoCounters(counts, symbolNext[..]);
    assert symbols[..0] == [];
    for u := 0 to table.Length
      invariant Symbols(table[..]) == symbols
      invariant Counters(counts, symbols[..u], symbolNext[..])
      invariant forall v :: 0 <= v < u ==> CellOk(counts, tableLog, table[..], v)
    {
      ghost var cells := table[..];
      var symbol := table[u].symbol;
      SymbolsAt(cells, u);
      SubState(counts, tableLog, symbols, u);
      CountersStep(counts, symbols, u, symbolNext[..]);
      var nextState := symbolNext[symbol];
      ghost var counters := symbolNext[..];
      symbolNext[symbol] := nextState + 1;
      assert symbolNext[..] == counters[symbol := nextState + 1];
      table[u] := table[u].(nbBits := tableLog - HighBit(nextState));
      table[u] := table[u].(newState := Shl(nextState, table[u].nbBits) - Pow2(tableLog));
      assert table[..] == cells[u := table[u]];
      SymbolsUpdate(cells, u, table[u]);
      NewCell(counts, tableLog, cells, table[..], u);
    }
  }

  /** Each counter stands at the weight plus the occurrences seen so far. */
  ghost predicate Counters(counts: seq<int>, seen: seq<nat>, next: seq<nat>)
  {
    && |next| == |counts|
    && forall s :: 0 <= s < |counts| ==> next[s] == Weight(counts[s]) + multiset(seen)[s]
  }

  lemma NoCounters(counts: seq<int>, next: seq<nat>)
    requires |next| == |counts| && forall s :: 0 <= s < |counts| ==> next[s] == Weight(counts[s])
    ensures Counters(counts, [], next)
  {
  }

  lemma CountersStep(counts: seq<int>, symbols: seq<nat>, u: nat, next: seq<nat>)
    requires u < |symbols| && symbols[u] < |counts| && Counters(counts, symbols[..u], next)
    ensures next[symbols[u]] == Weight(counts[symbols[u]]) + Rank(symbols, u)
    ensures Counters(counts, symbols[..u + 1], next[symbols[u] := next[symbols[u]] + 1])
  {
    assert symbols[..u + 1] == symbols[..u] + [symbols[u]];
  }

  lemma SymbolsLength(cells: seq<Entry>)
    ensures |Symbols(cells)| == |cells|
  {
  }

  lemma SymbolsAt(cells: seq<Entry>, u: nat)
    requires u < |cells|
    ensures Symbols(cells)[u] == cells[u].symbol
  {
  }

  /** A freshly computed cell is right, and the cells before it stay right. */
  lemma NewCell(counts: seq<int>, tableLog: nat, cells: seq<Entry>, cells': seq<Entry>, u: nat)
    requires u < |cells| == |cells'| && cells' == cells[u := cells'[u]]
    requires cells'[u].symbol == cells[u].symbol < |counts|
    requires forall v :: 0 <= v < u ==> CellOk(counts, tableLog, cells, v)
    requires var next := Weight(counts[cells'[u].symbol]) + Rank(Symbols(cells), u);
             && 0 < next && HighBit(next) <= tableLog
             && cells'[u].nbBits == tableLog - HighBit(next)
             && cells'[u].newState == Shl(next, cells'[u].nbBits) - Pow2(tableLog)
    ensures forall v :: 0 <= v <= u ==> CellOk(counts, tableLog, cells', v)
  {
    hide HighBit, Shl, Pow2;
    SymbolsUpdate(cells, u, cells'[u]);
    assert Symbols(cells') == Symbols(cells);
    forall v | 0 <= v <= u
      ensures CellOk(counts, tableLog, cells', v)
    {
      if v < u {
        assert CellOk(counts, tableLog, cells, v);
        assert cells'[v] == cells[v];
      }
    }
  }

  /** A sub-state lies in [weight, 2 * weight), so its highest bit is at most the table log. */
  lemma SubState(counts: seq<int>, tableLog: nat, symbols: seq<nat>, u: nat)
    requires tableLog >= 4 && Normalized(counts, tableLog) && Spread(counts, tableLog, symbols)
    requires u < |symbols|
    ensures symbols[u] < |counts|
    ensures var w, next := Weight(counts[symbols[u]]), Weight(counts[symbols[u]]) + Rank(symbols, u);
            && 0 < w <= next < 2 * w && w <= Pow2(tableLog)
            && HighBit(next) <= tableLog && Pow2(tableLog) <= Shl(next, tableLog - HighBit(next))
  {
    hide Shl, HighBit, Spread, WeightSum;
    var s := symbols[u];
    SpreadCount(counts, tableLog, symbols, s);
    assert symbols == symbols[..u] + [s] + symbols[u + 1..];
    assert multiset(symbols)[s] > 0;
    SumMono(counts, s);
    SumMono(counts, s + 1);
    var next := Weight(counts[s]) + Rank(symbols, u);
    Pow2Mono(tableLog, tableLog + 1);
    HighBitBelow(next, tableLog + 1);
    ShlMono(Pow2(HighBit(next)), next, tableLog - HighBit(next));
    Pow2Add(HighBit(next), tableLog - HighBit(next));
  }
}

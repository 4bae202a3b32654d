/** The walk that spreads symbols over a decoding table: positions 0, step, 2 * step, ...
    modulo the table size. The step is odd, so the walk meets every cell once. */
module SpreadWalk {
  import opened Bits

  /** FSE_TABLESTEP. */
  function TableStep(tableSize: nat): nat
  {
    tableSize / 2 + tableSize / 8 + 3
  }

  /** The position after j steps. */
  function Walk(tableLog: nat, j: nat): (p: nat)
    ensures p < Pow2(tableLog)
  {
    if j == 0 then 0 else (Walk(tableLog, j - 1) + TableStep(Pow2(tableLog))) % Pow2(tableLog)
  }

  /** The positions up to `high` that the walk meets before step j, in order. */
  function Visits(tableLog: nat, high: int, j: nat): seq<nat>
  {
    if j == 0 then []
    else if Walk(tableLog, j - 1) <= high then Visits(tableLog, high, j - 1) + [Walk(tableLog, j - 1)]
    else Visits(tableLog, high, j - 1)
  }

  // ----- arithmetic of an odd step

  /** The step is odd from table log 4 on; at table log 3 it is even. */
  lemma StepOdd(tableLog: nat)
    ensures tableLog >= 4 ==> TableStep(Pow2(tableLog)) % 2 == 1
    ensures tableLog == 3 ==> TableStep(Pow2(tableLog)) % 2 == 0
  {
    hide Shl;
    Pow2Values();
    if tableLog >= 4 {
      var m := Pow2(tableLog - 4);
      Pow2Add(tableLog - 4, 4);
      Shift4(m);
      assert Pow2(tableLog) == 16 * m;
      assert TableStep(16 * m) == 8 * m + 2 * m + 3;
    }
  }

  lemma WalkIsProduct(tableLog: nat, j: nat)
    ensures Walk(tableLog, j) == j * TableStep(Pow2(tableLog)) % Pow2(tableLog)
  {
    var k := WalkQuotient(tableLog, j);
    var step := TableStep(Pow2(tableLog));
    RemainderUnique(j * step, Pow2(tableLog), k, Walk(tableLog, j));
  }

  lemma {:induction false} WalkQuotient(tableLog: nat, j: nat) returns (k: nat)
    ensures j * TableStep(Pow2(tableLog)) == k * Pow2(tableLog) + Walk(tableLog, j)
  {
    hide Pow2, TableStep;
    var size, step := Pow2(tableLog), TableStep(Pow2(tableLog));
    if j == 0 {
      k := 0;
    } else {
      var k' := WalkQuotient(tableLog, j - 1);
      var next := Walk(tableLog, j - 1) + step;
      var carry := next / size;
      Quotient(next, size);
      k := k' + carry;
      Carry(j, step, k', carry, size, Walk(tableLog, j - 1), next % size);
    }
  }

  lemma Quotient(x: nat, d: nat)
    requires d > 0
    ensures x / d >= 0 && x == x / d * d + x % d
  {
  }

  lemma Carry(j: nat, step: nat, k: nat, carry: nat, size: nat, w: nat, w': nat)
    requires j > 0 && (j - 1) * step == k * size + w && w + step == carry * size + w'
    ensures j * step == (k + carry) * size + w'
  {
    assert j * step == (j - 1) * step + step;
    assert (k + carry) * size == k * size + carry * size;
  }

  /** 2^n divides d * step for an odd step only if it divides d. */
  lemma {:induction false} OddDivides(n: nat, d: nat, step: nat, k: nat)
    requires step % 2 == 1 && d * step == k * Pow2(n)
    ensures exists q: nat :: d == q * Pow2(n)
  {
    if n == 0 {
      assert d == d * Pow2(0);
    } else {
      var p := Pow2(n - 1);
      assert k * Pow2(n) == 2 * (k * p) by { Doubling(k, p); }
      EvenFactor(d, step);
      var d' := d / 2;
      assert d == 2 * d';
      Doubling2(d', step);
      OddDivides(n - 1, d', step, k);
      var q: nat :| d' == q * p;
      Doubling(q, p);
      assert d == q * Pow2(n);
    }
  }

  lemma Doubling(k: nat, p: nat)
    ensures k * (2 * p) == 2 * (k * p)
  {
  }

  lemma Doubling2(d: nat, step: nat)
    ensures 2 * d * step == 2 * (d * step)
  {
  }

  lemma EvenFactor(d: nat, step: nat)
    requires step % 2 == 1 && d * step % 2 == 0
    ensures d % 2 == 0
  {
    if d % 2 == 1 {
      OddProduct(d, step);
    }
  }

  lemma OddProduct(d: nat, step: nat)
    requires d % 2 == 1 && step % 2 == 1
    ensures d * step % 2 == 1
  {
    var a, b := d / 2, step / 2;
    assert d * step == 2 * (d * b) + d by {
      assert d * step == d * (2 * b + 1);
    }
    assert d == 2 * a + 1;
  }

  // ----- the walk is a cycle through all cells

  lemma WalkInjective(tableLog: nat, i: nat, j: nat)
    requires tableLog >= 4 && i < j && j - i < Pow2(tableLog)
    ensures Walk(tableLog, i) != Walk(tableLog, j)
  {
    var size, step := Pow2(tableLog), TableStep(Pow2(tableLog));
    if Walk(tableLog, i) == Walk(tableLog, j) {
      var a := WalkQuotient(tableLog, i);
      var b := WalkQuotient(tableLog, j);
      Difference(i, j, step, a, b, size, Walk(tableLog, i));
      StepOdd(tableLog);
      OddDivides(tableLog, j - i, step, b - a);
      var q: nat :| j - i == q * size;
      NotMultiple(q, size, j - i);
    }
  }

  lemma Difference(i: nat, j: nat, step: nat, a: nat, b: nat, size: nat, w: nat)
    requires i < j && size > 0 && step > 0
    requires i * step == a * size + w && j * step == b * size + w
    ensures b >= a && (j - i) * step == (b - a) * size
  {
    assert (j - i) * step == j * step - i * step;
    assert (b - a) * size == b * size - a * size && (a - b) * size == a * size - b * size;
    AtLeastOne(j - i, step);
    if b < a {
      AtLeastOne(a - b, size);
    }
  }

  lemma NotMultiple(q: nat, size: nat, d: nat)
    requires 0 < d < size
    ensures d != q * size
  {
    if q > 0 {
      AtLeastOne(q, size);
    }
  }

  /** After tableSize steps the walk is back at cell 0. */
  lemma WalkReturns(tableLog: nat)
    ensures Walk(tableLog, Pow2(tableLog)) == 0
  {
    var size, step := Pow2(tableLog), TableStep(Pow2(tableLog));
    WalkIsProduct(tableLog, size);
    assert size * step == step * size + 0;
    RemainderUnique(size * step, size, step, 0);
  }

  // ----- visited positions

  /** The walk stands on p at some step before j. */
  ghost predicate Met(tableLog: nat, j: nat, p: nat)
  {
    exists i: nat :: i < j && Walk(tableLog, i) == p
  }

  lemma MetStep(tableLog: nat, j: nat, p: nat)
    requires j > 0
    ensures Met(tableLog, j, p) <==> Met(tableLog, j - 1, p) || Walk(tableLog, j - 1) == p
  {
    hide Walk;
    var last: nat := j - 1;
    if Walk(tableLog, last) == p {
      assert last < j;
    }
  }

  lemma {:induction false} VisitsAt(tableLog: nat, high: int, j: nat, p: nat)
    ensures p in Visits(tableLog, high, j) <==> p <= high && Met(tableLog, j, p)
  {
    if j > 0 {
      hide Met, Walk;
      VisitsAt(tableLog, high, j - 1, p);
      MetStep(tableLog, j, p);
      var last: nat := Walk(tableLog, j - 1);
      assert Visits(tableLog, high, j) ==
             Visits(tableLog, high, j - 1) + if last <= high then [last] else [];
    }
  }

  lemma {:induction false} VisitsDistinct(tableLog: nat, high: int, j: nat)
    requires tableLog >= 4 && j <= Pow2(tableLog)
    ensures Distinct(Visits(tableLog, high, j))
  {
    if j > 0 {
      VisitsDistinct(tableLog, high, j - 1);
      NotVisited(tableLog, high, j - 1);
    }
  }

  /** A position the walk stands on has not been visited earlier in the round. */
  lemma NotVisited(tableLog: nat, high: int, j: nat)
    requires tableLog >= 4 && j < Pow2(tableLog)
    ensures Walk(tableLog, j) !in Visits(tableLog, high, j)
  {
    VisitsAt(tableLog, high, j, Walk(tableLog, j));
    forall i: nat | i < j
      ensures Walk(tableLog, i) != Walk(tableLog, j)
    {
      WalkInjective(tableLog, i, j);
    }
  }

  predicate Distinct(s: seq<nat>)
  {
    forall i, j :: 0 <= i < j < |s| ==> s[i] != s[j]
  }

  /** A whole round visits each of the cells 0..high exactly once. */
  lemma VisitsAll(tableLog: nat, high: int)
    requires tableLog >= 4 && -1 <= high < Pow2(tableLog)
    ensures var v := Visits(tableLog, high, Pow2(tableLog));
            && |v| == high + 1 && Distinct(v)
            && forall p: nat :: p in v <==> p <= high
  {
    var size := Pow2(tableLog);
    var v := Visits(tableLog, high, size);
    VisitsDistinct(tableLog, high, size);
    var round := Visits(tableLog, size - 1, size);
    VisitsDistinct(tableLog, size - 1, size);
    FullRound(tableLog, size);
    assert forall i :: 0 <= i < |round| ==> round[i] == Walk(tableLog, i);
    Pigeonhole(round, size);
    forall p: nat
      ensures p in v <==> p <= high
    {
      VisitsAt(tableLog, high, size, p);
      VisitsAt(tableLog, size - 1, size, p);
      if p <= high {
        assert p in round;
      }
    }
    CountBelow(v, high + 1);
  }

  lemma {:induction false} FullRound(tableLog: nat, j: nat)
    ensures |Visits(tableLog, Pow2(tableLog) - 1, j)| == j
    ensures forall i: nat :: i < j ==> Visits(tableLog, Pow2(tableLog) - 1, j)[i] == Walk(tableLog, i)
  {
    if j > 0 {
      FullRound(tableLog, j - 1);
    }
  }

  // ----- counting

  function Range(n: nat): (s: set<nat>)
    ensures |s| == n
    ensures forall p: nat :: p in s <==> p < n
  {
    if n == 0 then {} else Range(n - 1) + {n - 1}
  }

  function Elements(s: seq<nat>): (e: set<nat>)
    ensures forall p :: p in e <==> p in s
  {
    set p | p in s
  }

  lemma {:induction false} DistinctSize(s: seq<nat>)
    requires Distinct(s)
    ensures |Elements(s)| == |s|
  {
    if s != [] {
      var init, last := s[..|s| - 1], s[|s| - 1];
      DistinctSize(init);
      assert s == init + [last];
      assert Elements(s) == Elements(init) + {last};
      assert last !in init;
    }
  }

  lemma SubsetSize(a: set<nat>, b: set<nat>)
    requires a <= b && |a| == |b|
    ensures a == b
  {
    assert b == a + (b - a);
    assert |b| == |a| + |b - a|;
  }

  /** n distinct numbers below n are all of them. */
  lemma Pigeonhole(s: seq<nat>, n: nat)
    requires Distinct(s) && |s| == n && forall i :: 0 <= i < |s| ==> s[i] < n
    ensures forall p: nat :: p < n ==> p in s
  {
    DistinctSize(s);
    SubsetSize(Elements(s), Range(n));
  }

  lemma CountBelow(s: seq<nat>, n: nat)
    requires Distinct(s) && forall p: nat :: p in s <==> p < n
    ensures |s| == n
  {
    DistinctSize(s);
    assert Elements(s) == Range(n);
  }
}

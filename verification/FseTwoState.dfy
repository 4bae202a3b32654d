/** Two interleaved coder states in one stream: what two encoders push alternately, the real
    decoder returns. */
module FseTwoState {
  import opened Bits
  import opened LittleEndian
  import opened BitStream
  import opened FseCounts
  import opened Tans
  import opened FseCoder
  import opened FseDecompress

  /** What two alternating encoders produce for a message: the fields pushed, in order, and the
      cells in which the decoding of the first and of the second symbol starts. */
  datatype Pair = Pair(fields: seq<Field>, first: nat, second: nat)

  /** The encoders start in cells u1 and u2, which send the last two symbols for free, and
      work through the message backward, taking turns. */
  ghost function EncodePair(c: Code, message: seq<nat>, u1: nat, u2: nat): (p: Pair)
    requires ValidCode(c) && Sendable(c, message) && |message| >= 2
    requires u1 < Size(c) && u2 < Size(c)
    ensures p.first < Size(c) && p.second < Size(c)
  {
    if |message| == 2 then Pair([], u1, u2)
    else
      SendableTail(c, message);
      var later := EncodePair(c, message[1..], u1, u2);
      var x := Size(c) + later.second;
      Pair(later.fields + [StepField(c, message[0], x)], EncodeStep(c, message[0], x) - Size(c), later.first)
  }

  lemma SendableTail(c: Code, message: seq<nat>)
    requires Sendable(c, message) && message != []
    ensures Sendable(c, message[1..]) && message[0] < |c.counts| && c.counts[message[0]] != 0
  {
    EncodableCons(c.counts, message);
  }

  /** The whole stream: the fields, then the second and the first decoding state. */
  ghost function PairStream(c: Code, message: seq<nat>, u1: nat, u2: nat): seq<Field>
    requires ValidCode(c) && Sendable(c, message) && |message| >= 2
    requires u1 < Size(c) && u2 < Size(c)
  {
    var p := EncodePair(c, message, u1, u2);
    p.fields + [Field(Size(c) + p.second, c.tableLog)] + [Field(Size(c) + p.first, c.tableLog)]
  }

  /** The starting cells carry the last two symbols, and the one decoded first still wants to
      read a bit, which is what tells the decoder that the stream is over. */
  ghost predicate StartingCells(c: Code, message: seq<nat>, u1: nat, u2: nat)
  {
    && |message| >= 2 && u1 < |c.cells| && u2 < |c.cells|
    && c.cells[u1].symbol == message[|message| - 2] && c.cells[u1].nbBits >= 1
    && c.cells[u2].symbol == message[|message| - 1]
  }

  /** Whether a symbol's first cell reads a bit: unless the symbol takes the whole table. */
  lemma FirstCellReads(c: Code, s: nat, u: nat)
    requires ValidCode(c) && FirstCellOf(c, s, u)
    ensures s < |c.counts| && 0 < Weight(c.counts[s]) <= Size(c)
    ensures c.cells[u].nbBits >= 1 <==> Weight(c.counts[s]) < Size(c)
  {
    hide ValidTable, Shl, HighBit, Pow2;
    CellFacts(c.counts, c.tableLog, c.cells, u);
    CellWidth(c.tableLog, Weight(c.counts[s]));
  }

  lemma CellWidth(tableLog: nat, next: nat)
    requires 0 < next <= Pow2(tableLog)
    ensures HighBit(next) < tableLog <==> next < Pow2(tableLog)
  {
    hide HighBit;
    if next < Pow2(tableLog) {
      HighBitBelow(next, tableLog);
    } else {
      DoublePow(tableLog);
      HighBitUnique(next, tableLog);
    }
  }

  /** A message can be encoded in this way exactly when its last symbol but one does not take
      the whole table; then the first cells of its last two symbols will do. */
  lemma StartingCellsExist(c: Code, message: seq<nat>)
    requires ValidCode(c) && Sendable(c, message) && |message| >= 2
    ensures message[|message| - 2] < |c.counts|
    ensures (exists u1: nat, u2: nat :: StartingCells(c, message, u1, u2))
            <==> Weight(c.counts[message[|message| - 2]]) < Size(c)
  {
    var s1, s2 := message[|message| - 2], message[|message| - 1];
    hide ValidTable, Pow2;
    var v1 := SomeFirstCell(c, s1);
    var v2 := SomeFirstCell(c, s2);
    FirstCellReads(c, s1, v1);
    if Weight(c.counts[s1]) < Size(c) {
      assert StartingCells(c, message, v1, v2);
    } else {
      forall u1: nat, u2: nat ensures !StartingCells(c, message, u1, u2) {
        if u1 < |c.cells| && c.cells[u1].symbol == s1 {
          WholeTableReadsNothing(c, u1);
        }
      }
    }
  }

  lemma WholeTableReadsNothing(c: Code, u: nat)
    requires ValidCode(c) && u < |c.cells| && c.cells[u].symbol < |c.counts|
    requires Weight(c.counts[c.cells[u].symbol]) >= Size(c)
    ensures c.cells[u].nbBits == 0
  {
    hide ValidTable, Shl, HighBit, Pow2;
    CellFacts(c.counts, c.tableLog, c.cells, u);
    DoublePow(c.tableLog);
    HighBitUnique(Weight(c.counts[c.cells[u].symbol]) + Rank(Symbols(c.cells), u), c.tableLog);
  }

  lemma SomeFirstCell(c: Code, s: nat) returns (u: nat)
    requires ValidCode(c) && s < |c.counts| && c.counts[s] != 0
    ensures FirstCellOf(c, s, u)
  {
    SpreadCount(c.counts, c.tableLog, Symbols(c.cells), s);
    SumMono(c.counts, s);
    u := CellOf(Symbols(c.cells), s, 0);
  }

  /** From the pushed fields the simple decoder recovers the rest of the message. */
  lemma {:induction false} RunRecovers(c: Code, message: seq<nat>, u1: nat, u2: nat, v: nat, out: seq<nat>, capacity: nat)
    requires ValidCode(c) && Sendable(c, message) && StartingCells(c, message, u1, u2)
    requires u1 < Size(c) && u2 < Size(c)
    requires StartsWith(v, EncodePair(c, message, u1, u2).fields)
    ensures var p := EncodePair(c, message, u1, u2);
            SimpleRun(c, v, Total(p.fields), p.first, p.second, out, capacity)
            == if |out| + |message| <= capacity then Decoded(out + message) else DstSizeTooSmall
    decreases |message|
  {
    hide *;
    TailStarts(c, message, u1, u2);
    var p := EncodePair(c, message, u1, u2);
    CellCount(c);
    PairUnfolds(c, message, u1, u2, v);
    PairCells(c, message, u1, u2);
    if |out| > capacity - 2 {
      RunFull(c, v, Total(p.fields), p.first, p.second, out, capacity);
    } else {
      RunStep(c, v, Total(p.fields), p.first, p.second, out, capacity);
      if |message| == 2 {
        NoFields();
        assert out + message == out + [message[0]] + [message[1]];
      } else {
        RunRecovers(c, message[1..], u1, u2, v, out + [message[0]], capacity);
        assert out + [message[0]] + message[1..] == out + message;
      }
    }
  }

  lemma TailStarts(c: Code, message: seq<nat>, u1: nat, u2: nat)
    requires StartingCells(c, message, u1, u2)
    ensures |message| >= 2
    ensures |message| == 2 ==> c.cells[u1].symbol == message[0] && c.cells[u2].symbol == message[1] && c.cells[u1].nbBits >= 1
    ensures |message| > 2 ==> StartingCells(c, message[1..], u1, u2)
  {
  }

  /** One symbol of the interleaved encoding, seen from the decoder. */
  lemma PairUnfolds(c: Code, message: seq<nat>, u1: nat, u2: nat, v: nat)
    requires ValidCode(c) && Sendable(c, message) && |message| >= 2
    requires u1 < Size(c) && u2 < Size(c)
    requires StartsWith(v, EncodePair(c, message, u1, u2).fields)
    ensures |c.cells| == Size(c)
    ensures |message| == 2 ==> EncodePair(c, message, u1, u2) == Pair([], u1, u2)
    ensures |message| > 2 ==>
              var p := EncodePair(c, message, u1, u2);
              && Sendable(c, message[1..])
              && var later := EncodePair(c, message[1..], u1, u2);
              && var nb := c.cells[p.first].nbBits;
              && c.cells[p.first].symbol == message[0] && p.second == later.first
              && nb <= Total(p.fields) && Total(p.fields) - nb == Total(later.fields)
              && c.cells[p.first].newState + Slice(v, Total(later.fields), nb) == later.second
              && StartsWith(v, later.fields)
  {
    hide *;
    CellCount(c);
    EncodePairIs(c, message, u1, u2);
    if |message| > 2 {
      SendableTail(c, message);
      var later := EncodePair(c, message[1..], u1, u2);
      PairCells(c, message[1..], u1, u2);
      var x := Size(c) + later.second;
      var f := StepField(c, message[0], x);
      DecodeStep(c, message[0], x);
      PayloadSnoc(later.fields, f);
      PopField(v, later.fields, f);
    }
  }

  lemma PairCells(c: Code, message: seq<nat>, u1: nat, u2: nat)
    requires ValidCode(c) && Sendable(c, message) && |message| >= 2
    requires u1 < Size(c) && u2 < Size(c)
    ensures EncodePair(c, message, u1, u2).first < Size(c) && EncodePair(c, message, u1, u2).second < Size(c)
  {
  }

  lemma EncodePairIs(c: Code, message: seq<nat>, u1: nat, u2: nat)
    requires ValidCode(c) && Sendable(c, message) && |message| >= 2
    requires u1 < Size(c) && u2 < Size(c)
    ensures |message| == 2 ==> EncodePair(c, message, u1, u2) == Pair([], u1, u2)
    ensures |message| > 2 ==>
              && Sendable(c, message[1..]) && message[0] < |c.counts| && c.counts[message[0]] != 0
              && var later := EncodePair(c, message[1..], u1, u2);
              && EncodePair(c, message, u1, u2)
                 == Pair(later.fields + [StepField(c, message[0], Size(c) + later.second)],
                         EncodeStep(c, message[0], Size(c) + later.second) - Size(c), later.first)
  {
    hide ValidTable, Pow2, Encodable, StepField, EncodeStep, Size;
    if |message| > 2 {
      SendableTail(c, message);
    }
  }

  /** A state pushed by FSE_flushCState reads back as the cell it stands for. */
  lemma PopState(c: Code, fs: seq<Field>, u: nat, v: nat)
    requires u < Size(c) && StartsWith(v, fs + [Field(Size(c) + u, c.tableLog)])
    ensures StartsWith(v, fs)
    ensures Total(fs + [Field(Size(c) + u, c.tableLog)]) == Total(fs) + c.tableLog
    ensures Slice(v, Total(fs), c.tableLog) == u
  {
    hide StartsWith, Low, Slice, Total, Payload;
    var f := Field(Size(c) + u, c.tableLog);
    PayloadSnoc(fs, f);
    PopField(v, fs, f);
    SplitUnique(u, 1, c.tableLog);
  }

  /** On a stored pair stream the decoder starts in the two states pushed last. */
  lemma PairOpens(c: Code, message: seq<nat>, u1: nat, u2: nat, src: seq<U8>, capacity: nat)
    requires ValidCode(c) && Sendable(c, message) && |message| >= 2 && u1 < Size(c) && u2 < Size(c)
    requires Holds(src, PairStream(c, message, u1, u2))
    ensures var p := EncodePair(c, message, u1, u2);
            && StartsWith(LE(src), p.fields)
            && SimpleDecode(c, src, capacity)
               == SimpleRun(c, LE(src), Total(p.fields), p.first, p.second, [], capacity)
  {
    hide *;
    var p := EncodePair(c, message, u1, u2);
    var inner := p.fields + [Field(Size(c) + p.second, c.tableLog)];
    PairStreamIs(c, message, u1, u2);
    var v := LE(src);
    HoldsSize(src, PairStream(c, message, u1, u2));
    ClosedStream(src, PairStream(c, message, u1, u2));
    PopState(c, inner, p.first, v);
    PopState(c, p.fields, p.second, v);
    StartRunIs(c, v, capacity);
    DecodeIsStart(c, src, capacity);
  }

  /** FSE_decompress_usingDTable undoes the interleaved encoding: for every message of two or
      more symbols the decoder returns it, or says that the destination is too small. */
  lemma PairRoundTrip(c: Code, message: seq<nat>, u1: nat, u2: nat, src: seq<U8>, capacity: nat)
    requires ValidCode(c) && Sendable(c, message) && StartingCells(c, message, u1, u2)
    requires u1 < Size(c) && u2 < Size(c)
    requires Holds(src, PairStream(c, message, u1, u2))
    ensures SimpleDecode(c, src, capacity)
            == if |message| <= capacity then Decoded(message) else DstSizeTooSmall
  {
    hide *;
    TailStarts(c, message, u1, u2);
    PairCells(c, message, u1, u2);
    PairOpens(c, message, u1, u2, src, capacity);
    RunRecovers(c, message, u1, u2, LE(src), [], capacity);
    assert [] + message == message;
  }

  /** A symbol that takes the whole table is in every cell, so no cell reads a bit. */
  lemma OnlySymbol(c: Code, s: nat)
    requires ValidCode(c) && s < |c.counts| && Weight(c.counts[s]) >= Size(c)
    ensures forall u :: 0 <= u < |c.cells| ==> c.cells[u].nbBits == 0
  {
    hide ValidTable, Pow2, WeightSum;
    forall u | 0 <= u < |c.cells|
      ensures c.cells[u].nbBits == 0
    {
      CellFacts(c.counts, c.tableLog, c.cells, u);
      var t := c.cells[u].symbol;
      if t != s {
        TwoWeights(c, s, t);
      }
      WholeTableReadsNothing(c, u);
    }
  }

  lemma TwoWeights(c: Code, s: nat, t: nat)
    requires ValidCode(c) && s < |c.counts| && t < |c.counts| && s != t
    ensures Weight(c.counts[s]) + Weight(c.counts[t]) <= Size(c)
  {
    hide DecodingTable;
    var a, b := if s < t then s else t, if s < t then t else s;
    SumMono(c.counts[..b], a);
    assert c.counts[..b][..a] == c.counts[..a];
    SumMono(c.counts, a);
    SumMono(c.counts, b);
  }

  /** Then nothing tells the decoder where to stop. */
  lemma {:induction false} NeverEnds(c: Code, v: nat, position: nat, s1: nat, s2: nat, out: seq<nat>, capacity: nat)
    requires ValidCode(c) && s1 < Size(c) && s2 < Size(c)
    requires forall u :: 0 <= u < |c.cells| ==> c.cells[u].nbBits == 0
    ensures SimpleRun(c, v, position, s1, s2, out, capacity) == DstSizeTooSmall
    decreases capacity - |out|
  {
    hide ValidTable, Pow2, Slice, SimpleRun, Size;
    if |out| > capacity - 2 {
      RunFull(c, v, position, s1, s2, out, capacity);
    } else {
      RunStep(c, v, position, s1, s2, out, capacity);
      NeverEnds(c, v, position, s2, c.cells[s1].newState + Slice(v, position, 0), out + [c.cells[s1].symbol], capacity);
    }
  }

  /** The one kind of message that is lost: of a symbol that takes the whole table. However much
      room there is, the decoder runs out of it. */
  lemma WholeTableLost(c: Code, message: seq<nat>, u1: nat, u2: nat, src: seq<U8>, capacity: nat)
    requires ValidCode(c) && Sendable(c, message) && |message| >= 2 && u1 < Size(c) && u2 < Size(c)
    requires Holds(src, PairStream(c, message, u1, u2))
    requires message[|message| - 2] < |c.counts| && Weight(c.counts[message[|message| - 2]]) >= Size(c)
    ensures SimpleDecode(c, src, capacity) == DstSizeTooSmall
  {
    hide *;
    OnlySymbol(c, message[|message| - 2]);
    PairOpens(c, message, u1, u2, src, capacity);
    var p := EncodePair(c, message, u1, u2);
    NeverEnds(c, LE(src), Total(p.fields), p.first, p.second, [], capacity);
  }

  lemma PairStreamIs(c: Code, message: seq<nat>, u1: nat, u2: nat)
    requires ValidCode(c) && Sendable(c, message) && |message| >= 2
    requires u1 < Size(c) && u2 < Size(c)
    ensures var p := EncodePair(c, message, u1, u2);
            PairStream(c, message, u1, u2)
            == p.fields + [Field(Size(c) + p.second, c.tableLog)] + [Field(Size(c) + p.first, c.tableLog)]
  {
    hide ValidTable, Pow2, Encodable, EncodePair, Size;
  }

  lemma DecodeIsStart(c: Code, src: seq<U8>, capacity: nat)
    requires ValidCode(c) && src != [] && src[|src| - 1] != 0
    ensures LE(src) > 0 && SimpleDecode(c, src, capacity) == StartRun(c, LE(src), capacity)
  {
    TopByte(src);
  }

  /** The decoder never looks at bits above its position: the end mark and whatever is over it
      do not influence the output. */
  lemma {:induction false} RunIgnoresAbove(c: Code, lo: nat, hi: nat, position: nat, s1: nat, s2: nat, out: seq<nat>, capacity: nat)
    requires ValidCode(c) && s1 < Size(c) && s2 < Size(c) && lo < Pow2(position)
    ensures SimpleRun(c, lo + Shl(hi, position), position, s1, s2, out, capacity)
            == SimpleRun(c, lo, position, s1, s2, out, capacity)
    decreases capacity - |out|
  {
    AgreeBelow(c, lo + Shl(hi, position), lo, position, position, s1, s2, out, capacity) by {
      forall pos: nat, width: nat | pos + width <= position
        ensures Slice(lo + Shl(hi, position), pos, width) == Slice(lo, pos, width)
      {
        SliceBelow(lo, hi, position, pos, width);
      }
    }
  }

  lemma {:induction false} AgreeBelow(c: Code, v: nat, w: nat, top: nat, position: nat, s1: nat, s2: nat, out: seq<nat>, capacity: nat)
    requires ValidCode(c) && s1 < Size(c) && s2 < Size(c) && position <= top
    requires forall pos: nat, width: nat :: pos + width <= top ==> Slice(v, pos, width) == Slice(w, pos, width)
    ensures SimpleRun(c, v, position, s1, s2, out, capacity) == SimpleRun(c, w, position, s1, s2, out, capacity)
    decreases capacity - |out|
  {
    CellCount(c);
    hide ValidTable, Pow2, Slice, SimpleRun, Size;
    if |out| > capacity - 2 {
      RunFull(c, v, position, s1, s2, out, capacity);
      RunFull(c, w, position, s1, s2, out, capacity);
    } else {
      RunStep(c, v, position, s1, s2, out, capacity);
      RunStep(c, w, position, s1, s2, out, capacity);
      var nb := c.cells[s1].nbBits;
      if nb <= position {
        var p: nat := position - nb;
        assert Slice(v, p, nb) == Slice(w, p, nb);
        AgreeBelow(c, v, w, top, p, s2, c.cells[s1].newState + Slice(w, p, nb), out + [c.cells[s1].symbol], capacity);
      }
    }
  }
}

/** HUF_readStats_body: reads the weights of a Huffman tree (section 4.2.1 of RFC 8878), adds
    the implied last one and checks the tree. */
module HufStats {
  import opened Bits
  import opened FseDecompress
  import opened FseBlock
  import opened FseCoder
  import opened NCount

  const HUF_TABLELOG_MAX: nat := 12

  datatype StatsError = BadSize | BadWeights | WeightsFailed(block: BlockResult)

  datatype StatsResult = Stats(size: nat, nbSymbols: nat, tableLog: nat) | StatsFailed(error: StatsError)

  /** (1 << w) >> 1: what a symbol of weight w takes of the code space. */
  function Share(w: nat): nat
  {
    if w == 0 then 0 else Pow2(w - 1)
  }

  function ShareSum(weights: seq<nat>): nat
  {
    if weights == [] then 0 else ShareSum(weights[..|weights| - 1]) + Share(weights[|weights| - 1])
  }

  /** The Kraft equality: the weights fill a code space of 2^tableLog exactly. */
  ghost predicate Complete(weights: seq<nat>, tableLog: nat)
  {
    ShareSum(weights) == Pow2(tableLog)
  }

  /** rankStats counts the symbols of each weight. */
  ghost predicate Histogram(ranks: seq<nat>, weights: seq<nat>)
  {
    && |ranks| == HUF_TABLELOG_MAX + 1
    && forall w :: 0 <= w < |ranks| ==> ranks[w] == multiset(weights)[w]
  }

  lemma ShareShift(w: nat)
    ensures Shr(Shl(1, w), 1) == Share(w)
  {
    if w > 0 {
      assert Shl(1, w) == 2 * Pow2(w - 1);
      assert Shr(2 * Pow2(w - 1), 1) == Shr(Pow2(w - 1), 0);
    }
  }

  /** Symbols of weight 1 are what makes the sum odd: a complete code has an even number of
      them, so the parity test of the reader never rejects. */
  lemma CompleteIsEven(weights: seq<nat>, tableLog: nat)
    requires Complete(weights, tableLog) && tableLog >= 1
    ensures multiset(weights)[1] % 2 == 0
  {
    Parity(weights);
  }

  lemma {:induction false} Parity(weights: seq<nat>)
    ensures ShareSum(weights) % 2 == multiset(weights)[1] % 2
  {
    hide Share;
    if weights != [] {
      var init, last := weights[..|weights| - 1], weights[|weights| - 1];
      Parity(init);
      OnesSnoc(init, last);
      assert weights == init + [last];
      ShareParity(last);
    }
  }

  lemma OnesSnoc(weights: seq<nat>, w: nat)
    ensures multiset(weights + [w])[1] == multiset(weights)[1] + if w == 1 then 1 else 0
  {
  }

  lemma ShareParity(w: nat)
    ensures Share(w) % 2 == if w == 1 then 1 else 0
  {
    if w >= 2 {
      DoublePow(w - 2);
    }
  }

  /** The implied weight: what is missing to the next power of two, if that is itself a power
      of two, is the share of a weight between 1 and the table log. */
  lemma ImpliedWeight(weights: seq<nat>)
    requires ShareSum(weights) > 0
    ensures var total := ShareSum(weights);
            var tableLog := HighBit(total) + 1;
            && Pow2(tableLog) > total
            && var rest := Pow2(tableLog) - total;
            && 1 <= HighBit(rest) + 1 <= tableLog
            && (Pow2(HighBit(rest)) == rest ==> Complete(weights + [HighBit(rest) + 1], tableLog))
  {
    hide Shl, HighBit;
    var total := ShareSum(weights);
    HighBitSpec(total);
    var tableLog := HighBit(total) + 1;
    var rest := Pow2(tableLog) - total;
    DoublePow(tableLog - 1);
    DoublePow(tableLog);
    Pow2Mono(tableLog, tableLog);
    HighBitBelow(rest, tableLog);
    assert (weights + [HighBit(rest) + 1])[..|weights|] == weights;
  }

  /** A last weight w completes the others to a code of at most 12 bits, with two symbols or
      more of weight 1. */
  ghost predicate CompletedBy(weights: seq<nat>, w: nat, tableLog: nat)
  {
    w >= 1 && tableLog <= HUF_TABLELOG_MAX && Complete(weights + [w], tableLog) && multiset(weights + [w])[1] >= 2
  }

  /** Explicit weights that the reader must accept, and no others. */
  ghost predicate Acceptable(weights: seq<nat>)
  {
    && (forall i :: 0 <= i < |weights| ==> weights[i] <= HUF_TABLELOG_MAX)
    && ShareSum(weights) > 0 && exists w: nat, tableLog: nat :: CompletedBy(weights, w, tableLog)
  }

  /** The implied weight is the only one that can complete the code. */
  lemma ImpliedUnique(weights: seq<nat>, w: nat, tableLog: nat)
    requires ShareSum(weights) > 0 && w >= 1 && Complete(weights + [w], tableLog)
    ensures tableLog == HighBit(ShareSum(weights)) + 1
    ensures var rest := Pow2(tableLog) - ShareSum(weights);
            rest == Pow2(w - 1) && HighBit(rest) == w - 1
  {
    hide *;
    SumLast(weights, w, tableLog);
    var total := ShareSum(weights);
    PowersApart(total, w - 1, tableLog);
    DoublePow(tableLog - 1);
    HighBitUnique(total, tableLog - 1);
    Pow2Mono(w - 1, w);
    HighBitUnique(Pow2(w - 1), w - 1);
  }

  lemma SumLast(weights: seq<nat>, w: nat, tableLog: nat)
    requires w >= 1
    ensures Complete(weights + [w], tableLog) <==> ShareSum(weights) + Pow2(w - 1) == Pow2(tableLog)
  {
    assert (weights + [w])[..|weights|] == weights;
  }

  /** A sum of a positive number and a power of two that is a power of two is the next one at
      most: the number is at least half of it. */
  lemma PowersApart(total: nat, k: nat, tableLog: nat)
    requires total > 0 && total + Pow2(k) == Pow2(tableLog)
    ensures k < tableLog && Pow2(tableLog - 1) <= total < Pow2(tableLog) && 0 < Pow2(k)
  {
    if tableLog <= k {
      Pow2Mono(tableLog, k);
      assert false;
    } else {
      Pow2Mono(k, tableLog - 1);
      DoublePow(tableLog - 1);
    }
  }

  /** Two weights to a byte, the high half first. */
  function Nibbles(bytes: seq<U8>): (r: seq<nat>)
    ensures |r| == 2 * |bytes|
  {
    if bytes == [] then [] else Nibbles(bytes[..|bytes| - 1]) + [bytes[|bytes| - 1] / 16, bytes[|bytes| - 1] % 16]
  }

  lemma {:induction false} NibbleAt(bytes: seq<U8>, i: nat)
    requires i < 2 * |bytes|
    ensures Nibbles(bytes)[i] == if i % 2 == 0 then bytes[i / 2] / 16 else bytes[i / 2] % 16
  {
    if i < 2 * |bytes| - 2 {
      NibbleAt(bytes[..|bytes| - 1], i);
    }
  }

  /** The i-th weight of an uncompressed header: the high half of a byte comes first. */
  lemma DirectWeightAt(src: seq<U8>, n: nat, i: nat)
    requires i < n && 1 + (n + 1) / 2 <= |src|
    ensures Nibbles(src[1..1 + (n + 1) / 2])[i] == if i % 2 == 0 then src[1 + i / 2] / 16 else src[1 + i / 2] % 16
  {
    NibbleAt(src[1..1 + (n + 1) / 2], i);
  }

  lemma AllDirect(src: seq<U8>, weights: seq<nat>)
    requires 1 + (|weights| + 1) / 2 <= |src| && weights == Nibbles(src[1..1 + (|weights| + 1) / 2])[..|weights|]
    ensures forall i :: 0 <= i < |weights| ==>
              weights[i] == if i % 2 == 0 then src[1 + i / 2] / 16 else src[1 + i / 2] % 16
  {
    forall i | 0 <= i < |weights|
      ensures weights[i] == if i % 2 == 0 then src[1 + i / 2] / 16 else src[1 + i / 2] % 16
    {
      DirectWeightAt(src, |weights|, i);
    }
  }

  /** The uncompressed form of the header: a count, and the weights as nibbles. */
  method ReadDirect(huffWeight: array<U8>, hwSize: nat, src: seq<U8>) returns (ok: bool, oSize: nat, error: StatsError)
    requires 0 < hwSize <= huffWeight.Length && |src| > 0 && src[0] >= 128
    modifies huffWeight
    ensures !ok <==> (src[0] - 126) / 2 + 1 > |src| || src[0] - 127 >= hwSize
    ensures !ok ==> error == if (src[0] - 126) / 2 + 1 > |src| then BadSize else BadWeights
    ensures ok ==> oSize == src[0] - 127 < hwSize
    ensures ok ==> huffWeight[..oSize] == Nibbles(src[1..1 + (oSize + 1) / 2])[..oSize]
    ensures ok ==> forall i :: 0 <= i < oSize ==>
                     huffWeight[i] == if i % 2 == 0 then src[1 + i / 2] / 16 else src[1 + i / 2] % 16
    ensures huffWeight[hwSize..] == old(huffWeight[hwSize..])
  {
    oSize := src[0] - 127;
    error := BadWeights;
    var iSize := (oSize + 1) / 2;
    if iSize + 1 > |src| {
      return false, oSize, BadSize;
    }
    if oSize >= hwSize {
      return false, oSize, BadWeights;
    }
    var ip := src[1..];
    var n := 0;
    while n < oSize
      invariant n % 2 == 0 && n <= oSize + 1
      invariant huffWeight[..n] == Nibbles(ip[..n / 2])
      invariant huffWeight[hwSize..] == old(huffWeight[hwSize..])
    {
      huffWeight[n] := ip[n / 2] / 16;
      huffWeight[n + 1] := ip[n / 2] % 16;
      assert ip[..n / 2 + 1][..n / 2] == ip[..n / 2];
      n := n + 2;
    }
    assert ip[..n / 2] == src[1..1 + iSize];
    assert huffWeight[..oSize] == huffWeight[..n][..oSize];
    AllDirect(src, huffWeight[..oSize]);
    assert forall i :: 0 <= i < oSize ==> huffWeight[..oSize][i] == huffWeight[i];
    ok := true;
  }

  /** What the FSE decoder makes of a compressed header: its table description and the code. */
  datatype Description = Description(header: NCountResult, ncount: seq<int>, c: Code)

  /** The block decoder's result on the compressed header. */
  ghost predicate BlockGives(src: seq<U8>, hwSize: nat, wkspSize: nat, block: BlockResult, d: Description)
  {
    && |src| > 0 && hwSize > 0 && 1 + src[0] <= |src|
    && BlockDecodes(block, src[1..1 + src[0]], hwSize - 1, 6, wkspSize, d.header, d.ncount, d.c)
  }

  /** Where the explicit weights come from: the nibbles of the header, or the output of the
      FSE decoder on the block that follows it. */
  ghost predicate HeaderWeights(src: seq<U8>, hwSize: nat, wkspSize: nat, weights: seq<nat>, d: Description)
  {
    && |src| > 0 && |weights| < hwSize
    && if src[0] >= 128 then
         && |weights| == src[0] - 127 && 1 + (|weights| + 1) / 2 <= |src|
         && weights == Nibbles(src[1..1 + (|weights| + 1) / 2])[..|weights|]
       else
         BlockGives(src, hwSize, wkspSize, Stream(Decoded(weights)), d)
  }

  /** The FSE decoder gave no weights. The cause is in the block: its workspace, its table
      description or its stream, and never the table builder. */
  ghost predicate BlockRefused(src: seq<U8>, hwSize: nat, wkspSize: nat, block: BlockResult, d: Description)
  {
    && BlockGives(src, hwSize, wkspSize, block, d)
    && !(block.Stream? && block.outcome.Decoded?) && !block.BuildFailed?
  }

  /** The bytes the header takes by its own account. */
  function HeaderSize(src: seq<U8>): nat
    requires |src| > 0
  {
    1 + if src[0] >= 128 then (src[0] - 126) / 2 else src[0]
  }

  lemma RefusedBlock(src: seq<U8>, hwSize: nat, wkspSize: nat, block: BlockResult, d: Description)
    requires |src| > 0 && hwSize > 0 && 1 + src[0] <= |src|
    requires !block.Stream? || !block.outcome.Decoded?
    requires BlockDecodes(block, src[1..1 + src[0]], hwSize - 1, 6, wkspSize, d.header, d.ncount, d.c)
    ensures BlockRefused(src, hwSize, wkspSize, block, d)
  {
    hide Agrees, ParseHeader, SimpleDecode, CodeOfHeader, DecompressWkspSize;
  }

  lemma NotAcceptable(weights: seq<nat>)
    requires ShareSum(weights) == 0 || !forall i :: 0 <= i < |weights| ==> weights[i] <= HUF_TABLELOG_MAX
    ensures !Acceptable(weights)
  {
  }

  lemma SizeOfHeader(src: seq<U8>)
    requires |src| > 0
    ensures HeaderSize(src) == 1 + if src[0] >= 128 then (src[0] - 126) / 2 else src[0]
  {
  }

  lemma DirectWeights(src: seq<U8>, hwSize: nat, wkspSize: nat, weights: seq<nat>, d: Description)
    requires |src| > 0 && src[0] >= 128 && |weights| == src[0] - 127 < hwSize && 1 + (|weights| + 1) / 2 <= |src|
    requires weights == Nibbles(src[1..1 + (|weights| + 1) / 2])[..|weights|]
    ensures HeaderWeights(src, hwSize, wkspSize, weights, d)
  {
  }

  lemma BlockWeights(src: seq<U8>, hwSize: nat, wkspSize: nat, weights: seq<nat>, d: Description)
    requires |src| > 0 && src[0] < 128 && |weights| < hwSize && 1 + src[0] <= |src|
    requires BlockDecodes(Stream(Decoded(weights)), src[1..1 + src[0]], hwSize - 1, 6, wkspSize, d.header, d.ncount, d.c)
    ensures HeaderWeights(src, hwSize, wkspSize, weights, d)
  {
    hide BlockDecodes;
  }

  /** Counts the weights and adds up their shares. */
  method Collect(huffWeight: array<U8>, oSize: nat, rankStats: array<nat>) returns (ok: bool, weightTotal: nat)
    requires oSize <= huffWeight.Length && rankStats.Length == HUF_TABLELOG_MAX + 1
    modifies rankStats
    ensures ok <==> forall n :: 0 <= n < oSize ==> huffWeight[n] <= HUF_TABLELOG_MAX
    ensures ok ==> Histogram(rankStats[..], huffWeight[..oSize]) && weightTotal == ShareSum(huffWeight[..oSize])
  {
    hide Shl, Shr, Histogram;
    for i := 0 to rankStats.Length
      invariant forall k :: 0 <= k < i ==> rankStats[k] == 0
    {
      rankStats[i] := 0;
    }
    weightTotal := 0;
    EmptyHistogram(rankStats[..]);
    assert huffWeight[..0] == [];
    for n := 0 to oSize
      invariant forall k :: 0 <= k < n ==> huffWeight[k] <= HUF_TABLELOG_MAX
      invariant Histogram(rankStats[..], huffWeight[..n]) && weightTotal == ShareSum(huffWeight[..n])
    {
      if huffWeight[n] > HUF_TABLELOG_MAX {
        return false, weightTotal;
      }
      var w := huffWeight[n];
      ghost var before := rankStats[..];
      CountOne(before, huffWeight[..n], w);
      rankStats[w] := rankStats[w] + 1;
      assert rankStats[..] == before[w := before[w] + 1];
      ShareShift(w);
      weightTotal := weightTotal + Shr(Shl(1, w), 1);
      assert huffWeight[..n + 1] == huffWeight[..n] + [w];
      assert huffWeight[..n + 1][..n] == huffWeight[..n];
    }
    ok := true;
  }

  lemma EmptyHistogram(ranks: seq<nat>)
    requires |ranks| == HUF_TABLELOG_MAX + 1 && forall k :: 0 <= k < |ranks| ==> ranks[k] == 0
    ensures Histogram(ranks, [])
  {
  }

  lemma CountOne(ranks: seq<nat>, weights: seq<nat>, w: nat)
    requires Histogram(ranks, weights) && w <= HUF_TABLELOG_MAX
    ensures |ranks| == HUF_TABLELOG_MAX + 1 && Histogram(ranks[w := ranks[w] + 1], weights + [w])
  {
  }

  /** The weights of either form of the header; `Stats` stands for success here. */
  method ReadWeights(huffWeight: array<U8>, hwSize: nat, src: seq<U8>, wkspSize: nat)
    returns (r: StatsResult, oSize: nat, iSize: nat, ghost d: Description)
    requires 0 < hwSize <= huffWeight.Length && |src| > 0
    modifies huffWeight
    ensures r.StatsFailed? && r.error.BadSize? <==> HeaderSize(src) > |src|
    ensures r.StatsFailed? && r.error.BadWeights? ==> src[0] >= 128 && src[0] - 127 >= hwSize
    ensures r.StatsFailed? && r.error.WeightsFailed? ==>
              src[0] < 128 && BlockRefused(src, hwSize, wkspSize, r.error.block, d)
    ensures r.Stats? ==> oSize < hwSize && HeaderWeights(src, hwSize, wkspSize, huffWeight[..oSize], d)
    ensures r.Stats? ==> iSize == if src[0] >= 128 then (src[0] - 126) / 2 else src[0]
    ensures huffWeight[hwSize..] == old(huffWeight[hwSize..])
  {
    hide *;
    SizeOfHeader(src);
    d := Description(NCountResult.Failed(NCountError.CorruptionDetected), [], Code([], 0, []));
    iSize, oSize := src[0], 0;
    if iSize >= 128 {
      var ok, n, error := ReadDirect(huffWeight, hwSize, src);
      if !ok {
        return StatsFailed(error), oSize, iSize, d;
      }
      oSize := n;
      iSize := (oSize + 1) / 2;
      DirectWeights(src, hwSize, wkspSize, huffWeight[..oSize], d);
    } else {
      if iSize + 1 > |src| {
        return StatsFailed(BadSize), oSize, iSize, d;
      }
      var block, header, ncount, c := DecompressBlock(huffWeight, hwSize - 1, src[1..1 + iSize], 6, wkspSize);
      d := Description(header, ncount, c);
      assert huffWeight[hwSize..] == huffWeight[hwSize - 1..][1..];
      if !block.Stream? || !block.outcome.Decoded? {
        RefusedBlock(src, hwSize, wkspSize, block, d);
        return StatsFailed(WeightsFailed(block)), oSize, iSize, d;
      }
      oSize := |block.outcome.out|;
      BlockWeights(src, hwSize, wkspSize, huffWeight[..oSize], d);
    }
    r := Stats(0, 0, 0);
  }

  /** HUF_readStats_body. What it accepts is a complete code: the weights, with the implied
      one, satisfy the Kraft equality, and rankStats is their histogram. */
  method ReadStats(huffWeight: array<U8>, hwSize: nat, rankStats: array<nat>, src: seq<U8>, wkspSize: nat)
    returns (r: StatsResult, ghost weights: seq<nat>, ghost d: Description)
    requires 0 < hwSize <= huffWeight.Length && rankStats.Length == HUF_TABLELOG_MAX + 1
    modifies huffWeight, rankStats
    ensures r.StatsFailed? && r.error.BadSize? <==> |src| == 0 || HeaderSize(src) > |src|
    ensures r.StatsFailed? && r.error.BadWeights? ==>
              || (src[0] >= 128 && src[0] - 127 >= hwSize)
              || (HeaderWeights(src, hwSize, wkspSize, weights, d) && !Acceptable(weights))
    ensures r.StatsFailed? && r.error.WeightsFailed? ==>
              src[0] < 128 && BlockRefused(src, hwSize, wkspSize, r.error.block, d)
    ensures r.Stats? ==> |src| > 0 && r.size == (if src[0] >= 128 then (src[0] - 126) / 2 else src[0]) + 1 <= |src|
    ensures r.Stats? ==> 1 <= r.nbSymbols == |weights| <= hwSize && huffWeight[..r.nbSymbols] == weights
    ensures r.Stats? ==> HeaderWeights(src, hwSize, wkspSize, weights[..|weights| - 1], d)
                         && Acceptable(weights[..|weights| - 1])
    ensures r.Stats? && src[0] >= 128 ==>
              r.nbSymbols == src[0] - 126
              && forall i :: 0 <= i < r.nbSymbols - 1 ==>
                   weights[i] == if i % 2 == 0 then src[1 + i / 2] / 16 else src[1 + i / 2] % 16
    ensures r.Stats? ==> 1 <= r.tableLog <= HUF_TABLELOG_MAX && Complete(weights, r.tableLog)
    ensures r.Stats? ==> 1 <= weights[|weights| - 1] <= r.tableLog
    ensures r.Stats? ==> Histogram(rankStats[..], weights) && multiset(weights)[1] >= 2
    ensures huffWeight[hwSize..] == old(huffWeight[hwSize..])
  {
    hide *;
    weights, d := [], Description(NCountResult.Failed(NCountError.CorruptionDetected), [], Code([], 0, []));
    if |src| == 0 {
      return StatsFailed(BadSize), weights, d;
    }
    SizeOfHeader(src);
    var read, oSize, iSize;
    read, oSize, iSize, d := ReadWeights(huffWeight, hwSize, src, wkspSize);
    if read.StatsFailed? {
      return read, weights, d;
    }
    HeaderWeightAt(src, hwSize, wkspSize, huffWeight[..oSize], d);
    weights := huffWeight[..oSize];
    var collected, weightTotal := Collect(huffWeight, oSize, rankStats);
    if !collected {
      NotAcceptable(weights);
      return StatsFailed(BadWeights), weights, d;
    }
    if weightTotal == 0 {
      NotAcceptable(weights);
      return StatsFailed(BadWeights), weights, d;
    }
    r, weights := AddLast(huffWeight, hwSize, oSize, rankStats, weightTotal, iSize);
  }

  lemma HeaderWeightAt(src: seq<U8>, hwSize: nat, wkspSize: nat, weights: seq<nat>, d: Description)
    requires HeaderWeights(src, hwSize, wkspSize, weights, d)
    ensures |src| > 0
    ensures src[0] >= 128 ==>
              |weights| == src[0] - 127 && 1 + (|weights| + 1) / 2 <= |src|
              && forall i :: 0 <= i < |weights| ==>
                   weights[i] == if i % 2 == 0 then src[1 + i / 2] / 16 else src[1 + i / 2] % 16
  {
    hide BlockGives, Nibbles;
    if src[0] >= 128 {
      AllDirect(src, weights);
    }
  }

  /** The implied weight and the final checks. */
  method AddLast(huffWeight: array<U8>, hwSize: nat, oSize: nat, rankStats: array<nat>, weightTotal: nat, iSize: nat)
    returns (r: StatsResult, ghost weights: seq<nat>)
    requires oSize < hwSize <= huffWeight.Length && rankStats.Length == HUF_TABLELOG_MAX + 1
    requires Histogram(rankStats[..], huffWeight[..oSize]) && weightTotal == ShareSum(huffWeight[..oSize]) > 0
    modifies huffWeight, rankStats
    requires forall n :: 0 <= n < oSize ==> huffWeight[n] <= HUF_TABLELOG_MAX
    ensures r.Stats? <==> Acceptable(old(huffWeight[..oSize]))
    ensures r.StatsFailed? ==> r.error == BadWeights && weights == old(huffWeight[..oSize])
    ensures r.Stats? ==> r.size == iSize + 1 && r.nbSymbols == |weights| == oSize + 1
    ensures r.Stats? ==> huffWeight[..r.nbSymbols] == weights && weights[..oSize] == old(huffWeight[..oSize])
    ensures r.Stats? ==> 1 <= r.tableLog <= HUF_TABLELOG_MAX && Complete(weights, r.tableLog)
    ensures r.Stats? ==> 1 <= weights[oSize] <= r.tableLog
    ensures r.Stats? ==> Histogram(rankStats[..], weights) && multiset(weights)[1] >= 2
    ensures huffWeight[hwSize..] == old(huffWeight[hwSize..])
  {
    hide Shl, Pow2, HighBit, ShareSum, Complete, Acceptable;
    ghost var first: seq<nat> := huffWeight[..oSize];
    weights := first;
    ImpliedWeight(first);
    OnlyImplied(first);
    var tableLog := HighBit(weightTotal) + 1;
    if tableLog > HUF_TABLELOG_MAX {
      return StatsFailed(BadWeights), weights;
    }
    var rest := Pow2(tableLog) - weightTotal;
    var verif, lastWeight := Pow2(HighBit(rest)), HighBit(rest) + 1;
    if verif != rest {
      return StatsFailed(BadWeights), weights;
    }
    StoreLast(huffWeight, hwSize, oSize, rankStats, lastWeight);
    ghost var all := first + [lastWeight];
    CompleteIsEven(all, tableLog);
    assert rankStats[1] % 2 == 0;
    if rankStats[1] < 2 || rankStats[1] % 2 == 1 {
      return StatsFailed(BadWeights), weights;
    }
    weights := all;
    r := Stats(iSize + 1, oSize + 1, tableLog);
  }

  method StoreLast(huffWeight: array<U8>, hwSize: nat, oSize: nat, rankStats: array<nat>, lastWeight: U8)
    requires oSize < hwSize <= huffWeight.Length && Histogram(rankStats[..], huffWeight[..oSize])
    requires lastWeight <= HUF_TABLELOG_MAX
    modifies huffWeight, rankStats
    ensures huffWeight[..oSize + 1] == old(huffWeight[..oSize]) + [lastWeight]
    ensures Histogram(rankStats[..], huffWeight[..oSize + 1])
    ensures huffWeight[hwSize..] == old(huffWeight[hwSize..])
  {
    CountOne(rankStats[..], huffWeight[..oSize], lastWeight);
    hide Histogram;
    huffWeight[oSize] := lastWeight;
    assert huffWeight[..oSize + 1] == old(huffWeight[..oSize]) + [lastWeight];
    ghost var before := rankStats[..];
    rankStats[lastWeight] := rankStats[lastWeight] + 1;
    assert rankStats[..] == before[lastWeight := before[lastWeight] + 1];
  }

  /** Acceptance, in the terms of the code. */
  lemma OnlyImplied(weights: seq<nat>)
    requires ShareSum(weights) > 0 && forall i :: 0 <= i < |weights| ==> weights[i] <= HUF_TABLELOG_MAX
    ensures var tableLog := HighBit(ShareSum(weights)) + 1;
            Pow2(tableLog) > ShareSum(weights)
            && var rest := Pow2(tableLog) - ShareSum(weights);
            Acceptable(weights) <==>
              && tableLog <= HUF_TABLELOG_MAX && Pow2(HighBit(rest)) == rest
              && multiset(weights + [HighBit(rest) + 1])[1] >= 2
  {
    hide *;
    ImpliedWeight(weights);
    var tableLog := HighBit(ShareSum(weights)) + 1;
    var rest := Pow2(tableLog) - ShareSum(weights);
    var w := HighBit(rest) + 1;
    if Acceptable(weights) {
      var w', log := Completion(weights);
      ImpliedUnique(weights, w', log);
    }
    if tableLog <= HUF_TABLELOG_MAX && Pow2(HighBit(rest)) == rest && multiset(weights + [w])[1] >= 2 {
      Completed(weights, w, tableLog);
    }
  }

  lemma Completion(weights: seq<nat>) returns (w: nat, tableLog: nat)
    requires Acceptable(weights)
    ensures w >= 1 && tableLog <= HUF_TABLELOG_MAX && Complete(weights + [w], tableLog)
    ensures multiset(weights + [w])[1] >= 2
  {
    w, tableLog :| CompletedBy(weights, w, tableLog);
  }

  lemma Completed(weights: seq<nat>, w: nat, tableLog: nat)
    requires ShareSum(weights) > 0 && forall i :: 0 <= i < |weights| ==> weights[i] <= HUF_TABLELOG_MAX
    requires w >= 1 && tableLog <= HUF_TABLELOG_MAX && Complete(weights + [w], tableLog)
    requires multiset(weights + [w])[1] >= 2
    ensures Acceptable(weights)
  {
    assert CompletedBy(weights, w, tableLog);
  }
}

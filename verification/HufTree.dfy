/** HUF_writeCTable_wksp: the description of a Huffman tree, written from the lengths of its codes
    and read back by HUF_readStats. */
module HufTree {
  import opened Bits
  import opened FseDecompress
  import opened FseCoder
  import opened FseBlock
  import opened HufStats
  import HufWeights
  import Hist

  const HUF_SYMBOLVALUE_MAX: nat := 255

  datatype TreeError = Generic | MaxSymbolValueTooLarge | DstSizeTooSmall

  datatype TreeResult = Written(size: nat) | WriteFailed(error: TreeError)

  // ------------------------------------------------------------------ the uncompressed form

  /** Byte i of the uncompressed form: two weights, the first one in the high half. */
  function PairOf(weights: seq<nat>, i: nat): nat
    requires 2 * i < |weights|
  {
    16 * weights[2 * i] + if 2 * i + 1 < |weights| then weights[2 * i + 1] else 0
  }

  /** The weights as they are; the number of them goes into the first byte. */
  method WriteDirect(dst: array<U8>, weights: seq<U8>) returns (r: TreeResult)
    requires forall i :: 0 <= i < |weights| ==> weights[i] < 16
    modifies dst
    ensures |weights| > 128 ==> r == WriteFailed(Generic)
    ensures |weights| <= 128 ==>
              r == if (|weights| + 1) / 2 + 1 > dst.Length then WriteFailed(TreeError.DstSizeTooSmall)
                   else Written((|weights| + 1) / 2 + 1)
    ensures r.Written? ==> dst[0] == 127 + |weights| && forall i :: 0 <= i < r.size - 1 ==> dst[1 + i] == PairOf(weights, i)
  {
    var maxSymbolValue := |weights|;
    if maxSymbolValue > 128 {
      return WriteFailed(Generic);
    }
    if (maxSymbolValue + 1) / 2 + 1 > dst.Length {
      return WriteFailed(TreeError.DstSizeTooSmall);
    }
    dst[0] := 128 + (maxSymbolValue - 1);
    var padded := weights + [0];
    var n := 0;
    while n < maxSymbolValue
      invariant n % 2 == 0 && n <= maxSymbolValue + 1 && dst[0] == 127 + maxSymbolValue
      invariant forall i :: 0 <= i < n / 2 ==> dst[1 + i] == PairOf(weights, i)
    {
      dst[n / 2 + 1] := 16 * padded[n] + padded[n + 1];
      n := n + 2;
    }
    r := Written((maxSymbolValue + 1) / 2 + 1);
  }

  /** What WriteDirect leaves in the destination. */
  ghost predicate DirectForm(block: seq<U8>, weights: seq<nat>)
  {
    && |block| == (|weights| + 1) / 2 + 1 && block[0] == 127 + |weights|
    && forall i :: 0 <= i < |block| - 1 ==> block[1 + i] == PairOf(weights, i)
  }

  /** The uncompressed form is read back weight by weight. */
  lemma DirectReadsBack(block: seq<U8>, more: seq<U8>, weights: seq<nat>, hwSize: nat, wkspSize: nat,
                        found: seq<nat>, d: Description)
    requires (forall i :: 0 <= i < |weights| ==> weights[i] < 16) && |weights| > 0 && DirectForm(block, weights)
    requires HeaderWeights(block + more, hwSize, wkspSize, found, d)
    ensures found == weights
  {
    hide HeaderWeights;
    HeaderWeightAt(block + more, hwSize, wkspSize, found, d);
    forall i | 0 <= i < |weights|
      ensures i < |found| && found[i] == weights[i]
    {
      Halves(weights, i);
      assert (block + more)[1 + i / 2] == block[1 + i / 2] == PairOf(weights, i / 2);
    }
  }

  lemma Halves(weights: seq<nat>, i: nat)
    requires (forall k :: 0 <= k < |weights| ==> weights[k] < 16) && i < |weights|
    ensures weights[i] == if i % 2 == 0 then PairOf(weights, i / 2) / 16 else PairOf(weights, i / 2) % 16
  {
  }

  // ------------------------------------------------------------------ lengths and weights

  /** bitsToWeight. */
  function WeightOf(length: nat, huffLog: nat): nat
    requires length <= huffLog
  {
    if length == 0 then 0 else huffLog + 1 - length
  }

  function WeightsOf(lengths: seq<nat>, huffLog: nat): (weights: seq<nat>)
    requires forall i :: 0 <= i < |lengths| ==> lengths[i] <= huffLog
    ensures |weights| == |lengths|
    ensures forall i :: 0 <= i < |lengths| ==> weights[i] == WeightOf(lengths[i], huffLog)
  {
    seq(|lengths|, i requires 0 <= i < |lengths| => WeightOf(lengths[i], huffLog))
  }

  /** The share of the code space that a code of this length takes, out of 2^huffLog. */
  function KraftSum(lengths: seq<nat>, huffLog: nat): nat
    requires forall i :: 0 <= i < |lengths| ==> lengths[i] <= huffLog
  {
    if lengths == [] then 0
    else
      var last := lengths[|lengths| - 1];
      KraftSum(lengths[..|lengths| - 1], huffLog) + if last == 0 then 0 else Pow2(huffLog - last)
  }

  /** The lengths of a complete prefix code whose longest code has huffLog bits, with a code for
      the last symbol. */
  ghost predicate TreeLengths(lengths: seq<nat>, huffLog: nat)
  {
    && (forall i :: 0 <= i < |lengths| ==> lengths[i] <= huffLog) && 1 <= huffLog <= HUF_TABLELOG_MAX
    && KraftSum(lengths, huffLog) == Pow2(huffLog)
    && huffLog in lengths && 2 <= |lengths| && lengths[|lengths| - 1] > 0
  }

  lemma {:induction false} KraftIsShares(lengths: seq<nat>, huffLog: nat)
    requires forall i :: 0 <= i < |lengths| ==> lengths[i] <= huffLog
    ensures KraftSum(lengths, huffLog) == ShareSum(WeightsOf(lengths, huffLog))
  {
    if lengths != [] {
      var init := lengths[..|lengths| - 1];
      KraftIsShares(init, huffLog);
      var weights := WeightsOf(lengths, huffLog);
      assert weights[..|weights| - 1] == WeightsOf(init, huffLog);
    }
  }

  /** The weights of a tree, all but the last, are what the reader accepts; and the last one and
      the table log are the ones it implies. */
  lemma TreeAcceptable(lengths: seq<nat>, huffLog: nat)
    requires TreeLengths(lengths, huffLog)
    ensures var weights := WeightsOf(lengths, huffLog);
            && Complete(weights, huffLog) && weights[|lengths| - 1] >= 1
            && (forall i :: 0 <= i < |weights| ==> weights[i] <= HUF_TABLELOG_MAX)
            && ShareSum(weights[..|lengths| - 1]) > 0 && Acceptable(weights[..|lengths| - 1])
  {
    hide Pow2, ShareSum, KraftSum, Acceptable, WeightsOf;
    var weights, n := WeightsOf(lengths, huffLog), |lengths| - 1;
    KraftIsShares(lengths, huffLog);
    CompleteIsEven(weights, huffLog);
    var i :| 0 <= i < |lengths| && lengths[i] == huffLog;
    TwoOnes(weights, i);
    Completed(weights[..n], weights[n], huffLog);
  }

  /** An even number of weights 1 that is not none leaves one before the last. */
  lemma TwoOnes(weights: seq<nat>, i: nat)
    requires i < |weights| && weights[i] == 1 && multiset(weights)[1] % 2 == 0
    ensures var n := |weights| - 1;
            weights == weights[..n] + [weights[n]] && multiset(weights)[1] >= 2 && ShareSum(weights[..n]) > 0
  {
    hide ShareSum;
    var n := |weights| - 1;
    assert weights[i] in multiset(weights);
    assert weights == weights[..n] + [weights[n]];
    assert 1 in multiset(weights[..n]);
    var j :| 0 <= j < n && weights[..n][j] == 1;
    SharesSomething(weights[..n], j);
  }

  lemma {:induction false} SharesSomething(weights: seq<nat>, i: nat)
    requires i < |weights| && weights[i] == 1
    ensures ShareSum(weights) > 0
  {
    if i < |weights| - 1 {
      SharesSomething(weights[..|weights| - 1], i);
    }
  }

  // ------------------------------------------------------------------ the writer

  /** Weights that FSE is asked to compress. */
  predicate Mixed(weights: seq<nat>)
  {
    |weights| > 1 && !HufWeights.AllSame(weights) && !HufWeights.AllDifferent(weights)
  }

  /** A tree description: the weights of all symbols but the last, in either form. */
  ghost predicate TreeForm(tree: seq<U8>, weights: seq<nat>, norm: seq<int>, tableLog: nat, c: Code, headerSize: nat)
  {
    || DirectForm(tree, weights)
    || (Mixed(weights) && 1 < |tree| <= 128 && tree[0] == |tree| - 1
        && HufWeights.IsBlock(tree[1..], norm, tableLog, weights, c, headerSize))
  }

  /** The conversion table, and the weights of all symbols but the last. */
  method ToWeights(lengths: seq<nat>, huffLog: nat) returns (weights: seq<U8>)
    requires 0 < |lengths| && huffLog <= HUF_TABLELOG_MAX && forall i :: 0 <= i < |lengths| ==> lengths[i] <= huffLog
    ensures weights == WeightsOf(lengths, huffLog)[..|lengths| - 1]
    ensures forall i :: 0 <= i < |weights| ==> weights[i] <= HUF_TABLELOG_MAX
  {
    var bitsToWeight := new U8[HUF_TABLELOG_MAX + 1];
    bitsToWeight[0] := 0;
    for n := 1 to huffLog + 1
      invariant bitsToWeight[0] == 0 && forall k :: 1 <= k < n ==> bitsToWeight[k] == huffLog + 1 - k
    {
      bitsToWeight[n] := huffLog + 1 - n;
    }
    var huffWeight := new U8[|lengths|];
    for n := 0 to |lengths| - 1
      invariant bitsToWeight[0] == 0 && forall k :: 1 <= k <= huffLog ==> bitsToWeight[k] == huffLog + 1 - k
      invariant forall k :: 0 <= k < n ==> huffWeight[k] == WeightOf(lengths[k], huffLog) <= HUF_TABLELOG_MAX
    {
      huffWeight[n] := bitsToWeight[lengths[n]];
    }
    weights := huffWeight[..|lengths| - 1];
  }

  /** HUF_writeCTable_wksp. Symbols 0 to maxSymbolValue have these code lengths; the weight of the
      last one is left to the reader. The compressed form is chosen when it takes fewer bytes
      than half the number of weights. */
  method WriteCTable(dst: array<U8>, lengths: seq<nat>, huffLog: nat, norm: seq<int>, tableLog: nat)
    returns (r: TreeResult, ghost c: Code, ghost headerSize: nat, ghost tried: HufWeights.CompressResult)
    requires 0 < |lengths| && huffLog <= HUF_TABLELOG_MAX && forall i :: 0 <= i < |lengths| ==> lengths[i] <= huffLog
    requires var weights := WeightsOf(lengths, huffLog)[..|lengths| - 1];
             Mixed(weights) ==> HufWeights.NormOf(norm, tableLog, weights)
    modifies dst
    ensures |lengths| - 1 > HUF_SYMBOLVALUE_MAX ==> r == WriteFailed(MaxSymbolValueTooLarge)
    ensures r.Written? ==>
              && r.size <= dst.Length
              && TreeForm(dst[..r.size], WeightsOf(lengths, huffLog)[..|lengths| - 1], norm, tableLog, c, headerSize)
    ensures r.Written? ==>
              r.size == if tried.Block? && 1 < tried.size < (|lengths| - 1) / 2 then tried.size + 1 else |lengths| / 2 + 1
    ensures !r.Written? && |lengths| - 1 <= 128 ==>
              || dst.Length < |lengths| / 2 + 1
              || (Mixed(WeightsOf(lengths, huffLog)[..|lengths| - 1])
                  && HufWeights.NormOf(norm, tableLog, []) && HufWeights.HeaderNeeded(norm, tableLog) >= dst.Length)
  {
    hide *;
    Limits();
    c, headerSize, tried := Code([], 0, []), 0, HufWeights.NotCompressible;
    var maxSymbolValue := |lengths| - 1;
    if maxSymbolValue > HUF_SYMBOLVALUE_MAX {
      return WriteFailed(MaxSymbolValueTooLarge), c, headerSize, tried;
    }
    var huffWeight := ToWeights(lengths, huffLog);
    if dst.Length < 1 {
      return WriteFailed(TreeError.DstSizeTooSmall), c, headerSize, tried;
    }
    MixedIs(huffWeight);
    assert Mixed(huffWeight) ==> HufWeights.NormOf(norm, tableLog, huffWeight);
    var block := new U8[dst.Length - 1];
    var compressed;
    AllWithinIs(huffWeight);
    compressed, c, headerSize := HufWeights.CompressWeights(block, huffWeight, norm, tableLog);
    tried := compressed;
    if compressed.HeaderTooLong? {
      return WriteFailed(TreeError.DstSizeTooSmall), c, headerSize, tried;
    }
    var hSize := match compressed case Block(size) => size case SingleSymbol => 1 case _ => 0;
    if hSize > 1 && hSize < maxSymbolValue / 2 {
      ghost var bytes := block[..hSize];
      dst[0] := hSize;
      forall i | 0 <= i < hSize { dst[1 + i] := block[i]; }
      assert dst[..hSize + 1][1..] == bytes;
      BlockForm(dst[..hSize + 1], huffWeight, norm, tableLog, c, headerSize);
      return Written(hSize + 1), c, headerSize, tried;
    }
    r := WriteDirect(dst, huffWeight);
    if r.Written? {
      DirectIs(dst[..r.size], huffWeight, norm, tableLog, c, headerSize);
    }
  }

  lemma Limits()
    ensures HUF_TABLELOG_MAX == 12 && HUF_SYMBOLVALUE_MAX == 255
  {
  }

  lemma MixedIs(weights: seq<nat>)
    ensures Mixed(weights) <==> |weights| > 1 && !HufWeights.AllSame(weights) && !HufWeights.AllDifferent(weights)
  {
  }

  lemma AllWithinIs(weights: seq<U8>)
    requires forall i :: 0 <= i < |weights| ==> weights[i] <= HUF_TABLELOG_MAX
    ensures Hist.AllWithin(weights, HUF_TABLELOG_MAX)
  {
  }

  lemma BlockForm(tree: seq<U8>, weights: seq<nat>, norm: seq<int>, tableLog: nat, c: Code, headerSize: nat)
    requires Mixed(weights) && 1 < |tree| <= 128 && tree[0] == |tree| - 1
    requires HufWeights.IsBlock(tree[1..], norm, tableLog, weights, c, headerSize)
    ensures TreeForm(tree, weights, norm, tableLog, c, headerSize)
  {
    hide HufWeights.IsBlock, Mixed;
  }

  lemma DirectIs(tree: seq<U8>, weights: seq<nat>, norm: seq<int>, tableLog: nat, c: Code, headerSize: nat)
    requires |tree| == (|weights| + 1) / 2 + 1 && tree[0] == 127 + |weights|
    requires forall i :: 0 <= i < |tree| - 1 ==> tree[1 + i] == PairOf(weights, i)
    ensures TreeForm(tree, weights, norm, tableLog, c, headerSize)
  {
  }

  // ------------------------------------------------------------------ and back

  /** The reader finds the written weights in either form. */
  lemma WeightsReadBack(tree: seq<U8>, more: seq<U8>, weights: seq<nat>, norm: seq<int>, tableLog: nat, c: Code, headerSize: nat,
                        hwSize: nat, wkspSize: nat, found: seq<nat>, d: Description)
    requires (forall i :: 0 <= i < |weights| ==> weights[i] <= HUF_TABLELOG_MAX) && 0 < |weights| < hwSize
    requires TreeForm(tree, weights, norm, tableLog, c, headerSize) && tree != []
    requires Mixed(weights) ==> Suits(norm, tableLog, weights, wkspSize)
    requires HeaderWeights(tree + more, hwSize, wkspSize, found, d)
    ensures found == weights
  {
    hide HeaderWeights, HufWeights.IsBlock, Suits;
    if DirectForm(tree, weights) {
      DirectReadsBack(tree, more, weights, hwSize, wkspSize, found, d);
    } else {
      SuitsIs(norm, tableLog, weights, wkspSize);
      assert tree + more == [|tree| - 1] + tree[1..] + more;
      HufWeights.StatsReadBack(tree + more, tree[1..], more, norm, tableLog, weights, c, headerSize, hwSize, wkspSize, found, d);
    }
  }

  /** Counts that cover the weights, and a work space for the reader of their description. */
  ghost predicate Suits(norm: seq<int>, tableLog: nat, weights: seq<nat>, wkspSize: nat)
  {
    HufWeights.NormOf(norm, tableLog, weights) && DecompressWkspSize(tableLog, |norm| - 1) <= wkspSize
  }

  lemma SuitsIs(norm: seq<int>, tableLog: nat, weights: seq<nat>, wkspSize: nat)
    requires Suits(norm, tableLog, weights, wkspSize)
    ensures tableLog <= HufWeights.MAX_LOG && 0 < |norm| && DecompressWkspSize(tableLog, |norm| - 1) <= wkspSize
    ensures HufWeights.NormOf(norm, tableLog, weights)
  {
    hide DecompressWkspSize;
  }

  /** The block decoder never refuses a written block. */
  lemma NotRefused(tree: seq<U8>, more: seq<U8>, weights: seq<nat>, norm: seq<int>, tableLog: nat, c: Code, headerSize: nat,
                   hwSize: nat, wkspSize: nat, block: BlockResult, d: Description)
    requires TreeForm(tree, weights, norm, tableLog, c, headerSize) && tree != [] && tree[0] < 128
    requires 0 < |weights| < hwSize && (Mixed(weights) ==> Suits(norm, tableLog, weights, wkspSize))
    ensures !BlockRefused(tree + more, hwSize, wkspSize, block, d)
  {
    hide HufWeights.IsBlock, Suits, BlockDecodes;
    if BlockRefused(tree + more, hwSize, wkspSize, block, d) {
      SuitsIs(norm, tableLog, weights, wkspSize);
      assert (tree + more)[1..1 + (|tree| - 1)] == tree[1..];
      HufWeights.BlockReadsBack(tree[1..], norm, tableLog, weights, c, headerSize, block, hwSize - 1, 6, wkspSize,
                                d.header, d.ncount, d.c);
    }
  }

  lemma TreeSize(tree: seq<U8>, more: seq<U8>, weights: seq<nat>, norm: seq<int>, tableLog: nat, c: Code, headerSize: nat)
    requires TreeForm(tree, weights, norm, tableLog, c, headerSize) && 0 < |weights| && tree != []
    ensures HeaderSize(tree + more) == |tree| && (tree + more)[0] == tree[0]
    ensures tree[0] >= 128 ==> tree[0] - 127 == |weights|
  {
    hide HufWeights.IsBlock;
  }

  /** The tree comes back: every length, the one left out too, and the table log. */
  lemma TreeReadsBack(lengths: seq<nat>, huffLog: nat, found: seq<nat>, log: nat)
    requires TreeLengths(lengths, huffLog) && |found| > 0 && Complete(found, log) && found[|found| - 1] >= 1
    requires found[..|found| - 1] == WeightsOf(lengths, huffLog)[..|lengths| - 1]
    ensures found == WeightsOf(lengths, huffLog) && log == huffLog
  {
    hide *;
    LengthsIs(lengths, huffLog);
    TreeAcceptable(lengths, huffLog);
    var weights := WeightsOf(lengths, huffLog);
    SameEnd(weights[..|lengths| - 1], weights, huffLog, found, log);
  }

  /** Two completions of the same weights are one. */
  lemma SameEnd(init: seq<nat>, a: seq<nat>, logA: nat, b: seq<nat>, logB: nat)
    requires ShareSum(init) > 0 && |a| > 0 && |b| > 0 && a[..|a| - 1] == init == b[..|b| - 1]
    requires Complete(a, logA) && Complete(b, logB) && a[|a| - 1] >= 1 && b[|b| - 1] >= 1
    ensures a == b && logA == logB
  {
    hide *;
    assert a == init + [a[|a| - 1]] && b == init + [b[|b| - 1]];
    ImpliedUnique(init, a[|a| - 1], logA);
    ImpliedUnique(init, b[|b| - 1], logB);
    PowersDiffer(a[|a| - 1] - 1, b[|b| - 1] - 1);
  }

  lemma PowersDiffer(a: nat, b: nat)
    requires Pow2(a) == Pow2(b)
    ensures a == b
  {
    if a < b { Pow2Mono(a, b); } else if b < a { Pow2Mono(b, a); }
  }

  lemma LengthsIs(lengths: seq<nat>, huffLog: nat)
    requires TreeLengths(lengths, huffLog)
    ensures 1 <= huffLog <= HUF_TABLELOG_MAX && 2 <= |lengths| && forall i :: 0 <= i < |lengths| ==> lengths[i] <= huffLog
  {
    hide KraftSum;
  }

  lemma NotEmpty(tree: seq<U8>, weights: seq<nat>, norm: seq<int>, tableLog: nat, c: Code, headerSize: nat)
    requires TreeForm(tree, weights, norm, tableLog, c, headerSize)
    ensures tree != []
  {
    hide HufWeights.IsBlock;
  }

  /** What HUF_readStats promises of its result. */
  ghost predicate Outcome(src: seq<U8>, hwSize: nat, wkspSize: nat, r: StatsResult, found: seq<nat>, d: Description)
  {
    && |src| > 0
    && (r.StatsFailed? && r.error.BadSize? ==> HeaderSize(src) > |src|)
    && (r.StatsFailed? && r.error.BadWeights? ==>
          || (src[0] >= 128 && src[0] - 127 >= hwSize)
          || (HeaderWeights(src, hwSize, wkspSize, found, d) && !Acceptable(found)))
    && (r.StatsFailed? && r.error.WeightsFailed? ==>
          src[0] < 128 && BlockRefused(src, hwSize, wkspSize, r.error.block, d))
    && (r.Stats? ==>
          && r.size == HeaderSize(src) && 1 <= r.nbSymbols == |found| && Complete(found, r.tableLog)
          && 1 <= found[|found| - 1] && HeaderWeights(src, hwSize, wkspSize, found[..|found| - 1], d))
  }

  /** On a written tree that leaves one result. */
  lemma Finished(lengths: seq<nat>, huffLog: nat, tree: seq<U8>, more: seq<U8>, norm: seq<int>, tableLog: nat,
                 c: Code, headerSize: nat, hwSize: nat, wkspSize: nat, r: StatsResult, found: seq<nat>, d: Description)
    requires TreeLengths(lengths, huffLog) && |lengths| <= hwSize && tree != []
    requires TreeForm(tree, WeightsOf(lengths, huffLog)[..|lengths| - 1], norm, tableLog, c, headerSize)
    requires Mixed(WeightsOf(lengths, huffLog)[..|lengths| - 1]) ==>
               Suits(norm, tableLog, WeightsOf(lengths, huffLog)[..|lengths| - 1], wkspSize)
    requires Outcome(tree + more, hwSize, wkspSize, r, found, d)
    ensures r == Stats(|tree|, |lengths|, huffLog) && found == WeightsOf(lengths, huffLog)
  {
    TreeAcceptable(lengths, huffLog);
    hide HeaderWeights, BlockRefused, TreeForm, Suits, Mixed, Acceptable, Complete, TreeLengths, WeightsOf, HeaderSize;
    LengthsIs(lengths, huffLog);
    var weights := WeightsOf(lengths, huffLog)[..|lengths| - 1];
    TreeSize(tree, more, weights, norm, tableLog, c, headerSize);
    if r.Stats? {
      WeightsReadBack(tree, more, weights, norm, tableLog, c, headerSize, hwSize, wkspSize, found[..|found| - 1], d);
      TreeReadsBack(lengths, huffLog, found, r.tableLog);
    } else if r.error.BadWeights? {
      if HeaderWeights(tree + more, hwSize, wkspSize, found, d) {
        WeightsReadBack(tree, more, weights, norm, tableLog, c, headerSize, hwSize, wkspSize, found, d);
      }
      assert false;
    } else {
      NotRefused(tree, more, weights, norm, tableLog, c, headerSize, hwSize, wkspSize, r.error.block, d);
    }
  }

  /** HUF_writeCTable undone by HUF_readStats, for the lengths of every complete code. */
  method RoundTrip(dst: array<U8>, lengths: seq<nat>, huffLog: nat, norm: seq<int>, tableLog: nat,
                   huffWeight: array<U8>, rankStats: array<nat>, more: seq<U8>, wkspSize: nat)
    returns (w: TreeResult, r: StatsResult)
    requires TreeLengths(lengths, huffLog) && |lengths| <= huffWeight.Length
    requires var weights := WeightsOf(lengths, huffLog)[..|lengths| - 1];
             Mixed(weights) ==> Suits(norm, tableLog, weights, wkspSize)
    requires rankStats.Length == HUF_TABLELOG_MAX + 1 && dst != huffWeight
    modifies dst, huffWeight, rankStats
    ensures w.Written? ==> r == Stats(w.size, |lengths|, huffLog)
    ensures w.Written? ==> huffWeight[..|lengths|] == WeightsOf(lengths, huffLog)
    ensures w.Written? ==> Histogram(rankStats[..], WeightsOf(lengths, huffLog))
  {
    ghost var weights := WeightsOf(lengths, huffLog)[..|lengths| - 1];
    TreeAcceptable(lengths, huffLog);
    hide *;
    LengthsIs(lengths, huffLog);
    r := StatsFailed(BadSize);
    if Mixed(weights) {
      SuitsIs(norm, tableLog, weights, wkspSize);
    }
    ghost var c, headerSize, tried;
    w, c, headerSize, tried := WriteCTable(dst, lengths, huffLog, norm, tableLog);
    if w.Written? {
      ghost var tree := dst[..w.size];
      ghost var found, d;
      NotEmpty(tree, weights, norm, tableLog, c, headerSize);
      r, found, d := ReadStats(huffWeight, huffWeight.Length, rankStats, dst[..w.size] + more, wkspSize);
      OutcomeIs(tree + more, huffWeight.Length, wkspSize, r, found, d);
      Finished(lengths, huffLog, tree, more, norm, tableLog, c, headerSize, huffWeight.Length, wkspSize, r, found, d);
    }
  }

  lemma OutcomeIs(src: seq<U8>, hwSize: nat, wkspSize: nat, r: StatsResult, found: seq<nat>, d: Description)
    requires |src| > 0
    requires r.StatsFailed? && r.error.BadSize? ==> HeaderSize(src) > |src|
    requires r.StatsFailed? && r.error.BadWeights? ==>
               || (src[0] >= 128 && src[0] - 127 >= hwSize)
               || (HeaderWeights(src, hwSize, wkspSize, found, d) && !Acceptable(found))
    requires r.StatsFailed? && r.error.WeightsFailed? ==>
               src[0] < 128 && BlockRefused(src, hwSize, wkspSize, r.error.block, d)
    requires r.Stats? ==> r.size == (if src[0] >= 128 then (src[0] - 126) / 2 else src[0]) + 1
    requires r.Stats? ==> 1 <= r.nbSymbols == |found| && Complete(found, r.tableLog) && 1 <= found[|found| - 1]
    requires r.Stats? ==> HeaderWeights(src, hwSize, wkspSize, found[..|found| - 1], d)
    ensures Outcome(src, hwSize, wkspSize, r, found, d)
  {
    hide HeaderWeights, BlockRefused, Acceptable, Complete;
  }

  /** HUF_READ_STATS_WORKSPACE_SIZE is made for weights below 12: a compressed description at
      table log 6 that has a weight 12 asks for one word more, and is refused. */
  lemma WorkspaceEnough(tableLog: nat, maxWeight: nat)
    requires 5 <= tableLog <= 6 && maxWeight <= 12
    ensures DecompressWkspSize(6, 11) == 876 && DTableSize(6) == 260 && COUNTS_SIZE == 512
    ensures DecompressWkspSize(tableLog, maxWeight) <= 876 <==> tableLog < 6 || maxWeight < 12
  {
    Pow2Values();
    hide Pow2;
  }
}

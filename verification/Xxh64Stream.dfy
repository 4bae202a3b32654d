/** XXH64 taken in pieces: the state of XXH64_reset, XXH64_update and XXH64_digest, and its
    agreement with the one-shot hash for every way of cutting the input. */
module Xxh64Stream {
  import opened Bits
  import opened Pieces
  import opened Xxh64

  lemma WrapTwice(n: nat)
    ensures Wrap(Wrap(n)) == Wrap(n)
    ensures Wrap(n) % 32 == n % 32
  {
    var q, r := n / 0x1_0000_0000_0000_0000, Wrap(n);
    assert n == 0x1_0000_0000_0000_0000 * q + r;
    RemainderUnique(n, 32, 0x800_0000_0000_0000 * q + r / 32, r % 32);
  }

  lemma WrapSum(m: nat, n: nat)
    ensures Wrap(Wrap(m) + n) == Wrap(m + n)
  {
  }

  lemma WrapSmall(n: nat)
    ensures n < WORD_RANGE ==> Wrap(n) == n
  {
  }

  /** What the digest is of: the hash, except that the 64-bit length has wrapped past inputs so
      long that the state takes them for short ones. */
  predicate LengthSeen(n: nat) { n < 32 || Wrap(n) >= 32 }

  /** XXH64_state_s. The ghost fields record the seed and everything fed in. */
  class XXH64State {
    var totalLen: nat
    const v: array<Word>
    const mem: array<U8>
    var memSize: nat
    ghost var seed: Word
    ghost var consumed: seq<U8>

    ghost function LanesNow(): Lanes
      requires v.Length == 4
      reads v
    {
      Lanes(v[0], v[1], v[2], v[3])
    }

    /** The buffer holds what is left after the whole stripes, and the lanes have taken up
        exactly those stripes. */
    ghost predicate Valid()
      reads this, v, mem
    {
      && v.Length == 4 && mem.Length == 32
      && totalLen == Wrap(|consumed|)
      && memSize == |consumed| % 32
      && mem[..memSize] == consumed[|consumed| - memSize..]
      && LanesNow() == Absorb(StartLanes(seed), consumed, |consumed| / 32)
    }

    /** A state that XXH64_reset has prepared. */
    constructor (seed: Word)
      ensures Valid() && fresh(v) && fresh(mem) && this.seed == seed && consumed == []
    {
      v := new Word[4](_ => 0);
      mem := new U8[32](_ => 0);
      totalLen, memSize := 0, 0;
      this.seed, consumed := seed, [];
      new;
      hide Absorb, StartLanes, Valid, LanesNow;
      Start(seed);
      assert mem[..0] == [];
      Settle(0);
    }

    method Start(seed: Word)
      requires v.Length == 4
      modifies v
      ensures LanesNow() == StartLanes(seed) == Absorb(StartLanes(seed), [], 0)
    {
      hide Absorb, Add, Sub;
      AbsorbNone(StartLanes(seed), []);
      v[0] := Add(Add(seed, PRIME_1), PRIME_2);
      v[1] := Add(seed, PRIME_2);
      v[2] := seed;
      v[3] := Sub(seed, PRIME_1);
    }

    /** XXH64_reset: whatever the state held is forgotten. */
    method Reset(newSeed: Word)
      requires v.Length == 4 && mem.Length == 32
      modifies this, v, mem
      ensures Valid() && seed == newSeed && consumed == []
    {
      hide Absorb, StartLanes, Valid, LanesNow;
      forall i | 0 <= i < mem.Length { mem[i] := 0; }
      totalLen, memSize := 0, 0;
      seed, consumed := newSeed, [];
      Start(newSeed);
      assert mem[..0] == [];
      Settle(0);
    }

    /** memcpy into the buffer. */
    method Fill(at: nat, s: seq<U8>)
      requires at + |s| <= mem.Length
      modifies mem
      ensures mem[..at + |s|] == old(mem[..at]) + s
      ensures at == 0 ==> mem[..|s|] == s
    {
      forall i | 0 <= i < |s| { mem[at + i] := s[i]; }
    }

    method AbsorbAt(s: seq<U8>, at: nat)
      requires v.Length == 4 && at + 32 <= |s|
      modifies v
      ensures LanesNow() == AbsorbStripe(old(LanesNow()), s[at..at + 32])
    {
      hide Round, Read64, AbsorbStripe;
      StripeAt(LanesNow(), s, at);
      v[0] := Round(v[0], Read64(s[at..at + 8]));
      v[1] := Round(v[1], Read64(s[at + 8..at + 16]));
      v[2] := Round(v[2], Read64(s[at + 16..at + 24]));
      v[3] := Round(v[3], Read64(s[at + 24..at + 32]));
    }

    lemma Opened()
      requires Valid()
      ensures v.Length == 4 && mem.Length == 32 && totalLen == Wrap(|consumed|)
      ensures var n := |consumed| / 32;
              && 32 * n + memSize == |consumed| && memSize < 32 && mem[..memSize] == consumed[32 * n..]
              && LanesNow() == Absorb(StartLanes(seed), consumed, n)
    {
    }

    lemma Settle(n: nat)
      requires v.Length == 4 && mem.Length == 32 && totalLen == Wrap(|consumed|)
      requires 32 * n + memSize == |consumed| && memSize < 32 && mem[..memSize] == consumed[32 * n..]
      requires LanesNow() == Absorb(StartLanes(seed), consumed, n)
      ensures Valid()
    {
      hide Absorb, StartLanes, Wrap, LanesNow;
      assert n == |consumed| / 32;
    }

    /** The buffer is completed from the input, absorbed, and left empty. */
    method TopUp(input: seq<U8>) returns (p: nat)
      requires v.Length == 4 && mem.Length == 32 && memSize <= 32 <= memSize + |input|
      modifies this`memSize, v, mem
      ensures memSize == 0 && p == 32 - old(memSize)
      ensures LanesNow() == AbsorbStripe(old(LanesNow()), old(mem[..memSize]) + input[..p])
    {
      hide AbsorbStripe, LanesNow;
      Fill(memSize, input[..32 - memSize]);
      assert mem[..][0..32] == mem[..32];
      AbsorbAt(mem[..], 0);
      p := 32 - memSize;
      memSize := 0;
    }

    /** XXH64_update. */
    method Update(input: seq<U8>)
      requires Valid()
      modifies this`totalLen, this`memSize, this`consumed, v, mem
      ensures Valid() && seed == old(seed) && consumed == old(consumed) + input
    {
      hide Absorb, AbsorbStripe, StartLanes, Wrap, Valid, LanesNow;
      Opened();
      ghost var before := consumed;
      ghost var n := |before| / 32;
      consumed := consumed + input;
      AbsorbPrefix(StartLanes(seed), before, consumed, n);
      assert 32 * n + memSize == |before| && mem[..memSize] == before[32 * n..];
      WrapSum(|before|, |input|);
      totalLen := Wrap(totalLen + |input|);

      if memSize + |input| < 32 {
        Fill(memSize, input);
        memSize := memSize + |input|;
        PrefixOfSum(before, input, 32 * n, |input|);
        Settle(n);
        return;
      }

      TakeStripes(input, before, n);
    }

    /** At least one whole stripe: the buffer, the input's own stripes, and the rest kept. */
    method TakeStripes(input: seq<U8>, ghost before: seq<U8>, ghost n0: nat)
      requires v.Length == 4 && mem.Length == 32 && memSize < 32 <= memSize + |input|
      requires totalLen == Wrap(|consumed|) && consumed == before + input
      requires |before| == 32 * n0 + memSize && mem[..memSize] == before[32 * n0..]
      requires LanesNow() == Absorb(StartLanes(seed), consumed, n0)
      modifies this`memSize, v, mem
      ensures Valid()
    {
      hide Absorb, AbsorbStripe, StartLanes, Wrap, Valid, LanesNow;
      ghost var start, n := StartLanes(seed), n0;
      var p := 0;
      if memSize > 0 {
        PrefixOfSum(before, input, 32 * n, 32 - memSize);
        AbsorbNext(start, consumed, n);
        p := TopUp(input);
        n := n + 1;
      }
      p, n := AbsorbWhole(input, p, start, consumed, n);
      SuffixOfSum(before, input, p);
      if p < |input| {
        Fill(0, input[p..]);
        memSize := |input| - p;
      }
      Settle(n);
    }

    /** The do-while loop of XXH64_update: all stripes that lie whole in the input. */
    method AbsorbWhole(input: seq<U8>, from: nat, ghost start: Lanes, ghost whole: seq<U8>, ghost n0: nat)
      returns (p: nat, ghost n: nat)
      requires v.Length == 4 && from <= |input| <= |whole|
      requires |whole| - |input| + from == 32 * n0 && whole[|whole| - |input|..] == input
      requires LanesNow() == Absorb(start, whole, n0)
      modifies v
      ensures from <= p <= |input| < p + 32 && |whole| - |input| + p == 32 * n
      ensures LanesNow() == Absorb(start, whole, n)
    {
      hide Absorb, AbsorbStripe, LanesNow;
      p, n := from, n0;
      if p + 32 <= |input| {
        var limit := |input| - 32;
        while p <= limit
          invariant from <= p <= |input| && |whole| - |input| + p == 32 * n
          invariant LanesNow() == Absorb(start, whole, n)
        {
          assert input[p..p + 32] == whole[32 * n..32 * n + 32];
          AbsorbNext(start, whole, n);
          AbsorbAt(input, p);
          p := p + 32;
          n := n + 1;
        }
      }
    }

    /** XXH64_digest. */
    method Digest() returns (h: Word)
      requires Valid()
      ensures LengthSeen(|consumed|) ==> h == Hash(consumed, seed)
      ensures !LengthSeen(|consumed|) ==>
                var lanes := Absorb(StartLanes(seed), consumed, |consumed| / 32);
                h == Finish(Add(Add(lanes.v3, PRIME_5), Wrap(|consumed|)), consumed[32 * (|consumed| / 32)..])
    {
      hide Absorb, StartLanes, Add, Converge, Finish, Wrap, Valid, Hash;
      Opened();
      HashIs(consumed, seed, |consumed| / 32);
      WrapTwice(|consumed|);
      WrapSmall(|consumed|);
      AbsorbNone(StartLanes(seed), consumed);
      if totalLen >= 32 {
        h := ConvergeLanes(v[0], v[1], v[2], v[3]);
      } else {
        h := Add(v[2], PRIME_5);
      }
      h := Add(h, Wrap(totalLen));
      assert mem[..][..memSize] == mem[..memSize];
      SeedLane(seed);
      h := Finalize(h, mem[..], totalLen);
    }
  }

  /** However an input is cut, feeding the pieces to one state gives its one-shot hash. */
  method HashChunks(chunks: seq<seq<U8>>, seed: Word) returns (h: Word)
    requires |Concat(chunks)| < WORD_RANGE
    ensures h == Hash(Concat(chunks), seed)
  {
    hide *;
    var state := new XXH64State(seed);
    assert Concat(chunks[..0]) == [] by { ConcatNone(chunks); }
    for i := 0 to |chunks|
      invariant state.Valid() && fresh(state) && fresh(state.v) && fresh(state.mem)
      invariant state.seed == seed && state.consumed == Concat(chunks[..i])
    {
      ConcatNext(chunks, i);
      state.Update(chunks[i]);
    }
    assert chunks[..|chunks|] == chunks;
    SeenWhenShort(|state.consumed|);
    h := state.Digest();
  }

  lemma SeenWhenShort(n: nat)
    requires n < WORD_RANGE
    ensures LengthSeen(n)
  {
  }
}

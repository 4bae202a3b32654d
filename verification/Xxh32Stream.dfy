/** XXH32 taken in pieces: the state of XXH32_reset, XXH32_update and XXH32_digest, and its
    agreement with the one-shot hash for every way of cutting the input. */
module Xxh32Stream {
  import opened Bits
  import opened Pieces
  import opened Xxh32

  lemma WrapSum(m: nat, n: nat)
    ensures Wrap(Wrap(m) + Wrap(n)) == Wrap(m + n)
  {
  }

  lemma WrapTwice(n: nat)
    ensures Wrap(Wrap(n)) == Wrap(n)
  {
  }

  /** The flag cannot miss the moment when the total first reaches a stripe: a total that gets
      there without one long piece is still too small to wrap. */
  lemma FlagRight(before: nat, len: nat)
    ensures (before >= 16 || len >= 16 || Wrap(Wrap(before) + Wrap(len)) >= 16) <==> before + len >= 16
  {
  }

  /** XXH32_state_s. The ghost fields record the seed and everything fed in. */
  class XXH32State {
    var totalLen32: nat
    var largeLen: bool
    const v: array<Word>
    const mem: array<U8>
    var memSize: nat
    ghost var seed: Word
    ghost var consumed: seq<U8>

    ghost function LanesNow(): Lanes
      requires v.Length == 4
      reads v
    {
      Lanes(v[0], v[1], v[2], v[3])
    }

    /** The length modulo 2^32, and whether there has been a whole stripe. */
    ghost predicate LengthOk(n: nat)
      reads this`totalLen32, this`largeLen
    {
      totalLen32 == Wrap(n) && (largeLen <==> n >= 16)
    }

    /** The buffer holds what is left after the whole stripes, and the lanes have taken up
        exactly those stripes. */
    ghost predicate Buffered()
      reads this`memSize, this`seed, this`consumed, v, mem
    {
      && v.Length == 4 && mem.Length == 16
      && memSize == |consumed| % 16
      && mem[..memSize] == consumed[|consumed| - memSize..]
      && LanesNow() == Absorb(StartLanes(seed), consumed, |consumed| / 16)
    }

    ghost predicate Valid()
      reads this, v, mem
    {
      LengthOk(|consumed|) && Buffered()
    }

    /** A state that XXH32_reset has prepared. */
    constructor (seed: Word)
      ensures Valid() && fresh(v) && fresh(mem) && this.seed == seed && consumed == []
    {
      v := new Word[4](_ => 0);
      mem := new U8[16](_ => 0);
      totalLen32, largeLen, memSize := 0, false, 0;
      this.seed, consumed := seed, [];
      new;
      hide Absorb, StartLanes, Buffered, LanesNow;
      Start(seed);
      assert mem[..0] == [];
      Settle(0);
    }

    method Start(seed: Word)
      requires v.Length == 4
      modifies v
      ensures LanesNow() == StartLanes(seed) == Absorb(StartLanes(seed), [], 0)
    {
      hide Absorb, Add, Sub;
      AbsorbNone(StartLanes(seed), []);
      v[0] := Add(Add(seed, PRIME_1), PRIME_2);
      v[1] := Add(seed, PRIME_2);
      v[2] := seed;
      v[3] := Sub(seed, PRIME_1);
    }

    /** XXH32_reset: whatever the state held is forgotten. */
    method Reset(newSeed: Word)
      requires v.Length == 4 && mem.Length == 16
      modifies this, v, mem
      ensures Valid() && seed == newSeed && consumed == []
    {
      hide Absorb, StartLanes, Buffered, LanesNow;
      forall i | 0 <= i < mem.Length { mem[i] := 0; }
      totalLen32, largeLen, memSize := 0, false, 0;
      seed, consumed := newSeed, [];
      Start(newSeed);
      assert mem[..0] == [];
      Settle(0);
    }

    /** memcpy into the buffer. */
    method Fill(at: nat, s: seq<U8>)
      requires at + |s| <= mem.Length
      modifies mem
      ensures mem[..at + |s|] == old(mem[..at]) + s
      ensures at == 0 ==> mem[..|s|] == s
    {
      forall i | 0 <= i < |s| { mem[at + i] := s[i]; }
    }

    method AbsorbAt(s: seq<U8>, at: nat)
      requires v.Length == 4 && at + 16 <= |s|
      modifies v
      ensures LanesNow() == AbsorbStripe(old(LanesNow()), s[at..at + 16])
    {
      hide Round, Read32, AbsorbStripe;
      StripeAt(LanesNow(), s, at);
      v[0] := Round(v[0], Read32(s[at..at + 4]));
      v[1] := Round(v[1], Read32(s[at + 4..at + 8]));
      v[2] := Round(v[2], Read32(s[at + 8..at + 12]));
      v[3] := Round(v[3], Read32(s[at + 12..at + 16]));
    }

    lemma Opened()
      requires Buffered()
      ensures v.Length == 4 && mem.Length == 16
      ensures var n := |consumed| / 16;
              && 16 * n + memSize == |consumed| && memSize < 16 && mem[..memSize] == consumed[16 * n..]
              && LanesNow() == Absorb(StartLanes(seed), consumed, n)
    {
    }

    lemma Settle(n: nat)
      requires v.Length == 4 && mem.Length == 16
      requires 16 * n + memSize == |consumed| && memSize < 16 && mem[..memSize] == consumed[16 * n..]
      requires LanesNow() == Absorb(StartLanes(seed), consumed, n)
      ensures Buffered()
    {
      hide Absorb, StartLanes, Wrap, LanesNow;
      assert n == |consumed| / 16;
    }

    /** The buffer is completed from the input, absorbed, and left empty. */
    method TopUp(input: seq<U8>) returns (p: nat)
      requires v.Length == 4 && mem.Length == 16 && memSize <= 16 <= memSize + |input|
      modifies this`memSize, v, mem
      ensures memSize == 0 && p == 16 - old(memSize)
      ensures LanesNow() == AbsorbStripe(old(LanesNow()), old(mem[..memSize]) + input[..p])
    {
      hide AbsorbStripe, LanesNow;
      Fill(memSize, input[..16 - memSize]);
      assert mem[..][0..16] == mem[..16];
      AbsorbAt(mem[..], 0);
      p := 16 - memSize;
      memSize := 0;
    }

    method CountIn(len: nat, ghost before: nat)
      requires LengthOk(before)
      modifies this`totalLen32, this`largeLen
      ensures LengthOk(before + len)
    {
      WrapSum(before, len);
      FlagRight(before, len);
      totalLen32 := Wrap(totalLen32 + Wrap(len));
      largeLen := largeLen || len >= 16 || totalLen32 >= 16;
    }

    /** XXH32_update. */
    method Update(input: seq<U8>)
      requires Valid()
      modifies this`totalLen32, this`largeLen, this`memSize, this`consumed, v, mem
      ensures Valid() && seed == old(seed) && consumed == old(consumed) + input
    {
      hide LengthOk, Buffered;
      CountIn(|input|, |consumed|);
      TakeIn(input);
    }

    method TakeIn(input: seq<U8>)
      requires Buffered()
      modifies this`memSize, this`consumed, v, mem
      ensures Buffered() && seed == old(seed) && consumed == old(consumed) + input
    {
      hide Absorb, AbsorbStripe, StartLanes, Buffered, LanesNow;
      Opened();
      ghost var before := consumed;
      ghost var n := |before| / 16;
      consumed := consumed + input;
      AbsorbPrefix(StartLanes(seed), before, consumed, n);
      assert 16 * n + memSize == |before| && mem[..memSize] == before[16 * n..];

      if memSize + |input| < 16 {
        Fill(memSize, input);
        memSize := memSize + |input|;
        PrefixOfSum(before, input, 16 * n, |input|);
        Settle(n);
        return;
      }

      TakeStripes(input, before, n);
    }

    /** At least one whole stripe: the buffer, the input's own stripes, and the rest kept. */
    method TakeStripes(input: seq<U8>, ghost before: seq<U8>, ghost n0: nat)
      requires v.Length == 4 && mem.Length == 16 && memSize < 16 <= memSize + |input|
      requires consumed == before + input && |before| == 16 * n0 + memSize && mem[..memSize] == before[16 * n0..]
      requires LanesNow() == Absorb(StartLanes(seed), consumed, n0)
      modifies this`memSize, v, mem
      ensures Buffered()
    {
      hide Absorb, AbsorbStripe, StartLanes, Buffered, LanesNow;
      ghost var start, n := StartLanes(seed), n0;
      var p := 0;
      if memSize > 0 {
        PrefixOfSum(before, input, 16 * n, 16 - memSize);
        AbsorbNext(start, consumed, n);
        p := TopUp(input);
        n := n + 1;
      }
      p, n := AbsorbWhole(input, p, start, consumed, n);
      SuffixOfSum(before, input, p);
      if p < |input| {
        Fill(0, input[p..]);
        memSize := |input| - p;
      }
      Settle(n);
    }

    /** The do-while loop of XXH32_update: all stripes that lie whole in the input. */
    method AbsorbWhole(input: seq<U8>, from: nat, ghost start: Lanes, ghost whole: seq<U8>, ghost n0: nat)
      returns (p: nat, ghost n: nat)
      requires v.Length == 4 && from <= |input| <= |whole|
      requires |whole| - |input| + from == 16 * n0 && whole[|whole| - |input|..] == input
      requires LanesNow() == Absorb(start, whole, n0)
      modifies v
      ensures from <= p <= |input| < p + 16 && |whole| - |input| + p == 16 * n
      ensures LanesNow() == Absorb(start, whole, n)
    {
      hide Absorb, AbsorbStripe, LanesNow;
      p, n := from, n0;
      if p + 16 <= |input| {
        var limit := |input| - 16;
        while p <= limit
          invariant from <= p <= |input| && |whole| - |input| + p == 16 * n
          invariant LanesNow() == Absorb(start, whole, n)
        {
          assert input[p..p + 16] == whole[16 * n..16 * n + 16];
          AbsorbNext(start, whole, n);
          AbsorbAt(input, p);
          p := p + 16;
          n := n + 1;
        }
      }
    }

    /** XXH32_digest. */
    method Digest() returns (h: Word)
      requires Valid()
      ensures h == Hash(consumed, seed)
    {
      hide Absorb, StartLanes, Add, Rotl, Finish, Wrap, Buffered, Hash;
      Opened();
      HashIs(consumed, seed, |consumed| / 16);
      WrapTwice(|consumed|);
      AbsorbNone(StartLanes(seed), consumed);
      SeedLane(seed);
      if largeLen {
        h := Add(Add(Add(Rotl(v[0], 1), Rotl(v[1], 7)), Rotl(v[2], 12)), Rotl(v[3], 18));
      } else {
        h := Add(v[2], PRIME_5);
      }
      h := Add(h, Wrap(totalLen32));
      assert mem[..][..memSize] == mem[..memSize];
      h := Finalize(h, mem[..], memSize);
    }
  }

  /** However an input is cut, feeding the pieces to one state gives its one-shot hash. */
  method HashChunks(chunks: seq<seq<U8>>, seed: Word) returns (h: Word)
    ensures h == Hash(Concat(chunks), seed)
  {
    hide *;
    var state := new XXH32State(seed);
    assert Concat(chunks[..0]) == [] by { ConcatNone(chunks); }
    for i := 0 to |chunks|
      invariant state.Valid() && fresh(state) && fresh(state.v) && fresh(state.mem)
      invariant state.seed == seed && state.consumed == Concat(chunks[..i])
    {
      ConcatNext(chunks, i);
      state.Update(chunks[i]);
    }
    assert chunks[..|chunks|] == chunks;
    h := state.Digest();
  }
}

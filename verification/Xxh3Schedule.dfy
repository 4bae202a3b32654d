/** The order in which XXH3 takes up a long input, one-shot and streaming. What a stripe does to
    the accumulators is left open: they are represented by the list of what was done to them, so
    equal lists mean equal accumulators whatever the two operations compute. */
module Xxh3Schedule {
  import opened Bits
  import opened Pieces

  const STRIPE_LEN: nat := 64
  const SECRET_CONSUME_RATE: nat := 8
  const SECRET_SIZE_MIN: nat := 136
  const SECRET_LASTACC_START: nat := 7
  const INTERNALBUFFER_SIZE: nat := 256
  const MIDSIZE_MAX: nat := 240

  /** One stripe mixed in with the secret from an offset on, or one scrambling of all lanes. */
  datatype Event = Accumulate(stripe: seq<U8>, secretAt: nat) | Scramble(secretAt: nat)

  /** What the length of the secret determines. */
  datatype Secret = Secret(limit: nat)

  predicate SecretOk(s: Secret) { s.limit >= SECRET_SIZE_MIN - STRIPE_LEN }

  function PerBlock(s: Secret): nat { s.limit / SECRET_CONSUME_RATE }

  // The schedule.

  /** The place of stripe k in its block. */
  function Phase(s: Secret, k: nat): (p: nat)
    requires SecretOk(s)
    ensures p < PerBlock(s)
  {
    if k == 0 then 0
    else if Phase(s, k - 1) + 1 == PerBlock(s) then 0 else Phase(s, k - 1) + 1
  }

  function Stripe(input: seq<U8>, k: nat): seq<U8>
    requires 64 * k + 64 <= |input|
  {
    input[64 * k..64 * k + 64]
  }

  /** The first k stripes: each with its part of the secret, and a scrambling after each block. */
  function Schedule(s: Secret, input: seq<U8>, k: nat): seq<Event>
    requires SecretOk(s) && 64 * k <= |input|
  {
    if k == 0 then []
    else Schedule(s, input, k - 1) + [Accumulate(Stripe(input, k - 1), 8 * Phase(s, k - 1))]
         + (if Phase(s, k) == 0 then [Scramble(s.limit)] else [])
  }

  /** A long input: all stripes that end before its last byte, and then its last 64 bytes with
      their own part of the secret, whether or not they overlap a stripe already taken. */
  function LongHash(s: Secret, input: seq<U8>): seq<Event>
    requires SecretOk(s) && |input| > STRIPE_LEN
  {
    Schedule(s, input, (|input| - 1) / 64)
    + [Accumulate(input[|input| - 64..], s.limit - SECRET_LASTACC_START)]
  }

  // About the schedule.

  lemma ScheduleNext(s: Secret, input: seq<U8>, k: nat)
    requires SecretOk(s) && 64 * k + 64 <= |input|
    ensures Schedule(s, input, k + 1)
            == Schedule(s, input, k) + [Accumulate(Stripe(input, k), 8 * Phase(s, k))]
               + (if Phase(s, k + 1) == 0 then [Scramble(s.limit)] else [])
    ensures Phase(s, k + 1) == if Phase(s, k) + 1 == PerBlock(s) then 0 else Phase(s, k) + 1
  {
    hide Stripe;
  }

  lemma {:induction false} SchedulePrefix(s: Secret, a: seq<U8>, b: seq<U8>, k: nat)
    requires SecretOk(s) && 64 * k <= |a| && 64 * k <= |b| && a[..64 * k] == b[..64 * k]
    ensures Schedule(s, a, k) == Schedule(s, b, k)
  {
    hide Phase;
    if k > 0 {
      var m := 64 * (k - 1);
      assert a[..m] == a[..64 * k][..m] && b[..m] == b[..64 * k][..m];
      SchedulePrefix(s, a, b, k - 1);
      assert a[m..64 * k] == a[..64 * k][m..] && b[m..64 * k] == b[..64 * k][m..];
    }
  }

  // The schedule in numbers.

  /** After a stripe comes another one, `perBlock` of them to a block. */
  lemma {:induction false} PhaseIs(s: Secret, k: nat)
    requires SecretOk(s)
    ensures k / PerBlock(s) * PerBlock(s) + Phase(s, k) == k && Phase(s, k) == k % PerBlock(s)
  {
    var n := PerBlock(s);
    if k > 0 {
      PhaseIs(s, k - 1);
      var q := (k - 1) / n;
      if Phase(s, k - 1) + 1 == n {
        assert k == (q + 1) * n;
        RemainderUnique(k, n, q + 1, 0);
      } else {
        RemainderUnique(k, n, q, Phase(s, k - 1) + 1);
      }
    }
  }

  /** Stripe k is taken as event k plus one for each block before it, with the secret from offset
      8 * (k mod perBlock) on; each block ends with a scrambling. */
  lemma {:induction false} StripeIsAt(s: Secret, input: seq<U8>, n: nat, k: nat)
    requires SecretOk(s) && 64 * n <= |input| && k < n
    ensures |Schedule(s, input, n)| == n + n / (s.limit / 8)
    ensures 0 <= k + k / (s.limit / 8) < |Schedule(s, input, n)|
    ensures Schedule(s, input, n)[k + k / (s.limit / 8)]
            == Accumulate(input[64 * k..64 * k + 64], 8 * (k % (s.limit / 8)))
    ensures (k + 1) % (s.limit / 8) == 0 ==>
              k + k / (s.limit / 8) + 1 < |Schedule(s, input, n)|
              && Schedule(s, input, n)[k + k / (s.limit / 8) + 1] == Scramble(s.limit)
  {
    ScheduleLength(s, input, n);
    ScheduleLength(s, input, n - 1);
    PhaseIs(s, n - 1);
    PhaseIs(s, n);
    hide Phase;
    if k < n - 1 {
      StripeIsAt(s, input, n - 1, k);
    }
  }

  lemma {:induction false} ScheduleLength(s: Secret, input: seq<U8>, n: nat)
    requires SecretOk(s) && 64 * n <= |input|
    ensures n / (s.limit / 8) >= 0 && |Schedule(s, input, n)| == n + n / (s.limit / 8)
  {
    if n > 0 {
      ScheduleLength(s, input, n - 1);
      PhaseIs(s, n - 1);
      PhaseIs(s, n);
      NextQuotient(n, s.limit / 8);
      hide Phase;
    }
  }

  lemma NextQuotient(n: nat, d: nat)
    requires n > 0 && d > 0
    ensures n / d == (n - 1) / d + if n % d == 0 then 1 else 0
  {
    var q, r := (n - 1) / d, (n - 1) % d;
    assert n - 1 == q * d + r;
    if r + 1 == d {
      assert n == (q + 1) * d;
      RemainderUnique(n, d, q + 1, 0);
    } else {
      RemainderUnique(n, d, q, r + 1);
    }
  }

  /** With the 192 bytes of the default secret: 16 stripes to a block, scrambled with the secret
      from offset 128 on, and the last 64 bytes of the input mixed in from offset 121 on. */
  lemma DefaultSecret(input: seq<U8>)
    requires |input| > 64
    ensures var s, n := Secret(192 - STRIPE_LEN), (|input| - 1) / 64;
            && s.limit == 128 && PerBlock(s) == 16 && |LongHash(s, input)| == n + n / 16 + 1
            && LongHash(s, input)[n + n / 16] == Accumulate(input[|input| - 64..], 121)
  {
    ScheduleLength(Secret(128), input, (|input| - 1) / 64);
    hide Schedule;
  }

  /** Stripes taken one after another within a block. */
  function Burst(input: seq<U8>, at: nat, n: nat, secretAt: nat): seq<Event>
    requires at + 64 * n <= |input|
  {
    if n == 0 then []
    else Burst(input, at, n - 1, secretAt)
         + [Accumulate(input[at + 64 * (n - 1)..at + 64 * n], secretAt + 8 * (n - 1))]
  }

  /** A burst that stays inside a block is the schedule's next piece; one that ends the block
      needs a scrambling to be so. */
  lemma {:induction false} BurstFits(s: Secret, input: seq<U8>, k: nat, n: nat)
    requires SecretOk(s) && 64 * (k + n) <= |input| && Phase(s, k) + n <= PerBlock(s)
    ensures n == 0 || Phase(s, k) + n < PerBlock(s) ==>
              && Phase(s, k + n) == Phase(s, k) + n
              && Schedule(s, input, k + n) == Schedule(s, input, k) + Burst(input, 64 * k, n, 8 * Phase(s, k))
    ensures n > 0 && Phase(s, k) + n == PerBlock(s) ==>
              && Phase(s, k + n) == 0
              && Schedule(s, input, k + n)
                 == Schedule(s, input, k) + Burst(input, 64 * k, n, 8 * Phase(s, k)) + [Scramble(s.limit)]
  {
    hide Schedule, Phase;
    if n == 0 {
      assert Schedule(s, input, k) + [] == Schedule(s, input, k);
    } else {
      BurstFits(s, input, k, n - 1);
      ScheduleNext(s, input, k + n - 1);
      assert Stripe(input, k + n - 1) == input[64 * k + 64 * (n - 1)..64 * k + 64 * n];
    }
  }

  /** f_acc: n stripes from `at` on, with consecutive parts of the secret. */
  method AccumulateMany(acc: seq<Event>, input: seq<U8>, at: nat, secretAt: nat, n: nat) returns (r: seq<Event>)
    requires at + 64 * n <= |input|
    ensures r == acc + Burst(input, at, n, secretAt)
  {
    r := acc;
    var i := 0;
    while i < n
      invariant i <= n && r == acc + Burst(input, at, i, secretAt)
    {
      r := r + [Accumulate(input[at + STRIPE_LEN * i..at + STRIPE_LEN * i + 64], secretAt + SECRET_CONSUME_RATE * i)];
      i := i + 1;
    }
  }

  lemma NothingYet(s: Secret, input: seq<U8>)
    requires SecretOk(s)
    ensures Schedule(s, input, 0) == [] && Phase(s, 0) == 0
  {
  }

  // One-shot.

  lemma Blocks(n: nat, perBlock: nat)
    ensures n * (STRIPE_LEN * perBlock) == 64 * (n * perBlock)
    ensures (n + 1) * perBlock == n * perBlock + perBlock
  {
  }

  lemma BlocksInside(n: nat, m: nat, perBlock: nat)
    requires n < m
    ensures n * perBlock + perBlock <= m * perBlock
  {
    assert m * perBlock == n * perBlock + perBlock + (m - n - 1) * perBlock;
  }

  lemma WholeBlocks(len: nat, perBlock: nat)
    requires perBlock > 0
    ensures var blocks := len / (STRIPE_LEN * perBlock);
            0 <= 64 * (blocks * perBlock) <= len < 64 * (blocks * perBlock) + 64 * perBlock
  {
    var size := 64 * perBlock;
    var blocks := len / size;
    Blocks(blocks, perBlock);
    assert len == blocks * size + len % size;
  }

  /** XXH3_hashLong_internal_loop. */
  method HashLong(input: seq<U8>, secretSize: nat) returns (acc: seq<Event>)
    requires secretSize >= SECRET_SIZE_MIN && |input| > STRIPE_LEN
    ensures acc == LongHash(Secret(secretSize - STRIPE_LEN), input)
  {
    hide Schedule, Phase, Burst;
    ghost var s := Secret(secretSize - STRIPE_LEN);
    var len := |input|;
    var nbStripesPerBlock := (secretSize - STRIPE_LEN) / SECRET_CONSUME_RATE;
    var blockLen := STRIPE_LEN * nbStripesPerBlock;
    var nbBlocks := (len - 1) / blockLen;
    WholeBlocks(len - 1, nbStripesPerBlock);
    acc := [];
    NothingYet(s, input);
    ghost var k := 0;
    for n := 0 to nbBlocks
      invariant k == n * nbStripesPerBlock && 64 * k <= len - 1
      invariant acc == Schedule(s, input, k) && Phase(s, k) == 0
    {
      Blocks(n, nbStripesPerBlock);
      BlocksInside(n, nbBlocks, nbStripesPerBlock);
      BurstFits(s, input, k, nbStripesPerBlock);
      acc := AccumulateMany(acc, input, n * blockLen, 0, nbStripesPerBlock);
      acc := acc + [Scramble(secretSize - STRIPE_LEN)];
      k := k + nbStripesPerBlock;
    }
    Blocks(nbBlocks, nbStripesPerBlock);
    var nbStripes := ((len - 1) - blockLen * nbBlocks) / STRIPE_LEN;
    BurstFits(s, input, k, nbStripes);
    acc := AccumulateMany(acc, input, nbBlocks * blockLen, 0, nbStripes);
    assert k + nbStripes == (len - 1) / 64;
    acc := acc + [Accumulate(input[len - STRIPE_LEN..], secretSize - STRIPE_LEN - SECRET_LASTACC_START)];
  }

  // Streaming.

  lemma {:induction false} BurstMoved(a: seq<U8>, at: nat, b: seq<U8>, bt: nat, n: nat, secretAt: nat)
    requires at + 64 * n <= |a| && bt + 64 * n <= |b| && a[at..at + 64 * n] == b[bt..bt + 64 * n]
    ensures Burst(a, at, n, secretAt) == Burst(b, bt, n, secretAt)
  {
    if n > 0 {
      var m := 64 * (n - 1);
      var x, y := a[at..at + 64 * n], b[bt..bt + 64 * n];
      assert a[at..at + m] == x[..m] && b[bt..bt + m] == y[..m];
      BurstMoved(a, at, b, bt, n - 1, secretAt);
      assert a[at + m..at + 64 * n] == x[m..] && b[bt + m..bt + 64 * n] == y[m..];
    }
  }

  /** XXH3_consumeStripes: `nbStripes` more stripes, which may start and end inside a block.
      `whole` is the input since the reset and `k` the number of its stripes already taken. */
  method ConsumeStripes(acc0: seq<Event>, soFar0: nat, s: Secret, input: seq<U8>, at: nat, nbStripes0: nat,
                        ghost whole: seq<U8>, ghost k0: nat)
    returns (acc: seq<Event>, soFar: nat, end: nat)
    requires SecretOk(s) && at + 64 * nbStripes0 <= |input| && 64 * (k0 + nbStripes0) <= |whole|
    requires whole[64 * k0..64 * (k0 + nbStripes0)] == input[at..at + 64 * nbStripes0]
    requires acc0 == Schedule(s, whole, k0) && soFar0 == Phase(s, k0)
    ensures acc == Schedule(s, whole, k0 + nbStripes0) && soFar == Phase(s, k0 + nbStripes0)
    ensures end == at + 64 * nbStripes0
  {
    hide Schedule, Phase, Burst;
    var perBlock := PerBlock(s);
    var nbStripes := nbStripes0;
    ghost var k := k0;
    acc, soFar, end := acc0, soFar0, at;
    var initialSecret := soFar * SECRET_CONSUME_RATE;
    if nbStripes >= perBlock - soFar {
      var thisIter := perBlock - soFar;
      var first := true;
      while first || nbStripes >= perBlock
        invariant k + nbStripes == k0 + nbStripes0 && end + 64 * nbStripes == at + 64 * nbStripes0
        invariant 0 <= nbStripes <= nbStripes0
        invariant acc == Schedule(s, whole, k)
        invariant initialSecret == 8 * Phase(s, k) && thisIter == perBlock - Phase(s, k)
        invariant if first then nbStripes >= thisIter else Phase(s, k) == 0
        decreases nbStripes, first
      {
        SamePart(whole, input, k0, at, nbStripes0, k - k0, thisIter);
        BurstMoved(whole, 64 * k, input, end, thisIter, initialSecret);
        BurstFits(s, whole, k, thisIter);
        acc := AccumulateMany(acc, input, end, initialSecret, thisIter);
        acc := acc + [Scramble(s.limit)];
        end := end + thisIter * STRIPE_LEN;
        nbStripes := nbStripes - thisIter;
        k := k + thisIter;
        thisIter := perBlock;
        initialSecret := 0;
        first := false;
      }
      soFar := 0;
    }
    if nbStripes > 0 {
      SamePart(whole, input, k0, at, nbStripes0, k - k0, nbStripes);
      BurstMoved(whole, 64 * k, input, end, nbStripes, initialSecret);
      BurstFits(s, whole, k, nbStripes);
      acc := AccumulateMany(acc, input, end, initialSecret, nbStripes);
      end := end + nbStripes * STRIPE_LEN;
      soFar := soFar + nbStripes;
    }
  }

  lemma SamePart(a: seq<U8>, b: seq<U8>, k0: nat, at: nat, n0: nat, skip: nat, n: nat)
    requires 64 * (k0 + n0) <= |a| && at + 64 * n0 <= |b| && a[64 * k0..64 * (k0 + n0)] == b[at..at + 64 * n0]
    requires skip + n <= n0
    ensures a[64 * (k0 + skip)..64 * (k0 + skip) + 64 * n] == b[at + 64 * skip..at + 64 * skip + 64 * n]
  {
    SubSlice(a, 64 * k0, 64 * (k0 + n0), 64 * skip, 64 * n);
    SubSlice(b, at, at + 64 * n0, 64 * skip, 64 * n);
  }

  lemma SubSlice(s: seq<U8>, from: nat, to: nat, skip: nat, n: nat)
    requires from + skip + n <= to <= |s|
    ensures s[from + skip..from + skip + n] == s[from..to][skip..skip + n]
  {
    var x, y := s[from + skip..from + skip + n], s[from..to][skip..skip + n];
    forall i | 0 <= i < n ensures x[i] == y[i] {
      assert s[from..to][skip + i] == s[from + skip + i];
    }
  }

  /** The part of XXH3_state_s that takes up input. */
  class XXH3State {
    var acc: seq<Event>
    const buffer: array<U8>
    var bufferedSize: nat
    var nbStripesSoFar: nat
    const secret: Secret
    ghost var consumed: seq<U8>

    /** How many stripes of the input have left the buffer. */
    ghost function Taken(): nat
      reads this
    {
      if |consumed| >= bufferedSize then (|consumed| - bufferedSize) / 64 else 0
    }

    /** The buffer holds the rest of the input, never nothing once a stripe has been taken. While
        it holds less than a stripe, its end still shows the stripe before. */
    ghost predicate Valid()
      reads this, buffer
    {
      && SecretOk(secret) && buffer.Length == 256
      && var k := Taken();
      && |consumed| == 64 * k + bufferedSize && bufferedSize <= 256
      && buffer[..bufferedSize] == consumed[64 * k..]
      && acc == Schedule(secret, consumed, k) && nbStripesSoFar == Phase(secret, k)
      && (k > 0 ==> bufferedSize > 0)
      && (k > 0 && bufferedSize < 64 ==> buffer[192..] == consumed[64 * (k - 1)..64 * k])
    }

    /** XXH3_reset_internal. */
    constructor (secretSize: nat)
      requires secretSize >= SECRET_SIZE_MIN
      ensures Valid() && fresh(buffer) && consumed == [] && secret == Secret(secretSize - STRIPE_LEN)
    {
      buffer := new U8[256](_ => 0);
      acc, bufferedSize, nbStripesSoFar, consumed := [], 0, 0, [];
      secret := Secret(secretSize - STRIPE_LEN);
    }

    lemma Opened()
      requires Valid()
      ensures SecretOk(secret) && buffer.Length == 256
      ensures var k := Taken();
              && |consumed| == 64 * k + bufferedSize && bufferedSize <= 256
              && buffer[..bufferedSize] == consumed[64 * k..]
              && acc == Schedule(secret, consumed, k) && nbStripesSoFar == Phase(secret, k)
              && (k > 0 ==> bufferedSize > 0)
              && (k > 0 && bufferedSize < 64 ==> buffer[192..] == consumed[64 * (k - 1)..64 * k])
    {
    }

    lemma Settle(k: nat)
      requires SecretOk(secret) && buffer.Length == 256
      requires |consumed| == 64 * k + bufferedSize && bufferedSize <= 256
      requires buffer[..bufferedSize] == consumed[64 * k..]
      requires acc == Schedule(secret, consumed, k) && nbStripesSoFar == Phase(secret, k)
      requires k > 0 ==> bufferedSize > 0
      requires k > 0 && bufferedSize < 64 ==> buffer[192..] == consumed[64 * (k - 1)..64 * k]
      ensures Valid()
    {
      hide Schedule, Phase;
      assert Taken() == k;
    }

    /** memcpy into the buffer. */
    method Fill(at: nat, s: seq<U8>)
      requires buffer.Length == 256 && at + |s| <= 256
      modifies buffer
      ensures buffer[..at + |s|] == old(buffer[..at]) + s
      ensures at == 0 ==> buffer[..|s|] == s
      ensures at + |s| <= 192 ==> buffer[192..] == old(buffer[192..])
    {
      forall i | 0 <= i < |s| { buffer[at + i] := s[i]; }
    }

    /** XXH3_update. */
    method Update(input: seq<U8>)
      requires Valid()
      modifies this`acc, this`bufferedSize, this`nbStripesSoFar, this`consumed, buffer
      ensures Valid() && consumed == old(consumed) + input
    {
      hide Schedule, Phase, Valid, Taken;
      Opened();
      ghost var before, k := consumed, Taken();
      consumed := consumed + input;
      SchedulePrefix(secret, before, consumed, k);
      PrefixOfSum(before, input, 64 * k, |input|);
      if |input| <= INTERNALBUFFER_SIZE - bufferedSize {
        Fill(bufferedSize, input);
        bufferedSize := bufferedSize + |input|;
        if k > 0 {
          SubSlice(before, 0, 64 * k, 64 * (k - 1), 64);
          SubSlice(consumed, 0, 64 * k, 64 * (k - 1), 64);
          assert before[0..64 * k] == consumed[0..64 * k];
        }
        Settle(k);
        return;
      }
      TakeIn(input, before, k);
    }

    /** The rest of XXH3_update, for more input than the buffer can hold: the buffer is completed
        and taken up, then all stripes but the last bytes, which are buffered. */
    method TakeIn(input: seq<U8>, ghost before: seq<U8>, ghost k0: nat)
      requires SecretOk(secret) && buffer.Length == 256 && bufferedSize <= 256 < bufferedSize + |input|
      requires consumed == before + input && |before| == 64 * k0 + bufferedSize
      requires buffer[..bufferedSize] == before[64 * k0..]
      requires acc == Schedule(secret, consumed, k0) && nbStripesSoFar == Phase(secret, k0)
      requires bufferedSize == 0 ==> k0 == 0
      modifies this`acc, this`bufferedSize, this`nbStripesSoFar, buffer
      ensures Valid()
    {
      hide Schedule, Phase, Valid;
      ghost var k := k0;
      var p := 0;
      if bufferedSize > 0 {
        p := TakeBuffer(input, before, k);
        k := k + 4;
      }
      if |input| - p > INTERNALBUFFER_SIZE {
        p, k := TakeStripes(input, before, p, k);
      }
      SuffixOfSum(before, input, p);
      Fill(0, input[p..]);
      bufferedSize := |input| - p;
      Settle(k);
    }

    method TakeBuffer(input: seq<U8>, ghost before: seq<U8>, ghost k: nat) returns (p: nat)
      requires SecretOk(secret) && buffer.Length == 256 && 0 < bufferedSize <= 256 <= bufferedSize + |input|
      requires consumed == before + input && |before| == 64 * k + bufferedSize
      requires buffer[..bufferedSize] == before[64 * k..]
      requires acc == Schedule(secret, consumed, k) && nbStripesSoFar == Phase(secret, k)
      modifies this`acc, this`bufferedSize, this`nbStripesSoFar, buffer
      ensures bufferedSize == 0 && p <= |input| && |before| + p == 64 * (k + 4)
      ensures acc == Schedule(secret, consumed, k + 4) && nbStripesSoFar == Phase(secret, k + 4)
      ensures buffer[192..] == consumed[64 * (k + 3)..64 * (k + 4)]
    {
      hide Schedule, Phase, Valid;
      p := INTERNALBUFFER_SIZE - bufferedSize;
      PrefixOfSum(before, input, 64 * k, p);
      Fill(bufferedSize, input[..p]);
      assert buffer[..][0..256] == buffer[..256] == consumed[64 * k..64 * k + 256];
      var end;
      acc, nbStripesSoFar, end := ConsumeStripes(acc, nbStripesSoFar, secret, buffer[..], 0, 4, consumed, k);
      SubSlice(consumed, 64 * k, 64 * k + 256, 192, 64);
      assert buffer[192..] == buffer[..256][192..256];
      bufferedSize := 0;
    }

    /** All stripes that end before the last byte, with the last of them kept in the buffer's end. */
    method TakeStripes(input: seq<U8>, ghost before: seq<U8>, from: nat, ghost k0: nat) returns (p: nat, ghost k: nat)
      requires SecretOk(secret) && buffer.Length == 256 && from + INTERNALBUFFER_SIZE < |input|
      requires consumed == before + input && |before| + from == 64 * k0
      requires acc == Schedule(secret, consumed, k0) && nbStripesSoFar == Phase(secret, k0)
      modifies this`acc, this`nbStripesSoFar, buffer
      ensures from < p < |input| <= p + 64 && |before| + p == 64 * k
      ensures acc == Schedule(secret, consumed, k) && nbStripesSoFar == Phase(secret, k)
      ensures buffer[192..] == consumed[64 * (k - 1)..64 * k]
    {
      hide Schedule, Phase, Valid;
      var nbStripes := (|input| - 1 - from) / STRIPE_LEN;
      k := k0 + nbStripes;
      SumSlice(before, input, from, from + 64 * nbStripes);
      acc, nbStripesSoFar, p := ConsumeStripes(acc, nbStripesSoFar, secret, input, from, nbStripes, consumed, k0);
      SumSlice(before, input, p - 64, p);
      Fill(192, input[p - 64..p]);
      assert buffer[192..] == input[p - 64..p];
    }

    /** XXH3_digest_long, on a copy of the accumulators: the state is left as it is. */
    method DigestLong() returns (r: seq<Event>)
      requires Valid() && |consumed| > MIDSIZE_MAX
      ensures r == LongHash(secret, consumed)
    {
      hide Schedule, Phase, Valid, Taken;
      Opened();
      var lastStripe;
      if bufferedSize >= STRIPE_LEN {
        r := TakeLast();
        lastStripe := buffer[bufferedSize - STRIPE_LEN..bufferedSize];
        LastInBuffer(consumed, Taken(), buffer[..], bufferedSize);
      } else {
        r := acc;
        var catchupSize := STRIPE_LEN - bufferedSize;
        lastStripe := buffer[INTERNALBUFFER_SIZE - catchupSize..] + buffer[..bufferedSize];
        LastAcross(consumed, Taken(), buffer[..], bufferedSize);
        assert buffer[..][256 - catchupSize..] == buffer[256 - catchupSize..];
        assert buffer[..][..bufferedSize] == buffer[..bufferedSize];
        assert buffer[..][192..] == buffer[192..];
      }
      r := r + [Accumulate(lastStripe, secret.limit - SECRET_LASTACC_START)];
    }

    method TakeLast() returns (r: seq<Event>)
      requires Valid() && bufferedSize >= STRIPE_LEN
      ensures r == Schedule(secret, consumed, (|consumed| - 1) / 64)
    {
      hide Schedule, Phase, Valid, Taken;
      Opened();
      ghost var k := Taken();
      var nbStripes := (bufferedSize - 1) / STRIPE_LEN;
      SubSlice(consumed, 64 * k, |consumed|, 0, 64 * nbStripes);
      assert consumed[64 * k..|consumed|] == consumed[64 * k..];
      assert buffer[..][0..64 * nbStripes] == buffer[..bufferedSize][..64 * nbStripes];
      var soFar, end;
      r, soFar, end := ConsumeStripes(acc, nbStripesSoFar, secret, buffer[..], 0, nbStripes, consumed, k);
      assert k + nbStripes == (|consumed| - 1) / 64;
    }
  }

  lemma SumSlice(s: seq<U8>, t: seq<U8>, from: nat, to: nat)
    requires from <= to <= |t|
    ensures (s + t)[|s| + from..|s| + to] == t[from..to]
  {
  }

  /** With a whole stripe in the buffer, its last 64 bytes are those of the input. */
  lemma LastInBuffer(input: seq<U8>, k: nat, buffer: seq<U8>, size: nat)
    requires |input| == 64 * k + size && 64 <= size <= |buffer| && buffer[..size] == input[64 * k..]
    ensures buffer[size - 64..size] == input[|input| - 64..]
  {
    assert buffer[size - 64..size] == buffer[..size][size - 64..];
    assert input[|input| - 64..] == input[64 * k..][size - 64..];
  }

  /** With less, the missing bytes are those kept in the buffer's end. */
  lemma LastAcross(input: seq<U8>, k: nat, buffer: seq<U8>, size: nat)
    requires k > 0 && |input| == 64 * k + size && size < 64 && |buffer| == 256
    requires buffer[..size] == input[64 * k..] && buffer[192..] == input[64 * (k - 1)..64 * k]
    ensures buffer[192 + size..] + buffer[..size] == input[|input| - 64..]
  {
    var from := 64 * (k - 1);
    assert buffer[192 + size..] == buffer[192..][size..];
    assert input[from + size..64 * k] == input[from..64 * k][size..];
    assert input[from + size..] == input[from + size..64 * k] + input[64 * k..];
  }

  /** However a long input is cut, streaming does to the accumulators what one pass does. */
  method HashChunks(chunks: seq<seq<U8>>, secretSize: nat) returns (acc: seq<Event>)
    requires secretSize >= SECRET_SIZE_MIN && |Concat(chunks)| > MIDSIZE_MAX
    ensures acc == LongHash(Secret(secretSize - STRIPE_LEN), Concat(chunks))
  {
    hide LongHash, Concat, Schedule, Phase;
    var state := new XXH3State(secretSize);
    ConcatNone(chunks);
    for i := 0 to |chunks|
      invariant state.Valid() && fresh(state) && fresh(state.buffer) && state.consumed == Concat(chunks[..i])
    {
      ConcatNext(chunks, i);
      state.Update(chunks[i]);
    }
    assert chunks[..|chunks|] == chunks;
    acc := state.DigestLong();
  }
}

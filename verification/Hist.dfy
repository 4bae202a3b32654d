/** Byte histograms (hist.c): a plain loop, and a fast one that reads four bytes ahead and counts
    into four tables. Counters are `unsigned` in the source; fewer than 2^32 bytes fit them. */
module Hist {
  import opened Bits
  import opened LittleEndian

  const FAST_THRESHOLD: nat := 1500
  const WKSP_SIZE_U32: nat := 1024

  datatype HistError = Generic | WorkSpaceTooSmall | MaxSymbolValueTooSmall

  datatype HistResult = Largest(count: nat) | HistFailed(error: HistError)

  /** The first `n` counters count the bytes of `src`. */
  ghost predicate Counts(count: seq<nat>, n: nat, src: seq<U8>)
  {
    n <= |count| && forall b :: 0 <= b < n ==> count[b] == multiset(src)[b]
  }

  ghost predicate IsMaxSymbol(m: nat, src: seq<U8>)
  {
    m in src && forall i :: 0 <= i < |src| ==> src[i] <= m
  }

  ghost predicate IsLargest(n: nat, src: seq<U8>)
  {
    && (exists i :: 0 <= i < |src| && n == multiset(src)[src[i]])
    && forall b: nat :: multiset(src)[b] <= n
  }

  /** The outcome of a successful count: what both methods must deliver. */
  ghost predicate Tallied(src: seq<U8>, n: nat, count: seq<nat>, m: nat, largest: nat)
  {
    && Counts(count, n, src)
    && if src == [] then m == 0 && largest == 0 else IsMaxSymbol(m, src) && IsLargest(largest, src)
  }

  predicate AllWithin(src: seq<U8>, limit: nat)
  {
    forall i :: 0 <= i < |src| ==> src[i] <= limit
  }

  // About the outcome.

  /** It is determined by the bytes, so any two ways of counting agree. */
  lemma TalliedUnique(src: seq<U8>, n: nat, a: seq<nat>, ma: nat, la: nat, b: seq<nat>, mb: nat, lb: nat)
    requires Tallied(src, n, a, ma, la) && Tallied(src, n, b, mb, lb)
    ensures a[..n] == b[..n] && ma == mb && la == lb
  {
  }

  function Sum(count: seq<nat>): nat
  {
    if count == [] then 0 else Sum(count[..|count| - 1]) + count[|count| - 1]
  }

  lemma {:induction false} SumZero(count: seq<nat>)
    requires forall i :: 0 <= i < |count| ==> count[i] == 0
    ensures Sum(count) == 0
  {
    if count != [] {
      SumZero(count[..|count| - 1]);
    }
  }

  lemma {:induction false} SumBump(count: seq<nat>, b: nat)
    requires b < |count| && count[b] > 0
    ensures Sum(count[b := count[b] - 1]) == Sum(count) - 1
  {
    var last := |count| - 1;
    if b < last {
      SumBump(count[..last], b);
      assert count[b := count[b] - 1][..last] == count[..last][b := count[b] - 1];
    } else {
      assert count[b := count[b] - 1][..last] == count[..last];
    }
  }

  /** Nothing is lost: the counters add up to the number of bytes. */
  lemma {:induction false} CountsSum(count: seq<nat>, src: seq<U8>)
    requires Counts(count, |count|, src) && forall i :: 0 <= i < |src| ==> src[i] < |count|
    ensures Sum(count) == |src|
    decreases |src|
  {
    if src == [] {
      SumZero(count);
    } else {
      var last := |src| - 1;
      var b := src[last];
      assert src == src[..last] + [b];
      CountsSum(count[b := count[b] - 1], src[..last]);
      SumBump(count, b);
    }
  }

  lemma SeenNext(seen: seq<U8>, b: U8, c: nat)
    ensures multiset(seen + [b])[c] == multiset(seen)[c] + (if c == b then 1 else 0)
  {
  }

  lemma SeenPresent(src: seq<U8>, i: nat)
    requires i < |src|
    ensures multiset(src)[src[i]] > 0
  {
    assert src[i] in multiset(src);
  }

  // What the two methods share.

  /** Walks down from `top` to the largest symbol that occurs. */
  method MaxSymbol(count: array<nat>, top: nat, ghost src: seq<U8>) returns (m: nat)
    requires top < count.Length && Counts(count[..], top + 1, src)
    requires src != [] && AllWithin(src, top)
    ensures m <= top && IsMaxSymbol(m, src)
  {
    m := top;
    SeenPresent(src, 0);
    while count[m] == 0
      invariant m <= top && AllWithin(src, m)
      decreases m
    {
      forall i | 0 <= i < |src| ensures src[i] < m {
        SeenPresent(src, i);
      }
      assert src[0] < m;
      m := m - 1;
    }
    assert m in multiset(src);
  }

  /** The largest of the first `n` counters, when they cover every symbol that occurs. */
  method LargestCount(count: array<nat>, n: nat, ghost src: seq<U8>) returns (largest: nat)
    requires n <= count.Length && Counts(count[..], n, src)
    requires src != [] && forall i :: 0 <= i < |src| ==> src[i] < n
    ensures IsLargest(largest, src)
  {
    largest := 0;
    for s := 0 to n
      invariant forall b :: 0 <= b < s ==> multiset(src)[b] <= largest
      invariant largest == 0 || exists i :: 0 <= i < |src| && largest == multiset(src)[src[i]]
    {
      if count[s] > largest {
        largest := count[s];
        Attained(src, s);
      }
    }
    SeenPresent(src, 0);
    forall b: nat ensures multiset(src)[b] <= largest {
      if b >= n && b in multiset(src) {
        Attained(src, b);
      }
    }
  }

  lemma Attained(src: seq<U8>, b: nat)
    requires multiset(src)[b] > 0
    ensures exists i :: 0 <= i < |src| && src[i] == b
  {
    assert b in multiset(src);
  }

  /** HIST_count_simple. */
  method CountSimple(count: array<nat>, maxSymbolValue: nat, src: seq<U8>) returns (largest: nat, m: nat)
    requires maxSymbolValue < count.Length && AllWithin(src, maxSymbolValue)
    modifies count
    ensures Tallied(src, maxSymbolValue + 1, count[..], m, largest)
    ensures count[maxSymbolValue + 1..] == old(count[maxSymbolValue + 1..])
  {
    forall s | 0 <= s <= maxSymbolValue { count[s] := 0; }
    if |src| == 0 {
      return 0, 0;
    }
    var ip := 0;
    while ip < |src|
      invariant ip <= |src| && Counts(count[..], maxSymbolValue + 1, src[..ip])
      invariant count[maxSymbolValue + 1..] == old(count[maxSymbolValue + 1..])
    {
      NextCounted(count[..], maxSymbolValue + 1, src, ip);
      ghost var before := count[..];
      count[src[ip]] := count[src[ip]] + 1;
      assert count[..] == before[src[ip] := before[src[ip]] + 1];
      ip := ip + 1;
    }
    assert src[..ip] == src;
    m := MaxSymbol(count, maxSymbolValue, src);
    largest := LargestCount(count, m + 1, src);
  }

  lemma NextCounted(count: seq<nat>, n: nat, src: seq<U8>, ip: nat)
    requires ip < |src| && src[ip] < n && Counts(count, n, src[..ip])
    ensures Counts(count[src[ip] := count[src[ip]] + 1], n, src[..ip + 1])
  {
    assert src[..ip + 1] == src[..ip] + [src[ip]];
    var next := count[src[ip] := count[src[ip]] + 1];
    forall b | 0 <= b < n ensures next[b] == multiset(src[..ip + 1])[b] {
      SeenNext(src[..ip], src[ip], b);
    }
  }

  // Four tables.

  /** The four tables in the work space together count the bytes seen. */
  ghost predicate FourTables(ws: seq<nat>, seen: seq<U8>)
  {
    && |ws| >= WKSP_SIZE_U32
    && forall b :: 0 <= b < 256 ==> ws[b] + ws[256 + b] + ws[512 + b] + ws[768 + b] == multiset(seen)[b]
  }

  lemma Bumped(ws: seq<nat>, seen: seq<U8>, table: nat, b: U8)
    requires FourTables(ws, seen) && table < 4
    ensures FourTables(ws[256 * table + b := ws[256 * table + b] + 1], seen + [b])
  {
    forall c | 0 <= c < 256 ensures multiset(seen + [b])[c] == multiset(seen)[c] + (if c == b then 1 else 0) {
      SeenNext(seen, b, c);
    }
  }

  method Bump(ws: array<nat>, table: nat, b: U8, ghost seen: seq<U8>)
    requires table < 4 && FourTables(ws[..], seen)
    modifies ws
    ensures FourTables(ws[..], seen + [b])
  {
    Bumped(ws[..], seen, table, b);
    ghost var before, at := ws[..], 256 * table + b;
    ws[256 * table + b] := ws[256 * table + b] + 1;
    assert ws[..] == before[at := before[at] + 1];
  }

  lemma WordBytes(s: seq<U8>)
    requires |s| == 4
    ensures var c := LE(s);
            && c % 256 == s[0] && (c / 256) % 256 == s[1] && (c / 65536) % 256 == s[2] && c / 16777216 == s[3]
  {
    LEStep(s);
    LEStep(s[1..]);
    LEStep(s[2..]);
    LEStep(s[3..]);
    Digits(s[0], s[1], s[2], s[3]);
  }

  lemma LEStep(s: seq<U8>)
    requires s != []
    ensures LE(s) == s[0] + 256 * LE(s[1..]) && (|s| == 1 ==> LE(s[1..]) == 0)
    ensures |s| > 1 ==> s[1..][1..] == s[2..]
  {
  }

  lemma Digits(a: U8, b: U8, c: U8, d: U8)
    ensures var x := a + 256 * (b + 256 * (c + 256 * d));
            && x % 256 == a && (x / 256) % 256 == b && (x / 65536) % 256 == c && x / 16777216 == d
  {
  }

  /** One word, a byte to each table. */
  method CountWord(ws: array<nat>, c: nat, ghost source: seq<U8>, ghost at: nat)
    requires at + 4 <= |source| && c == LE(source[at..at + 4]) && FourTables(ws[..], source[..at])
    modifies ws
    ensures FourTables(ws[..], source[..at + 4])
  {
    hide FourTables, LE;
    WordBytes(source[at..at + 4]);
    Bump(ws, 0, c % 256, source[..at]);
    assert source[..at] + [source[at]] == source[..at + 1];
    Bump(ws, 1, (c / 256) % 256, source[..at + 1]);
    assert source[..at + 1] + [source[at + 1]] == source[..at + 2];
    Bump(ws, 2, (c / 65536) % 256, source[..at + 2]);
    assert source[..at + 2] + [source[at + 2]] == source[..at + 3];
    Bump(ws, 3, c / 16777216, source[..at + 3]);
    assert source[..at + 3] + [source[at + 3]] == source[..at + 4];
  }

  /** MEM_read32. */
  method Read32(source: seq<U8>, ip: nat) returns (c: nat)
    requires ip + 4 <= |source|
    ensures c == LE(source[ip..ip + 4])
  {
    c := LE(source[ip..ip + 4]);
  }

  /** Everything before the word last read has been counted. */
  ghost predicate Ahead(ws: seq<nat>, cached: nat, source: seq<U8>, ip: nat)
  {
    && 4 <= ip <= |source|
    && cached == LE(source[ip - 4..ip]) && FourTables(ws, source[..ip - 4])
  }

  lemma AheadStarts(ws: seq<nat>, source: seq<U8>)
    requires |source| >= 4 && FourTables(ws, [])
    ensures Ahead(ws, LE(source[0..4]), source, 4)
  {
    hide LE, FourTables;
    assert source[..0] == [];
  }

  /** A quarter of a stripe: reads the word at `ip` before it counts the one read last time. */
  method CountAhead(ws: array<nat>, cached: nat, source: seq<U8>, ip: nat) returns (next: nat)
    requires ip + 4 <= |source| && Ahead(ws[..], cached, source, ip)
    modifies ws
    ensures Ahead(ws[..], next, source, ip + 4)
  {
    hide FourTables, LE;
    next := Read32(source, ip);
    CountWord(ws, cached, source, ip - 4);
  }

  /** The stripes of 16 bytes, read one word ahead, and the bytes after them. */
  method CountStripes(ws: array<nat>, source: seq<U8>, sourceSize: nat)
    requires 0 < sourceSize <= |source| && |source| >= 4 && FourTables(ws[..], [])
    modifies ws
    ensures FourTables(ws[..], source[..sourceSize])
  {
    hide FourTables, LE, Ahead;
    AheadStarts(ws[..], source);
    var cached := Read32(source, 0);
    var ip := 4;
    while ip + 15 < sourceSize
      invariant 4 <= ip && (ip == 4 || ip <= sourceSize)
      invariant Ahead(ws[..], cached, source, ip)
    {
      cached := CountAhead(ws, cached, source, ip);
      ip := ip + 4;
      cached := CountAhead(ws, cached, source, ip);
      ip := ip + 4;
      cached := CountAhead(ws, cached, source, ip);
      ip := ip + 4;
      cached := CountAhead(ws, cached, source, ip);
      ip := ip + 4;
    }
    AheadSeen(ws[..], cached, source, ip);
    ip := ip - 4;
    CountRest(ws, source, ip, sourceSize);
  }

  lemma AheadSeen(ws: seq<nat>, cached: nat, source: seq<U8>, ip: nat)
    requires Ahead(ws, cached, source, ip)
    ensures 4 <= ip <= |source| && FourTables(ws, source[..ip - 4])
  {
  }

  /** The last symbols, one at a time. */
  method CountRest(ws: array<nat>, source: seq<U8>, from: nat, sourceSize: nat)
    requires from <= sourceSize <= |source| && FourTables(ws[..], source[..from])
    modifies ws
    ensures FourTables(ws[..], source[..sourceSize])
  {
    hide FourTables;
    var ip := from;
    while ip < sourceSize
      invariant ip <= sourceSize && FourTables(ws[..], source[..ip])
    {
      assert source[..ip] + [source[ip]] == source[..ip + 1];
      Bump(ws, 0, source[ip], source[..ip]);
      ip := ip + 1;
    }
  }

  /** The four tables added up into the first one. */
  method Recombine(ws: array<nat>, ghost src: seq<U8>) returns (max: nat)
    requires src != [] && FourTables(ws[..], src)
    modifies ws
    ensures Counts(ws[..], 256, src) && IsLargest(max, src)
  {
    max := 0;
    ghost var before := ws[..];
    for s := 0 to 256
      invariant ws.Length >= WKSP_SIZE_U32 && ws[s..] == before[s..]
      invariant Counts(ws[..], s, src)
      invariant forall b :: 0 <= b < s ==> multiset(src)[b] <= max
      invariant max == 0 || exists i :: 0 <= i < |src| && max == multiset(src)[src[i]]
    {
      ws[s] := ws[s] + (ws[256 + s] + ws[512 + s] + ws[768 + s]);
      if ws[s] > max {
        max := ws[s];
        Attained(src, s);
      }
    }
    SeenPresent(src, 0);
    forall b: nat ensures multiset(src)[b] <= max {
      if b >= 256 && b in multiset(src) {
        Attained(src, b);
      }
    }
  }

  /** HIST_count_parallel_wksp. The first word is read whatever the size: four bytes must be
      readable even when fewer are to be counted. The counters may be the work space itself,
      which the result then overwrites. */
  method CountParallel(count: array<nat>, maxSymbolValue: nat, source: seq<U8>, sourceSize: nat, check: bool,
                       workSpace: array<nat>)
    returns (r: HistResult, m: nat)
    requires maxSymbolValue <= 255 && maxSymbolValue < count.Length
    requires workSpace.Length >= WKSP_SIZE_U32
    requires sourceSize <= |source| && (sourceSize > 0 ==> |source| >= 4)
    modifies count, workSpace
    ensures r.HistFailed? <==> check && !AllWithin(source[..sourceSize], maxSymbolValue)
    ensures r.HistFailed? ==> r.error == MaxSymbolValueTooSmall && m == maxSymbolValue
    ensures r.HistFailed? && count != workSpace ==> count[..] == old(count[..])
    ensures r.Largest? ==> Tallied(source[..sourceSize], maxSymbolValue + 1, count[..], m, r.count)
    ensures count != workSpace ==> count[maxSymbolValue + 1..] == old(count[maxSymbolValue + 1..])
  {
    if sourceSize == 0 {
      forall s | 0 <= s <= maxSymbolValue { count[s] := 0; }
      return Largest(0), 0;
    }
    ghost var src := source[..sourceSize];
    forall s | 0 <= s < WKSP_SIZE_U32 { workSpace[s] := 0; }
    CountStripes(workSpace, source, sourceSize);
    var max := Recombine(workSpace, src);
    m := MaxSymbol(workSpace, 255, src);
    if check && m > maxSymbolValue {
      return HistFailed(MaxSymbolValueTooSmall), maxSymbolValue;
    }
    forall s | 0 <= s <= maxSymbolValue { count[s] := workSpace[s]; }
    r := Largest(max);
  }

  /** HIST_countFast_wksp: trusts the caller about the symbols. */
  method CountFast(count: array<nat>, maxSymbolValue: nat, source: seq<U8>, sourceSize: nat,
                   workSpace: array<nat>, aligned: bool)
    returns (r: HistResult, m: nat)
    requires maxSymbolValue <= 255 && maxSymbolValue < count.Length
    requires sourceSize <= |source| && AllWithin(source[..sourceSize], maxSymbolValue)
    modifies count, workSpace
    ensures r.HistFailed? <==> sourceSize >= FAST_THRESHOLD && (!aligned || workSpace.Length < WKSP_SIZE_U32)
    ensures r.HistFailed? ==> r.error == (if !aligned then Generic else WorkSpaceTooSmall)
    ensures r.Largest? ==> Tallied(source[..sourceSize], maxSymbolValue + 1, count[..], m, r.count)
  {
    if sourceSize < FAST_THRESHOLD {
      var largest;
      largest, m := CountSimple(count, maxSymbolValue, source[..sourceSize]);
      return Largest(largest), m;
    }
    m := maxSymbolValue;
    if !aligned {
      return HistFailed(Generic), m;
    }
    if workSpace.Length < WKSP_SIZE_U32 {
      return HistFailed(WorkSpaceTooSmall), m;
    }
    r, m := CountParallel(count, maxSymbolValue, source, sourceSize, false, workSpace);
  }

  /** HIST_count_wksp: safe for any bytes. */
  method CountWksp(count: array<nat>, maxSymbolValue: nat, source: seq<U8>, sourceSize: nat,
                   workSpace: array<nat>, aligned: bool)
    returns (r: HistResult, m: nat)
    requires count.Length > (if maxSymbolValue < 255 then maxSymbolValue else 255)
    requires sourceSize <= |source| && (sourceSize > 0 && maxSymbolValue < 255 ==> |source| >= 4)
    modifies count, workSpace
    ensures var src := source[..sourceSize];
            && (r.HistFailed? <==> !aligned || workSpace.Length < WKSP_SIZE_U32 || !AllWithin(src, maxSymbolValue))
            && (r.HistFailed? ==> r.error == if !aligned then Generic
                                             else if workSpace.Length < WKSP_SIZE_U32 then WorkSpaceTooSmall
                                             else MaxSymbolValueTooSmall)
            && (r.Largest? ==> Tallied(src, if maxSymbolValue < 255 then maxSymbolValue + 1 else 256,
                                       count[..], m, r.count))
  {
    m := maxSymbolValue;
    if !aligned {
      return HistFailed(Generic), m;
    }
    if workSpace.Length < WKSP_SIZE_U32 {
      return HistFailed(WorkSpaceTooSmall), m;
    }
    if maxSymbolValue < 255 {
      r, m := CountParallel(count, maxSymbolValue, source, sourceSize, true, workSpace);
      return;
    }
    r, m := CountFast(count, 255, source, sourceSize, workSpace, aligned);
  }
}

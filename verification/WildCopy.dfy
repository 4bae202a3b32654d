/** ZSTD_wildcopy: a copy in 8- or 16-byte chunks that may run past its end, on one memory in
    which source and destination may overlap. */
module WildCopy {
  import opened Bits

  const WILDCOPY_OVERLENGTH: nat := 32
  const WILDCOPY_VECLEN: nat := 16

  datatype Overlap = NoOverlap | OverlapSrcBeforeDst

  /** `n` bytes copied one at a time, in ascending order. */
  function ByteCopy(mem: seq<U8>, dst: nat, src: nat, n: nat): (r: seq<U8>)
    requires dst + n <= |mem| && src + n <= |mem|
    ensures |r| == |mem|
  {
    if n == 0 then mem
    else var r := ByteCopy(mem, dst, src, n - 1); r[dst + n - 1 := r[src + n - 1]]
  }

  /** One chunk, read whole before it is written. */
  function ChunkCopy(mem: seq<U8>, dst: nat, src: nat, k: nat): (r: seq<U8>)
    requires dst + k <= |mem| && src + k <= |mem|
    ensures |r| == |mem|
  {
    mem[..dst] + mem[src..src + k] + mem[dst + k..]
  }

  // What a byte-by-byte copy does.

  lemma {:induction false} ByteCopyFrame(mem: seq<U8>, dst: nat, src: nat, n: nat, i: nat)
    requires dst + n <= |mem| && src + n <= |mem|
    requires i < |mem| && !(dst <= i < dst + n)
    ensures ByteCopy(mem, dst, src, n)[i] == mem[i]
  {
    if n > 0 {
      ByteCopyFrame(mem, dst, src, n - 1, i);
    }
  }

  /** Without an overlap ahead of the copy, the destination gets the old source bytes. */
  lemma {:induction false} ByteCopyMoves(mem: seq<U8>, dst: nat, src: nat, n: nat, i: nat)
    requires dst + n <= |mem| && src + n <= |mem|
    requires dst <= src || src + n <= dst
    requires i < n
    ensures ByteCopy(mem, dst, src, n)[dst + i] == mem[src + i]
  {
    if i < n - 1 {
      ByteCopyMoves(mem, dst, src, n - 1, i);
    } else {
      ByteCopyFrame(mem, dst, src, n - 1, src + i);
    }
  }

  /** With the source `d` bytes before the destination, the last `d` bytes repeat: this is what
      a match of an LZ77 format means. */
  lemma {:induction false} ByteCopyRepeats(mem: seq<U8>, dst: nat, src: nat, n: nat, i: nat)
    requires dst + n <= |mem| && src < dst && i < n
    ensures ByteCopy(mem, dst, src, n)[dst + i] == ByteCopy(mem, dst, src, n)[src + i]
  {
    if i < n - 1 {
      ByteCopyRepeats(mem, dst, src, n - 1, i);
    }
  }

  /** A longer copy leaves the bytes of a shorter one as they are. */
  lemma {:induction false} ByteCopyLonger(mem: seq<U8>, dst: nat, src: nat, n: nat, m: nat, i: nat)
    requires n <= m && dst + m <= |mem| && src + m <= |mem| && i < |mem| && i < dst + n
    ensures ByteCopy(mem, dst, src, m)[i] == ByteCopy(mem, dst, src, n)[i]
    decreases m
  {
    if n < m {
      ByteCopyLonger(mem, dst, src, n, m - 1, i);
    }
  }

  // Chunks.

  /** A chunk no longer than the distance is the same as its bytes copied one by one. */
  lemma {:induction false} ChunkIsBytes(mem: seq<U8>, dst: nat, src: nat, k: nat)
    requires dst + k <= |mem| && src + k <= |mem|
    requires dst + k <= src || src + k <= dst
    ensures ByteCopy(mem, dst, src, k) == ChunkCopy(mem, dst, src, k)
  {
    hide ByteCopy;
    var r, c := ByteCopy(mem, dst, src, k), ChunkCopy(mem, dst, src, k);
    forall i | 0 <= i < |mem| ensures r[i] == c[i] {
      if dst <= i < dst + k {
        ByteCopyMoves(mem, dst, src, k, i - dst);
      } else {
        ByteCopyFrame(mem, dst, src, k, i);
      }
    }
  }

  lemma {:induction false} ByteCopyThen(mem: seq<U8>, dst: nat, src: nat, n: nat, k: nat)
    requires dst + n + k <= |mem| && src + n + k <= |mem|
    ensures ByteCopy(mem, dst, src, n + k) == ByteCopy(ByteCopy(mem, dst, src, n), dst + n, src + n, k)
  {
    if k > 0 {
      ByteCopyThen(mem, dst, src, n, k - 1);
    }
  }

  lemma NextChunk(mem: seq<U8>, dst: nat, src: nat, n: nat, k: nat)
    requires dst + n + k <= |mem| && src + n + k <= |mem|
    requires dst + k <= src || src + k <= dst
    ensures ByteCopy(mem, dst, src, n + k) == ChunkCopy(ByteCopy(mem, dst, src, n), dst + n, src + n, k)
  {
    hide ByteCopy, ChunkCopy;
    ByteCopyThen(mem, dst, src, n, k);
    ChunkIsBytes(ByteCopy(mem, dst, src, n), dst + n, src + n, k);
  }

  /** ZSTD_copy8 and ZSTD_copy16. */
  method Copy(mem: array<U8>, op: nat, ip: nat, k: nat)
    requires op + k <= mem.Length && ip + k <= mem.Length
    modifies mem
    ensures mem[..] == ChunkCopy(old(mem[..]), op, ip, k)
  {
    forall i | 0 <= i < k { mem[op + i] := mem[ip + i]; }
  }

  /** Copies at least `length` bytes and at most 32 more, exactly as a loop over single bytes
      would, in both overlap modes. */
  method WildCopy(mem: array<U8>, dst: nat, src: nat, length: nat, ovtype: Overlap) returns (ghost written: nat)
    requires dst + length + WILDCOPY_OVERLENGTH <= mem.Length && src + length + WILDCOPY_OVERLENGTH <= mem.Length
    requires ovtype.NoOverlap? ==> dst + WILDCOPY_VECLEN <= src || src + WILDCOPY_VECLEN <= dst
    requires ovtype.OverlapSrcBeforeDst? ==> src + 8 <= dst
    modifies mem
    ensures length <= written <= length + WILDCOPY_OVERLENGTH
    ensures mem[..] == ByteCopy(old(mem[..]), dst, src, written)
  {
    hide ByteCopy, ChunkCopy;
    ghost var before := mem[..];
    var diff := dst - src;
    var op, ip := dst, src;
    var oend := dst + length;
    NoBytes(before, dst, src);
    if ovtype.OverlapSrcBeforeDst? && diff < WILDCOPY_VECLEN {
      NextChunk(before, dst, src, 0, 8);
      Copy(mem, op, ip, 8);
      op, ip := op + 8, ip + 8;
      while op < oend
        invariant op - dst == ip - src && dst + 8 <= op && (op < oend + 8 || op == dst + 8)
        invariant mem[..] == ByteCopy(before, dst, src, op - dst)
      {
        NextChunk(before, dst, src, op - dst, 8);
        Copy(mem, op, ip, 8);
        op, ip := op + 8, ip + 8;
      }
      written := op - dst;
    } else {
      NextChunk(before, dst, src, 0, 16);
      Copy(mem, op, ip, 16);
      if 16 >= length {
        return 16;
      }
      op, ip := op + 16, ip + 16;
      op, ip := TwoChunks(mem, op, ip, before, dst, src);
      while op < oend
        invariant dst <= op && op - dst == ip - src && op < oend + 32
        invariant mem[..] == ByteCopy(before, dst, src, op - dst)
      {
        op, ip := TwoChunks(mem, op, ip, before, dst, src);
      }
      written := op - dst;
    }
  }

  lemma NoBytes(mem: seq<U8>, dst: nat, src: nat)
    requires dst <= |mem| && src <= |mem|
    ensures ByteCopy(mem, dst, src, 0) == mem
  {
  }

  /** The body of the long loop: COPY16 twice. */
  method TwoChunks(mem: array<U8>, op0: nat, ip0: nat, ghost before: seq<U8>, ghost dst: nat, ghost src: nat)
    returns (op: nat, ip: nat)
    requires op0 + 32 <= mem.Length && ip0 + 32 <= mem.Length && |before| == mem.Length
    requires dst <= op0 && op0 - dst == ip0 - src && (dst + 16 <= src || src + 16 <= dst)
    requires mem[..] == ByteCopy(before, dst, src, op0 - dst)
    modifies mem
    ensures op == op0 + 32 && ip == ip0 + 32
    ensures mem[..] == ByteCopy(before, dst, src, op - dst)
  {
    hide ByteCopy, ChunkCopy;
    op, ip := op0, ip0;
    NextChunk(before, dst, src, op - dst, 16);
    Copy(mem, op, ip, 16);
    op, ip := op + 16, ip + 16;
    NextChunk(before, dst, src, op - dst, 16);
    Copy(mem, op, ip, 16);
    op, ip := op + 16, ip + 16;
  }

  /** So the first `length` bytes come out as asked, and nothing changes before them or more
      than 32 bytes past them. */
  lemma WildCopyExact(before: seq<U8>, after: seq<U8>, dst: nat, src: nat, length: nat, written: nat, i: nat)
    requires length <= written <= length + WILDCOPY_OVERLENGTH
    requires dst + written <= |before| && src + written <= |before|
    requires after == ByteCopy(before, dst, src, written) && i < |before|
    ensures i < dst + length ==> after[i] == ByteCopy(before, dst, src, length)[i]
    ensures i < dst || i >= dst + length + WILDCOPY_OVERLENGTH ==> after[i] == before[i]
  {
    hide ByteCopy;
    if i < dst + length {
      ByteCopyLonger(before, dst, src, length, written, i);
    }
    if i < dst || i >= dst + written {
      ByteCopyFrame(before, dst, src, written, i);
    }
  }
}

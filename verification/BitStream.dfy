/** The FSE bit stream: written forward through a 64-bit register (CStream) and read
    backward (DStream). A stream of fields is specified by the natural number its bits
    spell, so a reader is determined by that number and a bit position. */
module BitStream {
  import opened Bits
  import opened LittleEndian

  /** The low `width` bits of `value`, as one call of BIT_addBits contributes them. */
  datatype Field = Field(value: nat, width: nat)

  /** Number of bits in a list of fields. */
  function Total(fs: seq<Field>): nat
  {
    if fs == [] then 0 else Total(fs[..|fs| - 1]) + fs[|fs| - 1].width
  }

  lemma NoFields()
    ensures Total([]) == 0
  {
  }

  /** The number spelled by a list of fields, the first one lowest. */
  function Payload(fs: seq<Field>): nat
  {
    if fs == [] then 0
    else
      var init, last := fs[..|fs| - 1], fs[|fs| - 1];
      Payload(init) + Shl(Low(last.value, last.width), Total(init))
  }

  /** Bytes that hold exactly these fields, closed by the end mark bit. */
  ghost predicate Holds(bytes: seq<U8>, fs: seq<Field>)
  {
    && |bytes| == Total(fs) / 8 + 1
    && LE(bytes) == Payload(fs) + Pow2(Total(fs))
  }

  /** The bits of v below Total(fs) are these fields; whatever is above is ignored. */
  ghost predicate StartsWith(v: nat, fs: seq<Field>)
  {
    Low(v, Total(fs)) == Payload(fs)
  }

  const EndMark := Field(1, 1)

  const TWO64: nat := 0x1_0000_0000_0000_0000

  lemma PayloadSnoc(fs: seq<Field>, f: Field)
    ensures Total(fs + [f]) == Total(fs) + f.width
    ensures Payload(fs + [f]) == Payload(fs) + Shl(Low(f.value, f.width), Total(fs))
  {
    assert (fs + [f])[..|fs + [f]| - 1] == fs;
  }

  lemma {:induction false} PayloadBound(fs: seq<Field>)
    ensures Payload(fs) < Pow2(Total(fs))
  {
    if fs != [] {
      var init, last := fs[..|fs| - 1], fs[|fs| - 1];
      PayloadBound(init);
      Split(last.value, last.width);
      JoinBound(Payload(init), Total(init), Low(last.value, last.width), last.width);
    }
  }

  /** Shifting a field left inside the 64-bit register loses nothing while it fits. */
  lemma ShiftFits(field: nat, width: nat, pos: nat)
    requires field < Pow2(width) && width + pos <= 64
    ensures Shl(field, pos) % TWO64 == Shl(field, pos)
  {
    ShlZero(pos);
    JoinBound(0, pos, field, width);
    Pow2Mono(width + pos, 64);
    Pow2Values();
  }

  // ------------------------------------------------------------------ writer

  /** BIT_CStream_t: the writer. `endPtr` leaves room for one 8-byte store. */
  class CStream {
    const buf: array<U8>
    var bitContainer: nat
    var bitPos: nat
    var ptr: nat
    var endPtr: int
    ghost var fields: seq<Field>  // everything added so far

    /** Number of bytes the flushed bits would fill if the buffer had no end. */
    ghost function Wanted(): int
      reads this
    {
      (Total(fields) - bitPos) / 8
    }

    ghost predicate Valid()
      reads this, buf
    {
      && 0 < endPtr == buf.Length - 8
      && bitPos < 64 && bitContainer < Pow2(bitPos)
      && bitPos <= Total(fields) && (Total(fields) - bitPos) % 8 == 0
      && ptr == (if Wanted() <= endPtr then Wanted() else endPtr)
      && (Wanted() <= endPtr ==> LE(buf[..ptr]) + Shl(bitContainer, 8 * ptr) == Payload(fields))
    }

    constructor (buffer: array<U8>)
      ensures buf == buffer
    {
      buf := buffer;
      bitContainer, bitPos, ptr, endPtr := 0, 0, 0, 0;
      fields := [];
    }

    /** BIT_initCStream: fails exactly when the buffer cannot take one store and a byte. */
    method InitCStream() returns (ok: bool)
      modifies this
      ensures ok <==> buf.Length > 8
      ensures fields == [] && bitPos == 0
      ensures ok ==> Valid()
    {
      bitContainer := 0;
      bitPos := 0;
      ptr := 0;
      endPtr := buf.Length - 8;
      fields := [];
      ok := buf.Length > 8;
    }

    /** BIT_addBits: appends the low `nbBits` bits of `value`. */
    method AddBits(value: nat, nbBits: nat)
      requires Valid()
      requires nbBits <= 31 && nbBits + bitPos < 64
      modifies this`bitContainer, this`bitPos, this`fields
      ensures Valid()
      ensures fields == old(fields) + [Field(value, nbBits)]
      ensures bitPos == old(bitPos) + nbBits
    {
      AndMask(value, nbBits);
      AddClean(value, nbBits);
      bitContainer := BitOr(bitContainer, Shl(BitAnd(value, Pow2(nbBits) - 1), bitPos) % TWO64);
      bitPos := bitPos + nbBits;
      fields := fields + [Field(value, nbBits)];
    }

    /** BIT_addBitsFast: the same for a value with no bit above `nbBits`. */
    method AddBitsFast(value: nat, nbBits: nat)
      requires Valid()
      requires value < Pow2(nbBits) && nbBits + bitPos < 64
      modifies this`bitContainer, this`bitPos, this`fields
      ensures Valid()
      ensures fields == old(fields) + [Field(value, nbBits)]
      ensures bitPos == old(bitPos) + nbBits
    {
      LowSmall(value, nbBits);
      AddClean(value, nbBits);
      bitContainer := BitOr(bitContainer, Shl(value, bitPos) % TWO64);
      bitPos := bitPos + nbBits;
      fields := fields + [Field(value, nbBits)];
    }

    /** What the register and the payload become when a field is or-ed in. */
    lemma AddClean(value: nat, nbBits: nat)
      requires Valid() && nbBits + bitPos < 64
      ensures var c := BitOr(bitContainer, Shl(Low(value, nbBits), bitPos) % TWO64);
              && c < Pow2(bitPos + nbBits)
              && (Wanted() <= endPtr ==>
                    LE(buf[..ptr]) + Shl(c, 8 * ptr) == Payload(fields + [Field(value, nbBits)]))
      ensures Total(fields + [Field(value, nbBits)]) == Total(fields) + nbBits
    {
      hide Shl, Shr, Low, Pow2, BitOr, LE, Payload, Total;
      var clean := Low(value, nbBits);
      Split(value, nbBits);
      ShiftFits(clean, nbBits, bitPos);
      OrDisjoint(bitContainer, clean, bitPos);
      JoinBound(bitContainer, bitPos, clean, nbBits);
      PayloadSnoc(fields, Field(value, nbBits));
      ShlAdd(bitContainer, Shl(clean, bitPos), 8 * ptr);
      ShlShl(clean, bitPos, 8 * ptr);
      assert Wanted() <= endPtr ==> bitPos + 8 * ptr == Total(fields);
    }

    /** BIT_flushBits: stores the register and keeps only the bits of the unfinished byte.
        The pointer stops at `endPtr`: a stop short of the wanted byte loses data. */
    method FlushBits()
      requires Valid()
      modifies this`bitContainer, this`bitPos, this`ptr, buf
      ensures Valid()
      ensures bitPos == old(bitPos) % 8
      ensures ptr < endPtr && bitPos > 0 ==> buf[ptr] == bitContainer
    {
      hide Shl, Shr, Low, Pow2, LE, Bytes, Payload, Total;
      var nbBytes := bitPos / 8;
      ghost var before, was, at := buf[..ptr], bitContainer, ptr;
      WriteLE64(bitContainer);
      FlushedBytes(before, bitContainer, bitPos);
      BytesPrefix(was, 8, nbBytes);
      assert buf[..at + nbBytes] == before + Bytes(was, nbBytes);
      ptr := ptr + nbBytes;
      if ptr > endPtr {
        ptr := endPtr;
      }
      bitPos := bitPos % 8;
      bitContainer := Shr(bitContainer, nbBytes * 8);
      if ptr < endPtr {
        BytesAt(was, 8, nbBytes);
        assert buf[ptr] == buf[at..at + 8][nbBytes];
        Pow2Mono(bitPos, 8);
        Pow2Values();
      }
    }

    /** MEM_writeLEST at `ptr`: eight bytes, always inside the buffer. */
    method WriteLE64(x: nat)
      requires ptr + 8 <= buf.Length
      modifies buf
      ensures buf[..ptr] == old(buf[..ptr])
      ensures buf[ptr..ptr + 8] == Bytes(x, 8)
      ensures buf[ptr + 8..] == old(buf[ptr + 8..])
    {
      var bytes := Bytes(x, 8);
      for i := 0 to 8
        invariant buf[..ptr] == old(buf[..ptr])
        invariant buf[ptr..ptr + i] == bytes[..i]
        invariant buf[ptr + 8..] == old(buf[ptr + 8..])
      {
        buf[ptr + i] := bytes[i];
      }
    }

    /** BIT_closeCStream: adds the end mark, flushes and returns the size in bytes, or 0.
        It returns 0 exactly when the marked payload does not fit below `endPtr`; any
        other result certifies that no flush lost a bit. */
    method CloseCStream() returns (size: nat)
      requires Valid() && bitPos < 63
      modifies this`bitContainer, this`bitPos, this`ptr, this`fields, buf
      ensures fields == old(fields) + [EndMark]
      ensures size == 0 <==> (Total(old(fields)) + 1) / 8 >= buf.Length - 8
      ensures size > 0 ==> size <= buf.Length && Holds(buf[..size], old(fields))
    {
      hide Shl, Shr, Low, LE, Payload, Total;
      ghost var body := fields;
      Pow2Values();
      LowSmall(1, 1);
      PayloadSnoc(body, EndMark);
      AddBitsFast(1, 1);
      FlushBits();
      if ptr >= endPtr {
        return 0;
      }
      size := ptr + (if bitPos > 0 then 1 else 0);
      if bitPos > 0 {
        assert buf[..size] == buf[..ptr] + [buf[ptr]];
        LEConcat(buf[..ptr], [buf[ptr]]);
        LESingle(buf[ptr]);
      } else {
        ShlZero(8 * ptr);
      }
    }
  }

  /** Storing the register and dropping whole bytes keeps the number spelled. */
  lemma FlushedBytes(before: seq<U8>, container: nat, bitPos: nat)
    requires container < Pow2(bitPos)
    ensures var n := bitPos / 8;
            && Shr(container, 8 * n) < Pow2(bitPos % 8)
            && LE(before + Bytes(container, n)) + Shl(Shr(container, 8 * n), 8 * (|before| + n))
               == LE(before) + Shl(container, 8 * |before|)
  {
    hide *;
    var n := bitPos / 8;
    ShrBound(container, 8 * n, bitPos % 8);
    BytesLE(container, n);
    LEConcat(before, Bytes(container, n));
    SplitShl(container, 8 * n, 8 * |before|);
    assert 8 * n + 8 * |before| == 8 * (|before| + n);
  }

  lemma SplitShl(x: nat, n: nat, at: nat)
    ensures Shl(Low(x, n), at) + Shl(Shr(x, n), n + at) == Shl(x, at)
  {
    Split(x, n);
    ShlAdd(Low(x, n), Shl(Shr(x, n), n), at);
    ShlShl(Shr(x, n), n, at);
  }

  // ------------------------------------------------------------------ reader

  datatype Status = Unfinished | EndOfBuffer | Completed | Overflow

  datatype OpenError = SrcSizeWrong | EndMarkMissing | CorruptionDetected

  datatype OpenResult = Opened(size: nat) | Failed(error: OpenError)

  /** BIT_DStream_t: the reader. `start` is index 0 of `src` and `limitPtr` is index 8. */
  class DStream {
    var src: seq<U8>
    var bitContainer: nat
    var bitsConsumed: nat
    var ptr: nat
    var zeroFilled: bool  // the pointer was redirected to a static zero word

    /** The register is the window of the source that starts at `ptr`. */
    ghost predicate Valid()
      reads this
    {
      && |src| >= 1
      && if |src| >= 8 then ptr <= |src| - 8 && bitContainer == LE(src[ptr..ptr + 8])
         else ptr == 0 && bitContainer == LE(src)
    }

    /** Number of payload bits not read yet; negative once more was read than present. */
    function Position(): int
      reads this
    {
      8 * ptr + 64 - bitsConsumed
    }

    /** A register with more than 64 bits consumed: every later reload reports overflow. */
    predicate Overflowed()
      reads this
    {
      bitsConsumed > 64
    }

    /** What every reload leaves behind: a nearly full register, or the start of the source. */
    predicate Ready()
      reads this
    {
      ptr == 0 || bitsConsumed <= 8
    }

    constructor ()
    {
      src, bitContainer, bitsConsumed, ptr, zeroFilled := [], 0, 0, 0, false;
    }

    /** BIT_initDStream: positions the reader just below the highest set bit, the end mark. */
    method InitDStream(srcBuffer: seq<U8>) returns (r: OpenResult)
      modifies this
      ensures srcBuffer == [] ==> r == Failed(SrcSizeWrong)
      ensures srcBuffer != [] && srcBuffer[|srcBuffer| - 1] == 0 ==>
                r == Failed(if |srcBuffer| >= 8 then EndMarkMissing else CorruptionDetected)
      ensures srcBuffer != [] && srcBuffer[|srcBuffer| - 1] != 0 ==>
                && r == Opened(|srcBuffer|) && src == srcBuffer && Valid() && Ready()
                && !Overflowed() && LE(src) > 0 && Position() == HighBit(LE(src))
    {
      hide Shl, LE, HighBit, Pow2;
      src := srcBuffer;
      zeroFilled := false;
      var n := |src|;
      if n < 1 {
        bitContainer, bitsConsumed, ptr := 0, 0, 0;
        return Failed(SrcSizeWrong);
      }
      var lastByte := src[n - 1];
      if lastByte != 0 {
        TopByte(src);
        Pow2Values();
        HighBitBelow(lastByte, 8);
      }
      if n >= 8 {
        ptr := n - 8;
        bitContainer := LE(src[ptr..ptr + 8]);
        bitsConsumed := if lastByte != 0 then 8 - HighBit(lastByte) else 0;
        if lastByte == 0 {
          return Failed(EndMarkMissing);
        }
      } else {
        ptr := 0;
        bitContainer := src[0];
        if n >= 7 { bitContainer := bitContainer + Shl(src[6], 48); }
        if n >= 6 { bitContainer := bitContainer + Shl(src[5], 40); }
        if n >= 5 { bitContainer := bitContainer + Shl(src[4], 32); }
        if n >= 4 { bitContainer := bitContainer + Shl(src[3], 24); }
        if n >= 3 { bitContainer := bitContainer + Shl(src[2], 16); }
        if n >= 2 { bitContainer := bitContainer + Shl(src[1], 8); }
        ShortSource(src);
        bitsConsumed := if lastByte != 0 then 8 - HighBit(lastByte) else 0;
        if lastByte == 0 {
          return Failed(CorruptionDetected);
        }
        bitsConsumed := bitsConsumed + (8 - n) * 8;
      }
      r := Opened(n);
    }

    /** BIT_lookBits, with the wrap-around of its shift distance. */
    function LookBits(nbBits: nat): nat
      reads this
    {
      BitAnd(Shr(bitContainer, (64 - bitsConsumed - nbBits) % 64), Pow2(nbBits) - 1)
    }

    /** BIT_lookBitsFast: two shifts of the 64-bit register. */
    function LookBitsFast(nbBits: nat): nat
      reads this
    {
      Shr(Shl(bitContainer, bitsConsumed % 64) % TWO64, (64 - nbBits) % 64)
    }

    /** While the register lasts, both ways of looking give the bits below the position;
        the fast one needs a width of at least 1. */
    lemma LookIsSlice(nbBits: nat)
      requires Valid() && bitsConsumed + nbBits <= 64
      ensures LookBits(nbBits) == Slice(LE(src), Position() - nbBits, nbBits)
      ensures nbBits >= 1 ==> LookBitsFast(nbBits) == LookBits(nbBits)
    {
      hide Shl, Shr, Low, Slice, LE, BitAnd;
      var start := 64 - bitsConsumed - nbBits;
      if nbBits == 0 {
        AndMask(Shr(bitContainer, start % 64), 0);
        LowNone(Shr(bitContainer, start % 64));
        SliceNone(LE(src), Position());
      } else {
        AndMask(Shr(bitContainer, start), nbBits);
        SliceIs(bitContainer, start, nbBits);
        RegisterSlice(start, nbBits);
        assert start % 64 == start;
        RegisterBound();
        assert bitsConsumed % 64 == bitsConsumed;
        DoubleShift(bitContainer, bitsConsumed, nbBits);
        if nbBits < 64 {
          assert (64 - nbBits) % 64 == 64 - nbBits;
        }
      }
    }

    lemma RegisterBound()
      requires Valid()
      ensures bitContainer < Pow2(64)
    {
      if |src| >= 8 {
        LEBound(src[ptr..ptr + 8]);
      } else {
        LEBound(src);
        Pow2Mono(8 * |src|, 64);
      }
    }

    lemma RegisterSlice(pos: nat, width: nat)
      requires Valid() && pos + width <= 64
      ensures Slice(bitContainer, pos, width) == Slice(LE(src), 8 * ptr + pos, width)
    {
      hide Shl, Shr, Low, LE, Slice;
      if |src| >= 8 {
        LESplit(src, ptr);
        LESplit(src[ptr..], 8);
        assert src[ptr..ptr + 8] == src[ptr..][..8];
        SliceIs(LE(src), 8 * ptr, 64);
        SliceOfSlice(LE(src), 8 * ptr, 64, pos, width);
      }
    }

    /** BIT_readBits. */
    method ReadBits(nbBits: nat) returns (value: nat)
      requires Valid() && nbBits < 32
      modifies this`bitsConsumed
      ensures bitsConsumed == old(bitsConsumed) + nbBits
      ensures !Overflowed() ==> value == Slice(LE(src), Position(), nbBits)
      ensures value < Pow2(nbBits)
    {
      value := LookBits(nbBits);
      if bitsConsumed + nbBits <= 64 {
        LookIsSlice(nbBits);
      }
      AndMask(Shr(bitContainer, (64 - bitsConsumed - nbBits) % 64), nbBits);
      Split(Shr(bitContainer, (64 - bitsConsumed - nbBits) % 64), nbBits);
      bitsConsumed := bitsConsumed + nbBits;
    }

    /** BIT_readBitsFast. */
    method ReadBitsFast(nbBits: nat) returns (value: nat)
      requires Valid() && 1 <= nbBits < 32
      modifies this`bitsConsumed
      ensures bitsConsumed == old(bitsConsumed) + nbBits
      ensures !Overflowed() ==> value == Slice(LE(src), Position(), nbBits)
      ensures value < Pow2(nbBits)
    {
      hide Shl, Shr, Low, Slice, LE;
      Pow2Values();
      ShrBound(Shl(bitContainer, bitsConsumed % 64) % TWO64, 64 - nbBits, nbBits);
      value := LookBitsFast(nbBits);
      if bitsConsumed + nbBits <= 64 {
        LookIsSlice(nbBits);
      }
      bitsConsumed := bitsConsumed + nbBits;
    }

    /** BIT_reloadDStream: moves the window down without moving the position. */
    method ReloadDStream() returns (status: Status)
      requires Valid()
      modifies this`bitContainer, this`bitsConsumed, this`ptr, this`zeroFilled
      ensures Valid() && ptr <= old(ptr)
      ensures Position() == old(Position())
      ensures Overflowed() <==> old(Overflowed())
      ensures status == Overflow <==> old(Overflowed())
      ensures status == Completed <==> Position() == 0 && !Overflowed()
      ensures status == Unfinished <==>
                !old(Overflowed()) && 0 < old(ptr) && old(bitsConsumed) / 8 <= old(ptr)
      ensures status == Unfinished ==> 64 - bitsConsumed >= 57
      ensures !Overflowed() ==> Ready()
    {
      if bitsConsumed > 64 {
        zeroFilled := true;
        return Overflow;
      }
      if ptr >= 8 {
        ptr := ptr - bitsConsumed / 8;
        bitsConsumed := bitsConsumed % 8;
        bitContainer := LE(src[ptr..ptr + 8]);
        return Unfinished;
      }
      if ptr == 0 {
        return if bitsConsumed < 64 then EndOfBuffer else Completed;
      }
      var nbBytes := bitsConsumed / 8;
      status := Unfinished;
      if ptr - nbBytes < 0 {
        nbBytes := ptr;
        status := EndOfBuffer;
      }
      ptr := ptr - nbBytes;
      bitsConsumed := bitsConsumed - nbBytes * 8;
      bitContainer := LE(src[ptr..ptr + 8]);
    }

    /** BIT_endOfDStream. */
    predicate EndOfDStream()
      reads this
    {
      ptr == 0 && bitsConsumed == 64
    }
  }

  lemma SliceIs(x: nat, pos: nat, width: nat)
    ensures Slice(x, pos, width) == Low(Shr(x, pos), width)
  {
  }

  lemma LowNone(x: nat)
    ensures Low(x, 0) == 0
  {
  }

  lemma SliceNone(x: nat, pos: nat)
    ensures Slice(x, pos, 0) == 0
  {
  }

  /** Shifting a register left by the consumed bits and back down selects the next field. */
  lemma DoubleShift(x: nat, consumed: nat, width: nat)
    requires x < Pow2(64) && consumed + width <= 64
    ensures Shr(Shl(x, consumed) % TWO64, 64 - width) == Slice(x, 64 - consumed - width, width)
  {
    hide Shl, Shr, Low;
    var kept := 64 - consumed;
    Split(x, kept);
    ShlAdd(Low(x, kept), Shl(Shr(x, kept), kept), consumed);
    ShlShl(Shr(x, kept), kept, consumed);
    ShlBound(Low(x, kept), kept, consumed);
    SplitUnique(Shl(Low(x, kept), consumed), Shr(x, kept), 64);
    LowMod(Shl(x, consumed), 64);
    Pow2Values();
    ShrShr(Shl(Low(x, kept), consumed), consumed, kept - width);
    ShlZero(consumed);
    assert 0 < Pow2(consumed);
    SplitUnique(0, Low(x, kept), consumed);
    LowLow(x, kept - width, width);
  }

  lemma ShlBound(x: nat, n: nat, m: nat)
    requires x < Pow2(n)
    ensures Shl(x, m) < Pow2(n + m)
  {
    JoinBound(0, m, x, n);
  }

  /** The highest bit of a byte sequence is in its last byte. */
  lemma TopByte(s: seq<U8>)
    requires s != [] && s[|s| - 1] != 0
    ensures LE(s) > 0 && HighBit(LE(s)) == 8 * (|s| - 1) + HighBit(s[|s| - 1])
  {
    hide Shl, Shr, Low, LE;
    var init, last := s[..|s| - 1], s[|s| - 1];
    var base, top := 8 * (|s| - 1), HighBit(last);
    assert s == init + [last];
    LEConcat(init, [last]);
    LESingle(last);
    LEBound(init);
    JoinBound(LE(init), base, last, top + 1);
    ShlMono(Pow2(top), last, base);
    Pow2Add(top, base);
    HighBitUnique(LE(s), base + top);
  }

  /** The shift-and-add of a short source spells the same number. */
  lemma ShortSource(s: seq<U8>)
    requires 1 <= |s| < 8
    ensures LE(s) == s[0]
                     + (if |s| >= 7 then Shl(s[6], 48) else 0)
                     + (if |s| >= 6 then Shl(s[5], 40) else 0)
                     + (if |s| >= 5 then Shl(s[4], 32) else 0)
                     + (if |s| >= 4 then Shl(s[3], 24) else 0)
                     + (if |s| >= 3 then Shl(s[2], 16) else 0)
                     + (if |s| >= 2 then Shl(s[1], 8) else 0)
  {
    hide Shl, LE;
    LESnoc(s, 6);
    LESnoc(s, 5);
    LESnoc(s, 4);
    LESnoc(s, 3);
    LESnoc(s, 2);
    LESnoc(s, 1);
    assert s[..1] == [s[0]];
    LESingle(s[0]);
    assert s[..|s|] == s;
  }

  lemma LESnoc(s: seq<U8>, k: nat)
    ensures k < |s| ==> LE(s[..k + 1]) == LE(s[..k]) + Shl(s[k], 8 * k)
  {
    if k < |s| {
      assert s[..k + 1] == s[..k] + [s[k]];
      LEConcat(s[..k], [s[k]]);
      LESingle(s[k]);
    }
  }

  // ------------------------------------------------------------------ writer against reader

  /** Reading backward below a field gives that field, and then the fields before it. */
  lemma PopField(v: nat, fs: seq<Field>, f: Field)
    requires StartsWith(v, fs + [f])
    ensures StartsWith(v, fs)
    ensures Slice(v, Total(fs), f.width) == Low(f.value, f.width)
  {
    hide Shl, Shr, Low, Total, Payload;
    var t := Total(fs);
    PayloadSnoc(fs, f);
    PayloadBound(fs);
    SplitUnique(Payload(fs), Low(f.value, f.width), t);
    LowLow(v, t, f.width);
  }

  /** A closed stream opens just above its last field. */
  lemma ClosedStream(bytes: seq<U8>, fs: seq<Field>)
    requires Holds(bytes, fs)
    ensures bytes[|bytes| - 1] != 0 && LE(bytes) > 0
    ensures HighBit(LE(bytes)) == Total(fs)
    ensures StartsWith(LE(bytes), fs)
  {
    hide Shl, Shr, Low, LE, Total, Payload;
    var t, n := Total(fs), |bytes|;
    PayloadBound(fs);
    SplitUnique(Payload(fs), 1, t);
    Pow2Mono(t, t + 1);
    HighBitUnique(LE(bytes), t);
    if bytes[n - 1] == 0 {
      LESnoc(bytes, n - 1);
      assert bytes[..n] == bytes;
      ShlZero(8 * (n - 1));
      LEBound(bytes[..n - 1]);
      Pow2Mono(8 * (n - 1), t);
    }
  }
}

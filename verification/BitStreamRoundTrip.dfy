/** The documented use of the bit stream, written with CStream and read back with DStream. */
module BitStreamRoundTrip {
  import opened Bits
  import opened LittleEndian
  import opened BitStream

  ghost predicate Writable(fs: seq<Field>)
  {
    forall i :: 0 <= i < |fs| ==> fs[i].width <= 31
  }

  /** Adds every field, flushing wherever `flush` asks and before the register would fill up,
      and closes. The result is 0 exactly when the stream does not fit. */
  method WriteStream(buffer: array<U8>, fs: seq<Field>, flush: seq<bool>) returns (size: nat)
    requires Writable(fs) && |flush| == |fs|
    modifies buffer
    ensures size > 0 <==> buffer.Length > 8 && (Total(fs) + 1) / 8 < buffer.Length - 8
    ensures size > 0 ==> size <= buffer.Length && Holds(buffer[..size], fs)
  {
    var bitC := new CStream(buffer);
    var ok := bitC.InitCStream();
    if !ok {
      return 0;
    }
    for i := 0 to |fs|
      invariant bitC.Valid() && bitC.fields == fs[..i]
      modifies bitC, buffer
    {
      if bitC.bitPos + fs[i].width >= 64 {
        bitC.FlushBits();
      }
      bitC.AddBits(fs[i].value, fs[i].width);
      if flush[i] {
        bitC.FlushBits();
      }
    }
    assert fs[..|fs|] == fs;
    if bitC.bitPos == 63 {
      bitC.FlushBits();
    }
    size := bitC.CloseCStream();
  }

  /** Reads fields of the given widths, last one first, with a reload after each. A closed
      stream gives back every field and then stands exactly at its end. */
  method ReadStream(src: seq<U8>, ghost fs: seq<Field>, widths: seq<nat>) returns (values: seq<nat>, atEnd: bool)
    requires Holds(src, fs) && Writable(fs)
    requires |widths| == |fs| && forall i :: 0 <= i < |fs| ==> widths[i] == fs[i].width
    ensures |values| == |fs| && atEnd
    ensures forall i :: 0 <= i < |fs| ==> values[i] == Low(fs[|fs| - 1 - i].value, fs[|fs| - 1 - i].width)
  {
    hide Low, Total, Payload;
    ClosedStream(src, fs);
    var bitD := new DStream();
    var _ := bitD.InitDStream(src);
    var left := |widths|;
    values := [];
    assert fs[..left] == fs;
    while left > 0
      invariant 0 <= left <= |fs| && |values| == |fs| - left
      invariant bitD.Valid() && bitD.Ready() && !bitD.Overflowed() && bitD.src == src
      invariant StartsWith(LE(src), fs[..left]) && bitD.Position() == Total(fs[..left])
      invariant forall i :: 0 <= i < |values| ==>
                  values[i] == Low(fs[|fs| - 1 - i].value, fs[|fs| - 1 - i].width)
      modifies bitD
    {
      ghost var rest, f := fs[..left - 1], fs[left - 1];
      assert fs[..left] == rest + [f];
      PayloadSnoc(rest, f);
      PopField(LE(src), rest, f);
      var value := bitD.ReadBits(widths[left - 1]);
      values := values + [value];
      var _ := bitD.ReloadDStream();
      left := left - 1;
    }
    NoFields();
    atEnd := bitD.EndOfDStream();
  }

  /** The LIFO law: whatever the flush schedule, a stream that fits reads back in reverse. */
  method RoundTrip(buffer: array<U8>, fs: seq<Field>, flush: seq<bool>, widths: seq<nat>)
    returns (stored: bool, values: seq<nat>, atEnd: bool)
    requires Writable(fs) && |flush| == |fs|
    requires |widths| == |fs| && forall i :: 0 <= i < |fs| ==> widths[i] == fs[i].width
    modifies buffer
    ensures stored <==> buffer.Length > 8 && (Total(fs) + 1) / 8 < buffer.Length - 8
    ensures stored ==> atEnd && |values| == |fs|
    ensures stored ==> forall i :: 0 <= i < |fs| ==>
              values[i] == Low(fs[|fs| - 1 - i].value, fs[|fs| - 1 - i].width)
  {
    var size := WriteStream(buffer, fs, flush);
    stored, values, atEnd := size > 0, [], false;
    if stored {
      values, atEnd := ReadStream(buffer[..size], fs, widths);
    }
  }
}

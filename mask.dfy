/**
  `Mask`: the "layer mask / adjustment layer data" record of a layer and
  the loader of the mask's pixel plane (channel -2).

  The record is length-prefixed: a zero length means the layer has no mask;
  otherwise it holds the mask rectangle as top, left, bottom, right, a
  default colour byte and a flag byte, followed (when the length is 36) by
  a second, legacy rectangle.  Whatever was read, the cursor ends up just
  after the record.

  The loader sizes the plane by bit depth, fills it with 171, and then
  copies raw bytes or decodes run-length rows into it.
 */
module Masks {
  import opened Wrappers
  import opened CSharpInt
  import opened Rectangles
  import opened Layers
  import opened BinaryReverseReader
  import opened RleHelper
  import BitmapUtility

  /** `BitVector32.CreateMask()`: the first mask of a bit vector is bit 0. */
  const PositionIsRelativeBit: bv8 := 1

  /** The record length that carries the legacy second rectangle. */
  const LegacyRecordLength: nat := 36

  /** Bytes of the record's fixed part: four ints, the default colour and the flags. */
  const FixedPartLength: nat := 18

  /** The value every byte of a freshly sized mask plane holds before decoding. */
  const FillByte: byte := 171

  /** `ImageCompression.Raw` and `ImageCompression.Rle`. */
  const RawCompression: int := 0
  const RleCompression: int := 1

  datatype MaskError = Stream(streamError: StreamError) | NegativeSize | Decoding(rleError: RleError)

  /** What the record parser stores, and where it leaves the cursor. */
  datatype MaskRecord = MaskRecord(rect: Rectangle, defaultColor: byte, flags: byte, next: nat)

  /**
    The fixed part at `start`: the rectangle from top, left, bottom and
    right (height and width as 32-bit differences), the default colour and
    the flags; `next` is left at the end of the fixed part.
   */
  function FixedPart(data: seq<byte>, start: nat): MaskRecord
    requires start + FixedPartLength <= |data|
  {
    var top: int := Int32At(data, start);
    var left: int := Int32At(data, start + 4);
    var bottom: int := Int32At(data, start + 8);
    var right: int := Int32At(data, start + 12);
    MaskRecord(Rectangle(left, top, Wrap(right - left), Wrap(bottom - top)),
               data[start + 16], data[start + 17], start + FixedPartLength)
  }

  /** The record at `pos`, or the end-of-stream exception a read inside it throws. */
  function ParseRecord(data: seq<byte>, pos: nat): Result<MaskRecord, StreamError> {
    if pos + 4 > |data| then Failure(EndOfStream)
    else
      var length := UInt32At(data, pos);
      var start := pos + 4;
      if length == 0 then Success(MaskRecord(Rectangles.Empty, 0, 0, start))
      else if start + FixedPartLength > |data| then Failure(EndOfStream)
      else if length == LegacyRecordLength && start + 2 * FixedPartLength > |data| then Failure(EndOfStream)
      else Success(FixedPart(data, start).(next := start + length))
  }

  /** `flags[PositionIsRelativeBit]`: the bit of the flag byte is set. */
  predicate IsRelative(flags: byte) {
    (flags as bv8) & PositionIsRelativeBit == PositionIsRelativeBit
  }

  /** Bytes per row of the mask plane: Width at depth 1 and 8, twice Width at depth 16, none otherwise. */
  function Columns(depth: int, width: Int32): Int32 {
    if depth == 1 || depth == 8 then width
    else if depth == 16 then Wrap(width * 2)
    else 0
  }

  /** `rect.Height * columns`, as the 32-bit product the array is allocated with. */
  function BufferSize(rect: Rectangle, depth: int): Int32 {
    Wrap(rect.height * Columns(depth, rect.width))
  }

  /** Where row `row` of the run-length data is decoded to: `row * rect.Width` (Width, not columns). */
  function RowStart(row: int, width: Int32): Int32 {
    Wrap(row * width)
  }

  /** Index `k` lies in the window of one of the first `rows` decoded rows. */
  predicate RowCovered(k: int, width: Int32, rows: int, columns: int) {
    exists row :: 0 <= row < rows && RowStart(row, width) <= k < RowStart(row, width) + columns
  }

  /** The plane after a raw read: the bytes after the tag, up to the plane's size, then the fill. */
  function RawPlane(data: seq<byte>, size: nat): (plane: seq<byte>)
    ensures |plane| == size
    ensures var n := |Available(data, 2, size)|;
      plane[..n] == Available(data, 2, size) && forall k :: n <= k < size ==> plane[k] == FillByte
  {
    var bytes := Available(data, 2, size);
    bytes + seq(size - |bytes|, _ => FillByte)
  }

  /** A length of zero is an absent mask: only the length is consumed and the rectangle is empty. */
  lemma EmptyRecord(data: seq<byte>, pos: nat)
    requires pos + 4 <= |data| && UInt32At(data, pos) == 0
    ensures ParseRecord(data, pos) == Success(MaskRecord(Rectangles.Empty, 0, 0, pos + 4))
    ensures ParseRecord(data, pos).value.rect.IsEmpty()
  {
  }

  /** The cursor ends just after the record, whether or not the legacy rectangle was read. */
  lemma RecordEnd(data: seq<byte>, pos: nat)
    requires ParseRecord(data, pos).Success?
    ensures ParseRecord(data, pos).value.next == pos + 4 + UInt32At(data, pos)
  {
  }

  lemma WrapBack(lo: Int32, hi: Int32)
    ensures Wrap(lo + Wrap(hi - lo)) == hi
  {
    WrapAdd(lo, hi - lo);
    WrapInRange(hi);
  }

  /**
    The rectangle is read as top, left, bottom, right: its Top and Left are
    the first two ints, and its Bottom and Right give back the other two.
   */
  lemma RecordEdges(data: seq<byte>, pos: nat)
    requires ParseRecord(data, pos).Success? && UInt32At(data, pos) != 0
    ensures var rect := ParseRecord(data, pos).value.rect;
      rect.Top() == Int32At(data, pos + 4) && rect.Left() == Int32At(data, pos + 8) &&
      rect.Bottom() == Int32At(data, pos + 12) && rect.Right() == Int32At(data, pos + 16)
  {
    WrapBack(Int32At(data, pos + 4), Int32At(data, pos + 12));
    WrapBack(Int32At(data, pos + 8), Int32At(data, pos + 16));
  }

  /** The record fails exactly when the stream ends inside the part the constructor reads. */
  lemma RecordFailure(data: seq<byte>, pos: nat)
    ensures ParseRecord(data, pos).Failure? <==>
      pos + 4 > |data| ||
      (UInt32At(data, pos) != 0 &&
       pos + 4 + (if UInt32At(data, pos) == LegacyRecordLength then 2 * FixedPartLength else FixedPartLength) > |data|)
  {
  }

  /** `PositionIsRelative` is the parity of the flag byte. */
  lemma RelativeIsLowBit(flags: byte)
    ensures IsRelative(flags) <==> flags % 2 == 1
  {
    var b := flags as bv8;
    assert b & 1 == b % 2;
    assert (b % 2) as int == flags % 2;
  }

  /** At depth 1 and 8 the decoded rows tile the plane exactly: every byte belongs to one row window. */
  lemma RowsTilePlane(width: Int32, height: Int32, k: int)
    requires width > 0 && height >= 0 && height * width <= MaxInt
    ensures 0 <= k < height * width <==> RowCovered(k, width, height, width)
  {
    if 0 <= k < height * width {
      var row := k / width;
      BitmapUtility.QuotientBelow(k, width, height);
      BitmapUtility.MulMono(row, height, width);
      WrapInRange(row * width);
      assert RowStart(row, width) <= k < RowStart(row, width) + width;
    }
    if RowCovered(k, width, height, width) {
      var row :| 0 <= row < height && RowStart(row, width) <= k < RowStart(row, width) + width;
      BitmapUtility.MulMono(row, height, width);
      WrapInRange(row * width);
      BitmapUtility.MulLess(row, height, width);
    }
  }

  lemma RowStartInRange(row: int, width: Int32, height: Int32)
    requires width > 0 && 0 <= row < height && height * width <= MaxInt
    ensures RowStart(row, width) == row * width
  {
    BitmapUtility.MulMono(0, row, width);
    BitmapUtility.MulMono(row, height, width);
    WrapInRange(row * width);
  }

  lemma Depth16Columns(width: Int32, height: Int32)
    requires width > 0 && height >= 2 && 2 * height * width <= MaxInt
    ensures Columns(16, width) == 2 * width
    ensures BufferSize(Rectangle(0, 0, width, height), 16) == 2 * height * width
  {
    BitmapUtility.MulMono(2, height, width);
    assert 2 * height * width == 2 * (height * width);
    WrapInRange(width * 2);
    assert height * (width * 2) == 2 * height * width;
    WrapInRange(2 * height * width);
  }

  /**
    At depth 16 the rows are two Width-wide units long but start Width
    apart, so the windows overlap and no row reaches the plane's bytes from
    (Height + 1) * Width on.
   */
  lemma Depth16TailUndecoded(width: Int32, height: Int32, k: int)
    requires width > 0 && height >= 2 && 2 * height * width <= MaxInt
    requires (height + 1) * width <= k
    ensures !RowCovered(k, width, height, Columns(16, width))
  {
    Depth16Columns(width, height);
    assert height * width <= 2 * height * width;
    forall row | 0 <= row < height
      ensures !(RowStart(row, width) <= k < RowStart(row, width) + 2 * width)
    {
      RowStartInRange(row, width, height);
      BitmapUtility.MulMono(row + 2, height + 1, width);
      assert (row + 2) * width == row * width + 2 * width;
    }
  }

  /** ... and with two or more rows that undecoded tail is not empty. */
  lemma Depth16TailExists(width: Int32, height: Int32)
    requires width > 0 && height >= 2 && 2 * height * width <= MaxInt
    ensures (height + 1) * width < BufferSize(Rectangle(0, 0, width, height), 16)
  {
    Depth16Columns(width, height);
    BitmapUtility.MulMono(height + 2, 2 * height, width);
    assert (height + 2) * width == (height + 1) * width + width;
    assert 2 * height * width == (2 * height) * width;
  }

  method Clone(a: array<byte>) returns (b: array<byte>)
    ensures fresh(b) && b[..] == a[..]
  {
    b := new byte[a.Length](i reads a => if 0 <= i < a.Length then a[i] else 0);
  }

  /** The plane a load leaves, given the tag, the channel bytes and the row geometry. */
  predicate DecodedPlane(tag: int, data: seq<byte>, width: Int32, height: Int32, columns: Int32, plane: seq<byte>) {
    (tag == RawCompression ==> plane == RawPlane(data, |plane|)) &&
    (tag == RleCompression ==>
      height >= 0 && |data| >= 2 + 2 * height &&
      forall k :: 0 <= k < |plane| && !RowCovered(k, width, height, columns) ==> plane[k] == FillByte) &&
    (tag != RawCompression && tag != RleCompression ==>
      forall k :: 0 <= k < |plane| ==> plane[k] == FillByte)
  }

  /** `new byte[size]` followed by the loop that sets every byte to 171. */
  method NewFilledPlane(size: nat) returns (plane: array<byte>)
    ensures fresh(plane) && plane.Length == size
    ensures forall k :: 0 <= k < size ==> plane[k] == FillByte
  {
    plane := new byte[size];
    var index := 0;
    while index < size
      invariant 0 <= index <= size
      invariant forall k :: 0 <= k < index ==> plane[k] == FillByte
    {
      plane[index] := FillByte;
      index := index + 1;
    }
  }

  /** The four int reads and two byte reads of the fixed part. */
  method ReadFixedPart(reader: Reader) returns (r: Result<MaskRecord, StreamError>)
    modifies reader
    ensures r.Success? <==> old(reader.pos) + FixedPartLength <= |reader.data|
    ensures r.Failure? ==> r.error == EndOfStream
    ensures r.Success? ==> r.value == FixedPart(reader.data, old(reader.pos)) && reader.pos == r.value.next
  {
    var y := reader.ReadInt32();
    if y.Failure? { return Failure(y.error); }
    var x := reader.ReadInt32();
    if x.Failure? { return Failure(x.error); }
    var bottom := reader.ReadInt32();
    if bottom.Failure? { return Failure(bottom.error); }
    var right := reader.ReadInt32();
    if right.Failure? { return Failure(right.error); }
    var color := reader.ReadByte();
    if color.Failure? { return Failure(color.error); }
    var flagByte := reader.ReadByte();
    if flagByte.Failure? { return Failure(flagByte.error); }
    var rect := Rectangle(x.value, y.value, Wrap(right.value as int - x.value), Wrap(bottom.value as int - y.value));
    r := Success(MaskRecord(rect, color.value, flagByte.value, reader.pos));
  }

  /** The legacy fields of a 36-byte record, read and discarded. */
  method SkipLegacyPart(reader: Reader) returns (r: Result<(), StreamError>)
    modifies reader
    ensures r.Success? <==> old(reader.pos) + FixedPartLength <= |reader.data|
    ensures r.Failure? ==> r.error == EndOfStream
  {
    var bits := reader.ReadByte();
    if bits.Failure? { return Failure(bits.error); }
    var unknown := reader.ReadByte();
    if unknown.Failure? { return Failure(unknown.error); }
    var top := reader.ReadInt32();
    if top.Failure? { return Failure(top.error); }
    var left := reader.ReadInt32();
    if left.Failure? { return Failure(left.error); }
    var bottom := reader.ReadInt32();
    if bottom.Failure? { return Failure(bottom.error); }
    var right := reader.ReadInt32();
    if right.Failure? { return Failure(right.error); }
    r := Success(());
  }

  class Mask {
    const layer: Layer
    var rect: Rectangle
    var flags: byte
    var defaultColor: byte
    var imageData: array?<byte>

    /** A mask with the defaults of a record of length zero. */
    constructor (layer: Layer)
      ensures this.layer == layer && rect == Rectangles.Empty && flags == 0 && defaultColor == 0
      ensures imageData == null
    {
      this.layer := layer;
      rect := Rectangles.Empty;
      flags := 0;
      defaultColor := 0;
      imageData := null;
    }

    predicate PositionIsRelative()
      reads this
    {
      IsRelative(flags)
    }

    /**
      `Mask(reader, layer)`: reads the length; for a non-zero length reads
      the rectangle, the default colour, the flags and, for length 36, the
      legacy fields, then sets the position to the record's end.
     */
    static method Read(reader: Reader, layer: Layer) returns (r: Result<Mask, StreamError>)
      modifies reader
      ensures r.Success? <==> ParseRecord(reader.data, old(reader.pos)).Success?
      ensures r.Failure? ==> r.error == ParseRecord(reader.data, old(reader.pos)).error
      ensures r.Success? ==>
        var record := ParseRecord(reader.data, old(reader.pos)).value;
        fresh(r.value) && r.value.layer == layer && r.value.imageData == null &&
        r.value.rect == record.rect && r.value.defaultColor == record.defaultColor &&
        r.value.flags == record.flags && reader.pos == record.next
    {
      var mask := new Mask(layer);
      var num1 := reader.ReadUInt32();
      if num1.Failure? {
        return Failure(num1.error);
      }
      if num1.value == 0 {
        return Success(mask);
      }
      var position := reader.pos;
      var fixed := ReadFixedPart(reader);
      if fixed.Failure? {
        return Failure(fixed.error);
      }
      mask.rect := fixed.value.rect;
      mask.defaultColor := fixed.value.defaultColor;
      mask.flags := fixed.value.flags;
      if num1.value == LegacyRecordLength {
        var legacy := SkipLegacyPart(reader);
        if legacy.Failure? {
          return Failure(legacy.error);
        }
      }
      reader.Seek(position + num1.value);
      r := Success(mask);
    }

    /**
      `LoadPixelData`: nothing unless the mask has a rectangle and the
      layer a channel -2; otherwise the channel is loaded and `ImageData`
      becomes the last copy of its plane the load made.
     */
    method LoadPixelData(reader: Reader) returns (r: Result<(), MaskError>)
      modifies this, reader, if MaskChannelId in layer.sortedChannels then {layer.sortedChannels[MaskChannelId]} else {}
      ensures rect == old(rect) && flags == old(flags) && defaultColor == old(defaultColor)
      ensures rect.IsEmpty() || MaskChannelId !in layer.sortedChannels ==>
        r == Success(()) && reader.pos == old(reader.pos) && imageData == old(imageData) &&
        forall c :: c in layer.sortedChannels.Values ==> unchanged(c)
      ensures !rect.IsEmpty() && MaskChannelId in layer.sortedChannels ==>
        var channel := layer.sortedChannels[MaskChannelId];
        ChannelRead(channel, reader, old(reader.pos), r) &&
        ChannelDecoded(channel, rect, layer.depth, r) &&
        (r.Success? ==>
          fresh(channel.imageData) && imageData != null && fresh(imageData) &&
          imageData != channel.imageData && imageData[..] == channel.imageData[..])
    {
      if rect.IsEmpty() || MaskChannelId !in layer.sortedChannels {
        return Success(());
      }
      var channel := layer.sortedChannels[MaskChannelId];
      var copy;
      r, copy := LoadChannel(channel, reader, rect, layer.depth);
      if copy != null {
        imageData := copy;
      }
    }
  }

  /** How a load reads the channel's bytes from the stream and its compression tag from them. */
  ghost predicate ChannelRead(channel: Channel, reader: Reader, start: nat, r: Result<(), MaskError>)
    reads channel, reader
  {
    (channel.length < 0 <==> r == Failure(Stream(NegativeCount))) &&
    (channel.length >= 0 ==>
      channel.data == Available(reader.data, start, channel.length) &&
      reader.pos == start + |channel.data| &&
      (|channel.data| < 2 ==> r == Failure(Stream(EndOfStream))) &&
      (|channel.data| >= 2 ==> channel.imageCompression == Int16At(channel.data, 0)))
  }

  /**
    How the plane's load ends once the bytes and the tag are read: a
    negative 32-bit size fails; otherwise a raw or unknown tag succeeds, a
    run-length load fails only for a negative height, a short row table or
    a row that does not decode; a success leaves the decoded plane.
   */
  ghost predicate ChannelDecoded(channel: Channel, rect: Rectangle, depth: int, r: Result<(), MaskError>)
    reads channel, channel.imageData
  {
    (channel.length >= 0 && |channel.data| >= 2 && BufferSize(rect, depth) < 0 ==> r == Failure(NegativeSize)) &&
    (channel.length >= 0 && |channel.data| >= 2 && BufferSize(rect, depth) >= 0 ==>
      (channel.imageCompression != RleCompression ==> r.Success?) &&
      (channel.imageCompression == RleCompression && r.Failure? ==>
        rect.height < 0 ||
        (r.error == Stream(EndOfStream) && |channel.data| < 2 + 2 * rect.height) ||
        r.error.Decoding?)) &&
    (r.Success? ==>
      |channel.data| >= 2 &&
      channel.imageData.Length == BufferSize(rect, depth) &&
      DecodedPlane(channel.imageCompression, channel.data, rect.width, rect.height,
                   Columns(depth, rect.width), channel.imageData[..]))
  }

  /**
    The body of `LoadPixelData` once channel -2 is found: reads the
    channel's bytes, takes the compression tag from their first two,
    allocates a plane of `BufferSize` bytes filled with 171, copies it,
    decodes into the plane and copies it again.  `copy` is the last copy
    made (null when the load stopped before the first).
   */
  method LoadChannel(channel: Channel, reader: Reader, rect: Rectangle, depth: int)
    returns (r: Result<(), MaskError>, copy: array?<byte>)
    modifies channel, reader
    ensures ChannelRead(channel, reader, old(reader.pos), r)
    ensures ChannelDecoded(channel, rect, depth, r)
    ensures r.Success? ==>
      fresh(channel.imageData) && copy != null && fresh(copy) &&
      copy != channel.imageData && copy[..] == channel.imageData[..]
  {
    copy := null;
    var bytes := reader.ReadBytes(channel.length);
    if bytes.Failure? {
      return Failure(Stream(bytes.error)), copy;
    }
    channel.data := bytes.value;
    var dataReader := new Reader(channel.data);
    var tag := dataReader.ReadInt16();
    if tag.Failure? {
      return Failure(Stream(tag.error)), copy;
    }
    channel.imageCompression := tag.value;
    var columns := Columns(depth, rect.width);
    var size := Wrap(rect.height as int * columns);
    if size < 0 {
      return Failure(NegativeSize), copy;
    }
    var plane := NewFilledPlane(size);
    channel.imageData := plane;
    copy := Clone(plane);
    r := DecodePlane(dataReader, plane, tag.value, rect.width, rect.height, columns);
    if r.Failure? {
      return;
    }
    copy := Clone(plane);
  }

  /**
    The switch on the compression tag: a raw read of the whole plane, the
    run-length rows, or nothing.
   */
  method DecodePlane(dataReader: Reader, plane: array<byte>, tag: int, width: Int32, height: Int32, columns: Int32)
    returns (r: Result<(), MaskError>)
    requires dataReader.pos == 2 && 2 <= |dataReader.data|
    requires forall k :: 0 <= k < plane.Length ==> plane[k] == FillByte
    modifies dataReader, plane
    ensures tag == RleCompression && height < 0 ==> r == Failure(NegativeSize)
    ensures tag != RleCompression ==> r.Success?
    ensures r.Failure? ==> r.error != Stream(NegativeCount)
    ensures tag == RleCompression && r.Failure? ==>
      height < 0 || (r.error == Stream(EndOfStream) && |dataReader.data| < 2 + 2 * height) || r.error.Decoding?
    ensures r.Success? ==> DecodedPlane(tag, dataReader.data, width, height, columns, plane[..])
  {
    if tag == RawCompression {
      var n := dataReader.ReadInto(plane, plane.Length);
      assert plane[..] == plane[..n] + plane[n..];
      r := Success(());
    } else if tag == RleCompression {
      if height < 0 {
        return Failure(NegativeSize);
      }
      r := ReadRows(dataReader, plane, width, height, columns);
    } else {
      r := Success(());
    }
  }

  /**
    The run-length branch: reads `height` 16-bit row lengths, then decodes
    row k into the window at `k * width`.
   */
  method ReadRows(dataReader: Reader, plane: array<byte>, width: Int32, height: Int32, columns: Int32)
    returns (r: Result<(), MaskError>)
    requires height >= 0 && dataReader.pos == 2 && 2 <= |dataReader.data|
    modifies dataReader, plane
    ensures r.Success? ==> |dataReader.data| >= 2 + 2 * height
    ensures r.Failure? ==> r.error != Stream(NegativeCount)
    ensures r.Failure? ==> (r.error == Stream(EndOfStream) && |dataReader.data| < 2 + 2 * height) || r.error.Decoding?
    ensures forall k :: 0 <= k < plane.Length && !RowCovered(k, width, height, columns) ==> plane[k] == old(plane[k])
  {
    var nums := new int[height];
    var i := 0;
    while i < height
      invariant 0 <= i <= height
      invariant dataReader.pos == 2 + 2 * i <= |dataReader.data|
      invariant plane[..] == old(plane[..])
    {
      var num := dataReader.ReadInt16();
      if num.Failure? {
        return Failure(Stream(num.error));
      }
      nums[i] := num.value;
      i := i + 1;
    }
    var row := 0;
    while row < height
      invariant 0 <= row <= height
      invariant forall k :: 0 <= k < plane.Length && !RowCovered(k, width, row, columns) ==> plane[k] == old(plane[k])
    {
      var startIdx := RowStart(row, width);
      var decoded := DecodedRow(dataReader, plane, startIdx, columns);
      if decoded.Failure? {
        return Failure(Decoding(decoded.error));
      }
      forall k | 0 <= k < plane.Length && !RowCovered(k, width, row + 1, columns)
        ensures !InRow(k, startIdx, columns) && !RowCovered(k, width, row, columns)
      {
      }
      row := row + 1;
    }
    r := Success(());
  }
}

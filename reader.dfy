/**
  `BinaryReverseReader`: a binary reader over a stream that reads
  multi-byte integers big-endian.  The stream is a byte sequence and a
  position; the position may be set past the end, after which reads find no
  bytes.  A read of a fixed-size integer that runs out of bytes throws
  `EndOfStreamException` after draining the stream.
 */
module BinaryReverseReader {
  import opened Wrappers
  import opened CSharpInt
  import opened Layers

  datatype StreamError = EndOfStream | NegativeCount

  /** The unsigned big-endian integer in `data[pos..pos + n]`. */
  function BigEndian(data: seq<byte>, pos: nat, n: nat): (v: nat)
    requires pos + n <= |data|
    decreases n
  {
    if n == 0 then 0 else BigEndian(data, pos, n - 1) * 256 + data[pos + n - 1]
  }

  function UInt32At(data: seq<byte>, pos: nat): nat
    requires pos + 4 <= |data|
  {
    BigEndian(data, pos, 4)
  }

  /** A 32-bit two's-complement big-endian integer. */
  function Int32At(data: seq<byte>, pos: nat): Int32
    requires pos + 4 <= |data|
  {
    var u := BigEndian(data, pos, 4);
    BigEndianBound(data, pos, 4);
    if u < 0x8000_0000 then u else u - Modulus
  }

  /** A 16-bit two's-complement big-endian integer. */
  function Int16At(data: seq<byte>, pos: nat): (v: int)
    requires pos + 2 <= |data|
    ensures -0x8000 <= v < 0x8000
  {
    var u := BigEndian(data, pos, 2);
    BigEndianBound(data, pos, 2);
    if u < 0x8000 then u else u - 0x1_0000
  }

  /** The four bytes a big-endian writer emits for an int. */
  function EncodeInt32(v: Int32): (bytes: seq<byte>)
    ensures |bytes| == 4
  {
    var u := if v >= 0 then v else v + Modulus;
    [u / 0x100_0000, (u / 0x1_0000) % 256, (u / 0x100) % 256, u % 256]
  }

  lemma BigEndianBound(data: seq<byte>, pos: nat, n: nat)
    requires pos + n <= |data|
    ensures BigEndian(data, pos, n) < Pow256(n)
    decreases n
  {
    if n > 0 {
      BigEndianBound(data, pos, n - 1);
    }
  }

  function Pow256(n: nat): (p: nat)
    ensures p >= 1
  {
    if n == 0 then 1 else 256 * Pow256(n - 1)
  }

  /** Reading back the encoding of an int gives the int. */
  lemma Int32RoundTrip(v: Int32, data: seq<byte>, pos: nat)
    requires pos + 4 <= |data| && data[pos..pos + 4] == EncodeInt32(v)
    ensures Int32At(data, pos) == v
  {
    var u := if v >= 0 then v else v + Modulus;
    var b := EncodeInt32(v);
    assert data[pos] == b[0] && data[pos + 1] == b[1] && data[pos + 2] == b[2] && data[pos + 3] == b[3];
    DivModUnique(u, 256, u / 0x100, u % 256);
    DivModUnique(u / 0x100, 256, u / 0x1_0000, (u / 0x100) % 256);
    DivModUnique(u / 0x1_0000, 256, u / 0x100_0000, (u / 0x1_0000) % 256);
    DivModUnique(u, 0x1_0000, u / 0x1_0000, ((u / 0x100) % 256) * 256 + u % 256);
    DivModUnique(u, 0x100_0000, u / 0x100_0000, ((u / 0x1_0000) % 256) * 0x1_0000 + ((u / 0x100) % 256) * 256 + u % 256);
    assert BigEndian(data, pos, 4) == ((b[0] as int * 256 + b[1]) * 256 + b[2]) * 256 + b[3];
  }

  /** The bytes `ReadBytes(count)` returns: up to `count`, fewer at the end of the stream. */
  function Available(data: seq<byte>, pos: nat, count: nat): (r: seq<byte>)
    ensures |r| <= count
    ensures pos + count <= |data| ==> r == data[pos..pos + count]
  {
    if pos >= |data| then [] else if pos + count <= |data| then data[pos..pos + count] else data[pos..]
  }

  class Reader {
    const data: seq<byte>
    var pos: nat

    constructor (data: seq<byte>)
      ensures this.data == data && pos == 0
    {
      this.data := data;
      pos := 0;
    }

    /** On a failed fixed-size read the stream has been drained. */
    function Drained(): nat
      reads this
    {
      if pos < |data| then |data| else pos
    }

    method ReadByte() returns (r: Result<byte, StreamError>)
      modifies this
      ensures old(pos) + 1 <= |data| ==> r == Success(data[old(pos)]) && pos == old(pos) + 1
      ensures old(pos) + 1 > |data| ==> r == Failure(EndOfStream) && pos == old(Drained())
    {
      if pos + 1 <= |data| {
        r := Success(data[pos]);
        pos := pos + 1;
      } else {
        r := Failure(EndOfStream);
        pos := Drained();
      }
    }

    method ReadInt16() returns (r: Result<int, StreamError>)
      modifies this
      ensures old(pos) + 2 <= |data| ==> r == Success(Int16At(data, old(pos))) && pos == old(pos) + 2
      ensures old(pos) + 2 > |data| ==> r == Failure(EndOfStream) && pos == old(Drained())
    {
      if pos + 2 <= |data| {
        r := Success(Int16At(data, pos));
        pos := pos + 2;
      } else {
        r := Failure(EndOfStream);
        pos := Drained();
      }
    }

    method ReadInt32() returns (r: Result<Int32, StreamError>)
      modifies this
      ensures old(pos) + 4 <= |data| ==> r == Success(Int32At(data, old(pos))) && pos == old(pos) + 4
      ensures old(pos) + 4 > |data| ==> r == Failure(EndOfStream) && pos == old(Drained())
    {
      if pos + 4 <= |data| {
        r := Success(Int32At(data, pos));
        pos := pos + 4;
      } else {
        r := Failure(EndOfStream);
        pos := Drained();
      }
    }

    method ReadUInt32() returns (r: Result<nat, StreamError>)
      modifies this
      ensures old(pos) + 4 <= |data| ==> r == Success(UInt32At(data, old(pos))) && pos == old(pos) + 4
      ensures old(pos) + 4 > |data| ==> r == Failure(EndOfStream) && pos == old(Drained())
    {
      if pos + 4 <= |data| {
        r := Success(UInt32At(data, pos));
        pos := pos + 4;
      } else {
        r := Failure(EndOfStream);
        pos := Drained();
      }
    }

    /** `ReadBytes(count)`: as many bytes as remain, up to `count`; a negative count throws. */
    method ReadBytes(count: int) returns (r: Result<seq<byte>, StreamError>)
      modifies this
      ensures count < 0 ==> r == Failure(NegativeCount) && pos == old(pos)
      ensures count >= 0 ==> r == Success(Available(data, old(pos), count)) && pos == old(pos) + |r.value|
    {
      if count < 0 {
        return Failure(NegativeCount);
      }
      var bytes := Available(data, pos, count);
      pos := pos + |bytes|;
      r := Success(bytes);
    }

    /** `Read(buffer, 0, count)`: copies the available bytes, up to `count`, to the front of `buffer`. */
    method ReadInto(buffer: array<byte>, count: nat) returns (n: nat)
      requires count <= buffer.Length
      modifies this, buffer
      ensures n == |Available(data, old(pos), count)| && pos == old(pos) + n
      ensures buffer[..n] == Available(data, old(pos), count)
      ensures buffer[n..] == old(buffer[n..])
    {
      var bytes := Available(data, pos, count);
      n := |bytes|;
      var i := 0;
      while i < n
        invariant 0 <= i <= n
        invariant buffer[..i] == bytes[..i]
        invariant buffer[i..] == old(buffer[i..])
        invariant pos == old(pos)
      {
        buffer[i] := bytes[i];
        i := i + 1;
      }
      pos := pos + n;
    }

    /** The `BaseStream.Position` setter. */
    method Seek(position: nat)
      modifies this
      ensures pos == position
    {
      pos := position;
    }
  }
}

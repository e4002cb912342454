/**
  `RleHelper.DecodedRow`: decodes one row of PackBits run-length data
  (section 9 of TIFF 6.0) from a stream into a byte array, starting at
  `startIdx` and producing at most `columns` bytes.

  The helper's own source is not part of this model.  The body below is a
  PackBits decoder that stops when the row budget is spent; what the mask
  loader relies on, and all the contract states, is the frame: only bytes
  in `[startIdx, startIdx + columns)` are written, and the stream only
  moves forward.
 */
module RleHelper {
  import opened Wrappers
  import opened Layers
  import opened BinaryReverseReader

  datatype RleError = Truncated | OutsideBuffer

  /** The destination indices one row may write. */
  predicate InRow(k: int, startIdx: int, columns: int) {
    startIdx <= k < startIdx + columns
  }

  method DecodedRow(src: Reader, dst: array<byte>, startIdx: int, columns: int) returns (r: Result<(), RleError>)
    modifies src, dst
    ensures forall k :: 0 <= k < dst.Length && !InRow(k, startIdx, columns) ==> dst[k] == old(dst[k])
    ensures src.pos >= old(src.pos)
  {
    var count := 0;
    while count < columns
      invariant 0 <= count
      invariant src.pos >= old(src.pos)
      invariant forall k :: 0 <= k < dst.Length && !InRow(k, startIdx, columns) ==> dst[k] == old(dst[k])
      decreases if src.pos <= |src.data| then |src.data| - src.pos else 0
    {
      ghost var before := src.pos;
      var header := src.ReadByte();
      if header.Failure? {
        return Failure(Truncated);
      }
      var len := header.value;
      if len < 128 {
        // len + 1 literal bytes follow
        var n := len + 1;
        while n > 0 && count < columns
          invariant 0 <= count && before < src.pos <= |src.data|
          invariant forall k :: 0 <= k < dst.Length && !InRow(k, startIdx, columns) ==> dst[k] == old(dst[k])
          decreases n
        {
          var b := src.ReadByte();
          if b.Failure? {
            return Failure(Truncated);
          }
          var idx := startIdx + count;
          if !(0 <= idx < dst.Length) {
            return Failure(OutsideBuffer);
          }
          dst[idx] := b.value;
          count := count + 1;
          n := n - 1;
        }
      } else if len > 128 {
        // the next byte repeated 257 - len times
        var n := 257 - len;
        var b := src.ReadByte();
        if b.Failure? {
          return Failure(Truncated);
        }
        while n > 0 && count < columns
          invariant 0 <= count && before < src.pos <= |src.data|
          invariant forall k :: 0 <= k < dst.Length && !InRow(k, startIdx, columns) ==> dst[k] == old(dst[k])
          decreases n
        {
          var idx := startIdx + count;
          if !(0 <= idx < dst.Length) {
            return Failure(OutsideBuffer);
          }
          dst[idx] := b.value;
          count := count + 1;
          n := n - 1;
        }
      }
    }
    r := Success(());
  }
}

/**
  `BitmapUtility.layerData32argb`: interleaves a layer's channel planes into
  one buffer, pixel by pixel, with the rows flipped (output row 0 holds the
  bottom input row).
 */
module BitmapUtility {
  import opened Wrappers
  import opened CSharpInt
  import opened Layers

  datatype BitmapError = IndexOutOfRange

  /** The decoded planes of a list of channels, in channel order. */
  function Planes(chs: seq<Channel>): (ps: seq<seq<byte>>)
    reads set i | 0 <= i < |chs| :: chs[i]
    reads set i | 0 <= i < |chs| :: chs[i].imageData
    ensures |ps| == |chs|
    ensures forall i :: 0 <= i < |chs| ==> ps[i] == chs[i].imageData[..]
  {
    if chs == [] then [] else [chs[0].imageData[..]] + Planes(chs[1..])
  }

  /** The planes are determined by the arrays' contents alone. */
  lemma PlanesAre(chs: seq<Channel>, ps: seq<seq<byte>>)
    requires |chs| == |ps|
    requires forall i :: 0 <= i < |chs| ==> chs[i].imageData[..] == ps[i]
    ensures Planes(chs) == ps
  {
    var now := Planes(chs);
    assert forall i :: 0 <= i < |chs| ==> now[i] == ps[i];
  }

  /** The sum of the plane lengths. */
  function TotalLength(ps: seq<seq<byte>>): (n: nat)
  {
    if ps == [] then 0 else TotalLength(ps[..|ps| - 1]) + |ps[|ps| - 1]|
  }

  /** Where the loop writes byte `i` of pixel (x, y). */
  function Address(w: int, h: int, c: int, y: int, x: int, i: int): int
  {
    (h - 1 - y) * w * c + x * c + i
  }

  /** Where the loop reads pixel (x, y) of a plane. */
  function PlaneAddress(w: int, y: int, x: int): int
  {
    y * w + x
  }

  /** How many output bytes the loops cover. */
  function Covered(w: int, h: int, c: nat): nat
  {
    if w > 0 && h > 0 then w * h * c else 0
  }

  predicate InBounds(ps: seq<seq<byte>>, w: int, h: int, total: int, y: int, x: int, i: int)
    requires 0 <= i < |ps|
  {
    PlaneAddress(w, y, x) < |ps[i]| && Address(w, h, |ps|, y, x, i) < total
  }

  /** Every read and every write the loops perform is inside its array. */
  predicate AccessesInBounds(ps: seq<seq<byte>>, w: int, h: int, total: int)
  {
    forall y, x, i :: 0 <= y < h && 0 <= x < w && 0 <= i < |ps| ==> InBounds(ps, w, h, total, y, x, i)
  }

  /** The byte of the input that output index `k` holds, read by decoding `k`. */
  function Source(ps: seq<seq<byte>>, w: int, h: int, k: int): byte
    requires 0 <= k && w > 0 && |ps| > 0
  {
    var c := |ps|;
    var j := (h - 1 - (k / c) / w) * w + (k / c) % w;
    if 0 <= j < |ps[k % c]| then ps[k % c][j] else 0
  }

  /**
    The reference definition of the output: a zeroed buffer of `total`
    bytes whose first `Covered` bytes are, index by index, the input byte
    the index decodes to.
   */
  function Interleave(ps: seq<seq<byte>>, w: int, h: int, total: nat): (out: seq<byte>)
    ensures |out| == total
  {
    seq(total, k => OutputByte(ps, w, h, k))
  }

  /** Byte `k` of the reference output. */
  function OutputByte(ps: seq<seq<byte>>, w: int, h: int, k: int): byte
  {
    if w > 0 && |ps| > 0 && 0 <= k < Covered(w, h, |ps|) then Source(ps, w, h, k) else 0
  }

  /** Triple (a, b, d) comes before (y, x, i) in the loops' order. */
  predicate Before(a: int, b: int, d: int, y: int, x: int, i: int)
  {
    a < y || (a == y && (b < x || (b == x && d < i)))
  }

  /** Output index `k` has been written once the loops reach (y, x, i). */
  predicate Done(w: int, h: int, c: int, k: int, y: int, x: int, i: int)
    requires c > 0 && w > 0
  {
    Before(h - 1 - (k / c) / w, (k / c) % w, k % c, y, x, i)
  }

  lemma MulMono(a: int, b: int, m: int)
    requires a <= b && m >= 0
    ensures a * m <= b * m
  {
    assert b * m - a * m == (b - a) * m;
    assert (b - a) * m >= 0;
  }

  lemma MulLess(q: int, m: int, c: int)
    requires c > 0 && q >= 0 && m >= 0 && q < m
    ensures q * c + c <= m * c
  {
    MulMono(q + 1, m, c);
    assert (q + 1) * c == q * c + c;
  }

  lemma QuotientBelow(x: int, m: int, n: int)
    requires m > 0 && 0 <= x < n * m
    ensures 0 <= x / m < n
  {
    var q := x / m;
    assert q * m + x % m == x;
    if q >= n {
      MulMono(n, q, m);
      assert false;
    }
  }

  lemma Distribute(r: int, w: int, c: int, b: int)
    ensures r * w * c + b * c == (r * w + b) * c
  {
  }

  /** Decoding the address of (y, x, i) gives back (y, x, i). */
  lemma DecodeAddress(w: int, h: int, c: int, y: int, x: int, i: int)
    requires 0 <= y < h && 0 <= x < w && 0 <= i < c
    ensures var k := Address(w, h, c, y, x, i);
      0 <= k < w * h * c && k % c == i && k / c == (h - 1 - y) * w + x &&
      (k / c) % w == x && h - 1 - (k / c) / w == y
  {
    var k := Address(w, h, c, y, x, i);
    var p := (h - 1 - y) * w + x;
    Distribute(h - 1 - y, w, c, x);
    assert k == p * c + i;
    DivModUnique(k, c, p, i);
    DivModUnique(p, w, h - 1 - y, x);
    assert 0 <= p < w * h by {
      MulLess(h - 1 - y, h, w);
      MulMono(0, h - 1 - y, w);
      assert h * w == w * h;
    }
    MulLess(p, w * h, c);
  }

  /** Every index below `Covered` is the address of exactly the triple it decodes to. */
  lemma AddressOfDecode(w: int, h: int, c: int, k: int)
    requires w > 0 && h > 0 && c > 0 && 0 <= k < w * h * c
    ensures var y := h - 1 - (k / c) / w;
      0 <= y < h && 0 <= (k / c) % w < w && 0 <= k % c < c &&
      Address(w, h, c, y, (k / c) % w, k % c) == k
  {
    var p := k / c;
    var r := p / w;
    QuotientBelow(k, c, w * h);
    assert p < h * w by { assert w * h == h * w; }
    QuotientBelow(p, w, h);
    Distribute(r, w, c, p % w);
    assert r * w + p % w == p;
    assert p * c + k % c == k;
  }

  /** The address map is injective on the loops' range. */
  lemma AddressInjective(w: int, h: int, c: int, y: int, x: int, i: int, y': int, x': int, i': int)
    requires 0 <= y < h && 0 <= x < w && 0 <= i < c
    requires 0 <= y' < h && 0 <= x' < w && 0 <= i' < c
    requires Address(w, h, c, y, x, i) == Address(w, h, c, y', x', i')
    ensures y == y' && x == x' && i == i'
  {
    DecodeAddress(w, h, c, y, x, i);
    DecodeAddress(w, h, c, y', x', i');
  }

  /** At the address of (y, x, i) the output holds pixel (x, y) of plane i. */
  lemma InterleaveAt(ps: seq<seq<byte>>, w: int, h: int, total: nat, y: int, x: int, i: int)
    requires AccessesInBounds(ps, w, h, total)
    requires 0 <= y < h && 0 <= x < w && 0 <= i < |ps|
    ensures 0 <= Address(w, h, |ps|, y, x, i) < total
    ensures 0 <= PlaneAddress(w, y, x) < |ps[i]|
    ensures Interleave(ps, w, h, total)[Address(w, h, |ps|, y, x, i)] == ps[i][PlaneAddress(w, y, x)]
  {
    assert InBounds(ps, w, h, total, y, x, i);
    DecodeAddress(w, h, |ps|, y, x, i);
  }

  /** Output row 0 is input row h - 1: the row order is flipped. */
  lemma RowsFlipped(ps: seq<seq<byte>>, w: int, h: int, total: nat, x: int, i: int)
    requires AccessesInBounds(ps, w, h, total)
    requires h > 0 && 0 <= x < w && 0 <= i < |ps|
    ensures x * |ps| + i < total && (h - 1) * w + x < |ps[i]|
    ensures Interleave(ps, w, h, total)[x * |ps| + i] == ps[i][(h - 1) * w + x]
  {
    InterleaveAt(ps, w, h, total, h - 1, x, i);
    assert Address(w, h, |ps|, h - 1, x, i) == x * |ps| + i;
  }

  /** Byte i of every output pixel comes from plane i and no other. */
  lemma NoMixing(ps: seq<seq<byte>>, w: int, h: int, total: nat, k: int)
    requires AccessesInBounds(ps, w, h, total)
    requires 0 <= k < total && k < Covered(w, h, |ps|)
    ensures exists j :: 0 <= j < |ps[k % |ps|]| && Interleave(ps, w, h, total)[k] == ps[k % |ps|][j]
  {
    var c := |ps|;
    AddressOfDecode(w, h, c, k);
    var y, x, i := h - 1 - (k / c) / w, (k / c) % w, k % c;
    InterleaveAt(ps, w, h, total, y, x, i);
  }

  lemma {:induction false} TotalOfEqualPlanes(ps: seq<seq<byte>>, n: nat)
    requires forall i :: 0 <= i < |ps| ==> |ps[i]| == n
    ensures TotalLength(ps) == |ps| * n
  {
    if ps != [] {
      TotalOfEqualPlanes(ps[..|ps| - 1], n);
    }
  }

  /** Some pixel byte of the loops' range is written at index `k`. */
  predicate Addressed(w: int, h: int, c: int, k: int)
  {
    exists y, x, i :: 0 <= y < h && 0 <= x < w && 0 <= i < c && Address(w, h, c, y, x, i) == k
  }

  /**
    When every plane holds exactly w * h bytes, every access is in bounds
    and the addresses cover the output exactly once.
   */
  lemma ExactPlanesWrittenOnce(ps: seq<seq<byte>>, w: int, h: int)
    requires w > 0 && h > 0 && |ps| > 0
    requires forall i :: 0 <= i < |ps| ==> |ps[i]| == w * h
    ensures TotalLength(ps) == Covered(w, h, |ps|)
    ensures AccessesInBounds(ps, w, h, TotalLength(ps))
    ensures forall k :: 0 <= k < TotalLength(ps) ==> Addressed(w, h, |ps|, k)
  {
    var c := |ps|;
    TotalOfEqualPlanes(ps, w * h);
    assert TotalLength(ps) == w * h * c;
    forall y, x, i | 0 <= y < h && 0 <= x < w && 0 <= i < c
      ensures InBounds(ps, w, h, TotalLength(ps), y, x, i)
    {
      DecodeAddress(w, h, c, y, x, i);
      MulLess(y, h, w);
      assert h * w == w * h;
    }
    forall k | 0 <= k < TotalLength(ps)
      ensures Addressed(w, h, c, k)
    {
      AddressOfDecode(w, h, c, k);
    }
  }

  /** The sum of the first n plane lengths. */
  lemma TotalLengthSnoc(ps: seq<seq<byte>>, n: nat)
    requires n < |ps|
    ensures TotalLength(ps[..n + 1]) == TotalLength(ps[..n]) + |ps[n]|
  {
    assert ps[..n + 1][..n] == ps[..n];
  }

  /** The output once the loops have reached (y, x, i): the indices done so far hold their bytes. */
  function Partial(ps: seq<seq<byte>>, w: int, h: int, total: nat, y: int, x: int, i: int): (out: seq<byte>)
    ensures |out| == total
  {
    seq(total, k => PartialByte(ps, w, h, k, y, x, i))
  }

  /** Byte `k` of the output once the loops have reached (y, x, i). */
  function PartialByte(ps: seq<seq<byte>>, w: int, h: int, k: int, y: int, x: int, i: int): byte
  {
    if w > 0 && |ps| > 0 && 0 <= k < Covered(w, h, |ps|) && Done(w, h, |ps|, k, y, x, i)
    then Source(ps, w, h, k) else 0
  }

  lemma PartialStart(ps: seq<seq<byte>>, w: int, h: int, total: nat)
    ensures Partial(ps, w, h, total, 0, 0, 0) == seq(total, k => 0)
  {
    var c := |ps|;
    forall k | 0 <= k < total && w > 0 && c > 0 && k < Covered(w, h, c)
      ensures !Done(w, h, c, k, 0, 0, 0)
    {
      AddressOfDecode(w, h, c, k);
    }
  }

  lemma PartialEnd(ps: seq<seq<byte>>, w: int, h: int, total: nat, y: int)
    requires y >= h
    ensures Partial(ps, w, h, total, y, 0, 0) == Interleave(ps, w, h, total)
  {
    var c := |ps|;
    forall k | 0 <= k < total && w > 0 && c > 0 && k < Covered(w, h, c)
      ensures Done(w, h, c, k, y, 0, 0)
    {
      AddressOfDecode(w, h, c, k);
    }
  }

  lemma PartialWrite(ps: seq<seq<byte>>, w: int, h: int, total: nat, y: int, x: int, i: int)
    requires 0 <= y < h && 0 <= x < w && 0 <= i < |ps|
    requires InBounds(ps, w, h, total, y, x, i)
    ensures 0 <= Address(w, h, |ps|, y, x, i) < total
    ensures Partial(ps, w, h, total, y, x, i + 1) ==
      Partial(ps, w, h, total, y, x, i)[Address(w, h, |ps|, y, x, i) := ps[i][PlaneAddress(w, y, x)]]
  {
    var c := |ps|;
    var k0 := Address(w, h, c, y, x, i);
    DecodeAddress(w, h, c, y, x, i);
    forall k | 0 <= k < total && k < Covered(w, h, c)
      ensures Done(w, h, c, k, y, x, i + 1) <==> Done(w, h, c, k, y, x, i) || k == k0
    {
      AddressOfDecode(w, h, c, k);
    }
  }

  lemma PartialNextPixel(ps: seq<seq<byte>>, w: int, h: int, total: nat, y: int, x: int)
    ensures Partial(ps, w, h, total, y, x, |ps|) == Partial(ps, w, h, total, y, x + 1, 0)
  {
  }

  lemma PartialNextRow(ps: seq<seq<byte>>, w: int, h: int, total: nat, y: int, x: int)
    requires x == w || w <= 0
    ensures Partial(ps, w, h, total, y, x, 0) == Partial(ps, w, h, total, y + 1, 0, 0)
  {
  }

  /** Every plane holds at least the w * h pixels the loops read (nothing to check for an empty rectangle). */
  predicate PlanesLargeEnough(ps: seq<seq<byte>>, w: int, h: int)
  {
    w <= 0 || h <= 0 || forall j :: 0 <= j < |ps| ==> |ps[j]| >= w * h
  }

  lemma {:induction false} TotalAtLeast(ps: seq<seq<byte>>, m: int)
    requires forall j :: 0 <= j < |ps| ==> |ps[j]| >= m
    ensures TotalLength(ps) >= |ps| * m
  {
    if ps != [] {
      TotalAtLeast(ps[..|ps| - 1], m);
    }
  }

  /**
    The loops stay inside every array exactly when the planes are large
    enough: the output, whose size is the sum of the plane sizes, is then
    large enough too.
   */
  lemma InBoundsIffLargeEnough(ps: seq<seq<byte>>, w: int, h: int)
    ensures AccessesInBounds(ps, w, h, TotalLength(ps)) <==> PlanesLargeEnough(ps, w, h)
  {
    var c := |ps|;
    if w > 0 && h > 0 {
      if PlanesLargeEnough(ps, w, h) {
        TotalAtLeast(ps, w * h);
        forall y, x, i | 0 <= y < h && 0 <= x < w && 0 <= i < c
          ensures InBounds(ps, w, h, TotalLength(ps), y, x, i)
        {
          DecodeAddress(w, h, c, y, x, i);
          MulLess(y, h, w);
          assert h * w == w * h && c * (w * h) == w * h * c;
        }
      } else {
        var j :| 0 <= j < c && |ps[j]| < w * h;
        assert !InBounds(ps, w, h, TotalLength(ps), h - 1, w - 1, j) by {
          assert (h - 1) * w + w == h * w == w * h;
        }
      }
    }
  }

  /**
    `layerData32argb`: sums the plane lengths into the output size, then
    copies byte (x, y) of each plane i to the flipped, interleaved address.
    An out-of-range read or write throws, which is the failure case.
   */
  /** The first loop of `layerData32argb`: the sum of the planes' lengths. */
  method TotalSize(channels: seq<Channel>) returns (layerDataSize: int)
    ensures layerDataSize == TotalLength(Planes(channels))
  {
    ghost var ps := Planes(channels);
    layerDataSize := 0;
    var n := 0;
    while n < |channels|
      invariant 0 <= n <= |channels|
      invariant layerDataSize == TotalLength(ps[..n])
    {
      TotalLengthSnoc(ps, n);
      layerDataSize := layerDataSize + channels[n].imageData.Length;
      n := n + 1;
    }
    assert ps[..|channels|] == ps;
  }

  method LayerData32Argb(layer: Layer) returns (r: Result<seq<byte>, BitmapError>)
    ensures var ps := Planes(layer.channels);
      r.Success? <==> PlanesLargeEnough(ps, layer.rect.width, layer.rect.height)
    ensures var ps := Planes(layer.channels);
      r.Success? ==> r.value == Interleave(ps, layer.rect.width, layer.rect.height, TotalLength(ps))
  {
    var channels := layer.channels;
    var channelCount := |channels|;
    var width := layer.rect.width;
    var height := layer.rect.height;
    var layerDataSize := TotalSize(channels);
    ghost var ps := Planes(channels);
    assert forall j :: 0 <= j < channelCount ==> channels[j].imageData[..] == ps[j];
    var layerData := new byte[layerDataSize](_ => 0);
    assert forall j :: 0 <= j < channelCount ==> channels[j].imageData != layerData;
    assert layerData[..] == Partial(ps, width, height, layerDataSize, 0, 0, 0) by {
      PartialStart(ps, width, height, layerDataSize);
    }
    var ok := CopyRows(channels, ps, layerData, width, height);
    PlanesAre(channels, ps);
    if !ok {
      return Failure(IndexOutOfRange);
    }
    r := Success(layerData[..]);
  }

  /** The loop over y of `layerData32argb`: copies the rows bottom-up; false when an access is out of range. */
  method CopyRows(channels: seq<Channel>, ghost ps: seq<seq<byte>>, layerData: array<byte>,
                  width: int, height: int) returns (ok: bool)
    requires |ps| == |channels| && layerData.Length == TotalLength(ps)
    requires forall j :: 0 <= j < |channels| ==> channels[j].imageData[..] == ps[j]
    requires forall j :: 0 <= j < |channels| ==> channels[j].imageData != layerData
    requires layerData[..] == Partial(ps, width, height, layerData.Length, 0, 0, 0)
    modifies layerData
    ensures forall j :: 0 <= j < |channels| ==> channels[j].imageData[..] == ps[j]
    ensures ok <==> PlanesLargeEnough(ps, width, height)
    ensures ok ==> layerData[..] == Interleave(ps, width, height, layerData.Length)
  {
    var y := 0;
    while y < height
      invariant 0 <= y && (height >= 0 ==> y <= height)
      invariant forall j :: 0 <= j < |channels| ==> channels[j].imageData[..] == ps[j]
      invariant RowsRead(ps, width, y)
      invariant layerData[..] == Partial(ps, width, height, layerData.Length, y, 0, 0)
    {
      var rowOffset := (height - 1 - y) * width * |channels|;
      ok := CopyRow(channels, ps, layerData, width, height, y, rowOffset);
      if !ok {
        return;
      }
      y := y + 1;
    }
    PartialEnd(ps, width, height, layerData.Length, y);
    AllRowsRead(ps, width, height, y);
    ok := true;
  }

  /** Every plane holds the first y rows of w pixels. */
  predicate RowsRead(ps: seq<seq<byte>>, w: int, y: int)
  {
    w > 0 ==> forall j :: 0 <= j < |ps| ==> y * w <= |ps[j]|
  }

  lemma NextRowRead(ps: seq<seq<byte>>, w: int, y: int)
    requires w > 0 ==> forall j :: 0 <= j < |ps| ==> y * w + w <= |ps[j]|
    ensures RowsRead(ps, w, y + 1)
  {
    assert (y + 1) * w == y * w + w;
  }

  lemma AllRowsRead(ps: seq<seq<byte>>, w: int, h: int, y: int)
    requires y >= 0 && (h >= 0 ==> y == h) && RowsRead(ps, w, y)
    ensures PlanesLargeEnough(ps, w, h)
  {
    if w > 0 && h > 0 {
      assert h * w == w * h;
    }
  }

  /** The loop over x of `layerData32argb`: copies row y; false when an access is out of range. */
  method CopyRow(channels: seq<Channel>, ghost ps: seq<seq<byte>>, layerData: array<byte>,
                 width: int, height: int, y: int, rowOffset: int) returns (ok: bool)
    requires |ps| == |channels| && layerData.Length == TotalLength(ps)
    requires forall j :: 0 <= j < |channels| ==> channels[j].imageData[..] == ps[j]
    requires forall j :: 0 <= j < |channels| ==> channels[j].imageData != layerData
    requires 0 <= y < height && rowOffset == (height - 1 - y) * width * |channels|
    requires RowsRead(ps, width, y)
    requires layerData[..] == Partial(ps, width, height, layerData.Length, y, 0, 0)
    modifies layerData
    ensures forall j :: 0 <= j < |channels| ==> channels[j].imageData[..] == ps[j]
    ensures ok ==> layerData[..] == Partial(ps, width, height, layerData.Length, y + 1, 0, 0)
    ensures ok ==> RowsRead(ps, width, y + 1)
    ensures !ok ==> !PlanesLargeEnough(ps, width, height)
  {
    var x := 0;
    while x < width
      invariant 0 <= x && (width >= 0 ==> x <= width)
      invariant forall j :: 0 <= j < |channels| ==> channels[j].imageData[..] == ps[j]
      invariant width > 0 ==> forall j :: 0 <= j < |ps| ==> y * width + x <= |ps[j]|
      invariant layerData[..] == Partial(ps, width, height, layerData.Length, y, x, 0)
    {
      ok := CopyPixel(channels, ps, layerData, width, height, y, x, rowOffset);
      if !ok {
        return;
      }
      x := x + 1;
    }
    PartialNextRow(ps, width, height, layerData.Length, y, x);
    NextRowRead(ps, width, y);
    ok := true;
  }

  /** The loop over the channels of `layerData32argb`: copies pixel (x, y). */
  method CopyPixel(channels: seq<Channel>, ghost ps: seq<seq<byte>>, layerData: array<byte>,
                   width: int, height: int, y: int, x: int, rowOffset: int) returns (ok: bool)
    requires |ps| == |channels| && layerData.Length == TotalLength(ps)
    requires forall j :: 0 <= j < |channels| ==> channels[j].imageData[..] == ps[j]
    requires forall j :: 0 <= j < |channels| ==> channels[j].imageData != layerData
    requires 0 <= y < height && 0 <= x < width && rowOffset == (height - 1 - y) * width * |channels|
    requires layerData[..] == Partial(ps, width, height, layerData.Length, y, x, 0)
    modifies layerData
    ensures ok ==> layerData[..] == Partial(ps, width, height, layerData.Length, y, x + 1, 0)
    ensures ok ==> forall j :: 0 <= j < |ps| ==> y * width + x < |ps[j]|
    ensures !ok ==> !PlanesLargeEnough(ps, width, height)
  {
    var channelCount := |channels|;
    var i := 0;
    while i < channelCount
      invariant 0 <= i <= channelCount
      invariant forall j :: 0 <= j < channelCount ==> channels[j].imageData[..] == ps[j]
      invariant forall j :: 0 <= j < i ==> y * width + x < |ps[j]|
      invariant layerData[..] == Partial(ps, width, height, layerData.Length, y, x, i)
    {
      var channel := channels[i];
      var layerDataAddress := rowOffset + x * channelCount + i;
      var channelDataAddress := y * width + x;
      AddressesInRange(width, height, channelCount, y, x, i);
      if !(channelDataAddress < channel.imageData.Length && layerDataAddress < layerData.Length) {
        FailureMeansTooSmall(ps, width, height, y, x, i, layerData.Length);
        return false;
      }
      PartialWrite(ps, width, height, layerData.Length, y, x, i);
      layerData[layerDataAddress] := channel.imageData[channelDataAddress];
      i := i + 1;
    }
    PartialNextPixel(ps, width, height, layerData.Length, y, x);
    ok := true;
  }

  lemma AddressesInRange(w: int, h: int, c: int, y: int, x: int, i: int)
    requires 0 <= y < h && 0 <= x < w && 0 <= i < c
    ensures 0 <= PlaneAddress(w, y, x) < w * h
    ensures 0 <= Address(w, h, c, y, x, i) < w * h * c
  {
    DecodeAddress(w, h, c, y, x, i);
    MulLess(y, h, w);
    MulMono(0, y, w);
    assert h * w == w * h;
  }

  /** An access the loops find out of range means some plane is smaller than w * h. */
  lemma FailureMeansTooSmall(ps: seq<seq<byte>>, w: int, h: int, y: int, x: int, i: int, total: int)
    requires 0 <= y < h && 0 <= x < w && 0 <= i < |ps| && total == TotalLength(ps)
    requires !(y * w + x < |ps[i]| && Address(w, h, |ps|, y, x, i) < total)
    ensures !PlanesLargeEnough(ps, w, h)
  {
    assert !InBounds(ps, w, h, total, y, x, i);
    InBoundsIffLargeEnough(ps, w, h);
  }
}

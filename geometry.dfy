/**
  The integer `Point` and `Size` structs of the Photoshop file library.
  Both are C# value types: a "mutating" member such as `Offset` is modelled
  as a function returning the struct after the call, which is what the
  caller's copy holds.  Arithmetic is unchecked 32-bit C# arithmetic.
 */
module Geometry {
  import opened CSharpInt

  datatype Point = Point(x: Int32, y: Int32) {

    /** The default (all-zero) point. */
    predicate IsEmpty() {
      x == 0 && y == 0
    }

    /** `Offset(dx, dy)`: moves the point, wrapping like `+=` on ints. */
    function Offset(dx: Int32, dy: Int32): Point
    {
      Point(Wrap(x + dx), Wrap(y + dy))
    }

    /** `Offset(Point p)` delegates to `Offset(p.X, p.Y)`. */
    function OffsetBy(d: Point): Point
    {
      Offset(d.x, d.y)
    }

    /** `explicit operator Size(Point)`. */
    function ToSize(): Size
    {
      Size(x, y)
    }
  }

  const EmptyPoint: Point := Point(0, 0)

  /** `new Point(Size sz)`. */
  function PointFromSize(sz: Size): Point
  {
    Point(sz.width, sz.height)
  }

  /**
    `new Point(int dw)`: X is the low 16 bits (`dw & 0xFFFF`) and Y the
    high half shifted arithmetically (`dw >> 16`), so Y keeps the sign.
    Dafny's `%` and `/` by a positive constant are the mask and the
    floor shift of a two's-complement word.
   */
  function PointFromPacked(dw: Int32): (p: Point)
    ensures 0 <= p.x <= 0xFFFF
    ensures -0x8000 <= p.y <= 0x7FFF
    ensures dw == p.y * 0x1_0000 + p.x
  {
    Point(dw % 0x1_0000, dw / 0x1_0000)
  }

  /** `Point.Add` and `operator +(Point, Size)` (identical bodies). */
  function Add(pt: Point, sz: Size): Point
  {
    Point(Wrap(pt.x + sz.width), Wrap(pt.y + sz.height))
  }

  /** `Point.Subtract` and `operator -(Point, Size)` (identical bodies). */
  function Subtract(pt: Point, sz: Size): Point
  {
    Point(Wrap(pt.x - sz.width), Wrap(pt.y - sz.height))
  }

  /** `operator ==(Point, Point)`. */
  predicate PointEq(a: Point, b: Point) {
    a.x == b.x && a.y == b.y
  }

  /** `operator !=(Point, Point)`, written separately in the source. */
  predicate PointNotEq(a: Point, b: Point) {
    a.x != b.x || a.y != b.y
  }

  datatype Size = Size(width: Int32, height: Int32) {

    predicate IsEmpty() {
      width == 0 && height == 0
    }

    /** `explicit operator Point(Size)`. */
    function ToPoint(): Point
    {
      Point(width, height)
    }
  }

  const EmptySize: Size := Size(0, 0)

  /** `new Size(Point pt)`. */
  function SizeFromPoint(pt: Point): Size
  {
    Size(pt.x, pt.y)
  }

  /** `Size.Add` and `operator +(Size, Size)` (identical bodies). */
  function SizeAdd(a: Size, b: Size): Size
  {
    Size(Wrap(a.width + b.width), Wrap(a.height + b.height))
  }

  /** `Size.Subtract` and `operator -(Size, Size)` (identical bodies). */
  function SizeSubtract(a: Size, b: Size): Size
  {
    Size(Wrap(a.width - b.width), Wrap(a.height - b.height))
  }

  predicate SizeEq(a: Size, b: Size) {
    a.width == b.width && a.height == b.height
  }

  predicate SizeNotEq(a: Size, b: Size) {
    a.width != b.width || a.height != b.height
  }

  // ---------------------------------------------------------------------
  // Properties

  /** `IsEmpty` holds exactly of the default value `Point.Empty`. */
  lemma PointIsEmptyIsDefault(p: Point)
    ensures p.IsEmpty() <==> p == EmptyPoint
  {
  }

  lemma SizeIsEmptyIsDefault(s: Size)
    ensures s.IsEmpty() <==> s == EmptySize
  {
  }

  /** The two equality operators are complementary and coincide with value equality. */
  lemma PointEqualityOperators(a: Point, b: Point)
    ensures PointEq(a, b) <==> a == b
    ensures PointNotEq(a, b) <==> !PointEq(a, b)
  {
  }

  lemma SizeEqualityOperators(a: Size, b: Size)
    ensures SizeEq(a, b) <==> a == b
    ensures SizeNotEq(a, b) <==> !SizeEq(a, b)
  {
  }

  /** Subtracting a size undoes adding it, even when the addition wrapped. */
  lemma SubtractUndoesAdd(p: Point, s: Size)
    ensures Subtract(Add(p, s), s) == p
  {
    WrapSub(p.x + s.width, s.width);
    WrapSub(p.y + s.height, s.height);
    WrapInRange(p.x);
    WrapInRange(p.y);
  }

  /** Adding a size undoes subtracting it. */
  lemma AddUndoesSubtract(p: Point, s: Size)
    ensures Add(Subtract(p, s), s) == p
  {
    WrapAdd(p.x - s.width, s.width);
    WrapAdd(p.y - s.height, s.height);
    WrapInRange(p.x);
    WrapInRange(p.y);
  }

  lemma SizeSubtractUndoesAdd(a: Size, b: Size)
    ensures SizeSubtract(SizeAdd(a, b), b) == a
  {
    WrapSub(a.width + b.width, b.width);
    WrapSub(a.height + b.height, b.height);
    WrapInRange(a.width);
    WrapInRange(a.height);
  }

  /** Size addition is commutative. */
  lemma SizeAddCommutes(a: Size, b: Size)
    ensures SizeAdd(a, b) == SizeAdd(b, a)
  {
  }

  /** Offsetting by a point is adding that point read as a size. */
  lemma OffsetIsAdd(p: Point, d: Point)
    ensures p.OffsetBy(d) == Add(p, d.ToSize())
  {
  }

  /** Offsetting twice is offsetting once by the (wrapped) sum. */
  lemma OffsetComposes(p: Point, a: Point, b: Point)
    ensures p.OffsetBy(a).OffsetBy(b) == p.Offset(Wrap(a.x + b.x), Wrap(a.y + b.y))
  {
    WrapAddAssoc(p.x, a.x, b.x);
    WrapAddAssoc(p.y, a.y, b.y);
  }

  /** The Point/Size conversions are inverse to each other in both directions. */
  lemma PointSizeRoundTrip(p: Point, s: Size)
    ensures PointFromSize(s).ToSize() == s && SizeFromPoint(p).ToPoint() == p
    ensures PointFromSize(p.ToSize()) == p && SizeFromPoint(s.ToPoint()) == s
  {
  }

  /** The packed constructor never loses information: equal points come from equal words. */
  lemma PackedIsInjective(a: Int32, b: Int32)
    requires PointFromPacked(a) == PointFromPacked(b)
    ensures a == b
  {
  }
}

/**
  The integer `Rectangle` struct: a location (X, Y) and a size (Width,
  Height); Right and Bottom are derived with wrapping int addition.
  Instance members that assign to `this` are modelled as functions that
  return the new value of the struct.
 */
module Rectangles {
  import opened CSharpInt
  import opened Geometry

  datatype Rectangle = Rectangle(x: Int32, y: Int32, width: Int32, height: Int32) {

    function Left(): Int32 { x }

    function Top(): Int32 { y }

    function Right(): Int32 { Wrap(x + width) }

    function Bottom(): Int32 { Wrap(y + height) }

    function Location(): Point { Point(x, y) }

    function Size(): Size { Geometry.Size(width, height) }

    /** The `Location` setter. */
    function WithLocation(p: Point): (r: Rectangle)
      ensures r.Location() == p && r.Size() == Size()
    {
      Rectangle(p.x, p.y, width, height)
    }

    /** The `Size` setter. */
    function WithSize(s: Geometry.Size): (r: Rectangle)
      ensures r.Size() == s && r.Location() == Location()
    {
      Rectangle(x, y, s.width, s.height)
    }

    predicate IsEmpty() {
      x == 0 && y == 0 && width == 0 && height == 0
    }

    /** `Contains(int x, int y)`: left and top inclusive, right and bottom exclusive. */
    predicate Contains(px: int, py: int) {
      px >= Left() && px < Right() && py >= Top() && py < Bottom()
    }

    /** `Contains(Point pt)`. */
    predicate ContainsPoint(pt: Point) {
      Contains(pt.x, pt.y)
    }

    /** `Contains(Rectangle rect)`: the rectangle equals its intersection with this one. */
    predicate ContainsRect(rect: Rectangle) {
      RectEq(rect, Intersect(this, rect))
    }

    predicate IntersectsWith(rect: Rectangle) {
      Left() < rect.Right() && Right() > rect.Left() && Top() < rect.Bottom() && Bottom() > rect.Top()
    }

    predicate IntersectsWithInclusive(r: Rectangle) {
      Left() <= r.Right() && Right() >= r.Left() && Top() <= r.Bottom() && Bottom() >= r.Top()
    }

    /** Instance `Inflate(Size size)`: widens by `size` on every side. */
    function InflateBy(size: Geometry.Size): Rectangle
    {
      Rectangle(Wrap(x - size.width), Wrap(y - size.height),
                Wrap(width + Wrap(size.width * 2)), Wrap(height + Wrap(size.height * 2)))
    }

    /** Instance `Inflate(int width, int height)`. */
    function Inflate(w: Int32, h: Int32): Rectangle
    {
      InflateBy(Geometry.Size(w, h))
    }

    /** Instance `Intersect(Rectangle rect)`: `this = Rectangle.Intersect(this, rect)`. */
    function IntersectWith(rect: Rectangle): Rectangle
    {
      Intersect(this, rect)
    }

    /** `Offset(int x, int y)`. */
    function Offset(dx: Int32, dy: Int32): (r: Rectangle)
      ensures r.Size() == Size()
      ensures r.Location() == Location().Offset(dx, dy)
    {
      Rectangle(Wrap(x + dx), Wrap(y + dy), width, height)
    }

    /** `Offset(Point pos)`. */
    function OffsetBy(pos: Point): (r: Rectangle)
      ensures r == Offset(pos.x, pos.y)
    {
      Rectangle(Wrap(x + pos.x), Wrap(y + pos.y), width, height)
    }
  }

  const Empty: Rectangle := Rectangle(0, 0, 0, 0)

  /** `new Rectangle(Point location, Size size)`. */
  function FromLocationSize(location: Point, size: Size): (r: Rectangle)
    ensures r.Location() == location && r.Size() == size
  {
    Rectangle(location.x, location.y, size.width, size.height)
  }

  function FromLTRB(left: Int32, top: Int32, right: Int32, bottom: Int32): Rectangle {
    Rectangle(left, top, Wrap(right - left), Wrap(bottom - top))
  }

  /** Static `Inflate(rect, x, y)`: inflates a copy built from the location and size. */
  function InflateCopy(rect: Rectangle, w: Int32, h: Int32): Rectangle {
    FromLocationSize(rect.Location(), rect.Size()).Inflate(w, h)
  }

  /** Static `Intersect(a, b)`. */
  function Intersect(a: Rectangle, b: Rectangle): Rectangle {
    if !a.IntersectsWithInclusive(b) then Empty
    else FromLTRB(Max(a.Left(), b.Left()), Max(a.Top(), b.Top()),
                  Min(a.Right(), b.Right()), Min(a.Bottom(), b.Bottom()))
  }

  /** Static `Union(a, b)`. */
  function Union(a: Rectangle, b: Rectangle): Rectangle {
    FromLTRB(Min(a.Left(), b.Left()), Min(a.Top(), b.Top()),
             Max(a.Right(), b.Right()), Max(a.Bottom(), b.Bottom()))
  }

  /** `operator ==`: same location and same size. */
  predicate RectEq(a: Rectangle, b: Rectangle) {
    PointEq(a.Location(), b.Location()) && SizeEq(a.Size(), b.Size())
  }

  /** `operator !=`, written separately in the source. */
  predicate RectNotEq(a: Rectangle, b: Rectangle) {
    PointNotEq(a.Location(), b.Location()) || SizeNotEq(a.Size(), b.Size())
  }

  function Min(a: Int32, b: Int32): Int32 { if a <= b then a else b }

  function Max(a: Int32, b: Int32): Int32 { if a >= b then a else b }

  // ---------------------------------------------------------------------
  // Properties

  /** `FromLTRB` really has the four given edges, even when `right - left` wraps. */
  lemma FromLTRBEdges(l: Int32, t: Int32, r: Int32, b: Int32)
    ensures FromLTRB(l, t, r, b).Left() == l && FromLTRB(l, t, r, b).Top() == t
    ensures FromLTRB(l, t, r, b).Right() == r && FromLTRB(l, t, r, b).Bottom() == b
  {
    WrapAdd(l, r - l);
    WrapAdd(t, b - t);
    WrapInRange(r);
    WrapInRange(b);
  }

  /** A rectangle is rebuilt exactly from its own edges. */
  lemma FromOwnEdges(rect: Rectangle)
    ensures FromLTRB(rect.Left(), rect.Top(), rect.Right(), rect.Bottom()) == rect
  {
    WrapSub(rect.x + rect.width, rect.x);
    WrapSub(rect.y + rect.height, rect.y);
    WrapInRange(rect.width);
    WrapInRange(rect.height);
  }

  lemma IsEmptyIsDefault(rect: Rectangle)
    ensures rect.IsEmpty() <==> rect == Empty
  {
  }

  /** `==` is value equality and `!=` its negation. */
  lemma EqualityOperators(a: Rectangle, b: Rectangle)
    ensures RectEq(a, b) <==> a == b
    ensures RectNotEq(a, b) <==> !RectEq(a, b)
  {
  }

  /** The empty rectangle contains no point. */
  lemma EmptyContainsNothing(px: int, py: int)
    ensures !Empty.Contains(px, py)
  {
  }

  /**
    `Intersect` is Empty unless the rectangles meet inclusively; otherwise its
    edges are the inner edges of the two.
   */
  lemma IntersectEdges(a: Rectangle, b: Rectangle)
    ensures !a.IntersectsWithInclusive(b) ==> Intersect(a, b) == Empty
    ensures a.IntersectsWithInclusive(b) ==>
      var r := Intersect(a, b);
      && r.Left() == Max(a.Left(), b.Left()) && r.Top() == Max(a.Top(), b.Top())
      && r.Right() == Min(a.Right(), b.Right()) && r.Bottom() == Min(a.Bottom(), b.Bottom())
  {
    if a.IntersectsWithInclusive(b) {
      FromLTRBEdges(Max(a.Left(), b.Left()), Max(a.Top(), b.Top()),
                    Min(a.Right(), b.Right()), Min(a.Bottom(), b.Bottom()));
    }
  }

  /** A point lies in the intersection exactly when it lies in both rectangles. */
  lemma IntersectContains(a: Rectangle, b: Rectangle, px: int, py: int)
    ensures Intersect(a, b).Contains(px, py) <==> a.Contains(px, py) && b.Contains(px, py)
  {
    IntersectEdges(a, b);
  }

  /** Rectangles that only share an edge intersect in a zero-width strip, not in Empty. */
  lemma IntersectTouching()
    ensures Intersect(Rectangle(0, 0, 1, 1), Rectangle(1, 0, 1, 1)) == Rectangle(1, 0, 0, 1)
    ensures Rectangle(1, 0, 0, 1) != Empty
    ensures !Rectangle(0, 0, 1, 1).IntersectsWith(Rectangle(1, 0, 1, 1))
  {
    assert Rectangle(0, 0, 1, 1).Right() == 1 by { WrapInRange(1); }
    assert Rectangle(1, 0, 1, 1).Right() == 2 by { WrapInRange(2); }
    assert Rectangle(0, 0, 1, 1).Bottom() == 1 by { WrapInRange(1); }
    assert Rectangle(1, 0, 1, 1).Bottom() == 1 by { WrapInRange(1); }
    WrapInRange(0);
  }

  /** `IntersectsWith` is symmetric and implies the inclusive test. */
  lemma IntersectsWithSymmetric(a: Rectangle, b: Rectangle)
    ensures a.IntersectsWith(b) <==> b.IntersectsWith(a)
    ensures a.IntersectsWith(b) ==> a.IntersectsWithInclusive(b)
  {
  }

  /** Rectangles sharing a point intersect (strictly). */
  lemma CommonPointIntersects(a: Rectangle, b: Rectangle, px: int, py: int)
    requires a.Contains(px, py) && b.Contains(px, py)
    ensures a.IntersectsWith(b)
  {
  }

  /** `Union`'s edges are the outer edges of the two rectangles. */
  lemma UnionEdges(a: Rectangle, b: Rectangle)
    ensures Union(a, b).Left() == Min(a.Left(), b.Left()) && Union(a, b).Top() == Min(a.Top(), b.Top())
    ensures Union(a, b).Right() == Max(a.Right(), b.Right()) && Union(a, b).Bottom() == Max(a.Bottom(), b.Bottom())
  {
    FromLTRBEdges(Min(a.Left(), b.Left()), Min(a.Top(), b.Top()),
                  Max(a.Right(), b.Right()), Max(a.Bottom(), b.Bottom()));
  }

  /** `Union` bounds both arguments: every point of either lies in it. */
  lemma UnionContains(a: Rectangle, b: Rectangle, px: int, py: int)
    requires a.Contains(px, py) || b.Contains(px, py)
    ensures Union(a, b).Contains(px, py)
  {
    UnionEdges(a, b);
  }

  /** `Contains(Rectangle)` means every point of the inner rectangle is in the outer one. */
  lemma ContainsRectContainsPoints(outer: Rectangle, inner: Rectangle, px: int, py: int)
    requires outer.ContainsRect(inner) && inner.Contains(px, py)
    ensures outer.Contains(px, py)
  {
    EqualityOperators(inner, Intersect(outer, inner));
    IntersectContains(outer, inner, px, py);
  }

  /** One axis of `InflateEdges`: the far edge moves out by `d`. */
  lemma InflateFarEdge(lo: int, extent: int, d: int)
    ensures Wrap(Wrap(lo - d) + Wrap(extent + Wrap(d * 2))) == Wrap(Wrap(lo + extent) + d)
  {
    calc {
      Wrap(Wrap(lo - d) + Wrap(extent + Wrap(d * 2)));
      { WrapAdd(lo - d, Wrap(extent + Wrap(d * 2))); }
      Wrap(lo - d + Wrap(extent + Wrap(d * 2)));
      { WrapAdd(lo - d, extent + Wrap(d * 2)); }
      Wrap((lo - d + extent) + Wrap(d * 2));
      { WrapAdd(lo - d + extent, d * 2); }
      Wrap(lo - d + extent + d * 2);
      Wrap((lo + extent) + d);
      { WrapAdd(lo + extent, d); }
      Wrap(Wrap(lo + extent) + d);
    }
  }

  lemma InflateRight(rect: Rectangle, w: Int32, h: Int32)
    ensures rect.Inflate(w, h).Right() == Wrap(rect.Right() + w)
  {
    InflateFarEdge(rect.x, rect.width, w);
  }

  lemma InflateBottom(rect: Rectangle, w: Int32, h: Int32)
    ensures rect.Inflate(w, h).Bottom() == Wrap(rect.Bottom() + h)
  {
    InflateFarEdge(rect.y, rect.height, h);
  }

  /** Inflating moves every edge outward by the given amount. */
  lemma InflateEdges(rect: Rectangle, w: Int32, h: Int32)
    ensures rect.Inflate(w, h).Left() == Wrap(rect.Left() - w)
    ensures rect.Inflate(w, h).Top() == Wrap(rect.Top() - h)
    ensures rect.Inflate(w, h).Right() == Wrap(rect.Right() + w)
    ensures rect.Inflate(w, h).Bottom() == Wrap(rect.Bottom() + h)
  {
    InflateRight(rect, w, h);
    InflateBottom(rect, w, h);
  }

  /** The near edge of one axis of `InflateUndone`. */
  lemma InflateNearUndone(lo: Int32, d: int)
    ensures Wrap(Wrap(lo - d) - Neg(d)) == lo
  {
    calc {
      Wrap(Wrap(lo - d) - Neg(d));
      { WrapSub(lo - d, Neg(d)); }
      Wrap(lo - d - Neg(d));
      { WrapSub(lo - d, -d); }
      Wrap(lo - d - -d);
      { assert lo - d - -d == lo; }
      Wrap(lo);
      { WrapInRange(lo); }
      lo;
    }
  }

  /** The extent of one axis of `InflateUndone`. */
  lemma InflateExtentUndone(extent: Int32, d: int)
    ensures Wrap(Wrap(extent + Wrap(d * 2)) + Wrap(Neg(d) * 2)) == extent
  {
    calc {
      Wrap(Wrap(extent + Wrap(d * 2)) + Wrap(Neg(d) * 2));
      { WrapAdd(extent + Wrap(d * 2), Wrap(Neg(d) * 2)); }
      Wrap(extent + Wrap(d * 2) + Wrap(Neg(d) * 2));
      { WrapMul(-d, 2); }
      Wrap(extent + Wrap(d * 2) + Wrap(-d * 2));
      { WrapAdd(extent + Wrap(d * 2), -d * 2); }
      Wrap(extent + Wrap(d * 2) + -d * 2);
      { WrapAdd(extent + -d * 2, d * 2); }
      Wrap(extent + d * 2 + -d * 2);
      { assert extent + d * 2 + -d * 2 == extent; }
      Wrap(extent);
      { WrapInRange(extent); }
      extent;
    }
  }

  lemma InflateUndoneX(rect: Rectangle, w: Int32, h: Int32)
    ensures rect.Inflate(w, h).Inflate(Neg(w), Neg(h)).x == rect.x
  {
    InflateNearUndone(rect.x, w);
  }

  lemma InflateUndoneY(rect: Rectangle, w: Int32, h: Int32)
    ensures rect.Inflate(w, h).Inflate(Neg(w), Neg(h)).y == rect.y
  {
    InflateNearUndone(rect.y, h);
  }

  lemma InflateUndoneWidth(rect: Rectangle, w: Int32, h: Int32)
    ensures rect.Inflate(w, h).Inflate(Neg(w), Neg(h)).width == rect.width
  {
    InflateExtentUndone(rect.width, w);
  }

  lemma InflateUndoneHeight(rect: Rectangle, w: Int32, h: Int32)
    ensures rect.Inflate(w, h).Inflate(Neg(w), Neg(h)).height == rect.height
  {
    InflateExtentUndone(rect.height, h);
  }

  /** Inflating by the negated amounts undoes an inflation. */
  lemma InflateUndone(rect: Rectangle, w: Int32, h: Int32)
    ensures rect.Inflate(w, h).Inflate(Neg(w), Neg(h)) == rect
  {
    InflateUndoneX(rect, w, h);
    InflateUndoneY(rect, w, h);
    InflateUndoneWidth(rect, w, h);
    InflateUndoneHeight(rect, w, h);
  }

  /** The static `Inflate` inflates a copy: same result as the instance form on that value. */
  lemma InflateCopyIsInflate(rect: Rectangle, w: Int32, h: Int32)
    ensures InflateCopy(rect, w, h) == rect.Inflate(w, h)
  {
  }

  lemma OffsetAxisUndone(v: Int32, d: int)
    ensures Wrap(Wrap(v + d) + Neg(d)) == v
  {
    calc {
      Wrap(Wrap(v + d) + Neg(d));
      { WrapAdd(v + d, Neg(d)); }
      Wrap(v + d + Neg(d));
      { WrapAdd(v + d, -d); }
      Wrap(v + d + -d);
      v;
    }
  }

  /** Offsetting by the negated amounts undoes an offset. */
  lemma OffsetUndone(rect: Rectangle, dx: Int32, dy: Int32)
    ensures rect.Offset(dx, dy).Offset(Neg(dx), Neg(dy)) == rect
  {
    OffsetAxisUndone(rect.x, dx);
    OffsetAxisUndone(rect.y, dy);
  }
}

/** Axis-aligned rectangles of `geometry.rs`, over exact arithmetic. */
module Geometry {
  import opened Common

  datatype Point = Point(x: real, y: real) {
    function Min(other: Point): Point {
      Point(MinReal(x, other.x), MinReal(y, other.y))
    }

    function Max(other: Point): Point {
      Point(MaxReal(x, other.x), MaxReal(y, other.y))
    }
  }

  datatype Size = Size(width: real, height: real)

  /** Width and height may be zero or negative: the source does not exclude it. */
  datatype Bounds = Bounds(origin: Point, size: Size) {
    static function FromCorners(topLeft: Point, bottomRight: Point): Bounds {
      Bounds(topLeft, Size(bottomRight.x - topLeft.x, bottomRight.y - topLeft.y))
    }

    function BottomRight(): Point {
      Point(origin.x + size.width, origin.y + size.height)
    }

    predicate Intersects(other: Bounds) {
      && origin.x < other.BottomRight().x
      && BottomRight().x > other.origin.x
      && origin.y < other.BottomRight().y
      && BottomRight().y > other.origin.y
    }

    function Union(other: Bounds): Bounds {
      FromCorners(origin.Min(other.origin), BottomRight().Max(other.BottomRight()))
    }

    function HalfPerimeter(): real {
      size.width + size.height
    }

    /** The sides as four numbers which a union makes smaller and enclosing makes no larger. */
    function Edge(s: Side): real {
      match s
      case Left => origin.x
      case Top => origin.y
      case Right => -BottomRight().x
      case Bottom => -BottomRight().y
    }
  }

  datatype Side = Left | Top | Right | Bottom

  ghost predicate Encloses(outer: Bounds, inner: Bounds) {
    forall s: Side :: outer.Edge(s) <= inner.Edge(s)
  }

  /** The union is the least box around both operands, side by side. */
  lemma UnionEdge(a: Bounds, b: Bounds, s: Side)
    ensures a.Union(b).Edge(s) == MinReal(a.Edge(s), b.Edge(s))
  {
    match s {
      case Left =>
      case Top =>
      case Right =>
      case Bottom =>
    }
  }

  lemma UnionIsLeastEnclosing(a: Bounds, b: Bounds)
    ensures Encloses(a.Union(b), a) && Encloses(a.Union(b), b)
    ensures forall c: Bounds :: Encloses(c, a) && Encloses(c, b) ==> Encloses(c, a.Union(b))
  {
    forall s: Side
      ensures a.Union(b).Edge(s) == MinReal(a.Edge(s), b.Edge(s))
    {
      UnionEdge(a, b, s);
    }
  }

  /** What makes spatial pruning sound: a query missing a box misses everything in the box. */
  lemma EnclosureKeepsIntersection(query: Bounds, outer: Bounds, inner: Bounds)
    requires Encloses(outer, inner)
    requires query.Intersects(inner)
    ensures query.Intersects(outer)
  {
    assert outer.Edge(Left) <= inner.Edge(Left);
    assert outer.Edge(Top) <= inner.Edge(Top);
    assert outer.Edge(Right) <= inner.Edge(Right);
    assert outer.Edge(Bottom) <= inner.Edge(Bottom);
  }

  /** `a` lies wholly to one side of `b`; they may touch. */
  ghost predicate Apart(a: Bounds, b: Bounds) {
    || a.BottomRight().x <= b.origin.x || b.BottomRight().x <= a.origin.x
    || a.BottomRight().y <= b.origin.y || b.BottomRight().y <= a.origin.y
  }

  /** Boxes of any size, empty and negative ones included, intersect exactly when neither lies to one side of the other. */
  lemma IntersectsUnlessApart(a: Bounds, b: Bounds)
    ensures a.Intersects(b) <==> !Apart(a, b)
  {
  }

  /** Half the perimeter is what the four sides say; a box around another with no longer perimeter is that box. */
  lemma HalfPerimeterOfEdges(outer: Bounds, inner: Bounds)
    ensures outer.HalfPerimeter() == -(outer.Edge(Left) + outer.Edge(Top) + outer.Edge(Right) + outer.Edge(Bottom))
    ensures Encloses(outer, inner) ==> inner.HalfPerimeter() <= outer.HalfPerimeter()
    ensures Encloses(outer, inner) && inner.HalfPerimeter() == outer.HalfPerimeter() ==> outer == inner
  {
    if Encloses(outer, inner) {
      assert outer.Edge(Left) <= inner.Edge(Left) && outer.Edge(Top) <= inner.Edge(Top);
      assert outer.Edge(Right) <= inner.Edge(Right) && outer.Edge(Bottom) <= inner.Edge(Bottom);
    }
  }

  ghost predicate StrictlyInside(p: Point, b: Bounds) {
    b.origin.x < p.x < b.BottomRight().x && b.origin.y < p.y < b.BottomRight().y
  }

  /** A number strictly between the larger lower end and the smaller upper end of two intervals. */
  function Between(lo1: real, lo2: real, hi1: real, hi2: real): real {
    (MaxReal(lo1, lo2) + MinReal(hi1, hi2)) / 2.0
  }

  /** Two boxes that are not empty intersect exactly when they share an interior point; touching is not enough. */
  lemma IntersectsIsOverlap(a: Bounds, b: Bounds)
    requires a.size.width > 0.0 && a.size.height > 0.0 && b.size.width > 0.0 && b.size.height > 0.0
    ensures a.Intersects(b) <==> exists p: Point :: StrictlyInside(p, a) && StrictlyInside(p, b)
  {
    if a.Intersects(b) {
      var p := Point(Between(a.origin.x, b.origin.x, a.BottomRight().x, b.BottomRight().x),
                     Between(a.origin.y, b.origin.y, a.BottomRight().y, b.BottomRight().y));
      assert StrictlyInside(p, a) && StrictlyInside(p, b);
    }
  }

  lemma IntersectsIsSymmetric(a: Bounds, b: Bounds)
    ensures a.Intersects(b) == b.Intersects(a)
  {
  }
}

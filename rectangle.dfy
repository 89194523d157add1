/** rectangle/rectangle.go: centring, growing and stretching rectangles with
    Go's image.Point and image.Rectangle arithmetic. */
module Rectangle {
  import opened Geom

  /** image.Point.Div: each coordinate divided by k, truncating. */
  function Div(p: Point, k: int): Point
    requires k != 0
  {
    Point(Quot(p.x, k), Quot(p.y, k))
  }

  /** Go's truncating remainder of a by 2, in -1 .. 1. */
  lemma QuotTwo(a: int)
    ensures -1 <= a - 2 * Quot(a, 2) <= 1
    ensures a >= 0 ==> 0 <= a - 2 * Quot(a, 2)
  {
  }

  /** MiddleCenter: a rectangle the size of inner, centred in outer. For
      sizes that are not negative, the margins on the two sides of each axis
      differ by at most one cell, and an inner that fits lies within outer. */
  function MiddleCenter(inner: Rect, outer: Rect): (r: Rect)
    ensures r.Size() == inner.Size()
    ensures inner.WellFormed() && outer.WellFormed() ==>
              -1 <= (outer.max.x - r.max.x) - (r.min.x - outer.min.x) <= 1 &&
              -1 <= (outer.max.y - r.max.y) - (r.min.y - outer.min.y) <= 1
    ensures inner.WellFormed() && inner.Dx() <= outer.Dx() && inner.Dy() <= outer.Dy() ==>
              outer.min.x <= r.min.x && r.max.x <= outer.max.x &&
              outer.min.y <= r.min.y && r.max.y <= outer.max.y
  {
    var osz := outer.Size();
    var isz := inner.Size();
    var corner := Div(osz, 2).Sub(Div(isz, 2)).Add(outer.min);
    QuotTwo(osz.x);
    QuotTwo(osz.y);
    QuotTwo(isz.x);
    QuotTwo(isz.y);
    Rect(corner, corner.Add(isz))
  }

  /** A rectangle centred in itself stays where it is. */
  lemma MiddleCenterSelf(r: Rect)
    ensures MiddleCenter(r, r) == r
  {
    var c := Div(r.Size(), 2).Sub(Div(r.Size(), 2)).Add(r.min);
    assert c == r.min;
  }

  /** Centring again in the same rectangle changes nothing. */
  lemma MiddleCenterIdempotent(inner: Rect, outer: Rect)
    ensures MiddleCenter(MiddleCenter(inner, outer), outer) == MiddleCenter(inner, outer)
  {
    var r := MiddleCenter(inner, outer);
    assert r.Size() == inner.Size();
  }

  /** Outset: Min moved by -(x, y) and Max by +(x, y), so that each side
      grows by twice the amount and, for amounts that are not negative, r
      lies inside. */
  function Outset(r: Rect, x: int, y: int): (o: Rect)
    ensures o.Dx() == r.Dx() + 2 * x && o.Dy() == r.Dy() + 2 * y
    ensures o.min.x + o.max.x == r.min.x + r.max.x && o.min.y + o.max.y == r.min.y + r.max.y
    ensures x >= 0 && y >= 0 ==> forall p: Point :: p.In(r) ==> p.In(o)
  {
    Rect(r.min.Sub(Point(x, y)), r.max.Add(Point(x, y)))
  }

  /** Outset by the opposite amounts undoes Outset. */
  lemma OutsetInverse(r: Rect, x: int, y: int)
    ensures Outset(Outset(r, x, y), -x, -y) == r
  {
  }

  /** Capture: r stretched so that the closed span [Min, Max] of each axis
      encloses pt. It never shrinks r, and each bound either stays or moves
      exactly to pt. */
  function Capture(r: Rect, pt: Point): (c: Rect)
    ensures c.min.x <= pt.x <= c.max.x && c.min.y <= pt.y <= c.max.y
    ensures c.min.x <= r.min.x && r.max.x <= c.max.x && c.min.y <= r.min.y && r.max.y <= c.max.y
    ensures (c.min.x == r.min.x || c.min.x == pt.x) && (c.max.x == r.max.x || c.max.x == pt.x)
    ensures (c.min.y == r.min.y || c.min.y == pt.y) && (c.max.y == r.max.y || c.max.y == pt.y)
  {
    var minX := if pt.x < r.min.x then pt.x else r.min.x;
    var maxX := if pt.x > r.max.x then pt.x else r.max.x;
    var minY := if pt.y < r.min.y then pt.y else r.min.y;
    var maxY := if pt.y > r.max.y then pt.y else r.max.y;
    Rect(Point(minX, minY), Point(maxX, maxY))
  }

  /** A point already within the closed span leaves r as it is. */
  lemma CaptureInside(r: Rect, pt: Point)
    requires r.min.x <= pt.x <= r.max.x && r.min.y <= pt.y <= r.max.y
    ensures Capture(r, pt) == r
  {
  }

  /** Capturing the same point twice is capturing it once. */
  lemma CaptureIdempotent(r: Rect, pt: Point)
    ensures Capture(Capture(r, pt), pt) == Capture(r, pt)
  {
    CaptureInside(Capture(r, pt), pt);
  }
}

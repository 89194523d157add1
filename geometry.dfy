/** geometry/geometry.go: the same centring and growing as rectangle.go,
    with the halving written as a scaling of points. */
module Geometry {
  import opened Geom
  import Rectangle

  /** scalePt: each coordinate multiplied by up, then divided by down,
      truncating toward zero. */
  function ScalePt(p: Point, up: int, down: int): (q: Point)
    requires down != 0
    ensures down == 1 ==> q == Point(p.x * up, p.y * up)
    ensures up >= 0 && down > 0 && p.x >= 0 && p.y >= 0 ==> q == Point(p.x * up / down, p.y * up / down)
  {
    Point(Quot(p.x * up, down), Quot(p.y * up, down))
  }

  /** Scaling by a half is image.Point.Div(2): negative odd coordinates
      round toward zero, so (-1, 3) becomes (0, 1). */
  lemma ScaleHalf(p: Point)
    ensures ScalePt(p, 1, 2) == Rectangle.Div(p, 2)
    ensures ScalePt(Point(-1, 3), 1, 2) == Point(0, 1)
  {
    assert Quot(-1, 2) == 0;
  }

  /** Truncating division is symmetric about zero. */
  lemma QuotNegate(a: int, b: int)
    requires b != 0
    ensures Quot(-a, b) == -Quot(a, b)
  {
  }

  /** The scaled negation of a point is the negation of the scaled point,
      which a flooring division would not give. */
  lemma ScaleNegate(p: Point, up: int, down: int)
    requires down != 0
    ensures ScalePt(Point(-p.x, -p.y), up, down) == Point(-ScalePt(p, up, down).x, -ScalePt(p, up, down).y)
  {
    var a, b := p.x * up, p.y * up;
    assert -p.x * up == -a && -p.y * up == -b;
    QuotNegate(a, down);
    QuotNegate(b, down);
  }

  /** MiddleCenter: inner's size at the centre of outer. */
  function MiddleCenter(inner: Rect, outer: Rect): (r: Rect)
    ensures r.Size() == inner.Size()
  {
    var osz := outer.Size();
    var isz := inner.Size();
    var corner := ScalePt(osz, 1, 2).Sub(ScalePt(isz, 1, 2)).Add(outer.min);
    Rect(corner, corner.Add(isz))
  }

  /** The two packages centre alike, so geometry's MiddleCenter has every
      property proved of rectangle's. */
  lemma MiddleCenterAgrees(inner: Rect, outer: Rect)
    ensures MiddleCenter(inner, outer) == Rectangle.MiddleCenter(inner, outer)
  {
    ScaleHalf(outer.Size());
    ScaleHalf(inner.Size());
  }

  /** A rectangle centred in itself stays where it is. */
  lemma MiddleCenterSelf(r: Rect)
    ensures MiddleCenter(r, r) == r
  {
    MiddleCenterAgrees(r, r);
    Rectangle.MiddleCenterSelf(r);
  }

  /** Outset: Min moved by -(x, y) and Max by +(x, y). */
  function Outset(r: Rect, x: int, y: int): (o: Rect)
    ensures o == Rectangle.Outset(r, x, y)
  {
    Rect(r.min.Sub(Point(x, y)), r.max.Add(Point(x, y)))
  }

  /** Outset by nothing changes nothing, and the size grows by twice the
      amounts. */
  lemma OutsetZero(r: Rect, x: int, y: int)
    ensures Outset(r, 0, 0) == r
    ensures Outset(r, x, y).Size() == Point(r.Dx() + 2 * x, r.Dy() + 2 * y)
  {
    Rectangle.OutsetInverse(r, 0, 0);
  }
}

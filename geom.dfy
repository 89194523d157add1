/** Integer points and half-open rectangles with the semantics of Go's
    image.Point and image.Rectangle, plus Go's truncating integer division. */
module Geom {

  datatype Point = Point(x: int, y: int) {
    function Add(q: Point): Point { Point(x + q.x, y + q.y) }
    function Sub(q: Point): Point { Point(x - q.x, y - q.y) }
    /** image.Point.In: half-open containment. */
    predicate In(r: Rect) { r.min.x <= x < r.max.x && r.min.y <= y < r.max.y }
  }

  const Origin := Point(0, 0)

  datatype Rect = Rect(min: Point, max: Point) {
    function Dx(): int { max.x - min.x }
    function Dy(): int { max.y - min.y }
    function Size(): Point { max.Sub(min) }
    /** image.Rectangle.Empty: no point lies inside. */
    predicate Empty() { min.x >= max.x || min.y >= max.y }
    predicate WellFormed() { min.x <= max.x && min.y <= max.y }
    function Add(p: Point): Rect { Rect(min.Add(p), max.Add(p)) }
    ghost predicate Within(s: Rect) { forall p: Point :: p.In(this) ==> p.In(s) }

    /** image.Rectangle.Intersect: the largest rectangle inside both, or the
        zero rectangle when they do not overlap. */
    function Intersect(s: Rect): (t: Rect)
      ensures forall p: Point {:trigger p.In(t)} :: p.In(t) <==> p.In(this) && p.In(s)
      ensures t.Empty() ==> t == ZR
      ensures t.WellFormed()
    {
      var r := Rect(Point(MaxI(min.x, s.min.x), MaxI(min.y, s.min.y)),
                    Point(MinI(max.x, s.max.x), MinI(max.y, s.max.y)));
      if r.Empty() then ZR else r
    }
  }

  /** A rectangle as Intersect returns it: in order, and ZR when empty. */
  predicate Normal(r: Rect) { r.WellFormed() && (r.Empty() ==> r == ZR) }

  /** Two normal rectangles holding the same points are the same rectangle. */
  lemma SamePoints(a: Rect, b: Rect)
    requires Normal(a) && Normal(b)
    requires forall p: Point :: p.In(a) <==> p.In(b)
    ensures a == b
  {
    if !a.Empty() {
      assert a.min.In(a) && Point(a.max.x - 1, a.max.y - 1).In(a);
      if b.Empty() {
        assert false;
      }
      assert b.min.In(b) && Point(b.max.x - 1, b.max.y - 1).In(b);
    } else if !b.Empty() {
      assert b.min.In(b);
    }
  }

  /** Intersecting a normal rectangle with one that contains it changes nothing. */
  lemma IntersectInside(r: Rect, s: Rect)
    requires Normal(r) && r.Within(s)
    ensures r.Intersect(s) == r
  {
    SamePoints(r.Intersect(s), r);
  }

  /** image.ZR */
  const ZR := Rect(Origin, Origin)

  function MaxI(a: int, b: int): int { if a < b then b else a }
  function MinI(a: int, b: int): int { if a > b then b else a }

  /** image.Rect: the rectangle with the given corners, swapped into order. */
  function Canon(x0: int, y0: int, x1: int, y1: int): (r: Rect)
    ensures r.WellFormed()
    ensures (r.min.x, r.max.x) == (x0, x1) || (r.min.x, r.max.x) == (x1, x0)
    ensures (r.min.y, r.max.y) == (y0, y1) || (r.min.y, r.max.y) == (y1, y0)
  {
    Rect(Point(MinI(x0, x1), MinI(y0, y1)), Point(MaxI(x0, x1), MaxI(y0, y1)))
  }

  /** Go's integer division, which truncates toward zero. */
  function Quot(a: int, b: int): (q: int)
    requires b != 0
    ensures a >= 0 && b > 0 ==> q == a / b
  {
    if b > 0 then (if a >= 0 then a / b else -((-a) / b))
    else (if a >= 0 then -(a / (-b)) else (-a) / (-b))
  }
}

/** cmd/earthgif: where the animated globe goes on the terminal. */
module Earthgif {
  import opened Geom

  /** The picture's size after doubling its width for the terminal cell's
      aspect and scaling down, first to outer's width, then to its height. */
  function Projected(inner: Point, outer: Point): (s: Point)
    requires outer.x >= 0 && outer.y >= 0
  {
    var x0 := inner.x * 2;
    var p1 := if x0 > outer.x then Point(outer.x, Quot(inner.y * outer.x, x0)) else Point(x0, inner.y);
    if p1.y > outer.y then Point(Quot(p1.x * outer.y, p1.y), outer.y) else p1
  }

  /** projectCenterPreserveAspect: the projected size centred in a display
      of size outer, as image.Rect builds it (swapping reversed corners). */
  function ProjectCenterPreserveAspect(inner: Point, outer: Point): (r: Rect)
    requires outer.x >= 0 && outer.y >= 0
    ensures r.WellFormed()
  {
    var s := Projected(inner, outer);
    var offset := Point(Quot(outer.x, 2) - Quot(s.x, 2), Quot(outer.y, 2) - Quot(s.y, 2));
    Canon(offset.x, offset.y, s.x + offset.x, s.y + offset.y)
  }

  /** Scaling a by b/c with b < c does not grow a. */
  lemma ScaleDown(a: int, b: int, c: int)
    requires 0 <= a && 0 <= b < c
    ensures 0 <= Quot(a * b, c) <= a
  {
    assert a * b <= a * c;
    assert (a * c) / c == a;
    assert 0 <= a * b;
  }

  /** For a picture of non-negative size, the projection keeps within the
      display; when the doubled picture fits it keeps its size exactly, and
      when it does not, one side fills the display. */
  lemma ProjectFits(inner: Point, outer: Point)
    requires 0 <= inner.x && 0 <= inner.y && 0 <= outer.x && 0 <= outer.y
    ensures var s := Projected(inner, outer);
      0 <= s.x <= outer.x && 0 <= s.y <= outer.y &&
      (2 * inner.x <= outer.x && inner.y <= outer.y ==> s == Point(2 * inner.x, inner.y)) &&
      (2 * inner.x > outer.x || inner.y > outer.y ==> s.x == outer.x || s.y == outer.y)
  {
    var x0 := inner.x * 2;
    if x0 > outer.x {
      ScaleDown(inner.y, outer.x, x0);
    }
    var p1 := if x0 > outer.x then Point(outer.x, Quot(inner.y * outer.x, x0)) else Point(x0, inner.y);
    if p1.y > outer.y {
      ScaleDown(p1.x, outer.y, p1.y);
    }
  }

  /** For a picture of non-negative size, the rectangle has the projected
      size and lies within the display, with margins that differ by at most
      one cell. */
  lemma ProjectCentered(inner: Point, outer: Point)
    requires 0 <= inner.x && 0 <= inner.y && 0 <= outer.x && 0 <= outer.y
    ensures var r := ProjectCenterPreserveAspect(inner, outer);
      r.Size() == Projected(inner, outer) &&
      0 <= r.min.x && r.max.x <= outer.x && 0 <= r.min.y && r.max.y <= outer.y &&
      -1 <= (outer.x - r.max.x) - r.min.x <= 1 && -1 <= (outer.y - r.max.y) - r.min.y <= 1
  {
    ProjectFits(inner, outer);
  }
}

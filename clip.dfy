/** internal.Clip: clipping a drawing rectangle against the destination, the
    source and an optional mask, moving the source and mask points with it. */
module Internal {
  import opened Geom

  /** The optional mask: its bounds and the point aligned with r.min. */
  datatype Mask = NoMask | Mask(rect: Rect, mp: Point)

  datatype Clipped = Clipped(r: Rect, sp: Point, mask: Mask)

  /** The mask point moved by d. */
  function Shift(m: Mask, d: Point): Mask
  {
    match m
    case NoMask => NoMask
    case Mask(rect, mp) => Mask(rect, mp.Add(d))
  }

  /** internal.Clip. A point stays in r exactly when it was in r, in dst, and
      the point it reads from src (and from the mask) lies inside; the source
      and mask points keep their offset from r.min. */
  function Clip(dst: Rect, r: Rect, src: Rect, sp: Point, mask: Mask): (c: Clipped)
    ensures Normal(c.r)
    ensures forall p: Point {:trigger p.In(c.r)} :: p.In(c.r) <==>
              p.In(r) && p.In(dst) && p.Add(sp.Sub(r.min)).In(src) &&
              (mask.Mask? ==> p.Add(mask.mp.Sub(r.min)).In(mask.rect))
    ensures c.sp.x - c.r.min.x == sp.x - r.min.x && c.sp.y - c.r.min.y == sp.y - r.min.y
    ensures c.mask.Mask? <==> mask.Mask?
    ensures c.mask.Mask? ==>
              c.mask.rect == mask.rect &&
              c.mask.mp.x - c.r.min.x == mask.mp.x - r.min.x && c.mask.mp.y - c.r.min.y == mask.mp.y - r.min.y
  {
    var orig := r.min;
    var r2 := ClipRect(dst, r, src, sp, mask);
    var d := r2.min.Sub(orig);
    if d == Origin then Clipped(r2, sp, mask)
    else Clipped(r2, sp.Add(d), Shift(mask, d))
  }

  /** The rectangle Clip computes: r against dst, then against src and the
      mask each moved so that its point lines up with r.min. */
  function ClipRect(dst: Rect, r: Rect, src: Rect, sp: Point, mask: Mask): (r2: Rect)
    ensures Normal(r2)
    ensures forall p: Point {:trigger p.In(r2)} :: p.In(r2) <==>
              p.In(r) && p.In(dst) && p.Add(sp.Sub(r.min)).In(src) &&
              (mask.Mask? ==> p.Add(mask.mp.Sub(r.min)).In(mask.rect))
  {
    var orig := r.min;
    InShifted(src, orig, sp);
    var r1 := r.Intersect(dst).Intersect(src.Add(orig.Sub(sp)));
    if mask.Mask? then
      InShifted(mask.rect, orig, mask.mp);
      r1.Intersect(mask.rect.Add(orig.Sub(mask.mp)))
    else r1
  }

  /** A point lies in s moved by a - b exactly when the point moved by b - a
      lies in s. */
  lemma InShifted(s: Rect, a: Point, b: Point)
    ensures forall p: Point {:trigger p.In(s.Add(a.Sub(b)))} :: p.In(s.Add(a.Sub(b))) <==> p.Add(b.Sub(a)).In(s)
  {
  }

  /** Clipping what Clip returned changes nothing. */
  lemma ClipIdempotent(dst: Rect, r: Rect, src: Rect, sp: Point, mask: Mask)
    ensures var c := Clip(dst, r, src, sp, mask);
            Clip(dst, c.r, src, c.sp, c.mask) == c
  {
    ClipAgainRect(dst, r, src, sp, mask);
  }

  /** Clipping again keeps the clipped rectangle. */
  lemma ClipAgainRect(dst: Rect, r: Rect, src: Rect, sp: Point, mask: Mask)
    ensures var c := Clip(dst, r, src, sp, mask);
            Clip(dst, c.r, src, c.sp, c.mask).r == c.r
  {
    var c := Clip(dst, r, src, sp, mask);
    var c2 := Clip(dst, c.r, src, c.sp, c.mask);
    forall p: Point
      ensures p.In(c2.r) <==> p.In(c.r)
    {
      ClipAgainPoint(dst, r, src, sp, mask, p);
    }
    SamePoints(c2.r, c.r);
  }

  /** Clipping again keeps each point of the clipped rectangle, and adds none. */
  lemma ClipAgainPoint(dst: Rect, r: Rect, src: Rect, sp: Point, mask: Mask, p: Point)
    ensures var c := Clip(dst, r, src, sp, mask);
            p.In(Clip(dst, c.r, src, c.sp, c.mask).r) <==> p.In(c.r)
  {
    var c := Clip(dst, r, src, sp, mask);
    assert c.sp.Sub(c.r.min) == sp.Sub(r.min);
    if mask.Mask? {
      assert c.mask.mp.Sub(c.r.min) == mask.mp.Sub(r.min);
    }
  }

  /** When r.min does not move, neither do the points. */
  lemma ClipKeepsPoints(dst: Rect, r: Rect, src: Rect, sp: Point, mask: Mask)
    requires Clip(dst, r, src, sp, mask).r.min == r.min
    ensures Clip(dst, r, src, sp, mask).sp == sp
    ensures Clip(dst, r, src, sp, mask).mask == mask
  {
  }
}

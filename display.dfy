/** The display of display/display.go: three aligned planes over one
    rectangle (the text of each cell, its foreground colour and its
    background colour), the cell operations and the Src compositing Draw.
    Each colour plane is an image.RGBA, laid out like a textile with one
    RGBA value per cell. */
module Display {
  import opened Geom
  import opened Color
  import Textile
  import opened Internal

  /** One cell: its text and its foreground and background colours. */
  datatype Cell = Cell(text: string, fg: RGBA, bg: RGBA)

  /** What every cell of a new display, and every point outside a display,
      reads as. */
  const BlankCell := Cell("", Transparent, Transparent)

  class Display {
    var text: Textile.Textile<string>
    var fg: Textile.Textile<RGBA>
    var bg: Textile.Textile<RGBA>
    var rect: Rect

    ghost predicate Valid()
      reads this, text, fg, bg
    {
      text.Valid() && fg.Valid() && bg.Valid() &&
      text.rect == rect && fg.rect == rect && bg.rect == rect &&
      text.blank == "" && fg.blank == Transparent && bg.blank == Transparent &&
      fg.cells != bg.cells
    }

    /** At: the cell at (x, y). */
    function At(x: int, y: int): (c: Cell)
      reads this, text, fg, bg, text.cells, fg.cells, bg.cells
      requires Valid()
      ensures !Point(x, y).In(rect) ==> c == BlankCell
    {
      Cell(text.At(x, y), fg.At(x, y), bg.At(x, y))
    }

    /** New: every cell blank, with the given rectangle. */
    constructor New(r: Rect)
      requires r.WellFormed()
      ensures Valid() && rect == r
      ensures fresh(text) && fresh(fg) && fresh(bg) && fresh(text.cells) && fresh(fg.cells) && fresh(bg.cells)
      ensures forall x: int, y: int :: At(x, y) == BlankCell
    {
      bg := new Textile.Textile<RGBA>.New(r, Transparent);
      fg := new Textile.Textile<RGBA>.New(r, Transparent);
      text := new Textile.Textile<string>.New(r, "");
      rect := r;
    }

    /** A display over given planes. */
    constructor Of(text: Textile.Textile<string>, fg: Textile.Textile<RGBA>, bg: Textile.Textile<RGBA>, r: Rect)
      ensures this.text == text && this.fg == fg && this.bg == bg && rect == r
    {
      this.text, this.fg, this.bg, rect := text, fg, bg, r;
    }

    /** The storage frame of the cell operations: every storage cell of the
        three planes that no point of the rectangle occupies still holds
        what the copies T0, F0 and B0 held. */
    ghost predicate StorageKept(T0: seq<string>, F0: seq<RGBA>, B0: seq<RGBA>)
      reads this, text, fg, bg, text.cells, fg.cells, bg.cells
    {
      Textile.OutsideKept(text, T0) && Textile.OutsideKept(fg, F0) && Textile.OutsideKept(bg, B0)
    }

    /** Set: overwrites the cell at (x, y); a no-op outside the rectangle. */
    method Set(x: int, y: int, t: string, f: RGBA, b: RGBA)
      requires Valid()
      modifies text.cells, fg.cells, bg.cells
      ensures Valid()
      ensures StorageKept(old(text.cells[..]), old(fg.cells[..]), old(bg.cells[..]))
      ensures forall px: int, py: int {:trigger At(px, py)} ::
                At(px, py) == if px == x && py == y && Point(px, py).In(rect) then Cell(t, f, b) else old(At(px, py))
    {
      text.Set(x, y, t);
      fg.Set(x, y, f);
      bg.Set(x, y, b);
    }

    /** Fill: every cell of r inside the display becomes (t, f, b). */
    method Fill(r: Rect, t: string, f: RGBA, b: RGBA)
      requires Valid()
      modifies text.cells, fg.cells, bg.cells
      ensures Valid()
      ensures StorageKept(old(text.cells[..]), old(fg.cells[..]), old(bg.cells[..]))
      ensures forall px: int, py: int {:trigger At(px, py)} ::
                At(px, py) == if Point(px, py).In(r.Intersect(rect)) then Cell(t, f, b) else old(At(px, py))
    {
      FillRows(r.Intersect(rect), t, f, b);
    }

    /** The outer loop of Fill, over a rectangle of the display. */
    method FillRows(s: Rect, t: string, f: RGBA, b: RGBA)
      requires Valid() && s.WellFormed() && s.Within(rect)
      modifies text.cells, fg.cells, bg.cells
      ensures Valid()
      ensures StorageKept(old(text.cells[..]), old(fg.cells[..]), old(bg.cells[..]))
      ensures forall px: int, py: int {:trigger At(px, py)} ::
                At(px, py) == if Point(px, py).In(s) then Cell(t, f, b) else old(At(px, py))
    {
      for y := s.min.y to s.max.y
        invariant Valid()
        invariant StorageKept(old(text.cells[..]), old(fg.cells[..]), old(bg.cells[..]))
        invariant forall px: int, py: int {:trigger At(px, py)} ::
                    At(px, py) == if Point(px, py).In(s) && py < y then Cell(t, f, b) else old(At(px, py))
      {
        FillRow(s, y, t, f, b);
      }
    }

    /** The inner loop of Fill: row y of s. */
    method FillRow(s: Rect, y: int, t: string, f: RGBA, b: RGBA)
      requires Valid() && s.WellFormed()
      modifies text.cells, fg.cells, bg.cells
      ensures Valid()
      ensures StorageKept(old(text.cells[..]), old(fg.cells[..]), old(bg.cells[..]))
      ensures forall px: int, py: int {:trigger At(px, py)} ::
                At(px, py) == if py == y && s.min.x <= px < s.max.x && Point(px, py).In(rect) then Cell(t, f, b)
                              else old(At(px, py))
    {
      for x := s.min.x to s.max.x
        invariant Valid()
        invariant StorageKept(old(text.cells[..]), old(fg.cells[..]), old(bg.cells[..]))
        invariant forall px: int, py: int {:trigger At(px, py)} ::
                    At(px, py) == if py == y && s.min.x <= px < x && Point(px, py).In(rect) then Cell(t, f, b)
                                  else old(At(px, py))
      {
        Set(x, y, t, f, b);
      }
    }

    /** Clear: every cell of r inside the display becomes blank. */
    method Clear(r: Rect)
      requires Valid()
      modifies text.cells, fg.cells, bg.cells
      ensures Valid()
      ensures StorageKept(old(text.cells[..]), old(fg.cells[..]), old(bg.cells[..]))
      ensures forall px: int, py: int {:trigger At(px, py)} ::
                At(px, py) == if Point(px, py).In(r.Intersect(rect)) then BlankCell else old(At(px, py))
    {
      Fill(r, "", Transparent, Transparent);
    }

    /** SubDisplay: the part of the display inside r, sharing its storage
        plane by plane (fresh empty planes when nothing of r is inside). */
    method SubDisplay(r: Rect) returns (sub: Display)
      requires Valid()
      ensures fresh(sub) && sub.Valid() && sub.rect == r.Intersect(rect)
      ensures !sub.rect.Empty() ==> Within(sub, this)
      ensures forall px: int, py: int {:trigger sub.At(px, py)} :: Point(px, py).In(sub.rect) ==> sub.At(px, py) == At(px, py)
    {
      var s := r.Intersect(rect);
      var b := bg.SubText(s);
      var f := fg.SubText(s);
      var t := text.SubText(s);
      sub := new Display.Of(t, f, b, s);
    }
  }

  /** sub is a window onto parent's storage: each plane shares the
      corresponding plane of parent at the same coordinates. */
  ghost predicate Within(sub: Display, parent: Display)
    reads sub, parent, sub.text, sub.fg, sub.bg, parent.text, parent.fg, parent.bg
  {
    Textile.Shares(sub.text, parent.text) && Textile.Shares(sub.fg, parent.fg) && Textile.Shares(sub.bg, parent.bg)
  }

  /** Whatever has been written since, a window reads what its parent reads
      inside the window's rectangle. */
  lemma WithinAt(sub: Display, parent: Display)
    requires sub.Valid() && parent.Valid() && Within(sub, parent)
    ensures forall x: int, y: int :: Point(x, y).In(sub.rect) ==> sub.At(x, y) == parent.At(x, y)
  {
    Textile.SharedAt(sub.text, parent.text);
    Textile.SharedAt(sub.fg, parent.fg);
    Textile.SharedAt(sub.bg, parent.bg);
  }

  /** What the storage frame of a window's cell operations tells its
      parent: outside the window's rectangle the parent reads what the
      storage copies T0, F0 and B0 held. */
  lemma KeptOutsideWindow(sub: Display, parent: Display, T0: seq<string>, F0: seq<RGBA>, B0: seq<RGBA>)
    requires sub.Valid() && parent.Valid() && Within(sub, parent) && sub.StorageKept(T0, F0, B0)
    ensures forall x: int, y: int :: !Point(x, y).In(sub.rect) ==>
              parent.At(x, y) == Cell(Textile.Snap(parent.text, T0, x, y), Textile.Snap(parent.fg, F0, x, y), Textile.Snap(parent.bg, B0, x, y))
  {
    Textile.KeptOutsideView(sub.text, parent.text, T0);
    Textile.KeptOutsideView(sub.fg, parent.fg, F0);
    Textile.KeptOutsideView(sub.bg, parent.bg, B0);
  }

  /** No plane of one display shares storage with a plane of the other. */
  ghost predicate Separate(d: Display, e: Display)
    reads d, e, d.text, d.fg, d.bg, e.text, e.fg, e.bg
  {
    d.text.cells != e.text.cells && d.fg.cells != e.fg.cells && d.fg.cells != e.bg.cells &&
    d.bg.cells != e.fg.cells && d.bg.cells != e.bg.cells
  }

  /** The rectangle and source point Draw works with once clipped. */
  function DrawClip(dst: Display, r: Rect, src: Display, sp: Point): Clipped
    reads dst, src
  {
    Clip(dst.rect, r, src.rect, sp, NoMask)
  }

  /** Drawing a display onto itself: the background after the first pass,
      whose source is the storage copy B of the background. */
  ghost function BgAfterPass1(d: Display, a: Rect, sp: Point, B: seq<RGBA>, x: int, y: int): (c: RGBA)
    reads d, d.bg
    requires d.bg.Valid() && |B| == d.bg.cells.Length
    ensures sp == a.min ==> c == Textile.Snap(d.bg, B, x, y)
  {
    if Point(x, y).In(a) then Textile.Snap(d.bg, B, sp.x + (x - a.min.x), sp.y + (y - a.min.y))
    else Textile.Snap(d.bg, B, x, y)
  }

  /** Drawing a display onto itself: the foreground after the second pass,
      which copies the background as the first pass left it. */
  ghost function FgAfterPass2(d: Display, a: Rect, sp: Point, F: seq<RGBA>, B: seq<RGBA>, x: int, y: int): (c: RGBA)
    reads d, d.fg, d.bg
    requires d.fg.Valid() && d.bg.Valid() && |F| == d.fg.cells.Length && |B| == d.bg.cells.Length
    ensures sp == a.min && Point(x, y).In(a) ==> c == Textile.Snap(d.bg, B, x, y)
  {
    if Point(x, y).In(a) then BgAfterPass1(d, a, sp, B, sp.x + (x - a.min.x), sp.y + (y - a.min.y))
    else Textile.Snap(d.fg, F, x, y)
  }

  /** Drawing a display onto itself: what the foreground storage C holds
      after the third pass, in terms of the storage copies DF and DB of the
      two colour planes before the first. */
  ghost predicate SelfFg(d: Display, C: seq<RGBA>, a: Rect, sp: Point, DF: seq<RGBA>, DB: seq<RGBA>)
    reads d, d.fg, d.bg
    requires d.fg.Valid() && d.bg.Valid() && |C| == |DF| == d.fg.cells.Length && |DB| == d.bg.cells.Length
  {
    forall x: int, y: int {:trigger Textile.Snap(d.fg, C, x, y)} :: Textile.Snap(d.fg, C, x, y) ==
      if Point(x, y).In(a) then FgAfterPass2(d, a, sp, DF, DB, sp.x + (x - a.min.x), sp.y + (y - a.min.y))
      else Textile.Snap(d.fg, DF, x, y)
  }

  /** The state Draw leaves, over the clipped rectangle a and source point
      sp, in terms of the storage copies of the six planes before it:
      nothing outside a changes; the background is the source background;
      with separate storage the foreground is the source foreground; drawn
      onto itself the foreground is what the second pass left; when the
      text copy reads ahead of its writes, the non-empty source text lies
      over the old text; and drawn onto itself the text is what the live
      copy leaves, reads of cells already written included. */
  ghost predicate Drawn(dst: Display, a: Rect, src: Display, sp: Point,
                        DT: seq<string>, DF: seq<RGBA>, DB: seq<RGBA>, ST: seq<string>, SF: seq<RGBA>, SB: seq<RGBA>)
    reads dst, dst.text, dst.fg, dst.bg, dst.text.cells, dst.fg.cells, dst.bg.cells, src, src.text, src.fg, src.bg
    requires dst.Valid() && src.Valid()
    requires |DT| == dst.text.cells.Length && |DF| == dst.fg.cells.Length && |DB| == dst.bg.cells.Length
    requires |ST| == src.text.cells.Length && |SF| == src.fg.cells.Length && |SB| == src.bg.cells.Length
  {
    Textile.Kept(dst.text, a, DT) && Textile.Kept(dst.fg, a, DF) && Textile.Kept(dst.bg, a, DB) &&
    Textile.Copied(dst.bg, a, src.bg, sp, false, DB, SB) &&
    (Separate(dst, src) ==> Textile.Copied(dst.fg, a, src.fg, sp, false, DF, SF)) &&
    (dst == src ==>
       forall px: int, py: int {:trigger dst.fg.At(px, py)} :: Point(px, py).In(a) ==>
         dst.fg.At(px, py) == FgAfterPass2(dst, a, sp, DF, DB, sp.x + (px - a.min.x), sp.y + (py - a.min.y))) &&
    (Textile.ReadsAhead(dst.text, src.text, a.min, sp) ==> Textile.Copied(dst.text, a, src.text, sp, true, DT, ST)) &&
    (dst == src ==>
       forall px: int, py: int {:trigger dst.text.At(px, py)} ::
         dst.text.At(px, py) == Textile.SelfDrawn(dst.text, DT, a, sp, px, py))
  }

  /** display.Draw with the Src operator: clips r against both displays,
      then copies the source background onto the background, the source
      background onto the foreground, the source foreground onto the
      foreground and the non-empty source text onto the text. */
  method Draw(dst: Display, r: Rect, src: Display, sp: Point)
    requires dst.Valid() && src.Valid() && (dst == src || Separate(dst, src))
    modifies dst.text.cells, dst.fg.cells, dst.bg.cells
    ensures dst.Valid()
    ensures Drawn(dst, DrawClip(dst, r, src, sp).r, src, DrawClip(dst, r, src, sp).sp,
                  old(dst.text.cells[..]), old(dst.fg.cells[..]), old(dst.bg.cells[..]),
                  old(src.text.cells[..]), old(src.fg.cells[..]), old(src.bg.cells[..]))
  {
    var c := Clip(dst.rect, r, src.rect, sp, NoMask);
    if c.r.Empty() {
      Textile.SnapNow(dst.text);
      Textile.SnapNow(dst.fg);
      Textile.SnapNow(dst.bg);
      return;
    }
    DrawClipped(dst, c.r, src, c.sp);
  }

  /** Draw once the rectangle is clipped and not empty. */
  method DrawClipped(dst: Display, a: Rect, src: Display, sp: Point)
    requires dst.Valid() && src.Valid() && (dst == src || Separate(dst, src))
    requires Normal(a) && a.Within(dst.rect)
    modifies dst.text.cells, dst.fg.cells, dst.bg.cells
    ensures Drawn(dst, a, src, sp, old(dst.text.cells[..]), old(dst.fg.cells[..]), old(dst.bg.cells[..]),
                  old(src.text.cells[..]), old(src.fg.cells[..]), old(src.bg.cells[..]))
  {
    ghost var DT, DF, DB := dst.text.cells[..], dst.fg.cells[..], dst.bg.cells[..];
    ghost var ST, SF, SB := src.text.cells[..], src.fg.cells[..], src.bg.cells[..];
    DrawColors(dst, a, src, sp);
    ghost var FF, BB := dst.fg.cells[..], dst.bg.cells[..];
    IntersectInside(a, dst.text.rect);
    assert src.text.cells[..] == ST;
    Textile.Draw(dst.text, a, src.text, sp);
    assert dst.fg.cells[..] == FF && dst.bg.cells[..] == BB;
    DrawnFrom(dst, a, src, sp, DT, DF, DB, ST, SF, SB);
  }

  /** The facts the passes leave, gathered into Drawn. */
  lemma DrawnFrom(dst: Display, a: Rect, src: Display, sp: Point,
                  DT: seq<string>, DF: seq<RGBA>, DB: seq<RGBA>, ST: seq<string>, SF: seq<RGBA>, SB: seq<RGBA>)
    requires dst.Valid() && src.Valid() && (dst == src || Separate(dst, src))
    requires |DT| == dst.text.cells.Length && |DF| == dst.fg.cells.Length && |DB| == dst.bg.cells.Length
    requires |ST| == src.text.cells.Length && |SF| == src.fg.cells.Length && |SB| == src.bg.cells.Length
    requires Textile.Kept(dst.text, a, DT)
    requires Textile.ReadsAhead(dst.text, src.text, a.min, sp) ==> Textile.Copied(dst.text, a, src.text, sp, true, DT, ST)
    requires dst == src ==> forall px: int, py: int {:trigger dst.text.At(px, py)} ::
               dst.text.At(px, py) == Textile.SelfDrawn(dst.text, DT, a, sp, px, py)
    requires Textile.Result(dst.bg, dst.bg.cells[..], a, src.bg, sp, false, DB, SB)
    requires Separate(dst, src) ==> Textile.Result(dst.fg, dst.fg.cells[..], a, src.fg, sp, false, DF, SF)
    requires dst == src ==> SelfFg(dst, dst.fg.cells[..], a, sp, DF, DB)
    ensures Drawn(dst, a, src, sp, DT, DF, DB, ST, SF, SB)
  {
    Textile.FromResult(dst.bg, a, src.bg, sp, false, DB, SB);
    if dst == src {
      SelfFgAt(dst, a, sp, DF, DB);
    } else {
      Textile.FromResult(dst.fg, a, src.fg, sp, false, DF, SF);
    }
  }

  /** The three colour passes of Draw over the clipped rectangle a. */
  method DrawColors(dst: Display, a: Rect, src: Display, sp: Point)
    requires dst.Valid() && src.Valid() && (dst == src || Separate(dst, src))
    requires a.Within(dst.rect)
    modifies dst.fg.cells, dst.bg.cells
    ensures Textile.Result(dst.bg, dst.bg.cells[..], a, src.bg, sp, false, old(dst.bg.cells[..]), old(src.bg.cells[..]))
    ensures Separate(dst, src) ==>
              Textile.Result(dst.fg, dst.fg.cells[..], a, src.fg, sp, false, old(dst.fg.cells[..]), old(src.fg.cells[..]))
    ensures dst == src ==> SelfFg(dst, dst.fg.cells[..], a, sp, old(dst.fg.cells[..]), old(dst.bg.cells[..]))
  {
    ghost var DF, DB, SF, SB := dst.fg.cells[..], dst.bg.cells[..], src.fg.cells[..], src.bg.cells[..];
    assert dst.fg.cells != dst.bg.cells;
    Textile.Copy(dst.bg, a, src.bg, sp, false, true);
    Textile.ToResult(dst.bg, a, src.bg, sp, false, DB, SB);
    ghost var B1 := dst.bg.cells[..];
    ghost var S2 := src.bg.cells[..];
    Textile.Copy(dst.fg, a, src.bg, sp, false, true);
    Textile.ToResult(dst.fg, a, src.bg, sp, false, DF, S2);
    ghost var F2 := dst.fg.cells[..];
    ghost var S3 := src.fg.cells[..];
    Textile.Copy(dst.fg, a, src.fg, sp, false, true);
    Textile.ToResult(dst.fg, a, src.fg, sp, false, F2, S3);
    assert dst.bg.cells[..] == B1;
    if dst == src {
      SelfPass1(dst, a, sp, DB, B1);
      SelfPass2(dst, a, sp, DF, DB, B1, F2);
      SelfPass3(dst, a, sp, DF, DB, F2, dst.fg.cells[..]);
    } else {
      assert S3 == SF;
      Textile.ResultChain(dst.fg, a, src.bg, src.fg, sp, DF, F2, dst.fg.cells[..], S2, S3);
    }
  }

  /** The first pass of a self-draw: the background storage B1 it leaves. */
  lemma SelfPass1(d: Display, a: Rect, sp: Point, DB: seq<RGBA>, B1: seq<RGBA>)
    requires d.bg.Valid() && |DB| == |B1| == d.bg.cells.Length
    requires Textile.Result(d.bg, B1, a, d.bg, sp, false, DB, DB)
    ensures forall x: int, y: int {:trigger Textile.Snap(d.bg, B1, x, y)} :: Textile.Snap(d.bg, B1, x, y) == BgAfterPass1(d, a, sp, DB, x, y)
  {
    forall x: int, y: int
      ensures Textile.Snap(d.bg, B1, x, y) == BgAfterPass1(d, a, sp, DB, x, y)
    {
      assert Textile.Snap(d.bg, B1, x, y) ==
             if Point(x, y).In(a) then Textile.Want(d.bg, d.bg, DB, DB, a.min, sp, false, x, y)
             else Textile.Snap(d.bg, DB, x, y);
    }
  }

  /** The second pass of a self-draw: the foreground storage F2 it leaves. */
  lemma SelfPass2(d: Display, a: Rect, sp: Point, DF: seq<RGBA>, DB: seq<RGBA>, B1: seq<RGBA>, F2: seq<RGBA>)
    requires d.fg.Valid() && d.bg.Valid()
    requires |DF| == |F2| == d.fg.cells.Length && |DB| == |B1| == d.bg.cells.Length
    requires forall x: int, y: int {:trigger Textile.Snap(d.bg, B1, x, y)} :: Textile.Snap(d.bg, B1, x, y) == BgAfterPass1(d, a, sp, DB, x, y)
    requires Textile.Result(d.fg, F2, a, d.bg, sp, false, DF, B1)
    ensures forall x: int, y: int {:trigger Textile.Snap(d.fg, F2, x, y)} :: Textile.Snap(d.fg, F2, x, y) == FgAfterPass2(d, a, sp, DF, DB, x, y)
  {
    forall x: int, y: int
      ensures Textile.Snap(d.fg, F2, x, y) == FgAfterPass2(d, a, sp, DF, DB, x, y)
    {
      assert Textile.Snap(d.fg, F2, x, y) ==
             if Point(x, y).In(a) then Textile.Want(d.fg, d.bg, DF, B1, a.min, sp, false, x, y)
             else Textile.Snap(d.fg, DF, x, y);
    }
  }

  /** The third pass of a self-draw: the foreground storage F3 it leaves. */
  lemma SelfPass3(d: Display, a: Rect, sp: Point, DF: seq<RGBA>, DB: seq<RGBA>, F2: seq<RGBA>, F3: seq<RGBA>)
    requires d.fg.Valid() && d.bg.Valid()
    requires |DF| == |F2| == |F3| == d.fg.cells.Length && |DB| == d.bg.cells.Length
    requires forall x: int, y: int {:trigger Textile.Snap(d.fg, F2, x, y)} :: Textile.Snap(d.fg, F2, x, y) == FgAfterPass2(d, a, sp, DF, DB, x, y)
    requires Textile.Result(d.fg, F3, a, d.fg, sp, false, F2, F2)
    ensures SelfFg(d, F3, a, sp, DF, DB)
  {
    forall x: int, y: int
      ensures Textile.Snap(d.fg, F3, x, y) ==
              if Point(x, y).In(a) then FgAfterPass2(d, a, sp, DF, DB, sp.x + (x - a.min.x), sp.y + (y - a.min.y))
              else Textile.Snap(d.fg, DF, x, y)
    {
      assert Textile.Snap(d.fg, F3, x, y) ==
             if Point(x, y).In(a) then Textile.Want(d.fg, d.fg, F2, F2, a.min, sp, false, x, y)
             else Textile.Snap(d.fg, F2, x, y);
    }
  }

  /** SelfFg on the current foreground storage, stated on the cells. */
  lemma SelfFgAt(d: Display, a: Rect, sp: Point, DF: seq<RGBA>, DB: seq<RGBA>)
    requires d.fg.Valid() && d.bg.Valid() && |DF| == d.fg.cells.Length && |DB| == d.bg.cells.Length
    requires SelfFg(d, d.fg.cells[..], a, sp, DF, DB)
    ensures Textile.Kept(d.fg, a, DF)
    ensures forall px: int, py: int :: Point(px, py).In(a) ==>
              d.fg.At(px, py) == FgAfterPass2(d, a, sp, DF, DB, sp.x + (px - a.min.x), sp.y + (py - a.min.y))
  {
    Textile.SnapNow(d.fg);
    forall px: int, py: int
      ensures d.fg.At(px, py) ==
              if Point(px, py).In(a) then FgAfterPass2(d, a, sp, DF, DB, sp.x + (px - a.min.x), sp.y + (py - a.min.y))
              else Textile.Snap(d.fg, DF, px, py)
    {
      assert d.fg.At(px, py) == Textile.Snap(d.fg, d.fg.cells[..], px, py);
    }
  }
}

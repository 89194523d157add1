/** braille/braille.go: bitmaps drawn as Unicode Braille Patterns
    (U+2800 to U+28FF), each cell showing a two-by-four grid of dots.
    The source bitmap is read only through its BitAt predicate, passed as
    the function bit. */
module Braille {
  import opened Geom
  import opened Color
  import Display
  import Textile

  /** Whether the pixel (dx, dy) of the grid at sp is set. */
  predicate On(bit: (int, int) -> bool, sp: Point, dx: int, dy: int)
  {
    bit(sp.x + dx, sp.y + dy)
  }

  /** The dot mask of the two-by-four grid at sp, each set pixel OR-ed in:
      dots 1-3 (0x1, 0x2, 0x4) down the left column, dots 4-6 (0x8, 0x10,
      0x20) down the right, dots 7 and 8 (0x40, 0x80) on the bottom row. */
  function Dots(bit: (int, int) -> bool, sp: Point): bv8
  {
    (if On(bit, sp, 0, 0) then 0x01 else 0) | (if On(bit, sp, 0, 1) then 0x02 else 0) |
    (if On(bit, sp, 0, 2) then 0x04 else 0) | (if On(bit, sp, 0, 3) then 0x40 else 0) |
    (if On(bit, sp, 1, 0) then 0x08 else 0) | (if On(bit, sp, 1, 1) then 0x10 else 0) |
    (if On(bit, sp, 1, 2) then 0x20 else 0) | (if On(bit, sp, 1, 3) then 0x80 else 0)
  }

  /** Each dot of the mask is set exactly when its pixel is, so the mask
      determines the grid, and it is zero only when no pixel is set. */
  lemma DotsDecode(bit: (int, int) -> bool, sp: Point)
    ensures var d := Dots(bit, sp);
      (d & 0x01 != 0 <==> On(bit, sp, 0, 0)) && (d & 0x02 != 0 <==> On(bit, sp, 0, 1)) &&
      (d & 0x04 != 0 <==> On(bit, sp, 0, 2)) && (d & 0x40 != 0 <==> On(bit, sp, 0, 3)) &&
      (d & 0x08 != 0 <==> On(bit, sp, 1, 0)) && (d & 0x10 != 0 <==> On(bit, sp, 1, 1)) &&
      (d & 0x20 != 0 <==> On(bit, sp, 1, 2)) && (d & 0x80 != 0 <==> On(bit, sp, 1, 3))
    ensures Dots(bit, sp) == 0 <==> forall dx, dy :: 0 <= dx < 2 && 0 <= dy < 4 ==> !On(bit, sp, dx, dy)
  {
    var d := Dots(bit, sp);
    if d == 0 {
      forall dx, dy | 0 <= dx < 2 && 0 <= dy < 4 ensures !On(bit, sp, dx, dy) {
      }
    } else {
      assert On(bit, sp, 0, 0) || On(bit, sp, 0, 1) || On(bit, sp, 0, 2) || On(bit, sp, 0, 3) ||
             On(bit, sp, 1, 0) || On(bit, sp, 1, 1) || On(bit, sp, 1, 2) || On(bit, sp, 1, 3);
    }
  }

  /** BrailleAt: the empty string where no pixel of the grid is set, else
      the one Braille rune U+2800 + mask, which is in U+2801 to U+28FF. */
  function BrailleAt(bit: (int, int) -> bool, sp: Point): (s: string)
    ensures |s| <= 1
  {
    var r := Dots(bit, sp);
    if r == 0 then "" else [(0x2800 + r as int) as char]
  }

  /** The glyph is empty exactly when the mask is zero; otherwise it is one
      rune of the Braille block whose offset from U+2800 is the mask. */
  lemma BrailleRune(bit: (int, int) -> bool, sp: Point)
    ensures var s := BrailleAt(bit, sp);
      (s == "" <==> Dots(bit, sp) == 0) &&
      (s != "" ==> |s| == 1 && 0x2801 <= s[0] as int <= 0x28FF && s[0] as int - 0x2800 == Dots(bit, sp) as int)
  {
  }

  /** The glyph is empty exactly when none of the eight pixels is set. */
  lemma BrailleEmpty(bit: (int, int) -> bool, sp: Point)
    ensures BrailleAt(bit, sp) == "" <==> forall dx, dy :: 0 <= dx < 2 && 0 <= dy < 4 ==> !On(bit, sp, dx, dy)
  {
    BrailleRune(bit, sp);
    DotsDecode(bit, sp);
  }

  /** Distinct masks are distinct numbers. */
  lemma ByteAsInt(a: bv8, b: bv8)
    requires a as int == b as int
    ensures a == b
  {
  }

  /** Two grids with the same glyph are the same grid. */
  lemma BrailleInjective(bit1: (int, int) -> bool, sp1: Point, bit2: (int, int) -> bool, sp2: Point)
    requires BrailleAt(bit1, sp1) == BrailleAt(bit2, sp2)
    ensures forall dx, dy :: 0 <= dx < 2 && 0 <= dy < 4 ==> On(bit1, sp1, dx, dy) == On(bit2, sp2, dx, dy)
  {
    var s := BrailleAt(bit1, sp1);
    BrailleRune(bit1, sp1);
    BrailleRune(bit2, sp2);
    if s != "" {
      ByteAsInt(Dots(bit1, sp1), Dots(bit2, sp2));
    }
    DotsDecode(bit1, sp1);
    DotsDecode(bit2, sp2);
    forall dx, dy | 0 <= dx < 2 && 0 <= dy < 4 ensures On(bit1, sp1, dx, dy) == On(bit2, sp2, dx, dy) {
      assert dx == 0 || dx == 1;
      assert dy == 0 || dy == 1 || dy == 2 || dy == 3;
    }
  }

  /** Bounds: the pixel rectangle Draw samples for the cells of r, with the
      same corner, three pixels across and six down per cell, less the
      trailing gap. */
  function Bounds(r: Rect): (b: Rect)
    ensures b.min == r.min && b.Dx() == 3 * r.Dx() - 1 && b.Dy() == 6 * r.Dy() - 2
  {
    var w, h := r.Dx(), r.Dy();
    Rect(r.min, r.min.Add(Point(w * 3, h * 6)).Sub(Point(1, 2)))
  }

  /** Drawing the cells of r from the corner of Bounds(r) samples only
      pixels inside Bounds(r). */
  lemma BoundsCoverSamples(r: Rect, x: int, y: int, dx: int, dy: int)
    requires 0 <= x < r.Dx() && 0 <= y < r.Dy() && 0 <= dx < 2 && 0 <= dy < 4
    ensures Point(3 * x + dx, 6 * y + dy).Add(Bounds(r).min).In(Bounds(r))
  {
  }

  /** The glyph Draw leaves at (px, py) of the clipped rectangle a. */
  function Glyph(bit: (int, int) -> bool, a: Rect, sp: Point, px: int, py: int): string
  {
    BrailleAt(bit, Point(3 * (px - a.min.x), 6 * (py - a.min.y)).Add(sp))
  }

  /** Whether Draw's loops have passed (px, py): rows before y0, and row y0
      before column x0, counted from the corner of a. */
  predicate Done(a: Rect, y0: int, x0: int, px: int, py: int)
  {
    Point(px, py).In(a) && (py - a.min.y < y0 || (py - a.min.y == y0 && px - a.min.x < x0))
  }

  datatype Option<T> = None | Some(value: T)

  /** What Draw writes to the text plane at (px, py), if anything. */
  function TextOf(bit: (int, int) -> bool, a: Rect, sp: Point): (int, int) -> Option<string>
  {
    (px: int, py: int) => var g := Glyph(bit, a, sp, px, py); if g != "" then Some(g) else None
  }

  /** What Draw writes to the foreground plane at (px, py), if anything. */
  function FgOf(bit: (int, int) -> bool, a: Rect, sp: Point, on: RGBA): (int, int) -> Option<RGBA>
  {
    (px: int, py: int) => if Glyph(bit, a, sp, px, py) != "" then Some(on) else None
  }

  /** A plane once the loops have passed (y0, x0): each passed cell holds
      what f gives it, if anything, and every other cell is as in T0. */
  ghost predicate Drawn<T>(t: Textile.Textile<T>, a: Rect, y0: int, x0: int, f: (int, int) -> Option<T>, T0: seq<T>)
    reads t, t.cells
    requires t.Valid() && |T0| == t.cells.Length
  {
    forall px: int, py: int {:trigger t.At(px, py)} ::
      t.At(px, py) == if Done(a, y0, x0, px, py) && f(px, py).Some? then f(px, py).value else Textile.Snap(t, T0, px, py)
  }

  /** The Set of one plane at the cell (x, y) of a. */
  method SetCell<T>(t: Textile.Textile<T>, a: Rect, x: int, y: int, v: T, ghost f: (int, int) -> Option<T>, ghost T0: seq<T>)
    requires t.Valid() && |T0| == t.cells.Length && a.Within(t.rect) && 0 <= x < a.Dx() && 0 <= y < a.Dy()
    requires f(a.min.x + x, a.min.y + y) == Some(v)
    requires Drawn(t, a, y, x, f, T0) && Textile.OutsideKept(t, T0)
    modifies t.cells
    ensures t.Valid() && Drawn(t, a, y, x + 1, f, T0) && Textile.OutsideKept(t, T0)
  {
    var X, Y := a.min.x + x, a.min.y + y;
    t.Set(X, Y, v);
    forall px: int, py: int
      ensures t.At(px, py) == if Done(a, y, x + 1, px, py) && f(px, py).Some? then f(px, py).value else Textile.Snap(t, T0, px, py)
    {
      if px != X || py != Y {
        assert Done(a, y, x + 1, px, py) == Done(a, y, x, px, py);
      }
    }
  }

  /** A cell f leaves alone is passed without a write. */
  lemma SkipCell<T>(t: Textile.Textile<T>, a: Rect, x: int, y: int, f: (int, int) -> Option<T>, T0: seq<T>)
    requires t.Valid() && |T0| == t.cells.Length
    requires f(a.min.x + x, a.min.y + y) == None
    requires Drawn(t, a, y, x, f, T0)
    ensures Drawn(t, a, y, x + 1, f, T0)
  {
    forall px: int, py: int
      ensures t.At(px, py) == if Done(a, y, x + 1, px, py) && f(px, py).Some? then f(px, py).value else Textile.Snap(t, T0, px, py)
    {
      if px != a.min.x + x || py != a.min.y + y {
        assert Done(a, y, x + 1, px, py) == Done(a, y, x, px, py);
      }
    }
  }

  /** Once every row of a is passed, the cells of a hold what f gives them
      and every other cell is as in T0. */
  lemma DrawnAll<T>(t: Textile.Textile<T>, a: Rect, f: (int, int) -> Option<T>, T0: seq<T>)
    requires t.Valid() && |T0| == t.cells.Length && a.WellFormed()
    requires Drawn(t, a, a.Dy(), 0, f, T0)
    ensures forall px: int, py: int {:trigger t.At(px, py)} ::
      t.At(px, py) == if Point(px, py).In(a) && f(px, py).Some? then f(px, py).value else Textile.Snap(t, T0, px, py)
  {
    forall px: int, py: int
      ensures t.At(px, py) == if Point(px, py).In(a) && f(px, py).Some? then f(px, py).value else Textile.Snap(t, T0, px, py)
    {
      assert Done(a, a.Dy(), 0, px, py) == Point(px, py).In(a);
    }
  }

  /** Both planes once the loops have passed (y0, x0), with no storage cell
      outside the display written. */
  ghost predicate Progress(dst: Display.Display, a: Rect, bit: (int, int) -> bool, sp: Point, on: RGBA,
                           y0: int, x0: int, T0: seq<string>, F0: seq<RGBA>)
    reads dst, dst.text, dst.text.cells, dst.fg, dst.fg.cells, dst.bg, dst.bg.cells
    requires dst.Valid() && |T0| == dst.text.cells.Length && |F0| == dst.fg.cells.Length
  {
    Drawn(dst.text, a, y0, x0, TextOf(bit, a, sp), T0) && Drawn(dst.fg, a, y0, x0, FgOf(bit, a, sp, on), F0) &&
    Textile.OutsideKept(dst.text, T0) && Textile.OutsideKept(dst.fg, F0)
  }

  /** The body of Draw's inner loop: the cell (x, y) of a. */
  method DrawCell(dst: Display.Display, a: Rect, bit: (int, int) -> bool, sp: Point, on: RGBA,
                  x: int, y: int, ghost T0: seq<string>, ghost F0: seq<RGBA>)
    requires dst.Valid() && |T0| == dst.text.cells.Length && |F0| == dst.fg.cells.Length
    requires a.Within(dst.rect) && 0 <= x < a.Dx() && 0 <= y < a.Dy()
    requires Progress(dst, a, bit, sp, on, y, x, T0, F0)
    modifies dst.text.cells, dst.fg.cells
    ensures dst.Valid()
    ensures Progress(dst, a, bit, sp, on, y, x + 1, T0, F0)
  {
    var pt := Point(x * 3, y * 6).Add(sp);
    var br := BrailleAt(bit, pt);
    ghost var X, Y := a.min.x + x, a.min.y + y;
    assert br == Glyph(bit, a, sp, X, Y);
    if br != "" {
      SetCell(dst.text, a, x, y, br, TextOf(bit, a, sp), T0);
      SetCell(dst.fg, a, x, y, on, FgOf(bit, a, sp, on), F0);
    } else {
      SkipCell(dst.text, a, x, y, TextOf(bit, a, sp), T0);
      SkipCell(dst.fg, a, x, y, FgOf(bit, a, sp, on), F0);
    }
  }

  /** Draw's inner loop: row y of a. */
  method DrawRow(dst: Display.Display, a: Rect, bit: (int, int) -> bool, sp: Point, on: RGBA,
                 y: int, ghost T0: seq<string>, ghost F0: seq<RGBA>)
    requires dst.Valid() && |T0| == dst.text.cells.Length && |F0| == dst.fg.cells.Length
    requires a.WellFormed() && a.Within(dst.rect) && 0 <= y < a.Dy()
    requires Progress(dst, a, bit, sp, on, y, 0, T0, F0)
    modifies dst.text.cells, dst.fg.cells
    ensures dst.Valid()
    ensures Progress(dst, a, bit, sp, on, y + 1, 0, T0, F0)
  {
    var w := a.Dx();
    var x := 0;
    while x < w
      invariant 0 <= x <= w && dst.Valid()
      invariant Progress(dst, a, bit, sp, on, y, x, T0, F0)
    {
      DrawCell(dst, a, bit, sp, on, x, y, T0, F0);
      x := x + 1;
    }
    forall px: int, py: int ensures Done(a, y, w, px, py) == Done(a, y + 1, 0, px, py) {
    }
  }

  /** Draw's outer loop: every row of a. */
  method DrawRows(dst: Display.Display, a: Rect, bit: (int, int) -> bool, sp: Point, on: RGBA,
                  ghost T0: seq<string>, ghost F0: seq<RGBA>)
    requires dst.Valid() && |T0| == dst.text.cells.Length && |F0| == dst.fg.cells.Length
    requires a.WellFormed() && a.Within(dst.rect)
    requires Progress(dst, a, bit, sp, on, 0, 0, T0, F0)
    modifies dst.text.cells, dst.fg.cells
    ensures dst.Valid()
    ensures Progress(dst, a, bit, sp, on, a.Dy(), 0, T0, F0)
  {
    var h := a.Dy();
    var y := 0;
    while y < h
      invariant 0 <= y <= h && dst.Valid()
      invariant Progress(dst, a, bit, sp, on, y, 0, T0, F0)
    {
      DrawRow(dst, a, bit, sp, on, y, T0, F0);
      y := y + 1;
    }
  }

  /** Draw once the rectangle is clipped to the display and not empty. */
  method DrawIn(dst: Display.Display, a: Rect, bit: (int, int) -> bool, sp: Point, on: RGBA)
    requires dst.Valid() && a.WellFormed() && a.Within(dst.rect)
    modifies dst.text.cells, dst.fg.cells
    ensures dst.Valid()
    ensures forall px: int, py: int {:trigger dst.text.At(px, py)} ::
      dst.text.At(px, py) == if Point(px, py).In(a) && TextOf(bit, a, sp)(px, py).Some?
                             then TextOf(bit, a, sp)(px, py).value else old(dst.text.At(px, py))
    ensures forall px: int, py: int {:trigger dst.fg.At(px, py)} ::
      dst.fg.At(px, py) == if Point(px, py).In(a) && FgOf(bit, a, sp, on)(px, py).Some?
                           then on else old(dst.fg.At(px, py))
    ensures dst.StorageKept(old(dst.text.cells[..]), old(dst.fg.cells[..]), old(dst.bg.cells[..]))
  {
    ghost var T0, F0 := dst.text.cells[..], dst.fg.cells[..];
    Textile.SnapOld(dst.text);
    Textile.SnapOld(dst.fg);
    DrawRows(dst, a, bit, sp, on, T0, F0);
    DrawnAll(dst.text, a, TextOf(bit, a, sp), T0);
    DrawnAll(dst.fg, a, FgOf(bit, a, sp, on), F0);
    Textile.SnapOld(dst.text);
    Textile.SnapOld(dst.fg);
  }

  /** Draw: within r and the display, each cell whose grid has a pixel set
      shows that grid's glyph in foreground on; every other cell, and every
      background, is as it was. The cell (x, y) from the clipped corner
      samples the grid at sp + (3x, 6y); sp is not moved by the clip. */
  method Draw(dst: Display.Display, r: Rect, bit: (int, int) -> bool, sp: Point, on: RGBA)
    requires dst.Valid()
    modifies dst.text.cells, dst.fg.cells
    ensures dst.Valid()
    ensures var a := r.Intersect(dst.rect);
      forall px: int, py: int {:trigger dst.text.At(px, py)} ::
        dst.text.At(px, py) == if Point(px, py).In(a) && Glyph(bit, a, sp, px, py) != ""
                               then Glyph(bit, a, sp, px, py) else old(dst.text.At(px, py))
    ensures var a := r.Intersect(dst.rect);
      forall px: int, py: int {:trigger dst.fg.At(px, py)} ::
        dst.fg.At(px, py) == if Point(px, py).In(a) && Glyph(bit, a, sp, px, py) != ""
                             then on else old(dst.fg.At(px, py))
    ensures forall px: int, py: int {:trigger dst.bg.At(px, py)} :: dst.bg.At(px, py) == old(dst.bg.At(px, py))
    ensures dst.StorageKept(old(dst.text.cells[..]), old(dst.fg.cells[..]), old(dst.bg.cells[..]))
  {
    var a := r.Intersect(dst.rect);
    if a.Empty() {
      return;
    }
    assert a.Within(dst.rect);
    DrawIn(dst, a, bit, sp, on);
  }
}

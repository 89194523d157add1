/** The terminal emulator of vtio/vtio.go: an ANSI event handler that keeps a
    display, a pen position, pen colours and a buffer of printed bytes, and
    writes the buffer into the display, wrapping and scrolling, whenever a
    control function arrives. The parser that turns bytes into events is
    not part of this model; the events are given as a sequence. */
module Vtio {
  import opened Geom
  import opened Utf8
  import opened Color
  import Textile
  import opened Internal
  import opened Display
  import Ansi

  datatype Option<T> = None | Some(value: T)

  /** Go's conversion of an int to a byte: the low eight bits. */
  function Byte(i: int): (b: byte)
    ensures 0 <= i < 256 ==> b as int == i
  {
    (i % 256) as byte
  }

  /** True when `rest` is what remains of `codes` after some are consumed. */
  predicate Suffix(rest: seq<int>, codes: seq<int>)
  {
    |rest| <= |codes| && codes[|codes| - |rest|..] == rest
  }

  /** colorForCodes: the colour of an extended SGR 38 or 48 and the codes
      left after it. None is the index panic of a palette entry outside the
      table (5;n with n not in 0..255). */
  function ColorForCodes(colors: ColorTable, codes: seq<int>): (r: Option<(RGBA, seq<int>)>)
    ensures r.None? <==> |codes| >= 2 && codes[0] == 5 && !(0 <= codes[1] < 256)
    ensures r.Some? ==> Suffix(r.value.1, codes)
    ensures r.Some? && codes != [] ==> |r.value.1| < |codes|
  {
    if |codes| == 0 then Some((colors[0], codes))
    else
      var code, rest := codes[0], codes[1..];
      if code == 5 then
        if |rest| < 1 then Some((colors[0], rest))
        else if 0 <= rest[0] < 256 then Some((colors[rest[0]], rest[1..]))
        else None
      else if code == 2 then
        if |rest| < 3 then Some((colors[0], rest))
        else Some((RGBA(Byte(rest[0]), Byte(rest[1]), Byte(rest[2]), 255), rest[3..]))
      else Some((colors[0], rest))
  }

  /** 5;n picks palette entry n and consumes both codes. */
  lemma ColorForCodesPalette(colors: ColorTable, n: int, rest: seq<int>)
    requires 0 <= n < 256
    ensures ColorForCodes(colors, [5, n] + rest) == Some((colors[n], rest))
  {
    assert ([5, n] + rest)[2..] == rest;
  }

  /** 2;r;g;b is an opaque colour of the low bytes of r, g and b, and
      consumes four codes. */
  lemma ColorForCodesRGB(colors: ColorTable, r: int, g: int, b: int, rest: seq<int>)
    ensures ColorForCodes(colors, [2, r, g, b] + rest) ==
            Some((RGBA(Byte(r), Byte(g), Byte(b), 255), rest))
  {
    assert ([2, r, g, b] + rest)[1..][3..] == rest;
  }

  /** A form cut short, or not 2 or 5, is palette entry 0; what was there
      of it is consumed only up to its first code, except that a cut-short
      2 keeps its components. */
  lemma ColorForCodesDefault(colors: ColorTable, codes: seq<int>)
    requires codes == [] || codes == [5] || (codes != [] && codes[0] != 5 && codes[0] != 2) ||
             (1 <= |codes| <= 3 && codes[0] == 2)
    ensures ColorForCodes(colors, codes) == Some((colors[0], if codes == [] then [] else codes[1..]))
  {
  }

  /** The pen colours after one SGR parameter other than 38 and 48. */
  function Pen(colors: ColorTable, fg: RGBA, bg: RGBA, code: int): (r: (RGBA, RGBA))
    ensures r.0 == fg || r.0 in colors[..16]
    ensures r.1 == bg || r.1 in colors[..16]
    ensures code != 0 ==> r.0 == fg || r.1 == bg
  {
    if code == 0 then (colors[7], colors[0])
    else if 30 <= code < 38 then (colors[code - 30], bg)
    else if 90 <= code < 98 then (colors[code - 90 + 8], bg)
    else if code == 39 then (colors[7], bg)
    else if 40 <= code < 48 then (fg, colors[code - 40])
    else if 100 <= code < 108 then (fg, colors[code - 100 + 8])
    else if code == 49 then (fg, colors[0])
    else (fg, bg)
  }

  /** The pen colours after the SGR parameters in `codes` are applied in
      turn, or None when one of them panics. */
  function SgrColors(colors: ColorTable, fg: RGBA, bg: RGBA, codes: seq<int>): (r: Option<(RGBA, RGBA)>)
    ensures r.None? ==> 38 in codes || 48 in codes
    decreases |codes|
  {
    if codes == [] then Some((fg, bg))
    else
      var code, rest := codes[0], codes[1..];
      if code == 38 then
        match ColorForCodes(colors, rest)
        case None => None
        case Some((c, more)) => SgrColors(colors, c, bg, more)
      else if code == 48 then
        match ColorForCodes(colors, rest)
        case None => None
        case Some((c, more)) => SgrColors(colors, fg, c, more)
      else
        var (f, k) := Pen(colors, fg, bg, code);
        SgrColors(colors, f, k, rest)
  }

  /** SGR: no parameters at all resets the pen to white (7) on black (0). */
  function Sgr(colors: ColorTable, fg: RGBA, bg: RGBA, codes: seq<int>): (r: Option<(RGBA, RGBA)>)
    ensures codes == [] ==> r == SgrColors(colors, fg, bg, [0])
    ensures r.None? ==> 38 in codes || 48 in codes
  {
    if codes == [] then Some((colors[7], colors[0])) else SgrColors(colors, fg, bg, codes)
  }

  /** The one-parameter forms: 0 resets, 30-37 and 90-97 pick the foreground
      from the low and high halves of the 16 colours, 40-47 and 100-107 the
      background, 39 and 49 restore each default, and anything else (1,
      bold, among them) changes nothing. */
  lemma SgrSingle(colors: ColorTable, fg: RGBA, bg: RGBA, code: int)
    ensures code == 0 ==> Sgr(colors, fg, bg, [code]) == Some((colors[7], colors[0]))
    ensures 30 <= code < 38 ==> Sgr(colors, fg, bg, [code]) == Some((colors[code - 30], bg))
    ensures 90 <= code < 98 ==> Sgr(colors, fg, bg, [code]) == Some((colors[code - 82], bg))
    ensures code == 39 ==> Sgr(colors, fg, bg, [code]) == Some((colors[7], bg))
    ensures 40 <= code < 48 ==> Sgr(colors, fg, bg, [code]) == Some((fg, colors[code - 40]))
    ensures 100 <= code < 108 ==> Sgr(colors, fg, bg, [code]) == Some((fg, colors[code - 92]))
    ensures code == 49 ==> Sgr(colors, fg, bg, [code]) == Some((fg, colors[0]))
    ensures !(code == 0 || 30 <= code < 38 || 90 <= code < 98 || code == 39 || code == 38 ||
              40 <= code < 48 || 100 <= code < 108 || code == 48 || code == 49) ==>
            Sgr(colors, fg, bg, [code]) == Some((fg, bg))
  {
    assert [code][1..] == [];
    var (f, k) := Pen(colors, fg, bg, code);
    assert SgrColors(colors, f, k, []) == Some((f, k));
  }

  /** The parameters are applied left to right: a list that no extended
      colour cuts across is the first part, then the rest. */
  lemma {:induction false} SgrColorsAppend(colors: ColorTable, fg: RGBA, bg: RGBA, a: seq<int>, b: seq<int>)
    requires forall i :: 0 <= i < |a| ==> a[i] != 38 && a[i] != 48
    ensures SgrColors(colors, fg, bg, a + b) ==
            match SgrColors(colors, fg, bg, a)
            case None => None
            case Some((f, k)) => SgrColors(colors, f, k, b)
    decreases |a|
  {
    if a != [] {
      assert (a + b)[0] == a[0];
      assert (a + b)[1..] == a[1..] + b;
      var (f, k) := Pen(colors, fg, bg, a[0]);
      SgrColorsAppend(colors, f, k, a[1..], b);
    } else {
      assert a + b == b;
    }
  }

  /** An SGR that does not panic leaves each pen colour either as it was,
      or a palette entry, or an opaque colour from 2;r;g;b. */
  lemma {:induction false} SgrColorsFrom(colors: ColorTable, fg: RGBA, bg: RGBA, codes: seq<int>)
    requires SgrColors(colors, fg, bg, codes).Some?
    ensures var (f, k) := SgrColors(colors, fg, bg, codes).value;
            (f == fg || f in colors || f.a == 255) && (k == bg || k in colors || k.a == 255)
    decreases |codes|
  {
    if codes != [] {
      var code, rest := codes[0], codes[1..];
      if code == 38 || code == 48 {
        var c := ColorForCodes(colors, rest);
        var (cc, more) := c.value;
        assert cc in colors || cc.a == 255;
        if code == 38 {
          SgrColorsFrom(colors, cc, bg, more);
        } else {
          SgrColorsFrom(colors, fg, cc, more);
        }
      } else {
        var (f, k) := Pen(colors, fg, bg, code);
        SgrColorsFrom(colors, f, k, rest);
      }
    }
  }

  // The renderer's colour encoders (display/ansi.go) against the SGR
  // handler: what one writes, the other reads back.

  /** The parameters of a palette index, foreground or background, set that
      entry of the palette and leave the other pen colour alone. */
  lemma IndexRoundTrip(colors: ColorTable, fg: RGBA, bg: RGBA, i: int)
    requires 0 <= i < 256
    ensures Sgr(colors, fg, bg, Ansi.FgCodes(i)) == Some((colors[i], bg))
    ensures Sgr(colors, fg, bg, Ansi.BgCodes(i)) == Some((fg, colors[i]))
  {
    if i < 16 {
      SgrSingle(colors, fg, bg, Ansi.FgCodes(i)[0]);
      SgrSingle(colors, fg, bg, Ansi.BgCodes(i)[0]);
    } else {
      ColorForCodesPalette(colors, i, []);
      assert [5, i] + [] == [5, i];
      assert [38, 5, i][1..] == [5, i] && [48, 5, i][1..] == [5, i];
      assert SgrColors(colors, fg, bg, [38, 5, i]) == SgrColors(colors, colors[i], bg, []);
      assert SgrColors(colors, fg, bg, [48, 5, i]) == SgrColors(colors, fg, colors[i], []);
    }
  }

  /** The parameters of a 24-bit colour set an opaque colour of its three
      channels. */
  lemma RgbRoundTrip(colors: ColorTable, fg: RGBA, bg: RGBA, c: RGBA)
    ensures Sgr(colors, fg, bg, [38, 2, c.r as int, c.g as int, c.b as int]) == Some((RGBA(c.r, c.g, c.b, 255), bg))
    ensures Sgr(colors, fg, bg, [48, 2, c.r as int, c.g as int, c.b as int]) == Some((fg, RGBA(c.r, c.g, c.b, 255)))
  {
    var rgb := [2, c.r as int, c.g as int, c.b as int];
    ColorForCodesRGB(colors, c.r as int, c.g as int, c.b as int, []);
    assert rgb + [] == rgb;
    assert [38, 2, c.r as int, c.g as int, c.b as int][1..] == rgb;
    assert [48, 2, c.r as int, c.g as int, c.b as int][1..] == rgb;
    assert Byte(c.r as int) == c.r && Byte(c.g as int) == c.g && Byte(c.b as int) == c.b;
    var k := RGBA(c.r, c.g, c.b, 255);
    assert SgrColors(colors, fg, bg, [38] + rgb) == SgrColors(colors, k, bg, []);
    assert SgrColors(colors, fg, bg, [48] + rgb) == SgrColors(colors, fg, k, []);
    assert [38] + rgb == [38, 2, c.r as int, c.g as int, c.b as int];
    assert [48] + rgb == [48, 2, c.r as int, c.g as int, c.b as int];
  }

  /** renderForegroundColor24 then SGR: a colour of the palette, or any
      opaque colour, comes back as itself, in one escape sequence. */
  lemma Fg24RoundTrip(colors: ColorTable, fg: RGBA, bg: RGBA, buf: seq<byte>, c: RGBA)
    requires c in colors || c.a == 255
    ensures exists codes :: Ansi.Fg24(buf, colors, c) == buf + Ansi.Csi(Ansi.Params(codes) + "m") &&
                            Sgr(colors, fg, bg, codes) == Some((c, bg))
  {
    var index := ColorIndex(colors);
    IndexOf(colors, c);
    if c in index {
      var i := index[c];
      var codes := Ansi.FgCodes(i);
      Ansi.IndexCodes(buf, i);
      IndexRoundTrip(colors, fg, bg, i);
      assert Ansi.Fg24(buf, colors, c) == buf + Ansi.Csi(Ansi.Params(codes) + "m");
      assert Sgr(colors, fg, bg, codes) == Some((c, bg));
    } else {
      var codes := [38, 2, c.r as int, c.g as int, c.b as int];
      Ansi.Color24Codes(buf, c);
      RgbRoundTrip(colors, fg, bg, c);
      assert c == RGBA(c.r, c.g, c.b, 255);
      assert Ansi.Fg24(buf, colors, c) == buf + Ansi.Csi(Ansi.Params(codes) + "m");
      assert Sgr(colors, fg, bg, codes) == Some((c, bg));
    }
  }

  /** renderBackgroundColor24 then SGR, for the background. */
  lemma Bg24RoundTrip(colors: ColorTable, fg: RGBA, bg: RGBA, buf: seq<byte>, c: RGBA)
    requires c in colors || c.a == 255
    ensures exists codes :: Ansi.Bg24(buf, colors, c) == buf + Ansi.Csi(Ansi.Params(codes) + "m") &&
                            Sgr(colors, fg, bg, codes) == Some((fg, c))
  {
    var index := ColorIndex(colors);
    IndexOf(colors, c);
    if c in index {
      var i := index[c];
      var codes := Ansi.BgCodes(i);
      Ansi.IndexCodes(buf, i);
      IndexRoundTrip(colors, fg, bg, i);
      assert Ansi.Bg24(buf, colors, c) == buf + Ansi.Csi(Ansi.Params(codes) + "m");
      assert Sgr(colors, fg, bg, codes) == Some((fg, c));
    } else {
      var codes := [48, 2, c.r as int, c.g as int, c.b as int];
      Ansi.Color24Codes(buf, c);
      RgbRoundTrip(colors, fg, bg, c);
      assert c == RGBA(c.r, c.g, c.b, 255);
      assert Ansi.Bg24(buf, colors, c) == buf + Ansi.Csi(Ansi.Params(codes) + "m");
      assert Sgr(colors, fg, bg, codes) == Some((fg, c));
    }
  }

  /** The 3-, 4- and 8-bit encoders then SGR: the pen takes the palette
      entry nearest the colour among the first n, in one escape sequence. */
  lemma PaletteRoundTrip(colors: ColorTable, fg: RGBA, bg: RGBA, buf: seq<byte>, n: nat, c: RGBA)
    requires 1 <= n <= 256
    ensures var i := Nearest(colors[..n], c);
      Ansi.FgPalette(buf, colors[..n], c) == buf + Ansi.Csi(Ansi.Params(Ansi.FgCodes(i)) + "m") &&
      Ansi.BgPalette(buf, colors[..n], c) == buf + Ansi.Csi(Ansi.Params(Ansi.BgCodes(i)) + "m") &&
      Sgr(colors, fg, bg, Ansi.FgCodes(i)) == Some((colors[i], bg)) &&
      Sgr(colors, fg, bg, Ansi.BgCodes(i)) == Some((fg, colors[i])) &&
      forall j :: 0 <= j < n ==> Dist(c, colors[i]) <= Dist(c, colors[j])
  {
    var p := colors[..n];
    var i := Nearest(p, c);
    Ansi.IndexCodes(buf, i);
    IndexRoundTrip(colors, fg, bg, i);
    forall j | 0 <= j < n ensures Dist(c, colors[i]) <= Dist(c, colors[j]) {
      assert p[j] == colors[j] && p[i] == colors[i];
    }
  }

  /** The CUP that the renderer's seek from a lost cursor writes: with the
      one-based parameters of Cursor.LostSeek the pen lands on dest; with
      the zero-based ones the package writes, one line up and one column
      to the left of it. */
  lemma LostSeekLands(colors: ColorTable, rect: Rect, drect: Rect, t: Term, dest: Point)
    requires Total(t.screen)
    ensures Step(colors, rect, drect, t, CUP(dest.y + 1, dest.x + 1)).value.pos == dest
    ensures Step(colors, rect, drect, t, CUP(dest.y, dest.x)).value.pos == Point(dest.x - 1, dest.y - 1)
    ensures Point(dest.x - 1, dest.y - 1) != dest
  {
  }

  // The screen as a value: every point of the plane mapped to the cell a
  // display reads there (blank outside its rectangle).

  type Grid = imap<Point, Cell>

  ghost predicate Total(g: Grid) { forall p: Point :: p in g }

  /** The blank screen, point by point. */
  ghost function Blank(p: Point): Cell
  {
    BlankCell
  }

  /** The display reads as g at every point of the plane. */
  ghost predicate Shows(d: Display, g: Grid)
    reads d, d.text, d.fg, d.bg, d.text.cells, d.fg.cells, d.bg.cells
  {
    d.Valid() && Total(g) && forall x: int, y: int {:trigger d.At(x, y)} :: d.At(x, y) == g[Point(x, y)]
  }

  /** display.Set on a grid: a write outside the rectangle is lost. */
  ghost function SetG(g: Grid, drect: Rect, p: Point, c: Cell): (h: Grid)
    requires Total(g)
    ensures Total(h)
    ensures forall q: Point :: h[q] == if q == p && p.In(drect) then c else g[q]
  {
    if p.In(drect) then g[p := c] else g
  }

  /** The rows the scroll clears: image.Rect(0, Max.Y-dy, Max.X, Max.Y) of
      the handler's rectangle, inside the display. */
  function ClearedRows(rect: Rect, dy: int, drect: Rect): (c: Rect)
    ensures c.Empty() || (drect.min.y <= c.min.y && c.max.y <= drect.max.y)
    ensures dy >= 0 ==> c.Empty() || (rect.max.y - dy <= c.min.y && c.max.y <= rect.max.y)
  {
    Canon(0, rect.max.y - dy, rect.max.x, rect.max.y).Intersect(drect)
  }

  /** The cleared rows of a scroll down the page lie in the last dy rows of
      the rectangle. */
  lemma ClearedRowsBelow(rect: Rect, dy: int, drect: Rect, p: Point)
    requires dy >= 0
    ensures p.In(ClearedRows(rect, dy, drect)) ==> rect.max.y - dy <= p.y < rect.max.y
  {
  }

  /** Scrolling by dy as intended: inside the handler's rectangle each cell
      takes the one dy rows below it (measured from the rectangle's corner),
      where that lies inside the display, and then the cleared rows are
      blank. Everything else keeps its cell. */
  ghost function ScrollG(g: Grid, rect: Rect, dy: int, drect: Rect): (h: Grid)
    requires Total(g)
    ensures Total(h)
  {
    imap p: Point ::
      if p.In(ClearedRows(rect, dy, drect)) then BlankCell
      else if p.In(rect) && p.In(drect) && p.Add(Point(0, dy).Sub(rect.min)).In(drect) then
        g[p.Add(Point(0, dy).Sub(rect.min))]
      else g[p]
  }

  /** On a screen whose corner is the origin, scrolling by one moves every
      row up one, the bottom row becomes blank, and nothing outside changes. */
  lemma ScrollOneRow(g: Grid, r: Rect)
    requires Total(g) && r.min == Origin && !r.Empty()
    ensures forall p: Point {:trigger ScrollG(g, r, 1, r)[p]} :: ScrollG(g, r, 1, r)[p] ==
              if p.In(r) && p.y < r.max.y - 1 then g[Point(p.x, p.y + 1)]
              else if p.In(r) then BlankCell
              else g[p]
  {
    forall p: Point {:trigger ScrollG(g, r, 1, r)[p]}
      ensures ScrollG(g, r, 1, r)[p] ==
              if p.In(r) && p.y < r.max.y - 1 then g[Point(p.x, p.y + 1)]
              else if p.In(r) then BlankCell
              else g[p]
    {
      ScrollRowsAt(g, r, 1, p);
    }
  }

  /** On a screen whose corner is the origin, scrolling by dy moves every
      row up dy rows and blanks the last dy rows, at the point p. */
  lemma ScrollRowsAt(g: Grid, r: Rect, dy: int, p: Point)
    requires Total(g) && r.min == Origin && 0 <= dy
    ensures ScrollG(g, r, dy, r)[p] ==
            if p.In(r) && p.y < r.max.y - dy then g[Point(p.x, p.y + dy)]
            else if p.In(r) then BlankCell
            else g[p]
  {
    var band := Canon(0, r.max.y - dy, r.max.x, r.max.y);
    assert p.In(r) ==> (p.In(band) <==> p.y >= r.max.y - dy);
    if p.In(r) && p.y < r.max.y - dy {
      assert p.Add(Point(0, dy).Sub(r.min)) == Point(p.x, p.y + dy);
    }
  }

  /** Where Flush puts one rune, and where the pen goes next: past the
      right edge (the column after the last, Max.X) it wraps to column 0 of
      the next row, and when that row is past the bottom (Max.Y) the screen
      scrolls by one and the pen stays on its row. */
  ghost function PutG(g: Grid, p: Point, r: char, fg: RGBA, bg: RGBA, rect: Rect, drect: Rect): (s: (Grid, Point))
    requires Total(g)
    ensures Total(s.0)
    ensures p.y <= s.1.y <= p.y + 1
  {
    var cell := Cell([r], fg, bg);
    if p.x > drect.max.x then
      if p.y + 1 > drect.max.y then
        (SetG(ScrollAsWrittenG(g, rect, 1, drect), drect, Point(0, p.y), cell), Point(1, p.y))
      else (SetG(g, drect, Point(0, p.y + 1), cell), Point(1, p.y + 1))
    else (SetG(g, drect, p, cell), Point(p.x + 1, p.y))
  }

  /** The grid and pen after Flush writes the runes rs. */
  ghost function FlushG(g: Grid, p: Point, rs: string, fg: RGBA, bg: RGBA, rect: Rect, drect: Rect): (r: (Grid, Point))
    requires Total(g)
    ensures Total(r.0)
    decreases |rs|
  {
    if rs == [] then (g, p)
    else
      var (g1, p1) := PutG(g, p, rs[0], fg, bg, rect, drect);
      FlushG(g1, p1, rs[1..], fg, bg, rect, drect)
  }

  /** The runes written along row p.y from column p.x. */
  ghost function RowG(g: Grid, drect: Rect, p: Point, rs: string, fg: RGBA, bg: RGBA): (h: Grid)
    requires Total(g)
    ensures Total(h)
  {
    imap q: Point ::
      if q.y == p.y && p.x <= q.x < p.x + |rs| && q.In(drect) then Cell([rs[q.x - p.x]], fg, bg) else g[q]
  }

  /** Runes that fit before the wrap column are written into successive
      cells of the pen's row with the pen colours, and the pen ends just
      after them. */
  lemma {:induction false} FlushAlongRow(g: Grid, p: Point, rs: string, fg: RGBA, bg: RGBA, rect: Rect, drect: Rect)
    requires Total(g) && p.x + |rs| <= drect.max.x + 1
    ensures FlushG(g, p, rs, fg, bg, rect, drect) == (RowG(g, drect, p, rs, fg, bg), Point(p.x + |rs|, p.y))
    decreases |rs|
  {
    if rs == [] {
      assert forall q: Point :: RowG(g, drect, p, rs, fg, bg)[q] == g[q];
      assert RowG(g, drect, p, rs, fg, bg) == g;
    } else {
      var g1 := SetG(g, drect, p, Cell([rs[0]], fg, bg));
      var p1 := Point(p.x + 1, p.y);
      FlushInRow(g, p, rs, fg, bg, rect, drect);
      FlushAlongRow(g1, p1, rs[1..], fg, bg, rect, drect);
      RowAfterFirst(g, drect, p, rs, fg, bg);
    }
  }

  /** A rune before the wrap column is set at the pen, which moves right. */
  lemma FlushInRow(g: Grid, p: Point, rs: string, fg: RGBA, bg: RGBA, rect: Rect, drect: Rect)
    requires Total(g) && rs != [] && p.x <= drect.max.x
    ensures FlushG(g, p, rs, fg, bg, rect, drect) ==
            FlushG(SetG(g, drect, p, Cell([rs[0]], fg, bg)), Point(p.x + 1, p.y), rs[1..], fg, bg, rect, drect)
  {
  }

  /** RowG of a row is its first cell set, then RowG of the rest. */
  lemma RowAfterFirst(g: Grid, drect: Rect, p: Point, rs: string, fg: RGBA, bg: RGBA)
    requires Total(g) && rs != []
    ensures RowG(SetG(g, drect, p, Cell([rs[0]], fg, bg)), drect, Point(p.x + 1, p.y), rs[1..], fg, bg) ==
            RowG(g, drect, p, rs, fg, bg)
  {
    var c0 := Cell([rs[0]], fg, bg);
    var g1 := SetG(g, drect, p, c0);
    var p1 := Point(p.x + 1, p.y);
    forall q: Point
      ensures RowG(g1, drect, p1, rs[1..], fg, bg)[q] == RowG(g, drect, p, rs, fg, bg)[q]
    {
      var inRow := q.y == p.y && q.In(drect);
      if inRow && q.x == p.x {
        assert RowG(g1, drect, p1, rs[1..], fg, bg)[q] == g1[q] == c0;
        assert RowG(g, drect, p, rs, fg, bg)[q] == c0;
      } else if inRow && p1.x <= q.x < p.x + |rs| {
        assert rs[1..][q.x - p1.x] == rs[q.x - p.x];
        assert RowG(g1, drect, p1, rs[1..], fg, bg)[q] == Cell([rs[q.x - p.x]], fg, bg);
        assert RowG(g, drect, p, rs, fg, bg)[q] == Cell([rs[q.x - p.x]], fg, bg);
      } else {
        assert RowG(g1, drect, p1, rs[1..], fg, bg)[q] == g1[q] == g[q];
        assert RowG(g, drect, p, rs, fg, bg)[q] == g[q];
      }
    }
    assert RowG(g1, drect, p1, rs[1..], fg, bg) == RowG(g, drect, p, rs, fg, bg);
  }

  /** The pen never gets more than one row past the bottom of the display,
      nor further right than one column past the wrap column. */
  lemma {:induction false} FlushPenBound(g: Grid, p: Point, rs: string, fg: RGBA, bg: RGBA, rect: Rect, drect: Rect)
    requires Total(g) && 0 <= drect.max.x && p.y <= drect.max.y && p.x <= drect.max.x + 1
    ensures var q := FlushG(g, p, rs, fg, bg, rect, drect).1;
            q.y <= drect.max.y && q.x <= drect.max.x + 1
    ensures rs != [] ==> FlushG(g, p, rs, fg, bg, rect, drect).1.y >= p.y
    decreases |rs|
  {
    if rs != [] {
      var (g1, p1) := PutG(g, p, rs[0], fg, bg, rect, drect);
      FlushPenBound(g1, p1, rs[1..], fg, bg, rect, drect);
    }
  }

  /** Where a shift of a that reads from sp takes the cell at p from. */
  function From(a: Rect, sp: Point, p: Point): Point
  {
    if p.In(a) then p.Add(sp.Sub(a.min)) else p
  }

  /** Moves the cells of a (inside the display) to read from sp onward:
      every plane is copied exactly, the empty text included, as if the
      source had been read before the first write. */
  method ShiftCells(d: Display, a: Rect, sp: Point)
    requires d.Valid() && a.Within(d.rect)
    modifies d.text.cells, d.fg.cells, d.bg.cells
    ensures d.Valid()
    ensures forall x: int, y: int {:trigger d.At(x, y)} ::
              var q := From(a, sp, Point(x, y)); d.At(x, y) == old(d.At(q.x, q.y))
  {
    ghost var DT, DF, DB := d.text.cells[..], d.fg.cells[..], d.bg.cells[..];
    Textile.Copy(d.text, a, d.text, sp, false, true);
    Textile.ToResult(d.text, a, d.text, sp, false, DT, DT);
    ghost var T1 := d.text.cells[..];
    Textile.Copy(d.fg, a, d.fg, sp, false, true);
    Textile.ToResult(d.fg, a, d.fg, sp, false, DF, DF);
    ghost var F1 := d.fg.cells[..];
    Textile.Copy(d.bg, a, d.bg, sp, false, true);
    Textile.ToResult(d.bg, a, d.bg, sp, false, DB, DB);
    assert d.text.cells[..] == T1 && d.fg.cells[..] == F1;
    Shifted(d, a, sp, DT, DF, DB);
    Textile.SnapOld(d.text);
    Textile.SnapOld(d.fg);
    Textile.SnapOld(d.bg);
  }

  /** The three plane copies of ShiftCells, read back as cells. */
  lemma Shifted(d: Display, a: Rect, sp: Point, DT: seq<string>, DF: seq<RGBA>, DB: seq<RGBA>)
    requires d.Valid()
    requires |DT| == d.text.cells.Length && |DF| == d.fg.cells.Length && |DB| == d.bg.cells.Length
    requires Textile.Result(d.text, d.text.cells[..], a, d.text, sp, false, DT, DT)
    requires Textile.Result(d.fg, d.fg.cells[..], a, d.fg, sp, false, DF, DF)
    requires Textile.Result(d.bg, d.bg.cells[..], a, d.bg, sp, false, DB, DB)
    ensures forall x: int, y: int {:trigger d.At(x, y)} ::
              var q := From(a, sp, Point(x, y));
              d.At(x, y) == Cell(Textile.Snap(d.text, DT, q.x, q.y), Textile.Snap(d.fg, DF, q.x, q.y), Textile.Snap(d.bg, DB, q.x, q.y))
  {
    Textile.SnapNow(d.text);
    Textile.SnapNow(d.fg);
    Textile.SnapNow(d.bg);
    forall x: int, y: int
      ensures var q := From(a, sp, Point(x, y));
              d.At(x, y) == Cell(Textile.Snap(d.text, DT, q.x, q.y), Textile.Snap(d.fg, DF, q.x, q.y), Textile.Snap(d.bg, DB, q.x, q.y))
    {
      assert Textile.Snap(d.text, d.text.cells[..], x, y) == d.text.At(x, y);
      assert Textile.Snap(d.fg, d.fg.cells[..], x, y) == d.fg.At(x, y);
      assert Textile.Snap(d.bg, d.bg.cells[..], x, y) == d.bg.At(x, y);
    }
  }

  /** The grid after ShiftCells(a, sp). */
  ghost function ShiftG(g: Grid, a: Rect, sp: Point): (h: Grid)
    requires Total(g)
    ensures Total(h)
  {
    imap p: Point :: g[From(a, sp, p)]
  }

  /** The screen after the first half of scroll: the cells of the clipped
      rectangle read from dy rows further down. */
  ghost function ScrollShifted(g: Grid, rect: Rect, dy: int, drect: Rect): (h: Grid)
    requires Total(g)
    ensures Total(h)
  {
    var c := Clip(drect, rect, drect, Point(0, dy), NoMask);
    if c.r.Empty() then g else ShiftG(g, c.r, c.sp)
  }

  lemma ScrollIs(g: Grid, rect: Rect, dy: int, drect: Rect)
    requires Total(g)
    ensures ScrollG(g, rect, dy, drect) == FillG(ScrollShifted(g, rect, dy, drect), ClearedRows(rect, dy, drect), BlankCell)
  {
    var c := Clip(drect, rect, drect, Point(0, dy), NoMask);
    var shifted := if c.r.Empty() then g else ShiftG(g, c.r, c.sp);
    forall p: Point
      ensures ScrollG(g, rect, dy, drect)[p] == FillG(shifted, ClearedRows(rect, dy, drect), BlankCell)[p]
    {
      if p.In(c.r) {
        assert From(c.r, c.sp, p) == p.Add(Point(0, dy).Sub(rect.min));
      }
    }
  }

  /** Display.Set, in grid terms. */
  method SetShown(d: Display, ghost g: Grid, x: int, y: int, t: string, f: RGBA, b: RGBA)
    requires Shows(d, g)
    modifies d.text.cells, d.fg.cells, d.bg.cells
    ensures Shows(d, SetG(g, d.rect, Point(x, y), Cell(t, f, b)))
  {
    d.Set(x, y, t, f, b);
  }

  /** Display.Fill, in grid terms. */
  method FillShown(d: Display, ghost g: Grid, r: Rect, t: string, f: RGBA, b: RGBA)
    requires Shows(d, g)
    modifies d.text.cells, d.fg.cells, d.bg.cells
    ensures Shows(d, FillG(g, r.Intersect(d.rect), Cell(t, f, b)))
  {
    d.Fill(r, t, f, b);
  }

  /** Display.Clear, in grid terms. */
  method ClearShown(d: Display, ghost g: Grid, r: Rect)
    requires Shows(d, g)
    modifies d.text.cells, d.fg.cells, d.bg.cells
    ensures Shows(d, FillG(g, r.Intersect(d.rect), BlankCell))
  {
    d.Clear(r);
  }

  /** ShiftCells, in grid terms. */
  method ShiftShown(d: Display, ghost g: Grid, a: Rect, sp: Point)
    requires Shows(d, g) && a.Within(d.rect)
    modifies d.text.cells, d.fg.cells, d.bg.cells
    ensures Shows(d, ShiftG(g, a, sp))
  {
    ShiftCells(d, a, sp);
    forall x: int, y: int
      ensures d.At(x, y) == ShiftG(g, a, sp)[Point(x, y)]
    {
      var q := From(a, sp, Point(x, y));
      assert old(d.At(q.x, q.y)) == g[Point(q.x, q.y)];
    }
  }

  /** A cell as it was when T, F and B were copies of a display's planes. */
  ghost function SnapCell(d: Display, T: seq<string>, F: seq<RGBA>, B: seq<RGBA>, x: int, y: int): Cell
    reads d, d.text, d.fg, d.bg
    requires d.Valid() && |T| == d.text.cells.Length && |F| == d.fg.cells.Length && |B| == d.bg.cells.Length
  {
    Cell(Textile.Snap(d.text, T, x, y), Textile.Snap(d.fg, F, x, y), Textile.Snap(d.bg, B, x, y))
  }

  /** Inside a, dst reads src at the point moved by sp - a.min; elsewhere it is blank. */
  ghost predicate OntoBlank(dst: Display, a: Rect, src: Display, sp: Point)
    reads dst, dst.text, dst.fg, dst.bg, dst.text.cells, dst.fg.cells, dst.bg.cells
    reads src, src.text, src.fg, src.bg, src.text.cells, src.fg.cells, src.bg.cells
    requires dst.Valid() && src.Valid()
  {
    forall x: int, y: int {:trigger dst.At(x, y)} ::
      dst.At(x, y) == if Point(x, y).In(a) then src.At(sp.x + (x - a.min.x), sp.y + (y - a.min.y)) else BlankCell
  }

  /** Draw from a separate display onto a blank one leaves, inside the
      clipped rectangle, exactly the source cells. */
  lemma DrawnOntoBlank(dst: Display, a: Rect, src: Display, sp: Point,
                       DT: seq<string>, DF: seq<RGBA>, DB: seq<RGBA>)
    requires dst.Valid() && src.Valid() && Separate(dst, src)
    requires |DT| == dst.text.cells.Length && |DF| == dst.fg.cells.Length && |DB| == dst.bg.cells.Length
    requires forall x: int, y: int {:trigger SnapCell(dst, DT, DF, DB, x, y)} :: SnapCell(dst, DT, DF, DB, x, y) == BlankCell
    requires Drawn(dst, a, src, sp, DT, DF, DB, src.text.cells[..], src.fg.cells[..], src.bg.cells[..])
    ensures OntoBlank(dst, a, src, sp)
  {
    Textile.SnapNow(src.text);
    Textile.SnapNow(src.fg);
    Textile.SnapNow(src.bg);
    forall x: int, y: int
      ensures dst.At(x, y) == if Point(x, y).In(a) then src.At(sp.x + (x - a.min.x), sp.y + (y - a.min.y)) else BlankCell
    {
      assert SnapCell(dst, DT, DF, DB, x, y) == BlankCell;
    }
  }

  /** The grid after Resize(r): the old screen drawn at r, its origin
      aligned with r's corner, on an otherwise blank screen. */
  ghost function ResizeG(g: Grid, r: Rect): (h: Grid)
    requires Total(g)
    ensures Total(h)
  {
    imap p: Point :: if p.In(r) then g[p.Sub(r.min)] else BlankCell
  }

  /** A resize whose corner is the origin keeps every cell that is still on
      the screen and blanks the rest. */
  lemma ResizeKeeps(g: Grid, r: Rect)
    requires Total(g) && r.min == Origin
    ensures forall p: Point {:trigger ResizeG(g, r)[p]} :: ResizeG(g, r)[p] == if p.In(r) then g[p] else BlankCell
  {
    forall p: Point {:trigger ResizeG(g, r)[p]}
      ensures ResizeG(g, r)[p] == if p.In(r) then g[p] else BlankCell
    {
      assert p.Sub(r.min) == p;
    }
  }

  /** Resizing twice to the same rectangle at the origin is resizing once. */
  lemma ResizeTwice(g: Grid, r: Rect)
    requires Total(g) && r.min == Origin
    ensures ResizeG(ResizeG(g, r), r) == ResizeG(g, r)
  {
    ResizeKeeps(g, r);
    ResizeKeeps(ResizeG(g, r), r);
    assert forall p: Point :: ResizeG(ResizeG(g, r), r)[p] == ResizeG(g, r)[p];
  }

  /** display.Fill on a grid: the points of s take the cell c. */
  ghost function FillG(g: Grid, s: Rect, c: Cell): (h: Grid)
    requires Total(g)
    ensures Total(h)
  {
    imap p: Point :: if p.In(s) then c else g[p]
  }

  /** The rectangle EL erases (0: from the pen to the right edge of the
      handler's rectangle; 1: from column 0 up to, not including, the pen;
      2: the whole row), in image.Rect's corner order; any other mode
      erases nothing. */
  function ErasedLine(pos: Point, rect: Rect, mode: int): (e: Rect)
    ensures e.Empty() || (e.min.y == pos.y && e.max.y == pos.y + 1)
    ensures e.WellFormed()
  {
    if mode == 0 then Canon(pos.x, pos.y, rect.max.x, pos.y + 1)
    else if mode == 1 then Canon(0, pos.y, pos.x, pos.y + 1)
    else if mode == 2 then Canon(0, pos.y, rect.max.x, pos.y + 1)
    else ZR
  }

  /** EL never touches a row other than the pen's. */
  lemma ErasedLineOnPenRow(pos: Point, rect: Rect, mode: int, p: Point)
    requires p.In(ErasedLine(pos, rect, mode))
    ensures p.y == pos.y
  {
  }

  /** Mode 2 erases every column that mode 0 or mode 1 does, and mode 1
      leaves the pen's own cell alone when the pen is at or right of column 0. */
  lemma ErasedLineModes(pos: Point, rect: Rect, p: Point)
    requires pos.x >= 0 && rect.max.x >= pos.x
    ensures p.In(ErasedLine(pos, rect, 0)) || p.In(ErasedLine(pos, rect, 1)) <==> p.In(ErasedLine(pos, rect, 2))
    ensures !pos.In(ErasedLine(pos, rect, 1))
  {
  }

  /** The pen after a C0 control that Execute knows: LF moves down a row
      (keeping the column), CR goes to column 0, HT to the next multiple of
      8 with Go's truncating division, BS one column left unless at column
      0 or left of it. */
  function ExecutePos(p: Point, b: byte): (q: Point)
    ensures q.y == p.y || (b == 10 && q.y == p.y + 1)
    ensures b == 8 ==> q.x <= p.x && (p.x >= 0 ==> q.x >= 0)
    ensures b != 8 && b != 9 && b != 10 && b != 13 ==> q == p
  {
    if b == 10 then Point(p.x, p.y + 1)
    else if b == 13 then Point(0, p.y)
    else if b == 9 then Point(Quot(p.x + 8, 8) * 8, p.y)
    else if b == 8 then (if p.x > 0 then Point(p.x - 1, p.y) else p)
    else p
  }

  /** From a column at or right of 0, a tab stops at the next multiple of 8,
      at most 8 columns on. */
  lemma TabStop(p: Point)
    requires p.x >= 0
    ensures var q := ExecutePos(p, 9);
            q.y == p.y && q.x % 8 == 0 && p.x < q.x <= p.x + 8
  {
  }

  /** Left of column 0, a tab truncates toward zero: columns -1 to -8 go to 0. */
  lemma TabLeftOfZero(p: Point)
    requires -8 <= p.x < 0
    ensures ExecutePos(p, 9) == Point(0, p.y)
  {
  }

  /** The events of the ANSI parser, one per callback of the handler. */
  datatype Event =
    | Print(b: byte) | Execute(b: byte)
    | CUU(n: int) | CUD(n: int) | CUF(n: int) | CUB(n: int) | CNL(n: int) | CPL(n: int)
    | CHA(n: int) | VPA(n: int) | CUP(row: int, col: int) | HVP(row: int, col: int)
    | DECTCEM(on: bool) | DECOM(on: bool) | DECCOLM(on: bool)
    | ED(n: int) | EL(n: int) | IL(n: int) | DL(n: int) | ICH(n: int) | DCH(n: int)
    | SGR(codes: seq<int>) | SU(n: int) | SD(n: int) | DA(params: seq<string>)
    | DECSTBM(top: int, bottom: int) | IND | RI | Flush

  /** The controls that flush and then move the pen. */
  predicate Moves(e: Event)
  {
    e.Execute? || e.CUU? || e.CUD? || e.CUF? || e.CUB? || e.CHA? || e.CUP? || e.HVP?
  }

  /** The callbacks the handler accepts and ignores. */
  predicate Ignored(e: Event)
  {
    e.DECTCEM? || e.DECOM? || e.DECCOLM? || e.IL? || e.DL? || e.ICH? || e.DCH? ||
    e.SU? || e.SD? || e.DA? || e.DECSTBM? || e.IND? || e.RI?
  }

  /** What a handler holds between callbacks: the screen, the pen, the pen
      colours and the printed bytes not yet written. */
  datatype Term = Term(screen: Grid, pos: Point, fg: RGBA, bg: RGBA, buf: seq<byte>)

  /** Flush on a handler's contents: the buffer decoded and written with
      the pen colours, then emptied. */
  ghost function FlushT(t: Term, rect: Rect, drect: Rect): (u: Term)
    requires Total(t.screen)
    ensures Total(u.screen) && u.buf == [] && u.fg == t.fg && u.bg == t.bg
  {
    var gp := FlushG(t.screen, t.pos, Decode(t.buf), t.fg, t.bg, rect, drect);
    Term(gp.0, gp.1, t.fg, t.bg, [])
  }

  /** One callback on a handler whose palette is colors, whose own
      rectangle is rect and whose display covers drect. None is the panic
      of an SGR palette index outside the table. */
  ghost function Step(colors: ColorTable, rect: Rect, drect: Rect, t: Term, e: Event): (r: Option<Term>)
    requires Total(t.screen)
    ensures r.Some? ==> Total(r.value.screen)
    ensures !e.SGR? ==> r.Some?
  {
    var u := FlushT(t, rect, drect);
    match e
    case Print(b) => Some(t.(buf := t.buf + [b]))
    case Execute(b) => Some(u.(pos := ExecutePos(u.pos, b)))
    case CUU(i) => Some(u.(pos := Point(u.pos.x, u.pos.y - i)))
    case CUD(i) => Some(u.(pos := Point(u.pos.x, u.pos.y + i)))
    case CUF(i) => Some(u.(pos := Point(u.pos.x + i, u.pos.y)))
    case CUB(i) => Some(u.(pos := Point(u.pos.x - i, u.pos.y)))
    case CNL(_) => Some(u)
    case CPL(_) => Some(u)
    case CHA(i) => Some(u.(pos := Point(i - 1, u.pos.y)))
    case VPA(i) => Some(t.(pos := Point(t.pos.x, i - 1)))
    case CUP(y, x) => Some(u.(pos := Point(x - 1, y - 1)))
    case HVP(y, x) => Some(u.(pos := Point(x - 1, y - 1)))
    case ED(_) => Some(u)
    case EL(i) =>
      if 0 <= i <= 2 then Some(t.(screen := FillG(t.screen, ErasedLine(t.pos, rect, i).Intersect(drect), Cell(" ", t.fg, t.bg))))
      else Some(t)
    case SGR(codes) =>
      (match Sgr(colors, u.fg, u.bg, codes)
       case None => None
       case Some((f, k)) => Some(u.(fg := f, bg := k)))
    case Flush => Some(u)
    case _ => Some(t)
  }

  /** HVP and CUP take the same step. */
  lemma StepHvp(colors: ColorTable, rect: Rect, drect: Rect, t: Term, y: int, x: int)
    requires Total(t.screen)
    ensures Step(colors, rect, drect, t, HVP(y, x)) == Step(colors, rect, drect, t, CUP(y, x))
  {
  }

  /** CUF moves the flushed pen right by n. */
  lemma StepCuf(colors: ColorTable, rect: Rect, drect: Rect, t: Term, n: int)
    requires Total(t.screen)
    ensures var u := FlushT(t, rect, drect);
            Step(colors, rect, drect, t, CUF(n)) == Some(u.(pos := Point(u.pos.x + n, u.pos.y)))
  {
  }

  /** CUB moves the flushed pen left by n. */
  lemma StepCub(colors: ColorTable, rect: Rect, drect: Rect, t: Term, n: int)
    requires Total(t.screen)
    ensures var u := FlushT(t, rect, drect);
            Step(colors, rect, drect, t, CUB(n)) == Some(u.(pos := Point(u.pos.x - n, u.pos.y)))
  {
  }

  /** CHA moves the flushed pen to column n - 1 of its row. */
  lemma StepCha(colors: ColorTable, rect: Rect, drect: Rect, t: Term, n: int)
    requires Total(t.screen)
    ensures var u := FlushT(t, rect, drect);
            Step(colors, rect, drect, t, CHA(n)) == Some(u.(pos := Point(n - 1, u.pos.y)))
  {
  }

  /** CUP moves the flushed pen to (x - 1, y - 1). */
  lemma StepCupFlush(colors: ColorTable, rect: Rect, drect: Rect, t: Term, y: int, x: int)
    requires Total(t.screen)
    ensures Step(colors, rect, drect, t, CUP(y, x)) == Some(FlushT(t, rect, drect).(pos := Point(x - 1, y - 1)))
  {
  }

  /** Callbacks in turn; None once one of them panics. */
  ghost function Steps(colors: ColorTable, rect: Rect, drect: Rect, t: Term, es: seq<Event>): (r: Option<Term>)
    requires Total(t.screen)
    ensures r.Some? ==> Total(r.value.screen)
    decreases |es|
  {
    if es == [] then Some(t)
    else match Step(colors, rect, drect, t, es[0])
      case None => None
      case Some(u) => Steps(colors, rect, drect, u, es[1..])
  }

  /** A callback the handler ignores leaves it as it was. */
  lemma IgnoredStep(colors: ColorTable, rect: Rect, drect: Rect, t: Term, e: Event)
    requires Total(t.screen) && Ignored(e)
    ensures Step(colors, rect, drect, t, e) == Some(t)
  {
  }

  /** CNL, CPL, ED and Flush only flush the buffer. */
  lemma FlushingStep(colors: ColorTable, rect: Rect, drect: Rect, t: Term, e: Event)
    requires Total(t.screen) && !Moves(e) && !Ignored(e) && !e.Print? && !e.VPA? && !e.EL? && !e.SGR?
    ensures e.CNL? || e.CPL? || e.ED? || e.Flush?
    ensures Step(colors, rect, drect, t, e) == Some(FlushT(t, rect, drect))
  {
  }

  /** Flushing twice is flushing once: the second finds the buffer empty. */
  lemma FlushTwice(t: Term, rect: Rect, drect: Rect)
    requires Total(t.screen)
    ensures FlushT(FlushT(t, rect, drect), rect, drect) == FlushT(t, rect, drect)
  {
    var u := FlushT(t, rect, drect);
    assert Decode(u.buf) == [];
  }

  /** A run of callbacks split in two: the second part starts where the
      first left off, unless the first panicked. */
  lemma {:induction false} StepsAppend(colors: ColorTable, rect: Rect, drect: Rect, t: Term, a: seq<Event>, b: seq<Event>)
    requires Total(t.screen)
    ensures Steps(colors, rect, drect, t, a + b) ==
            match Steps(colors, rect, drect, t, a)
            case None => None
            case Some(u) => Steps(colors, rect, drect, u, b)
    decreases |a|
  {
    if a == [] {
      assert a + b == b;
    } else {
      assert (a + b)[0] == a[0] && (a + b)[1..] == a[1..] + b;
      match Step(colors, rect, drect, t, a[0])
      case None =>
      case Some(u) => StepsAppend(colors, rect, drect, u, a[1..], b);
    }
  }

  /** A run of one callback is that callback. */
  lemma StepsOne(colors: ColorTable, rect: Rect, drect: Rect, t: Term, e: Event)
    requires Total(t.screen)
    ensures Steps(colors, rect, drect, t, [e]) == Step(colors, rect, drect, t, e)
  {
    assert [e][1..] == [];
  }

  /** The cells Resize leaves, in grid terms. */
  lemma ResizedCells(d: Display, old_dis: Display, g: Grid, r: Rect)
    requires d.Valid() && Shows(old_dis, g) && d.rect == r
    requires OntoBlank(d, DrawClip(d, r, old_dis, Origin).r, old_dis, DrawClip(d, r, old_dis, Origin).sp)
    ensures Shows(d, ResizeG(g, r))
  {
    var c := DrawClip(d, r, old_dis, Origin);
    forall x: int, y: int
      ensures d.At(x, y) == ResizeG(g, r)[Point(x, y)]
    {
      var p := Point(x, y);
      assert g[Point(p.Sub(r.min).x, p.Sub(r.min).y)] == old_dis.At(p.Sub(r.min).x, p.Sub(r.min).y);
      if p.In(c.r) {
        assert Point(c.sp.x + (x - c.r.min.x), c.sp.y + (y - c.r.min.y)) == p.Sub(r.min);
      }
    }
  }

  /** The planes of a blank display, as copies, read blank everywhere. */
  lemma BlankSnaps(e: Display)
    requires e.Valid()
    requires forall x: int, y: int {:trigger e.At(x, y)} :: e.At(x, y) == BlankCell
    ensures forall x: int, y: int {:trigger SnapCell(e, e.text.cells[..], e.fg.cells[..], e.bg.cells[..], x, y)} ::
              SnapCell(e, e.text.cells[..], e.fg.cells[..], e.bg.cells[..], x, y) == BlankCell
  {
    Textile.SnapNow(e.text);
    Textile.SnapNow(e.fg);
    Textile.SnapNow(e.bg);
    forall x: int, y: int
      ensures SnapCell(e, e.text.cells[..], e.fg.cells[..], e.bg.cells[..], x, y) == BlankCell
    {
      assert e.At(x, y) == BlankCell;
    }
  }

  /** Draw from a separate display onto a blank one, pointwise. */
  method DrawOntoBlank(e: Display, r: Rect, d: Display)
    requires e.Valid() && d.Valid() && Separate(e, d)
    requires forall x: int, y: int {:trigger e.At(x, y)} :: e.At(x, y) == BlankCell
    modifies e.text.cells, e.fg.cells, e.bg.cells
    ensures e.Valid() && OntoBlank(e, DrawClip(e, r, d, Origin).r, d, DrawClip(e, r, d, Origin).sp)
  {
    ghost var DT, DF, DB := e.text.cells[..], e.fg.cells[..], e.bg.cells[..];
    BlankSnaps(e);
    Draw(e, r, d, Origin);
    DrawnOntoBlank(e, DrawClip(e, r, d, Origin).r, d, DrawClip(e, r, d, Origin).sp, DT, DF, DB);
  }

  /** A new blank display over r with d drawn onto it from the zero point. */
  method DrawnNew(d: Display, r: Rect) returns (e: Display)
    requires d.Valid() && r.WellFormed()
    ensures fresh(e) && fresh(e.text) && fresh(e.fg) && fresh(e.bg)
    ensures fresh(e.text.cells) && fresh(e.fg.cells) && fresh(e.bg.cells)
    ensures e.rect == r && e.Valid() && OntoBlank(e, DrawClip(e, r, d, Origin).r, d, DrawClip(e, r, d, Origin).sp)
  {
    e := new Display.New(r);
    DrawOntoBlank(e, r, d);
  }

  /** The display that Resize(r) makes, in grid terms. */
  method Resized(d: Display, ghost g: Grid, r: Rect) returns (e: Display)
    requires Shows(d, g) && r.WellFormed()
    ensures fresh(e) && fresh(e.text) && fresh(e.fg) && fresh(e.bg)
    ensures fresh(e.text.cells) && fresh(e.fg.cells) && fresh(e.bg.cells)
    ensures e.rect == r && Shows(e, ResizeG(g, r))
  {
    e := DrawnNew(d, r);
    ResizedCells(e, d, g, r);
  }

  /** The first half of scroll: the clipped cells moved up, when there are any. */
  method ShiftForScroll(d: Display, ghost g: Grid, rect: Rect, dy: int)
    requires Shows(d, g)
    modifies d.text.cells, d.fg.cells, d.bg.cells
    ensures Shows(d, ScrollShifted(g, rect, dy, d.rect))
  {
    var c := Clip(d.rect, rect, d.rect, Point(0, dy), NoMask);
    if !c.r.Empty() {
      ShiftShown(d, g, c.r, c.sp);
    }
  }

  /** scroll on a display, in grid terms: ScrollG. */
  method ScrollShown(d: Display, ghost g: Grid, rect: Rect, dy: int)
    requires Shows(d, g)
    modifies d.text.cells, d.fg.cells, d.bg.cells
    ensures Shows(d, ScrollG(g, rect, dy, d.rect))
  {
    ShiftThenClear(d, g, rect, dy);
    ScrollIs(g, rect, dy, d.rect);
  }

  /** The two steps of scroll: the shift, then the clear of the rows left. */
  method ShiftThenClear(d: Display, ghost g: Grid, rect: Rect, dy: int)
    requires Shows(d, g)
    modifies d.text.cells, d.fg.cells, d.bg.cells
    ensures Shows(d, FillG(ScrollShifted(g, rect, dy, d.rect), ClearedRows(rect, dy, d.rect), BlankCell))
  {
    ghost var dr := d.rect;
    ghost var h := ScrollShifted(g, rect, dy, dr);
    var cl := Canon(0, rect.max.y - dy, rect.max.x, rect.max.y);
    assert ClearedRows(rect, dy, dr) == cl.Intersect(dr);
    ShiftForScroll(d, g, rect, dy);
    assert d.rect == dr;
    ClearShown(d, h, cl);
  }

  // scroll as the source writes it. display.Draw of the display onto
  // itself runs its passes in order over shared storage: the first shifts
  // the background, the second copies that shifted background into the
  // foreground, the third shifts the foreground; the text copy reads live
  // and skips empty strings, so it smears once it reads cells it wrote.

  /** The text a self-draw of a from sp leaves at p: inside a, the string
      read at the source point (the copy's own result there when the loop
      has already written it), unless that string is empty. */
  ghost function SelfTextG(g: Grid, a: Rect, sp: Point, p: Point): string
    requires Total(g)
    decreases if p.In(a) then p.y - a.min.y else 0, if p.In(a) then p.x - a.min.x else 0
  {
    if !p.In(a) then g[p].text
    else
      var q := Point(sp.x + (p.x - a.min.x), sp.y + (p.y - a.min.y));
      var v := if q.In(a) && Textile.Before(q.x, q.y, p.x, p.y) then SelfTextG(g, a, sp, q) else g[q].text;
      if v == "" then g[p].text else v
  }

  /** The screen after display.Draw of the display onto itself over the
      clipped rectangle a from sp: the background read from the source
      point; inside a, the foreground is the background that the second
      pass read from the shifted background, found by shifting three times,
      or the old foreground where those reads leave a; the text as
      SelfTextG. */
  ghost function SelfDrawnG(g: Grid, a: Rect, sp: Point): (h: Grid)
    requires Total(g)
    ensures Total(h)
  {
    imap p: Point ::
      var q := From(a, sp, p);
      Cell(SelfTextG(g, a, sp, p),
           if p.In(a) && q.In(a) then g[From(a, sp, From(a, sp, q))].bg else g[q].fg,
           g[q].bg)
  }

  /** scroll by dy as written: the self-draw of rect from dy rows down,
      clipped to the display, then the cleared rows blank. */
  ghost function ScrollAsWrittenG(g: Grid, rect: Rect, dy: int, drect: Rect): (h: Grid)
    requires Total(g)
    ensures Total(h)
  {
    var c := Clip(drect, rect, drect, Point(0, dy), NoMask);
    FillG(SelfDrawnG(g, c.r, c.sp), ClearedRows(rect, dy, drect), BlankCell)
  }

  /** The text of a textile drawn onto itself, read as SelfTextG. */
  lemma {:induction false} SelfTextIs(t: Textile.Textile<string>, DD: seq<string>, g: Grid, a: Rect, sp: Point, x: int, y: int)
    requires t.Valid() && |DD| == t.cells.Length && Total(g) && t.blank == ""
    requires forall px: int, py: int {:trigger Textile.Snap(t, DD, px, py)} :: Textile.Snap(t, DD, px, py) == g[Point(px, py)].text
    ensures Textile.SelfDrawn(t, DD, a, sp, x, y) == SelfTextG(g, a, sp, Point(x, y))
    decreases if Point(x, y).In(a) then y - a.min.y else 0, if Point(x, y).In(a) then x - a.min.x else 0
  {
    if Point(x, y).In(a) {
      var qx, qy := sp.x + (x - a.min.x), sp.y + (y - a.min.y);
      if Point(qx, qy).In(a) && Textile.Before(qx, qy, x, y) {
        SelfTextIs(t, DD, g, a, sp, qx, qy);
      }
    }
  }

  /** The planes of a display that shows g, as storage copies, read g. */
  ghost predicate SnapsShow(d: Display, DT: seq<string>, DF: seq<RGBA>, DB: seq<RGBA>, g: Grid)
    reads d, d.text, d.fg, d.bg
    requires d.Valid() && Total(g)
    requires |DT| == d.text.cells.Length && |DF| == d.fg.cells.Length && |DB| == d.bg.cells.Length
  {
    forall px: int, py: int {:trigger SnapCell(d, DT, DF, DB, px, py)} :: SnapCell(d, DT, DF, DB, px, py) == g[Point(px, py)]
  }

  lemma ShowsSnaps(d: Display, g: Grid)
    requires Shows(d, g)
    ensures SnapsShow(d, d.text.cells[..], d.fg.cells[..], d.bg.cells[..], g)
  {
    Textile.SnapNow(d.text);
    Textile.SnapNow(d.fg);
    Textile.SnapNow(d.bg);
    forall px: int, py: int
      ensures SnapCell(d, d.text.cells[..], d.fg.cells[..], d.bg.cells[..], px, py) == g[Point(px, py)]
    {
      assert d.At(px, py) == g[Point(px, py)];
    }
  }

  /** One cell after a self-draw, read as SelfDrawnG. */
  lemma SelfDrawnCell(d: Display, g: Grid, a: Rect, sp: Point, DT: seq<string>, DF: seq<RGBA>, DB: seq<RGBA>, x: int, y: int)
    requires d.Valid() && Total(g)
    requires |DT| == d.text.cells.Length && |DF| == d.fg.cells.Length && |DB| == d.bg.cells.Length
    requires d.text.blank == "" && SnapsShow(d, DT, DF, DB, g)
    requires Drawn(d, a, d, sp, DT, DF, DB, DT, DF, DB)
    ensures d.At(x, y) == SelfDrawnG(g, a, sp)[Point(x, y)]
  {
    var p := Point(x, y);
    var q := From(a, sp, p);
    var want := SelfDrawnG(g, a, sp)[p];
    SelfDrawnText(d, g, a, sp, DT, DF, DB, x, y);
    var f := SelfDrawnColors(d, g, a, sp, DT, DF, DB, x, y);
    assert want == Cell(SelfTextG(g, a, sp, p), f, g[q].bg);
    assert d.At(x, y) == Cell(d.text.At(x, y), d.fg.At(x, y), d.bg.At(x, y));
  }

  lemma SelfDrawnText(d: Display, g: Grid, a: Rect, sp: Point, DT: seq<string>, DF: seq<RGBA>, DB: seq<RGBA>, x: int, y: int)
    requires d.Valid() && Total(g)
    requires |DT| == d.text.cells.Length && |DF| == d.fg.cells.Length && |DB| == d.bg.cells.Length
    requires d.text.blank == "" && SnapsShow(d, DT, DF, DB, g)
    requires Drawn(d, a, d, sp, DT, DF, DB, DT, DF, DB)
    ensures d.text.At(x, y) == SelfTextG(g, a, sp, Point(x, y))
  {
    assert forall px: int, py: int :: Textile.Snap(d.text, DT, px, py) == g[Point(px, py)].text by {
      forall px: int, py: int ensures Textile.Snap(d.text, DT, px, py) == g[Point(px, py)].text {
        assert SnapCell(d, DT, DF, DB, px, py) == g[Point(px, py)];
      }
    }
    SelfTextIs(d.text, DT, g, a, sp, x, y);
  }

  /** The colours of one cell after a self-draw; f is its foreground. */
  lemma SelfDrawnColors(d: Display, g: Grid, a: Rect, sp: Point, DT: seq<string>, DF: seq<RGBA>, DB: seq<RGBA>, x: int, y: int)
    returns (f: RGBA)
    requires d.Valid() && Total(g)
    requires |DT| == d.text.cells.Length && |DF| == d.fg.cells.Length && |DB| == d.bg.cells.Length
    requires SnapsShow(d, DT, DF, DB, g)
    requires Drawn(d, a, d, sp, DT, DF, DB, DT, DF, DB)
    ensures var p, q := Point(x, y), From(a, sp, Point(x, y));
            f == (if p.In(a) && q.In(a) then g[From(a, sp, From(a, sp, q))].bg else g[q].fg)
    ensures d.fg.At(x, y) == f && d.bg.At(x, y) == g[From(a, sp, Point(x, y))].bg
  {
    SelfDrawnPlanes(d, a, sp, DT, DF, DB, x, y);
    f := SnappedColors(d, g, a, sp, DT, DF, DB, x, y);
  }

  /** The colour planes of one cell after a self-draw, read from the
      snapshots DF and DB taken before it. */
  lemma SelfDrawnPlanes(d: Display, a: Rect, sp: Point, DT: seq<string>, DF: seq<RGBA>, DB: seq<RGBA>, x: int, y: int)
    requires d.Valid()
    requires |DT| == d.text.cells.Length && |DF| == d.fg.cells.Length && |DB| == d.bg.cells.Length
    requires Drawn(d, a, d, sp, DT, DF, DB, DT, DF, DB)
    ensures var q := From(a, sp, Point(x, y));
            d.bg.At(x, y) == Textile.Snap(d.bg, DB, q.x, q.y) &&
            d.fg.At(x, y) == if Point(x, y).In(a) then FgAfterPass2(d, a, sp, DF, DB, q.x, q.y) else Textile.Snap(d.fg, DF, x, y)
  {
    if Point(x, y).In(a) {
      assert d.fg.At(x, y) == FgAfterPass2(d, a, sp, DF, DB, sp.x + (x - a.min.x), sp.y + (y - a.min.y));
    } else {
      assert d.fg.At(x, y) == Textile.Snap(d.fg, DF, x, y);
    }
  }

  /** Those snapshot reads in grid terms, where the snapshots show g. */
  lemma SnappedColors(d: Display, g: Grid, a: Rect, sp: Point, DT: seq<string>, DF: seq<RGBA>, DB: seq<RGBA>, x: int, y: int)
    returns (f: RGBA)
    requires d.Valid() && Total(g)
    requires |DT| == d.text.cells.Length && |DF| == d.fg.cells.Length && |DB| == d.bg.cells.Length
    requires SnapsShow(d, DT, DF, DB, g)
    requires var q := From(a, sp, Point(x, y));
             d.bg.At(x, y) == Textile.Snap(d.bg, DB, q.x, q.y) &&
             d.fg.At(x, y) == if Point(x, y).In(a) then FgAfterPass2(d, a, sp, DF, DB, q.x, q.y) else Textile.Snap(d.fg, DF, x, y)
    ensures var p, q := Point(x, y), From(a, sp, Point(x, y));
            f == (if p.In(a) && q.In(a) then g[From(a, sp, From(a, sp, q))].bg else g[q].fg)
    ensures d.fg.At(x, y) == f && d.bg.At(x, y) == g[From(a, sp, Point(x, y))].bg
  {
    var p := Point(x, y);
    var q := From(a, sp, p);
    assert SnapCell(d, DT, DF, DB, q.x, q.y) == g[q];
    if p.In(a) && q.In(a) {
      var w := From(a, sp, From(a, sp, q));
      assert SnapCell(d, DT, DF, DB, w.x, w.y) == g[w];
      f := g[w].bg;
    } else {
      f := g[q].fg;
    }
  }

  /** display.Draw of a display onto itself, in grid terms. */
  method SelfDrawShown(d: Display, ghost g: Grid, r: Rect, sp: Point)
    requires Shows(d, g)
    modifies d.text.cells, d.fg.cells, d.bg.cells
    ensures Shows(d, SelfDrawnG(g, DrawClip(d, r, d, sp).r, DrawClip(d, r, d, sp).sp))
  {
    ghost var DT, DF, DB := d.text.cells[..], d.fg.cells[..], d.bg.cells[..];
    ghost var c := DrawClip(d, r, d, sp);
    ShowsSnaps(d, g);
    Draw(d, r, d, sp);
    forall x: int, y: int
      ensures d.At(x, y) == SelfDrawnG(g, c.r, c.sp)[Point(x, y)]
    {
      SelfDrawnCell(d, g, c.r, c.sp, DT, DF, DB, x, y);
    }
  }

  /** scroll as written, on a display: ScrollAsWrittenG. */
  method ScrollAsWritten(d: Display, ghost g: Grid, rect: Rect, dy: int) returns (ghost h: Grid)
    requires Shows(d, g)
    modifies d.text.cells, d.fg.cells, d.bg.cells
    ensures h == ScrollAsWrittenG(g, rect, dy, d.rect) && Shows(d, h)
  {
    h := ScrollAsWrittenG(g, rect, dy, d.rect);
    ghost var dr := d.rect;
    ghost var c := Clip(dr, rect, dr, Point(0, dy), NoMask);
    var cl := Canon(0, rect.max.y - dy, rect.max.x, rect.max.y);
    assert ClearedRows(rect, dy, dr) == cl.Intersect(dr);
    assert DrawClip(d, rect, d, Point(0, dy)) == c;
    SelfDrawShown(d, g, rect, Point(0, dy));
    ClearShown(d, SelfDrawnG(g, c.r, c.sp), cl);
  }

  const Red := RGBA(255, 0, 0, 255)
  const Green := RGBA(0, 255, 0, 255)
  const Blue := RGBA(0, 0, 255, 255)
  const White := RGBA(255, 255, 255, 255)

  /** A one-column, three-row screen: white on blue "a", red on blue "b",
      white on green "c". */
  ghost function ThreeRowsG(): (g: Grid)
    ensures Total(g)
  {
    imap p: Point :: ThreeRowsCell(p)
  }

  function ThreeRowsCell(p: Point): Cell
  {
    if p == Point(0, 0) then Cell("a", White, Blue)
    else if p == Point(0, 1) then Cell("b", Red, Blue)
    else if p == Point(0, 2) then Cell("c", White, Green)
    else BlankCell
  }

  /** ThreeRowsG on a display of its size. */
  method ThreeRows() returns (d: Display)
    ensures fresh(d) && fresh(d.text) && fresh(d.fg) && fresh(d.bg)
    ensures fresh(d.text.cells) && fresh(d.fg.cells) && fresh(d.bg.cells)
    ensures d.rect == Rect(Origin, Point(1, 3)) && Shows(d, ThreeRowsG())
  {
    d := new Display.New(Rect(Origin, Point(1, 3)));
    ghost var g0 := imap p: Point :: Blank(p);
    assert Shows(d, g0);
    SetShown(d, g0, 0, 0, "a", White, Blue);
    ghost var g1 := SetG(g0, d.rect, Point(0, 0), Cell("a", White, Blue));
    SetShown(d, g1, 0, 1, "b", Red, Blue);
    ghost var g2 := SetG(g1, d.rect, Point(0, 1), Cell("b", Red, Blue));
    SetShown(d, g2, 0, 2, "c", White, Green);
    ThreeRowsSet(g0, d.rect);
  }

  /** Setting the three cells of ThreeRowsG on a blank screen of its size. */
  lemma ThreeRowsSet(g0: Grid, R: Rect)
    requires g0 == (imap p: Point :: Blank(p)) && R == Rect(Origin, Point(1, 3))
    ensures SetG(SetG(SetG(g0, R, Point(0, 0), Cell("a", White, Blue)), R, Point(0, 1), Cell("b", Red, Blue)),
                 R, Point(0, 2), Cell("c", White, Green)) == ThreeRowsG()
  {
    var g3 := SetG(SetG(SetG(g0, R, Point(0, 0), Cell("a", White, Blue)), R, Point(0, 1), Cell("b", Red, Blue)),
                   R, Point(0, 2), Cell("c", White, Green));
    assert forall p: Point :: g3[p] == ThreeRowsG()[p];
  }

  /** Drawing a rectangle at the origin onto itself from dy rows down moves
      all its rows but the last dy up by dy. */
  lemma ClipUp(R: Rect, dy: int, c: Clipped)
    requires R.min == Origin && 0 < R.max.x && 0 < dy < R.max.y
    requires c == Clip(R, R, R, Point(0, dy), NoMask)
    ensures c.r == Rect(Origin, Point(R.max.x, R.max.y - dy)) && c.sp == Point(0, dy)
  {
    var up := Rect(Origin, Point(R.max.x, R.max.y - dy));
    assert R.Intersect(R) == R;
    assert R.Add(Origin.Sub(Point(0, dy))) == Rect(Point(0, -dy), up.max);
    assert R.Intersect(Rect(Point(0, -dy), up.max)) == up;
    assert ClipRect(R, R, R, Point(0, dy), NoMask) == up;
  }

  /** Scrolling by dy as written, on a screen at the origin 3 * dy rows
      high: the foreground that lands in the top-left cell is the old
      background 2 * dy rows down, and the background is the old background
      dy rows down. The intended scroll moves the old foreground dy rows
      down there instead. */
  lemma ScrollAsWrittenTopLeft(g: Grid, R: Rect, dy: int)
    requires Total(g) && R.min == Origin && 0 < R.max.x && 0 < dy && R.max.y == 3 * dy
    ensures ScrollAsWrittenG(g, R, dy, R)[Origin].fg == g[Point(0, 2 * dy)].bg
    ensures ScrollAsWrittenG(g, R, dy, R)[Origin].bg == g[Point(0, dy)].bg
    ensures ScrollG(g, R, dy, R)[Origin] == g[Point(0, dy)]
  {
    var c := Clip(R, R, R, Point(0, dy), NoMask);
    ClipUp(R, dy, c);
    ClearedRowsBelow(R, dy, R, Origin);
    assert From(c.r, c.sp, Origin) == Point(0, dy);
    assert From(c.r, c.sp, Point(0, dy)) == Point(0, 2 * dy);
    assert From(c.r, c.sp, Point(0, 2 * dy)) == Point(0, 2 * dy);
    ScrollRowsAt(g, R, dy, Origin);
  }

  /** Scrolling by dy > 0 as written, on a screen at the origin: on the
      rows that move, the text is the old text dy rows down unless that is
      empty, in which case the cell keeps its own text; the background is
      the old background dy rows down. */
  lemma ScrollAsWrittenRows(g: Grid, R: Rect, dy: int, p: Point)
    requires Total(g) && R.min == Origin && 0 < dy && p.In(R) && p.y < R.max.y - dy
    ensures ScrollAsWrittenG(g, R, dy, R)[p].text ==
            if g[Point(p.x, p.y + dy)].text == "" then g[p].text else g[Point(p.x, p.y + dy)].text
    ensures ScrollAsWrittenG(g, R, dy, R)[p].bg == g[Point(p.x, p.y + dy)].bg
  {
    var c := Clip(R, R, R, Point(0, dy), NoMask);
    ClipUp(R, dy, c);
    ClearedRowsBelow(R, dy, R, p);
    assert p.In(c.r) && From(c.r, c.sp, p) == Point(p.x, p.y + dy);
    assert !Textile.Before(p.x, p.y + dy, p.x, p.y);
    ScrollAsWrittenMoved(g, R, dy, R, p);
    SelfTextOneStep(g, c.r, c.sp, p);
  }

  /** Outside the cleared rows the scroll as written is the self-draw. */
  lemma ScrollAsWrittenMoved(g: Grid, rect: Rect, dy: int, drect: Rect, p: Point)
    requires Total(g) && !p.In(ClearedRows(rect, dy, drect))
    ensures var c := Clip(drect, rect, drect, Point(0, dy), NoMask);
            ScrollAsWrittenG(g, rect, dy, drect)[p] == SelfDrawnG(g, c.r, c.sp)[p]
  {
  }

  /** A cell of a self-draw whose source is not written before it takes the
      source's text, or keeps its own when that is empty. */
  lemma SelfTextOneStep(g: Grid, a: Rect, sp: Point, p: Point)
    requires Total(g) && p.In(a)
    requires var q := From(a, sp, p); !(q.In(a) && Textile.Before(q.x, q.y, p.x, p.y))
    ensures var q := From(a, sp, p);
            SelfTextG(g, a, sp, p) == if g[q].text == "" then g[p].text else g[q].text
  {
  }

  /** Before the first Resize the handler's rectangle is empty, and
      scrolling, as written or as intended, changes nothing. */
  lemma ScrollBeforeResize(g: Grid, dy: int, drect: Rect)
    requires Total(g)
    ensures ScrollAsWrittenG(g, ZR, dy, drect) == g
    ensures ScrollG(g, ZR, dy, drect) == g
  {
    var c := Clip(drect, ZR, drect, Point(0, dy), NoMask);
    assert forall p: Point :: !p.In(ClearedRows(ZR, dy, drect));
    assert forall p: Point :: !p.In(c.r);
    assert forall p: Point :: ScrollAsWrittenG(g, ZR, dy, drect)[p] == g[p];
    assert forall p: Point :: ScrollG(g, ZR, dy, drect)[p] == g[p];
  }

  /** The source's scroll by dy rows of a display at the origin 3 * dy rows
      high: the foreground that lands in the top-left cell is the old
      background 2 * dy rows down. */
  method ScrollTopForeground(d: Display, ghost g: Grid, dy: int) returns (got: RGBA)
    requires Shows(d, g) && d.rect.min == Origin && 0 < d.rect.max.x && 0 < dy && d.rect.max.y == 3 * dy
    modifies d.text.cells, d.fg.cells, d.bg.cells
    ensures Shows(d, ScrollAsWrittenG(g, d.rect, dy, d.rect))
    ensures got == d.fg.At(0, 0) && got == g[Point(0, 2 * dy)].bg
  {
    ghost var R := d.rect;
    ghost var h := ScrollAsWritten(d, g, d.rect, dy);
    ScrollAsWrittenTopLeft(g, R, dy);
    got := d.fg.At(0, 0);
    assert d.At(0, 0) == ScrollAsWrittenG(g, R, dy, R)[Point(0, 0)];
  }

  /** The source's scroll on ThreeRows: the "b" that moves to row 0 comes
      out green, the background of row 2, where the intended scroll keeps
      its red foreground. */
  method ScrollAsWrittenCounterexample() returns (got: RGBA)
    ensures got == Green && got != Red
  {
    var d := ThreeRows();
    ghost var g := ThreeRowsG();
    ThreeRowsAt(g);
    got := ScrollTopForeground(d, g, 1);
  }

  lemma ThreeRowsAt(g: Grid)
    requires g == ThreeRowsG()
    ensures g[Point(0, 1)] == Cell("b", Red, Blue) && g[Point(0, 2)] == Cell("c", White, Green)
  {
  }

  /** Text left behind by a wrap past the bottom. On a 1x3 screen at the
      origin (the handler's rectangle after Resize) whose row 1 is blank, as
      Resize leaves it, an ASCII byte a is printed and flushed into the top
      cell; CUP(4, 3) puts the pen past the bottom right, so the next
      flushed rune x wraps and scrolls by one. The scroll as written leaves
      a in the top cell, because the empty text moving up from row 1 is
      skipped; StaleTextIntended shows the intended scroll moving that
      empty text up. */
  lemma StaleTextAfterScroll(colors: ColorTable, R: Rect, t: Term, a: byte, x: byte)
    requires Total(t.screen) && R == Rect(Origin, Point(1, 3)) && a < 0x80 && x < 0x80
    requires t.pos == Origin && t.buf == [] && t.screen[Point(0, 1)] == BlankCell
    ensures var r := Steps(colors, R, R, t, [Print(a), Flush, CUP(4, 3), Print(x), Flush]);
            r.Some? && r.value.screen[Origin].text == [a as char]
  {
    StaleSteps(colors, R, t, a, x);
    StaleTopWritten(R, t, a);
  }

  /** The top cell after the first flush and the scroll as written. */
  lemma StaleTopWritten(R: Rect, t: Term, a: byte)
    requires Total(t.screen) && R == Rect(Origin, Point(1, 3)) && a < 0x80
    requires t.screen[Point(0, 1)] == BlankCell
    ensures ScrollAsWrittenG(SetG(t.screen, R, Origin, Cell([a as char], t.fg, t.bg)), R, 1, R)[Origin].text == [a as char]
  {
    var g2 := SetG(t.screen, R, Origin, Cell([a as char], t.fg, t.bg));
    SetTop(t.screen, R, Cell([a as char], t.fg, t.bg));
    StaleTop(g2, R, [a as char], 1, Origin);
  }

  /** The same screen under the intended scroll: after the first flush the
      top cell holds a, and scrolling by one empties it. */
  lemma StaleTextIntended(R: Rect, t: Term, a: byte)
    requires Total(t.screen) && R == Rect(Origin, Point(1, 3)) && a < 0x80
    requires t.pos == Origin && t.buf == [] && t.screen[Point(0, 1)] == BlankCell
    ensures var u := FlushT(t.(buf := [a]), R, R);
            u.screen[Origin].text == [a as char] && ScrollG(u.screen, R, 1, R)[Origin].text == ""
  {
    var g2 := SetG(t.screen, R, Origin, Cell([a as char], t.fg, t.bg));
    SetTop(t.screen, R, Cell([a as char], t.fg, t.bg));
    FlushFirst(t, R, a);
    StaleTop(g2, R, [a as char], 1, Origin);
  }

  /** Setting the top-left cell leaves the blank cell below it blank. */
  lemma SetTop(g: Grid, R: Rect, c: Cell)
    requires Total(g) && Origin.In(R) && g[Point(0, 1)] == BlankCell
    ensures SetG(g, R, Origin, c)[Origin] == c && SetG(g, R, Origin, c)[Point(0, 1)] == BlankCell
  {
  }

  /** The run of StaleTextAfterScroll, callback by callback. */
  lemma StaleSteps(colors: ColorTable, R: Rect, t: Term, a: byte, x: byte)
    requires Total(t.screen) && R == Rect(Origin, Point(1, 3)) && a < 0x80 && x < 0x80
    requires t.pos == Origin && t.buf == []
    ensures Steps(colors, R, R, t, [Print(a), Flush, CUP(4, 3), Print(x), Flush]) ==
            Some(Term(ScrollAsWrittenG(SetG(t.screen, R, Origin, Cell([a as char], t.fg, t.bg)), R, 1, R),
                      Point(1, 3), t.fg, t.bg, []))
  {
    var t1 := t.(buf := [a]);
    StepPrint(colors, R, t, a);
    var g2 := SetG(t.screen, R, Origin, Cell([a as char], t.fg, t.bg));
    var t2 := Term(g2, Point(1, 0), t.fg, t.bg, []);
    StepFlushFirst(colors, t, R, a);
    var t3 := t2.(pos := Point(2, 3));
    StepCUP(colors, R, t2, 4, 3);
    var t4 := t3.(buf := [x]);
    StepPrint(colors, R, t3, x);
    var t5 := Term(ScrollAsWrittenG(g2, R, 1, R), Point(1, 3), t.fg, t.bg, []);
    StepFlushWrap(colors, g2, R, t.fg, t.bg, x);
    StepsFive(colors, R, t, Print(a), Flush, CUP(4, 3), Print(x), Flush, t1, t2, t3, t4, t5);
  }

  lemma StepFlushFirst(colors: ColorTable, t: Term, R: Rect, a: byte)
    requires Total(t.screen) && R == Rect(Origin, Point(1, 3)) && t.pos == Origin && t.buf == [] && a < 0x80
    ensures Step(colors, R, R, t.(buf := [a]), Flush) ==
            Some(Term(SetG(t.screen, R, Origin, Cell([a as char], t.fg, t.bg)), Point(1, 0), t.fg, t.bg, []))
  {
    FlushFirst(t, R, a);
    StepFlush(colors, R, t.(buf := [a]));
  }

  lemma StepFlushWrap(colors: ColorTable, g: Grid, R: Rect, fg: RGBA, bg: RGBA, x: byte)
    requires Total(g) && R == Rect(Origin, Point(1, 3)) && x < 0x80
    ensures Step(colors, R, R, Term(g, Point(2, 3), fg, bg, [x]), Flush) ==
            Some(Term(ScrollAsWrittenG(g, R, 1, R), Point(1, 3), fg, bg, []))
  {
    FlushWrap(g, R, fg, bg, x);
    StepFlush(colors, R, Term(g, Point(2, 3), fg, bg, [x]));
  }

  /** The top cell of StaleTextAfterScroll after the scroll, as written and
      as intended. */
  lemma StaleTop(g: Grid, R: Rect, s: string, dy: int, p: Point)
    requires Total(g) && R.min == Origin && 0 < dy && p.In(R) && p.y < R.max.y - dy
    requires g[Point(p.x, p.y + dy)] == BlankCell && g[p].text == s
    ensures ScrollAsWrittenG(g, R, dy, R)[p].text == s
    ensures ScrollG(g, R, dy, R)[p].text == ""
  {
    ScrollAsWrittenRows(g, R, dy, p);
    ScrollRowsAt(g, R, dy, p);
  }

  lemma StepPrint(colors: ColorTable, R: Rect, t: Term, b: byte)
    requires Total(t.screen) && t.buf == []
    ensures Step(colors, R, R, t, Print(b)) == Some(t.(buf := [b]))
  {
    assert t.buf + [b] == [b];
  }

  lemma StepFlush(colors: ColorTable, R: Rect, t: Term)
    requires Total(t.screen)
    ensures Step(colors, R, R, t, Flush) == Some(FlushT(t, R, R))
  {
    var e := Flush;
    assert e.Flush? && !e.SGR?;
  }

  lemma StepCUP(colors: ColorTable, R: Rect, t: Term, y: int, x: int)
    requires Total(t.screen) && t.buf == []
    ensures Step(colors, R, R, t, CUP(y, x)) == Some(t.(pos := Point(x - 1, y - 1)))
  {
    assert Decode(t.buf) == [];
  }

  /** The first flush of StaleTextAfterScroll: a at the top left. */
  lemma FlushFirst(t: Term, R: Rect, a: byte)
    requires Total(t.screen) && R == Rect(Origin, Point(1, 3)) && t.pos == Origin && t.buf == [] && a < 0x80
    ensures FlushT(t.(buf := [a]), R, R) ==
            Term(SetG(t.screen, R, Origin, Cell([a as char], t.fg, t.bg)), Point(1, 0), t.fg, t.bg, [])
  {
    DecodeOne(a);
    FlushOne(t.screen, Origin, a as char, t.fg, t.bg, R, R);
  }

  /** The second flush of StaleTextAfterScroll: the wrap past the bottom
      scrolls, and the rune lands outside the display. */
  lemma FlushWrap(g: Grid, R: Rect, fg: RGBA, bg: RGBA, x: byte)
    requires Total(g) && R == Rect(Origin, Point(1, 3)) && x < 0x80
    ensures FlushT(Term(g, Point(2, 3), fg, bg, [x]), R, R) ==
            Term(ScrollAsWrittenG(g, R, 1, R), Point(1, 3), fg, bg, [])
  {
    DecodeOne(x);
    FlushOne(g, Point(2, 3), x as char, fg, bg, R, R);
    PutWrapOut(g, Point(2, 3), x as char, fg, bg, R, R);
  }

  /** Flushing one rune is putting it. */
  lemma FlushOne(g: Grid, p: Point, c: char, fg: RGBA, bg: RGBA, rect: Rect, drect: Rect)
    requires Total(g)
    ensures FlushG(g, p, [c], fg, bg, rect, drect) == PutG(g, p, c, fg, bg, rect, drect)
  {
    var (g1, p1) := PutG(g, p, c, fg, bg, rect, drect);
    assert [c][1..] == [];
    assert FlushG(g1, p1, [], fg, bg, rect, drect) == (g1, p1);
  }

  /** A rune put past the bottom-right corner scrolls the screen, and lands
      in column 0 of a row outside the display, where it is lost. */
  lemma PutWrapOut(g: Grid, p: Point, c: char, fg: RGBA, bg: RGBA, rect: Rect, drect: Rect)
    requires Total(g) && p.x > drect.max.x && p.y + 1 > drect.max.y && !Point(0, p.y).In(drect)
    ensures PutG(g, p, c, fg, bg, rect, drect) == (ScrollAsWrittenG(g, rect, 1, drect), Point(1, p.y))
  {
    SetOutside(ScrollAsWrittenG(g, rect, 1, drect), drect, Point(0, p.y), Cell([c], fg, bg));
  }

  /** A write outside the display leaves the grid as it was. */
  lemma SetOutside(g: Grid, drect: Rect, p: Point, c: Cell)
    requires Total(g) && !p.In(drect)
    ensures SetG(g, drect, p, c) == g
  {
  }

  /** One ASCII byte decodes to its own character. */
  lemma DecodeOne(b: byte)
    requires b < 0x80
    ensures Decode([b]) == [b as char]
  {
    var s: seq<byte> := [b];
    assert DecodeRune(s) == (b as char, 1);
    assert s[1..] == [];
  }

  /** Five callbacks in turn, each leaving the next state. */
  lemma StepsFive(colors: ColorTable, R: Rect, t: Term, e0: Event, e1: Event, e2: Event, e3: Event, e4: Event,
                  t1: Term, t2: Term, t3: Term, t4: Term, t5: Term)
    requires Total(t.screen) && Total(t1.screen) && Total(t2.screen) && Total(t3.screen) && Total(t4.screen)
    requires Step(colors, R, R, t, e0) == Some(t1) && Step(colors, R, R, t1, e1) == Some(t2)
    requires Step(colors, R, R, t2, e2) == Some(t3) && Step(colors, R, R, t3, e3) == Some(t4)
    requires Step(colors, R, R, t4, e4) == Some(t5)
    ensures Steps(colors, R, R, t, [e0, e1, e2, e3, e4]) == Some(t5)
  {
    var es := [e0, e1, e2, e3, e4];
    assert es[4..][0] == e4 && es[4..][1..] == [];
    assert Steps(colors, R, R, t4, es[4..]) == Some(t5);
    assert es[3..][0] == e3 && es[3..][1..] == es[4..];
    assert Steps(colors, R, R, t3, es[3..]) == Some(t5);
    assert es[2..][0] == e2 && es[2..][1..] == es[3..];
    assert Steps(colors, R, R, t2, es[2..]) == Some(t5);
    assert es[1..][0] == e1 && es[1..][1..] == es[2..];
    assert Steps(colors, R, R, t1, es[1..]) == Some(t5);
  }


  /** One rune written at pen p, in grid terms: PutG. */
  method PutShown(d: Display, ghost g: Grid, p: Point, r: char, fg: RGBA, bg: RGBA, rect: Rect) returns (q: Point)
    requires Shows(d, g)
    modifies d.text.cells, d.fg.cells, d.bg.cells
    ensures Shows(d, PutG(g, p, r, fg, bg, rect, d.rect).0) && q == PutG(g, p, r, fg, bg, rect, d.rect).1
  {
    if p.x > d.rect.max.x && p.y + 1 > d.rect.max.y {
      ghost var h := ScrollAsWritten(d, g, rect, 1);
      SetShown(d, h, 0, p.y, [r], fg, bg);
      q := Point(1, p.y);
    } else if p.x > d.rect.max.x {
      SetShown(d, g, 0, p.y + 1, [r], fg, bg);
      q := Point(1, p.y + 1);
    } else {
      SetShown(d, g, p.x, p.y, [r], fg, bg);
      q := Point(p.x + 1, p.y);
    }
  }

  /** The handler behind a DisplayWriter. The ghost field screen is the
      display's content as a grid; colors stands for the package-wide
      palette display.Colors. */
  class Handler {
    var dis: Display
    var pos: Point
    var rect: Rect
    var fg: RGBA
    var bg: RGBA
    var buf: seq<byte>
    const colors: ColorTable
    ghost var screen: Grid

    ghost predicate Valid()
      reads this, dis, dis.text, dis.fg, dis.bg, dis.text.cells, dis.fg.cells, dis.bg.cells
    {
      Shows(dis, screen)
    }

    /** The handler's contents as a value. */
    ghost function State(): Term
      reads this
    {
      Term(screen, pos, fg, bg, buf)
    }

    /** NewDisplayWriter: a blank display over r, the pen at the origin,
        white (7) on black (0), an empty buffer, and the handler's own
        rectangle still the zero rectangle. */
    constructor NewDisplayWriter(colors: ColorTable, r: Rect)
      requires r.WellFormed()
      ensures Valid() && fresh(dis) && fresh(dis.text) && fresh(dis.fg) && fresh(dis.bg)
      ensures fresh(dis.text.cells) && fresh(dis.fg.cells) && fresh(dis.bg.cells)
      ensures this.colors == colors && dis.rect == r && rect == ZR && pos == Origin
      ensures fg == colors[7] && bg == colors[0] && buf == []
      ensures forall p: Point {:trigger screen[p]} :: screen[p] == BlankCell
    {
      dis := new Display.New(r);
      this.colors := colors;
      pos, rect, fg, bg, buf := Origin, ZR, colors[7], colors[0], [];
      screen := imap p: Point :: Blank(p);
    }

    /** DisplayWriter.Draw: this handler's display drawn onto e over r from
        the zero point; the handler itself is unchanged. */
    method DrawTo(e: Display, r: Rect)
      requires Valid() && e.Valid() && Separate(e, dis)
      modifies e.text.cells, e.fg.cells, e.bg.cells
      ensures Valid() && e.Valid() && State() == old(State())
      ensures Drawn(e, DrawClip(e, r, dis, Origin).r, dis, DrawClip(e, r, dis, Origin).sp,
                    old(e.text.cells[..]), old(e.fg.cells[..]), old(e.bg.cells[..]),
                    old(dis.text.cells[..]), old(dis.fg.cells[..]), old(dis.bg.cells[..]))
    {
      Draw(e, r, dis, Origin);
    }

    /** DisplayWriter.Resize: a new blank display over r with the old one
        drawn onto it from the zero point, and r as the handler's rectangle. */
    method Resize(r: Rect)
      requires Valid() && r.WellFormed()
      modifies this
      ensures Valid() && fresh(dis) && fresh(dis.text) && fresh(dis.fg) && fresh(dis.bg)
      ensures fresh(dis.text.cells) && fresh(dis.fg.cells) && fresh(dis.bg.cells)
      ensures dis.rect == r && rect == r
      ensures State() == old(State()).(screen := ResizeG(old(screen), r))
    {
      var d := Resized(dis, screen, r);
      dis, rect, screen := d, r, ResizeG(screen, r);
    }

    /** scroll, as written: the screen becomes ScrollAsWrittenG of the old
        one, and nothing else changes. */
    method Scroll(dy: int)
      requires Valid()
      modifies this, dis.text.cells, dis.fg.cells, dis.bg.cells
      ensures Valid() && dis == old(dis) && rect == old(rect)
      ensures State() == old(State()).(screen := ScrollAsWrittenG(old(screen), rect, dy, dis.rect))
    {
      ghost var h := ScrollAsWritten(dis, screen, rect, dy);
      SetScreen(h);
    }

    /** The screen becomes h, which the display already shows. */
    ghost method SetScreen(h: Grid)
      requires Shows(dis, h)
      modifies this
      ensures Valid() && screen == h && dis == old(dis) && rect == old(rect) && pos == old(pos)
      ensures fg == old(fg) && bg == old(bg) && buf == old(buf)
    {
      screen := h;
    }

    /** One rune of Flush: wrap and scroll as PutG says, then Set. */
    method Put(r: char)
      requires Valid()
      modifies this, dis.text.cells, dis.fg.cells, dis.bg.cells
      ensures Valid() && dis == old(dis) && rect == old(rect) && fg == old(fg) && bg == old(bg) && buf == old(buf)
      ensures (screen, pos) == PutG(old(screen), old(pos), r, fg, bg, rect, dis.rect)
    {
      ghost var s := PutG(screen, pos, r, fg, bg, rect, dis.rect).0;
      pos := PutShown(dis, screen, pos, r, fg, bg, rect);
      screen := s;
    }

    /** Flush: every rune the buffer decodes to, through Put; then the
        buffer is empty. */
    method Flush()
      requires Valid()
      modifies this, dis.text.cells, dis.fg.cells, dis.bg.cells
      ensures Valid() && dis == old(dis) && rect == old(rect)
      ensures State() == FlushT(old(State()), rect, dis.rect)
    {
      var rs := Decode(buf);
      ghost var want := FlushG(screen, pos, rs, fg, bg, rect, dis.rect);
      var i := 0;
      while i < |rs|
        invariant 0 <= i <= |rs|
        invariant Valid() && dis == old(dis) && rect == old(rect) && fg == old(fg) && bg == old(bg) && buf == old(buf)
        invariant FlushG(screen, pos, rs[i..], fg, bg, rect, dis.rect) == want
      {
        assert FlushG(screen, pos, rs[i..], fg, bg, rect, dis.rect) ==
               FlushG(PutG(screen, pos, rs[i], fg, bg, rect, dis.rect).0, PutG(screen, pos, rs[i], fg, bg, rect, dis.rect).1,
                      rs[i + 1..], fg, bg, rect, dis.rect) by {
          assert rs[i..][1..] == rs[i + 1..];
        }
        Put(rs[i]);
        i := i + 1;
      }
      buf := [];
    }

    /** The pen to q; nothing else changes. */
    method MovePen(q: Point)
      requires Valid()
      modifies this
      ensures Valid() && State() == old(State()).(pos := q) && dis == old(dis) && rect == old(rect)
    {
      pos := q;
    }

    /** Print: the byte is kept for the next flush. */
    method Print(b: byte)
      requires Valid()
      modifies this
      ensures Valid() && dis == old(dis) && rect == old(rect)
      ensures State() == Step(colors, rect, dis.rect, old(State()), Event.Print(b)).value
    {
      buf := buf + [b];
    }

    /** Execute: flush, then move the pen for LF, CR, HT and BS. */
    method Execute(b: byte)
      requires Valid()
      modifies this, dis.text.cells, dis.fg.cells, dis.bg.cells
      ensures Valid() && dis == old(dis) && rect == old(rect)
      ensures State() == Step(colors, rect, dis.rect, old(State()), Event.Execute(b)).value
    {
      Flush();
      MovePen(ExecutePos(pos, b));
    }

    /** CUU: flush, then the pen n rows up, unclamped. */
    method CUU(n: int)
      requires Valid()
      modifies this, dis.text.cells, dis.fg.cells, dis.bg.cells
      ensures Valid() && dis == old(dis) && rect == old(rect)
      ensures State() == Step(colors, rect, dis.rect, old(State()), Event.CUU(n)).value
    {
      Flush();
      MovePen(Point(pos.x, pos.y - n));
    }

    /** CUD: flush, then the pen n rows down, unclamped. */
    method CUD(n: int)
      requires Valid()
      modifies this, dis.text.cells, dis.fg.cells, dis.bg.cells
      ensures Valid() && dis == old(dis) && rect == old(rect)
      ensures State() == Step(colors, rect, dis.rect, old(State()), Event.CUD(n)).value
    {
      Flush();
      MovePen(Point(pos.x, pos.y + n));
    }

    /** CUF: flush, then the pen n columns right, unclamped. */
    method CUF(n: int)
      requires Valid()
      modifies this, dis.text.cells, dis.fg.cells, dis.bg.cells
      ensures Valid() && dis == old(dis) && rect == old(rect)
      ensures State() == Step(colors, rect, dis.rect, old(State()), Event.CUF(n)).value
    {
      ghost var t := State();
      StepCuf(colors, rect, dis.rect, t, n);
      Flush();
      MovePen(Point(pos.x + n, pos.y));
    }

    /** CUB: flush, then the pen n columns left, unclamped. */
    method CUB(n: int)
      requires Valid()
      modifies this, dis.text.cells, dis.fg.cells, dis.bg.cells
      ensures Valid() && dis == old(dis) && rect == old(rect)
      ensures State() == Step(colors, rect, dis.rect, old(State()), Event.CUB(n)).value
    {
      ghost var t := State();
      StepCub(colors, rect, dis.rect, t, n);
      Flush();
      MovePen(Point(pos.x - n, pos.y));
    }

    /** CHA: flush, then the pen to column n, counted from 1. */
    method CHA(n: int)
      requires Valid()
      modifies this, dis.text.cells, dis.fg.cells, dis.bg.cells
      ensures Valid() && dis == old(dis) && rect == old(rect)
      ensures State() == Step(colors, rect, dis.rect, old(State()), Event.CHA(n)).value
    {
      ghost var t := State();
      StepCha(colors, rect, dis.rect, t, n);
      Flush();
      MovePen(Point(n - 1, pos.y));
    }

    /** VPA: the pen to row n, counted from 1, without a flush. */
    method VPA(n: int)
      requires Valid()
      modifies this
      ensures Valid() && dis == old(dis) && rect == old(rect)
      ensures State() == Step(colors, rect, dis.rect, old(State()), Event.VPA(n)).value
    {
      pos := Point(pos.x, n - 1);
    }

    /** CUP (and HVP through it): flush, then the pen to row y and column
        x, both counted from 1. */
    method CUP(y: int, x: int)
      requires Valid()
      modifies this, dis.text.cells, dis.fg.cells, dis.bg.cells
      ensures Valid() && dis == old(dis) && rect == old(rect)
      ensures State() == Step(colors, rect, dis.rect, old(State()), Event.CUP(y, x)).value
    {
      ghost var t := State();
      StepCupFlush(colors, rect, dis.rect, t, y, x);
      Flush();
      MovePen(Point(x - 1, y - 1));
    }

    /** EL: without a flush, fill part of the pen's row with spaces in the
        pen colours, as ErasedLine says; other modes do nothing. */
    method EL(n: int)
      requires Valid()
      modifies this, dis.text.cells, dis.fg.cells, dis.bg.cells
      ensures Valid() && dis == old(dis) && rect == old(rect)
      ensures State() == Step(colors, rect, dis.rect, old(State()), Event.EL(n)).value
    {
      if 0 <= n <= 2 {
        var r := ErasedLine(pos, rect, n);
        FillShown(dis, screen, r, " ", fg, bg);
        screen := FillG(screen, r.Intersect(dis.rect), Cell(" ", fg, bg));
      }
    }

    /** The parameter loop of SGR, on the pen colours alone. */
    method ApplySgr(codes: seq<int>) returns (ok: bool)
      modifies this
      ensures dis == old(dis) && rect == old(rect) && screen == old(screen) && pos == old(pos) && buf == old(buf)
      ensures ok <==> Sgr(colors, old(fg), old(bg), codes).Some?
      ensures ok ==> (fg, bg) == Sgr(colors, old(fg), old(bg), codes).value
    {
      if |codes| == 0 {
        fg, bg := colors[7], colors[0];
      }
      var cs := codes;
      while cs != []
        invariant dis == old(dis) && rect == old(rect) && screen == old(screen) && pos == old(pos) && buf == old(buf)
        invariant Sgr(colors, old(fg), old(bg), codes) == SgrColors(colors, fg, bg, cs)
        decreases |cs|
      {
        var code := cs[0];
        cs := cs[1..];
        if code == 38 || code == 48 {
          var c := ColorForCodes(colors, cs);
          if c.None? {
            return false;
          }
          if code == 38 {
            fg := c.value.0;
          } else {
            bg := c.value.0;
          }
          cs := c.value.1;
        } else {
          var p := Pen(colors, fg, bg, code);
          fg, bg := p.0, p.1;
        }
      }
      ok := true;
    }

    /** SGR: flush, then apply the parameters in turn. The result is false
        when a palette index is outside the table, where the source panics;
        the pen colours are then unspecified. */
    method SGR(codes: seq<int>) returns (ok: bool)
      requires Valid()
      modifies this, dis.text.cells, dis.fg.cells, dis.bg.cells
      ensures Valid() && dis == old(dis) && rect == old(rect)
      ensures ok <==> Step(colors, rect, dis.rect, old(State()), Event.SGR(codes)).Some?
      ensures ok ==> State() == Step(colors, rect, dis.rect, old(State()), Event.SGR(codes)).value
      ensures var u := FlushT(old(State()), rect, dis.rect); screen == u.screen && pos == u.pos && buf == []
    {
      Flush();
      ok := ApplySgr(codes);
    }

    /** The callbacks that flush and then move the pen. */
    method HandleMove(e: Event) returns (ok: bool)
      requires Valid() && Moves(e)
      modifies this, dis.text.cells, dis.fg.cells, dis.bg.cells
      ensures Valid() && dis == old(dis) && rect == old(rect)
      ensures ok && State() == Step(colors, rect, dis.rect, old(State()), e).value
    {
      ok := true;
      if e.CUU? || e.CUD? || e.CUF? || e.CUB? {
        HandleStep(e);
      } else {
        HandleJump(e);
      }
    }

    /** The relative cursor moves. */
    method HandleStep(e: Event)
      requires Valid() && (e.CUU? || e.CUD? || e.CUF? || e.CUB?)
      modifies this, dis.text.cells, dis.fg.cells, dis.bg.cells
      ensures Valid() && dis == old(dis) && rect == old(rect)
      ensures Step(colors, rect, dis.rect, old(State()), e).Some?
      ensures State() == Step(colors, rect, dis.rect, old(State()), e).value
    {
      match e
      case CUU(n) => CUU(n);
      case CUD(n) => CUD(n);
      case CUF(n) => CUF(n);
      case CUB(n) => CUB(n);
    }

    /** The control characters and the absolute cursor moves. */
    method HandleJump(e: Event)
      requires Valid() && (e.Execute? || e.CHA? || e.CUP? || e.HVP?)
      modifies this, dis.text.cells, dis.fg.cells, dis.bg.cells
      ensures Valid() && dis == old(dis) && rect == old(rect)
      ensures Step(colors, rect, dis.rect, old(State()), e).Some?
      ensures State() == Step(colors, rect, dis.rect, old(State()), e).value
    {
      match e
      case Execute(b) => Execute(b);
      case CHA(n) => CHA(n);
      case CUP(y, x) => CUP(y, x);
      case HVP(y, x) =>
        ghost var t := State();
        StepHvp(colors, rect, dis.rect, t, y, x);
        CUP(y, x);
    }

    /** One callback of the parser, by kind: CNL, CPL, ED and the ansiterm
        Flush only flush, HVP is CUP, and the rest of the controls are
        accepted and ignored. */
    method Handle(e: Event) returns (ok: bool)
      requires Valid()
      modifies this, dis.text.cells, dis.fg.cells, dis.bg.cells
      ensures Valid() && dis == old(dis) && rect == old(rect)
      ensures ok <==> Step(colors, rect, dis.rect, old(State()), e).Some?
      ensures ok ==> State() == Step(colors, rect, dis.rect, old(State()), e).value
    {
      if Moves(e) {
        ok := HandleMove(e);
      } else {
        ok := HandleInPlace(e);
      }
    }

    /** The callbacks that do not move the pen by themselves. */
    method HandleInPlace(e: Event) returns (ok: bool)
      requires Valid() && !Moves(e)
      modifies this, dis.text.cells, dis.fg.cells, dis.bg.cells
      ensures Valid() && dis == old(dis) && rect == old(rect)
      ensures ok <==> Step(colors, rect, dis.rect, old(State()), e).Some?
      ensures ok ==> State() == Step(colors, rect, dis.rect, old(State()), e).value
    {
      ok := true;
      if Ignored(e) {
        IgnoredStep(colors, rect, dis.rect, State(), e);
      } else if e.Print? {
        Print(e.b);
      } else if e.VPA? {
        VPA(e.n);
      } else if e.EL? {
        EL(e.n);
      } else if e.SGR? {
        ok := SGR(e.codes);
      } else {
        FlushingStep(colors, rect, dis.rect, State(), e);
        Flush();
      }
    }

    /** The callbacks of a parse, in order, stopping at a panic. */
    method Run(es: seq<Event>) returns (ok: bool)
      requires Valid()
      modifies this, dis.text.cells, dis.fg.cells, dis.bg.cells
      ensures Valid() && dis == old(dis) && rect == old(rect)
      ensures ok <==> Steps(colors, rect, dis.rect, old(State()), es).Some?
      ensures ok ==> State() == Steps(colors, rect, dis.rect, old(State()), es).value
    {
      var i := 0;
      while i < |es|
        invariant 0 <= i <= |es|
        invariant Valid() && dis == old(dis) && rect == old(rect)
        invariant Steps(colors, rect, dis.rect, old(State()), es) == Steps(colors, rect, dis.rect, State(), es[i..])
      {
        assert es[i..][1..] == es[i + 1..];
        ok := Handle(es[i]);
        if !ok {
          return;
        }
        i := i + 1;
      }
      ok := true;
    }
  }
}

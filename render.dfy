/** display.Render and display.RenderOver: the differential encoder that
    walks the front display in row-major order and, for every cell that
    differs from the back display, moves the believed cursor there, emits
    the colour change the model asks for and writes the glyph. */
module Renderer {
  import opened Geom
  import opened Utf8
  import opened Decimal
  import opened Color
  import opened Ansi
  import opened Cursor
  import opened ColorModel
  import opened Display
  import Text

  /** The glyph a cell shows: empty text counts as a space. */
  function Glyph(t: string): (g: string)
    ensures |g| > 0
    ensures t != "" ==> g == t
  {
    if |t| == 0 then " " else t
  }

  /** The back cell as the comparison sees it: no cell when there is no
      back display. */
  datatype Behind = NoBack | Behind(cell: Cell)

  /** The back cell as RenderOver's comparison sees it. Go compares the
      colours as color.Color interface values: a nil back display's At
      gives color.Transparent, a color.Alpha16, and a front colour is always
      a color.RGBA, so no front cell ever equals a nil back's cell. The nil
      back is NoBack, which matches nothing. */
  function BackAt(colors: ColorTable, under: Display?, x: int, y: int): (u: Behind)
    reads under, if under == null then {} else {under.text, under.fg, under.bg, under.text.cells, under.fg.cells, under.bg.cells}
    requires under != null ==> under.Valid()
    ensures u.NoBack? <==> under == null
    ensures under != null ==> u == Behind(under.At(x, y))
  {
    if under == null then NoBack else Behind(under.At(x, y))
  }

  /** A front cell looks the same as the back cell on the terminal. */
  predicate Same(o: Cell, u: Behind)
  {
    u.Behind? && Glyph(o.text) == Glyph(u.cell.text) && o.fg == u.cell.fg && o.bg == u.cell.bg
  }

  /** Writing one cell: Go to it, render its colours and write its glyph. */
  function Draw(colors: ColorTable, m: Model, buf: seq<byte>, cur: Cursor, p: Point, o: Cell)
    : (r: (seq<byte>, Cursor))
    ensures Extends(buf, r.0) && |r.0| > |buf|
    ensures r.1.position.y == p.y && r.1.foreground == o.fg && r.1.background == o.bg
  {
    var (b1, c1) := Moved(colors, buf, cur, p);
    MovedEndsAtTarget(colors, buf, cur, p);
    var (b2, c2) := ColorModel.Render(m, colors, b1, c1, o.fg, o.bg);
    WriteGlyph(b2, c2, Glyph(o.text))
  }

  /** One cell of the walk: nothing for a cell that looks the same, else
      the cell is written. */
  function Step(colors: ColorTable, m: Model, buf: seq<byte>, cur: Cursor, p: Point, o: Cell, u: Behind)
    : (r: (seq<byte>, Cursor))
    ensures Same(o, u) ==> r == (buf, cur)
    ensures !Same(o, u) ==> r == Draw(colors, m, buf, cur, p, o)
  {
    if Same(o, u) then (buf, cur) else Draw(colors, m, buf, cur, p, o)
  }

  /** The rest of row y from column x. */
  function RowFrom(colors: ColorTable, m: Model, over: Display, under: Display?,
                   buf: seq<byte>, cur: Cursor, x: int, y: int): (r: (seq<byte>, Cursor))
    reads over, over.text, over.fg, over.bg, over.text.cells, over.fg.cells, over.bg.cells
    reads under, if under == null then {} else {under.text, under.fg, under.bg, under.text.cells, under.fg.cells, under.bg.cells}
    requires over.Valid() && (under != null ==> under.Valid())
    ensures |r.0| >= |buf|
    decreases over.rect.max.x - x
  {
    if x >= over.rect.max.x then (buf, cur)
    else
      var (b, c) := Step(colors, m, buf, cur, Point(x, y), over.At(x, y), BackAt(colors, under, x, y));
      RowFrom(colors, m, over, under, b, c, x + 1, y)
  }

  /** The rest of the walk from row y. */
  function RowsFrom(colors: ColorTable, m: Model, over: Display, under: Display?,
                    buf: seq<byte>, cur: Cursor, y: int): (r: (seq<byte>, Cursor))
    reads over, over.text, over.fg, over.bg, over.text.cells, over.fg.cells, over.bg.cells
    reads under, if under == null then {} else {under.text, under.fg, under.bg, under.text.cells, under.fg.cells, under.bg.cells}
    requires over.Valid() && (under != null ==> under.Valid())
    ensures |r.0| >= |buf|
    decreases over.rect.max.y - y
  {
    if y >= over.rect.max.y then (buf, cur)
    else
      var (b, c) := RowFrom(colors, m, over, under, buf, cur, over.rect.min.x, y);
      RowsFrom(colors, m, over, under, b, c, y + 1)
  }

  /** One cell of RowFrom. */
  lemma RowFromStep(colors: ColorTable, m: Model, over: Display, under: Display?,
                    buf: seq<byte>, cur: Cursor, x: int, y: int)
    requires over.Valid() && (under != null ==> under.Valid())
    requires x < over.rect.max.x
    ensures var s := Step(colors, m, buf, cur, Point(x, y), over.At(x, y), BackAt(colors, under, x, y));
            RowFrom(colors, m, over, under, buf, cur, x, y) == RowFrom(colors, m, over, under, s.0, s.1, x + 1, y)
  {
  }

  /** One row of RowsFrom. */
  lemma RowsFromStep(colors: ColorTable, m: Model, over: Display, under: Display?,
                     buf: seq<byte>, cur: Cursor, y: int)
    requires over.Valid() && (under != null ==> under.Valid())
    requires y < over.rect.max.y
    ensures var s := RowFrom(colors, m, over, under, buf, cur, over.rect.min.x, y);
            RowsFrom(colors, m, over, under, buf, cur, y) == RowsFrom(colors, m, over, under, s.0, s.1, y + 1)
  {
  }

  /** RenderOver: the row-major walk over the front display's rectangle. */
  method RenderOver(colors: ColorTable, buf0: seq<byte>, cur0: Cursor, over: Display, under: Display?, m: Model)
    returns (buf: seq<byte>, cur: Cursor)
    requires over.Valid() && (under != null ==> under.Valid())
    ensures (buf, cur) == RowsFrom(colors, m, over, under, buf0, cur0, over.rect.min.y)
  {
    buf, cur := buf0, cur0;
    var y := over.rect.min.y;
    while y < over.rect.max.y
      invariant RowsFrom(colors, m, over, under, buf0, cur0, over.rect.min.y) ==
                RowsFrom(colors, m, over, under, buf, cur, y)
      decreases over.rect.max.y - y
    {
      ghost var rowStart := (buf, cur);
      buf, cur := RenderRow(colors, buf, cur, over, under, m, y);
      RowsFromStep(colors, m, over, under, rowStart.0, rowStart.1, y);
      y := y + 1;
    }
  }

  /** RenderOver's inner loop: row y, column by column. */
  method RenderRow(colors: ColorTable, buf0: seq<byte>, cur0: Cursor, over: Display, under: Display?, m: Model, y: int)
    returns (buf: seq<byte>, cur: Cursor)
    requires over.Valid() && (under != null ==> under.Valid())
    ensures (buf, cur) == RowFrom(colors, m, over, under, buf0, cur0, over.rect.min.x, y)
  {
    buf, cur := buf0, cur0;
    var x := over.rect.min.x;
    while x < over.rect.max.x
      invariant RowFrom(colors, m, over, under, buf0, cur0, over.rect.min.x, y) ==
                RowFrom(colors, m, over, under, buf, cur, x, y)
      decreases over.rect.max.x - x
    {
      var s := Step(colors, m, buf, cur, Point(x, y), over.At(x, y), BackAt(colors, under, x, y));
      RowFromStep(colors, m, over, under, buf, cur, x, y);
      buf, cur := s.0, s.1;
      x := x + 1;
    }
  }

  /** Render: RenderOver with no back display. */
  method Render(colors: ColorTable, buf0: seq<byte>, cur0: Cursor, over: Display, m: Model)
    returns (buf: seq<byte>, cur: Cursor)
    requires over.Valid()
    ensures (buf, cur) == RowsFrom(colors, m, over, null, buf0, cur0, over.rect.min.y)
  {
    buf, cur := RenderOver(colors, buf0, cur0, over, null, m);
  }

  // Properties of the walk.

  /** The walk only appends to the buffer. */
  lemma {:induction false} RowFromExtends(colors: ColorTable, m: Model, over: Display, under: Display?,
                                          buf: seq<byte>, cur: Cursor, x: int, y: int)
    requires over.Valid() && (under != null ==> under.Valid())
    ensures Extends(buf, RowFrom(colors, m, over, under, buf, cur, x, y).0)
    decreases over.rect.max.x - x
  {
    if x < over.rect.max.x {
      var s := Step(colors, m, buf, cur, Point(x, y), over.At(x, y), BackAt(colors, under, x, y));
      RowFromStep(colors, m, over, under, buf, cur, x, y);
      RowFromExtends(colors, m, over, under, s.0, s.1, x + 1, y);
      ExtendsTrans(buf, s.0, RowFrom(colors, m, over, under, s.0, s.1, x + 1, y).0);
    }
  }

  lemma {:induction false} RowsFromExtends(colors: ColorTable, m: Model, over: Display, under: Display?,
                                           buf: seq<byte>, cur: Cursor, y: int)
    requires over.Valid() && (under != null ==> under.Valid())
    ensures Extends(buf, RowsFrom(colors, m, over, under, buf, cur, y).0)
    decreases over.rect.max.y - y
  {
    if y < over.rect.max.y {
      RowFromExtends(colors, m, over, under, buf, cur, over.rect.min.x, y);
      var s := RowFrom(colors, m, over, under, buf, cur, over.rect.min.x, y);
      RowsFromStep(colors, m, over, under, buf, cur, y);
      RowsFromExtends(colors, m, over, under, s.0, s.1, y + 1);
      ExtendsTrans(buf, s.0, RowsFrom(colors, m, over, under, s.0, s.1, y + 1).0);
    }
  }

  /** A prefix of a prefix is a prefix. */
  lemma ExtendsTrans(a: seq<byte>, b: seq<byte>, c: seq<byte>)
    requires Extends(a, b) && Extends(b, c)
    ensures Extends(a, c)
  {
    assert c[..|a|] == c[..|b|][..|a|];
  }

  /** Two back cells that a front cell both differs from give the same step. */
  lemma StepDiffers(colors: ColorTable, m: Model, buf: seq<byte>, cur: Cursor, p: Point, o: Cell,
                    u: Behind, v: Behind)
    requires !Same(o, u) && !Same(o, v)
    ensures Step(colors, m, buf, cur, p, o, u) == Step(colors, m, buf, cur, p, o, v)
  {
  }

  /** With no back display a cell is never skipped: it is drawn, and
      writes at least one byte. */
  lemma StepNoBack(colors: ColorTable, m: Model, buf: seq<byte>, cur: Cursor, p: Point, o: Cell)
    ensures Step(colors, m, buf, cur, p, o, NoBack) == Draw(colors, m, buf, cur, p, o)
    ensures |Step(colors, m, buf, cur, p, o, NoBack).0| > |buf|
  {
  }

  /** Every cell of the front looks the same as the back from (x, y) on. */
  ghost predicate AllSameFrom(colors: ColorTable, over: Display, under: Display?, x: int, y: int)
    reads over, over.text, over.fg, over.bg, over.text.cells, over.fg.cells, over.bg.cells
    reads under, if under == null then {} else {under.text, under.fg, under.bg, under.text.cells, under.fg.cells, under.bg.cells}
    requires over.Valid() && (under != null ==> under.Valid())
  {
    forall px: int :: x <= px < over.rect.max.x ==> Same(over.At(px, y), BackAt(colors, under, px, y))
  }

  lemma {:induction false} RowFromSame(colors: ColorTable, m: Model, over: Display, under: Display?,
                                       buf: seq<byte>, cur: Cursor, x: int, y: int)
    requires over.Valid() && (under != null ==> under.Valid())
    requires AllSameFrom(colors, over, under, x, y)
    ensures RowFrom(colors, m, over, under, buf, cur, x, y) == (buf, cur)
    decreases over.rect.max.x - x
  {
    if x < over.rect.max.x {
      RowFromSame(colors, m, over, under, buf, cur, x + 1, y);
    }
  }

  /** Where front and back look the same everywhere, the walk appends
      nothing and leaves the cursor as it was. */
  lemma {:induction false} RowsFromSame(colors: ColorTable, m: Model, over: Display, under: Display?,
                                        buf: seq<byte>, cur: Cursor, y: int)
    requires over.Valid() && (under != null ==> under.Valid())
    requires forall py: int :: y <= py < over.rect.max.y ==> AllSameFrom(colors, over, under, over.rect.min.x, py)
    ensures RowsFrom(colors, m, over, under, buf, cur, y) == (buf, cur)
    decreases over.rect.max.y - y
  {
    if y < over.rect.max.y {
      RowFromSame(colors, m, over, under, buf, cur, over.rect.min.x, y);
      RowsFromSame(colors, m, over, under, buf, cur, y + 1);
    }
  }

  /** RenderOver(G, G) appends nothing and returns the cursor unchanged. */
  lemma RenderOverItself(colors: ColorTable, m: Model, g: Display, buf: seq<byte>, cur: Cursor)
    requires g.Valid()
    ensures RowsFrom(colors, m, g, g, buf, cur, g.rect.min.y) == (buf, cur)
  {
    RowsFromSame(colors, m, g, g, buf, cur, g.rect.min.y);
  }

  // The scenarios of display/render_test.go.

  /** color.White as an RGBA value. */
  const White := RGBA(255, 255, 255, 255)

  /** A glyph of two code points: a thumbs-up and a skin-tone modifier. */
  const Hand: string := "\U{1F44D}\U{1F3FB}"

  /** The two cells of RenderMultiRuneCell, one Step each. */
  lemma MultiRuneSteps(colors: ColorTable)
    ensures var c := Cell(Hand, White, Transparent);
            var u: Behind := NoBack;
            var s0 := Step(colors, Model0, [], ResetState(colors), Point(0, 0), c, u);
            s0 == (Encode(Hand), Cursor(Point(-1, 0), White, Transparent)) &&
            Step(colors, Model0, s0.0, s0.1, Point(1, 0), c, u) ==
            (Encode(Hand) + [CR] + Csi("1C") + Encode(Hand), Cursor(Point(-1, 0), White, Transparent))
  {
    var c := Cell(Hand, White, Transparent);
    var u: Behind := NoBack;
    var s0 := (Encode(Hand), Cursor(Point(-1, 0), White, Transparent));
    MovedNowhere(colors, [], ResetState(colors));
    assert ColorModel.Render(Model0, colors, [], ResetState(colors), White, Transparent) == ([], Cursor(Origin, White, Transparent));
    assert [] + Encode(Hand) == Encode(Hand);
    assert Step(colors, Model0, [], ResetState(colors), Point(0, 0), c, u) == s0;
    assert GoPrologue(colors, s0.0, s0.1, Point(1, 0)) == (s0.0 + [CR], Cursor(Origin, White, Transparent));
    assert Itoa(1) + "C" == "1C";
    assert Horizontal(0, 1) == Csi("1C");
    var m := (Encode(Hand) + [CR] + Csi("1C"), Cursor(Point(1, 0), White, Transparent));
    assert Moved(colors, s0.0, s0.1, Point(1, 0)) == m;
    assert ColorModel.Render(Model0, colors, m.0, m.1, White, Transparent) == m;
  }

  /** Rendering a one-row display whose two cells hold c, with no back
      display, from Reset with Model0. */
  lemma RowsFromMultiRune(colors: ColorTable, d: Display)
    requires d.Valid() && d.rect == Rect(Origin, Point(2, 1))
    requires d.At(0, 0) == Cell(Hand, White, Transparent) && d.At(1, 0) == Cell(Hand, White, Transparent)
    ensures RowsFrom(colors, Model0, d, null, [], ResetState(colors), 0).0 ==
            Encode(Hand) + [CR] + Csi("1C") + Encode(Hand)
  {
    MultiRuneSteps(colors);
    var c, u := Cell(Hand, White, Transparent), NoBack;
    var s0 := Step(colors, Model0, [], ResetState(colors), Point(0, 0), c, u);
    var s1 := Step(colors, Model0, s0.0, s0.1, Point(1, 0), c, u);
    RowFromStep(colors, Model0, d, null, [], ResetState(colors), 0, 0);
    RowFromStep(colors, Model0, d, null, s0.0, s0.1, 1, 0);
    assert RowFrom(colors, Model0, d, null, [], ResetState(colors), 0, 0) == s1;
    RowsFromStep(colors, Model0, d, null, [], ResetState(colors), 0);
  }

  /** Two multi-rune cells rendered from Reset with Model0: after the first
      glyph the column is unknown, so the second cell is reached by a
      carriage return and CUF 1. */
  method RenderMultiRuneCell(colors: ColorTable) returns (buf: seq<byte>)
    ensures buf == Encode(Hand) + [CR] + Csi("1C") + Encode(Hand)
  {
    var d := new Display.New(Rect(Origin, Point(2, 1)));
    d.Set(0, 0, Hand, White, Transparent);
    d.Set(1, 0, Hand, White, Transparent);
    assert d.At(0, 0) == d.At(1, 0) == Cell(Hand, White, Transparent);
    var cur := ResetState(colors);
    buf, cur := Render(colors, [], cur, d, Model0);
    RowsFromMultiRune(colors, d);
  }

  /** The three cells of RenderBlankAndMultiRuneCellOver, one Step each. */
  lemma BlankAndMultiRuneSteps(colors: ColorTable)
    ensures var b := Cell("", White, Transparent);
            var h := Cell(Hand, White, Transparent);
            var s0 := Step(colors, Model0, [], ResetState(colors), Point(0, 0), b, Behind(BlankCell));
            var s1 := Step(colors, Model0, s0.0, s0.1, Point(1, 0), h, Behind(BlankCell));
            s0 == (Encode(" "), Cursor(Point(1, 0), White, Transparent)) &&
            s1 == (Encode(" ") + Encode(Hand), Cursor(Point(-1, 0), White, Transparent)) &&
            Step(colors, Model0, s1.0, s1.1, Point(2, 0), b, Behind(BlankCell)) ==
            (Encode(" ") + Encode(Hand) + [CR] + Csi("2C") + Encode(" "), Cursor(Point(3, 0), White, Transparent))
  {
    var b := Cell("", White, Transparent);
    var h := Cell(Hand, White, Transparent);
    assert !Same(h, Behind(BlankCell)) by { assert |Glyph(h.text)| == 2; }
    MovedNowhere(colors, [], ResetState(colors));
    assert ColorModel.Render(Model0, colors, [], ResetState(colors), White, Transparent) == ([], Cursor(Origin, White, Transparent));
    var s0 := (Encode(" "), Cursor(Point(1, 0), White, Transparent));
    assert [] + Encode(" ") == Encode(" ");
    assert Step(colors, Model0, [], ResetState(colors), Point(0, 0), b, Behind(BlankCell)) == s0;
    MovedNowhere(colors, s0.0, s0.1);
    var s1 := (Encode(" ") + Encode(Hand), Cursor(Point(-1, 0), White, Transparent));
    assert Step(colors, Model0, s0.0, s0.1, Point(1, 0), h, Behind(BlankCell)) == s1;
    assert GoPrologue(colors, s1.0, s1.1, Point(2, 0)) == (s1.0 + [CR], Cursor(Origin, White, Transparent));
    assert Itoa(2) + "C" == "2C";
    assert Horizontal(0, 2) == Csi("2C");
    var m := (s1.0 + [CR] + Csi("2C"), Cursor(Point(2, 0), White, Transparent));
    assert Moved(colors, s1.0, s1.1, Point(2, 0)) == m;
  }

  /** Rendering a one-row front of a blank, a multi-rune and a blank cell
      over an all-blank back, from Reset with Model0. */
  lemma RowsFromBlankAndMultiRune(colors: ColorTable, front: Display, back: Display)
    requires front.Valid() && front.rect == Rect(Origin, Point(3, 1)) && back.Valid()
    requires front.At(0, 0) == front.At(2, 0) == Cell("", White, Transparent)
    requires front.At(1, 0) == Cell(Hand, White, Transparent)
    requires back.At(0, 0) == back.At(1, 0) == back.At(2, 0) == BlankCell
    ensures RowsFrom(colors, Model0, front, back, [], ResetState(colors), 0).0 ==
            Encode(" ") + Encode(Hand) + [CR] + Csi("2C") + Encode(" ")
  {
    BlankAndMultiRuneSteps(colors);
    var bl, h := Cell("", White, Transparent), Cell(Hand, White, Transparent);
    var s0 := Step(colors, Model0, [], ResetState(colors), Point(0, 0), bl, Behind(BlankCell));
    var s1 := Step(colors, Model0, s0.0, s0.1, Point(1, 0), h, Behind(BlankCell));
    var s2 := Step(colors, Model0, s1.0, s1.1, Point(2, 0), bl, Behind(BlankCell));
    RowFromStep(colors, Model0, front, back, [], ResetState(colors), 0, 0);
    RowFromStep(colors, Model0, front, back, s0.0, s0.1, 1, 0);
    RowFromStep(colors, Model0, front, back, s1.0, s1.1, 2, 0);
    assert RowFrom(colors, Model0, front, back, [], ResetState(colors), 0, 0) == s2;
    RowsFromStep(colors, Model0, front, back, [], ResetState(colors), 0);
  }

  /** A blank, a multi-rune and a blank cell over a new back display: the
      blanks differ from the back in their foreground, so each is written
      as a space. */
  method RenderBlankAndMultiRuneCellOver(colors: ColorTable) returns (buf: seq<byte>)
    ensures buf == Encode(" ") + Encode(Hand) + [CR] + Csi("2C") + Encode(" ")
  {
    var front := BlankAndMultiRuneFront();
    var back := new Display.New(Rect(Origin, Point(3, 1)));
    buf := RenderBlankAndMultiRune(colors, front, back);
  }

  /** The front of that scenario: a blank, the multi-rune cell and a blank,
      white over transparent. */
  method BlankAndMultiRuneFront() returns (front: Display)
    ensures fresh(front) && front.Valid() && front.rect == Rect(Origin, Point(3, 1))
    ensures front.At(0, 0) == front.At(2, 0) == Cell("", White, Transparent)
    ensures front.At(1, 0) == Cell(Hand, White, Transparent)
  {
    front := new Display.New(Rect(Origin, Point(3, 1)));
    front.Set(0, 0, "", White, Transparent);
    front.Set(1, 0, Hand, White, Transparent);
    front.Set(2, 0, "", White, Transparent);
  }

  /** Render of that front over a blank back, from the reset state. */
  method RenderBlankAndMultiRune(colors: ColorTable, front: Display, back: Display) returns (buf: seq<byte>)
    requires front.Valid() && front.rect == Rect(Origin, Point(3, 1)) && back.Valid()
    requires front.At(0, 0) == front.At(2, 0) == Cell("", White, Transparent)
    requires front.At(1, 0) == Cell(Hand, White, Transparent)
    requires back.At(0, 0) == back.At(1, 0) == back.At(2, 0) == BlankCell
    ensures buf == Encode(" ") + Encode(Hand) + [CR] + Csi("2C") + Encode(" ")
  {
    var cur := ResetState(colors);
    buf, cur := RenderOver(colors, [], cur, front, back, Model0);
    RowsFromBlankAndMultiRune(colors, front, back);
  }

  /** Rendering the blank, multi-rune and blank front with no back display,
      from Reset with Model0: no cell is skipped, and each step is the one it
      takes over a blank back. */
  lemma RowsFromBlankAndMultiRuneAlone(colors: ColorTable, front: Display)
    requires front.Valid() && front.rect == Rect(Origin, Point(3, 1))
    requires front.At(0, 0) == front.At(2, 0) == Cell("", White, Transparent)
    requires front.At(1, 0) == Cell(Hand, White, Transparent)
    ensures RowsFrom(colors, Model0, front, null, [], ResetState(colors), 0).0 ==
            Encode(" ") + Encode(Hand) + [CR] + Csi("2C") + Encode(" ")
  {
    BlankAndMultiRuneSteps(colors);
    var bl, h := Cell("", White, Transparent), Cell(Hand, White, Transparent);
    var s0 := Step(colors, Model0, [], ResetState(colors), Point(0, 0), bl, Behind(BlankCell));
    var s1 := Step(colors, Model0, s0.0, s0.1, Point(1, 0), h, Behind(BlankCell));
    var s2 := Step(colors, Model0, s1.0, s1.1, Point(2, 0), bl, Behind(BlankCell));
    assert !Same(h, Behind(BlankCell)) by { assert |Glyph(h.text)| == 2; }
    StepDiffers(colors, Model0, [], ResetState(colors), Point(0, 0), bl, NoBack, Behind(BlankCell));
    StepDiffers(colors, Model0, s0.0, s0.1, Point(1, 0), h, NoBack, Behind(BlankCell));
    StepDiffers(colors, Model0, s1.0, s1.1, Point(2, 0), bl, NoBack, Behind(BlankCell));
    RowFromStep(colors, Model0, front, null, [], ResetState(colors), 0, 0);
    RowFromStep(colors, Model0, front, null, s0.0, s0.1, 1, 0);
    RowFromStep(colors, Model0, front, null, s1.0, s1.1, 2, 0);
    assert RowFrom(colors, Model0, front, null, [], ResetState(colors), 0, 0) == s2;
    RowsFromStep(colors, Model0, front, null, [], ResetState(colors), 0);
  }

  /** The blank, multi-rune and blank front rendered with no back display:
      the blanks are written as spaces, as over a blank back. */
  method RenderBlankAndMultiRuneCell(colors: ColorTable) returns (buf: seq<byte>)
    ensures buf == Encode(" ") + Encode(Hand) + [CR] + Csi("2C") + Encode(" ")
  {
    var front := BlankAndMultiRuneFront();
    var cur := ResetState(colors);
    buf, cur := Render(colors, [], cur, front, Model0);
    RowsFromBlankAndMultiRuneAlone(colors, front);
  }

  // The rendering scenario of text/text_test.go.

  /** A one-rune cell where the cursor stands, in the cursor's colours,
      over a blank back cell: only the rune is written, and the cursor
      steps right. */
  lemma StepInPlace(colors: ColorTable, buf: seq<byte>, cur: Cursor, ch: char)
    requires cur.position.x >= 0 && ch != ' '
    ensures Step(colors, Model0, buf, cur, cur.position, Cell([ch], cur.foreground, cur.background), Behind(BlankCell)) ==
            (buf + Encode([ch]), cur.(position := Point(cur.position.x + 1, cur.position.y)))
  {
    assert !Same(Cell([ch], cur.foreground, cur.background), Behind(BlankCell)) by {
      assert Glyph([ch]) == [ch] != " ";
    }
    MovedNowhere(colors, buf, cur);
  }

  /** A one-rune cell at the start of the next line, in white on black, with
      the cursor already white on black: CR LF, then the rune. */
  lemma StepNextLine(colors: ColorTable, buf: seq<byte>, cur: Cursor, ch: char)
    requires cur.position.x >= 0 && cur.foreground == colors[7] && cur.background == colors[0] && ch != ' '
    ensures Step(colors, Model0, buf, cur, Point(0, cur.position.y + 1), Cell([ch], colors[7], colors[0]), Behind(BlankCell)) ==
            (buf + [CR, LF] + Encode([ch]), cur.(position := Point(1, cur.position.y + 1)))
  {
    assert !Same(Cell([ch], colors[7], colors[0]), Behind(BlankCell)) by {
      assert Glyph([ch]) == [ch] != " ";
    }
    MovedNextLine(colors, buf, cur);
  }

  /** The three runes of row y of the marks m. */
  function RowText(m: map<Point, char>, y: int): (t: string)
    requires forall x :: 0 <= x < 3 ==> Point(x, y) in m
    ensures |t| == 3 && forall x :: 0 <= x < 3 ==> t[x] == m[Point(x, y)]
  {
    [m[Point(0, y)], m[Point(1, y)], m[Point(2, y)]]
  }

  /** Row y of a three-column front: the runes of m in white on black, none
      a space, over blanks behind. */
  ghost predicate RowShows(colors: ColorTable, front: Display, back: Display, y: int, m: map<Point, char>)
    reads front, front.text, front.fg, front.bg, front.text.cells, front.fg.cells, front.bg.cells
    reads back, back.text, back.fg, back.bg, back.text.cells, back.fg.cells, back.bg.cells
    requires front.Valid() && back.Valid()
  {
    forall x :: 0 <= x < 3 ==>
      Point(x, y) in m && m[Point(x, y)] != ' ' &&
      front.At(x, y) == Cell([m[Point(x, y)]], colors[7], colors[0]) && back.At(x, y) == BlankCell
  }

  /** Columns 1 and 2 of such a row, from the cursor at column 1. */
  lemma RowRest(colors: ColorTable, front: Display, back: Display, buf: seq<byte>, cur: Cursor, y: int, m: map<Point, char>)
    requires front.Valid() && back.Valid() && front.rect.max.x == 3 && RowShows(colors, front, back, y, m)
    requires cur == Cursor(Point(1, y), colors[7], colors[0])
    ensures RowFrom(colors, Model0, front, back, buf, cur, 1, y) ==
            (buf + Encode([m[Point(1, y)]]) + Encode([m[Point(2, y)]]), cur.(position := Point(3, y)))
  {
    RowFromStep(colors, Model0, front, back, buf, cur, 1, y);
    StepInPlace(colors, buf, cur, m[Point(1, y)]);
    var c1 := cur.(position := Point(2, y));
    RowFromStep(colors, Model0, front, back, buf + Encode([m[Point(1, y)]]), c1, 2, y);
    StepInPlace(colors, buf + Encode([m[Point(1, y)]]), c1, m[Point(2, y)]);
  }

  /** The bytes of one three-rune row. */
  lemma RowBytes(m: map<Point, char>, y: int)
    requires forall x :: 0 <= x < 3 ==> Point(x, y) in m
    ensures Encode([m[Point(0, y)]]) + Encode([m[Point(1, y)]]) + Encode([m[Point(2, y)]]) == Encode(RowText(m, y))
  {
    var t := RowText(m, y);
    assert t == [t[0]] + [t[1]] + [t[2]];
    EncodeAppend([t[0]], [t[1]]);
    EncodeAppend([t[0]] + [t[1]], [t[2]]);
  }

  /** The first row, from the Reset cursor. */
  lemma FirstRow(colors: ColorTable, front: Display, back: Display, m: map<Point, char>)
    requires front.Valid() && back.Valid() && front.rect.min.x == 0 && front.rect.max.x == 3
    requires RowShows(colors, front, back, 0, m)
    ensures RowFrom(colors, Model0, front, back, [], ResetState(colors), 0, 0) ==
            (Encode(RowText(m, 0)), Cursor(Point(3, 0), colors[7], colors[0]))
  {
    RowFromStep(colors, Model0, front, back, [], ResetState(colors), 0, 0);
    StepInPlace(colors, [], ResetState(colors), m[Point(0, 0)]);
    assert [] + Encode([m[Point(0, 0)]]) == Encode([m[Point(0, 0)]]);
    RowRest(colors, front, back, Encode([m[Point(0, 0)]]), Cursor(Point(1, 0), colors[7], colors[0]), 0, m);
    RowBytes(m, 0);
  }

  /** Row y, from the cursor just past the end of the row above. */
  lemma NextRow(colors: ColorTable, front: Display, back: Display, buf: seq<byte>, y: int, m: map<Point, char>)
    requires front.Valid() && back.Valid() && front.rect.min.x == 0 && front.rect.max.x == 3
    requires RowShows(colors, front, back, y, m)
    ensures RowFrom(colors, Model0, front, back, buf, Cursor(Point(3, y - 1), colors[7], colors[0]), 0, y) ==
            (buf + [CR, LF] + Encode(RowText(m, y)), Cursor(Point(3, y), colors[7], colors[0]))
  {
    var e0, e1, e2 := Encode([m[Point(0, y)]]), Encode([m[Point(1, y)]]), Encode([m[Point(2, y)]]);
    var b := buf + [CR, LF] + e0;
    NextRowStart(colors, front, back, buf, y, m);
    RowRest(colors, front, back, b, Cursor(Point(1, y), colors[7], colors[0]), y, m);
    RowBytes(m, y);
    Regroup(buf + [CR, LF], e0, e1, e2);
  }

  /** Concatenation, regrouped. */
  lemma Regroup(a: seq<byte>, b: seq<byte>, c: seq<byte>, d: seq<byte>)
    ensures a + b + c + d == a + (b + c + d)
  {
  }

  /** Column 0 of row y: CR LF, then its rune. */
  lemma NextRowStart(colors: ColorTable, front: Display, back: Display, buf: seq<byte>, y: int, m: map<Point, char>)
    requires front.Valid() && back.Valid() && 0 < front.rect.max.x && RowShows(colors, front, back, y, m)
    ensures RowFrom(colors, Model0, front, back, buf, Cursor(Point(3, y - 1), colors[7], colors[0]), 0, y) ==
            RowFrom(colors, Model0, front, back, buf + [CR, LF] + Encode([m[Point(0, y)]]),
                    Cursor(Point(1, y), colors[7], colors[0]), 1, y)
  {
    var cur := Cursor(Point(3, y - 1), colors[7], colors[0]);
    RowFromStep(colors, Model0, front, back, buf, cur, 0, y);
    StepNextLine(colors, buf, cur, m[Point(0, y)]);
  }

  /** A two-row front over a blank back, rendered from Reset with Model0:
      the first row, CR LF, the second row. */
  lemma RowsFromTwoRows(colors: ColorTable, front: Display, back: Display, m: map<Point, char>)
    requires front.Valid() && back.Valid() && front.rect == Rect(Origin, Point(3, 2))
    requires RowShows(colors, front, back, 0, m) && RowShows(colors, front, back, 1, m)
    ensures RowsFrom(colors, Model0, front, back, [], ResetState(colors), 0).0 ==
            Encode(RowText(m, 0) + "\r\n" + RowText(m, 1))
  {
    var b0 := Encode(RowText(m, 0));
    FirstRow(colors, front, back, m);
    RowsFromStep(colors, Model0, front, back, [], ResetState(colors), 0);
    SecondRow(colors, front, back, b0, m);
    TwoRowBytes(RowText(m, 0), RowText(m, 1));
  }

  /** The second and last row of a two-row front. */
  lemma SecondRow(colors: ColorTable, front: Display, back: Display, buf: seq<byte>, m: map<Point, char>)
    requires front.Valid() && back.Valid() && front.rect.min.x == 0 && front.rect.max.x == 3 && front.rect.max.y == 2
    requires RowShows(colors, front, back, 1, m)
    ensures RowsFrom(colors, Model0, front, back, buf, Cursor(Point(3, 0), colors[7], colors[0]), 1).0 ==
            buf + [CR, LF] + Encode(RowText(m, 1))
  {
    var c0 := Cursor(Point(3, 0), colors[7], colors[0]);
    RowsFromStep(colors, Model0, front, back, buf, c0, 1);
    NextRow(colors, front, back, buf, 1, m);
    var b1 := buf + [CR, LF] + Encode(RowText(m, 1));
    RowsFromEnd(colors, front, back, b1, Cursor(Point(3, 1), colors[7], colors[0]), 2);
  }

  /** Past the last row there is nothing more to render. */
  lemma RowsFromEnd(colors: ColorTable, front: Display, back: Display, buf: seq<byte>, cur: Cursor, y: int)
    requires front.Valid() && back.Valid() && y >= front.rect.max.y
    ensures RowsFrom(colors, Model0, front, back, buf, cur, y) == (buf, cur)
  {
  }

  /** The bytes of two rows joined by CR LF. */
  lemma TwoRowBytes(t0: string, t1: string)
    ensures Encode(t0 + "\r\n" + t1) == Encode(t0) + [CR, LF] + Encode(t1)
  {
    EncodeAppend(t0, "\r\n");
    EncodeAppend(t0 + "\r\n", t1);
    assert Encode("\r\n") == [CR, LF];
  }

  /** The front display of text/text_test.go's TestRender: a display of
      the bounds of s, filled white on black, with s written into it in
      white. When Write marks every cell of the bounds, each cell holds its
      mark in white on black. */
  method WrittenFront(colors: ColorTable, s: string) returns (front: Display)
    requires Text.BoundsOf(s) == Rect(Origin, Point(3, 2))
    requires forall x, y :: 0 <= x < 3 && 0 <= y < 2 ==> Point(x, y) in Text.InkOf(s).marks
    ensures front.Valid() && front.rect == Rect(Origin, Point(3, 2))
    ensures forall x, y :: 0 <= x < 3 && 0 <= y < 2 ==> front.At(x, y) == Cell([Text.InkOf(s).marks[Point(x, y)]], colors[7], colors[0])
  {
    var bounds := Text.Bounds(s);
    front := new Display.New(bounds);
    front.Fill(bounds, "", colors[7], colors[0]);
    label Filled:
    Text.Write(front, bounds, s, colors[7]);
    ghost var m := Text.InkOf(s).marks;
    forall x, y | 0 <= x < 3 && 0 <= y < 2
      ensures front.At(x, y) == Cell([m[Point(x, y)]], colors[7], colors[0])
    {
      assert Point(x, y).Sub(bounds.min) == Point(x, y);
      assert Point(x, y).In(bounds) && Point(x, y).In(front.rect);
      assert Text.Inked(m, bounds, x, y);
      assert front.text.At(x, y) == [m[Point(x, y)]];
      assert front.fg.At(x, y) == colors[7];
      assert old@Filled(front.At(x, y)) == Cell("", colors[7], colors[0]);
      assert front.bg.At(x, y) == old@Filled(front.bg.At(x, y)) == colors[0];
    }
  }

  /** Two blank-backed rows of a new back display under a written front. */
  lemma BothRowsShow(colors: ColorTable, front: Display, back: Display, m: map<Point, char>)
    requires front.Valid() && back.Valid()
    requires forall x, y :: 0 <= x < 3 && 0 <= y < 2 ==> Point(x, y) in m && m[Point(x, y)] != ' '
    requires forall x, y :: 0 <= x < 3 && 0 <= y < 2 ==> front.At(x, y) == Cell([m[Point(x, y)]], colors[7], colors[0])
    requires forall x: int, y: int :: back.At(x, y) == BlankCell
    ensures RowShows(colors, front, back, 0, m) && RowShows(colors, front, back, 1, m)
  {
  }

  /** TestRender's steps for a text s whose bounds are three by two and that
      marks every cell of them with a rune other than a space: the front is
      rendered over a new back display from Reset with Model0, giving the
      two rows of runes joined by CR LF. */
  method RenderWritten(colors: ColorTable, s: string) returns (buf: seq<byte>)
    requires Text.BoundsOf(s) == Rect(Origin, Point(3, 2))
    requires forall x, y :: 0 <= x < 3 && 0 <= y < 2 ==> Point(x, y) in Text.InkOf(s).marks && Text.InkOf(s).marks[Point(x, y)] != ' '
    ensures buf == Encode(RowText(Text.InkOf(s).marks, 0) + "\r\n" + RowText(Text.InkOf(s).marks, 1))
  {
    ghost var m := Text.InkOf(s).marks;
    var front := WrittenFront(colors, s);
    var back := new Display.New(front.rect);
    BothRowsShow(colors, front, back, m);
    buf := RenderTwoRows(colors, front, back, m);
  }

  /** RenderOver from Reset with Model0 on a two-row front over a blank back. */
  method RenderTwoRows(colors: ColorTable, front: Display, back: Display, ghost m: map<Point, char>) returns (buf: seq<byte>)
    requires front.Valid() && back.Valid() && front.rect == Rect(Origin, Point(3, 2))
    requires RowShows(colors, front, back, 0, m) && RowShows(colors, front, back, 1, m)
    ensures buf == Encode(RowText(m, 0) + "\r\n" + RowText(m, 1))
  {
    var cur := ResetState(colors);
    buf, cur := RenderOver(colors, [], cur, front, back, Model0);
    RowsFromTwoRows(colors, front, back, m);
  }

  /** The runes of the example "abc\n123\n" by cell: every cell of its
      bounds is marked, with no space, and the rows read "abc" and "123". */
  lemma ExampleMarks(m: map<Point, char>)
    requires m == map[Point(0, 0) := 'a', Point(1, 0) := 'b', Point(2, 0) := 'c',
                      Point(0, 1) := '1', Point(1, 1) := '2', Point(2, 1) := '3']
    ensures forall x, y :: 0 <= x < 3 && 0 <= y < 2 ==> Point(x, y) in m && m[Point(x, y)] != ' '
    ensures RowText(m, 0) + "\r\n" + RowText(m, 1) == "abc\r\n123"
  {
    forall x, y | 0 <= x < 3 && 0 <= y < 2 ensures Point(x, y) in m && m[Point(x, y)] != ' ' {
      assert y == 0 || y == 1;
      assert x == 0 || x == 1 || x == 2;
    }
  }

  /** text/text_test.go's TestRender: "abc\n123\n" written white on black
      into a display of its own bounds renders over a new back display as
      the two lines joined by CR LF, the final newline writing nothing. The
      test's fill of the whole front is Fill over its bounds. */
  method RenderTwoLines(colors: ColorTable) returns (buf: seq<byte>)
    ensures buf == Encode("abc\r\n123")
  {
    Text.BoundsExamples();
    Text.WriteExample();
    ExampleMarks(Text.InkOf("abc\n123\n").marks);
    buf := RenderWritten(colors, "abc\n123\n");
  }
}

/** The terminal colour models of display/model.go: which encoder each depth
    uses, and Render, which emits SGR only for the channel that changed. */
module ColorModel {
  import opened Utf8
  import opened Decimal
  import opened Color
  import opened Ansi
  import opened Cursor

  /** Model0 (monochrome), Model3, Model4, Model8 (palettes of 8, 16, 256)
      and Model24 (24-bit, palette codes for exact matches). */
  datatype Model = Model0 | Model3 | Model4 | Model8 | Model24

  /** The model's foreground encoder. */
  function Foreground(m: Model, colors: ColorTable, buf: seq<byte>, c: RGBA): (r: seq<byte>)
    ensures Extends(buf, r)
    ensures m == Model0 <==> r == buf
  {
    match m
    case Model0 => NoColor(buf, c)
    case Model3 => FgPalette(buf, colors[..8], c)
    case Model4 => FgPalette(buf, colors[..16], c)
    case Model8 => FgPalette(buf, colors[..256], c)
    case Model24 => Fg24(buf, colors, c)
  }

  /** The model's background encoder. */
  function Background(m: Model, colors: ColorTable, buf: seq<byte>, c: RGBA): (r: seq<byte>)
    ensures Extends(buf, r)
    ensures m == Model0 <==> r == buf
  {
    match m
    case Model0 => NoColor(buf, c)
    case Model3 => BgPalette(buf, colors[..8], c)
    case Model4 => BgPalette(buf, colors[..16], c)
    case Model8 => BgPalette(buf, colors[..256], c)
    case Model24 => Bg24(buf, colors, c)
  }

  /** model.Render */
  function Render(m: Model, colors: ColorTable, buf: seq<byte>, cur: Cursor, fg: RGBA, bg: RGBA)
    : (r: (seq<byte>, Cursor))
    ensures r.1 == Cursor(cur.position, fg, bg)
    ensures Extends(buf, r.0)
    ensures fg == cur.foreground && bg == cur.background ==> r.0 == buf
    ensures m == Model0 ==> r.0 == buf
    ensures m != Model0 ==> (r.0 == buf <==> fg == cur.foreground && bg == cur.background)
  {
    var b1 := if fg != cur.foreground then Foreground(m, colors, buf, fg) else buf;
    var b2 := if bg != cur.background then Background(m, colors, b1, bg) else b1;
    (b2, Cursor(cur.position, fg, bg))
  }

  /** The foreground sequence comes first, then the background one; each is
      present exactly when its channel changed. */
  lemma RenderOrder(m: Model, colors: ColorTable, buf: seq<byte>, cur: Cursor, fg: RGBA, bg: RGBA)
    requires m != Model0
    ensures var r := Render(m, colors, buf, cur, fg, bg).0;
            var f := if fg != cur.foreground then Foreground(m, colors, buf, fg) else buf;
            Extends(f, r) && (f == buf <==> fg == cur.foreground) && (r == f <==> bg == cur.background)
  {
  }

  /** Rendering the same colours a second time appends nothing. */
  lemma RenderTwice(m: Model, colors: ColorTable, buf: seq<byte>, cur: Cursor, fg: RGBA, bg: RGBA)
    ensures var (b, c) := Render(m, colors, buf, cur, fg, bg);
            Render(m, colors, b, c, fg, bg) == (b, c)
  {
  }

  /** Model3 only ever writes SGR 30-37 for the foreground. */
  lemma Model3Foreground(colors: ColorTable, buf: seq<byte>, c: RGBA)
    ensures exists code :: 30 <= code < 38 && Foreground(Model3, colors, buf, c) == buf + Sgr1(code)
  {
    var i := Nearest(colors[..8], c);
    assert Foreground(Model3, colors, buf, c) == buf + Sgr1(30 + i);
  }

  /** Model3 only ever writes SGR 40-47 for the background. */
  lemma Model3Background(colors: ColorTable, buf: seq<byte>, c: RGBA)
    ensures exists code :: 40 <= code < 48 && Background(Model3, colors, buf, c) == buf + Sgr1(code)
  {
    var i := Nearest(colors[..8], c);
    assert Background(Model3, colors, buf, c) == buf + Sgr1(40 + i);
  }

  /** Model4 writes an index below 16, so never the 38;5;n form. */
  lemma Model4Foreground(colors: ColorTable, buf: seq<byte>, c: RGBA)
    ensures exists i :: 0 <= i < 16 && Foreground(Model4, colors, buf, c) == FgIndex(buf, i)
  {
    var i := Nearest(colors[..16], c);
    assert Foreground(Model4, colors, buf, c) == FgIndex(buf, i);
  }
}

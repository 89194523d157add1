/** text/text.go: measuring and writing plain text. Only newline, tab and
    (when writing) carriage return and space are treated specially; every
    other rune takes one cell. Strings are taken as sequences of runes. */
module Text {
  import opened Geom
  import opened Color
  import Display
  import Textile

  const TabStopWidth := 8

  /** The tab stop after column x. */
  function NextTab(x: int): (t: int)
    requires x >= 0
    ensures x < t <= x + TabStopWidth && t % TabStopWidth == 0
  {
    ((x + TabStopWidth) / TabStopWidth) * TabStopWidth
  }

  /** A later column never has an earlier tab stop. */
  lemma NextTabMonotone(a: int, b: int)
    requires 0 <= a <= b
    ensures NextTab(a) <= NextTab(b)
  {
    assert (a + TabStopWidth) / TabStopWidth <= (b + TabStopWidth) / TabStopWidth;
  }

  /** Bounds' running state: the pen at column x of line y (counted from 1)
      and the extent reached so far. */
  datatype Pen = Pen(x: int, y: int, width: int, height: int)

  /** One rune of Bounds' loop: every rune but newline and tab, carriage
      return and space included, takes a cell. */
  function MeasureStep(m: Pen, r: char): (n: Pen)
    requires m.x >= 0
    ensures n.x >= 0 && m.y <= n.y
    ensures m.width <= n.width && m.height <= n.height
    ensures r == '\n' || r == '\t' ==> n.width == m.width && n.height == m.height
  {
    if r == '\n' then m.(x := 0, y := m.y + 1)
    else if r == '\t' then m.(x := NextTab(m.x))
    else m.(x := m.x + 1, width := MaxI(m.width, m.x + 1), height := MaxI(m.height, m.y))
  }

  /** The pen after the runes of s. The extent never reaches past the
      current line. */
  function Measure(s: string): (m: Pen)
    ensures 0 <= m.x && 1 <= m.y && 0 <= m.width && 0 <= m.height <= m.y
  {
    if s == [] then Pen(0, 1, 0, 0) else MeasureStep(Measure(s[..|s| - 1]), s[|s| - 1])
  }

  /** The box Bounds returns for s: at the origin, as wide as the longest
      line and as high as the last line that holds a cell. */
  function BoundsOf(s: string): Rect
  {
    Rect(Origin, Point(Measure(s).width, Measure(s).height))
  }

  /** Bounds: the box that holds the message. */
  method Bounds(s: string) returns (r: Rect)
    ensures r == BoundsOf(s) && r.WellFormed() && r.min == Origin
  {
    var width, height := 0, 0;
    var x, y := 0, 1;
    var i := 0;
    while i < |s|
      invariant 0 <= i <= |s|
      invariant Pen(x, y, width, height) == Measure(s[..i])
    {
      assert s[..i + 1][..i] == s[..i];
      var c := s[i];
      if c == '\n' {
        y := y + 1;
        x := 0;
      } else if c == '\t' {
        x := ((x + TabStopWidth) / TabStopWidth) * TabStopWidth;
      } else {
        x := x + 1;
        if x > width {
          width := x;
        }
        if y > height {
          height := y;
        }
      }
      i := i + 1;
    }
    assert s[..i] == s;
    r := Rect(Origin, Point(width, height));
  }

  /** The expected boxes of the package's own examples. */
  lemma BoundsExamples()
    ensures BoundsOf("") == ZR
    ensures BoundsOf("1") == Rect(Origin, Point(1, 1))
    ensures BoundsOf("abc\n12") == Rect(Origin, Point(3, 2))
    ensures BoundsOf("ab\n123") == Rect(Origin, Point(3, 2))
    ensures BoundsOf("abc\n123\n") == Rect(Origin, Point(3, 2))
  {
    assert "1"[..0] == "";
    assert "abc\n12"[..5] == "abc\n1" && "abc\n1"[..4] == "abc\n" && "abc\n"[..3] == "abc";
    assert "abc"[..2] == "ab" && "ab"[..1] == "a" && "a"[..0] == "";
    assert "ab\n123"[..5] == "ab\n12" && "ab\n12"[..4] == "ab\n1" && "ab\n1"[..3] == "ab\n" && "ab\n"[..2] == "ab";
    assert "abc\n123\n"[..7] == "abc\n123" && "abc\n123"[..6] == "abc\n12" && "abc\n12"[..5] == "abc\n1";
  }

  /** A trailing newline adds nothing to the box. */
  lemma TrailingNewline(s: string)
    ensures BoundsOf(s + "\n") == BoundsOf(s)
  {
    assert (s + "\n")[..|s|] == s;
  }

  /** Write's running state: the pen at column x of line y (counted from 0)
      and the runes placed so far, by their offset from the bounds' corner. */
  datatype Ink = Ink(x: int, y: int, marks: map<Point, char>)

  /** The runes Write leaves transparent. */
  predicate Blank(r: char) { r == '\n' || r == '\r' || r == '\t' || r == ' ' }

  /** One rune of Write's loop: carriage return does nothing, space moves
      on without writing, any other rune is placed and moves on. */
  function InkStep(w: Ink, r: char): (v: Ink)
    requires w.x >= 0
    ensures v.x >= 0 && w.y <= v.y
    ensures r == '\r' ==> v == w
    ensures Blank(r) ==> v.marks == w.marks
    ensures !Blank(r) ==> v.marks.Keys == w.marks.Keys + {Point(w.x, w.y)}
  {
    if r == '\n' then Ink(0, w.y + 1, w.marks)
    else if r == '\r' then w
    else if r == '\t' then w.(x := NextTab(w.x))
    else if r == ' ' then w.(x := w.x + 1)
    else Ink(w.x + 1, w.y, w.marks[Point(w.x, w.y) := r])
  }

  /** The pen and the placed runes after s. */
  function InkOf(s: string): (w: Ink)
    ensures 0 <= w.x && 0 <= w.y
  {
    if s == [] then Ink(0, 0, map[]) else InkStep(InkOf(s[..|s| - 1]), s[|s| - 1])
  }

  /** White space is transparent: only other runes are placed, each at an
      offset that is not negative and on a line the pen has reached. */
  lemma {:induction false} InkMarks(s: string)
    ensures var w := InkOf(s);
      forall p :: p in w.marks ==> 0 <= p.x && 0 <= p.y <= w.y && !Blank(w.marks[p])
  {
    if s != [] {
      InkMarks(s[..|s| - 1]);
    }
  }

  /** The rune Write leaves at (px, py) of a display drawn in bounds, if any. */
  predicate Inked(marks: map<Point, char>, bounds: Rect, px: int, py: int)
  {
    Point(px, py).In(bounds) && Point(px, py).Sub(bounds.min) in marks
  }

  /** Each cell of t inside bounds shows the value placed at its offset from
      the bounds' corner, and every other cell what the storage copy T0 held. */
  ghost predicate Painted<T>(t: Textile.Textile<T>, bounds: Rect, m: map<Point, T>, T0: seq<T>)
    reads t, t.cells
    requires t.Valid() && |T0| == t.cells.Length
  {
    forall px: int, py: int {:trigger t.At(px, py)} ::
      t.At(px, py) == (if Point(px, py).In(bounds) && Point(px, py).In(t.rect) && Point(px, py).Sub(bounds.min) in m
                       then m[Point(px, py).Sub(bounds.min)] else Textile.Snap(t, T0, px, py))
  }

  /** One plane's Set in Write's loop: the value v placed at offset (x, y),
      written only when that falls inside bounds. */
  method Paint<T>(t: Textile.Textile<T>, bounds: Rect, x: int, y: int, v: T, ghost m: map<Point, T>, ghost T0: seq<T>)
    requires t.Valid() && |T0| == t.cells.Length && Painted(t, bounds, m, T0) && Textile.OutsideKept(t, T0)
    modifies t.cells
    ensures t.Valid() && Painted(t, bounds, m[Point(x, y) := v], T0) && Textile.OutsideKept(t, T0)
  {
    var pt := Point(x, y).Add(bounds.min);
    if pt.In(bounds) {
      t.Set(pt.x, pt.y, v);
    }
    forall px: int, py: int
      ensures t.At(px, py) == (if Point(px, py).In(bounds) && Point(px, py).In(t.rect) && Point(px, py).Sub(bounds.min) in m[Point(x, y) := v]
                               then m[Point(x, y) := v][Point(px, py).Sub(bounds.min)] else Textile.Snap(t, T0, px, py))
    {
      if px != pt.x || py != pt.y {
        assert Point(px, py).Sub(bounds.min) != Point(x, y);
      }
    }
  }

  /** The strings Write leaves, by offset. */
  ghost function Texts(m: map<Point, char>): map<Point, string>
  {
    map p | p in m :: [m[p]]
  }

  /** The foreground Write leaves, by offset. */
  ghost function Inks(m: map<Point, char>, f: RGBA): map<Point, RGBA>
  {
    map p | p in m :: f
  }

  /** The body of Write's loop: one rune moves the pen and, unless it is
      white space, is painted at the pen's offset in both planes. */
  method WriteRune(dst: Display.Display, bounds: Rect, x: int, y: int, c: char, f: RGBA,
                   ghost m: map<Point, char>, ghost T0: seq<string>, ghost F0: seq<RGBA>)
    returns (x': int, y': int)
    requires x >= 0 && dst.Valid() && |T0| == dst.text.cells.Length && |F0| == dst.fg.cells.Length
    requires Painted(dst.text, bounds, Texts(m), T0) && Painted(dst.fg, bounds, Inks(m, f), F0)
    requires Textile.OutsideKept(dst.text, T0) && Textile.OutsideKept(dst.fg, F0)
    modifies dst.text.cells, dst.fg.cells
    ensures Textile.OutsideKept(dst.text, T0) && Textile.OutsideKept(dst.fg, F0)
    ensures var w := InkStep(Ink(x, y, m), c);
      x' == w.x && y' == w.y && dst.Valid() &&
      Painted(dst.text, bounds, Texts(w.marks), T0) && Painted(dst.fg, bounds, Inks(w.marks, f), F0)
  {
    x', y' := x, y;
    if c == '\n' {
      y' := y + 1;
      x' := 0;
    } else if c == '\r' {
    } else if c == '\t' {
      x' := ((x + TabStopWidth) / TabStopWidth) * TabStopWidth;
    } else if c == ' ' {
      x' := x + 1;
    } else {
      PlaceRune(dst, bounds, x, y, c, f, m, T0, F0);
      x' := x + 1;
    }
  }

  /** A rune that is not white space, painted in both planes. */
  method PlaceRune(dst: Display.Display, bounds: Rect, x: int, y: int, c: char, f: RGBA,
                   ghost m: map<Point, char>, ghost T0: seq<string>, ghost F0: seq<RGBA>)
    requires dst.Valid() && |T0| == dst.text.cells.Length && |F0| == dst.fg.cells.Length
    requires Painted(dst.text, bounds, Texts(m), T0) && Painted(dst.fg, bounds, Inks(m, f), F0)
    requires Textile.OutsideKept(dst.text, T0) && Textile.OutsideKept(dst.fg, F0)
    modifies dst.text.cells, dst.fg.cells
    ensures Textile.OutsideKept(dst.text, T0) && Textile.OutsideKept(dst.fg, F0)
    ensures dst.Valid()
    ensures Painted(dst.text, bounds, Texts(m[Point(x, y) := c]), T0)
    ensures Painted(dst.fg, bounds, Inks(m[Point(x, y) := c], f), F0)
  {
    Paint(dst.text, bounds, x, y, [c], Texts(m), T0);
    Paint(dst.fg, bounds, x, y, f, Inks(m, f), F0);
    assert Texts(m[Point(x, y) := c]) == Texts(m)[Point(x, y) := [c]];
    assert Inks(m[Point(x, y) := c], f) == Inks(m, f)[Point(x, y) := f];
  }

  /** Write: each placed rune of s that falls inside bounds becomes the text
      of its cell, in foreground f; every other cell, and every background,
      is as it was. */
  method Write(dst: Display.Display, bounds: Rect, s: string, f: RGBA)
    requires dst.Valid()
    modifies dst.text.cells, dst.fg.cells
    ensures dst.Valid()
    ensures var m := InkOf(s).marks;
      forall px: int, py: int {:trigger dst.text.At(px, py)} ::
        dst.text.At(px, py) == (if Inked(m, bounds, px, py) && Point(px, py).In(dst.rect)
                                then [m[Point(px, py).Sub(bounds.min)]] else old(dst.text.At(px, py)))
    ensures var m := InkOf(s).marks;
      forall px: int, py: int {:trigger dst.fg.At(px, py)} ::
        dst.fg.At(px, py) == (if Inked(m, bounds, px, py) && Point(px, py).In(dst.rect)
                              then f else old(dst.fg.At(px, py)))
    ensures forall px: int, py: int {:trigger dst.bg.At(px, py)} :: dst.bg.At(px, py) == old(dst.bg.At(px, py))
    ensures dst.StorageKept(old(dst.text.cells[..]), old(dst.fg.cells[..]), old(dst.bg.cells[..]))
  {
    ghost var T0, F0 := dst.text.cells[..], dst.fg.cells[..];
    var x, y := 0, 0;
    var i := 0;
    while i < |s|
      invariant 0 <= i <= |s|
      invariant dst.Valid() && |T0| == dst.text.cells.Length && |F0| == dst.fg.cells.Length
      invariant InkOf(s[..i]).x == x && InkOf(s[..i]).y == y
      invariant Painted(dst.text, bounds, Texts(InkOf(s[..i]).marks), T0)
      invariant Painted(dst.fg, bounds, Inks(InkOf(s[..i]).marks, f), F0)
      invariant Textile.OutsideKept(dst.text, T0) && Textile.OutsideKept(dst.fg, F0)
    {
      assert s[..i + 1][..i] == s[..i];
      x, y := WriteRune(dst, bounds, x, y, s[i], f, InkOf(s[..i]).marks, T0, F0);
      i := i + 1;
    }
    assert s[..i] == s;
    Textile.SnapOld(dst.text);
    Textile.SnapOld(dst.fg);
  }

  /** Bounds holds every rune Write places: written in BoundsOf(s), moved
      anywhere, no rune of s is cut off. */
  lemma BoundsHoldsWrite(s: string)
    ensures forall p :: p in InkOf(s).marks ==> p.In(BoundsOf(s))
  {
    InkWithinMeasure(s);
  }

  /** Write's pen never runs ahead of Bounds' pen, is one line behind in
      numbering, and every placed rune lies within the extent measured. */
  lemma {:induction false} InkWithinMeasure(s: string)
    ensures var w, m := InkOf(s), Measure(s);
      w.x <= m.x && w.y + 1 == m.y &&
      forall p :: p in w.marks ==> p.x < m.width && p.y < m.height
  {
    if s != [] {
      var t, r := s[..|s| - 1], s[|s| - 1];
      InkWithinMeasure(t);
      if r == '\t' {
        NextTabMonotone(InkOf(t).x, Measure(t).x);
      }
    }
  }

  /** The first line of the package's rendering example. */
  lemma WriteExampleFirstLine()
    ensures InkOf("abc\n") == Ink(0, 1, map[Point(0, 0) := 'a', Point(1, 0) := 'b', Point(2, 0) := 'c'])
  {
    assert "abc\n"[..3] == "abc" && "abc"[..2] == "ab" && "ab"[..1] == "a" && "a"[..0] == "";
    var m1 := map[Point(0, 0) := 'a'];
    assert InkOf("a") == Ink(1, 0, m1);
    assert InkOf("ab") == Ink(2, 0, m1[Point(1, 0) := 'b']);
  }

  /** The runes the package's rendering example places: "abc" above
      "123", the final newline placing nothing. */
  lemma WriteExample()
    ensures InkOf("abc\n123\n").marks ==
      map[Point(0, 0) := 'a', Point(1, 0) := 'b', Point(2, 0) := 'c',
          Point(0, 1) := '1', Point(1, 1) := '2', Point(2, 1) := '3']
  {
    assert "abc\n123\n"[..7] == "abc\n123" && "abc\n123"[..6] == "abc\n12" && "abc\n12"[..5] == "abc\n1";
    assert "abc\n1"[..4] == "abc\n";
    var m3 := map[Point(0, 0) := 'a', Point(1, 0) := 'b', Point(2, 0) := 'c'];
    WriteExampleFirstLine();
    assert InkOf("abc\n1") == Ink(1, 1, m3[Point(0, 1) := '1']);
    assert InkOf("abc\n12") == Ink(2, 1, m3[Point(0, 1) := '1'][Point(1, 1) := '2']);
  }
}

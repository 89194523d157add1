/** The terminal's believed cursor state and the escape sequences that move it
    (display/cursor.go): CUP (ECMA-48 section 8.3.21), CUU/CUD/CUF/CUB
    (sections 8.3.22, 8.3.19, 8.3.20, 8.3.18) and the SGR reset (section
    8.3.117). Every operation takes the buffer and the cursor by value and
    returns the appended buffer and the new cursor. */
module Cursor {
  import opened Geom
  import opened Utf8
  import opened Decimal
  import opened Color
  import opened Ansi

  /** A coordinate of -1 means that coordinate is not known. */
  datatype Cursor = Cursor(position: Point, foreground: RGBA, background: RGBA)

  /** Lost: neither coordinate is known. */
  const Lost := Point(-1, -1)

  /** Start: nothing is known, not even the colours. */
  const Start := Cursor(Lost, Transparent, Transparent)

  /** Reset: at the origin, white (7) on black (0). */
  function ResetState(colors: ColorTable): Cursor { Cursor(Origin, colors[7], colors[0]) }

  /** True when the buffer grew only at its end. */
  predicate Extends(buf: seq<byte>, r: seq<byte>) { buf <= r }

  /** Hide: ESC[?25l, cursor unchanged. */
  function Hide(buf: seq<byte>, c: Cursor): (r: (seq<byte>, Cursor))
    ensures r == (buf + Csi("?25l"), c)
  {
    (buf + Csi("?25l"), c)
  }

  /** Show: ESC[?25h, cursor unchanged. */
  function Show(buf: seq<byte>, c: Cursor): (r: (seq<byte>, Cursor))
    ensures r == (buf + Csi("?25h"), c)
  {
    (buf + Csi("?25h"), c)
  }

  /** Clear: ESC[2J and the position is forgotten; the colours are kept. */
  function Clear(buf: seq<byte>, c: Cursor): (r: (seq<byte>, Cursor))
    ensures r.0 == buf + Csi("2J")
    ensures r.1.position == Lost && r.1.foreground == c.foreground && r.1.background == c.background
  {
    (buf + Csi("2J"), Cursor(Lost, c.foreground, c.background))
  }

  /** Reset: ESC[m to white on black unless the colours already are. */
  function Reset(colors: ColorTable, buf: seq<byte>, c: Cursor): (r: (seq<byte>, Cursor))
    ensures c.foreground == colors[7] && c.background == colors[0] ==> r == (buf, c)
    ensures !(c.foreground == colors[7] && c.background == colors[0]) ==>
              r.0 == buf + Csi("m") && r.1 == Cursor(c.position, colors[7], colors[0])
  {
    if c.foreground == colors[7] && c.background == colors[0] then (buf, c)
    else (buf + Csi("m"), Cursor(c.position, colors[7], colors[0]))
  }

  /** Home: ESC[H and the position is the origin. */
  function Home(buf: seq<byte>, c: Cursor): (r: (seq<byte>, Cursor))
    ensures r.0 == buf + Csi("H") && r.1 == c.(position := Origin)
  {
    (buf + Csi("H"), c.(position := Origin))
  }

  const CR: byte := 13
  const LF: byte := 10

  function Repeat(b: byte, n: int): (r: seq<byte>)
    ensures |r| == if n < 0 then 0 else n
    ensures forall i :: 0 <= i < |r| ==> r[i] == b
    decreases n
  {
    if n <= 0 then [] else Repeat(b, n - 1) + [b]
  }

  /** The horizontal step at the end of Go: CUB or CUF by the distance. */
  function Horizontal(from: int, dest: int): seq<byte>
  {
    if dest < from then Csi(Itoa(from - dest) + "D")
    else if dest > from then Csi(Itoa(dest - from) + "C")
    else []
  }

  /** What Go does up to its downward loop: the carriage return for an
      unknown column and the reset-then-CR(LF) step for column 0. */
  function GoPrologue(colors: ColorTable, buf: seq<byte>, c: Cursor, dest: Point): (seq<byte>, Cursor)
  {
    var (b1, c1) := if c.position.x == -1 then (buf + [CR], c.(position := Point(0, c.position.y)))
                    else (buf, c);
    if dest.x == 0 && dest.y == c1.position.y + 1 then
      var (b, cc) := Reset(colors, b1, c1);
      (b + [CR, LF], cc.(position := Point(0, cc.position.y + 1)))
    else if dest.x == 0 && c1.position.x != 0 then
      var (b, cc) := Reset(colors, b1, c1);
      (b + [CR], cc.(position := Point(0, cc.position.y)))
    else (b1, c1)
  }

  /** The absolute seek Go writes from Lost, as the package writes it:
      ESC[y;xH with the zero-based coordinates of dest. */
  function LostSeekAsWritten(dest: Point): (s: seq<byte>)
    ensures |s| >= 6
  {
    Csi(Itoa(dest.y) + ";" + Itoa(dest.x) + "H")
  }

  /** The absolute seek with the one-based line and column CUP takes:
      ESC[y+1;x+1H. This is the corrected seek; Go itself writes
      LostSeekAsWritten. */
  function LostSeek(dest: Point): (s: seq<byte>)
    ensures s == LostSeekAsWritten(Point(dest.x + 1, dest.y + 1))
  {
    Csi(Itoa(dest.y + 1) + ";" + Itoa(dest.x + 1) + "H")
  }

  /** The whole of Go, as a function of its inputs, as the package writes it:
      from Lost it sends the zero-based absolute seek. */
  function Moved(colors: ColorTable, buf: seq<byte>, c: Cursor, dest: Point): (r: (seq<byte>, Cursor))
    ensures r.1.position == dest
  {
    if c.position == Lost then
      (buf + LostSeekAsWritten(dest), c.(position := dest))
    else
      var (b2, c2) := GoPrologue(colors, buf, c, dest);
      var down := dest.y > c2.position.y;
      var x3 := if down then 0 else c2.position.x;
      var y4 := if down then dest.y else c2.position.y;
      var b4 := if down then b2 + [CR] + Repeat(LF, dest.y - c2.position.y) else b2;
      var b5 := if dest.y < y4 then b4 + Csi(Itoa(y4 - dest.y) + "A") else b4;
      (b5 + Horizontal(x3, dest.x), c2.(position := dest))
  }

  /** Go: moves the believed cursor to `dest`, preferring relative motion. */
  method Go(colors: ColorTable, buf0: seq<byte>, c0: Cursor, dest: Point)
    returns (buf: seq<byte>, c: Cursor)
    ensures (buf, c) == Moved(colors, buf0, c0, dest)
  {
    buf, c := buf0, c0;
    if c.position == Lost {
      buf := buf + LostSeekAsWritten(dest);
      c := c.(position := dest);
      return;
    }
    var pro := GoPrologue(colors, buf, c, dest);
    buf, c := pro.0, pro.1;
    ghost var b2, y2 := buf, c.position.y;
    if dest.y > c.position.y {
      buf := buf + [CR];
      c := c.(position := Point(0, c.position.y));
    }
    ghost var b3 := buf;
    while dest.y > c.position.y
      invariant dest.y > y2 ==> y2 <= c.position.y <= dest.y
      invariant dest.y > y2 ==> buf == b3 + Repeat(LF, c.position.y - y2)
      invariant dest.y > y2 ==> c == pro.1.(position := Point(0, c.position.y))
      invariant dest.y <= y2 ==> buf == b2 && c == pro.1
      decreases dest.y - c.position.y
    {
      buf := buf + [LF];
      c := c.(position := Point(c.position.x, c.position.y + 1));
    }
    if dest.y < c.position.y {
      buf := buf + Csi(Itoa(c.position.y - dest.y) + "A");
    }
    buf := buf + Horizontal(c.position.x, dest.x);
    c := c.(position := dest);
  }

  /** WriteGlyph: the glyph's bytes, then one column to the right if it is a
      single code point, else the column is forgotten. */
  function WriteGlyph(buf: seq<byte>, c: Cursor, s: string): (r: (seq<byte>, Cursor))
    ensures r.0 == buf + Encode(s)
    ensures r.1.position.y == c.position.y
    ensures r.1.position.x == if |s| == 1 then c.position.x + 1 else -1
    ensures r.1.foreground == c.foreground && r.1.background == c.background
  {
    var x := if |s| == 1 then c.position.x + 1 else -1;
    (buf + Encode(s), c.(position := Point(x, c.position.y)))
  }

  // Properties of Go, stated on its specification.

  /** Every Go ends at `dest`, only appends, and touches the colours only by
      resetting them to white on black. */
  lemma MovedEndsAtTarget(colors: ColorTable, buf: seq<byte>, c: Cursor, dest: Point)
    ensures Moved(colors, buf, c, dest).1.position == dest
    ensures Extends(buf, Moved(colors, buf, c, dest).0)
    ensures var c' := Moved(colors, buf, c, dest).1;
            (c'.foreground, c'.background) == (c.foreground, c.background) ||
            (c'.foreground, c'.background) == (colors[7], colors[0])
  {
  }

  /** As written, the seek from Lost carries the zero-based coordinates as
      the CUP parameters. */
  lemma LostSeekAsWrittenParams(dest: Point)
    ensures LostSeekAsWritten(dest) == Csi(Params([dest.y, dest.x]) + "H")
  {
    ParamsCons(dest.y, [dest.x]);
    assert [dest.y] + [dest.x] == [dest.y, dest.x];
  }

  /** The corrected seek carries the one-based line and column. */
  lemma LostSeekParams(dest: Point)
    ensures LostSeek(dest) == Csi(Params([dest.y + 1, dest.x + 1]) + "H")
  {
    ParamsCons(dest.y + 1, [dest.x + 1]);
    assert [dest.y + 1] + [dest.x + 1] == [dest.y + 1, dest.x + 1];
  }

  /** From Lost, Go writes one CUP whose parameters are the zero-based line
      and column of dest, and nothing else. */
  lemma MovedFromLost(colors: ColorTable, buf: seq<byte>, c: Cursor, dest: Point)
    requires c.position == Lost
    ensures Moved(colors, buf, c, dest) ==
            (buf + Csi(Params([dest.y, dest.x]) + "H"), c.(position := dest))
  {
    LostSeekAsWrittenParams(dest);
  }

  /** Going where the cursor is known to be writes nothing. */
  lemma MovedNowhere(colors: ColorTable, buf: seq<byte>, c: Cursor)
    requires c.position != Lost && c.position.x != -1
    ensures Moved(colors, buf, c, c.position) == (buf, c)
  {
    assert GoPrologue(colors, buf, c, c.position) == (buf, c);
    var m := Moved(colors, buf, c, c.position);
    assert m.1 == c;
    assert m.0 == buf;
  }

  /** Column 0 of the next line: at most a colour reset, then CR LF. */
  lemma MovedNextLine(colors: ColorTable, buf: seq<byte>, c: Cursor)
    requires c.position != Lost && c.position.x != -1
    ensures var r := Reset(colors, buf, c);
            Moved(colors, buf, c, Point(0, c.position.y + 1)) ==
            (r.0 + [CR, LF], r.1.(position := Point(0, c.position.y + 1)))
  {
    var r := Reset(colors, buf, c);
    assert r.1.position == c.position;
    assert GoPrologue(colors, buf, c, Point(0, c.position.y + 1)) ==
           (r.0 + [CR, LF], r.1.(position := Point(0, c.position.y + 1)));
    var m := Moved(colors, buf, c, Point(0, c.position.y + 1));
    assert m.1 == r.1.(position := Point(0, c.position.y + 1));
    assert m.0 == r.0 + [CR, LF];
  }

  /** Up and to the left or right, off column 0: CUU by the row distance,
      then CUB or CUF by the column distance. */
  lemma MovedUp(colors: ColorTable, buf: seq<byte>, c: Cursor, dest: Point)
    requires c.position != Lost && c.position.x != -1
    requires dest.y < c.position.y && dest.x != 0
    ensures Moved(colors, buf, c, dest).0 ==
            buf + Csi(Itoa(c.position.y - dest.y) + "A") + Horizontal(c.position.x, dest.x)
  {
  }

  /** Along the same row, off column 0: only CUB or CUF. */
  lemma MovedAlongRow(colors: ColorTable, buf: seq<byte>, c: Cursor, dest: Point)
    requires c.position != Lost && c.position.x != -1
    requires dest.y == c.position.y && dest.x != 0
    ensures dest.x < c.position.x ==> Moved(colors, buf, c, dest).0 == buf + Csi(Itoa(c.position.x - dest.x) + "D")
    ensures dest.x > c.position.x ==> Moved(colors, buf, c, dest).0 == buf + Csi(Itoa(dest.x - c.position.x) + "C")
  {
  }
}

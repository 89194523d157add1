/** RGBA colours, the 256-entry terminal colour table, the palettes that are
    prefixes of it and the reverse index from colour to palette index
    (display/palettes.go, palettes.go). */
module Color {
  import opened Utf8

  /** color.RGBA: four 8-bit channels. */
  datatype RGBA = RGBA(r: byte, g: byte, b: byte, a: byte)

  /** color.Transparent: every channel zero. */
  const Transparent := RGBA(0, 0, 0, 0)

  /** display.Colors, whose entries the model leaves open: any 256 colours. */
  type ColorTable = s: seq<RGBA> | |s| == 256 witness seq(256, _ => Transparent)

  /** The appending loop of the palette `init` functions: the first n
      entries of the colour table, in order. */
  method Prefix(colors: ColorTable, n: nat) returns (p: seq<RGBA>)
    requires n <= 256
    ensures p == colors[..n]
  {
    p := [];
    var i := 0;
    while i < n
      invariant 0 <= i <= n
      invariant p == colors[..i]
    {
      p := p + [colors[i]];
      i := i + 1;
    }
  }

  /** The package-level tables that display/palettes.go's `init` fills. */
  datatype Tables = Tables(palette3: seq<RGBA>, palette4: seq<RGBA>, palette8: seq<RGBA>,
                           colorIndex: map<RGBA, int>)

  /** The reverse index after the first n iterations of colorIndex's loop:
      each assignment overwrites an earlier one for the same colour. */
  function IndexUpTo(colors: seq<RGBA>, n: nat): map<RGBA, int>
    requires n <= |colors|
  {
    if n == 0 then map[] else IndexUpTo(colors, n - 1)[colors[n - 1] := n - 1]
  }

  /** colorIndex itself. */
  function ColorIndex(colors: ColorTable): map<RGBA, int> { IndexUpTo(colors, 256) }

  /** The keys are exactly the colours of the first n entries, each mapped to
      an index that holds it, the largest such index. */
  lemma {:induction false} IndexUpToMeaning(colors: seq<RGBA>, n: nat)
    requires n <= |colors|
    ensures IndexUpTo(colors, n).Keys == set j | 0 <= j < n :: colors[j]
    ensures forall c :: c in IndexUpTo(colors, n) ==>
              0 <= IndexUpTo(colors, n)[c] < n && colors[IndexUpTo(colors, n)[c]] == c
    ensures forall c, j :: c in IndexUpTo(colors, n) && 0 <= j < n && colors[j] == c ==>
              j <= IndexUpTo(colors, n)[c]
  {
    if n > 0 {
      IndexUpToMeaning(colors, n - 1);
      assert (set j | 0 <= j < n :: colors[j]) == (set j | 0 <= j < n - 1 :: colors[j]) + {colors[n - 1]};
    }
  }

  /** A colour is a key of colorIndex exactly when the table holds it, and
      its index then holds it. */
  lemma IndexOf(colors: ColorTable, c: RGBA)
    ensures c in ColorIndex(colors) <==> c in colors
    ensures c in ColorIndex(colors) ==> 0 <= ColorIndex(colors)[c] < 256 && colors[ColorIndex(colors)[c]] == c
  {
    IndexUpToMeaning(colors, 256);
    if c in colors {
      var j :| 0 <= j < 256 && colors[j] == c;
      assert c in IndexUpTo(colors, 256).Keys;
    }
  }

  /** colorIndex's loop. */
  method BuildIndex(colors: ColorTable) returns (m: map<RGBA, int>)
    ensures m == ColorIndex(colors)
    ensures m.Keys == set j | 0 <= j < 256 :: colors[j]
    ensures forall c :: c in m ==> 0 <= m[c] < 256 && colors[m[c]] == c
    ensures forall c, j :: c in m && 0 <= j < 256 && colors[j] == c ==> j <= m[c]
  {
    m := map[];
    var i := 0;
    while i < 256
      invariant 0 <= i <= 256
      invariant m == IndexUpTo(colors, i)
    {
      m := m[colors[i] := i];
      i := i + 1;
    }
    IndexUpToMeaning(colors, 256);
  }

  /** display/palettes.go `init`. */
  method InitDisplayTables(colors: ColorTable) returns (t: Tables)
    ensures t.palette3 == colors[..8] && t.palette4 == colors[..16] && t.palette8 == colors[..256]
    ensures t.colorIndex == ColorIndex(colors)
    ensures t.colorIndex.Keys == set j | 0 <= j < 256 :: colors[j]
    ensures forall c :: c in t.colorIndex ==> 0 <= t.colorIndex[c] < 256 && colors[t.colorIndex[c]] == c
    ensures forall c, j :: c in t.colorIndex && 0 <= j < 256 && colors[j] == c ==> j <= t.colorIndex[c]
  {
    var p3 := Prefix(colors, 8);
    var p4 := Prefix(colors, 16);
    var p8 := Prefix(colors, 256);
    var m := BuildIndex(colors);
    t := Tables(p3, p4, p8, m);
  }

  /** The root package's palettes.go `init`: the same three palettes,
      without the index. */
  method InitRootPalettes(colors: ColorTable) returns (p3: seq<RGBA>, p4: seq<RGBA>, p8: seq<RGBA>)
    ensures |p3| == 8 && |p4| == 16 && |p8| == 256
    ensures p3 == p4[..8] && p4 == p8[..16] && p8 == colors
  {
    p3 := Prefix(colors, 8);
    p4 := Prefix(colors, 16);
    p8 := Prefix(colors, 256);
    PalettesNested(colors);
    assert colors[..256] == colors;
  }

  /** Each palette is a prefix of the next larger one. */
  lemma PalettesNested(colors: ColorTable)
    ensures colors[..8] == colors[..16][..8]
    ensures colors[..16] == colors[..256][..16]
  {
  }

  /** One channel's term of the sum color.Palette.Index minimises (sqDiff
      in image/color): both 8-bit channels widened to 16 bits (times 257),
      the difference squared and shifted right by two. For 8-bit channels
      the square fits in 32 bits, so the uint32 arithmetic never wraps. */
  function SqDiff(x: byte, y: byte): (n: nat)
    ensures n == 0 <==> x == y
    ensures n <= 0x3FFF_8000
  {
    var d := if x >= y then 257 * (x as int - y as int) else 257 * (y as int - x as int);
    assert 0 <= d <= 65535;
    assert d * d <= 65535 * 65535 by { Square(d, 65535); }
    assert x != y ==> d * d >= 257 * 257 by { if x != y { Square(257, d); } }
    d * d / 4
  }

  /** Squaring is monotone on the naturals. */
  lemma Square(a: nat, b: nat)
    requires a <= b
    ensures a * a <= b * b
  {
  }

  /** The distance color.Palette.Index ranks palette entries by: the sum
      of SqDiff over the four channels. It stays below the index's starting
      best sum, 2^32 - 1, so the first entry always becomes the candidate. */
  function Dist(c: RGBA, d: RGBA): (n: nat)
    ensures n == 0 <==> c == d
    ensures n < 0xFFFF_FFFF
  {
    SqDiff(c.r, d.r) + SqDiff(c.g, d.g) + SqDiff(c.b, d.b) + SqDiff(c.a, d.a)
  }

  /** color.Palette.Index: the first entry of least distance (0 for an
      empty palette). */
  function Nearest(p: seq<RGBA>, c: RGBA): (i: nat)
    ensures |p| == 0 ==> i == 0
    ensures |p| > 0 ==> i < |p|
    ensures forall j :: 0 <= j < |p| ==> Dist(c, p[i]) <= Dist(c, p[j])
    ensures forall j :: 0 <= j < i ==> Dist(c, p[j]) > Dist(c, p[i])
    decreases |p|
  {
    if |p| <= 1 then 0
    else
      var k := Nearest(p[..|p| - 1], c);
      if Dist(c, p[|p| - 1]) < Dist(c, p[k]) then |p| - 1 else k
  }

  /** Quantising a colour the palette already holds gives that colour back. */
  lemma NearestExact(p: seq<RGBA>, j: nat)
    requires j < |p|
    ensures p[Nearest(p, p[j])] == p[j]
    ensures Nearest(p, p[j]) <= j
  {
    var i := Nearest(p, p[j]);
    assert Dist(p[j], p[i]) <= Dist(p[j], p[j]) == 0;
  }

  /** The widening and the shift decide close calls: from transparent black,
      (2, 0, 0, 0) is 66049 away and (1, 1, 1, 1) is 4 * 16512 = 66048 away,
      so the second entry wins, where the plain squared 8-bit distance
      would tie at 4 and keep the first. */
  lemma NearestRoundsPerChannel()
    ensures Nearest([RGBA(2, 0, 0, 0), RGBA(1, 1, 1, 1)], Transparent) == 1
  {
    assert SqDiff(0, 2) == 66049;
    assert SqDiff(0, 1) == 16512;
  }
}

/** The SGR byte encoders of display/ansi.go: palette indices as the
    ECMA-48 colour codes 30-37/40-47, the aixterm bright codes 90-97/100-107
    and the xterm 38;5;n / 48;5;n forms, and 24-bit colour as 38;2;r;g;b /
    48;2;r;g;b. Each encoder returns its input buffer with bytes appended. */
module Ansi {
  import opened Utf8
  import opened Decimal
  import opened Color

  const ESC: char := 27 as char

  /** The bytes of the control sequence ESC [ body. */
  function Csi(body: string): seq<byte> { Encode([ESC, '['] + body) }

  /** An SGR sequence with one parameter: ESC [ code m. */
  function Sgr1(code: int): seq<byte> { Csi(Itoa(code) + "m") }

  /** The parameter text of a control sequence: the decimal numerals of
      the codes joined by semicolons. */
  function Params(codes: seq<int>): string
  {
    if codes == [] then ""
    else if |codes| == 1 then Itoa(codes[0])
    else Itoa(codes[0]) + ";" + Params(codes[1..])
  }

  /** The SGR parameters renderForegroundColorIndex writes for index i. */
  function FgCodes(i: int): seq<int>
  {
    if i < 8 then [30 + i] else if i < 16 then [90 - 8 + i] else [38, 5, i]
  }

  /** The SGR parameters renderBackgroundColorIndex writes for index i. */
  function BgCodes(i: int): seq<int>
  {
    if i < 8 then [40 + i] else if i < 16 then [100 - 8 + i] else [48, 5, i]
  }

  /** renderNoColor */
  function NoColor(buf: seq<byte>, c: RGBA): (r: seq<byte>)
    ensures r == buf
  {
    buf
  }

  /** renderForegroundColorIndex */
  function FgIndex(buf: seq<byte>, i: int): (r: seq<byte>)
    ensures |r| > |buf| && r[..|buf|] == buf
  {
    if i < 8 then buf + Sgr1(30 + i)
    else if i < 16 then buf + Sgr1(90 - 8 + i)
    else buf + Csi("38;5;" + Itoa(i) + "m")
  }

  /** renderBackgroundColorIndex */
  function BgIndex(buf: seq<byte>, i: int): (r: seq<byte>)
    ensures |r| > |buf| && r[..|buf|] == buf
  {
    if i < 8 then buf + Sgr1(40 + i)
    else if i < 16 then buf + Sgr1(100 - 8 + i)
    else buf + Csi("48;5;" + Itoa(i) + "m")
  }

  /** The 16-bit channel value color.RGBA.RGBA reports for an 8-bit one. */
  function Wide(x: byte): int { (x as int) * 0x101 }

  /** renderColor24: the channels are printed as their 16-bit value / 256. */
  function Color24(buf: seq<byte>, code: string, c: RGBA): (r: seq<byte>)
    ensures |r| > |buf| && r[..|buf|] == buf
  {
    buf + Csi(code + ";2;" + Itoa(Wide(c.r) / 256) + ";" + Itoa(Wide(c.g) / 256) + ";"
              + Itoa(Wide(c.b) / 256) + "m")
  }

  /** Dividing the 16-bit channel by 256 recovers the 8-bit channel. */
  lemma WideDown(x: byte)
    ensures Wide(x) / 256 == x as int
  {
    assert Wide(x) == (x as int) * 256 + (x as int);
  }

  /** renderForegroundColor: nearest palette entry, then index encoding. */
  function FgPalette(buf: seq<byte>, p: seq<RGBA>, c: RGBA): (r: seq<byte>)
    ensures |r| > |buf| && r[..|buf|] == buf
  {
    FgIndex(buf, Nearest(p, c))
  }

  /** renderBackgroundColor */
  function BgPalette(buf: seq<byte>, p: seq<RGBA>, c: RGBA): (r: seq<byte>)
    ensures |r| > |buf| && r[..|buf|] == buf
  {
    BgIndex(buf, Nearest(p, c))
  }

  /** renderForegroundColor24: an exact palette colour uses its index. */
  function Fg24(buf: seq<byte>, colors: ColorTable, c: RGBA): (r: seq<byte>)
    ensures |r| > |buf| && r[..|buf|] == buf
  {
    var index := ColorIndex(colors);
    if c in index then FgIndex(buf, index[c]) else Color24(buf, "38", c)
  }

  /** renderBackgroundColor24 */
  function Bg24(buf: seq<byte>, colors: ColorTable, c: RGBA): (r: seq<byte>)
    ensures |r| > |buf| && r[..|buf|] == buf
  {
    var index := ColorIndex(colors);
    if c in index then BgIndex(buf, index[c]) else Color24(buf, "48", c)
  }

  /** Params of one code after another: the first numeral, a semicolon,
      then the rest. */
  lemma ParamsCons(c: int, rest: seq<int>)
    requires rest != []
    ensures Params([c] + rest) == Itoa(c) + ";" + Params(rest)
  {
    assert ([c] + rest)[1..] == rest;
  }

  lemma Numerals()
    ensures Itoa(2) == "2" && Itoa(5) == "5" && Itoa(38) == "38" && Itoa(48) == "48"
  {
    assert Digits(3) == "3" && Digits(4) == "4";
    assert Digits(38) == Digits(3) + [DigitChar(8)];
    assert Digits(48) == Digits(4) + [DigitChar(8)];
  }

  /** Params of a three-code 38;5;i / 48;5;i form. */
  lemma ParamsThree(k: int, i: int)
    ensures Params([k, 5, i]) == Itoa(k) + ";" + (Itoa(5) + ";" + Itoa(i))
  {
    var c3 := [k, 5, i];
    assert c3[1..] == [5, i];
    assert [5, i][1..] == [i];
    var t1 := Itoa(i);
    ParamsStep([5, i], t1);
    var t2 := Itoa(5) + ";" + t1;
    ParamsStep(c3, t2);
  }

  /** The 256-colour text "k;5;i" as parameters, given the numeral of k. */
  lemma IndexedParams(code: string, k: int, i: int)
    requires Itoa(k) == code && |code| == 2
    ensures code + ";5;" + Itoa(i) == Params([k, 5, i])
  {
    ParamsThree(k, i);
    Numerals();
    var t := Itoa(i);
    assert ";5;" == ";" + "5" + ";";
    assert code + ";5;" + t == code + ";" + ("5" + ";" + t);
  }

  /** renderForegroundColorIndex writes ESC [ FgCodes(i) m. */
  lemma FgIndexCodes(buf: seq<byte>, i: int)
    ensures FgIndex(buf, i) == buf + Csi(Params(FgCodes(i)) + "m")
  {
    if i >= 16 {
      Numerals();
      IndexedParams("38", 38, i);
      assert "38;5;" == "38" + ";5;";
    }
  }

  /** renderBackgroundColorIndex writes ESC [ BgCodes(i) m. */
  lemma BgIndexCodes(buf: seq<byte>, i: int)
    ensures BgIndex(buf, i) == buf + Csi(Params(BgCodes(i)) + "m")
  {
    if i >= 16 {
      Numerals();
      IndexedParams("48", 48, i);
      assert "48;5;" == "48" + ";5;";
    }
  }

  /** Each index encoder writes one SGR sequence, ESC [ codes m, whose
      parameters are FgCodes(i) (BgCodes(i)). */
  lemma IndexCodes(buf: seq<byte>, i: int)
    ensures FgIndex(buf, i) == buf + Csi(Params(FgCodes(i)) + "m")
    ensures BgIndex(buf, i) == buf + Csi(Params(BgCodes(i)) + "m")
  {
    FgIndexCodes(buf, i);
    BgIndexCodes(buf, i);
  }

  lemma Regroup(a: string, m: string, x: string, y: string, z: string)
    ensures a + ";" + (m + ";" + (x + ";" + (y + ";" + z))) == a + (";" + m + ";") + x + ";" + y + ";" + z
  {
  }

  lemma ParamsStep(codes: seq<int>, t: string)
    requires |codes| >= 2 && Params(codes[1..]) == t
    ensures Params(codes) == Itoa(codes[0]) + ";" + t
  {
  }

  lemma ParamsFive(k: int, m: int, r: int, g: int, b: int)
    ensures Params([k, m, r, g, b]) == Itoa(k) + ";" + (Itoa(m) + ";" + (Itoa(r) + ";" + (Itoa(g) + ";" + Itoa(b))))
  {
    var c5, c4, c3, c2, c1 := [k, m, r, g, b], [m, r, g, b], [r, g, b], [g, b], [b];
    assert c5[1..] == c4 && c4[1..] == c3 && c3[1..] == c2 && c2[1..] == c1;
    var t1 := Itoa(b);
    var t2 := Itoa(g) + ";" + t1;
    var t3 := Itoa(r) + ";" + t2;
    var t4 := Itoa(m) + ";" + t3;
    ParamsStep(c2, t1);
    ParamsStep(c3, t2);
    ParamsStep(c4, t3);
    ParamsStep(c5, t4);
  }

  lemma Color24Params(code: string, k: int, r: int, g: int, b: int)
    requires Itoa(k) == code
    ensures Params([k, 2, r, g, b]) == code + ";2;" + Itoa(r) + ";" + Itoa(g) + ";" + Itoa(b)
  {
    ParamsFive(k, 2, r, g, b);
    Numerals();
    Regroup(code, "2", Itoa(r), Itoa(g), Itoa(b));
    assert ";2;" == ";" + "2" + ";";
  }

  lemma Color24CodesAt(buf: seq<byte>, code: string, k: int, c: RGBA)
    requires Itoa(k) == code
    ensures Color24(buf, code, c) == buf + Csi(Params([k, 2, c.r as int, c.g as int, c.b as int]) + "m")
  {
    WideDown(c.r);
    WideDown(c.g);
    WideDown(c.b);
    Color24Params(code, k, c.r as int, c.g as int, c.b as int);
  }

  /** renderColor24 writes the parameters code;2;r;g;b with the colour's own
      8-bit channels. */
  lemma Color24Codes(buf: seq<byte>, c: RGBA)
    ensures Color24(buf, "38", c) == buf + Csi(Params([38, 2, c.r as int, c.g as int, c.b as int]) + "m")
    ensures Color24(buf, "48", c) == buf + Csi(Params([48, 2, c.r as int, c.g as int, c.b as int]) + "m")
  {
    Numerals();
    Color24CodesAt(buf, "38", 38, c);
    Color24CodesAt(buf, "48", 48, c);
  }
}

/** Bytes and the UTF-8 encoding Go uses when a string is appended to a byte
    slice, with the decoder Go's `range` over a string applies (utf8.DecodeRune:
    an invalid or truncated sequence yields U+FFFD and consumes one byte). */
module Utf8 {

  newtype byte = x: int | 0 <= x < 256

  const ReplacementChar: char := 0xFFFD as char

  /** The UTF-8 bytes of one code point. */
  function EncodeRune(c: char): (b: seq<byte>)
    ensures 1 <= |b| <= 4
    ensures |b| == 1 <==> (c as int) < 0x80
  {
    var n := c as int;
    if n < 0x80 then [n as byte]
    else if n < 0x800 then [(0xC0 + n / 64) as byte, (0x80 + n % 64) as byte]
    else if n < 0x10000 then
      [(0xE0 + n / 4096) as byte, (0x80 + (n / 64) % 64) as byte, (0x80 + n % 64) as byte]
    else
      [(0xF0 + n / 262144) as byte, (0x80 + (n / 4096) % 64) as byte,
       (0x80 + (n / 64) % 64) as byte, (0x80 + n % 64) as byte]
  }

  /** The UTF-8 bytes of a string. */
  function Encode(s: string): (b: seq<byte>)
    ensures |b| >= |s|
    ensures s == [] <==> b == []
  {
    if s == [] then [] else EncodeRune(s[0]) + Encode(s[1..])
  }

  predicate IsCont(b: byte) { 0x80 <= b <= 0xBF }

  /** utf8.DecodeRune: the first code point of s and the number of bytes it
      took; U+FFFD and one byte for anything that is not well-formed. */
  function DecodeRune(s: seq<byte>): (r: (char, nat))
    requires |s| > 0
    ensures 1 <= r.1 <= |s| && r.1 <= 4
  {
    var b0 := s[0] as int;
    if b0 < 0x80 then (b0 as char, 1)
    else if 0xC2 <= b0 <= 0xDF then
      if |s| >= 2 && IsCont(s[1]) then (((b0 - 0xC0) * 64 + (s[1] as int - 0x80)) as char, 2)
      else (ReplacementChar, 1)
    else if 0xE0 <= b0 <= 0xEF then
      var lo := if b0 == 0xE0 then 0xA0 else 0x80;
      var hi := if b0 == 0xED then 0x9F else 0xBF;
      if |s| >= 3 && lo <= s[1] as int <= hi && IsCont(s[2]) then
        var n := (b0 - 0xE0) * 4096 + (s[1] as int - 0x80) * 64 + (s[2] as int - 0x80);
        (n as char, 3)
      else (ReplacementChar, 1)
    else if 0xF0 <= b0 <= 0xF4 then
      var lo := if b0 == 0xF0 then 0x90 else 0x80;
      var hi := if b0 == 0xF4 then 0x8F else 0xBF;
      if |s| >= 4 && lo <= s[1] as int <= hi && IsCont(s[2]) && IsCont(s[3]) then
        var n := (b0 - 0xF0) * 262144 + (s[1] as int - 0x80) * 4096
                 + (s[2] as int - 0x80) * 64 + (s[3] as int - 0x80);
        (n as char, 4)
      else (ReplacementChar, 1)
    else (ReplacementChar, 1)
  }

  /** The code points Go's `range` loop visits over string(s). */
  function Decode(s: seq<byte>): (r: string)
    ensures |r| <= |s|
    ensures r == [] <==> s == []
    decreases |s|
  {
    if s == [] then [] else
      var (c, n) := DecodeRune(s);
      [c] + Decode(s[n..])
  }

  /** Decoding the encoding of a code point gives it back, consuming exactly
      its bytes, whatever follows. */
  lemma DecodeEncodeRune(c: char, rest: seq<byte>)
    ensures DecodeRune(EncodeRune(c) + rest) == (c, |EncodeRune(c)|)
  {
    var n := c as int;
    if n < 0x80 {
    } else if n < 0x800 {
      Decode2(c, rest);
    } else if n < 0x10000 {
      Decode3(c, rest);
    } else {
      Decode4(c, rest);
    }
  }

  lemma Decode2(c: char, rest: seq<byte>)
    requires 0x80 <= c as int < 0x800
    ensures DecodeRune(EncodeRune(c) + rest) == (c, 2)
  {
    var n := c as int;
    var s := EncodeRune(c) + rest;
    var h, l := n / 64, n % 64;
    assert h * 64 + l == n;
    assert s[0] as int == 0xC0 + h && s[1] as int == 0x80 + l;
  }

  lemma Decode3(c: char, rest: seq<byte>)
    requires 0x800 <= c as int < 0x10000
    ensures DecodeRune(EncodeRune(c) + rest) == (c, 3)
  {
    var n := c as int;
    var s := EncodeRune(c) + rest;
    var q := n / 64;
    var h, m, l := q / 64, q % 64, n % 64;
    assert q * 64 + l == n;
    assert h * 64 + m == q;
    assert n / 4096 == h && (n / 64) % 64 == m;
    assert h * 4096 + m * 64 + l == n;
    assert s[0] as int == 0xE0 + h && s[1] as int == 0x80 + m && s[2] as int == 0x80 + l;
    assert h == 0 ==> m >= 32;
    assert h == 13 ==> m < 32;
  }

  lemma Decode4(c: char, rest: seq<byte>)
    requires 0x10000 <= c as int
    ensures DecodeRune(EncodeRune(c) + rest) == (c, 4)
  {
    var n := c as int;
    assert n <= 0x10FFFF;
    var s := EncodeRune(c) + rest;
    var q := n / 64;
    var q2 := q / 64;
    var h, m2, m, l := q2 / 64, q2 % 64, q % 64, n % 64;
    assert q * 64 + l == n;
    assert q2 * 64 + m == q;
    assert h * 64 + m2 == q2;
    assert n / 4096 == q2 && n / 262144 == h;
    assert (n / 4096) % 64 == m2 && (n / 64) % 64 == m;
    assert h * 262144 + m2 * 4096 + m * 64 + l == n;
    assert s[0] as int == 0xF0 + h && s[1] as int == 0x80 + m2;
    assert s[2] as int == 0x80 + m && s[3] as int == 0x80 + l;
    assert h == 0 ==> m2 >= 16;
    assert h == 4 ==> m2 < 16;
  }

  lemma EncodeAppend(s: string, t: string)
    ensures Encode(s + t) == Encode(s) + Encode(t)
  {
    if s == [] {
      assert s + t == t;
    } else {
      assert (s + t)[1..] == s[1..] + t;
      EncodeAppend(s[1..], t);
    }
  }

  /** Decoding recovers any encoded string. */
  lemma {:induction false} DecodeEncode(s: string)
    ensures Decode(Encode(s)) == s
  {
    if s != [] {
      var e := EncodeRune(s[0]);
      DecodeEncodeRune(s[0], Encode(s[1..]));
      assert (e + Encode(s[1..]))[|e|..] == Encode(s[1..]);
      DecodeEncode(s[1..]);
    }
  }

  /** An ASCII string encodes byte for byte. */
  lemma {:induction false} EncodeAscii(s: string)
    requires forall i :: 0 <= i < |s| ==> (s[i] as int) < 0x80
    ensures |Encode(s)| == |s|
    ensures forall i :: 0 <= i < |s| ==> Encode(s)[i] as int == s[i] as int
  {
    if s != [] {
      EncodeAscii(s[1..]);
    }
  }
}

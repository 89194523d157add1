/** bitmap/bitmap.go: a two-colour image with one bit per pixel, eight
    pixels to a byte and each row starting on a new byte. */
module Bitmap {
  import opened Geom
  import opened Color
  import Textile

  /** The mask of bit k of a byte, 1 << k, written out so that no integer
      is converted to a bit vector. */
  function Mask(k: int): (m: bv8)
    requires 0 <= k < 8
  {
    if k == 0 then 0x01 else if k == 1 then 0x02 else if k == 2 then 0x04 else if k == 3 then 0x08
    else if k == 4 then 0x10 else if k == 5 then 0x20 else if k == 6 then 0x40 else 0x80
  }

  /** The table is the shift. */
  lemma MaskIsShift(k: int)
    requires 0 <= k < 8
    ensures Mask(k) == 1 << (k as bv8)
  {
  }

  /** The byte BitSet writes: b with bit k set (|=) or cleared (&^=). */
  function WithBit(b: bv8, k: int, bit: bool): bv8
    requires 0 <= k < 8
  {
    if bit then b | Mask(k) else b & !Mask(k)
  }

  /** Setting or clearing bit k of b changes bit k to match and no other bit. */
  lemma WithBitBits(b: bv8, k: int, bit: bool, k2: int)
    requires 0 <= k < 8 && 0 <= k2 < 8
    ensures (WithBit(b, k, bit) & Mask(k2) != 0) == if k == k2 then bit else b & Mask(k2) != 0
  {
  }

  /** Bit k of byte j of bs. */
  function SeqBit(bs: seq<bv8>, j: int, k: int): bool
    requires 0 <= j < |bs| && 0 <= k < 8
  {
    bs[j] & Mask(k) != 0
  }

  /** Writing bit (j, k) of bs changes that bit to match and no other. */
  lemma UpdateSeqBit(bs: seq<bv8>, j: int, k: int, bit: bool, j2: int, k2: int)
    requires 0 <= j < |bs| && 0 <= k < 8 && 0 <= j2 < |bs| && 0 <= k2 < 8
    ensures SeqBit(bs[j := WithBit(bs[j], k, bit)], j2, k2) == if j == j2 && k == k2 then bit else SeqBit(bs, j2, k2)
  {
    if j == j2 {
      WithBitBits(bs[j], k, bit, k2);
    }
  }

  /** A clear byte has no bit set. */
  lemma ClearByte(k: int)
    requires 0 <= k < 8
    ensures (0 as bv8) & Mask(k) == 0
  {
  }

  /** Numbers that agree modulo eight after adding the same i agree before. */
  lemma ShiftedRemainder(i: int, a: int, b: int)
    requires (i + a) % 8 == (i + b) % 8
    ensures a % 8 == b % 8
  {
    assert ((i + a) - (i + b)) % 8 == 0;
  }

  /** A byte offset within a row stays before the next row. */
  lemma InRow(dy: int, c: int, stride: int)
    requires 0 <= dy && 0 <= c < stride
    ensures 0 <= dy * stride <= dy * stride + c < (dy + 1) * stride
  {
    Textile.MulMono(0, dy, stride);
  }

  /** Two numbers in one run of eight with the same remainder are equal. */
  lemma SameOctet(a: int, b: int)
    requires 0 <= a && 0 <= b && a / 8 == b / 8 && a % 8 == b % 8
    ensures a == b
  {
  }

  /** The byte index as the package writes it: y * stride + x >> 3, with no
      offset for the rectangle's corner (x >> 3 floors, as / does here). */
  function ByteIndexAsWritten(stride: int, x: int, y: int): int
  {
    y * stride + x / 8
  }

  /** The bit index as the package writes it: (y * stride + x) & 7, which is
      the non-negative remainder modulo eight. */
  function BitIndexAsWritten(stride: int, x: int, y: int): (k: int)
    ensures 0 <= k < 8
  {
    (y * stride + x) % 8
  }

  class Bitmap {
    var bytes: array<bv8>
    const stride: int
    const rect: Rect
    const palette: seq<RGBA>

    ghost predicate Valid()
      reads this
    {
      rect.WellFormed() && stride == (rect.Dx() + 7) / 8 && bytes.Length == stride * rect.Dy() && |palette| == 2
    }

    /** New: every bit clear, with rows of (w + 7) / 8 bytes and the palette
        (off, on). The rectangle is taken to be well formed: Go cannot make a
        slice of negative length. */
    constructor New(r: Rect, off: RGBA, on: RGBA)
      requires r.WellFormed()
      ensures Valid() && fresh(bytes) && rect == r && palette == [off, on]
      ensures stride == (r.Dx() + 7) / 8 && bytes.Length == stride * r.Dy()
      ensures forall i :: 0 <= i < bytes.Length ==> bytes[i] == 0
      ensures forall x: int, y: int :: Indexable(x, y) ==> !BitAt(x, y)
      ensures forall x: int, y: int :: !BitAtFromMin(x, y)
    {
      var w, h := r.Dx(), r.Dy();
      stride := (w + 7) / 8;
      var count := ((w + 7) / 8) * h;
      Textile.MulMono(0, h, (w + 7) / 8);
      bytes := new bv8[count](_ => 0);
      rect := r;
      palette := [off, on];
      new;
      forall x: int, y: int | Point(x, y).In(rect) && Indexable(x, y) ensures !BitAt(x, y) {
        ClearByte(BitIndexAsWritten(stride, x, y));
      }
      forall x: int, y: int | Point(x, y).In(rect) ensures !BitAtFromMin(x, y) {
        IndexInRange(x, y);
        ClearByte(BitIndex(x, y));
      }
    }

    /** Whether BitAt and BitSet can read the byte the package computes for
        (x, y): they return before indexing outside the rectangle, and inside
        it the index as written must lie within the byte slice, or Go panics. */
    predicate Indexable(x: int, y: int)
      reads this, bytes
    {
      !Point(x, y).In(rect) || 0 <= ByteIndexAsWritten(stride, x, y) < bytes.Length
    }

    /** Whether (x, y) is on in the byte contents bs, indexed as written. */
    function BitInAsWritten(bs: seq<bv8>, x: int, y: int): bool
      reads this, bytes
      requires Valid() && |bs| == bytes.Length && Indexable(x, y)
    {
      if !Point(x, y).In(rect) then false
      else SeqBit(bs, ByteIndexAsWritten(stride, x, y), BitIndexAsWritten(stride, x, y))
    }

    /** BitAt: whether the pixel at (x, y) is on, as the package computes it
        from the absolute coordinates; off outside the rectangle. */
    function BitAt(x: int, y: int): (b: bool)
      reads this, bytes
      requires Valid() && Indexable(x, y)
      ensures b ==> Point(x, y).In(rect)
    {
      BitInAsWritten(bytes[..], x, y)
    }

    /** At: the palette's second colour where the bit is on, its first where
        it is off. */
    function At(x: int, y: int): (c: RGBA)
      reads this, bytes
      requires Valid() && Indexable(x, y)
      ensures c == palette[0] || c == palette[1]
      ensures !Point(x, y).In(rect) ==> c == palette[0]
    {
      if BitAt(x, y) then palette[1] else palette[0]
    }

    /** Whether the package stores (x, y) and (px, py) in the same bit: both
        inside the rectangle with equal byte and bit indices as written. */
    predicate SameBitAsWritten(x: int, y: int, px: int, py: int)
      reads this
    {
      Point(x, y).In(rect) && Point(px, py).In(rect)
      && ByteIndexAsWritten(stride, x, y) == ByteIndexAsWritten(stride, px, py)
      && BitIndexAsWritten(stride, x, y) == BitIndexAsWritten(stride, px, py)
    }

    /** BitSet: the bit the package computes for (x, y) becomes bit, by OR
        or AND NOT with its mask; a no-op outside the rectangle. Every pixel
        stored in that same bit reads as bit afterwards, and every other
        pixel keeps its value. */
    method BitSet(x: int, y: int, bit: bool)
      requires Valid() && Indexable(x, y)
      modifies bytes
      ensures Valid()
      ensures !Point(x, y).In(rect) ==> bytes[..] == old(bytes[..])
      ensures Point(x, y).In(rect) ==>
                var j := ByteIndexAsWritten(stride, x, y);
                0 <= j < bytes.Length && bytes[..] == old(bytes[..])[j := WithBit(old(bytes[j]), BitIndexAsWritten(stride, x, y), bit)]
      ensures forall px: int, py: int {:trigger BitAt(px, py)} :: Indexable(px, py) ==>
                BitAt(px, py) == if SameBitAsWritten(x, y, px, py) then bit else old(BitAt(px, py))
    {
      if !Point(x, y).In(rect) {
        return;
      }
      ghost var bs := bytes[..];
      var j, k := ByteIndexAsWritten(stride, x, y), BitIndexAsWritten(stride, x, y);
      bytes[j] := WithBit(bytes[j], k, bit);
      forall px: int, py: int | Indexable(px, py)
        ensures BitAt(px, py) == if SameBitAsWritten(x, y, px, py) then bit else BitInAsWritten(bs, px, py)
      {
        if Point(px, py).In(rect) {
          UpdateSeqBit(bs, j, k, bit, ByteIndexAsWritten(stride, px, py), BitIndexAsWritten(stride, px, py));
        }
      }
    }

    /** The byte holding (x, y), counted from the rectangle's corner as
        image.RGBA's PixOffset counts it: the corrected indexing. */
    function ByteIndex(x: int, y: int): int
      reads this
    {
      (y - rect.min.y) * stride + (x - rect.min.x) / 8
    }

    /** The bit within that byte: the row's first byte offset plus the column,
        modulo eight, both counted from the corner. */
    function BitIndex(x: int, y: int): int
      reads this
    {
      ((y - rect.min.y) * stride + (x - rect.min.x)) % 8
    }
    lemma IndexInRange(x: int, y: int)
      requires Valid() && Point(x, y).In(rect)
      ensures 0 <= ByteIndex(x, y) < bytes.Length && 0 <= BitIndex(x, y) < 8
    {
      var dx, dy := x - rect.min.x, y - rect.min.y;
      assert dx / 8 < stride;
      Textile.MulMono(0, dy, stride);
      Textile.MulMono(dy + 1, rect.Dy(), stride);
    }

    /** Distinct pixels of the rectangle are distinct bits. */
    lemma IndexInjective(p: Point, q: Point)
      requires Valid() && p.In(rect) && q.In(rect) && p != q
      ensures ByteIndex(p.x, p.y) != ByteIndex(q.x, q.y) || BitIndex(p.x, p.y) != BitIndex(q.x, q.y)
    {
      var dpx, dpy, dqx, dqy := p.x - rect.min.x, p.y - rect.min.y, q.x - rect.min.x, q.y - rect.min.y;
      assert dpx / 8 < stride && dqx / 8 < stride;
      InRow(dpy, dpx / 8, stride);
      InRow(dqy, dqx / 8, stride);
      if dpy < dqy {
        Textile.MulMono(dpy + 1, dqy, stride);
      } else if dqy < dpy {
        Textile.MulMono(dqy + 1, dpy, stride);
      } else if BitIndex(p.x, p.y) == BitIndex(q.x, q.y) {
        ShiftedRemainder(dpy * stride, dpx, dqx);
        if dpx / 8 == dqx / 8 {
          SameOctet(dpx, dqx);
        }
      }
    }

    /** Whether (x, y) is on in the byte contents bs, indexed from the corner. */
    function BitIn(bs: seq<bv8>, x: int, y: int): bool
      reads this
      requires Valid() && |bs| == bytes.Length
    {
      if !Point(x, y).In(rect) then false
      else
        IndexInRange(x, y);
        SeqBit(bs, ByteIndex(x, y), BitIndex(x, y))
    }

    /** The corrected BitAt: whether the pixel at (x, y) is on, indexed from
        the corner; off outside the rectangle. */
    function BitAtFromMin(x: int, y: int): bool
      reads this, bytes
      requires Valid()
    {
      BitIn(bytes[..], x, y)
    }

    /** The byte contents after setting or clearing (x, y). */
    function Updated(bs: seq<bv8>, x: int, y: int, bit: bool): (u: seq<bv8>)
      reads this
      requires Valid() && |bs| == bytes.Length && Point(x, y).In(rect)
      ensures |u| == |bs|
    {
      IndexInRange(x, y);
      var j, k := ByteIndex(x, y), BitIndex(x, y);
      bs[j := WithBit(bs[j], k, bit)]
    }

    /** Updating the bit of (x, y) leaves the bit of (px, py) to match. */
    lemma UpdatedBit(bs: seq<bv8>, x: int, y: int, bit: bool, px: int, py: int)
      requires Valid() && |bs| == bytes.Length && Point(x, y).In(rect)
      ensures BitIn(Updated(bs, x, y, bit), px, py) == if px == x && py == y then bit else BitIn(bs, px, py)
    {
      if Point(px, py).In(rect) {
        IndexInRange(x, y);
        IndexInRange(px, py);
        var j, k := ByteIndex(x, y), BitIndex(x, y);
        var j2, k2 := ByteIndex(px, py), BitIndex(px, py);
        assert Updated(bs, x, y, bit) == bs[j := WithBit(bs[j], k, bit)];
        if px != x || py != y {
          IndexInjective(Point(px, py), Point(x, y));
        }
        UpdateSeqBit(bs, j, k, bit, j2, k2);
      }
    }

    /** Updating one pixel's bit changes that pixel to bit and no other. */
    lemma UpdatedBits(bs: seq<bv8>, x: int, y: int, bit: bool)
      requires Valid() && |bs| == bytes.Length && Point(x, y).In(rect)
      ensures forall px: int, py: int :: BitIn(Updated(bs, x, y, bit), px, py) ==
                if px == x && py == y then bit else BitIn(bs, px, py)
    {
      forall px: int, py: int
        ensures BitIn(Updated(bs, x, y, bit), px, py) == if px == x && py == y then bit else BitIn(bs, px, py)
      {
        UpdatedBit(bs, x, y, bit, px, py);
      }
    }

    /** The corrected BitSet: the pixel at (x, y) becomes bit, by OR or AND
        NOT with its mask, indexed from the corner; a no-op outside the
        rectangle. No other pixel changes. */
    method BitSetFromMin(x: int, y: int, bit: bool)
      requires Valid()
      modifies bytes
      ensures Valid()
      ensures forall px: int, py: int :: BitAtFromMin(px, py) == if px == x && py == y && Point(x, y).In(rect) then bit else old(BitAtFromMin(px, py))
    {
      if !Point(x, y).In(rect) {
        return;
      }
      IndexInRange(x, y);
      ghost var bs := bytes[..];
      var j, k := ByteIndex(x, y), BitIndex(x, y);
      bytes[j] := WithBit(bytes[j], k, bit);
      assert bytes[..] == Updated(bs, x, y, bit);
      UpdatedBits(bs, x, y, bit);
    }
  }

  /** Outside its rectangle a bitmap reads as its first colour. */
  lemma AtOutside(b: Bitmap, x: int, y: int)
    requires b.Valid() && !Point(x, y).In(b.rect)
    ensures b.Indexable(x, y) && b.At(x, y) == b.palette[0]
  {
  }

  /** For a rectangle at the origin the two indexings agree, so the package
      works as intended there: every pixel can be read, and reads the same
      either way. */
  lemma AsWrittenAtOrigin(b: Bitmap, x: int, y: int)
    requires b.Valid() && b.rect.min == Origin
    ensures ByteIndexAsWritten(b.stride, x, y) == b.ByteIndex(x, y)
    ensures BitIndexAsWritten(b.stride, x, y) == b.BitIndex(x, y)
    ensures b.Indexable(x, y) && b.BitAt(x, y) == b.BitAtFromMin(x, y)
  {
    if Point(x, y).In(b.rect) {
      b.IndexInRange(x, y);
    }
  }

  /** At the origin no two pixels share a bit, so BitSet as written changes
      only the pixel it is given. */
  lemma NoAliasAtOrigin(b: Bitmap, x: int, y: int, px: int, py: int)
    requires b.Valid() && b.rect.min == Origin
    ensures b.SameBitAsWritten(x, y, px, py) <==> Point(x, y).In(b.rect) && px == x && py == y
  {
    AsWrittenAtOrigin(b, x, y);
    AsWrittenAtOrigin(b, px, py);
    if Point(x, y).In(b.rect) && Point(px, py).In(b.rect) && (px != x || py != y) {
      b.IndexInjective(Point(x, y), Point(px, py));
    }
  }

  /** A one-row bitmap whose rectangle starts at row 1: the pixel (0, 1) is
      inside it, but the written byte index is the length of the byte slice,
      so BitAt and BitSet index past its end (in Go, a panic), while the
      index counted from the corner is the first byte. */
  method AsWrittenOutOfRange() returns (inside: bool, indexable: bool, written: int, length: int, corrected: int)
    ensures inside && !indexable && written >= length && 0 <= corrected < length
  {
    var b := new Bitmap.New(Rect(Point(0, 1), Point(8, 2)), Transparent, Transparent);
    inside := Point(0, 1).In(b.rect);
    indexable := b.Indexable(0, 1);
    written := ByteIndexAsWritten(b.stride, 0, 1);
    length := b.bytes.Length;
    corrected := b.ByteIndex(0, 1);
  }

  /** A two-row bitmap over columns 4 to 11: one byte per row, and both
      indices as written stay inside the slice. Pixels (8, 0) and (7, 1)
      share byte 1, bit 0, so setting (8, 0) turns (7, 1) on as well; the
      corrected BitSet leaves (7, 1) off. */
  method AsWrittenAliasing() returns (before: bool, after: bool, corrected: bool)
    ensures !before && after && !corrected
  {
    var r := Rect(Point(4, 0), Point(12, 2));
    var b := new Bitmap.New(r, Transparent, Transparent);
    AliasedPixels(b);
    before := b.BitAt(7, 1);
    b.BitSet(8, 0, true);
    after := b.BitAt(7, 1);
    var c := new Bitmap.New(r, Transparent, Transparent);
    c.BitSetFromMin(8, 0, true);
    corrected := c.BitAtFromMin(7, 1);
  }

  /** The layout of the bitmap AsWrittenAliasing uses. */
  lemma AliasedPixels(b: Bitmap)
    requires b.Valid() && b.rect == Rect(Point(4, 0), Point(12, 2))
    ensures b.stride == 1 && b.bytes.Length == 2
    ensures b.Indexable(8, 0) && b.Indexable(7, 1) && b.SameBitAsWritten(8, 0, 7, 1)
  {
  }
}

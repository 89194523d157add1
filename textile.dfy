/** A strided buffer of cells over a rectangle that need not rest at the
    origin (textile/textile.go). A sub-view shares the parent's storage, as a
    Go slice of the parent's slice does: it keeps the array and the stride
    and starts further into the array. The same layout (Pix, Stride, Rect,
    SubImage) is what Go's image.RGBA uses, so the class is generic in the
    cell type and also serves as the display's colour planes. */
module Textile {
  import opened Geom

  lemma MulMono(a: int, b: int, s: int)
    requires a <= b && s >= 0
    ensures a * s <= b * s
  {
    assert b * s - a * s == (b - a) * s;
  }

  lemma MulDiff(a: int, b: int, s: int)
    ensures a * s - b * s == (a - b) * s
  {
  }

  /** Row-major positions with columns below the width w are distinct. */
  lemma RowMajorInjective(r1: int, c1: int, r2: int, c2: int, w: int)
    requires 0 <= c1 < w && 0 <= c2 < w && (r1 != r2 || c1 != c2)
    ensures r1 * w + c1 != r2 * w + c2
  {
    if r1 < r2 {
      MulMono(r1 + 1, r2, w);
    } else if r2 < r1 {
      MulMono(r2 + 1, r1, w);
    }
  }

  class Textile<T> {
    /** The shared backing storage (the Go slice's array). */
    var cells: array<T>
    /** Where this view's slice begins within `cells`. */
    var start: int
    var stride: int
    var rect: Rect
    /** What a cell outside the rectangle reads as (Go's zero value). */
    const blank: T

    ghost predicate Valid()
      reads this
    {
      rect.WellFormed() && 0 <= start && rect.Dx() <= stride &&
      (!rect.Empty() ==> start + (rect.Dy() - 1) * stride + rect.Dx() <= cells.Length)
    }

    /** StringsOffset: the offset of (x, y) from this view's slice start. */
    function StringsOffset(x: int, y: int): (o: int)
      reads this
      ensures x == rect.min.x && y == rect.min.y ==> o == 0
      ensures y == rect.min.y ==> o == x - rect.min.x
    {
      (y - rect.min.y) * stride + (x - rect.min.x)
    }

    /** Where (x, y) lives in the shared array. */
    function Index(x: int, y: int): int
      reads this
    {
      start + StringsOffset(x, y)
    }

    lemma IndexInRange(x: int, y: int)
      requires Valid() && Point(x, y).In(rect)
      ensures 0 <= Index(x, y) < cells.Length
    {
      MulMono(0, y - rect.min.y, stride);
      MulMono(y - rect.min.y, rect.Dy() - 1, stride);
    }

    /** Distinct points of the rectangle occupy distinct cells. */
    lemma IndexInjective(p: Point, q: Point)
      requires Valid() && p.In(rect) && q.In(rect) && p != q
      ensures Index(p.x, p.y) != Index(q.x, q.y)
    {
      RowMajorInjective(p.y - rect.min.y, p.x - rect.min.x, q.y - rect.min.y, q.x - rect.min.x, stride);
    }

    /** Row-major order in the rectangle is increasing order in the array. */
    lemma IndexOrdered(p: Point, q: Point)
      requires Valid() && p.In(rect) && q.In(rect)
      requires p.y < q.y || (p.y == q.y && p.x < q.x)
      ensures Index(p.x, p.y) < Index(q.x, q.y)
    {
      MulDiff(q.y - rect.min.y, p.y - rect.min.y, stride);
      if p.y < q.y {
        MulMono(1, q.y - p.y, stride);
      }
    }

    /** The start of the next row comes after every cell of this one. */
    lemma NextRowAfter(a: int, b: int, row: int)
      requires Valid() && Point(b, row).In(rect) && rect.min.x <= a
      ensures Index(a, row + 1) > Index(b, row)
    {
      MulDiff(row + 1 - rect.min.y, row - rect.min.y, stride);
    }

    /** At: the cell at (x, y), `blank` outside the rectangle. */
    function At(x: int, y: int): (v: T)
      reads this, cells
      requires Valid()
      ensures !Point(x, y).In(rect) ==> v == blank
      ensures Point(x, y).In(rect) ==> 0 <= Index(x, y) < cells.Length && v == cells[Index(x, y)]
    {
      if !Point(x, y).In(rect) then blank
      else
        IndexInRange(x, y);
        cells[Index(x, y)]
    }

    /** New: every cell blank, stride equal to the width, w*h cells. */
    constructor New(r: Rect, blank: T)
      requires r.WellFormed()
      ensures Valid() && fresh(cells)
      ensures rect == r && stride == r.Dx() && start == 0 && cells.Length == r.Dx() * r.Dy()
      ensures this.blank == blank
      ensures forall i :: 0 <= i < cells.Length ==> cells[i] == blank
      ensures forall x: int, y: int :: At(x, y) == blank
    {
      this.blank := blank;
      cells := new T[r.Dx() * r.Dy()](_ => blank);
      start, stride, rect := 0, r.Dx(), r;
      new;
      if !r.Empty() {
        MulDiff(r.Dy(), 1, r.Dx());
      }
    }

    /** A view of part of another view's storage. */
    constructor View(parent: Textile<T>, r: Rect)
      requires parent.Valid() && !r.Empty() && r.Within(parent.rect)
      ensures Valid() && cells == parent.cells && stride == parent.stride && rect == r
      ensures blank == parent.blank
      ensures forall x, y :: Index(x, y) == parent.Index(x, y)
    {
      cells := parent.cells;
      start := parent.Index(r.min.x, r.min.y);
      stride := parent.stride;
      rect := r;
      blank := parent.blank;
      new;
      assert r.min.In(parent.rect);
      assert Point(r.max.x - 1, r.max.y - 1).In(parent.rect);
      parent.IndexInRange(r.max.x - 1, r.max.y - 1);
      MulMono(0, r.min.y - parent.rect.min.y, parent.stride);
      forall x, y ensures Index(x, y) == parent.Index(x, y) {
        MulDiff(y - parent.rect.min.y, y - r.min.y, stride);
      }
      MulDiff(r.max.y - 1 - parent.rect.min.y, r.Dy() - 1, stride);
    }

    /** Whether storage cell i holds a point of this view's rectangle. */
    ghost predicate Covers(i: int)
      reads this
    {
      exists px: int, py: int :: Point(px, py).In(rect) && Index(px, py) == i
    }

    /** Set: overwrites the one cell at (x, y); a no-op outside the rectangle. */
    method Set(x: int, y: int, v: T)
      requires Valid()
      modifies cells
      ensures Point(x, y).In(rect) ==> 0 <= Index(x, y) < cells.Length && cells[Index(x, y)] == v
      ensures forall i :: 0 <= i < cells.Length && (i != Index(x, y) || !Point(x, y).In(rect)) ==>
                cells[i] == old(cells[i])
      ensures forall px: int, py: int {:trigger At(px, py)} :: At(px, py) == if px == x && py == y && Point(px, py).In(rect) then v else old(At(px, py))
    {
      if Point(x, y).In(rect) {
        IndexInRange(x, y);
        cells[Index(x, y)] := v;
        forall px: int, py: int | Point(px, py).In(rect) && (px != x || py != y)
          ensures At(px, py) == old(At(px, py))
        {
          IndexInjective(Point(px, py), Point(x, y));
        }
      }
    }

    /** Fill: every cell of the rectangle becomes v. */
    method Fill(v: T)
      requires Valid()
      modifies cells
      ensures forall px: int, py: int :: Point(px, py).In(rect) ==> At(px, py) == v
      ensures OutsideKept(this, old(cells[..]))
    {
      var y := rect.min.y;
      while y < rect.max.y
        invariant rect.min.y <= y <= rect.max.y || rect.Empty()
        invariant forall px: int, py: int :: Point(px, py).In(rect) && py < y ==> At(px, py) == v
        invariant OutsideKept(this, old(cells[..]))
      {
        var x := rect.min.x;
        while x < rect.max.x
          invariant rect.min.x <= x <= rect.max.x
          invariant forall px: int, py: int :: Point(px, py).In(rect) && (py < y || (py == y && px < x)) ==> At(px, py) == v
          invariant OutsideKept(this, old(cells[..]))
        {
          Set(x, y, v);
          x := x + 1;
        }
        y := y + 1;
      }
    }

    /** SubText: the part of this view inside r, sharing its cells; the
        zero view when nothing of r is inside. */
    method SubText(r: Rect) returns (sub: Textile<T>)
      requires Valid()
      ensures sub.Valid() && sub.rect == r.Intersect(rect) && sub.blank == blank
      ensures sub.rect.Empty() ==> sub.rect == ZR && fresh(sub.cells) && sub.cells.Length == 0
      ensures !sub.rect.Empty() ==> sub.cells == cells && sub.stride == stride && Shares(sub, this)
      ensures forall px: int, py: int {:trigger sub.At(px, py)} :: Point(px, py).In(sub.rect) ==> sub.At(px, py) == At(px, py)
    {
      var s := r.Intersect(rect);
      if s.Empty() {
        sub := new Textile<T>.New(ZR, blank);
      } else {
        sub := new Textile<T>.View(this, s);
      }
    }
  }

  // The copy loop shared by textile.Draw, sheet.Draw and the Src copy
  // between image.RGBA planes. Each walks the destination rectangle s row by
  // row, reading the source at the same offset from sp. With `skip`, a source
  // cell equal to the blank value leaves the destination cell as it was. With
  // `snap`, the source is read as it was before the first write (the built-in
  // copy, which handles overlap); otherwise reads are live.

  /** sub reads and writes the storage of parent at the same coordinates. */
  ghost predicate Shares<T>(sub: Textile<T>, parent: Textile<T>)
    reads sub, parent
  {
    sub.cells == parent.cells && sub.blank == parent.blank &&
    sub.rect.Within(parent.rect) && forall x, y :: sub.Index(x, y) == parent.Index(x, y)
  }

  /** Inside its rectangle a sharing view reads what its parent reads, in
      whatever state both are: a write through either is seen by the other. */
  lemma SharedAt<T>(sub: Textile<T>, parent: Textile<T>)
    requires sub.Valid() && parent.Valid() && Shares(sub, parent)
    ensures forall x: int, y: int :: Point(x, y).In(sub.rect) ==> sub.At(x, y) == parent.At(x, y)
  {
  }

  /** The storage frame of a write through t: every storage cell that no
      point of t's rectangle occupies still holds what the copy C0 held. */
  ghost predicate OutsideKept<T>(t: Textile<T>, C0: seq<T>)
    reads t, t.cells
  {
    |C0| == t.cells.Length && forall i :: 0 <= i < |C0| && !t.Covers(i) ==> t.cells[i] == C0[i]
  }

  /** A write that keeps every storage cell outside a view keeps, for the
      view's parent, every cell outside the view's rectangle: the parent
      reads there what the storage copy C0 held. */
  lemma KeptOutsideView<T>(sub: Textile<T>, parent: Textile<T>, C0: seq<T>)
    requires sub.Valid() && parent.Valid() && Shares(sub, parent) && OutsideKept(sub, C0)
    ensures forall x: int, y: int :: !Point(x, y).In(sub.rect) ==> parent.At(x, y) == Snap(parent, C0, x, y)
  {
    forall x: int, y: int | !Point(x, y).In(sub.rect) && Point(x, y).In(parent.rect)
      ensures parent.At(x, y) == Snap(parent, C0, x, y)
    {
      parent.IndexInRange(x, y);
      var i := parent.Index(x, y);
      if sub.Covers(i) {
        var px, py :| Point(px, py).In(sub.rect) && sub.Index(px, py) == i;
        parent.IndexInjective(Point(px, py), Point(x, y));
        assert false;
      }
    }
  }

  /** Reading the current storage's copy is reading the current state. */
  lemma SnapNow<T>(t: Textile<T>)
    requires t.Valid()
    ensures forall x: int, y: int :: Snap(t, t.cells[..], x, y) == t.At(x, y)
  {
  }

  /** The value a copy leaves in a cell that held `under` when it read `t`. */
  function Over<T(==)>(skip: bool, blank: T, t: T, under: T): T
  {
    if skip && t == blank then under else t
  }

  /** A cell as it was when `cs` was a copy of the storage. */
  function Snap<T>(t: Textile<T>, cs: seq<T>, x: int, y: int): T
    reads t
    requires t.Valid() && |cs| == t.cells.Length
  {
    if !Point(x, y).In(t.rect) then t.blank
    else
      t.IndexInRange(x, y);
      cs[t.Index(x, y)]
  }

  /** What the copy leaves at (px, py), in terms of the storage as it was. */
  ghost function Want<T>(dst: Textile<T>, src: Textile<T>, DD: seq<T>, SS: seq<T>,
                             o: Point, sp: Point, skip: bool, px: int, py: int): T
    reads dst, src
    requires dst.Valid() && src.Valid() && |DD| == dst.cells.Length && |SS| == src.cells.Length
  {
    Over(skip, src.blank, Snap(src, SS, sp.x + (px - o.x), sp.y + (py - o.y)), Snap(dst, DD, px, py))
  }

  /** A live copy never reads a cell it has already written: the storage is
      separate, or it is laid out with one stride and every read is at or
      after the write position. */
  predicate ReadsAhead<T>(dst: Textile<T>, src: Textile<T>, o: Point, sp: Point)
    reads dst, src
  {
    dst.cells != src.cells ||
    (dst.stride == src.stride && src.Index(sp.x, sp.y) >= dst.Index(o.x, o.y))
  }

  /** The first array index a live copy may still read when writing (x, y). */
  function Floor<T>(dst: Textile<T>, src: Textile<T>, x: int, y: int): int
    reads dst, src
  {
    if dst.cells == src.cells then dst.Index(x, y) else 0
  }

  /** Outside s, dst holds what the storage copy DD held. */
  ghost predicate Kept<T>(dst: Textile<T>, s: Rect, DD: seq<T>)
    reads dst, dst.cells
    requires dst.Valid() && |DD| == dst.cells.Length
  {
    forall px: int, py: int {:trigger dst.At(px, py)} :: !Point(px, py).In(s) ==> dst.At(px, py) == Snap(dst, DD, px, py)
  }

  /** Each cell of s holds what a copy from sp on read for it from the storage
      copy SS of src, laid over what the storage copy DD of dst held there. */
  ghost predicate Copied<T>(dst: Textile<T>, s: Rect, src: Textile<T>, sp: Point, skip: bool, DD: seq<T>, SS: seq<T>)
    reads dst, dst.cells, src
    requires dst.Valid() && src.Valid() && |DD| == dst.cells.Length && |SS| == src.cells.Length
  {
    forall px: int, py: int {:trigger dst.At(px, py)} :: Point(px, py).In(s) ==> dst.At(px, py) == Want(dst, src, DD, SS, s.min, sp, skip, px, py)
  }

  /** Reading a storage copy taken in an earlier state is reading that state,
      when only the cells have changed since. */
  twostate lemma SnapOld<T>(t: Textile<T>)
    requires old(t.Valid()) && unchanged(t)
    ensures t.Valid()
    ensures forall x: int, y: int :: Snap(t, old(t.cells[..]), x, y) == old(t.At(x, y))
  {
  }

  /** A copy that skips nothing leaves the same cells whatever they held. */
  lemma CopiedAnyUnder<T>(dst: Textile<T>, s: Rect, src: Textile<T>, sp: Point, D1: seq<T>, D2: seq<T>, SS: seq<T>)
    requires dst.Valid() && src.Valid() && |D1| == |D2| == dst.cells.Length && |SS| == src.cells.Length
    requires Copied(dst, s, src, sp, false, D1, SS)
    ensures Copied(dst, s, src, sp, false, D2, SS)
  {
    forall px: int, py: int | Point(px, py).In(s)
      ensures dst.At(px, py) == Want(dst, src, D2, SS, s.min, sp, false, px, py)
    {
      assert dst.At(px, py) == Want(dst, src, D1, SS, s.min, sp, false, px, py);
    }
  }

  /** Kept and Copied together, stated on a copy C of dst's storage rather
      than on dst's current cells: a fact that later writes cannot disturb. */
  ghost predicate Result<T>(dst: Textile<T>, C: seq<T>, s: Rect, src: Textile<T>, sp: Point, skip: bool, DD: seq<T>, SS: seq<T>)
    reads dst, src
    requires dst.Valid() && src.Valid() && |C| == |DD| == dst.cells.Length && |SS| == src.cells.Length
  {
    forall x: int, y: int {:trigger Snap(dst, C, x, y)} :: Snap(dst, C, x, y) ==
      if Point(x, y).In(s) then Want(dst, src, DD, SS, s.min, sp, skip, x, y) else Snap(dst, DD, x, y)
  }

  lemma ToResult<T>(dst: Textile<T>, s: Rect, src: Textile<T>, sp: Point, skip: bool, DD: seq<T>, SS: seq<T>)
    requires dst.Valid() && src.Valid() && |DD| == dst.cells.Length && |SS| == src.cells.Length
    requires Kept(dst, s, DD) && Copied(dst, s, src, sp, skip, DD, SS)
    ensures Result(dst, dst.cells[..], s, src, sp, skip, DD, SS)
  {
    SnapNow(dst);
    forall x: int, y: int
      ensures Snap(dst, dst.cells[..], x, y) ==
              if Point(x, y).In(s) then Want(dst, src, DD, SS, s.min, sp, skip, x, y) else Snap(dst, DD, x, y)
    {
      assert Snap(dst, dst.cells[..], x, y) == dst.At(x, y);
    }
  }

  lemma FromResult<T>(dst: Textile<T>, s: Rect, src: Textile<T>, sp: Point, skip: bool, DD: seq<T>, SS: seq<T>)
    requires dst.Valid() && src.Valid() && |DD| == dst.cells.Length && |SS| == src.cells.Length
    requires Result(dst, dst.cells[..], s, src, sp, skip, DD, SS)
    ensures Kept(dst, s, DD) && Copied(dst, s, src, sp, skip, DD, SS)
  {
    SnapNow(dst);
    forall x: int, y: int
      ensures dst.At(x, y) ==
              if Point(x, y).In(s) then Want(dst, src, DD, SS, s.min, sp, skip, x, y) else Snap(dst, DD, x, y)
    {
      assert Snap(dst, dst.cells[..], x, y) == dst.At(x, y);
    }
  }

  /** Two copies into s that skip nothing, the second over the first's
      result: the second's source wins inside s, the first's start outside. */
  lemma ResultChain<T>(t: Textile<T>, s: Rect, src2: Textile<T>, src3: Textile<T>, sp: Point,
                       D: seq<T>, C2: seq<T>, C3: seq<T>, S2: seq<T>, S3: seq<T>)
    requires t.Valid() && src2.Valid() && src3.Valid()
    requires |D| == |C2| == |C3| == t.cells.Length && |S2| == src2.cells.Length && |S3| == src3.cells.Length
    requires Result(t, C2, s, src2, sp, false, D, S2) && Result(t, C3, s, src3, sp, false, C2, S3)
    ensures Result(t, C3, s, src3, sp, false, D, S3)
  {
    forall x: int, y: int
      ensures Snap(t, C3, x, y) ==
              if Point(x, y).In(s) then Want(t, src3, D, S3, s.min, sp, false, x, y) else Snap(t, D, x, y)
    {
      assert Snap(t, C3, x, y) ==
             if Point(x, y).In(s) then Want(t, src3, C2, S3, s.min, sp, false, x, y) else Snap(t, C2, x, y);
    }
  }

  /** What Kept says, stated on the current storage's copy. */
  lemma KeptSnap<T>(t: Textile<T>, s: Rect, DD: seq<T>)
    requires t.Valid() && |DD| == t.cells.Length && Kept(t, s, DD)
    ensures forall x: int, y: int :: !Point(x, y).In(s) ==> Snap(t, t.cells[..], x, y) == Snap(t, DD, x, y)
  {
    SnapNow(t);
  }

  /** Two steps that each keep the cells outside s keep them together. */
  lemma KeptAfter<T>(t: Textile<T>, s: Rect, D1: seq<T>, D2: seq<T>)
    requires t.Valid() && |D1| == |D2| == t.cells.Length
    requires Kept(t, s, D2)
    requires forall x: int, y: int :: !Point(x, y).In(s) ==> Snap(t, D2, x, y) == Snap(t, D1, x, y)
    ensures Kept(t, s, D1)
  {
  }

  /** Copies src, from sp on, into the rectangle s of dst. */
  method Copy<T(==)>(dst: Textile<T>, s: Rect, src: Textile<T>, sp: Point, skip: bool, snap: bool)
    requires dst.Valid() && src.Valid() && s.Within(dst.rect)
    modifies dst.cells
    ensures Kept(dst, s, old(dst.cells[..]))
    ensures snap || ReadsAhead(dst, src, s.min, sp) ==> Copied(dst, s, src, sp, skip, old(dst.cells[..]), old(src.cells[..]))
  {
    ghost var DD, SS := dst.cells[..], src.cells[..];
    if s.Empty() {
      assert Kept(dst, s, DD);
      assert Copied(dst, s, src, sp, skip, DD, SS);
      return;
    }
    ghost var safe := snap || ReadsAhead(dst, src, s.min, sp);
    var pix := if snap then src.cells[..] else [];
    CopyRows(dst, s, src, sp, skip, snap, pix, safe, DD, SS);
  }

  /** Row py is as it was outside the columns lo to hi. */
  ghost predicate RowKept<T>(dst: Textile<T>, DD: seq<T>, py: int, lo: int, hi: int)
    reads dst, dst.cells
    requires dst.Valid() && |DD| == dst.cells.Length
  {
    forall px :: !(lo <= px < hi) ==> dst.At(px, py) == Snap(dst, DD, px, py)
  }

  /** Row py holds the copy in the columns lo to hi. */
  ghost predicate RowCopied<T>(dst: Textile<T>, src: Textile<T>, DD: seq<T>, SS: seq<T>,
                                   o: Point, sp: Point, skip: bool, py: int, lo: int, hi: int)
    reads dst, dst.cells, src
    requires dst.Valid() && src.Valid() && |DD| == dst.cells.Length && |SS| == src.cells.Length
  {
    forall px :: lo <= px < hi ==> dst.At(px, py) == Want(dst, src, DD, SS, o, sp, skip, px, py)
  }

  /** The outer loop of the copy. */
  method CopyRows<T(==)>(dst: Textile<T>, s: Rect, src: Textile<T>, sp: Point, skip: bool, snap: bool, pix: seq<T>,
                         ghost safe: bool, ghost DD: seq<T>, ghost SS: seq<T>)
    requires dst.Valid() && src.Valid() && !s.Empty() && s.Within(dst.rect)
    requires dst.cells[..] == DD && src.cells[..] == SS && (snap ==> pix == SS)
    requires safe ==> snap || ReadsAhead(dst, src, s.min, sp)
    modifies dst.cells
    ensures Kept(dst, s, DD)
    ensures safe ==> Copied(dst, s, src, sp, skip, DD, SS)
  {
    var w, h, o, hi := s.Dx(), s.Dy(), s.min, s.max.x;
    assert Point(o.x, o.y).In(s) && Point(o.x + w - 1, o.y + h - 1).In(s);
    for y := 0 to h
      invariant forall py :: !(o.y <= py < o.y + y) ==> RowKept(dst, DD, py, 0, 0)
      invariant forall py :: o.y <= py < o.y + y ==> RowKept(dst, DD, py, o.x, hi)
      invariant safe ==> forall py :: o.y <= py < o.y + y ==> RowCopied(dst, src, DD, SS, o, sp, skip, py, o.x, hi)
      invariant safe && !snap ==> forall i {:trigger SS[i]} :: 0 <= i && Floor(dst, src, o.x, o.y + y) <= i < |SS| ==> src.cells[i] == SS[i]
    {
      assert RowKept(dst, DD, o.y + y, 0, 0);
      label before:
      CopyRow(dst, src, o, w, sp, o.y + y, sp.y + y, skip, snap, pix, safe, DD, SS);
      forall py | py != o.y + y
        ensures old@before(RowKept(dst, DD, py, 0, 0)) ==> RowKept(dst, DD, py, 0, 0)
        ensures old@before(RowKept(dst, DD, py, o.x, hi)) ==> RowKept(dst, DD, py, o.x, hi)
        ensures safe && old@before(RowCopied(dst, src, DD, SS, o, sp, skip, py, o.x, hi)) ==>
                  RowCopied(dst, src, DD, SS, o, sp, skip, py, o.x, hi)
      {
      }
      if safe && !snap && dst.cells == src.cells {
        FloorNextRow(dst, src, o.x, o.x + w - 1, o.y + y, SS);
      }
    }
    RowsDone(dst, s, src, sp, skip, safe, DD, SS);
  }

  /** Every row of s kept outside s and, when safe, copied inside it: the
      whole destination is kept outside s and copied inside it. */
  lemma RowsDone<T>(dst: Textile<T>, s: Rect, src: Textile<T>, sp: Point, skip: bool, safe: bool, DD: seq<T>, SS: seq<T>)
    requires dst.Valid() && src.Valid() && |DD| == dst.cells.Length && |SS| == src.cells.Length
    requires forall py :: !(s.min.y <= py < s.max.y) ==> RowKept(dst, DD, py, 0, 0)
    requires forall py :: s.min.y <= py < s.max.y ==> RowKept(dst, DD, py, s.min.x, s.max.x)
    requires safe ==> forall py :: s.min.y <= py < s.max.y ==> RowCopied(dst, src, DD, SS, s.min, sp, skip, py, s.min.x, s.max.x)
    ensures Kept(dst, s, DD)
    ensures safe ==> Copied(dst, s, src, sp, skip, DD, SS)
  {
    forall px: int, py: int
      ensures !Point(px, py).In(s) ==> dst.At(px, py) == Snap(dst, DD, px, py)
      ensures safe && Point(px, py).In(s) ==> dst.At(px, py) == Want(dst, src, DD, SS, s.min, sp, skip, px, py)
    {
      if s.min.y <= py < s.max.y {
        assert RowKept(dst, DD, py, s.min.x, s.max.x);
        if safe {
          assert RowCopied(dst, src, DD, SS, s.min, sp, skip, py, s.min.x, s.max.x);
        }
      } else {
        assert RowKept(dst, DD, py, 0, 0);
      }
    }
  }

  /** What a source sharing the destination's storage still holds past the
      end of one destination row, it holds from the start of the next. */
  lemma FloorNextRow<T>(dst: Textile<T>, src: Textile<T>, a: int, b: int, row: int, SS: seq<T>)
    requires dst.Valid() && Point(b, row).In(dst.rect) && dst.rect.min.x <= a && |SS| == src.cells.Length
    requires src.cells == dst.cells
    requires forall i {:trigger SS[i]} :: 0 <= i && Floor(dst, src, b, row) < i < |SS| ==> src.cells[i] == SS[i]
    ensures forall i {:trigger SS[i]} :: 0 <= i && Floor(dst, src, a, row + 1) <= i < |SS| ==> src.cells[i] == SS[i]
  {
    dst.NextRowAfter(a, b, row);
  }

  /** The inner loop of the copy: one row of the destination rectangle. */
  method CopyRow<T(==)>(dst: Textile<T>, src: Textile<T>, o: Point, w: int, sp: Point, row: int, srow: int,
                        skip: bool, snap: bool, pix: seq<T>, ghost safe: bool, ghost DD: seq<T>, ghost SS: seq<T>)
    requires dst.Valid() && src.Valid() && |DD| == dst.cells.Length && |SS| == src.cells.Length
    requires 0 < w && Point(o.x, row).In(dst.rect) && Point(o.x + w - 1, row).In(dst.rect)
    requires snap ==> pix == SS
    requires safe ==> snap || ReadsAhead(dst, src, o, sp)
    requires RowKept(dst, DD, row, 0, 0)
    requires safe && !snap ==> forall i {:trigger SS[i]} :: 0 <= i && Floor(dst, src, o.x, row) <= i < |SS| ==> src.cells[i] == SS[i]
    requires srow - sp.y == row - o.y
    modifies dst.cells
    ensures forall px: int, py: int {:trigger dst.At(px, py)} :: py != row ==> dst.At(px, py) == old(dst.At(px, py))
    ensures RowKept(dst, DD, row, o.x, o.x + w)
    ensures safe ==> RowCopied(dst, src, DD, SS, o, sp, skip, row, o.x, o.x + w)
    ensures safe && !snap ==> forall i {:trigger SS[i]} :: 0 <= i && Floor(dst, src, o.x + w - 1, row) < i < |SS| ==> src.cells[i] == SS[i]
  {
    for x := 0 to w
      invariant forall px: int, py: int {:trigger dst.At(px, py)} :: py != row ==> dst.At(px, py) == old(dst.At(px, py))
      invariant RowKept(dst, DD, row, o.x, o.x + x)
      invariant safe ==> RowCopied(dst, src, DD, SS, o, sp, skip, row, o.x, o.x + x)
      invariant safe && !snap ==> forall i {:trigger SS[i]} :: 0 <= i && Floor(dst, src, o.x + x, row) <= i < |SS| ==> src.cells[i] == SS[i]
    {
      CopyCell(dst, src, o, sp, o.x + x, row, sp.x + x, srow, skip, snap, pix, safe, DD, SS);
      if safe && !snap && src.cells == dst.cells && x + 1 < w {
        dst.IndexOrdered(Point(o.x + x, row), Point(o.x + x + 1, row));
      }
    }
  }

  /** One step of the copy: the value read at (qx, qy) goes to (x, y). */
  method CopyCell<T(==)>(dst: Textile<T>, src: Textile<T>, o: Point, sp: Point, x: int, y: int,
                         qx: int, qy: int, skip: bool, snap: bool, pix: seq<T>,
                         ghost safe: bool, ghost DD: seq<T>, ghost SS: seq<T>)
    requires dst.Valid() && src.Valid() && |DD| == dst.cells.Length && |SS| == src.cells.Length
    requires Point(x, y).In(dst.rect) && dst.At(x, y) == Snap(dst, DD, x, y)
    requires snap ==> pix == SS
    requires safe ==> snap || ReadsAhead(dst, src, o, sp)
    requires qx - x == sp.x - o.x && qy - y == sp.y - o.y
    requires safe && !snap ==> forall i {:trigger SS[i]} :: 0 <= i && Floor(dst, src, x, y) <= i < |SS| ==> src.cells[i] == SS[i]
    modifies dst.cells
    ensures safe ==> dst.At(x, y) == Want(dst, src, DD, SS, o, sp, skip, x, y)
    ensures forall px: int, py: int {:trigger dst.At(px, py)} :: px != x || py != y ==> dst.At(px, py) == old(dst.At(px, py))
    ensures 0 <= dst.Index(x, y) < dst.cells.Length
    ensures forall i :: 0 <= i < dst.cells.Length && i != dst.Index(x, y) ==> dst.cells[i] == old(dst.cells[i])
  {
    var t := if snap then Snap(src, pix, qx, qy) else src.At(qx, qy);
    if safe && !snap {
      ReadIsSnap(dst, src, o, sp, x, y, qx, qy, SS);
    }
    assert sp.x + (x - o.x) == qx && sp.y + (y - o.y) == qy;
    dst.IndexInRange(x, y);
    if !(skip && t == src.blank) {
      dst.Set(x, y, t);
    }
  }

  /** Reading ahead of the write position sees the storage as it was. */
  lemma ReadIsSnap<T>(dst: Textile<T>, src: Textile<T>, o: Point, sp: Point, wx: int, wy: int,
                      qx: int, qy: int, SS: seq<T>)
    requires dst.Valid() && src.Valid() && |SS| == src.cells.Length
    requires ReadsAhead(dst, src, o, sp)
    requires qx - wx == sp.x - o.x && qy - wy == sp.y - o.y
    requires forall i {:trigger SS[i]} :: 0 <= i && Floor(dst, src, wx, wy) <= i < |SS| ==> src.cells[i] == SS[i]
    ensures src.At(qx, qy) == Snap(src, SS, qx, qy)
  {
    if Point(qx, qy).In(src.rect) {
      src.IndexInRange(qx, qy);
      if dst.cells == src.cells {
        MulDiff(qy - src.rect.min.y, wy - dst.rect.min.y, src.stride);
        MulDiff(sp.y - src.rect.min.y, o.y - dst.rect.min.y, src.stride);
        assert (qy - src.rect.min.y) - (wy - dst.rect.min.y) == (sp.y - src.rect.min.y) - (o.y - dst.rect.min.y);
        assert src.Index(qx, qy) - dst.Index(wx, wy) == src.Index(sp.x, sp.y) - dst.Index(o.x, o.y);
      }
    }
  }

  /** textile.Draw: copies the non-empty strings of src, starting at sp, into
      the part of r inside dst; empty strings leave the destination cell as it
      was. The destination is clipped without moving sp. The loop reads the
      source live. When dst and src are different views that share storage,
      the contract covers the case the loop cannot disturb: every read at or
      after the write position. When src is dst itself, the result is stated
      in full by SelfDrawn, including reads of cells already written. */
  method Draw(dst: Textile<string>, r: Rect, src: Textile<string>, sp: Point)
    requires dst.Valid() && src.Valid() && src.blank == ""
    modifies dst.cells
    ensures Kept(dst, r.Intersect(dst.rect), old(dst.cells[..]))
    ensures ReadsAhead(dst, src, r.Intersect(dst.rect).min, sp) ==>
              Copied(dst, r.Intersect(dst.rect), src, sp, true, old(dst.cells[..]), old(src.cells[..]))
    ensures dst == src ==> forall x: int, y: int {:trigger dst.At(x, y)} ::
              dst.At(x, y) == SelfDrawn(dst, old(dst.cells[..]), r.Intersect(dst.rect), sp, x, y)
  {
    var s := r.Intersect(dst.rect);
    if dst == src {
      ghost var DD := dst.cells[..];
      IntersectWithin(r, dst.rect);
      SelfCopy(dst, s, sp);
      if ReadsAhead(dst, src, s.min, sp) {
        SelfDrawnAhead(dst, DD, s, sp);
      }
    } else {
      Copy(dst, s, src, sp, true, false);
    }
  }

  lemma IntersectWithin(r: Rect, b: Rect)
    requires b.WellFormed()
    ensures r.Intersect(b).Within(b)
  {
  }

  // A textile drawn onto itself. textile.Draw's loop reads the source live,
  // so once the source region overlaps cells the loop has already written,
  // a read sees the written value: the copy smears. SelfDrawn states the
  // result for every source point, ahead of the writes or behind them.

  /** Row-major order: (qx, qy) comes before (x, y). */
  predicate Before(qx: int, qy: int, x: int, y: int)
  {
    qy < y || (qy == y && qx < x)
  }

  /** What t holds at (x, y) after the blank-skipping live copy of s from sp
      onto t itself, in terms of the storage copy DD taken before it: inside
      s, the value read at the source point, which is the copy's own result
      there when the loop has already written that point, laid over the old
      cell unless it is blank; outside s, the old cell. */
  ghost function SelfDrawn<T>(t: Textile<T>, DD: seq<T>, s: Rect, sp: Point, x: int, y: int): T
    reads t
    requires t.Valid() && |DD| == t.cells.Length
    decreases if Point(x, y).In(s) then y - s.min.y else 0, if Point(x, y).In(s) then x - s.min.x else 0
  {
    if !Point(x, y).In(s) then Snap(t, DD, x, y)
    else
      var qx, qy := sp.x + (x - s.min.x), sp.y + (y - s.min.y);
      var v := if Point(qx, qy).In(s) && Before(qx, qy, x, y) then SelfDrawn(t, DD, s, sp, qx, qy)
               else Snap(t, DD, qx, qy);
      Over(true, t.blank, v, Snap(t, DD, x, y))
  }

  /** When every read is at or after the write position, no read sees a
      written cell, and the self-copy is the copy read from the old storage. */
  lemma SelfDrawnAhead<T>(t: Textile<T>, DD: seq<T>, s: Rect, sp: Point)
    requires t.Valid() && |DD| == t.cells.Length && s.Within(t.rect)
    requires t.Index(sp.x, sp.y) >= t.Index(s.min.x, s.min.y)
    ensures forall x: int, y: int {:trigger SelfDrawn(t, DD, s, sp, x, y)} :: Point(x, y).In(s) ==>
              SelfDrawn(t, DD, s, sp, x, y) == Want(t, t, DD, DD, s.min, sp, true, x, y)
  {
    forall x: int, y: int | Point(x, y).In(s)
      ensures SelfDrawn(t, DD, s, sp, x, y) == Want(t, t, DD, DD, s.min, sp, true, x, y)
    {
      var qx, qy := sp.x + (x - s.min.x), sp.y + (y - s.min.y);
      MulDiff(qy - t.rect.min.y, y - t.rect.min.y, t.stride);
      MulDiff(sp.y - t.rect.min.y, s.min.y - t.rect.min.y, t.stride);
      assert (qy - t.rect.min.y) - (y - t.rect.min.y) == (sp.y - t.rect.min.y) - (s.min.y - t.rect.min.y);
      assert t.Index(qx, qy) - t.Index(x, y) == t.Index(sp.x, sp.y) - t.Index(s.min.x, s.min.y);
      if Point(qx, qy).In(s) && Before(qx, qy, x, y) {
        t.IndexOrdered(Point(qx, qy), Point(x, y));
      }
    }
  }

  /** The loop of textile.Draw run on one textile: row by row, the value
      read live at the source point is written unless it is blank. */
  method SelfCopy<T(==)>(t: Textile<T>, s: Rect, sp: Point)
    requires t.Valid() && s.Within(t.rect)
    modifies t.cells
    ensures forall x: int, y: int {:trigger t.At(x, y)} :: t.At(x, y) == SelfDrawn(t, old(t.cells[..]), s, sp, x, y)
  {
    ghost var DD := t.cells[..];
    SnapNow(t);
    if s.Empty() {
      return;
    }
    var w, h := s.Dx(), s.Dy();
    for y := 0 to h
      invariant forall px: int, py: int {:trigger t.At(px, py)} :: t.At(px, py) ==
                  if Point(px, py).In(s) && py < s.min.y + y then SelfDrawn(t, DD, s, sp, px, py) else Snap(t, DD, px, py)
    {
      for x := 0 to w
        invariant forall px: int, py: int {:trigger t.At(px, py)} :: t.At(px, py) ==
                    if Point(px, py).In(s) && Before(px, py, s.min.x + x, s.min.y + y) then SelfDrawn(t, DD, s, sp, px, py)
                    else Snap(t, DD, px, py)
      {
        SelfCopyCell(t, s, sp, s.min.x + x, s.min.y + y, DD);
      }
    }
  }

  /** One step of SelfCopy: the cell (x, y) of s. */
  method SelfCopyCell<T(==)>(t: Textile<T>, s: Rect, sp: Point, x: int, y: int, ghost DD: seq<T>)
    requires t.Valid() && s.Within(t.rect) && Point(x, y).In(s) && |DD| == t.cells.Length
    requires forall px: int, py: int {:trigger t.At(px, py)} :: t.At(px, py) ==
               if Point(px, py).In(s) && Before(px, py, x, y) then SelfDrawn(t, DD, s, sp, px, py) else Snap(t, DD, px, py)
    modifies t.cells
    ensures forall px: int, py: int {:trigger t.At(px, py)} :: t.At(px, py) ==
              if Point(px, py).In(s) && Before(px, py, x + 1, y) then SelfDrawn(t, DD, s, sp, px, py) else Snap(t, DD, px, py)
  {
    var qx, qy := sp.x + (x - s.min.x), sp.y + (y - s.min.y);
    var v := t.At(qx, qy);
    assert t.At(x, y) == Snap(t, DD, x, y);
    if v != t.blank {
      t.Set(x, y, v);
    }
  }
}

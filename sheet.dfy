/** sheet/sheet.go. Its Strings type has the layout, the At, Set, SubSheet
    and StringsOffset of textile.Textile to the letter, so the Textile class
    over strings stands for it; what sheet adds is its Draw. */
module Sheet {
  import opened Geom
  import Textile

  /** Draw: every cell of the overlap of the two sheets' bounds takes src's
      string at the same point, empty strings included; every other cell of
      dest is as it was. The loop reads src live, so when the two share
      storage the copy is stated for the layouts the loop cannot disturb. */
  method Draw(dest: Textile.Textile<string>, src: Textile.Textile<string>)
    requires dest.Valid() && src.Valid()
    modifies dest.cells
    ensures Textile.Kept(dest, dest.rect.Intersect(src.rect), old(dest.cells[..]))
    ensures var area := dest.rect.Intersect(src.rect);
      Textile.ReadsAhead(dest, src, area.min, area.min) ==>
        forall px: int, py: int {:trigger dest.At(px, py)} :: Point(px, py).In(area) ==>
          dest.At(px, py) == Textile.Snap(src, old(src.cells[..]), px, py)
  {
    var area := dest.rect.Intersect(src.rect);
    assert area.Within(dest.rect);
    Textile.Copy(dest, area, src, area.min, false, false);
  }
}

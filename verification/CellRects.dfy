/** Rectangles of map cells, and the static rectangle helpers of the map holder. */
module CellRects {

  /** What a default-constructed rectangle holds. */
  const ZERO_RECT := Rect(0, 0, 0, 0)

  function Min(a: int, b: int): int {
    if a <= b then a else b
  }

  function Max(a: int, b: int): int {
    if a <= b then b else a
  }

  /** A half-open rectangle of cells: x .. x + width - 1 by y .. y + height - 1. */
  datatype Rect = Rect(x: int, y: int, width: int, height: int) {

    function XEnd(): int {
      x + width
    }

    function YEnd(): int {
      y + height
    }

    predicate IsEmpty() {
      width <= 0 || height <= 0
    }

    predicate HasCell(cx: int, cy: int) {
      && 0 < width && 0 < height
      && x <= cx < XEnd()
      && y <= cy < YEnd()
    }

    /** The rectangle form of containment, with the special treatment of an empty object. */
    predicate Contains(obj: Rect) {
      if IsEmpty() then
        false
      else
        var objXEnd := if 0 < obj.width then obj.x + obj.width else obj.x;
        var objYEnd := if 0 < obj.height then obj.y + obj.height else obj.y;
        && x <= obj.x < XEnd() && objXEnd <= XEnd()
        && y <= obj.y < YEnd() && objYEnd <= YEnd()
    }

    function Merge(b: Rect): Rect {
      if b.IsEmpty() then
        this
      else if IsEmpty() then
        b
      else
        var xMin := Min(x, b.x);
        var yMin := Min(y, b.y);
        Rect(xMin, yMin, Max(XEnd(), b.XEnd()) - xMin, Max(YEnd(), b.YEnd()) - yMin)
    }

    function Intersect(b: Rect): Rect {
      if IsEmpty() || b.IsEmpty() then
        ZERO_RECT
      else
        var xMin := Max(x, b.x);
        var yMin := Max(y, b.y);
        var xEnd := Min(XEnd(), b.XEnd());
        var yEnd := Min(YEnd(), b.YEnd());
        Rect(xMin, yMin, if xMin < xEnd then xEnd - xMin else 0, if yMin < yEnd then yEnd - yMin else 0)
    }
  }

  /** Every cell of b is a cell of a. */
  ghost predicate Covers(a: Rect, b: Rect) {
    forall cx, cy :: b.HasCell(cx, cy) ==> a.HasCell(cx, cy)
  }

  /** On a non-empty object the four-sided test is exactly inclusion of cells. */
  lemma ContainsIsCellInclusion(a: Rect, b: Rect)
    requires !b.IsEmpty()
    ensures a.Contains(b) <==> Covers(a, b)
  {
    if Covers(a, b) {
      assert b.HasCell(b.x, b.y);
      assert b.HasCell(b.XEnd() - 1, b.YEnd() - 1);
    }
  }

  /** An empty object has no cell, yet the test still looks at its corner and at the side that is left. */
  lemma EmptyObjectContainment(a: Rect, b: Rect)
    requires b.IsEmpty()
    ensures Covers(a, b)
    ensures a.Contains(b) <==>
              && a.HasCell(b.x, b.y)
              && (0 < b.width ==> b.XEnd() <= a.XEnd()) && (0 < b.height ==> b.YEnd() <= a.YEnd())
  {
    assert forall cx, cy :: !b.HasCell(cx, cy);
  }

  /** The merge of two non-empty rectangles is their least upper bound in the containment order. */
  lemma MergeIsLeastUpperBound(a: Rect, b: Rect, r: Rect)
    requires !a.IsEmpty() && !b.IsEmpty()
    ensures !a.Merge(b).IsEmpty()
    ensures r.Contains(a.Merge(b)) <==> r.Contains(a) && r.Contains(b)
    ensures Covers(a.Merge(b), a) && Covers(a.Merge(b), b)
  {
  }

  lemma MergeLaws(a: Rect, b: Rect, c: Rect)
    ensures a.Merge(b).Merge(c) == a.Merge(b.Merge(c))
    ensures a.Merge(a) == a
    ensures a.Merge(b) == b.Merge(a) <==> (a == b || !a.IsEmpty() || !b.IsEmpty())
  {
  }

  /** The intersection has exactly the shared cells, also when an argument is empty. */
  lemma IntersectIsSharedCells(a: Rect, b: Rect, cx: int, cy: int)
    ensures a.Intersect(b).HasCell(cx, cy) <==> a.HasCell(cx, cy) && b.HasCell(cx, cy)
  {
  }

  /** Two non-empty rectangles that contain each other are equal. */
  lemma ContainsAntisymmetric(a: Rect, b: Rect)
    requires a.Contains(b) && b.Contains(a) && !a.IsEmpty() && !b.IsEmpty()
    ensures a == b
  {
  }

  /** The rectangle a sequence of merges builds, starting from the default rectangle. */
  function Hull(rects: seq<Rect>): Rect {
    if rects == [] then
      ZERO_RECT
    else
      Hull(rects[..|rects| - 1]).Merge(rects[|rects| - 1])
  }

  ghost predicate AllNonEmpty(rects: seq<Rect>) {
    forall r :: r in rects ==> !r.IsEmpty()
  }

  /** The hull is the least rectangle containing every listed one. */
  lemma {:induction false} HullIsLeast(rects: seq<Rect>, r: Rect)
    requires rects != [] && AllNonEmpty(rects)
    ensures !Hull(rects).IsEmpty()
    ensures r.Contains(Hull(rects)) <==> forall w :: w in rects ==> r.Contains(w)
  {
    var init, last := rects[..|rects| - 1], rects[|rects| - 1];
    assert rects == init + [last];
    if init != [] {
      HullIsLeast(init, r);
      MergeIsLeastUpperBound(Hull(init), last, r);
    } else {
      assert Hull(rects) == last;
    }
  }

  /** The hull depends only on which rectangles occur, not on their order or number. */
  lemma HullIgnoresOrder(rects: seq<Rect>, others: seq<Rect>)
    requires AllNonEmpty(rects)
    requires forall r :: r in rects <==> r in others
    ensures Hull(rects) == Hull(others)
  {
    if rects == [] {
      assert forall i :: 0 <= i < |others| ==> others[i] in rects;
    } else {
      assert rects[0] in others;
      HullIsLeast(rects, Hull(rects));
      HullIsLeast(rects, Hull(others));
      HullIsLeast(others, Hull(others));
      HullIsLeast(others, Hull(rects));
      ContainsAntisymmetric(Hull(rects), Hull(others));
    }
  }
}

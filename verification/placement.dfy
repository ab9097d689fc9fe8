/** Where the items go: the nested row/column loops that emit one box per
    item, the count printed on the sheet, and the stepped `range` loops
    that place the reference grid lines on the shape sheet. */
module Placement {
  import opened Grid

  /** The box handed to the rasteriser: top-left `(x0, y0)` and
      bottom-right `(x1, y1)`, as in `[x0, y0, x1, y1]`. */
  datatype Rect = Rect(x0: int, y0: int, x1: int, y1: int)

  /** Two boxes whose half-open interiors `[x0, x1) x [y0, y1)` do not meet. */
  predicate Disjoint(a: Rect, b: Rect) {
    a.x1 <= b.x0 || b.x1 <= a.x0 || a.y1 <= b.y0 || b.y1 <= a.y0
  }

  /** The number of iterations of `for i in range(n)`. */
  function Clamp(n: int): (k: nat) { if n < 0 then 0 else n }

  /** The box of the item in row `row`, column `col`: one item wide and
      one item high. */
  function ItemAt(l: Layout, row: int, col: int): (box: Rect)
    ensures box.x1 - box.x0 == l.horizontal.item && box.y1 - box.y0 == l.vertical.item
  {
    var x0 := l.horizontal.Pos(col);
    var y0 := l.vertical.Pos(row);
    Rect(x0, y0, x0 + l.horizontal.item, y0 + l.vertical.item)
  }

  /** The boxes in the order the loops emit them: row by row, and within a
      row column by column. */
  function Placements(l: Layout): (boxes: seq<Rect>) {
    var nc := Clamp(l.Cols());
    var nr := Clamp(l.Rows());
    if nc == 0 then []
    else seq(nr * nc, i requires 0 <= i < nr * nc => ItemAt(l, i / nc, i % nc))
  }

  /** How many boxes the loops emit: `range` of a negative count is empty. */
  function ItemCount(l: Layout): (n: nat)
    ensures n == |Placements(l)|
    ensures n > 0 <==> l.Cols() > 0 && l.Rows() > 0
  {
    MulPositive(Clamp(l.Rows()), Clamp(l.Cols()));
    Clamp(l.Rows()) * Clamp(l.Cols())
  }

  /** The count printed on the sheet, `rows * cols`, as the program computes it. */
  function ReportedCount(l: Layout): (printed: int)
    ensures (l.Rows() >= 0 && l.Cols() >= 0) || l.Rows() == 0 || l.Cols() == 0 ==> printed == ItemCount(l)
    ensures l.Rows() < 0 && l.Cols() < 0 ==> printed > 0 && ItemCount(l) == 0
    ensures (l.Rows() < 0 && l.Cols() > 0) || (l.Rows() > 0 && l.Cols() < 0) ==> printed < 0
  {
    MulSigns(l.Rows(), l.Cols());
    l.Rows() * l.Cols()
  }

  // ---------------------------------------------------------------------
  // Arithmetic helpers

  lemma MulPositive(a: nat, b: nat)
    ensures a * b > 0 <==> a > 0 && b > 0
  {
    if a > 0 && b > 0 {
      MulMonotone(1, a, b);
    }
  }

  lemma MulSigns(a: int, b: int)
    ensures a < 0 && b < 0 ==> a * b > 0
    ensures (a < 0 && b > 0) || (a > 0 && b < 0) ==> a * b < 0
  {
    if a < 0 && b < 0 {
      MulPositive(-a, -b);
    } else if a < 0 && b > 0 {
      MulPositive(-a, b);
    } else if a > 0 && b < 0 {
      MulPositive(a, -b);
    }
  }

  lemma LessFromMul(a: int, b: int, d: int)
    requires d > 0 && a * d < b * d
    ensures a < b
  {
    if a >= b {
      MulMonotone(b, a, d);
    }
  }

  lemma {:induction false} RowMajor(row: int, col: int, nc: int)
    requires nc > 0 && 0 <= col < nc
    ensures (row * nc + col) / nc == row && (row * nc + col) % nc == col
  {
    var k := row * nc + col;
    var q, r := k / nc, k % nc;
    assert (q - row) * nc == col - r;
    if q > row {
      MulMonotone(1, q - row, nc);
    } else if q < row {
      MulMonotone(1, row - q, nc);
    }
  }

  lemma {:induction false} RowInRange(i: int, nr: nat, nc: nat)
    requires nc > 0 && 0 <= i < nr * nc
    ensures 0 <= i / nc < nr && 0 <= i % nc < nc
  {
    if i / nc >= nr {
      MulMonotone(nr, i / nc, nc);
    }
  }

  // ---------------------------------------------------------------------
  // The placement loops

  /** `for row in range(rows): for col in range(cols): ...`, emitting the
      box of each item in turn. */
  method PlaceItems(l: Layout) returns (items: seq<Rect>)
    ensures |items| == ItemCount(l)
    ensures items == Placements(l)
  {
    ghost var nc := Clamp(l.Cols());
    ghost var all := Placements(l);
    items := [];
    var row := 0;
    while row < l.Rows()
      invariant 0 <= row <= Clamp(l.Rows())
      invariant |items| == row * nc <= |all|
      invariant forall k :: 0 <= k < |items| ==> items[k] == all[k]
    {
      var col := 0;
      while col < l.Cols()
        invariant 0 <= col <= nc
        invariant |items| == row * nc + col <= |all|
        invariant forall k :: 0 <= k < |items| ==> items[k] == all[k]
      {
        PlacementAt(l, row, col);
        items := items + [ItemAt(l, row, col)];
        col := col + 1;
      }
      row := row + 1;
      MulMonotone(row, Clamp(l.Rows()), nc);
    }
    MulMonotone(Clamp(l.Rows()), row, nc);
  }

  /** Every emitted box is the box of its (row, column): the loops walk the
      grid in row-major order. */
  lemma PlacementAt(l: Layout, row: int, col: int)
    requires 0 <= row < l.Rows() && 0 <= col < l.Cols()
    ensures row * l.Cols() + col < |Placements(l)|
    ensures Placements(l)[row * l.Cols() + col] == ItemAt(l, row, col)
  {
    var nc := l.Cols();
    RowMajor(row, col, nc);
    MulMonotone(row + 1, l.Rows(), nc);
  }

  /** Every emitted box lies inside the outer margin of the page. */
  lemma PlacementsInsideOuterMargin(width: int, height: int, margin: int, outer: int)
    requires width + margin > 0 && height + margin > 0
    ensures var ps := Placements(ComputeLayout(width, height, margin, outer).value);
      forall i :: 0 <= i < |ps| ==>
        outer <= ps[i].x0 && ps[i].x0 + width == ps[i].x1 && ps[i].x1 <= A4Width - outer &&
        outer <= ps[i].y0 && ps[i].y0 + height == ps[i].y1 && ps[i].y1 <= A4Height - outer
  {
    var l := ComputeLayout(width, height, margin, outer).value;
    var ps := Placements(l);
    var nc, nr := Clamp(l.Cols()), Clamp(l.Rows());
    forall i | 0 <= i < |ps|
      ensures outer <= ps[i].x0 && ps[i].x0 + width == ps[i].x1 && ps[i].x1 <= A4Width - outer
      ensures outer <= ps[i].y0 && ps[i].y0 + height == ps[i].y1 && ps[i].y1 <= A4Height - outer
    {
      RowInRange(i, nr, nc);
      InsideOuterMargin(A4Width, width, margin, outer, i % nc);
      InsideOuterMargin(A4Height, height, margin, outer, i / nc);
    }
  }

  /** Neighbouring boxes are exactly one margin apart in both directions,
      the first box starts at the centring offsets, and the last column and
      row end where the block ends. */
  lemma PlacementSpacing(width: int, height: int, margin: int, outer: int, row: int, col: int)
    requires width + margin != 0 && height + margin != 0
    ensures var l := ComputeLayout(width, height, margin, outer).value;
      ItemAt(l, row, col + 1).x0 - ItemAt(l, row, col).x1 == margin &&
      ItemAt(l, row + 1, col).y0 - ItemAt(l, row, col).y1 == margin &&
      ItemAt(l, 0, 0).x0 == l.horizontal.start && ItemAt(l, 0, 0).y0 == l.vertical.start &&
      ItemAt(l, row, l.Cols() - 1).x1 == l.horizontal.start + l.horizontal.total &&
      ItemAt(l, l.Rows() - 1, col).y1 == l.vertical.start + l.vertical.total
  {
    Spacing(A4Width, width, margin, outer, col);
    Spacing(A4Height, height, margin, outer, row);
  }

  lemma IndexDistinct(i: int, j: int, nc: int)
    requires nc > 0 && i != j
    ensures i / nc != j / nc || i % nc != j % nc
  {
  }

  /** With a non-negative margin the boxes of two different grid cells do
      not overlap. */
  lemma {:induction false} CellsDisjoint(width: int, height: int, margin: int, outer: int,
                                         ri: int, ci: int, rj: int, cj: int)
    requires width + margin > 0 && height + margin > 0 && margin >= 0
    requires ri != rj || ci != cj
    ensures var l := ComputeLayout(width, height, margin, outer).value;
      Disjoint(ItemAt(l, ri, ci), ItemAt(l, rj, cj))
  {
    if ci < cj {
      ExtentsDisjoint(A4Width, width, margin, outer, ci, cj);
    } else if cj < ci {
      ExtentsDisjoint(A4Width, width, margin, outer, cj, ci);
    } else if ri < rj {
      ExtentsDisjoint(A4Height, height, margin, outer, ri, rj);
    } else {
      ExtentsDisjoint(A4Height, height, margin, outer, rj, ri);
    }
  }

  /** With a non-negative margin no two emitted boxes overlap. */
  lemma PlacementsDisjoint(width: int, height: int, margin: int, outer: int)
    requires width + margin > 0 && height + margin > 0 && margin >= 0
    ensures var ps := Placements(ComputeLayout(width, height, margin, outer).value);
      forall i, j :: 0 <= i < j < |ps| ==> Disjoint(ps[i], ps[j])
  {
    var l := ComputeLayout(width, height, margin, outer).value;
    var ps := Placements(l);
    var nc := Clamp(l.Cols());
    forall i, j | 0 <= i < j < |ps|
      ensures Disjoint(ps[i], ps[j])
    {
      IndexDistinct(i, j, nc);
      CellsDisjoint(width, height, margin, outer, i / nc, i % nc, j / nc, j % nc);
    }
  }

  /** An item wider than the usable width leaves every row empty: nothing
      is drawn and the reported count is zero, not one, while the usable
      width plus a margin is not negative. */
  lemma NothingDrawnWhenTooWide(width: int, height: int, margin: int, outer: int)
    requires width + margin > 0 && height + margin > 0
    requires width > A4Width - 2 * outer
    ensures var l := ComputeLayout(width, height, margin, outer).value;
      Placements(l) == [] &&
      (A4Width - 2 * outer + margin >= 0 ==> l.Cols() == 0 && ReportedCount(l) == 0)
  {
    CountPositiveIff(A4Width, width, margin, outer);
    if A4Width - 2 * outer + margin >= 0 {
      TooWideGivesZero(A4Width, width, margin, outer);
    }
  }

  /** The printed count equals the number of boxes drawn whenever neither
      count is negative, that is whenever the outer margins leave at least
      minus one margin of usable length on both axes. */
  lemma ReportedCountMatchesWhenNonNegative(width: int, height: int, margin: int, outer: int)
    requires width + margin > 0 && height + margin > 0
    requires A4Width - 2 * outer + margin >= 0
    ensures var l := ComputeLayout(width, height, margin, outer).value;
      ReportedCount(l) == ItemCount(l) == |Placements(l)|
  {
    CountNonNegativeIff(A4Width, width, margin, outer);
    CountNonNegativeIff(A4Height, height, margin, outer);
  }

  /** As written, an outer margin of 16 cm (1889 px) on 5 x 3 cm labels
      prints 3 while no label is drawn: both counts are negative and their
      product is positive. */
  lemma ReportedCountMismatch()
    ensures var l := ComputeLayout(590, 354, 23, 1889).value;
      l.Cols() == -3 && l.Rows() == -1 && ReportedCount(l) == 3 && ItemCount(l) == 0
  {
  }

  // ---------------------------------------------------------------------
  // Reference grid lines

  /** `xs` is what Python's `range(start, stop, step)` yields: the values
      `start + k * step` in order, for as long as they stay before `stop`. */
  predicate IsRange(xs: seq<int>, start: int, stop: int, step: int)
    requires step != 0
  {
    (forall k :: 0 <= k < |xs| ==> xs[k] == start + k * step) &&
    (forall k :: 0 <= k < |xs| ==> if step > 0 then xs[k] < stop else xs[k] > stop) &&
    (if step > 0 then start + |xs| * step >= stop else start + |xs| * step <= stop)
  }

  /** The values of `for x in range(start, stop, step)`. */
  method SteppedRange(start: int, stop: int, step: int) returns (xs: seq<int>)
    requires step != 0
    ensures IsRange(xs, start, stop, step)
  {
    xs := [];
    var x := start;
    while if step > 0 then x < stop else x > stop
      invariant x == start + |xs| * step
      invariant forall k :: 0 <= k < |xs| ==> xs[k] == start + k * step
      invariant forall k :: 0 <= k < |xs| ==> if step > 0 then xs[k] < stop else xs[k] > stop
      decreases if step > 0 then stop - x else x - stop
    {
      xs := xs + [x];
      x := x + step;
    }
  }

  /** `n` values of a `range` with step `d` stop before a block of `count`
      items separated by a gap `margin` with `0 < margin <= d`: one line
      per item. */
  lemma LinesWithGap(n: nat, count: int, d: int, margin: int)
    requires 0 < margin <= d
    requires n > 0 ==> (n - 1) * d <= count * d - margin
    requires n * d >= count * d - margin + 1
    ensures n == Clamp(count)
  {
    assert (count - 1) * d == count * d - d;
    LessFromMul(count - 1, n, d);
    if n > 0 {
      LessFromMul(n - 1, count, d);
    }
  }

  /** The same without a gap: one line per item plus one at the far end. */
  lemma LinesWithoutGap(n: nat, count: int, d: int)
    requires d > 0
    requires n > 0 ==> (n - 1) * d <= count * d
    requires n * d >= count * d + 1
    ensures n == if count >= 0 then count + 1 else 0
  {
    LessFromMul(count, n, d);
    if n > 0 {
      assert (count + 1) * d == count * d + d;
      LessFromMul(n - 1, count + 1, d);
    }
  }

  /** The grid lines along one axis: `range(start, start + total + 1, step)`
      holds one line at the leading edge of every item, plus one at the end
      of the block when the margin is zero. */
  lemma {:induction false} GridLineCount(page: int, item: int, margin: int, outer: int, xs: seq<int>)
    requires item + margin > 0
    requires var a := PackAxis(page, item, margin, outer).value;
      IsRange(xs, a.start, a.start + a.total + 1, a.Step())
    ensures var a := PackAxis(page, item, margin, outer).value;
      (margin > 0 && item >= 0 ==> |xs| == Clamp(a.count)) &&
      (margin == 0 ==> |xs| == if a.count >= 0 then a.count + 1 else 0) &&
      (forall k :: 0 <= k < |xs| ==> xs[k] == a.Pos(k)) &&
      (margin == 0 && a.count >= 0 ==> xs[a.count] == a.start + a.total)
  {
    var a := PackAxis(page, item, margin, outer).value;
    var d := item + margin;
    var n := |xs|;
    assert a.total == a.count * d - margin;
    // the value after the last line is already past the block
    assert a.start + n * d >= a.start + a.total + 1;
    if n > 0 {
      // the last line is within the block
      assert xs[n - 1] == a.start + (n - 1) * d <= a.start + a.total;
    }
    if margin > 0 && item >= 0 {
      LinesWithGap(n, a.count, d, margin);
    }
    if margin == 0 {
      LinesWithoutGap(n, a.count, d);
    }
  }
}

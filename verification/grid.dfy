/** Layout arithmetic shared by the label sheet and the shape sheet: how many
    items of a given pixel size fit on an A4 page at 300 DPI, and where the
    centred block of items starts. Everything here is integer arithmetic on
    whole pixels; the conversion from centimetres happens before. */
module Grid {

  /** A4 at 300 DPI: int(21 * 300 / 2.54) by int(29.7 * 300 / 2.54) pixels. */
  const A4Width: int := 2480
  const A4Height: int := 3507

  datatype Result<+T, +E> = Ok(value: T) | Err(error: E)

  /** The only way the layout arithmetic fails: Python's `//` by zero. */
  datatype LayoutError = DivisionByZero

  /** Python's `//` on integers: the floor of the exact quotient, for a
      divisor of either sign (Dafny's `/` is Euclidean and agrees with it
      only when the divisor is positive). */
  function FloorDiv(a: int, b: int): (q: int)
    requires b != 0
    ensures b > 0 ==> q * b <= a < q * b + b
    ensures b < 0 ==> q * b >= a > q * b + b
  {
    if b > 0 then a / b else (-a) / (-b)
  }

  /** `n` items of length `item`, separated by `margin`, span at most `usable`. */
  predicate Fits(n: int, item: int, margin: int, usable: int) {
    n * item + (n - 1) * margin <= usable
  }

  /** The packing along one axis of the page. `item` and `margin` are the
      inputs; `usable` is the page length minus both outer margins, `count`
      the number of items, `total` the length of the block they form and
      `start` the offset of the first item. */
  datatype Axis = Axis(item: int, margin: int, usable: int, count: int, total: int, start: int)
  {
    /** Distance from one item's leading edge to the next one's. */
    function Step(): (d: int) { item + margin }

    /** Leading edge of the item with index `i` along this axis. */
    function Pos(i: int): (edge: int) { start + i * Step() }
  }

  /** One axis of the computation: usable length, count by floor division,
      block length and the centring offset. */
  function PackAxis(page: int, item: int, margin: int, outer: int): (r: Result<Axis, LayoutError>)
    ensures r.Err? <==> item + margin == 0
    ensures r.Ok? ==> r.value.item == item && r.value.margin == margin
    ensures r.Ok? ==> r.value.usable == page - 2 * outer
    ensures r.Ok? && item + margin > 0 ==>
      Fits(r.value.count, item, margin, r.value.usable) &&
      !Fits(r.value.count + 1, item, margin, r.value.usable)
    ensures r.Ok? ==> r.value.total == r.value.Pos(r.value.count - 1) + item - r.value.start
    ensures r.Ok? ==> 0 <= (page - r.value.total) - 2 * r.value.start <= 1
  {
    if item + margin == 0 then Err(DivisionByZero)
    else
      var usable := page - 2 * outer;
      var count := FloorDiv(usable + margin, item + margin);
      var total := count * item + (count - 1) * margin;
      Ok(Axis(item, margin, usable, count, total, FloorDiv(page - total, 2)))
  }

  /** The whole page: columns come from the horizontal axis, rows from the
      vertical one. Python evaluates the column count first, so a zero
      horizontal divisor is the error reported when both are zero. */
  datatype Layout = Layout(horizontal: Axis, vertical: Axis)
  {
    function Cols(): (cols: int) { horizontal.count }
    function Rows(): (rows: int) { vertical.count }
  }

  function ComputeLayout(width: int, height: int, margin: int, outer: int): (r: Result<Layout, LayoutError>)
    ensures r.Err? <==> width + margin == 0 || height + margin == 0
    ensures r.Ok? ==> Ok(r.value.horizontal) == PackAxis(A4Width, width, margin, outer)
    ensures r.Ok? ==> Ok(r.value.vertical) == PackAxis(A4Height, height, margin, outer)
  {
    match PackAxis(A4Width, width, margin, outer)
    case Err(e) => Err(e)
    case Ok(h) =>
      match PackAxis(A4Height, height, margin, outer)
      case Err(e) => Err(e)
      case Ok(v) => Ok(Layout(h, v))
  }

  // ---------------------------------------------------------------------
  // Arithmetic helpers

  lemma MulMonotone(a: int, b: int, d: int)
    requires d >= 0 && a <= b
    ensures a * d <= b * d
  {
    assert b * d - a * d == (b - a) * d;
  }

  lemma MulStrict(a: int, b: int, d: int)
    requires d > 0 && a < b
    ensures a * d + d <= b * d
  {
    MulMonotone(a + 1, b, d);
  }

  // ---------------------------------------------------------------------
  // Properties of one axis

  /** The count is the largest number of items that fit: `n` items fit into
      the usable length exactly when `n` is at most the count. */
  lemma {:induction false} CountIsLargestFit(page: int, item: int, margin: int, outer: int, n: int)
    requires item + margin > 0
    ensures Fits(n, item, margin, PackAxis(page, item, margin, outer).value.usable) <==>
            n <= PackAxis(page, item, margin, outer).value.count
  {
    var a := PackAxis(page, item, margin, outer).value;
    var d := item + margin;
    assert n * item + (n - 1) * margin == n * d - margin;
    assert a.count * item + (a.count - 1) * margin == a.count * d - margin;
    if n <= a.count {
      MulMonotone(n, a.count, d);
    } else {
      MulMonotone(a.count + 1, n, d);
      assert (a.count + 1) * item + a.count * margin == (a.count + 1) * d - margin;
    }
  }

  /** The count is negative exactly when the outer margins leave less than
      minus one inter-item margin; Python's `range` then yields nothing. */
  lemma CountNonNegativeIff(page: int, item: int, margin: int, outer: int)
    requires item + margin > 0
    ensures var a := PackAxis(page, item, margin, outer).value;
      a.count >= 0 <==> a.usable + margin >= 0
  {
    CountIsLargestFit(page, item, margin, outer, 0);
  }

  /** At least one item is placed exactly when one item fits: there is no
      clamp to a minimum of one. */
  lemma CountPositiveIff(page: int, item: int, margin: int, outer: int)
    requires item + margin > 0
    ensures var a := PackAxis(page, item, margin, outer).value;
      a.count >= 1 <==> item <= a.usable
  {
    CountIsLargestFit(page, item, margin, outer, 1);
  }

  /** An item wider than the usable length gives a count of zero (not one)
      whenever the usable length plus a margin is not negative. */
  lemma TooWideGivesZero(page: int, item: int, margin: int, outer: int)
    requires item + margin > 0
    requires item > page - 2 * outer
    requires page - 2 * outer + margin >= 0
    ensures PackAxis(page, item, margin, outer).value.count == 0
  {
    CountPositiveIff(page, item, margin, outer);
    CountNonNegativeIff(page, item, margin, outer);
  }

  /** Widening the gap between items never increases how many fit, as long
      as the narrower gap still leaves a non-negative count. */
  lemma {:induction false} MoreMarginNeverMoreItems(page: int, item: int, margin: int, margin': int, outer: int)
    requires item + margin > 0
    requires margin <= margin'
    requires page - 2 * outer + margin >= 0
    ensures PackAxis(page, item, margin', outer).value.count <= PackAxis(page, item, margin, outer).value.count
  {
    var a := PackAxis(page, item, margin, outer).value;
    var a' := PackAxis(page, item, margin', outer).value;
    var n := a'.count;
    CountNonNegativeIff(page, item, margin, outer);
    if n >= 1 {
      CountIsLargestFit(page, item, margin', outer, n);
      MulMonotone(margin, margin', n - 1);
      assert Fits(n, item, margin, a.usable);
      CountIsLargestFit(page, item, margin, outer, n);
    }
  }

  /** The block never extends past the usable length, and when it holds at
      least one item every item lies between the outer margins. */
  lemma {:induction false} InsideOuterMargin(page: int, item: int, margin: int, outer: int, i: int)
    requires item + margin > 0
    requires 0 <= i < PackAxis(page, item, margin, outer).value.count
    ensures var a := PackAxis(page, item, margin, outer).value;
      outer <= a.Pos(i) && a.Pos(i) + item <= page - outer
  {
    var a := PackAxis(page, item, margin, outer).value;
    var d := item + margin;
    assert a.total <= a.usable;
    MulMonotone(0, i, d);
    MulMonotone(i, a.count - 1, d);
  }

  /** Consecutive items are exactly one margin apart, and the trailing edge
      of the last item is the end of the block. */
  lemma Spacing(page: int, item: int, margin: int, outer: int, i: int)
    requires item + margin != 0
    ensures var a := PackAxis(page, item, margin, outer).value;
      a.Pos(i + 1) - (a.Pos(i) + item) == margin &&
      a.Pos(a.count - 1) + item == a.start + a.total &&
      a.Pos(0) == a.start
  {
  }

  /** With a non-negative margin the half-open extents `[Pos(i), Pos(i) + item)`
      of two different items are disjoint. */
  lemma {:induction false} ExtentsDisjoint(page: int, item: int, margin: int, outer: int, i: int, j: int)
    requires item + margin > 0 && margin >= 0
    requires i < j
    ensures var a := PackAxis(page, item, margin, outer).value;
      a.Pos(i) + item <= a.Pos(j)
  {
    MulStrict(i, j, item + margin);
  }

  /** The interface defaults: labels of 5 x 3 cm with 0.2 cm between them and
      a 1 cm border, that is 590 x 354 px, 23 px and 118 px. */
  lemma DefaultLabelLayout()
    ensures ComputeLayout(590, 354, 23, 118) ==
      Ok(Layout(Axis(590, 23, 2244, 3, 1816, 332), Axis(354, 23, 3271, 8, 2993, 257)))
  {
  }
}

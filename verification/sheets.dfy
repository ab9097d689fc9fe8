/** The two places that lay out a sheet: the label sheet and the shape
    sheet. Both run the same layout arithmetic and the same placement
    loops; the shape sheet also draws reference grid lines first. What is
    drawn inside each box (text, rectangle, ellipse, triangle) is not part
    of this model, only the boxes, the grid lines and the printed count. */
module Sheets {
  import opened Grid
  import opened Placement

  datatype Option<+T> = None | Some(value: T)

  /** What a label sheet holds: the layout, one box per label in drawing
      order, and the number printed in the corner (`rows * cols`). */
  datatype LabelSheet = LabelSheet(layout: Layout, labels: seq<Rect>, count: int)

  /** What a shape sheet holds: as a label sheet, plus the x positions of
      the vertical grid lines and the y positions of the horizontal ones. */
  datatype ShapeSheet = ShapeSheet(layout: Layout, columnLines: seq<int>, rowLines: seq<int>,
                                   shapes: seq<Rect>, count: int)

  /** Why the shape sheet is not produced: no shape has been drawn yet, or
      the layout arithmetic raised (the exception is caught and reported). */
  datatype ExportError = NoShape | Failed(error: LayoutError)

  /** The label sheet for labels of `width` x `height` pixels. A zero
      divisor raises out of the layout arithmetic and no sheet is made. */
  method GenerateLabelSheet(width: int, height: int, margin: int, outer: int)
    returns (r: Result<LabelSheet, LayoutError>)
    ensures r.Err? <==> width + margin == 0 || height + margin == 0
    ensures r.Ok? ==> r.value.layout == ComputeLayout(width, height, margin, outer).value
    ensures r.Ok? ==> r.value.labels == Placements(r.value.layout)
    ensures r.Ok? ==> r.value.count == ReportedCount(r.value.layout)
    ensures r.Ok? && width + margin > 0 && height + margin > 0 && A4Width - 2 * outer + margin >= 0 ==>
      r.value.count == |r.value.labels|
  {
    var layout := ComputeLayout(width, height, margin, outer);
    if layout.Err? {
      return Err(layout.error);
    }
    var l := layout.value;
    var labels := PlaceItems(l);
    var count := ReportedCount(l);
    if width + margin > 0 && height + margin > 0 && A4Width - 2 * outer + margin >= 0 {
      ReportedCountMatchesWhenNonNegative(width, height, margin, outer);
      assert count == |labels|;
    }
    r := Ok(LabelSheet(l, labels, count));
  }

  /** The shape sheet for the drawn shape, whose size in pixels is
      `shape` (None when nothing has been drawn yet). */
  method ExportShape(shape: Option<(int, int)>, margin: int, outer: int)
    returns (r: Result<ShapeSheet, ExportError>)
    ensures shape.None? ==> r == Err(NoShape)
    ensures shape.Some? ==>
      (r.Err? <==> shape.value.0 + margin == 0 || shape.value.1 + margin == 0)
    ensures r.Err? && shape.Some? ==> r.error == Failed(DivisionByZero)
    ensures r.Ok? ==> shape.Some?
    ensures r.Ok? && shape.Some? ==>
      r.value.layout == ComputeLayout(shape.value.0, shape.value.1, margin, outer).value
    ensures r.Ok? ==> r.value.shapes == Placements(r.value.layout)
    ensures r.Ok? ==> r.value.count == ReportedCount(r.value.layout)
    ensures r.Ok? && shape.Some? && shape.value.0 + margin > 0 && shape.value.1 + margin > 0
            && A4Width - 2 * outer + margin >= 0
            ==> r.value.count == |r.value.shapes|
    ensures r.Ok? ==> var h := r.value.layout.horizontal; var v := r.value.layout.vertical;
      IsRange(r.value.columnLines, h.start, h.start + h.total + 1, h.Step()) &&
      IsRange(r.value.rowLines, v.start, v.start + v.total + 1, v.Step())
  {
    if shape.None? {
      return Err(NoShape);
    }
    var (width, height) := shape.value;
    var layout := ComputeLayout(width, height, margin, outer);
    if layout.Err? {
      return Err(Failed(layout.error));
    }
    var l := layout.value;
    var h, v := l.horizontal, l.vertical;
    var columnLines := SteppedRange(h.start, h.start + h.total + 1, h.Step());
    var rowLines := SteppedRange(v.start, v.start + v.total + 1, v.Step());
    var shapes := PlaceItems(l);
    var count := ReportedCount(l);
    if width + margin > 0 && height + margin > 0 && A4Width - 2 * outer + margin >= 0 {
      ReportedCountMatchesWhenNonNegative(width, height, margin, outer);
      assert count == |shapes|;
    }
    r := Ok(ShapeSheet(l, columnLines, rowLines, shapes, count));
  }
}

# Label sheet grid packing

This project models the layout computation of a desktop tool that prints
sheets of repeated labels or shapes on A4 paper. The label sheet
(`LabelDesigner.generate_label_sheet`) and the shape sheet
(`LabelDesigner.export_shape`) share the same integer arithmetic. Once the
sizes are in whole pixels, both do the following:

- subtract the outer margin on both sides to get the usable width and height;
- compute `cols = (usable + MARGIN) // (W + MARGIN)` and the same for `rows` with floor division;
- compute the length of the block, `cols * W + (cols - 1) * MARGIN`;
- centre the block with `h_start = (A4_WIDTH - total) // 2`, and the same for `v_start`;
- draw one box per `(row, col)` with nested `range` loops;
- print `rows * cols` on the sheet.

The shape sheet first draws reference grid lines with
`range(h_start, h_start + total + 1, W + MARGIN)` and the vertical equivalent.

The model has three modules:

- `Grid` (`grid.dfy`) holds the arithmetic as pure functions. `FloorDiv` is Python's `//` for either sign of the divisor. `PackAxis` handles one axis and `ComputeLayout` the page. The page is 2480 x 3507 px, which is `int(21 * 300 / 2.54)` by `int(29.7 * 300 / 2.54)`.
- `Placement` (`placement.dfy`) holds the loops as methods. `PlaceItems` runs the nested row/column loop. `SteppedRange` is the `range` loop behind the grid lines. Each is proved against a specification function or predicate (`Placements`, `IsRange`).
- `Sheets` (`sheets.dfy`) composes the two call sites.

A division by zero (`W + MARGIN == 0` or `H + MARGIN == 0`) returns `Err(DivisionByZero)` instead of being excluded by a precondition. In the label sheet the exception escapes. In the shape sheet it is caught and printed. Either way, no sheet is produced.

The code does not clamp the count to at least one. When `W + MARGIN > 0`, an item wider than the usable area gives `cols <= 0` (exactly 0 when `usable + MARGIN >= 0`), and nothing is drawn.

The program does not check that `W + MARGIN` is positive: a negative margin can make it negative. Python's `//` still rounds down, but the count is then no longer the largest number of items that fit. `FloorDiv`, `PackAxis`, `ComputeLayout`, the placement loops and the sheets cover every sign. The lemmas about how many items fit, where they sit and whether they overlap assume a positive divisor, `W + MARGIN > 0` (and `H + MARGIN > 0` for rows), as their preconditions state.

## Model

| member | source | states |
|---|---|---|
| `Grid.FloorDiv` | tool.py:523-524 | the result is the floor of `a / b` for either sign of `b`, as Python's `//` |
| `Grid.PackAxis` | tool.py:520-531 | fails exactly on a zero divisor; when `item + margin > 0`, `count` items fit in the usable length and `count + 1` do not; `total` runs from `start` to the trailing edge of the last item; the block is centred: the leftover `page - total` splits into `start` on the near side and `start` or `start + 1` on the far side |
| `Grid.ComputeLayout` | tool.py:632-642 | fails exactly when either divisor is zero; columns come from the A4 width and rows from the A4 height, with the same per-axis computation at both call sites |
| `Grid.CountIsLargestFit` | tool.py:523-524 | when `W + MARGIN > 0`, for every integer `n`, `n` items with margins fit into the usable length if and only if `n <= count`, so the count is the largest that fits |
| `Grid.CountNonNegativeIff` | tool.py:635-636 | when `W + MARGIN > 0`, the count is non-negative if and only if `usable + MARGIN >= 0` |
| `Grid.CountPositiveIff` | tool.py:523 | when `W + MARGIN > 0`, at least one item is placed if and only if one item fits (`W <= usable`); there is no clamp to one |
| `Grid.TooWideGivesZero` | tool.py:520-523 | an item wider than the usable length gives a count of exactly 0 when `usable + MARGIN >= 0` |
| `Grid.MoreMarginNeverMoreItems` | tool.py:635 | widening the inter-item margin never increases the count, while the narrower margin leaves a non-negative count |
| `Grid.InsideOuterMargin` | tool.py:520-531 | every item `0 <= i < count` starts at or after the outer margin and ends at or before the page length minus the outer margin |
| `Grid.Spacing` | tool.py:555-558 | consecutive items are exactly `MARGIN` apart, the first starts at the centring offset, and the last ends at `start + total` |
| `Grid.ExtentsDisjoint` | tool.py:658-659 | with `MARGIN >= 0`, the half-open extents of two different items along one axis do not overlap |
| `Grid.DefaultLabelLayout` | tool.py:278-281 | the interface defaults (590 x 354 px labels, 23 px margin, 118 px border) give usable 2244 x 3271, 3 columns, 8 rows, block 1816 x 2993, offsets 332 and 257 |
| `Placement.ItemAt` | tool.py:555-558 | the box `[x0, y0, x0 + W, y0 + H]` of item `(row, col)` is `W` wide and `H` high; its position is stated by `PlacementAt` and `PlacementSpacing`, and its disjointness from other cells by `CellsDisjoint` |
| `Placement.ReportedCount` | tool.py:574 | the printed `rows * cols` equals the number of boxes drawn when both counts are non-negative or either count is zero, is positive while nothing is drawn when both are negative, and is negative when one count is negative and the other positive; see also `ReportedCountMismatch` and `ReportedCountMatchesWhenNonNegative` |
| `Placement.ItemCount` | tool.py:553-554 | the number of boxes the nested loops emit; positive if and only if both counts are positive |
| `Placement.PlaceItems` | tool.py:553-559 | the nested `range(rows)` / `range(cols)` loops emit exactly `Placements`, one box per item in row-major order, `ItemCount` of them |
| `Placement.PlacementAt` | tool.py:555-558 | the box at position `row * cols + col` of the emitted sequence is the box of item `(row, col)`, with top-left `(h_start + col*(W+M), v_start + row*(H+M))` |
| `Placement.PlacementsInsideOuterMargin` | tool.py:553-558 | every emitted box is `W` wide and `H` high and lies inside the outer margin on all four sides |
| `Placement.PlacementSpacing` | tool.py:656-659 | horizontally and vertically adjacent boxes are exactly `MARGIN` apart; the first box starts at `(h_start, v_start)`; the last column and row end at the block's far edges |
| `Placement.CellsDisjoint` | tool.py:555-558 | with `MARGIN >= 0`, the boxes of two different `(row, col)` cells do not overlap (half-open rectangles) |
| `Placement.PlacementsDisjoint` | tool.py:656-659 | with `MARGIN >= 0`, no two emitted boxes overlap (half-open rectangles) |
| `Placement.NothingDrawnWhenTooWide` | tool.py:553-554 | when both divisors are positive, an item wider than the usable width gives no boxes at all; when `usable + MARGIN >= 0` it also gives `cols == 0` and a printed count of 0 |
| `Placement.ReportedCountMatchesWhenNonNegative` | tool.py:574 | when both counts are non-negative, the printed `rows * cols` equals the number of boxes drawn |
| `Placement.ReportedCountMismatch` | tool.py:705 | as written, a 1889 px (16 cm) outer margin on 590 x 354 px labels gives `cols == -3` and `rows == -1`, so the sheet prints 3 and draws no boxes |
| `Placement.SteppedRange` | tool.py:650-653 | the loop yields what Python's `range(start, stop, step)` yields: `start + k*step` while before `stop`, and the next value would not be |
| `Placement.GridLineCount` | tool.py:650-653 | the grid lines sit at the items' leading edges; there are `max(cols, 0)` of them when `MARGIN > 0` and `W >= 0`, and `cols + 1` when `MARGIN == 0` (the extra one at the block's far edge), and none when the count is negative, in both of those cases |
| `Sheets.GenerateLabelSheet` | tool.py:488-574 | fails exactly on a zero divisor; otherwise the sheet has the computed layout, the boxes of the placement loops, and the printed count `rows * cols`, which equals the number of boxes drawn when both divisors are positive and `usable_width + MARGIN >= 0` |
| `Sheets.ExportShape` | tool.py:590-705 | no drawn shape gives no sheet; a zero divisor gives a caught failure; otherwise the sheet has the layout, grid lines following `range`, the boxes of the placement loops, and the printed count `rows * cols`, which equals the number of boxes drawn when both divisors are positive and `usable_width + MARGIN >= 0` |

## Findings

| source | as written | input that shows it | evidently intended | confidence | as-written member | corrected member |
|---|---|---|---|---|---|---|
| tool.py:574 and tool.py:705 | the printed count is `rows * cols`, but `range` of a negative count is empty | an outer margin of 16 cm (1889 px) with 5 x 3 cm labels: `cols == -3`, `rows == -1`, prints 3 and draws none; with one count negative and the other positive it prints a negative number | the printed number is the number of items drawn | medium, not executed | `Placement.ReportedCountMismatch` | `Placement.ItemCount` |

The sheets in `Sheets` record the count as the program prints it. `Placement.ItemCount` is the corrected count: it equals the number of boxes `Placement.PlaceItems` emits. `Placement.ReportedCountMatchesWhenNonNegative` shows that the two agree whenever the outer margins leave room for a non-negative count on both axes.

## Left out

- Conversion from centimetres to pixels (`int(float(text) * 300 / 2.54)`) and the editor's 37.8 px/cm scale. This is floating-point arithmetic. The model takes whole-pixel sizes as inputs and fixes A4 at 2480 x 3507 px.
- The shape sheet's fallbacks to 0.2 cm and 1.0 cm for an empty margin field. They act on text before conversion.
- Everything drawn inside or around the boxes: label text centring, which depends on font metrics; the rectangle, ellipse and triangle outlines, which all use the same box; the rotated title; shadows; the gradient behind the count; the watermark; and saving the image. These are rasteriser calls and file I/O.
- The interactive shape editor, the window, the signals, the stylesheets and the status bar. These are UI event handling.
- Diagnostics printed to the console. This includes the message printed when the shape sheet catches an exception, which the model returns as an error value instead.
- Python `range` with a step of zero (a `ValueError`). `SteppedRange` requires a non-zero step. In the program the step is a divisor that has already been used, so it is never zero.
- Sheets.GenerateLabelSheet: does not model the uncaught exception raised before any layout when the watermark font (`arial.ttf`, tool.py:503) cannot be loaded, since that call sits outside the font fallback; font loading is a library call, so the model's only failure is the zero divisor.
- Sheets.GenerateLabelSheet: does not state in its ensures that the boxes are disjoint and inside the outer margin. Those properties are proved about `Placements` by `Placement.PlacementsDisjoint` and `Placement.PlacementsInsideOuterMargin`.

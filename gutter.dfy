/**
 * The line-number gutter (`gutter.rs`): its width, the split of a pane's
 * area into gutter and document, the scroll margins, and which label each
 * gutter row shows.
 */
module Gutters {
  import opened Base
  import opened Text
  import opened Rects
  import Scrolls

  const PAD_LEFT: nat := 2
  const PAD_RIGHT: nat := 1
  const MIN_GUTTER_WIDTH: nat := 6

  function Pow10(k: nat): nat
  {
    if k == 0 then 1 else 10 * Pow10(k - 1)
  }

  /** `ilog10`: the number of decimal digits of `n`, less one. */
  function ILog10(n: nat): (k: nat)
    requires n >= 1
    ensures Pow10(k) <= n < Pow10(k + 1)
  {
    if n < 10 then 0 else 1 + ILog10(n / 10)
  }

  /**
   * The gutter width for a document of `lines` lines: room for the digits of
   * the line count plus the padding, at least six columns; `ilog10` of zero is
   * undefined and taken as one.
   */
  function GutterWidth(lines: nat): (w: nat)
    ensures w >= MIN_GUTTER_WIDTH
    ensures lines >= 1 ==> Pow10(w - PAD_LEFT - PAD_RIGHT - 1) <= lines || w == MIN_GUTTER_WIDTH
    ensures lines >= 1 ==> lines < Pow10(w - PAD_LEFT - PAD_RIGHT)
  {
    var digits := if lines == 0 then 1 else ILog10(lines);
    Max(digits + 1 + PAD_LEFT + PAD_RIGHT, MIN_GUTTER_WIDTH)
  }

  /** More digits never need less room than fewer. */
  lemma {:induction false} Pow10Mono(i: nat, j: nat)
    requires i <= j
    ensures Pow10(i) <= Pow10(j)
    decreases j
  {
    if i < j {
      Pow10Mono(i, j - 1);
    }
  }

  /**
   * `gutter_and_document_areas`: the gutter takes the left columns (at most the
   * gutter width) less the bottom row; the document takes the remaining columns.
   */
  function GutterAndDocumentAreas(size: Rect, lines: nat): (r: (Rect, Rect))
    requires GutterWidth(lines) <= U16_MAX
    ensures r.0.position == size.position && r.0.height == SatSub(size.height, 1)
    ensures r.0.width == Min(GutterWidth(lines), size.width)
    ensures r.1.width + r.0.width == size.width && r.1.height == size.height && Top(r.1) == Top(size)
    ensures Fits(size) ==> Left(r.1) == Left(size) + r.0.width && Right(r.1) == Right(size)
  {
    var gutter := ClipRight(ClipBottom(size, 1), SatSub(size.width, GutterWidth(lines)));
    (gutter, ClipLeft(size, gutter.width))
  }

  /** `compute_offset`: scroll margins of about half the area, at most six columns and four rows. */
  function ComputeOffset(size: Rect): (r: (nat, nat))
    ensures r == (Scrolls.OffsetFor(size.width, 6), Scrolls.OffsetFor(size.height, 4))
    ensures r.0 <= 6 && r.1 <= 4
  {
    (Min(Max(SatSub(size.width, 1), 1) / 2, 6), Min(Max(SatSub(size.height, 1), 1) / 2, 4))
  }

  /** What a gutter row shows. */
  datatype Label =
    | Absolute(lineNo: nat, selected: bool)  // the line number, highlighted on the cursor line
    | Relative(distance: nat)                // the distance to the cursor row
    | CurrentLine(lineNo: nat)               // the cursor row in relative mode: its line number

  /**
   * The label of screen row `row` for line `lineNo`: absolute numbers when the
   * pane is inactive or in Insert or Replace mode, relative ones in Normal mode.
   */
  function LabelFor(lineNo: nat, row: nat, cursorRow: nat, textCursorY: nat, active: bool, mode: Mode): (l: Label)
    requires active ==> !mode.Select?
    ensures l.Absolute? <==> !active || mode.Insert? || mode.Replace?
    ensures l.Absolute? ==> l.lineNo == lineNo && (l.selected <==> lineNo == textCursorY + 1)
    ensures l.CurrentLine? <==> active && mode.Normal? && row == cursorRow
    ensures l.CurrentLine? ==> l.lineNo == textCursorY + 1
    ensures l.Relative? ==> l.distance > 0 && (l.distance == cursorRow - row || l.distance == row - cursorRow)
  {
    if !active || mode.Insert? || mode.Replace? then Absolute(lineNo, lineNo == textCursorY + 1)
    else if cursorRow == row then CurrentLine(textCursorY + 1)
    else if cursorRow > row then Relative(cursorRow - row)
    else Relative(row - cursorRow)
  }

  /** The rows the gutter fills: one per row of the area and one more, stopping after the last line. */
  function RowsShown(height: nat, scrollY: nat, lines: nat): nat
  {
    Min(height + 1, SatSub(lines, scrollY))
  }

  /**
   * `render`: the labels of the gutter rows from the top, the row `y` showing
   * line `y + scrollY + 1`.
   */
  method Render(area: Rect, scrollY: nat, lines: nat, cursorRow: nat, textCursorY: nat, active: bool, mode: Mode)
    returns (labels: seq<Label>)
    requires active ==> !mode.Select?
    ensures |labels| == RowsShown(area.height, scrollY, lines)
    ensures forall y :: 0 <= y < |labels| ==>
      labels[y] == LabelFor(y + scrollY + 1, y + Top(area), cursorRow, textCursorY, active, mode)
  {
    labels := [];
    var y := 0;
    while y <= area.height
      invariant y <= area.height + 1 && y <= RowsShown(area.height, scrollY, lines)
      invariant |labels| == y
      invariant forall k :: 0 <= k < y ==> labels[k] == LabelFor(k + scrollY + 1, k + Top(area), cursorRow, textCursorY, active, mode)
    {
      var lineNo := y + scrollY + 1;
      if lineNo > lines {
        break;
      }
      labels := labels + [LabelFor(lineNo, y + Top(area), cursorRow, textCursorY, active, mode)];
      y := y + 1;
    }
  }
}

/**
 * A box with optional borders and title (`ui/border_box.rs`): the area left
 * inside it, and where its corners and title go.
 */
module BorderBoxes {
  import opened Base
  import opened Rects

  datatype Side = LeftSide | TopSide | RightSide | BottomSide

  datatype Corner = TopLeft | TopRight | BottomLeft | BottomRight

  datatype BorderBox = BorderBox(area: Rect, hasTitle: bool, borders: set<Side>)

  function Count(b: bool): nat { if b then 1 else 0 }

  /** Whether the box gives up its top row: a top border or a title. */
  predicate TopTaken(b: BorderBox)
  {
    TopSide in b.borders || b.hasTitle
  }

  /**
   * `inner`: the area less one column per side border and one row for the top
   * (border or title) and the bottom border, all saturating, inside the area.
   */
  function Inner(b: BorderBox): (r: Rect)
    requires Fits(b.area)
    ensures Fits(r)
    ensures r.width == SatSub(b.area.width, Count(LeftSide in b.borders) + Count(RightSide in b.borders))
    ensures r.height == SatSub(b.area.height, Count(TopTaken(b)) + Count(BottomSide in b.borders))
    ensures Left(b.area) <= Left(r) <= Right(r) <= Right(b.area)
    ensures Top(b.area) <= Top(r) <= Bottom(r) <= Bottom(b.area)
  {
    var afterLeft := ShrinkLeft(b.area, LeftSide in b.borders);
    var afterTop := ShrinkTop(afterLeft, TopTaken(b));
    var afterRight := ShrinkRight(afterTop, RightSide in b.borders);
    ShrinkBottom(afterRight, BottomSide in b.borders)
  }

  /** One column off the left when `on`: the left edge moves right, saturating, never past the right edge. */
  function ShrinkLeft(a: Rect, on: bool): (r: Rect)
    requires Fits(a)
    ensures Fits(r) && r.width == SatSub(a.width, Count(on)) && r.height == a.height
    ensures Top(r) == Top(a) && Left(a) <= Left(r) && Right(r) == Right(a)
  {
    if on then Rect(Position(Min(SatAddU16(a.position.x, 1), Right(a)), a.position.y), SatSub(a.width, 1), a.height)
    else a
  }

  /** One row off the top when `on`: the top edge moves down, saturating, never past the bottom edge. */
  function ShrinkTop(a: Rect, on: bool): (r: Rect)
    requires Fits(a)
    ensures Fits(r) && r.height == SatSub(a.height, Count(on)) && r.width == a.width
    ensures Left(r) == Left(a) && Top(a) <= Top(r) && Bottom(r) == Bottom(a)
  {
    if on then Rect(Position(a.position.x, Min(SatAddU16(a.position.y, 1), Bottom(a))), a.width, SatSub(a.height, 1))
    else a
  }

  /** One column off the right when `on`. */
  function ShrinkRight(a: Rect, on: bool): (r: Rect)
    requires Fits(a)
    ensures Fits(r) && r.width == SatSub(a.width, Count(on)) && r.height == a.height
    ensures r.position == a.position && Right(r) <= Right(a)
  {
    if on then a.(width := SatSub(a.width, 1)) else a
  }

  /** One row off the bottom when `on`. */
  function ShrinkBottom(a: Rect, on: bool): (r: Rect)
    requires Fits(a)
    ensures Fits(r) && r.height == SatSub(a.height, Count(on)) && r.width == a.width
    ensures r.position == a.position && Bottom(r) <= Bottom(a)
  {
    if on then a.(height := SatSub(a.height, 1)) else a
  }

  /** The corners `render` draws: each where both of its sides have a border. */
  function Corners(borders: set<Side>): (r: set<Corner>)
    ensures BottomRight in r <==> RightSide in borders && BottomSide in borders
    ensures TopRight in r <==> RightSide in borders && TopSide in borders
    ensures BottomLeft in r <==> LeftSide in borders && BottomSide in borders
    ensures TopLeft in r <==> LeftSide in borders && TopSide in borders
  {
    (if {RightSide, BottomSide} <= borders then {BottomRight} else {})
    + (if {RightSide, TopSide} <= borders then {TopRight} else {})
    + (if {LeftSide, BottomSide} <= borders then {BottomLeft} else {})
    + (if {LeftSide, TopSide} <= borders then {TopLeft} else {})
  }

  /** The column `render` writes the title from: just past a left border, on the top row. */
  function TitleColumn(b: BorderBox): (x: nat)
    ensures x == Left(b.area) || (LeftSide in b.borders && x == Left(b.area) + 1)
    ensures LeftSide in b.borders <==> x > Left(b.area)
  {
    Left(b.area) + Count(LeftSide in b.borders)
  }
}

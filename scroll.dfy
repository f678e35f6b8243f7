/**
 * Keeping a point visible inside a view (`ui/scroll.rs`): the scroll moves
 * only when the point leaves the band between the margins.
 */
module Scrolls {
  import opened Base
  import opened Rects

  /** The last position, relative to the scroll, at which the point may sit before the scroll moves. */
  function BottomMargin(dimension: nat, offset: nat): nat
  {
    SatSub(dimension, offset + 1)
  }

  /**
   * `adjust_scroll`: `None` when the point already lies between the margins;
   * past the bottom margin the point ends at the bottom margin, before the top
   * margin the scroll starts `offset` before the point (or at zero).
   */
  function AdjustScroll(dimension: nat, cursor: nat, offset: nat, scroll: nat): (r: Option<nat>)
    ensures r.None? <==> scroll + offset <= cursor <= BottomMargin(dimension, offset) + scroll
    ensures cursor > BottomMargin(dimension, offset) + scroll ==>
      r.Some? && r.value + BottomMargin(dimension, offset) == cursor
    ensures cursor <= BottomMargin(dimension, offset) + scroll && cursor < scroll + offset ==>
      r.Some? && r.value == SatSub(cursor, offset) && r.value <= scroll
  {
    if cursor > SatSub(dimension, offset + 1) + scroll then Some(SatSub(cursor, SatSub(dimension, offset + 1)))
    else if cursor < scroll + offset then Some(SatSub(cursor, offset))
    else None
  }

  /**
   * When the view holds both margins and a row between them, adjusting is
   * stable: adjusting again from the new scroll leaves it where it is.
   */
  lemma {:induction false} AdjustSettles(dimension: nat, cursor: nat, offset: nat, scroll: nat)
    requires 2 * offset + 1 <= dimension
    requires AdjustScroll(dimension, cursor, offset, scroll).Some?
    ensures var s := AdjustScroll(dimension, cursor, offset, scroll).value;
      var again := AdjustScroll(dimension, cursor, offset, s);
      again.None? || again == Some(s)
  {
  }

  /** The offset `adjust_offset` picks: half the dimension less one (at least one), capped by `limit`. */
  function OffsetFor(dimension: nat, limit: nat): (o: nat)
    ensures o <= limit
    ensures dimension >= 1 ==> 2 * o + 1 <= dimension
  {
    Min(Max(SatSub(dimension, 1), 1) / 2, limit)
  }

  /** `as u16`: keeps the low sixteen bits. */
  function TruncU16(n: nat): U16
  {
    n % 0x1_0000
  }

  /** `u16` addition as a release build performs it, wrapping around. */
  function WrapAddU16(a: U16, b: U16): U16
  {
    (a + b) % 0x1_0000
  }

  class Scroll {
    /** Where the point appears on the screen. */
    var cursor: Position
    var offsetX: nat
    var offsetY: nat
    /** The first visible column and row. */
    var x: nat
    var y: nat

    /** `Scroll::default`. */
    constructor ()
      ensures cursor == Position(0, 0) && offsetX == 0 && offsetY == 0 && x == 0 && y == 0
    {
      cursor := Position(0, 0);
      offsetX, offsetY, x, y := 0, 0, 0, 0;
    }

    /**
     * `ensure_point_is_visible`: scrolls each axis with `adjust_scroll`, the
     * vertical margin shrunk to the lines below the point when `maxY` is given,
     * then places the screen cursor at the area's corner plus the point's
     * distance from the scroll.
     */
    method EnsurePointIsVisible(px: nat, py: nat, area: Rect, maxY: Option<nat>)
      modifies this
      ensures offsetX == old(offsetX) && offsetY == old(offsetY)
      ensures var marginY := if maxY.Some? then Min(SatSub(maxY.value, py + 1), old(offsetY)) else old(offsetY);
        var sy := AdjustScroll(area.height, py, marginY, old(y));
        y == (if sy.Some? then sy.value else old(y))
      ensures var sx := AdjustScroll(area.width, px, old(offsetX), old(x));
        x == (if sx.Some? then sx.value else old(x))
      ensures cursor == Position(WrapAddU16(Left(area), TruncU16(SatSub(px, x))), WrapAddU16(Top(area), TruncU16(SatSub(py, y))))
    {
      var marginY := offsetY;
      if maxY.Some? {
        marginY := Min(SatSub(maxY.value, py + 1), offsetY);
      }
      var s := AdjustScroll(area.height, py, marginY, y);
      if s.Some? {
        y := s.value;
      }
      s := AdjustScroll(area.width, px, offsetX, x);
      if s.Some? {
        x := s.value;
      }
      cursor := Position(WrapAddU16(Left(area), TruncU16(SatSub(px, x))), WrapAddU16(Top(area), TruncU16(SatSub(py, y))));
    }

    /** `adjust_offset`: margins of about half the area, capped by the limits. */
    method AdjustOffset(area: Rect, maxX: nat, maxY: nat)
      modifies this
      ensures offsetX == OffsetFor(area.width, maxX) && offsetY == OffsetFor(area.height, maxY)
      ensures cursor == old(cursor) && x == old(x) && y == old(y)
    {
      offsetX := OffsetFor(area.width, maxX);
      offsetY := OffsetFor(area.height, maxY);
    }
  }

  /**
   * After `adjust_offset` on an area with at least one column, the horizontal
   * scroll keeps the point visible: the point lies within the view afterwards.
   */
  lemma {:induction false} AdjustedPointVisible(dimension: nat, cursor: nat, limit: nat, scroll: nat)
    requires dimension >= 1
    ensures var offset := OffsetFor(dimension, limit);
      var r := AdjustScroll(dimension, cursor, offset, scroll);
      var s := if r.Some? then r.value else scroll;
      s <= cursor < s + dimension
  {
  }
}

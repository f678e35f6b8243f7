/**
 * Screen rectangles (`Rect` in `ui.rs`): a `u16` position, width and height,
 * clipped with saturating arithmetic.
 */
module Rects {
  import opened Base

  datatype Position = Position(x: U16, y: U16)

  datatype Rect = Rect(position: Position, width: U16, height: U16)

  /** A rectangle whose right and bottom edges are representable as `u16`. */
  predicate Fits(r: Rect)
  {
    r.position.x + r.width <= U16_MAX && r.position.y + r.height <= U16_MAX
  }

  /** `area`: the number of cells, zero exactly when a side is zero. */
  function Area(r: Rect): (a: nat)
    ensures a == 0 <==> r.width == 0 || r.height == 0
    ensures a == 0 || (a >= r.width && a >= r.height)
  {
    if r.width == 0 || r.height == 0 then 0
    else
      MulMono(r.width, 1, r.height);
      MulMono(r.height, 1, r.width);
      r.width * r.height
  }

  function Left(r: Rect): U16 { r.position.x }

  function Top(r: Rect): U16 { r.position.y }

  /** `right`: one past the last column; a `u16` sum, so the rectangle must fit. */
  function Right(r: Rect): (e: U16)
    requires Fits(r)
    ensures e >= Left(r) && e - Left(r) == r.width
  {
    r.position.x + r.width
  }

  /** `bottom`: one past the last row. */
  function Bottom(r: Rect): (e: U16)
    requires Fits(r)
    ensures e >= Top(r) && e - Top(r) == r.height
  {
    r.position.y + r.height
  }

  /** `clip_bottom`: the bottom `h` rows cut off, saturating; the top left corner stays. */
  function ClipBottom(r: Rect, h: U16): (c: Rect)
    ensures c.position == r.position && c.width == r.width
    ensures if h <= r.height then c.height + h == r.height else c.height == 0
  {
    r.(height := SatSub(r.height, h))
  }

  /** `clip_right`: the right `w` columns cut off, saturating; the top left corner stays. */
  function ClipRight(r: Rect, w: U16): (c: Rect)
    ensures c.position == r.position && c.height == r.height
    ensures if w <= r.width then c.width + w == r.width else c.width == 0
  {
    r.(width := SatSub(r.width, w))
  }

  /** `clip_top`: the top moves down by at most the height, and the bottom edge stays. */
  function ClipTop(r: Rect, h: U16): (c: Rect)
    ensures c.position.x == r.position.x && c.width == r.width
    ensures c.height == r.height - Min(h, r.height)
    ensures Fits(r) ==> Fits(c) && Top(c) == Top(r) + Min(h, r.height) && Bottom(c) == Bottom(r)
  {
    var d := Min(h, r.height);
    Rect(Position(r.position.x, SatAddU16(r.position.y, d)), r.width, SatSub(r.height, d))
  }

  /** `clip_left`: the left edge moves right by at most the width, and the right edge stays. */
  function ClipLeft(r: Rect, w: U16): (c: Rect)
    ensures c.position.y == r.position.y && c.height == r.height
    ensures c.width == r.width - Min(w, r.width)
    ensures Fits(r) ==> Fits(c) && Left(c) == Left(r) + Min(w, r.width) && Right(c) == Right(r)
  {
    var d := Min(w, r.width);
    Rect(Position(SatAddU16(r.position.x, d), r.position.y), SatSub(r.width, d), r.height)
  }

  /** `From<(u16, u16)>`: a rectangle of that size at the origin. */
  function FromSize(width: U16, height: U16): (r: Rect)
    ensures Left(r) == 0 && Top(r) == 0 && Fits(r) && Right(r) == width && Bottom(r) == height
  {
    Rect(Position(0, 0), width, height)
  }

  /** Clipping never grows the area. */
  lemma {:induction false} ClipShrinksArea(r: Rect, n: U16)
    ensures Area(ClipBottom(r, n)) <= Area(r) && Area(ClipTop(r, n)) <= Area(r)
    ensures Area(ClipRight(r, n)) <= Area(r) && Area(ClipLeft(r, n)) <= Area(r)
  {
    var b, t := ClipBottom(r, n), ClipTop(r, n);
    var rr, l := ClipRight(r, n), ClipLeft(r, n);
    assert Area(b) == r.width * b.height <= r.width * r.height by {
      MulMono(r.width, b.height, r.height);
    }
    assert Area(t) == r.width * t.height <= r.width * r.height by {
      MulMono(r.width, t.height, r.height);
    }
    assert Area(rr) == rr.width * r.height <= r.width * r.height by {
      MulMono(r.height, rr.width, r.width);
    }
    assert Area(l) == l.width * r.height <= r.width * r.height by {
      MulMono(r.height, l.width, r.width);
    }
  }

  lemma {:induction false} MulMono(a: nat, b: nat, c: nat)
    requires b <= c
    ensures a * b <= a * c && b * a <= c * a
  {
  }
}

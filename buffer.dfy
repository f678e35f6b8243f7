/**
 * The cell buffer (`ui/buffer.rs`): a row-major vector of styled cells the
 * size of a rectangle, written symbol by symbol and compared against the
 * previous frame to find the cells that need redrawing.
 *
 * Grapheme segmentation and display width belong to Unicode tables that
 * are not part of this model: strings arrive already split into graphemes,
 * and `width` is a parameter.
 */
module Buffers {
  import opened Base
  import opened Rects
  import opened Styles

  datatype Cell = Cell(
    symbol: string,
    fg: Color,
    bg: Color,
    underlineColor: Color,
    underlineStyle: UnderlineStyle,
    modifier: Modifier)

  /** `Cell::empty()`, which is also what `Cell::reset` leaves whatever the cell held. */
  const EMPTY: Cell := Cell(" ", Reset, Reset, Reset, UnderlineReset, {})

  /**
   * `Cell::set_style`: the colours and underline the style sets replace the
   * cell's; the style's added flags are switched on, then its removed flags
   * switched off.
   */
  function SetStyle(c: Cell, s: Style): (r: Cell)
    ensures r.symbol == c.symbol
    ensures r.fg == (if s.fg.Some? then s.fg.value else c.fg)
    ensures r.bg == (if s.bg.Some? then s.bg.value else c.bg)
    ensures r.underlineColor == (if s.underlineColor.Some? then s.underlineColor.value else c.underlineColor)
    ensures r.underlineStyle == (if s.underlineStyle.Some? then s.underlineStyle.value else c.underlineStyle)
    ensures forall f :: f in r.modifier <==> f !in s.subModifier && (f in s.addModifier || f in c.modifier)
  {
    Cell(
      c.symbol,
      if s.fg.Some? then s.fg.value else c.fg,
      if s.bg.Some? then s.bg.value else c.bg,
      if s.underlineColor.Some? then s.underlineColor.value else c.underlineColor,
      if s.underlineStyle.Some? then s.underlineStyle.value else c.underlineStyle,
      (c.modifier + s.addModifier) - s.subModifier)
  }

  /** Setting two styles one after the other is setting their patch, so a stack of styles can be flattened first. */
  lemma {:induction false} SetStylePatch(c: Cell, a: Style, b: Style)
    ensures SetStyle(SetStyle(c, a), b) == SetStyle(c, Styles.Patch(a, b))
  {
    var l, r := SetStyle(SetStyle(c, a), b), SetStyle(c, Styles.Patch(a, b));
    assert l.modifier == r.modifier;
  }

  /** Setting the default style changes nothing. */
  lemma {:induction false} SetDefaultStyle(c: Cell)
    ensures SetStyle(c, Styles.Default()) == c
  {
    assert SetStyle(c, Styles.Default()).modifier == c.modifier;
  }

  /** `index`: row-major position of `(x, y)`, with no check that `x` is within the width. */
  function IndexOf(size: Rect, x: nat, y: nat): nat
  {
    size.width * y + x
  }

  /** Index `k` is the position of some cell of `area` in a buffer of `size`. */
  ghost predicate InArea(size: Rect, area: Rect, k: nat)
    requires Fits(area)
  {
    exists x, y :: Left(area) <= x < Right(area) && Top(area) <= y < Bottom(area) && IndexOf(size, x, y) == k
  }

  /** The buffer's cells with the symbol and style written at `index`, if there is a cell there. */
  function Put(cells: seq<Cell>, index: nat, symbol: string, style: Style): (r: seq<Cell>)
    ensures |r| == |cells|
    ensures forall k :: 0 <= k < |cells| && k != index ==> r[k] == cells[k]
    ensures index < |cells| ==> r[index] == SetStyle(cells[index].(symbol := symbol), style)
  {
    if index < |cells| then cells[index := SetStyle(cells[index].(symbol := symbol), style)] else cells
  }

  /**
   * The `(column, symbol)` pairs `put_truncated_str` writes for the graphemes
   * `gs` from column `x`: it stops at the right edge, and a grapheme landing
   * in the last column while more follow is replaced by an ellipsis.
   */
  function Placements(gs: seq<string>, x: nat, rightEdge: nat, width: string -> nat): (r: seq<(nat, string)>)
    ensures |r| <= |gs|
    decreases |gs|
  {
    if gs == [] || x >= rightEdge then []
    else
      var symbol := if x + 1 < rightEdge || |gs| == 1 then gs[0] else "…";
      var rest := Placements(gs[1..], x + width(gs[0]), rightEdge, width);
      [(x, symbol)] + rest
  }

  /**
   * Every placement lies between the start column and the right edge, and
   * holds its grapheme, except that the last column gets an ellipsis when
   * more graphemes follow.
   */
  lemma {:induction false} PlacementsInside(gs: seq<string>, x: nat, rightEdge: nat, width: string -> nat)
    ensures var r := Placements(gs, x, rightEdge, width);
      forall k :: 0 <= k < |r| ==> x <= r[k].0 < rightEdge
    ensures var r := Placements(gs, x, rightEdge, width);
      forall k :: 0 <= k < |r| ==> r[k].1 == (if r[k].0 + 1 < rightEdge || k + 1 == |gs| then gs[k] else "…")
    decreases |gs|
  {
    if gs != [] && x < rightEdge {
      PlacementsInside(gs[1..], x + width(gs[0]), rightEdge, width);
      var r := Placements(gs, x, rightEdge, width);
      var rest := Placements(gs[1..], x + width(gs[0]), rightEdge, width);
      assert r[1..] == rest;
      forall k | 0 < k < |r|
        ensures x <= r[k].0 < rightEdge
        ensures r[k].1 == (if r[k].0 + 1 < rightEdge || k + 1 == |gs| then gs[k] else "…")
      {
        assert r[k] == rest[k - 1] && gs[k] == gs[1..][k - 1];
      }
    }
  }

  /** Columns never go back, and each grapheme advances the next column by its width. */
  lemma {:induction false} PlacementsAdvance(gs: seq<string>, x: nat, rightEdge: nat, width: string -> nat)
    ensures var r := Placements(gs, x, rightEdge, width);
      |r| >= 1 ==> r[0].0 == x
    ensures var r := Placements(gs, x, rightEdge, width);
      forall k :: 0 <= k < |r| - 1 ==> r[k + 1].0 == r[k].0 + width(gs[k])
    decreases |gs|
  {
    if gs != [] && x < rightEdge {
      PlacementsAdvance(gs[1..], x + width(gs[0]), rightEdge, width);
      var r := Placements(gs, x, rightEdge, width);
      var rest := Placements(gs[1..], x + width(gs[0]), rightEdge, width);
      assert r[1..] == rest;
      forall k | 0 <= k < |r| - 1
        ensures r[k + 1].0 == r[k].0 + width(gs[k])
      {
        if k > 0 {
          assert r[k + 1] == rest[k] && r[k] == rest[k - 1] && gs[k] == gs[1..][k - 1];
        }
      }
    }
  }

  /** One step of `put_truncated_str`'s loop. */
  lemma {:induction false} PlacementsStep(gs: seq<string>, i: nat, x: nat, rightEdge: nat, width: string -> nat)
    requires i < |gs| && x < rightEdge
    ensures Placements(gs[i..], x, rightEdge, width)
      == [(x, if x + 1 < rightEdge || i + 1 == |gs| then gs[i] else "…")] + Placements(gs[i + 1..], x + width(gs[i]), rightEdge, width)
  {
    assert gs[i..][1..] == gs[i + 1..];
  }

  /** The cells after writing the placements on row `y`. */
  function PutAll(cells: seq<Cell>, size: Rect, ps: seq<(nat, string)>, y: nat, style: Style): (r: seq<Cell>)
    ensures |r| == |cells|
    decreases |ps|
  {
    if ps == [] then cells
    else PutAll(Put(cells, IndexOf(size, ps[0].0, y), ps[0].1, style), size, ps[1..], y, style)
  }

  /** Writing a first placement, then the rest. */
  lemma {:induction false} PutAllStep(cells: seq<Cell>, size: Rect, p: (nat, string), rest: seq<(nat, string)>, y: nat, style: Style)
    ensures PutAll(cells, size, [p] + rest, y, style) == PutAll(Put(cells, IndexOf(size, p.0, y), p.1, style), size, rest, y, style)
  {
    assert ([p] + rest)[1..] == rest;
  }

  /** Writing placements changes only cells some placement points at. */
  lemma {:induction false} PutAllOnlyPlaced(cells: seq<Cell>, size: Rect, ps: seq<(nat, string)>, y: nat, style: Style, k: nat)
    requires k < |cells|
    requires forall j :: 0 <= j < |ps| ==> IndexOf(size, ps[j].0, y) != k
    ensures PutAll(cells, size, ps, y, style)[k] == cells[k]
    decreases |ps|
  {
    if ps != [] {
      PutAllOnlyPlaced(Put(cells, IndexOf(size, ps[0].0, y), ps[0].1, style), size, ps[1..], y, style, k);
    }
  }

  /**
   * What `diff` finds for the cells from `i` on, given the running counts:
   * the indices whose cell is patched. A cell is patched when it changed or
   * a wide grapheme before it was overwritten, unless it is covered by the
   * wide grapheme just before it in the new frame.
   */
  function DiffFrom(cur: seq<Cell>, prev: seq<Cell>, i: nat, invalidated: nat, toSkip: nat, width: string -> nat): (r: seq<nat>)
    requires |cur| == |prev| && i <= |cur|
    ensures forall k :: 0 <= k < |r| ==> i <= r[k] < |cur|
    decreases |cur| - i
  {
    if i == |cur| then []
    else
      var emit := (cur[i] != prev[i] || invalidated > 0) && toSkip == 0;
      var currentWidth := width(cur[i].symbol);
      var affected := Max(currentWidth, width(prev[i].symbol));
      var rest := DiffFrom(cur, prev, i + 1, SatSub(Max(affected, invalidated), 1), SatSub(currentWidth, 1), width);
      if emit then [i] + rest else rest
  }

  /** Strictly increasing indices. */
  predicate Increasing(r: seq<nat>)
  {
    forall k, l :: 0 <= k < l < |r| ==> r[k] < r[l]
  }

  /** The selected indices are strictly increasing: each cell is patched at most once, in order. */
  lemma {:induction false} DiffIncreasing(cur: seq<Cell>, prev: seq<Cell>, i: nat, invalidated: nat, toSkip: nat, width: string -> nat)
    requires |cur| == |prev| && i <= |cur|
    ensures Increasing(DiffFrom(cur, prev, i, invalidated, toSkip, width))
    decreases |cur| - i
  {
    if i < |cur| {
      var currentWidth := width(cur[i].symbol);
      var affected := Max(currentWidth, width(prev[i].symbol));
      var rest := DiffFrom(cur, prev, i + 1, SatSub(Max(affected, invalidated), 1), SatSub(currentWidth, 1), width);
      DiffIncreasing(cur, prev, i + 1, SatSub(Max(affected, invalidated), 1), SatSub(currentWidth, 1), width);
      var emit := (cur[i] != prev[i] || invalidated > 0) && toSkip == 0;
      if emit {
        var r := [i] + rest;
        assert DiffFrom(cur, prev, i, invalidated, toSkip, width) == r;
        assert Increasing(rest);
        forall k, l | 0 <= k < l < |r| ensures r[k] < r[l] {
          assert r[l] == rest[l - 1];
          if k > 0 {
            assert r[k] == rest[k - 1];
          }
        }
      } else {
        assert DiffFrom(cur, prev, i, invalidated, toSkip, width) == rest;
      }
    }
  }

  /** Identical frames of narrow symbols give no patches. */
  lemma {:induction false} DiffIdentical(cells: seq<Cell>, i: nat, width: string -> nat)
    requires i <= |cells|
    requires forall k :: 0 <= k < |cells| ==> width(cells[k].symbol) <= 1
    ensures DiffFrom(cells, cells, i, 0, 0, width) == []
    decreases |cells| - i
  {
    if i < |cells| {
      DiffIdentical(cells, i + 1, width);
    }
  }

  /**
   * Every changed cell is patched unless the cell before it holds a wide
   * grapheme in the new frame, whose second column it is.
   */
  lemma {:induction false} DiffCoversChanges(cur: seq<Cell>, prev: seq<Cell>, i: nat, invalidated: nat, toSkip: nat, width: string -> nat, j: nat)
    requires |cur| == |prev| && i <= j < |cur|
    requires cur[j] != prev[j]
    requires j == i ==> toSkip == 0
    requires j > i ==> width(cur[j - 1].symbol) <= 1
    ensures j in DiffFrom(cur, prev, i, invalidated, toSkip, width)
    decreases |cur| - i
  {
    var currentWidth := width(cur[i].symbol);
    var affected := Max(currentWidth, width(prev[i].symbol));
    if j > i {
      DiffCoversChanges(cur, prev, i + 1, SatSub(Max(affected, invalidated), 1), SatSub(currentWidth, 1), width, j);
    }
  }

  /** A cell right after a wide grapheme that the new frame replaced by a narrow one is patched, changed or not. */
  lemma {:induction false} DiffRepaintsAfterWide(cur: seq<Cell>, prev: seq<Cell>, i: nat, invalidated: nat, toSkip: nat, width: string -> nat)
    requires |cur| == |prev| && i + 1 < |cur|
    requires width(prev[i].symbol) >= 2 && width(cur[i].symbol) <= 1
    ensures i + 1 in DiffFrom(cur, prev, i, invalidated, toSkip, width)
  {
    var currentWidth := width(cur[i].symbol);
    var affected := Max(currentWidth, width(prev[i].symbol));
    var rest := DiffFrom(cur, prev, i + 1, SatSub(Max(affected, invalidated), 1), SatSub(currentWidth, 1), width);
    assert rest[0] == i + 1;
  }

  /** The cell right after a wide grapheme of the new frame is never patched: the grapheme covers it. */
  lemma {:induction false} DiffSkipsCovered(cur: seq<Cell>, prev: seq<Cell>, i: nat, invalidated: nat, toSkip: nat, width: string -> nat)
    requires |cur| == |prev| && i + 1 < |cur|
    requires width(cur[i].symbol) >= 2
    ensures i + 1 !in DiffFrom(cur, prev, i, invalidated, toSkip, width)
  {
    var currentWidth := width(cur[i].symbol);
    var affected := Max(currentWidth, width(prev[i].symbol));
    var rest := DiffFrom(cur, prev, i + 1, SatSub(Max(affected, invalidated), 1), SatSub(currentWidth, 1), width);
    var after := DiffFrom(cur, prev, i + 2, SatSub(Max(Max(width(cur[i + 1].symbol), width(prev[i + 1].symbol)), SatSub(Max(affected, invalidated), 1)), 1), SatSub(width(cur[i + 1].symbol), 1), width);
    assert rest == after;
  }

  /** One step of `diff`'s loop. */
  lemma {:induction false} DiffStep(cur: seq<Cell>, prev: seq<Cell>, i: nat, invalidated: nat, toSkip: nat, width: string -> nat)
    requires |cur| == |prev| && i < |cur|
    ensures var currentWidth := width(cur[i].symbol);
      var affected := Max(currentWidth, width(prev[i].symbol));
      var rest := DiffFrom(cur, prev, i + 1, SatSub(Max(affected, invalidated), 1), SatSub(currentWidth, 1), width);
      DiffFrom(cur, prev, i, invalidated, toSkip, width)
      == (if (cur[i] != prev[i] || invalidated > 0) && toSkip == 0 then [i] else []) + rest
  {
  }

  /** A patch: the position of a cell and the cell to draw there. */
  datatype Patch = Patch(x: nat, y: nat, cell: Cell)

  /** The patch for index `i` of a buffer `w` cells wide: its column, its row and its cell. */
  function PatchAt(i: nat, cur: seq<Cell>, w: nat): (p: Patch)
    requires w > 0 && i < |cur|
    ensures p.y * w + p.x == i && p.x < w && p.cell == cur[i]
  {
    Patch(i % w, i / w, cur[i])
  }

  /** The patches for the given indices of a buffer of the given width. */
  function PatchesAt(indices: seq<nat>, cur: seq<Cell>, w: nat): (r: seq<Patch>)
    requires w > 0 && forall k :: 0 <= k < |indices| ==> indices[k] < |cur|
    ensures |r| == |indices|
    ensures forall k :: 0 <= k < |r| ==> r[k] == PatchAt(indices[k], cur, w)
  {
    seq(|indices|, k requires 0 <= k < |indices| => PatchAt(indices[k], cur, w))
  }

  lemma {:induction false} PatchesAtAppend(indices: seq<nat>, i: nat, cur: seq<Cell>, w: nat)
    requires w > 0 && i < |cur| && forall k :: 0 <= k < |indices| ==> indices[k] < |cur|
    ensures forall k :: 0 <= k < |indices + [i]| ==> (indices + [i])[k] < |cur|
    ensures PatchesAt(indices + [i], cur, w) == PatchesAt(indices, cur, w) + [PatchAt(i, cur, w)]
  {
    var a, b := PatchesAt(indices + [i], cur, w), PatchesAt(indices, cur, w) + [PatchAt(i, cur, w)];
    assert forall k :: 0 <= k < |indices + [i]| ==> (indices + [i])[k] < |cur| by {
      forall k | 0 <= k < |indices + [i]|
        ensures (indices + [i])[k] < |cur|
      {
        if k < |indices| {
          assert (indices + [i])[k] == indices[k];
        }
      }
    }
    assert |a| == |b|;
    forall k | 0 <= k < |a|
      ensures a[k] == b[k]
    {
      if k < |indices| {
        assert (indices + [i])[k] == indices[k];
      }
    }
  }

  lemma {:induction false} AppendAssoc<T>(done: seq<T>, i: T, rest: seq<T>)
    ensures done + ([i] + rest) == (done + [i]) + rest
  {
  }

  class Buffer {
    var cells: seq<Cell>
    var size: Rect

    /** One cell per position of the rectangle. */
    ghost predicate Valid()
      reads this
    {
      |cells| == Area(size)
    }

    /** `new`: a buffer of empty cells the size of the rectangle. */
    constructor (size: Rect)
      ensures Valid() && this.size == size
      ensures forall k :: 0 <= k < |cells| ==> cells[k] == EMPTY
    {
      this.size := size;
      cells := seq(Area(size), _ => EMPTY);
    }

    /** `resize`: cells are kept up to the new area and empty cells are added beyond the old one. */
    method Resize(newSize: Rect)
      modifies this
      ensures Valid() && size == newSize
      ensures forall k :: 0 <= k < |cells| ==> cells[k] == if k < |old(cells)| then old(cells)[k] else EMPTY
    {
      var n := Area(newSize);
      if n <= |cells| {
        cells := cells[..n];
      } else {
        cells := cells + seq(n - |cells|, _ => EMPTY);
      }
      size := newSize;
    }

    /** `reset`: every cell becomes empty. */
    method Reset()
      modifies this
      ensures size == old(size) && |cells| == |old(cells)|
      ensures forall k :: 0 <= k < |cells| ==> cells[k] == EMPTY
    {
      var i := 0;
      while i < |cells|
        invariant 0 <= i <= |cells| == |old(cells)| && size == old(size)
        invariant forall k :: 0 <= k < i ==> cells[k] == EMPTY
      {
        cells := cells[i := EMPTY];
        i := i + 1;
      }
    }

    /** `get_symbol`: the symbol at `(x, y)`, or nothing past the last cell. */
    function GetSymbol(x: U16, y: U16): (r: Option<string>)
      reads this
      ensures r.Some? <==> IndexOf(size, x, y) < |cells|
      ensures r.Some? ==> r.value == cells[IndexOf(size, x, y)].symbol
    {
      var i := IndexOf(size, x, y);
      if i < |cells| then Some(cells[i].symbol) else None
    }

    /**
     * `put_symbol`: the cell at `(x, y)` gets the symbol and the style; a
     * position past the last cell is ignored. A column past the width is
     * not checked, so it lands in a later row.
     */
    method PutSymbol(symbol: string, x: U16, y: U16, style: Style)
      modifies this
      ensures size == old(size)
      ensures cells == Put(old(cells), IndexOf(size, x, y), symbol, style)
    {
      cells := Put(cells, IndexOf(size, x, y), symbol, style);
    }

    /**
     * `put_truncated_str`: the graphemes written from column `x` on row `y`,
     * as `Placements` lays them out, up to the smaller of `rightEdge` and
     * the buffer's right edge.
     */
    method PutTruncatedStr(gs: seq<string>, x: U16, y: U16, rightEdge: U16, style: Style, width: string -> nat)
      requires Fits(size)
      modifies this
      ensures size == old(size)
      ensures cells == PutAll(old(cells), size, Placements(gs, x, Min(rightEdge, Right(size)), width), y, style)
    {
      var edge := Min(rightEdge, Right(size));
      var col: nat := x;
      var i := 0;
      while i < |gs|
        invariant 0 <= i <= |gs| && size == old(size)
        invariant PutAll(cells, size, Placements(gs[i..], col, edge, width), y, style)
               == PutAll(old(cells), size, Placements(gs, x, edge, width), y, style)
      {
        if col >= edge {
          assert Placements(gs[i..], col, edge, width) == [];
          break;
        }
        var symbol := if col + 1 < edge || i + 1 == |gs| then gs[i] else "…";
        ghost var rest := Placements(gs[i + 1..], col + width(gs[i]), edge, width);
        ghost var target := PutAll(old(cells), size, Placements(gs, x, edge, width), y, style);
        assert PutAll(Put(cells, IndexOf(size, col, y), symbol, style), size, rest, y, style) == target by {
          PlacementsStep(gs, i, col, edge, width);
          PutAllStep(cells, size, (col, symbol), rest, y, style);
        }
        cells := Put(cells, IndexOf(size, col, y), symbol, style);
        col := col + width(gs[i]);
        i := i + 1;
      }
      assert i == |gs| ==> Placements(gs[i..], col, edge, width) == [];
    }

    /** `clear`: every cell of `area` that lies in the buffer becomes empty, and no other cell changes. */
    method Clear(area: Rect)
      requires Fits(area)
      modifies this
      ensures size == old(size) && |cells| == |old(cells)|
      ensures forall x, y ::
        Left(area) <= x < Right(area) && Top(area) <= y < Bottom(area) && IndexOf(size, x, y) < |cells| ==>
          cells[IndexOf(size, x, y)] == EMPTY
      ensures forall k :: 0 <= k < |cells| ==> cells[k] == old(cells)[k] || (cells[k] == EMPTY && InArea(size, area, k))
    {
      var x := Left(area);
      while x < Right(area)
        invariant Left(area) <= x <= Right(area)
        invariant size == old(size) && |cells| == |old(cells)|
        invariant forall x', y' ::
          Left(area) <= x' < x && Top(area) <= y' < Bottom(area) && IndexOf(size, x', y') < |cells| ==>
            cells[IndexOf(size, x', y')] == EMPTY
        invariant forall k :: 0 <= k < |cells| ==> cells[k] == old(cells)[k] || (cells[k] == EMPTY && InArea(size, area, k))
      {
        ClearColumn(area, x);
        x := x + 1;
      }
    }

    /** The inner loop of `clear`: column `x` of the area. */
    method ClearColumn(area: Rect, x: nat)
      requires Fits(area) && Left(area) <= x < Right(area)
      modifies this
      ensures size == old(size) && |cells| == |old(cells)|
      ensures forall y :: Top(area) <= y < Bottom(area) && IndexOf(size, x, y) < |cells| ==> cells[IndexOf(size, x, y)] == EMPTY
      ensures forall k :: 0 <= k < |cells| ==> cells[k] == old(cells)[k] || (cells[k] == EMPTY && InArea(size, area, k))
    {
      var y := Top(area);
      while y < Bottom(area)
        invariant Top(area) <= y <= Bottom(area)
        invariant size == old(size) && |cells| == |old(cells)|
        invariant forall y' :: Top(area) <= y' < y && IndexOf(size, x, y') < |cells| ==> cells[IndexOf(size, x, y')] == EMPTY
        invariant forall k :: 0 <= k < |cells| ==> cells[k] == old(cells)[k] || (cells[k] == EMPTY && InArea(size, area, k))
      {
        var i := IndexOf(size, x, y);
        if i < |cells| {
          assert InArea(size, area, i);
          cells := cells[i := EMPTY];
        }
        y := y + 1;
      }
    }

    /**
     * `diff` of this (previous) frame against `other` (the next one): the
     * patches at the indices `DiffFrom` selects, each placed at its column
     * and row and carrying the new cell.
     */
    method Diff(other: Buffer, width: string -> nat) returns (patches: seq<Patch>)
      requires Valid() && other.Valid() && other.size == size
      ensures |cells| > 0 ==> size.width > 0
      ensures size.width > 0 ==> patches == PatchesAt(DiffFrom(other.cells, cells, 0, 0, 0, width), other.cells, size.width)
      ensures size.width == 0 ==> patches == []
    {
      if size.width == 0 || |cells| == 0 {
        return [];
      }
      var w := size.width;
      ghost var total := DiffFrom(other.cells, cells, 0, 0, 0, width);
      ghost var done: seq<nat> := [];
      patches := [];
      var invalidated := 0;
      var toSkip := 0;
      var i := 0;
      while i < |cells|
        invariant 0 <= i <= |cells|
        invariant forall k :: 0 <= k < |done| ==> done[k] < |other.cells|
        invariant done + DiffFrom(other.cells, cells, i, invalidated, toSkip, width) == total
        invariant patches == PatchesAt(done, other.cells, w)
      {
        var current, previous := other.cells[i], cells[i];
        DiffStep(other.cells, cells, i, invalidated, toSkip, width);
        if (current != previous || invalidated > 0) && toSkip == 0 {
          PatchesAtAppend(done, i, other.cells, w);
          AppendAssoc(done, i, DiffFrom(other.cells, cells, i + 1, SatSub(Max(Max(width(current.symbol), width(previous.symbol)), invalidated), 1), SatSub(width(current.symbol), 1), width));
          patches := patches + [PatchAt(i, other.cells, w)];
          done := done + [i];
        }
        var currentWidth := width(current.symbol);
        toSkip := SatSub(currentWidth, 1);
        var affected := Max(currentWidth, width(previous.symbol));
        invalidated := SatSub(Max(affected, invalidated), 1);
        i := i + 1;
      }
      assert DiffFrom(other.cells, cells, i, invalidated, toSkip, width) == [];
    }
  }
}

/**
 * Cursors, ranges and multi-range selections (src/selection.rs).
 *
 * A cursor is a (column, line) position; a range is an anchor, a head and the
 * column remembered for vertical moves; a selection is a non-empty list of
 * ranges with one primary range.
 */
module Selection {
  import opened Base
  import opened Text

  datatype Cursor = Cursor(x: nat, y: nat)

  /** `Ord for Cursor`: lines first, then columns. */
  predicate Less(a: Cursor, b: Cursor)
  {
    a.y < b.y || (a.y == b.y && a.x < b.x)
  }

  predicate LessEq(a: Cursor, b: Cursor)
  {
    Less(a, b) || a == b
  }

  /** `Ord::min`: the first argument when the two are equal. */
  function CursorMin(a: Cursor, b: Cursor): (r: Cursor)
    ensures r == a || r == b
    ensures LessEq(r, a) && LessEq(r, b)
  {
    if LessEq(a, b) then a else b
  }

  /** `Ord::max`: the second argument when the two are equal. */
  function CursorMax(a: Cursor, b: Cursor): (r: Cursor)
    ensures r == a || r == b
    ensures LessEq(a, r) && LessEq(b, r)
  {
    if LessEq(a, b) then b else a
  }

  /** The cursor order is a strict total order. */
  lemma {:induction false} CursorOrder(a: Cursor, b: Cursor, c: Cursor)
    ensures Less(a, b) || a == b || Less(b, a)
    ensures !(Less(a, b) && Less(b, a)) && !Less(a, a)
    ensures Less(a, b) && Less(b, c) ==> Less(a, c)
  {
  }

  /** The comparisons and min/max results the source's tests assert. */
  lemma {:induction false} CursorTestCases()
    ensures Less(Cursor(0, 0), Cursor(5, 0))
    ensures Less(Cursor(5, 0), Cursor(0, 1))
    ensures CursorMin(Cursor(5, 0), Cursor(1, 0)) == Cursor(1, 0)
    ensures CursorMin(Cursor(5, 0), Cursor(0, 1)) == Cursor(5, 0)
    ensures CursorMax(Cursor(5, 0), Cursor(1, 0)) == Cursor(5, 0)
    ensures CursorMax(Cursor(5, 0), Cursor(0, 1)) == Cursor(0, 1)
  {
  }

  datatype Range = Range(anchor: Cursor, head: Cursor, stickyX: nat)

  const DefaultRange := Range(Cursor(0, 0), Cursor(0, 0), 0)

  /** The start of a range: the earlier of head and anchor. */
  function From(r: Range): (c: Cursor)
    ensures c == r.head || c == r.anchor
    ensures LessEq(c, r.head) && LessEq(c, r.anchor)
  {
    CursorMin(r.head, r.anchor)
  }

  /** The end of a range: the later of head and anchor, never before the start. */
  function To(r: Range): (c: Cursor)
    ensures c == r.head || c == r.anchor
    ensures LessEq(r.head, c) && LessEq(r.anchor, c)
    ensures LessEq(From(r), c)
  {
    CursorMax(r.head, r.anchor)
  }

  /** A range is backward when its anchor comes after its head. */
  predicate Backward(r: Range)
  {
    Less(r.head, r.anchor)
  }

  predicate Overlaps(a: Range, b: Range)
  {
    From(a) == From(b) || (LessEq(From(b), To(a)) && LessEq(From(a), To(b)))
  }

  predicate ContainsCursor(r: Range, x: nat, y: nat)
  {
    LessEq(From(r), Cursor(x, y)) && LessEq(Cursor(x, y), To(r))
  }

  /** `a` lies inside `b`. */
  predicate Within(a: Range, b: Range)
  {
    LessEq(From(b), From(a)) && LessEq(To(a), To(b))
  }

  /** Two ranges overlap exactly when some position lies in both, whatever their order. */
  lemma {:induction false} OverlapsIffSharedPosition(a: Range, b: Range)
    ensures Overlaps(a, b) <==> exists x: nat, y: nat :: ContainsCursor(a, x, y) && ContainsCursor(b, x, y)
    ensures Overlaps(a, b) == Overlaps(b, a)
  {
    if Overlaps(a, b) {
      var c := CursorMax(From(a), From(b));
      assert ContainsCursor(a, c.x, c.y) && ContainsCursor(b, c.x, c.y);
    }
  }

  /** Rows of the overlap table the source's tests assert. */
  lemma {:induction false} OverlapTestCases()
    ensures !Overlaps(Range(Cursor(3, 0), Cursor(0, 0), 0), Range(Cursor(6, 0), Cursor(4, 0), 0))
    ensures !Overlaps(Range(Cursor(3, 1), Cursor(6, 1), 0), Range(Cursor(3, 0), Cursor(6, 0), 0))
    ensures Overlaps(Range(Cursor(0, 0), Cursor(4, 0), 0), Range(Cursor(6, 0), Cursor(3, 0), 0))
    ensures Overlaps(Range(Cursor(3, 0), Cursor(6, 0), 0), Range(Cursor(0, 1), Cursor(4, 0), 0))
    ensures !Overlaps(Range(Cursor(3, 0), Cursor(3, 0), 0), Range(Cursor(0, 0), Cursor(2, 0), 0))
    ensures Overlaps(Range(Cursor(1, 0), Cursor(1, 0), 0), Range(Cursor(4, 0), Cursor(1, 0), 0))
    ensures !Overlaps(Range(Cursor(0, 0), Cursor(0, 0), 0), Range(Cursor(1, 0), Cursor(1, 0), 0))
    ensures Overlaps(Range(Cursor(1, 0), Cursor(1, 0), 0), Range(Cursor(1, 0), Cursor(1, 0), 0))
  {
  }

  /** `merge`: one range spanning both inputs. */
  function Merge(a: Range, b: Range): (r: Range)
    ensures From(r) == CursorMin(From(a), From(b))
    ensures To(r) == CursorMax(To(a), To(b))
    ensures r.stickyX == Max(a.stickyX, b.stickyX)
    ensures Backward(r) <==> Backward(a) && Backward(b)
    ensures Within(a, r) && Within(b, r)
  {
    if Less(a.head, a.anchor) && Less(b.head, b.anchor) then
      Range(CursorMax(a.anchor, b.anchor), CursorMin(a.head, b.head), Max(a.stickyX, b.stickyX))
    else
      Range(CursorMin(From(a), From(b)), CursorMax(To(a), To(b)), Max(a.stickyX, b.stickyX))
  }

  /** `flip`: head and anchor swap; the covered span stays the same. */
  function Flip(r: Range): (f: Range)
    ensures f.head == r.anchor && f.anchor == r.head && f.stickyX == r.anchor.x
    ensures From(f) == From(r) && To(f) == To(r)
  {
    Range(r.head, r.anchor, r.anchor.x)
  }

  /** Flipping twice restores head and anchor; the sticky column becomes the head's. */
  lemma {:induction false} FlipTwice(r: Range)
    ensures Flip(Flip(r)) == r.(stickyX := r.head.x)
  {
  }

  /** `collapse_to_head`: an empty range at the head. */
  function CollapseToHead(r: Range): (c: Range)
    ensures From(c) == To(c) == r.head && c.stickyX == r.stickyX
  {
    r.(anchor := r.head)
  }

  /** `collapse_to_start`: an empty range at the start of the range. */
  function CollapseToStart(r: Range): (c: Range)
    ensures c.head == c.anchor == From(r) && c.stickyX == From(r).x
    ensures Within(c, r)
  {
    Range(From(r), From(r), From(r).x)
  }

  // ---------------------------------------------------------------------
  // Moving a range within a document
  // ---------------------------------------------------------------------

  datatype Horizontal = Right | Left
  datatype Vertical = Down | Up
  datatype Direction = Direction(horizontal: Option<Horizontal>, vertical: Option<Vertical>)

  /** `move_direction`: how the head moves from one position to another. */
  function MoveDirection(fromX: nat, fromY: nat, toX: nat, toY: nat): (d: Direction)
    ensures d.horizontal == None <==> fromX == toX
    ensures d.horizontal == Some(Right) <==> fromX < toX
    ensures d.vertical == None <==> fromY == toY
    ensures d.vertical == Some(Down) <==> fromY < toY
  {
    Direction(
      if fromX > toX then Some(Left) else if fromX < toX then Some(Right) else None,
      if fromY > toY then Some(Up) else if fromY < toY then Some(Down) else None)
  }

  /** `max_cursor_x`: Normal mode stops on the last grapheme, the others may pass it. */
  function MaxCursorX(l: Line, mode: Mode): nat
  {
    if mode == Normal then SatSub(Width(l), 1) else Width(l)
  }

  /** Moving towards the start of the line: any vertical move, a move left, or no move. */
  predicate GoesToPrevious(d: Direction)
  {
    d.vertical.Some? || d.horizontal == Some(Left) || d.horizontal != Some(Right)
  }

  /**
   * The column `grapheme_aligned` settles on for a head at column `x`,
   * scanning from grapheme `i`, which starts at column `col`.
   */
  function AlignedFrom(l: Line, i: nat, col: nat, x: nat, d: Direction, mode: Mode): nat
    requires i <= |l|
    decreases |l| - i
  {
    if i == |l| then x
    else
      var next := col + l[i].width;
      if x == col then x
      else if col < x < next then
        if GoesToPrevious(d) then col
        else if i + 1 == |l| && mode != Insert then col
        else next
      else AlignedFrom(l, i + 1, next, x, d, mode)
  }

  function Aligned(l: Line, x: nat, d: Direction, mode: Mode): nat
  {
    AlignedFrom(l, 0, 0, x, d, mode)
  }

  /** The column at which some grapheme starts, or the end of the line. */
  predicate IsBoundary(l: Line, x: nat)
  {
    exists j :: 0 <= j <= |l| && ColumnOf(l, j) == x
  }

  lemma {:induction false} AlignedFromBoundary(l: Line, i: nat, col: nat, x: nat, d: Direction, mode: Mode)
    requires i <= |l| && col == ColumnOf(l, i) && col <= x <= Width(l)
    ensures IsBoundary(l, AlignedFrom(l, i, col, x, d, mode))
    decreases |l| - i
  {
    if i == |l| {
      assert l[..|l|] == l;
      assert ColumnOf(l, |l|) == x;
    } else {
      ColumnOffsetStep(l, i);
      var next := col + l[i].width;
      assert ColumnOf(l, i + 1) == next;
      if x == col {
        assert ColumnOf(l, i) == x;
      } else if col < x < next {
      } else {
        AlignedFromBoundary(l, i + 1, next, x, d, mode);
      }
    }
  }

  lemma {:induction false} AlignedFromPast(l: Line, i: nat, col: nat, x: nat, d: Direction, mode: Mode)
    requires i <= |l| && col == ColumnOf(l, i) && Width(l) < x
    ensures AlignedFrom(l, i, col, x, d, mode) == x
    decreases |l| - i
  {
    if i < |l| {
      ColumnOffsetStep(l, i);
      ColumnMono(l, i + 1, |l|);
      assert l[..|l|] == l;
      AlignedFromPast(l, i + 1, col + l[i].width, x, d, mode);
    }
  }

  lemma {:induction false} AlignedFromStays(l: Line, i: nat, col: nat, x: nat, d: Direction, mode: Mode, j: nat)
    requires i <= j <= |l| && col == ColumnOf(l, i) && ColumnOf(l, j) == x
    ensures AlignedFrom(l, i, col, x, d, mode) == x
    decreases |l| - i
  {
    if i < |l| && x != col {
      ColumnOffsetStep(l, i);
      var next := col + l[i].width;
      assert ColumnOf(l, i + 1) == next;
      assert i < j;
      ColumnMono(l, i + 1, j);
      AlignedFromStays(l, i + 1, next, x, d, mode, j);
    }
  }

  lemma {:induction false} AlignedFromBack(l: Line, i: nat, col: nat, x: nat, d: Direction, mode: Mode)
    requires i <= |l| && col <= x && GoesToPrevious(d)
    ensures AlignedFrom(l, i, col, x, d, mode) <= x
    decreases |l| - i
  {
    if i < |l| && !(x == col) && !(col < x < col + l[i].width) {
      AlignedFromBack(l, i + 1, col + l[i].width, x, d, mode);
    }
  }

  lemma {:induction false} AlignedFromInRange(l: Line, i: nat, col: nat, x: nat, d: Direction, mode: Mode)
    requires i <= |l| && col == ColumnOf(l, i) && col <= x
    requires PositiveWidths(l) && x <= MaxCursorX(l, mode)
    ensures AlignedFrom(l, i, col, x, d, mode) <= MaxCursorX(l, mode)
    decreases |l| - i
  {
    if i < |l| {
      ColumnOffsetStep(l, i);
      var next := col + l[i].width;
      if col < x < next {
        StartsBeforeEnd(l, i);
        if i + 1 < |l| {
          StartsBeforeEnd(l, i + 1);
        }
      } else if !(x == col) && !(col < x < next) {
        AlignedFromInRange(l, i + 1, next, x, d, mode);
      }
    }
  }

  /** With no zero-width grapheme, every grapheme starts before the line's last column. */
  lemma {:induction false} StartsBeforeEnd(l: Line, k: nat)
    requires PositiveWidths(l) && k < |l|
    ensures ColumnOf(l, k) + l[k].width <= Width(l)
    ensures ColumnOf(l, k) <= SatSub(Width(l), 1)
  {
    ColumnOffsetStep(l, k);
    ColumnMono(l, k + 1, |l|);
    assert l[k].width > 0;
  }

  /**
   * `grapheme_aligned` settles a head on a grapheme boundary: a head already on
   * one, or past the end of the line, stays; a head inside a grapheme goes to
   * its start, or to the next grapheme when moving right; in Normal mode the
   * result stays within the line's last grapheme.
   */
  lemma {:induction false} AlignedSettlesOnBoundary(l: Line, x: nat, d: Direction, mode: Mode)
    ensures x <= Width(l) ==> IsBoundary(l, Aligned(l, x, d, mode))
    ensures x > Width(l) ==> Aligned(l, x, d, mode) == x
    ensures IsBoundary(l, x) ==> Aligned(l, x, d, mode) == x
    ensures GoesToPrevious(d) ==> Aligned(l, x, d, mode) <= x
    ensures PositiveWidths(l) && x <= MaxCursorX(l, mode) ==> Aligned(l, x, d, mode) <= MaxCursorX(l, mode)
  {
    assert ColumnOf(l, 0) == 0 by { assert l[..0] == []; }
    if x <= Width(l) {
      AlignedFromBoundary(l, 0, 0, x, d, mode);
    } else {
      AlignedFromPast(l, 0, 0, x, d, mode);
    }
    if IsBoundary(l, x) {
      var j :| 0 <= j <= |l| && ColumnOf(l, j) == x;
      AlignedFromStays(l, 0, 0, x, d, mode, j);
    }
    if GoesToPrevious(d) {
      AlignedFromBack(l, 0, 0, x, d, mode);
    }
    if PositiveWidths(l) && x <= MaxCursorX(l, mode) {
      AlignedFromInRange(l, 0, 0, x, d, mode);
    }
  }

  /** Moving back to a column inside grapheme `k` settles on that grapheme's start. */
  lemma {:induction false} AlignedFromInside(l: Line, i: nat, x: nat, k: nat, d: Direction, mode: Mode)
    requires i <= k < |l| && ColumnOf(l, k) < x < ColumnOf(l, k + 1) && GoesToPrevious(d)
    ensures AlignedFrom(l, i, ColumnOf(l, i), x, d, mode) == ColumnOf(l, k)
    decreases k - i
  {
    ColumnOffsetStep(l, i);
    if i < k {
      ColumnMono(l, i + 1, k);
      AlignedFromInside(l, i + 1, x, k, d, mode);
    }
  }

  /** The end of the line is a grapheme boundary, so aligning it keeps it. */
  lemma {:induction false} AlignedAtEnd(l: Line, d: Direction, mode: Mode)
    ensures Aligned(l, Width(l), d, mode) == Width(l)
  {
    assert l[..|l|] == l;
    assert ColumnOf(l, |l|) == Width(l);
    AlignedSettlesOnBoundary(l, Width(l), d, mode);
  }

  /** Column 0 is a grapheme boundary, so aligning it keeps it. */
  lemma {:induction false} AlignedAtStart(l: Line, d: Direction, mode: Mode)
    ensures Aligned(l, 0, d, mode) == 0
  {
    assert l[..0] == [];
    assert ColumnOf(l, 0) == 0;
    AlignedSettlesOnBoundary(l, 0, d, mode);
  }

  /** A grapheme boundary lies within the line. */
  lemma {:induction false} BoundaryWithinWidth(l: Line, x: nat)
    requires IsBoundary(l, x)
    ensures x <= Width(l)
  {
    var j :| 0 <= j <= |l| && ColumnOf(l, j) == x;
    ColumnMono(l, j, |l|);
  }

  /** `grapheme_aligned`: scans the head's line until the head's grapheme is found. */
  method GraphemeAligned(r: Range, l: Line, mode: Mode, d: Direction) returns (a: Range)
    ensures a == r.(head := r.head.(x := Aligned(l, r.head.x, d, mode)))
  {
    var col: nat := 0;
    var i := 0;
    a := r;
    while i < |l|
      invariant i <= |l| && a == r
      invariant AlignedFrom(l, i, col, r.head.x, d, mode) == Aligned(l, r.head.x, d, mode)
    {
      var width := l[i].width;
      var next := col + width;
      if a.head.x + width == next {
        return;
      }
      if a.head.x < next && a.head.x > col {
        if GoesToPrevious(d) {
          a := a.(head := a.head.(x := col));
        } else if i + 1 == |l| && mode != Insert {
          a := a.(head := a.head.(x := col));
        } else {
          a := a.(head := a.head.(x := next));
        }
        return;
      }
      col := next;
      i := i + 1;
    }
  }

  /**
   * `move_to`: moves the head to (x, y), each defaulting to the sticky column and
   * the current line, clamped to the document, then grapheme aligned. Outside
   * Select mode the anchor follows the head. The document always has a line.
   */
  method MoveTo(r: Range, doc: seq<Line>, x: Option<nat>, y: Option<nat>, mode: Mode) returns (m: Range)
    requires |doc| > 0
    ensures m.head.y == Min(|doc| - 1, if y.Some? then y.value else r.head.y)
    ensures var cx := Min(MaxCursorX(doc[m.head.y], mode), if x.Some? then x.value else r.stickyX);
      && m.head.x == Aligned(doc[m.head.y], cx, MoveDirection(r.head.x, r.head.y, cx, m.head.y), mode)
      && m.stickyX == (if x.Some? then cx else r.stickyX)
    ensures PositiveWidths(doc[m.head.y]) ==> m.head.x <= MaxCursorX(doc[m.head.y], mode)
    ensures m.head.x <= Width(doc[m.head.y])
    ensures mode != Select ==> m.anchor == m.head
    ensures mode == Select ==> m.anchor == r.anchor
  {
    var ny := Min(|doc| - 1, if y.Some? then y.value else r.head.y);
    var nx := Min(MaxCursorX(doc[ny], mode), if x.Some? then x.value else r.stickyX);
    var d := MoveDirection(r.head.x, r.head.y, nx, ny);
    var sticky := if x.Some? then nx else r.stickyX;
    m := GraphemeAligned(Range(r.anchor, Cursor(nx, ny), sticky), doc[ny], mode, d);
    AlignedSettlesOnBoundary(doc[ny], nx, d, mode);
    BoundaryWithinWidth(doc[ny], m.head.x);
    if mode != Select {
      m := CollapseToHead(m);
    }
  }

  /**
   * `byte_offset_at_cursor`, as a function: the offset of the grapheme at the
   * cursor's column (past it in Select mode); a cursor past the last grapheme
   * gives the end of the line, or in Select mode, except on the last line, the
   * start of the next line.
   */
  function ColumnByteFrom(l: Line, i: nat, col: nat, x: nat, mode: Mode): Option<nat>
    requires i <= |l|
    decreases |l| - i
  {
    if i == |l| then None
    else if col == x then Some(OffsetOf(l, i) + (if mode == Select then |l[i].bytes| else 0))
    else ColumnByteFrom(l, i + 1, col + l[i].width, x, mode)
  }

  function CursorByteOffset(doc: seq<Line>, c: Cursor, mode: Mode): nat
    requires c.y < |doc|
  {
    match ColumnByteFrom(doc[c.y], 0, 0, c.x, mode)
    case Some(o) => ByteOfLine(doc, c.y) + o
    case None =>
      if mode == Select && c.y != |doc| - 1 then ByteOfLine(doc, c.y + 1)
      else ByteOfLine(doc, c.y) + |LineBytes(doc[c.y])|
  }

  lemma {:induction false} ColumnByteFromBounds(l: Line, i: nat, col: nat, x: nat, mode: Mode)
    requires i <= |l|
    ensures ColumnByteFrom(l, i, col, x, mode).Some? ==> ColumnByteFrom(l, i, col, x, mode).value <= |LineBytes(l)|
    decreases |l| - i
  {
    if i < |l| {
      ColumnOffsetStep(l, i);
      OffsetMono(l, i + 1, |l|);
      ColumnByteFromBounds(l, i + 1, col + l[i].width, x, mode);
    }
  }

  /** The byte offset of a cursor lies within its line, counting the line feed only in Select mode. */
  lemma {:induction false} CursorByteOffsetInLine(doc: seq<Line>, c: Cursor, mode: Mode)
    requires c.y < |doc|
    ensures ByteOfLine(doc, c.y) <= CursorByteOffset(doc, c, mode) <= ByteOfLine(doc, c.y + 1)
    ensures mode != Select ==> CursorByteOffset(doc, c, mode) < ByteOfLine(doc, c.y + 1)
    ensures CursorByteOffset(doc, c, mode) <= |DocBytes(doc)|
  {
    ColumnByteFromBounds(doc[c.y], 0, 0, c.x, mode);
    LineInDoc(doc, c.y);
  }

  /** `byte_offset_at_cursor`: walks the cursor's line grapheme by grapheme. */
  method ByteOffsetAtCursor(doc: seq<Line>, c: Cursor, mode: Mode) returns (offset: nat)
    requires c.y < |doc|
    ensures offset == CursorByteOffset(doc, c, mode)
  {
    var l := doc[c.y];
    offset := ByteOfLine(doc, c.y);
    var col: nat := 0;
    var i := 0;
    var pastLast := true;
    assert l[..0] == [];
    while i < |l|
      invariant i <= |l| && offset == ByteOfLine(doc, c.y) + OffsetOf(l, i)
      invariant ColumnByteFrom(l, i, col, c.x, mode) == ColumnByteFrom(l, 0, 0, c.x, mode)
    {
      if col == c.x {
        pastLast := false;
        if mode == Select {
          offset := offset + |l[i].bytes|;
        }
        break;
      }
      ColumnOffsetStep(l, i);
      col := col + l[i].width;
      offset := offset + |l[i].bytes|;
      i := i + 1;
    }
    if pastLast && mode == Select && c.y != |doc| - 1 {
      offset := ByteOfLine(doc, c.y + 1);
    } else if pastLast {
      assert l[..|l|] == l;
    }
  }

  /** The bytes `byte_range` covers, as (start, end). */
  function ByteSpan(r: Range, doc: seq<Line>, mode: Mode): (span: (nat, nat))
    requires To(r).y < |doc|
    ensures span.0 <= |DocBytes(doc)| && span.1 <= |DocBytes(doc)|
  {
    var f := From(r);
    var t := To(r);
    CursorByteOffsetInLine(doc, t, mode);
    if mode == Select && f.x == 0 && f.y > 0 && t.y == |doc| - 1 && t.x == MaxCursorX(doc[t.y], Select) then
      LineInDoc(doc, f.y - 1);
      (ByteOfLine(doc, f.y - 1) + |LineBytes(doc[f.y - 1])|, CursorByteOffset(doc, t, mode))
    else
      CursorByteOffsetInLine(doc, f, Normal);
      (CursorByteOffset(doc, f, Normal), CursorByteOffset(doc, t, mode))
  }

  /**
   * `byte_range`: from the start cursor (in Normal mode terms) to the end
   * cursor. A Select-mode range from column 0 to the end of the last line
   * starts at the line feed before it instead.
   */
  method ByteRange(r: Range, doc: seq<Line>, mode: Mode) returns (start: nat, end: nat)
    requires To(r).y < |doc|
    ensures (start, end) == ByteSpan(r, doc, mode)
    ensures var f := From(r); var t := To(r);
      && (if mode == Select && f.x == 0 && f.y > 0 && t.y == |doc| - 1 && t.x == MaxCursorX(doc[t.y], Select)
          then start + 1 == ByteOfLine(doc, f.y)
          else start == CursorByteOffset(doc, f, Normal))
      && end == CursorByteOffset(doc, t, mode)
    ensures start <= |DocBytes(doc)| && end <= |DocBytes(doc)|
  {
    var f := From(r);
    var t := To(r);
    CursorByteOffsetInLine(doc, t, mode);
    if mode == Select && f.x == 0 && f.y > 0 && t.y == |doc| - 1 && t.x == MaxCursorX(doc[t.y], Select) {
      LineInDoc(doc, f.y - 1);
      start := ByteOfLine(doc, f.y - 1) + |LineBytes(doc[f.y - 1])|;
    } else {
      start := ByteOffsetAtCursor(doc, f, Normal);
      CursorByteOffsetInLine(doc, f, Normal);
    }
    end := ByteOffsetAtCursor(doc, t, mode);
  }

  // ---------------------------------------------------------------------
  // Selections
  // ---------------------------------------------------------------------

  datatype Selection = Selection(ranges: seq<Range>, primaryIndex: nat)

  const DefaultSelection := Selection([DefaultRange], 0)

  predicate Valid(s: Selection)
  {
    s.primaryIndex < |s.ranges|
  }

  function Primary(s: Selection): Range
    requires Valid(s)
  {
    s.ranges[s.primaryIndex]
  }

  /** `into_single`: only the primary range is kept. */
  function IntoSingle(s: Selection): (r: Selection)
    requires |s.ranges| == 1 || Valid(s)
    ensures |r.ranges| == 1 && r.primaryIndex == 0 && Valid(r)
    ensures Valid(s) ==> r.ranges[0] == Primary(s)
  {
    if |s.ranges| == 1 then Selection(s.ranges, 0) else Selection([Primary(s)], 0)
  }

  /**
   * `remove`: drops range `index`. The primary index stays in bounds and, unless
   * the primary itself was removed, keeps designating the same range.
   */
  function Remove(s: Selection, index: nat): (r: Selection)
    requires |s.ranges| > 1 && index < |s.ranges|
    ensures r.ranges == s.ranges[..index] + s.ranges[index + 1..]
    ensures Valid(s) ==> Valid(r)
    ensures Valid(s) && index != s.primaryIndex ==> Primary(r) == Primary(s)
    ensures Valid(s) && index == s.primaryIndex && index < |r.ranges| ==> Primary(r) == s.ranges[index + 1]
  {
    var ranges := s.ranges[..index] + s.ranges[index + 1..];
    if (index < s.primaryIndex || s.primaryIndex == |ranges|) && s.primaryIndex > 0 then
      Selection(ranges, s.primaryIndex - 1)
    else
      Selection(ranges, s.primaryIndex)
  }

  /** Ranges in order of their starts. */
  predicate SortedByFrom(t: seq<Range>)
  {
    forall a :: 0 <= a < |t| - 1 ==> LessEq(From(t[a]), From(t[a + 1]))
  }

  /** Places `r` before the first range that starts after it. */
  function InsertByFrom(r: Range, t: seq<Range>): (u: seq<Range>)
    requires SortedByFrom(t)
    ensures SortedByFrom(u) && multiset(u) == multiset(t) + multiset{r}
    ensures |u| == |t| + 1 && (u[0] == r || (|t| > 0 && u[0] == t[0]))
  {
    if t == [] then [r]
    else if LessEq(From(r), From(t[0])) then
      SortedCons(r, t);
      [r] + t
    else
      SortedTail(t);
      var rest := InsertByFrom(r, t[1..]);
      assert multiset(t) == multiset{t[0]} + multiset(t[1..]) by { assert t == [t[0]] + t[1..]; }
      SortedCons(t[0], rest);
      [t[0]] + rest
  }

  lemma {:induction false} SortedCons(x: Range, t: seq<Range>)
    requires SortedByFrom(t) && (t != [] ==> LessEq(From(x), From(t[0])))
    ensures SortedByFrom([x] + t)
  {
    var u := [x] + t;
    forall a | 0 <= a < |u| - 1 ensures LessEq(From(u[a]), From(u[a + 1])) {
      if a > 0 {
        assert u[a] == t[a - 1] && u[a + 1] == t[a];
      }
    }
  }

  lemma {:induction false} SortedTail(t: seq<Range>)
    requires SortedByFrom(t) && t != []
    ensures SortedByFrom(t[1..])
  {
    var u := t[1..];
    forall a | 0 <= a < |u| - 1 ensures LessEq(From(u[a]), From(u[a + 1])) {
      assert u[a] == t[a + 1] && u[a + 1] == t[a + 2];
    }
  }

  /** `sort_unstable_by_key(Range::from)`: the model places equal starts in input order. */
  function SortByFrom(s: seq<Range>): (t: seq<Range>)
    ensures SortedByFrom(t) && multiset(t) == multiset(s)
  {
    if s == [] then []
    else
      assert s == [s[0]] + s[1..];
      InsertByFrom(s[0], SortByFrom(s[1..]))
  }

  /** Neighbours are separated: each range ends strictly before the next one starts. */
  predicate Separated(t: seq<Range>)
  {
    forall j :: 0 <= j < |t| - 1 ==> Less(To(t[j]), From(t[j + 1]))
  }

  /** `r` lies inside some range of `t`. */
  predicate CoveredBy(r: Range, t: seq<Range>)
  {
    exists j :: 0 <= j < |t| && Within(r, t[j])
  }

  /** Every range of `s` lies inside some range of `t`. */
  predicate Covers(t: seq<Range>, s: seq<Range>)
  {
    forall k :: 0 <= k < |s| ==> CoveredBy(s[k], t)
  }

  /** `c` is the start of some range of `s`. */
  predicate StartIn(c: Cursor, s: seq<Range>)
  {
    exists k :: 0 <= k < |s| && From(s[k]) == c
  }

  /** `c` is the end of some range of `s`. */
  predicate EndIn(c: Cursor, s: seq<Range>)
  {
    exists k :: 0 <= k < |s| && To(s[k]) == c
  }

  /** Every start and end in `t` is the start or end of some range of `s`. */
  predicate EndsFrom(t: seq<Range>, s: seq<Range>)
  {
    forall j :: 0 <= j < |t| ==> StartIn(From(t[j]), s) && EndIn(To(t[j]), s)
  }

  /**
   * What `normalize` promises about `r` for the input `s`: fewer than two ranges
   * are left alone; otherwise the ranges are sorted and pairwise separated, they
   * cover every input range using only the inputs' own ends, and the primary is
   * the range that absorbed the old primary.
   */
  predicate NormalizedOf(r: Selection, s: Selection)
  {
    if |s.ranges| < 2 then r == s
    else
      && Valid(r) && Valid(s)
      && Separated(r.ranges)
      && Covers(r.ranges, s.ranges)
      && EndsFrom(r.ranges, s.ranges)
      && Within(Primary(s), Primary(r))
  }

  /**
   * The dedup pass of `normalize` (`Vec::dedup_by`) from sorted range `i` on:
   * `out` holds the ranges kept so far and `primary` the range tracked as primary.
   */
  function DedupFrom(out: seq<Range>, primary: Range, t: seq<Range>, i: nat): (seq<Range>, Range)
    requires |out| >= 1 && i <= |t|
    decreases |t| - i
  {
    if i == |t| then (out, primary)
    else
      var prev := out[|out| - 1];
      var curr := t[i];
      if Overlaps(prev, curr) then
        var merged := Merge(curr, prev);
        DedupFrom(out[|out| - 1 := merged], if prev == primary || curr == primary then merged else primary, t, i + 1)
      else
        DedupFrom(out + [curr], primary, t, i + 1)
  }

  /** A range starting no earlier than `a` and not overlapping it starts after `a` ends. */
  lemma {:induction false} NoOverlapMeansBefore(a: Range, b: Range)
    requires LessEq(From(a), From(b)) && !Overlaps(a, b)
    ensures Less(To(a), From(b))
  {
  }

  /** The start of the last kept range does not move when a later-starting range merges into it. */
  lemma {:induction false} MergeKeepsStart(prev: Range, curr: Range)
    requires LessEq(From(prev), From(curr))
    ensures From(Merge(curr, prev)) == From(prev)
  {
  }

  lemma {:induction false} SeparatedAppend(out: seq<Range>, r: Range)
    requires Separated(out) && (|out| > 0 ==> Less(To(out[|out| - 1]), From(r)))
    ensures Separated(out + [r])
  {
    var o := out + [r];
    forall j | 0 <= j < |o| - 1
      ensures Less(To(o[j]), From(o[j + 1]))
    {
      if j < |out| - 1 {
        assert o[j] == out[j] && o[j + 1] == out[j + 1];
      }
    }
  }

  lemma {:induction false} SeparatedReplaceLast(out: seq<Range>, r: Range)
    requires Separated(out) && |out| > 0 && From(r) == From(out[|out| - 1])
    ensures Separated(out[|out| - 1 := r])
  {
    var o := out[|out| - 1 := r];
    forall j | 0 <= j < |o| - 1
      ensures Less(To(o[j]), From(o[j + 1]))
    {
      assert o[j] == out[j];
      if j + 1 < |out| - 1 {
        assert o[j + 1] == out[j + 1];
      }
    }
  }

  /** The dedup pass keeps the ranges separated. */
  lemma {:induction false} DedupSeparated(out: seq<Range>, primary: Range, t: seq<Range>, i: nat)
    requires |out| >= 1 && i <= |t| && SortedByFrom(t) && Separated(out)
    requires i < |t| ==> LessEq(From(out[|out| - 1]), From(t[i]))
    ensures Separated(DedupFrom(out, primary, t, i).0)
    decreases |t| - i
  {
    if i < |t| {
      var prev := out[|out| - 1];
      var curr := t[i];
      if Overlaps(prev, curr) {
        var merged := Merge(curr, prev);
        MergeKeepsStart(prev, curr);
        SeparatedReplaceLast(out, merged);
        var primary' := if prev == primary || curr == primary then merged else primary;
        if i + 1 < |t| {
          assert LessEq(From(t[i]), From(t[i + 1]));
        }
        DedupSeparated(out[|out| - 1 := merged], primary', t, i + 1);
      } else {
        NoOverlapMeansBefore(prev, curr);
        SeparatedAppend(out, curr);
        if i + 1 < |t| {
          assert LessEq(From(t[i]), From(t[i + 1]));
        }
        DedupSeparated(out + [curr], primary, t, i + 1);
      }
    }
  }

  /** The first `i` sorted ranges each lie inside some kept range. */
  predicate CoversPrefix(out: seq<Range>, t: seq<Range>, i: nat)
    requires i <= |t|
  {
    forall k :: 0 <= k < i ==> CoveredBy(t[k], out)
  }

  lemma {:induction false} CoversStep(out: seq<Range>, out': seq<Range>, t: seq<Range>, i: nat)
    requires i < |t| && |out| >= 1 && CoversPrefix(out, t, i)
    requires |out'| >= |out| && out'[..|out| - 1] == out[..|out| - 1]
    requires Within(out[|out| - 1], out'[|out| - 1]) && Within(t[i], out'[|out'| - 1])
    ensures CoversPrefix(out', t, i + 1)
  {
    forall k | 0 <= k < i + 1
      ensures CoveredBy(t[k], out')
    {
      if k == i {
        assert Within(t[k], out'[|out'| - 1]);
      } else {
        var j :| 0 <= j < |out| && Within(t[k], out[j]);
        if j == |out| - 1 {
          assert Within(t[k], out'[j]);
        } else {
          assert out'[j] == out[..|out| - 1][j];
        }
      }
    }
  }

  /** Every sorted range ends up inside some kept range. */
  lemma {:induction false} DedupCovers(out: seq<Range>, primary: Range, t: seq<Range>, i: nat)
    requires |out| >= 1 && i <= |t| && CoversPrefix(out, t, i)
    ensures CoversPrefix(DedupFrom(out, primary, t, i).0, t, |t|)
    decreases |t| - i
  {
    if i < |t| {
      var prev := out[|out| - 1];
      var curr := t[i];
      if Overlaps(prev, curr) {
        var merged := Merge(curr, prev);
        var out' := out[|out| - 1 := merged];
        assert out'[..|out| - 1] == out[..|out| - 1];
        CoversStep(out, out', t, i);
        var primary' := if prev == primary || curr == primary then merged else primary;
        DedupCovers(out', primary', t, i + 1);
      } else {
        var out' := out + [curr];
        assert out'[..|out| - 1] == out[..|out| - 1];
        CoversStep(out, out', t, i);
        DedupCovers(out', primary, t, i + 1);
      }
    }
  }

  lemma {:induction false} EndsStep(out: seq<Range>, out': seq<Range>, t: seq<Range>, i: nat)
    requires i < |t| && |out| >= 1 && EndsFrom(out, t)
    requires |out'| >= 1 && |out'| - 1 <= |out| && out'[..|out'| - 1] == out[..|out'| - 1]
    requires From(out'[|out'| - 1]) == From(t[i]) || From(out'[|out'| - 1]) == From(out[|out| - 1])
    requires To(out'[|out'| - 1]) == To(t[i]) || To(out'[|out'| - 1]) == To(out[|out| - 1])
    ensures EndsFrom(out', t)
  {
    forall j | 0 <= j < |out'|
      ensures StartIn(From(out'[j]), t) && EndIn(To(out'[j]), t)
    {
      if j < |out'| - 1 {
        assert out'[j] == out'[..|out'| - 1][j];
      } else if From(out'[j]) == From(out[|out| - 1]) {
        assert 0 <= |out| - 1 < |out|;
      }
    }
  }

  /** Every kept start and end is the start or end of some sorted range. */
  lemma {:induction false} DedupEnds(out: seq<Range>, primary: Range, t: seq<Range>, i: nat)
    requires |out| >= 1 && i <= |t| && EndsFrom(out, t)
    ensures EndsFrom(DedupFrom(out, primary, t, i).0, t)
    decreases |t| - i
  {
    if i < |t| {
      var prev := out[|out| - 1];
      var curr := t[i];
      if Overlaps(prev, curr) {
        var merged := Merge(curr, prev);
        var out' := out[|out| - 1 := merged];
        assert out'[..|out'| - 1] == out[..|out'| - 1];
        EndsStep(out, out', t, i);
        var primary' := if prev == primary || curr == primary then merged else primary;
        DedupEnds(out', primary', t, i + 1);
      } else {
        var out' := out + [curr];
        assert out'[..|out'| - 1] == out[..|out'| - 1];
        EndsStep(out, out', t, i);
        DedupEnds(out', primary, t, i + 1);
      }
    }
  }

  /** The tracked primary is kept already or still to come. */
  predicate PrimaryPresent(out: seq<Range>, t: seq<Range>, i: nat, primary: Range)
    requires i <= |t|
  {
    primary in out || primary in t[i..]
  }

  lemma {:induction false} PrimaryStep(out: seq<Range>, out': seq<Range>, t: seq<Range>, i: nat, primary: Range, primary': Range)
    requires i < |t| && |out| >= 1 && PrimaryPresent(out, t, i, primary)
    requires |out'| >= |out| && out'[..|out| - 1] == out[..|out| - 1]
    requires out[|out| - 1] == primary ==> out'[|out| - 1] == primary'
    requires t[i] == primary ==> out'[|out'| - 1] == primary'
    requires primary != out[|out| - 1] && primary != t[i] ==> primary' == primary
    ensures PrimaryPresent(out', t, i + 1, primary')
  {
    if primary in out {
      var j :| 0 <= j < |out| && out[j] == primary;
      if j < |out| - 1 {
        assert out'[j] == out[..|out| - 1][j];
      } else {
        assert out'[|out| - 1] == primary';
      }
    } else {
      var k :| 0 <= k < |t[i..]| && t[i..][k] == primary;
      if t[i] == primary {
        assert out'[|out'| - 1] == primary';
      } else {
        assert t[i + 1..][k - 1] == primary';
      }
    }
  }

  /** The tracked primary is kept, and it spans the original primary. */
  lemma {:induction false} DedupPrimary(out: seq<Range>, primary: Range, t: seq<Range>, i: nat, p0: Range)
    requires |out| >= 1 && i <= |t| && PrimaryPresent(out, t, i, primary) && Within(p0, primary)
    ensures DedupFrom(out, primary, t, i).1 in DedupFrom(out, primary, t, i).0
    ensures Within(p0, DedupFrom(out, primary, t, i).1)
    decreases |t| - i
  {
    if i < |t| {
      var prev := out[|out| - 1];
      var curr := t[i];
      if Overlaps(prev, curr) {
        var merged := Merge(curr, prev);
        var out' := out[|out| - 1 := merged];
        var primary' := if prev == primary || curr == primary then merged else primary;
        assert out'[..|out| - 1] == out[..|out| - 1];
        PrimaryStep(out, out', t, i, primary, primary');
        DedupPrimary(out', primary', t, i + 1, p0);
      } else {
        var out' := out + [curr];
        assert out'[..|out| - 1] == out[..|out| - 1];
        PrimaryStep(out, out', t, i, primary, primary);
        DedupPrimary(out', primary, t, i + 1, p0);
      }
    }
  }

  lemma {:induction false} PermutedCovers(out: seq<Range>, t: seq<Range>, s: seq<Range>)
    requires multiset(t) == multiset(s) && CoversPrefix(out, t, |t|)
    ensures Covers(out, s)
  {
    forall k | 0 <= k < |s|
      ensures CoveredBy(s[k], out)
    {
      assert s[k] in multiset(t);
      var m :| 0 <= m < |t| && t[m] == s[k];
      assert CoveredBy(t[m], out);
    }
  }

  lemma {:induction false} PermutedEnds(out: seq<Range>, t: seq<Range>, s: seq<Range>)
    requires multiset(t) == multiset(s) && EndsFrom(out, t)
    ensures EndsFrom(out, s)
  {
    forall j | 0 <= j < |out|
      ensures StartIn(From(out[j]), s) && EndIn(To(out[j]), s)
    {
      var m1 :| 0 <= m1 < |t| && From(t[m1]) == From(out[j]);
      var m2 :| 0 <= m2 < |t| && To(t[m2]) == To(out[j]);
      assert t[m1] in multiset(s) && t[m2] in multiset(s);
      var k1 :| 0 <= k1 < |s| && s[k1] == t[m1];
      var k2 :| 0 <= k2 < |s| && s[k2] == t[m2];
    }
  }

  /** Everything the dedup pass promises about a sorted permutation of the ranges of `s`. */
  /** Before the dedup pass, the first sorted range is kept and every property holds of it. */
  lemma {:induction false} DedupStart(t: seq<Range>, p: Range)
    requires |t| >= 1 && p in multiset(t)
    ensures CoversPrefix([t[0]], t, 1) && EndsFrom([t[0]], t) && PrimaryPresent([t[0]], t, 1, p)
  {
    assert Within(t[0], [t[0]][0]);
    assert From([t[0]][0]) == From(t[0]) && To([t[0]][0]) == To(t[0]);
    assert t == [t[0]] + t[1..];
  }

  /** The ranges the dedup pass keeps are separated. */
  lemma {:induction false} DedupSoundSeparated(t: seq<Range>, p: Range)
    requires |t| >= 1 && SortedByFrom(t)
    ensures Separated(DedupFrom([t[0]], p, t, 1).0)
  {
    DedupSeparated([t[0]], p, t, 1);
  }

  /** The ranges the dedup pass keeps cover every range of `s`, of which `t` is a permutation. */
  lemma {:induction false} DedupSoundCovers(s: seq<Range>, t: seq<Range>, p: Range)
    requires |t| >= 1 && multiset(t) == multiset(s)
    ensures Covers(DedupFrom([t[0]], p, t, 1).0, s)
  {
    DedupStart(t, t[0]);
    DedupCovers([t[0]], p, t, 1);
    PermutedCovers(DedupFrom([t[0]], p, t, 1).0, t, s);
  }

  /** The ranges the dedup pass keeps start and end where ranges of `s` do. */
  lemma {:induction false} DedupSoundEnds(s: seq<Range>, t: seq<Range>, p: Range)
    requires |t| >= 1 && multiset(t) == multiset(s)
    ensures EndsFrom(DedupFrom([t[0]], p, t, 1).0, s)
  {
    DedupStart(t, t[0]);
    DedupEnds([t[0]], p, t, 1);
    PermutedEnds(DedupFrom([t[0]], p, t, 1).0, t, s);
  }

  /** The primary the dedup pass tracks is kept and spans the original primary `p`. */
  lemma {:induction false} DedupSoundPrimary(t: seq<Range>, p: Range)
    requires |t| >= 1 && p in multiset(t)
    ensures DedupFrom([t[0]], p, t, 1).1 in DedupFrom([t[0]], p, t, 1).0
    ensures Within(p, DedupFrom([t[0]], p, t, 1).1)
  {
    DedupStart(t, p);
    DedupPrimary([t[0]], p, t, 1, p);
  }

  /** `normalize`: sorts by start, merges overlapping neighbours and relocates the primary. */
  method Normalize(s: Selection) returns (r: Selection)
    requires |s.ranges| < 2 || Valid(s)
    ensures NormalizedOf(r, s)
  {
    if |s.ranges| < 2 {
      return s;
    }
    var primary := Primary(s);
    var t := SortByFrom(s.ranges);
    assert |t| == |s.ranges| by {
      assert |multiset(t)| == |multiset(s.ranges)|;
    }
    var out;
    out, primary := Dedup(t, primary);
    assert primary in out by {
      DedupSoundPrimary(t, Primary(s));
    }
    var p := IndexOf(out, primary);
    r := Selection(out, p);
    assert Within(Primary(s), Primary(r)) by {
      DedupSoundPrimary(t, Primary(s));
    }
    assert Separated(r.ranges) by {
      DedupSoundSeparated(t, Primary(s));
    }
    assert Covers(r.ranges, s.ranges) by {
      DedupSoundCovers(s.ranges, t, Primary(s));
    }
    assert EndsFrom(r.ranges, s.ranges) by {
      DedupSoundEnds(s.ranges, t, Primary(s));
    }
  }

  /** The `dedup_by` pass of `normalize` over the sorted ranges `t`, tracking the primary. */
  method Dedup(t: seq<Range>, primary: Range) returns (out: seq<Range>, p: Range)
    requires |t| >= 1
    ensures (out, p) == DedupFrom([t[0]], primary, t, 1)
  {
    out, p := [t[0]], primary;
    var i := 1;
    while i < |t|
      invariant 1 <= i <= |t| && |out| >= 1
      invariant DedupFrom(out, p, t, i) == DedupFrom([t[0]], primary, t, 1)
    {
      var curr := t[i];
      var prev := out[|out| - 1];
      if Overlaps(prev, curr) {
        var merged := Merge(curr, prev);
        if prev == p || curr == p {
          p := merged;
        }
        out := out[|out| - 1 := merged];
      } else {
        out := out + [curr];
      }
      i := i + 1;
    }
  }

  /** `position`: the first index holding `x`. */
  method IndexOf(s: seq<Range>, x: Range) returns (p: nat)
    requires x in s
    ensures p < |s| && s[p] == x && x !in s[..p]
  {
    p := 0;
    while s[p] != x
      invariant p < |s| && x in s[p..] && x !in s[..p]
      decreases |s| - p
    {
      assert s[..p + 1] == s[..p] + [s[p]];
      p := p + 1;
    }
  }

  /** `transform`: maps every range through `f`, then normalises. */
  method Transform(s: Selection, f: Range -> Range) returns (r: Selection)
    requires |s.ranges| < 2 || Valid(s)
    ensures NormalizedOf(r, Selection(seq(|s.ranges|, k requires 0 <= k < |s.ranges| => f(s.ranges[k])), s.primaryIndex))
  {
    var ranges := s.ranges;
    var i := 0;
    while i < |ranges|
      invariant i <= |ranges| == |s.ranges|
      invariant forall k :: 0 <= k < i ==> ranges[k] == f(s.ranges[k])
      invariant forall k :: i <= k < |ranges| ==> ranges[k] == s.ranges[k]
    {
      ranges := ranges[i := f(ranges[i])];
      i := i + 1;
    }
    assert ranges == seq(|s.ranges|, k requires 0 <= k < |s.ranges| => f(s.ranges[k]));
    r := Normalize(Selection(ranges, s.primaryIndex));
  }

  /** `push`: the new range becomes the primary, then the selection is normalised. */
  method Push(s: Selection, range: Range) returns (r: Selection)
    ensures NormalizedOf(r, Selection(s.ranges + [range], |s.ranges|))
    ensures |s.ranges| > 0 ==> Valid(r) && Within(range, Primary(r))
  {
    r := Normalize(Selection(s.ranges + [range], |s.ranges|));
  }
}

/**
 * The editing actions of `commands/actions.rs` that work out byte ranges of
 * the focused document and apply them as transactions: deleting lines,
 * deleting left of the cursor, replacing the character under the cursor,
 * opening a line below or above the cursor, and half-page moves.
 *
 * The pane's view is an `EditableText` whose lines are the document's text
 * as graphemes (`DocBytes(v.doc) == d.rope`); an action that changes the
 * document changes the view's lines to match, so that this correspondence
 * holds afterwards too.
 */
module Actions {
  import opened Base
  import opened Text
  import opened EditableTexts
  import Changes
  import Selection
  import Documents

  /** The selection `set_cursor(x, y)` puts on a transaction: a single point at the cursor. */
  function CursorSelection(x: nat, y: nat): Selection.Selection
  {
    Selection.Selection([Selection.Range(Selection.Cursor(x, y), Selection.Cursor(x, y), x)], 0)
  }

  /** The line feed as a grapheme, as `NEW_LINE` is inserted. */
  const LineFeed := Grapheme([NEWLINE], 0, Whitespace)

  /** One change of the byte range `start..end` to `text`, all the actions here need. */
  lemma {:induction false} ReplacedOne(rope: seq<Byte>, start: nat, end: nat, text: Option<seq<Byte>>)
    requires start <= end <= |rope|
    ensures Changes.Ordered([Changes.Change(start, end, text)], 0, |rope|)
    ensures Changes.Replaced(rope, [Changes.Change(start, end, text)], 0)
      == rope[..start] + Changes.TextOf(text) + rope[end..]
  {
    var cs := [Changes.Change(start, end, text)];
    assert cs[1..] == [];
    assert Changes.Replaced(rope, cs[1..], end) == rope[end..];
  }

  /**
   * `Transaction::change` with the one change `start..end` to `text`, carrying
   * `sel`, applied to the document with `apply` (readonly or not); `after`
   * names the text that results.
   */
  method ApplyOne(d: Documents.Document, start: nat, end: nat, text: Option<seq<Byte>>, sel: Selection.Selection, ghost after: seq<Byte>)
    requires d.Valid() && start <= end <= |d.rope|
    requires after == d.rope[..start] + Changes.TextOf(text) + d.rope[end..]
    modifies d
    ensures d.Valid() && d.rope == after
  {
    ReplacedOne(d.rope, start, end, text);
    var t := d.ApplyChanges([Changes.Change(start, end, text)], sel);
  }

  lemma {:induction false} NoText(a: seq<Byte>, b: seq<Byte>)
    ensures a + Changes.TextOf(None) + b == a + b
  {
  }

  lemma {:induction false} Cut3<T>(p: seq<T>, m: seq<T>, q: seq<T>)
    ensures (p + m + q)[..|p|] == p && (p + m + q)[|p| + |m|..] == q
  {
  }

  // ---------------------------------------------------------------------
  // delete_lines
  // ---------------------------------------------------------------------

  /** The line a deletion of `size` lines from line `from` stops before. */
  function LinesTo(doc: seq<Line>, from: nat, size: nat): (to: nat)
    requires from <= |doc|
    ensures from <= to <= |doc|
  {
    Min(from + size, |doc|)
  }

  /** The lines left once lines `from..to` are gone: removing every line leaves one empty line. */
  function LinesLeft(doc: seq<Line>, from: nat, to: nat): (rest: seq<Line>)
    requires from <= to <= |doc|
    ensures |rest| >= 1
    ensures !(from == 0 && to == |doc|) ==> |rest| == |doc| - (to - from)
  {
    if from == 0 && to == |doc| then [[]] else doc[..from] + doc[to..]
  }

  /** The bytes of lines `from..to` end where line `to` starts. */
  lemma {:induction false} LineRangeBytes(doc: seq<Line>, from: nat, to: nat)
    requires from <= to <= |doc|
    ensures ByteOfLine(doc, to) == ByteOfLine(doc, from) + |DocBytes(doc[from..to])|
    ensures DocBytes(doc) == DocBytes(doc[..from]) + DocBytes(doc[from..to]) + DocBytes(doc[to..])
  {
    assert doc[..to] == doc[..from] + doc[from..to];
    DocBytesAppend(doc[..from], doc[from..to]);
    assert doc == doc[..to] + doc[to..];
    DocBytesAppend(doc[..to], doc[to..]);
  }

  /** Deleting the bytes from line `from` to line `to` leaves exactly the other lines. */
  lemma {:induction false} SomeLinesDeleted(doc: seq<Line>, from: nat, to: nat)
    requires from <= to <= |doc|
    ensures ByteOfLine(doc, from) <= ByteOfLine(doc, to) <= |DocBytes(doc)|
    ensures DocBytes(doc)[..ByteOfLine(doc, from)] + DocBytes(doc)[ByteOfLine(doc, to)..]
      == DocBytes(doc[..from] + doc[to..])
  {
    LineRangeBytes(doc, from, to);
    Cut3(DocBytes(doc[..from]), DocBytes(doc[from..to]), DocBytes(doc[to..]));
    DocBytesAppend(doc[..from], doc[to..]);
  }

  /** Deleting every byte but the last of a document leaves its final line feed: one empty line. */
  lemma {:induction false} AllLinesDeleted(doc: seq<Line>)
    requires |doc| >= 1
    ensures 1 <= ByteOfLine(doc, |doc|) == |DocBytes(doc)|
    ensures DocBytes(doc)[..0] + DocBytes(doc)[ByteOfLine(doc, |doc|) - 1..] == DocBytes([[]])
  {
    LineInDoc(doc, |doc| - 1);
    assert doc[..|doc|] == doc;
    assert DocBytes([[]]) == [NEWLINE] by {
      var empty: seq<Line> := [[]];
      assert empty[1..] == [];
      assert LineBytes([]) == [];
    }
  }

  /**
   * `delete_lines`: on a blank document (a lone line feed) nothing happens
   * and the answer is false. Otherwise lines `from` to `from + size`, clamped
   * to the document, are deleted through a transaction applied to the
   * document (readonly or not), except that deleting every line keeps the
   * final line feed.
   */
  method DeleteLines(d: Documents.Document, doc: seq<Line>, from: nat, size: nat, x: nat, y: nat) returns (deleted: bool)
    requires d.Valid() && d.rope == DocBytes(doc) && |doc| >= 1 && from <= |doc|
    modifies d
    ensures d.Valid()
    ensures deleted <==> old(d.rope) != [NEWLINE]
    ensures !deleted ==> d.rope == old(d.rope) && d.transaction == old(d.transaction)
    ensures deleted ==> d.rope == DocBytes(LinesLeft(doc, from, LinesTo(doc, from, size)))
  {
    if d.rope == [NEWLINE] {
      return false;
    }
    var start, end := LinesRange(doc, from, size);
    NoText(d.rope[..start], d.rope[end..]);
    ApplyOne(d, start, end, None, CursorSelection(x, y), DocBytes(LinesLeft(doc, from, LinesTo(doc, from, size))));
    return true;
  }

  /**
   * The bytes `delete_lines` deletes: from the start of line `from` to the
   * end of the last line deleted, one short of it when that is every line.
   */
  method LinesRange(doc: seq<Line>, from: nat, size: nat) returns (start: nat, end: nat)
    requires |doc| >= 1 && from <= |doc|
    ensures start <= end <= |DocBytes(doc)|
    ensures DocBytes(doc)[..start] + DocBytes(doc)[end..] == DocBytes(LinesLeft(doc, from, LinesTo(doc, from, size)))
  {
    var to := Min(from + size, |doc|);
    start := ByteOfLine(doc, from);
    end := start + |DocBytes(doc[from..to])|;
    LineRangeBytes(doc, from, to);
    if start == 0 && to == |doc| {
      AllLinesDeleted(doc);
      end := end - 1;
    } else {
      SomeLinesDeleted(doc, from, to);
    }
  }

  // ---------------------------------------------------------------------
  // delete_to_the_left
  // ---------------------------------------------------------------------

  /** The grapheme left of column `x`: the one before the first grapheme at or past `x`. */
  function LeftOf(l: Line, x: nat): (k: nat)
    requires 0 < x <= Width(l)
    ensures k < |l| && ColumnOf(l, k) < x <= ColumnOf(l, k + 1)
  {
    StepLeftLandsOnGrapheme(l, x);
    AtOrPastFrom(l, 0, 0, x) - 1
  }

  /** The document bytes of grapheme `k` of line `y`. */
  function GraphemeSpan(doc: seq<Line>, y: nat, k: nat): (nat, nat)
    requires y < |doc| && k < |doc[y]|
  {
    (ByteOfLine(doc, y) + OffsetOf(doc[y], k), ByteOfLine(doc, y) + OffsetOf(doc[y], k) + |doc[y][k].bytes|)
  }

  /** A cursor at (x, y) that `delete_to_the_left` can act on: not at the top left. */
  predicate DeletableLeft(doc: seq<Line>, x: nat, y: nat)
  {
    y < |doc| && x <= Width(doc[y]) && (x > 0 || y > 0)
  }

  /** The bytes `delete_to_the_left` names: the grapheme left of the cursor, or the line feed before its line. */
  function LeftSpan(doc: seq<Line>, x: nat, y: nat): (nat, nat)
    requires DeletableLeft(doc, x, y)
  {
    if x > 0 then GraphemeSpan(doc, y, LeftOf(doc[y], x))
    else (SatSub(ByteOfLine(doc, y), 1), ByteOfLine(doc, y))
  }

  /** The lines once that range is deleted: without the grapheme, or with the line joined onto the one before. */
  function DeletedLeft(doc: seq<Line>, x: nat, y: nat): seq<Line>
    requires DeletableLeft(doc, x, y)
  {
    if x > 0 then WithoutGrapheme(doc, y, LeftOf(doc[y], x)) else JoinedWithPrevious(doc, y)
  }

  /** Deleting the range `delete_to_the_left` names deletes exactly that grapheme or line feed from the lines. */
  lemma {:induction false} DeletedLeftBytes(doc: seq<Line>, x: nat, y: nat)
    requires DeletableLeft(doc, x, y)
    ensures LeftSpan(doc, x, y).0 <= LeftSpan(doc, x, y).1 <= |DocBytes(doc)|
    ensures DocBytes(DeletedLeft(doc, x, y)) == DocBytes(doc)[..LeftSpan(doc, x, y).0] + DocBytes(doc)[LeftSpan(doc, x, y).1..]
  {
    if x > 0 {
      WithoutGraphemeBytes(doc, y, LeftOf(doc[y], x));
    } else {
      JoinedBytes(doc, y);
    }
  }

  /** Where `delete_to_the_left` leaves the cursor is on the lines left after the deletion. */
  lemma {:induction false} DeletedLeftRoom(doc: seq<Line>, x: nat, y: nat, cx: nat, cy: nat)
    requires DeletableLeft(doc, x, y)
    requires x > 0 ==> cy == y && cx == ColumnOf(doc[y], LeftOf(doc[y], x))
    requires x == 0 ==> cy == y - 1 && cx <= Width(doc[y - 1])
    ensures |DeletedLeft(doc, x, y)| >= 1 && cy < |DeletedLeft(doc, x, y)| && cx <= Width(DeletedLeft(doc, x, y)[cy])
  {
    if x > 0 {
      WithoutGraphemeWidth(doc, y, LeftOf(doc[y], x));
    } else {
      JoinedWidth(doc, y);
    }
  }

  /** Stepping back from inside grapheme `k`, in either mode, lands on its start. */
  lemma {:induction false} StepBackOnto(l: Line, x: nat, mode: Mode)
    requires 0 < x <= Width(l) && Editing(mode)
    ensures Min(Selection.MaxCursorX(l, mode), x - 1) == x - 1
    ensures (if x - 1 > 0 then Aligned(l, x - 1, true, false, mode) else 0) == ColumnOf(l, LeftOf(l, x))
  {
    var k := LeftOf(l, x);
    assert ColumnOf(l, 0) == 0 by { assert l[..0] == []; }
    if x - 1 > 0 {
      AlignBackInside(l, 0, 0, x - 1, k, false, mode != Insert);
    } else {
      ColumnMono(l, 0, k);
    }
  }

  /**
   * `delete_to_the_left` of the actions: the byte range to delete, with the
   * cursor moved first. Inside a line it is the grapheme left of the cursor,
   * and the cursor goes to its start; at the start of a later line it is the
   * line feed before the line, and the cursor goes to the end of the
   * previous line; at the top left it is None and nothing moves.
   */
  method DeleteToTheLeft(v: EditableText, mode: Mode) returns (r: Option<(nat, nat)>)
    requires v.Valid() && Editing(mode)
    modifies v
    ensures v.Valid() && v.doc == old(v.doc)
    ensures r.None? <==> !DeletableLeft(v.doc, old(v.cursorX), old(v.cursorY))
    ensures r.None? ==> v.cursorX == old(v.cursorX) && v.cursorY == old(v.cursorY) && v.stickyX == old(v.stickyX)
    ensures r.Some? ==> r.value == LeftSpan(v.doc, old(v.cursorX), old(v.cursorY))
    ensures old(v.cursorX) > 0 ==>
      v.cursorY == old(v.cursorY) && v.cursorX == ColumnOf(v.doc[v.cursorY], LeftOf(v.doc[v.cursorY], old(v.cursorX)))
    ensures old(v.cursorX) == 0 && old(v.cursorY) > 0 ==> v.cursorY == old(v.cursorY) - 1
  {
    if v.cursorX > 0 {
      var doc, y, x := v.doc, v.cursorY, v.cursorX;
      var idx := v.GraphemeAtCursor();
      var k := idx - 1;
      assert k == LeftOf(doc[y], x);
      var start, end := GraphemeRange(doc, y, k);
      StepBackOnto(doc[y], x, mode);
      v.CursorLeft(mode);
      return Some((start, end));
    } else if v.cursorY > 0 {
      var y := v.cursorY;
      var to := ByteOfLine(v.doc, y);
      var from := SatSub(to, 1);
      v.MoveCursorTo(Some(Width(v.doc[y - 1])), Some(y - 1), mode);
      return Some((from, to));
    }
    return None;
  }

  /** The scan of `delete_to_the_left` for the bytes of grapheme `k` of line `y`. */
  method GraphemeRange(doc: seq<Line>, y: nat, k: nat) returns (start: nat, end: nat)
    requires y < |doc| && k < |doc[y]|
    ensures (start, end) == GraphemeSpan(doc, y, k)
  {
    var l := doc[y];
    start := ByteOfLine(doc, y);
    var i := 0;
    assert l[..0] == [];
    while i < k
      invariant i <= k && start == ByteOfLine(doc, y) + OffsetOf(l, i)
    {
      ColumnOffsetStep(l, i);
      start := start + |l[i].bytes|;
      i := i + 1;
    }
    end := start + |l[k].bytes|;
  }

  /**
   * `delete_symbol_to_the_left`: the range `delete_to_the_left` names is
   * deleted from the document through a transaction carrying the moved
   * cursor, and the view's lines lose that grapheme or join the two lines.
   */
  method DeleteSymbolToTheLeft(d: Documents.Document, v: EditableText, mode: Mode)
    requires d.Valid() && v.Valid() && Editing(mode) && d.rope == DocBytes(v.doc)
    modifies d, v
    ensures d.Valid() && v.Valid() && d.rope == DocBytes(v.doc)
    ensures !DeletableLeft(old(v.doc), old(v.cursorX), old(v.cursorY)) ==> d.rope == old(d.rope) && v.doc == old(v.doc)
    ensures DeletableLeft(old(v.doc), old(v.cursorX), old(v.cursorY)) ==>
      v.doc == DeletedLeft(old(v.doc), old(v.cursorX), old(v.cursorY))
  {
    var x0, y0, lines := v.cursorX, v.cursorY, v.doc;
    var r := DeleteToTheLeft(v, mode);
    if r.None? {
      return;
    }
    DeletedLeftBytes(lines, x0, y0);
    DeletedLeftRoom(lines, x0, y0, v.cursorX, v.cursorY);
    NoText(d.rope[..r.value.0], d.rope[r.value.1..]);
    ApplyOne(d, r.value.0, r.value.1, None, CursorSelection(v.cursorX, v.cursorY), DocBytes(DeletedLeft(lines, x0, y0)));
    v.doc := DeletedLeft(lines, x0, y0);
  }

  // ---------------------------------------------------------------------
  // append_or_replace_character
  // ---------------------------------------------------------------------

  /** A grapheme index that `AtOrPastFrom` stops at inside the line starts at or past the column. */
  lemma {:induction false} AtOrPastReaches(l: Line, i: nat, x: nat)
    requires i <= |l|
    ensures AtOrPastFrom(l, i, ColumnOf(l, i), x) < |l| ==> ColumnOf(l, AtOrPastFrom(l, i, ColumnOf(l, i), x)) >= x
    decreases |l| - i
  {
    if i < |l| && ColumnOf(l, i) < x {
      ColumnOffsetStep(l, i);
      AtOrPastReaches(l, i + 1, x);
    }
  }

  /**
   * The document after `append_or_replace_character` puts `g` at grapheme
   * `i` of line `y`: in place of that grapheme, or after the line's last
   * one when `i` is the line's end.
   */
  function ReplacedAt(doc: seq<Line>, y: nat, i: nat, g: Grapheme): seq<Line>
    requires y < |doc| && i <= |doc[y]|
  {
    if i < |doc[y]| then Inserted(WithoutGrapheme(doc, y, i), y, i, g) else Inserted(doc, y, i, g)
  }

  /** The bytes `append_or_replace_character` overwrites: those of grapheme `i`, or none at the line's end. */
  function ReplaceSpan(doc: seq<Line>, y: nat, i: nat): (nat, nat)
    requires y < |doc| && i <= |doc[y]|
  {
    if i < |doc[y]| then GraphemeSpan(doc, y, i)
    else (ByteOfLine(doc, y) + |LineBytes(doc[y])|, ByteOfLine(doc, y) + |LineBytes(doc[y])|)
  }

  /** Replacing at grapheme `i` writes `g`'s bytes over exactly the bytes of `ReplaceSpan`. */
  lemma {:induction false} ReplacedBytes(doc: seq<Line>, y: nat, i: nat, g: Grapheme)
    requires y < |doc| && i <= |doc[y]|
    ensures ReplaceSpan(doc, y, i).0 <= ReplaceSpan(doc, y, i).1 <= |DocBytes(doc)|
    ensures DocBytes(ReplacedAt(doc, y, i, g))
      == DocBytes(doc)[..ReplaceSpan(doc, y, i).0] + g.bytes + DocBytes(doc)[ReplaceSpan(doc, y, i).1..]
  {
    if i < |doc[y]| {
      var w := WithoutGrapheme(doc, y, i);
      WithoutGraphemeBytes(doc, y, i);
      assert w[..y] == doc[..y];
      assert w[y][..i] == doc[y][..i];
      InsertedBytes(w, y, i, g);
    } else {
      assert doc[y][..|doc[y]|] == doc[y];
      InsertedBytes(doc, y, |doc[y]|, g);
    }
  }

  /** The cursor's line still reaches the cursor's column after the replacement. */
  lemma {:induction false} ReplacedKeepsCursor(doc: seq<Line>, y: nat, x: nat, g: Grapheme)
    requires y < |doc| && x <= Width(doc[y])
    ensures |ReplacedAt(doc, y, AtOrPastFrom(doc[y], 0, 0, x), g)| >= |doc|
    ensures x <= Width(ReplacedAt(doc, y, AtOrPastFrom(doc[y], 0, 0, x), g)[y])
  {
    var l, i := doc[y], AtOrPastFrom(doc[y], 0, 0, x);
    assert ColumnOf(l, 0) == 0 by { assert l[..0] == []; }
    AtOrPastReaches(l, 0, x);
    if i < |l| {
      var w := WithoutGrapheme(doc, y, i);
      assert w[y][..i] == l[..i];
      SplitAt(w[y], i);
      WidthAppend(w[y][..i], w[y][i..]);
      if g.bytes != [NEWLINE] {
        WidthAppend(w[y][..i] + [g], w[y][i..]);
        WidthAppend(w[y][..i], [g]);
      }
    } else {
      SplitAt(l, i);
      WidthAppend(l[..i], l[i..]);
      if g.bytes != [NEWLINE] {
        WidthAppend(l[..i] + [g], l[i..]);
        WidthAppend(l[..i], [g]);
      }
    }
  }

  /**
   * The scan of `append_or_replace_character`: from the start of line `y`,
   * the first grapheme at or past column `x` is the one to replace; past the
   * line's last grapheme the range is empty at the line's end.
   */
  method ReplaceRange(doc: seq<Line>, y: nat, x: nat) returns (start: nat, end: nat)
    requires y < |doc|
    ensures (start, end) == ReplaceSpan(doc, y, AtOrPastFrom(doc[y], 0, 0, x))
  {
    var l := doc[y];
    start := ByteOfLine(doc, y);
    end := start;
    var col: nat := 0;
    var i := 0;
    assert l[..0] == [];
    while i < |l|
      invariant i <= |l| && start == ByteOfLine(doc, y) + OffsetOf(l, i) && end == ByteOfLine(doc, y)
      invariant AtOrPastFrom(l, i, col, x) == AtOrPastFrom(l, 0, 0, x)
    {
      if col >= x {
        end := start + |l[i].bytes|;
        break;
      }
      ColumnOffsetStep(l, i);
      col := col + l[i].width;
      start := start + |l[i].bytes|;
      i := i + 1;
    }
    if i == |l| {
      assert l[..|l|] == l;
    }
    end := Max(end, start);
  }

  /**
   * `append_or_replace_character`: `g`, the typed character, takes the place
   * of the grapheme at or past the cursor's column, or goes at the line's
   * end when there is none, through a transaction applied to the document;
   * the cursor then moves one column right on the changed line.
   */
  method AppendOrReplaceCharacter(d: Documents.Document, v: EditableText, g: Grapheme, mode: Mode)
    requires d.Valid() && v.Valid() && d.rope == DocBytes(v.doc) && Editing(mode)
    modifies d, v
    ensures d.Valid() && v.Valid() && d.rope == DocBytes(v.doc)
    ensures v.doc == ReplacedAt(old(v.doc), old(v.cursorY), AtOrPastFrom(old(v.doc)[old(v.cursorY)], 0, 0, old(v.cursorX)), g)
    ensures v.cursorY == old(v.cursorY) && v.stickyX == v.cursorX
    ensures var l := v.doc[v.cursorY];
      var nx := Min(Selection.MaxCursorX(l, mode), old(v.cursorX) + 1);
      var dir := Selection.MoveDirection(old(v.cursorX), v.cursorY, nx, v.cursorY);
      v.cursorX == if nx > 0 then Aligned(l, nx, GoesBack(dir), GoesOn(dir), mode) else 0
  {
    var lines, y, x := v.doc, v.cursorY, v.cursorX;
    var i := AtOrPastFrom(lines[y], 0, 0, x);
    var start, end := ReplaceRange(lines, y, x);
    ReplacedBytes(lines, y, i, g);
    ReplacedKeepsCursor(lines, y, x, g);
    ApplyOne(d, start, end, Some(g.bytes), CursorSelection(x, y), DocBytes(ReplacedAt(lines, y, i, g)));
    v.doc := ReplacedAt(lines, y, i, g);
    v.CursorRight(mode);
  }

  // ---------------------------------------------------------------------
  // insert_line_below / insert_line_above
  // ---------------------------------------------------------------------

  /** A line feed at the end of line `y` opens an empty line below it. */
  lemma {:induction false} OpenedBelow(doc: seq<Line>, y: nat)
    requires y < |doc|
    ensures ByteOfLine(doc, y) + |LineBytes(doc[y])| <= |DocBytes(doc)|
    ensures DocBytes(doc[..y + 1] + [[]] + doc[y + 1..])
      == DocBytes(doc)[..ByteOfLine(doc, y) + |LineBytes(doc[y])|] + [NEWLINE] + DocBytes(doc)[ByteOfLine(doc, y) + |LineBytes(doc[y])|..]
  {
    assert doc[y][..|doc[y]|] == doc[y] && doc[y][|doc[y]|..] == [];
    assert doc[..y] + [doc[y], []] + doc[y + 1..] == doc[..y + 1] + [[]] + doc[y + 1..];
    InsertedBytes(doc, y, |doc[y]|, LineFeed);
  }

  /** A line feed at the start of line `y` opens an empty line above it. */
  lemma {:induction false} OpenedAbove(doc: seq<Line>, y: nat)
    requires y < |doc|
    ensures ByteOfLine(doc, y) <= |DocBytes(doc)|
    ensures DocBytes(doc[..y] + [[]] + doc[y..])
      == DocBytes(doc)[..ByteOfLine(doc, y)] + [NEWLINE] + DocBytes(doc)[ByteOfLine(doc, y)..]
  {
    assert doc[y][..0] == [] && doc[y][0..] == doc[y];
    assert doc[..y] + [[], doc[y]] + doc[y + 1..] == doc[..y] + [[]] + doc[y..];
    assert LineBytes([]) == [];
    InsertedBytes(doc, y, 0, LineFeed);
  }

  /**
   * `insert_line_below`: in Insert mode, a line feed goes in at the end of
   * the cursor's line, and the cursor moves down onto the new empty line.
   */
  method InsertLineBelow(d: Documents.Document, v: EditableText)
    requires d.Valid() && v.Valid() && d.rope == DocBytes(v.doc)
    modifies d, v
    ensures d.Valid() && v.Valid() && d.rope == DocBytes(v.doc)
    ensures v.doc == old(v.doc)[..old(v.cursorY) + 1] + [[]] + old(v.doc)[old(v.cursorY) + 1..]
    ensures v.cursorY == old(v.cursorY) + 1 && v.cursorX == 0
  {
    var lines, y := v.doc, v.cursorY;
    var offset := ByteOfLine(lines, y) + |LineBytes(lines[y])|;
    OpenedBelow(lines, y);
    ApplyOne(d, offset, offset, Some([NEWLINE]), CursorSelection(v.cursorX, y), DocBytes(lines[..y + 1] + [[]] + lines[y + 1..]));
    v.doc := lines[..y + 1] + [[]] + lines[y + 1..];
    assert v.doc[y] == lines[y] && v.doc[y + 1] == [];
    v.CursorDown(Insert);
  }

  /**
   * `insert_line_above`: in Insert mode, a line feed goes in at the start of
   * the cursor's line, and the cursor moves to column 0, which is now on the
   * new empty line.
   */
  method InsertLineAbove(d: Documents.Document, v: EditableText)
    requires d.Valid() && v.Valid() && d.rope == DocBytes(v.doc)
    modifies d, v
    ensures d.Valid() && v.Valid() && d.rope == DocBytes(v.doc)
    ensures v.doc == old(v.doc)[..old(v.cursorY)] + [[]] + old(v.doc)[old(v.cursorY)..]
    ensures v.cursorY == old(v.cursorY) && v.cursorX == 0
  {
    var lines, y := v.doc, v.cursorY;
    var offset := ByteOfLine(lines, y);
    OpenedAbove(lines, y);
    ApplyOne(d, offset, offset, Some([NEWLINE]), CursorSelection(v.cursorX, y), DocBytes(lines[..y] + [[]] + lines[y..]));
    v.doc := lines[..y] + [[]] + lines[y..];
    assert v.doc[y] == [];
    // the view keeps its column on its line; the move below puts it at 0 whatever it was
    v.cursorX := 0;
    v.MoveCursorTo(Some(0), None, Insert);
  }

  // ---------------------------------------------------------------------
  // Half-page moves
  // ---------------------------------------------------------------------

  /** `half_page_up`: the cursor goes up half the pane's height, saturating at the first line. */
  method HalfPageUp(v: EditableText, height: U16, mode: Mode)
    requires v.Valid() && Editing(mode)
    modifies v
    ensures v.Valid() && v.doc == old(v.doc)
    ensures v.cursorY == SatSub(old(v.cursorY), height / 2) && v.stickyX == old(v.stickyX)
  {
    var half := height / 2;
    var y := SatSub(v.cursorY, half);
    v.MoveCursorTo(None, Some(y), mode);
  }

  /** `half_page_down`: the cursor goes down half the pane's height, clamped to the last line. */
  method HalfPageDown(v: EditableText, height: U16, mode: Mode)
    requires v.Valid() && Editing(mode)
    modifies v
    ensures v.Valid() && v.doc == old(v.doc)
    ensures v.cursorY == Min(|v.doc| - 1, old(v.cursorY) + height / 2) && v.stickyX == old(v.stickyX)
  {
    var half := height / 2;
    var y := v.cursorY + half;
    v.MoveCursorTo(None, Some(y), mode);
  }
}

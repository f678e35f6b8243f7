/**
 * An editable text with one cursor (`editable_text.rs`): the cursor's
 * column and line, the column vertical moves return to, and the edits
 * made at the cursor.
 *
 * The file's mode match knows only Normal and Insert, so every operation
 * here takes one of those two modes.
 */
module EditableTexts {
  import opened Base
  import opened Text
  import Selection
  import TextObjects

  /** The two modes `editable_text.rs` distinguishes. */
  predicate Editing(mode: Mode)
  {
    mode == Normal || mode == Insert
  }

  /** A move goes to the start of a grapheme it lands inside: any vertical move, or a move left. */
  predicate GoesBack(d: Selection.Direction)
  {
    d.vertical.Some? || d.horizontal == Some(Selection.Left)
  }

  /** A move right goes to the end of a grapheme it lands inside. */
  predicate GoesOn(d: Selection.Direction)
  {
    d.horizontal == Some(Selection.Right)
  }

  /**
   * The column `move_cursor_to(Some(x), …)` leaves on line `l` for a cursor
   * coming from column `fromX` of line `fromY` to line `toY`: `x` clamped to
   * the line's last cursor column, then moved to a grapheme edge in the
   * direction of the move.
   */
  function MovedColumn(l: Line, fromX: nat, fromY: nat, x: nat, toY: nat, mode: Mode): nat
  {
    var nx := Min(Selection.MaxCursorX(l, mode), x);
    var d := Selection.MoveDirection(fromX, fromY, nx, toY);
    if nx > 0 then Aligned(l, nx, GoesBack(d), GoesOn(d), mode) else 0
  }

  // ---------------------------------------------------------------------
  // Grapheme alignment
  // ---------------------------------------------------------------------

  /**
   * The column `ensure_cursor_is_on_grapheme_boundary` settles on for a
   * cursor at column `x`, scanning from grapheme `i` at column `col`. A
   * column inside a grapheme moves to its start when going back and to its
   * end when going on, except that inside the last grapheme it moves back
   * to the start when `backOnLast` holds.
   */
  function AlignFrom(l: Line, i: nat, col: nat, x: nat, back: bool, on: bool, backOnLast: bool): nat
    requires i <= |l|
    decreases |l| - i
  {
    if i == |l| then x
    else
      var nextStart := col + l[i].width;
      if col < x < nextStart then
        if back then col
        else if on then (if i + 1 == |l| && backOnLast then col else nextStart)
        else x
      else AlignFrom(l, i + 1, nextStart, x, back, on, backOnLast)
  }

  /** The alignment as written: the last grapheme sends a move right back to its start in Insert mode. */
  function AlignedAsWritten(l: Line, x: nat, back: bool, on: bool, mode: Mode): nat
  {
    AlignFrom(l, 0, 0, x, back, on, mode == Insert)
  }

  /** The alignment as `selection.rs` has it: the last grapheme sends a move right back to its start outside Insert mode. */
  function Aligned(l: Line, x: nat, back: bool, on: bool, mode: Mode): nat
  {
    AlignFrom(l, 0, 0, x, back, on, mode != Insert)
  }

  lemma {:induction false} LastColumn(l: Line)
    requires l != []
    ensures ColumnOf(l, |l| - 1) + l[|l| - 1].width == Width(l)
  {
    ColumnOffsetStep(l, |l| - 1);
    assert l[..|l|] == l;
  }

  lemma {:induction false} AlignFromFacts(l: Line, i: nat, col: nat, x: nat, back: bool, on: bool, backOnLast: bool)
    requires i <= |l| && col == ColumnOf(l, i)
    ensures back ==> AlignFrom(l, i, col, x, back, on, backOnLast) <= x
    ensures x <= Width(l) ==> AlignFrom(l, i, col, x, back, on, backOnLast) <= Width(l)
    ensures PositiveWidths(l) && backOnLast && x <= SatSub(Width(l), 1) ==>
      AlignFrom(l, i, col, x, back, on, backOnLast) <= SatSub(Width(l), 1)
    decreases |l| - i
  {
    if i < |l| {
      ColumnOffsetStep(l, i);
      ColumnMono(l, i + 1, |l|);
      if i + 1 < |l| {
        ColumnMono(l, i + 1, |l| - 1);
        LastColumn(l);
      }
      AlignFromFacts(l, i + 1, col + l[i].width, x, back, on, backOnLast);
    }
  }

  /** A move back from inside grapheme `k` lands on the start of grapheme `k`. */
  lemma {:induction false} AlignBackInside(l: Line, i: nat, col: nat, x: nat, k: nat, on: bool, backOnLast: bool)
    requires i <= k < |l| && col == ColumnOf(l, i)
    requires ColumnOf(l, k) <= x < ColumnOf(l, k + 1)
    ensures AlignFrom(l, i, col, x, true, on, backOnLast) == ColumnOf(l, k)
    decreases |l| - i
  {
    ColumnOffsetStep(l, i);
    if i < k {
      ColumnMono(l, i + 1, k);
      AlignBackInside(l, i + 1, col + l[i].width, x, k, on, backOnLast);
    } else if col == x {
      AlignAtStart(l, i + 1, x, i, true, on, backOnLast);
    }
  }

  /**
   * The corrected alignment keeps the cursor within the line's cursor
   * range: a cursor that started in range stays in range, in both modes.
   */
  lemma {:induction false} AlignedInRange(l: Line, x: nat, back: bool, on: bool, mode: Mode)
    requires Editing(mode) && x <= Selection.MaxCursorX(l, mode)
    ensures Aligned(l, x, back, on, mode) <= Width(l)
    ensures PositiveWidths(l) ==> Aligned(l, x, back, on, mode) <= Selection.MaxCursorX(l, mode)
  {
    assert ColumnOf(l, 0) == 0 by { assert l[..0] == []; }
    AlignFromFacts(l, 0, 0, x, back, on, mode != Insert);
  }

  /**
   * As written, a move right into a wide last grapheme goes past the last
   * column in Normal mode, and in Insert mode cannot get past the grapheme.
   */
  lemma {:induction false} AlignedAsWrittenLeavesRange()
    ensures var wide := [Grapheme([0xF0, 0x9F, 0x98, 0x80], 2, Other)];
      && AlignedAsWritten(wide, 1, false, true, Normal) == 2
      && Selection.MaxCursorX(wide, Normal) == 1
      && AlignedAsWritten(wide, 1, false, true, Insert) == 0
      && Aligned(wide, 1, false, true, Normal) == 0
      && Aligned(wide, 1, false, true, Insert) == 2
  {
    var wide := [Grapheme([0xF0, 0x9F, 0x98, 0x80], 2, Other)];
    assert Width(wide) == 2 by { assert wide[1..] == []; }
  }

  // ---------------------------------------------------------------------
  // Graphemes at the cursor
  // ---------------------------------------------------------------------

  /** The grapheme starting exactly at column `x`, scanning from grapheme `i` at column `col`, or the line's end. */
  function IndexAtFrom(l: Line, i: nat, col: nat, x: nat): (j: nat)
    requires i <= |l|
    ensures i <= j <= |l|
    decreases |l| - i
  {
    if i == |l| then |l| else if col == x then i else IndexAtFrom(l, i + 1, col + l[i].width, x)
  }

  function IndexAt(l: Line, x: nat): (j: nat)
    ensures j <= |l|
  {
    IndexAtFrom(l, 0, 0, x)
  }

  lemma {:induction false} IndexAtOffset(l: Line, i: nat, col: nat, x: nat, mode: Mode)
    requires i <= |l| && mode != Select
    ensures var j := IndexAtFrom(l, i, col, x);
      Selection.ColumnByteFrom(l, i, col, x, mode) == if j < |l| then Some(OffsetOf(l, j)) else None
    decreases |l| - i
  {
    if i < |l| && col != x {
      IndexAtOffset(l, i + 1, col + l[i].width, x, mode);
    }
  }

  /** Outside Select mode, `byte_offset_at_cursor` is the offset of the grapheme at the cursor's column within the document. */
  lemma {:induction false} CursorOffsetAtIndex(doc: seq<Line>, x: nat, y: nat, mode: Mode)
    requires y < |doc| && mode != Select
    ensures Selection.CursorByteOffset(doc, Selection.Cursor(x, y), mode)
      == ByteOfLine(doc, y) + OffsetOf(doc[y], IndexAt(doc[y], x))
  {
    IndexAtOffset(doc[y], 0, 0, x, mode);
    assert doc[y][..|doc[y]|] == doc[y];
  }

  /** `grapheme_at_cursor().0`: the first grapheme starting at or past column `x`, or the line's end. */
  function AtOrPastFrom(l: Line, i: nat, col: nat, x: nat): (j: nat)
    requires i <= |l|
    ensures i <= j <= |l|
    decreases |l| - i
  {
    if i == |l| then |l| else if col >= x then i else AtOrPastFrom(l, i + 1, col + l[i].width, x)
  }

  /** For a column inside the line past its first grapheme, the grapheme before that index is the one left of the cursor. */
  lemma {:induction false} AtOrPastBrackets(l: Line, i: nat, x: nat)
    requires i < |l| && ColumnOf(l, i) < x <= Width(l)
    ensures var j := AtOrPastFrom(l, i, ColumnOf(l, i), x);
      i < j <= |l| && ColumnOf(l, j - 1) < x <= ColumnOf(l, j)
    decreases |l| - i
  {
    ColumnOffsetStep(l, i);
    assert l[..|l|] == l;
    if i + 1 < |l| && ColumnOf(l, i + 1) < x {
      AtOrPastBrackets(l, i + 1, x);
    }
  }

  // ---------------------------------------------------------------------
  // Edits of the document
  // ---------------------------------------------------------------------

  lemma {:induction false} DocSplice(pre: seq<Line>, mid: seq<Line>, post: seq<Line>)
    ensures DocBytes(pre + mid + post) == DocBytes(pre) + DocBytes(mid) + DocBytes(post)
  {
    DocBytesAppend(pre + mid, post);
    DocBytesAppend(pre, mid);
  }

  lemma {:induction false} DocOne(m: Line)
    ensures DocBytes([m]) == LineBytes(m) + [NEWLINE]
  {
    assert [m][1..] == [];
  }

  lemma {:induction false} DocTwo(a: Line, b: Line)
    ensures DocBytes([a, b]) == LineBytes(a) + [NEWLINE] + LineBytes(b) + [NEWLINE]
  {
    assert [a, b] == [a] + [b];
    DocBytesAppend([a], [b]);
    DocOne(a);
    DocOne(b);
  }

  lemma {:induction false} LineOne(g: Grapheme)
    ensures LineBytes([g]) == g.bytes
  {
    assert [g][1..] == [];
  }

  /** The bytes of a line with `g` put in before grapheme `i`. */
  lemma {:induction false} LineInserted(l: Line, i: nat, g: Grapheme)
    requires i <= |l|
    ensures LineBytes(l[..i] + [g] + l[i..]) == LineBytes(l[..i]) + g.bytes + LineBytes(l[i..])
  {
    LineBytesAppend(l[..i] + [g], l[i..]);
    LineBytesAppend(l[..i], [g]);
    LineOne(g);
  }

  /** The bytes of a line around grapheme `k`, and without it. */
  lemma {:induction false} LineAround(l: Line, k: nat)
    requires k < |l|
    ensures LineBytes(l) == LineBytes(l[..k]) + l[k].bytes + LineBytes(l[k + 1..])
    ensures LineBytes(l[..k] + l[k + 1..]) == LineBytes(l[..k]) + LineBytes(l[k + 1..])
  {
    SplitAround(l, k);
    LineBytesAppend(l[..k] + [l[k]], l[k + 1..]);
    LineBytesAppend(l[..k], [l[k]]);
    LineOne(l[k]);
    LineBytesAppend(l[..k], l[k + 1..]);
  }

  /** Splicing bytes `g` into line bytes `a + b`, as seen in the whole document. */
  lemma {:induction false} InsertConclude(w: seq<Byte>, v: seq<Byte>, p: seq<Byte>, l: seq<Byte>, a: seq<Byte>, b: seq<Byte>, s: seq<Byte>, g: seq<Byte>, m: seq<Byte>)
    requires w == p + l + ([NEWLINE] + s) && l == a + b
    requires v == p + m + s && m == a + g + b + [NEWLINE]
    ensures |p + a| <= |w| && v == w[..|p + a|] + g + w[|p + a|..]
  {
    assert w == (p + a) + (b + [NEWLINE] + s);
    assert v == (p + a) + g + (b + [NEWLINE] + s);
  }

  /** Cutting bytes `g` out of line bytes `a + g + c`, as seen in the whole document. */
  lemma {:induction false} RemoveConclude(w: seq<Byte>, v: seq<Byte>, p: seq<Byte>, l: seq<Byte>, a: seq<Byte>, g: seq<Byte>, c: seq<Byte>, s: seq<Byte>, m: seq<Byte>, lm: seq<Byte>)
    requires w == p + l + ([NEWLINE] + s) && l == a + g + c
    requires v == p + m + s && m == lm + [NEWLINE] && lm == a + c
    ensures |p + a| + |g| <= |w| && v == w[..|p + a|] + w[|p + a| + |g|..]
  {
    assert w == (p + a) + g + (c + [NEWLINE] + s);
    assert v == (p + a) + (c + [NEWLINE] + s);
    assert w[..|p + a|] == p + a;
    assert w[|p + a| + |g|..] == c + [NEWLINE] + s;
  }

  /** Cutting the line feed that ends prefix `x`, as seen in the whole document. */
  lemma {:induction false} JoinConclude(w: seq<Byte>, v: seq<Byte>, x: seq<Byte>, p: seq<Byte>, a: seq<Byte>, b: seq<Byte>, s: seq<Byte>, m: seq<Byte>, lm: seq<Byte>)
    requires x == p + a + [NEWLINE] && w == x + b + ([NEWLINE] + s)
    requires v == p + m + s && m == lm + [NEWLINE] && lm == a + b
    ensures 1 <= |x| <= |w| && v == w[..|x| - 1] + w[|x|..]
  {
    assert w == (p + a) + [NEWLINE] + (b + [NEWLINE] + s);
    assert v == (p + a) + (b + [NEWLINE] + s);
    assert w[..|x| - 1] == p + a;
    assert w[|x|..] == b + [NEWLINE] + s;
  }

  /** Sequence identities, kept apart from the byte functions so that proving them stays cheap. */
  lemma {:induction false} SplitAt<T>(s: seq<T>, i: nat)
    requires i <= |s|
    ensures s == s[..i] + s[i..]
  {
  }

  lemma {:induction false} SplitAround<T>(s: seq<T>, k: nat)
    requires k < |s|
    ensures s[..k + 1] == s[..k] + [s[k]]
    ensures s == s[..k + 1] + s[k + 1..]
    ensures s == s[..k] + [s[k]] + s[k + 1..]
  {
  }

  lemma {:induction false} Assoc(x: seq<Byte>, l: seq<Byte>, r: seq<Byte>)
    ensures x + (l + [NEWLINE]) + r == x + l + ([NEWLINE] + r)
  {
  }

  lemma {:induction false} DocAround(doc: seq<Line>, y: nat)
    requires y < |doc|
    ensures DocBytes(doc) == DocBytes(doc[..y]) + LineBytes(doc[y]) + ([NEWLINE] + DocBytes(doc[y + 1..]))
  {
    SplitAround(doc, y);
    DocBytesAppend(doc[..y], [doc[y]]);
    DocBytesAppend(doc[..y + 1], doc[y + 1..]);
    DocOne(doc[y]);
    Assoc(DocBytes(doc[..y]), LineBytes(doc[y]), DocBytes(doc[y + 1..]));
  }

  lemma {:induction false} LineSplit(l: Line, i: nat)
    requires i <= |l|
    ensures LineBytes(l) == LineBytes(l[..i]) + LineBytes(l[i..])
  {
    SplitAt(l, i);
    LineBytesAppend(l[..i], l[i..]);
  }

  /** The document after inserting grapheme `g` before grapheme `i` of line `y`; a line feed splits the line. */
  function Inserted(doc: seq<Line>, y: nat, i: nat, g: Grapheme): seq<Line>
    requires y < |doc| && i <= |doc[y]|
  {
    var l := doc[y];
    if g.bytes == [NEWLINE] then doc[..y] + [l[..i], l[i..]] + doc[y + 1..]
    else doc[..y] + [l[..i] + [g] + l[i..]] + doc[y + 1..]
  }

  /** Inserting a grapheme inserts exactly its bytes at the grapheme's offset in the document. */
  lemma {:induction false} InsertedBytes(doc: seq<Line>, y: nat, i: nat, g: Grapheme)
    requires y < |doc| && i <= |doc[y]|
    ensures var off := ByteOfLine(doc, y) + OffsetOf(doc[y], i);
      && off <= |DocBytes(doc)|
      && DocBytes(Inserted(doc, y, i, g)) == DocBytes(doc)[..off] + g.bytes + DocBytes(doc)[off..]
  {
    if g.bytes == [NEWLINE] {
      SplitLineBytes(doc, y, i, g);
    } else {
      InsertedGraphemeBytes(doc, y, i, g);
    }
  }

  lemma {:induction false} InsertedGraphemeBytes(doc: seq<Line>, y: nat, i: nat, g: Grapheme)
    requires y < |doc| && i <= |doc[y]| && g.bytes != [NEWLINE]
    ensures var off := ByteOfLine(doc, y) + OffsetOf(doc[y], i);
      && off <= |DocBytes(doc)|
      && DocBytes(Inserted(doc, y, i, g)) == DocBytes(doc)[..off] + g.bytes + DocBytes(doc)[off..]
  {
    var l := doc[y];
    var w, v := DocBytes(doc), DocBytes(Inserted(doc, y, i, g));
    var p, ll, s := DocBytes(doc[..y]), LineBytes(l), DocBytes(doc[y + 1..]);
    var a, b := LineBytes(l[..i]), LineBytes(l[i..]);
    assert w == p + ll + ([NEWLINE] + s) by { DocAround(doc, y); }
    assert ll == a + b by { LineSplit(l, i); }
    assert v == p + (a + g.bytes + b + [NEWLINE]) + s by { InsertedGraphemeDoc(doc, y, i, g); }
    InsertConclude(w, v, p, ll, a, b, s, g.bytes, a + g.bytes + b + [NEWLINE]);
  }

  lemma {:induction false} InsertedGraphemeDoc(doc: seq<Line>, y: nat, i: nat, g: Grapheme)
    requires y < |doc| && i <= |doc[y]| && g.bytes != [NEWLINE]
    ensures DocBytes(Inserted(doc, y, i, g))
      == DocBytes(doc[..y]) + (LineBytes(doc[y][..i]) + g.bytes + LineBytes(doc[y][i..]) + [NEWLINE]) + DocBytes(doc[y + 1..])
  {
    var m := doc[y][..i] + [g] + doc[y][i..];
    DocSplice(doc[..y], [m], doc[y + 1..]);
    DocOne(m);
    LineInserted(doc[y], i, g);
  }

  lemma {:induction false} SplitLineBytes(doc: seq<Line>, y: nat, i: nat, g: Grapheme)
    requires y < |doc| && i <= |doc[y]| && g.bytes == [NEWLINE]
    ensures var off := ByteOfLine(doc, y) + OffsetOf(doc[y], i);
      && off <= |DocBytes(doc)|
      && DocBytes(Inserted(doc, y, i, g)) == DocBytes(doc)[..off] + g.bytes + DocBytes(doc)[off..]
  {
    var l := doc[y];
    var w, v := DocBytes(doc), DocBytes(Inserted(doc, y, i, g));
    var p, ll, s := DocBytes(doc[..y]), LineBytes(l), DocBytes(doc[y + 1..]);
    var a, b := LineBytes(l[..i]), LineBytes(l[i..]);
    assert w == p + ll + ([NEWLINE] + s) by { DocAround(doc, y); }
    assert ll == a + b by { LineSplit(l, i); }
    assert v == p + (a + [NEWLINE] + b + [NEWLINE]) + s by {
      DocSplice(doc[..y], [l[..i], l[i..]], doc[y + 1..]);
      DocTwo(l[..i], l[i..]);
    }
    InsertConclude(w, v, p, ll, a, b, s, g.bytes, a + [NEWLINE] + b + [NEWLINE]);
  }

  /** The document without grapheme `k` of line `y`. */
  function WithoutGrapheme(doc: seq<Line>, y: nat, k: nat): seq<Line>
    requires y < |doc| && k < |doc[y]|
  {
    doc[..y] + [doc[y][..k] + doc[y][k + 1..]] + doc[y + 1..]
  }

  /** Removing a grapheme removes exactly its bytes from the document. */
  lemma {:induction false} WithoutGraphemeBytes(doc: seq<Line>, y: nat, k: nat)
    requires y < |doc| && k < |doc[y]|
    ensures var start := ByteOfLine(doc, y) + OffsetOf(doc[y], k);
      && start + |doc[y][k].bytes| <= |DocBytes(doc)|
      && DocBytes(WithoutGrapheme(doc, y, k)) == DocBytes(doc)[..start] + DocBytes(doc)[start + |doc[y][k].bytes|..]
  {
    var l := doc[y];
    var w, v := DocBytes(doc), DocBytes(WithoutGrapheme(doc, y, k));
    var p, ll, s := DocBytes(doc[..y]), LineBytes(l), DocBytes(doc[y + 1..]);
    var a, g, c := LineBytes(l[..k]), l[k].bytes, LineBytes(l[k + 1..]);
    assert w == p + ll + ([NEWLINE] + s) by { DocAround(doc, y); }
    assert ll == a + g + c by { LineAround(l, k); }
    assert v == p + (a + c + [NEWLINE]) + s by { WithoutGraphemeDoc(doc, y, k); }
    RemoveConclude(w, v, p, ll, a, g, c, s, a + c + [NEWLINE], a + c);
  }

  lemma {:induction false} WithoutGraphemeDoc(doc: seq<Line>, y: nat, k: nat)
    requires y < |doc| && k < |doc[y]|
    ensures DocBytes(WithoutGrapheme(doc, y, k))
      == DocBytes(doc[..y]) + (LineBytes(doc[y][..k]) + LineBytes(doc[y][k + 1..]) + [NEWLINE]) + DocBytes(doc[y + 1..])
  {
    var m := doc[y][..k] + doc[y][k + 1..];
    DocSplice(doc[..y], [m], doc[y + 1..]);
    DocOne(m);
    LineBytesAppend(doc[y][..k], doc[y][k + 1..]);
  }

  /** The document with line `y` joined onto the line before it. */
  function JoinedWithPrevious(doc: seq<Line>, y: nat): seq<Line>
    requires 0 < y < |doc|
  {
    doc[..y - 1] + [doc[y - 1] + doc[y]] + doc[y + 1..]
  }

  /** Joining removes exactly the line feed before line `y`. */
  lemma {:induction false} JoinedBytes(doc: seq<Line>, y: nat)
    requires 0 < y < |doc|
    ensures 1 <= ByteOfLine(doc, y) <= |DocBytes(doc)|
    ensures DocBytes(JoinedWithPrevious(doc, y)) == DocBytes(doc)[..ByteOfLine(doc, y) - 1] + DocBytes(doc)[ByteOfLine(doc, y)..]
  {
    var a, b := LineBytes(doc[y - 1]), LineBytes(doc[y]);
    PrefixBytes(doc, y);
    DocAround(doc, y);
    JoinedDoc(doc, y);
    JoinConclude(DocBytes(doc), DocBytes(JoinedWithPrevious(doc, y)), DocBytes(doc[..y]), DocBytes(doc[..y - 1]),
      a, b, DocBytes(doc[y + 1..]), a + b + [NEWLINE], a + b);
  }

  lemma {:induction false} PrefixBytes(doc: seq<Line>, y: nat)
    requires 0 < y <= |doc|
    ensures DocBytes(doc[..y]) == DocBytes(doc[..y - 1]) + LineBytes(doc[y - 1]) + [NEWLINE]
  {
    PrefixStep(doc, y);
    DocBytesAppend(doc[..y - 1], [doc[y - 1]]);
    DocOne(doc[y - 1]);
  }

  lemma {:induction false} PrefixStep<T>(s: seq<T>, k: nat)
    requires 0 < k <= |s|
    ensures s[..k] == s[..k - 1] + [s[k - 1]]
  {
  }

  lemma {:induction false} JoinedDoc(doc: seq<Line>, y: nat)
    requires 0 < y < |doc|
    ensures DocBytes(JoinedWithPrevious(doc, y))
      == DocBytes(doc[..y - 1]) + (LineBytes(doc[y - 1]) + LineBytes(doc[y]) + [NEWLINE]) + DocBytes(doc[y + 1..])
  {
    var m := doc[y - 1] + doc[y];
    DocSplice(doc[..y - 1], [m], doc[y + 1..]);
    DocOne(m);
    LineBytesAppend(doc[y - 1], doc[y]);
  }

  lemma {:induction false} IndexAtColumn(l: Line, i: nat, x: nat)
    requires i <= |l|
    ensures var j := IndexAtFrom(l, i, ColumnOf(l, i), x);
      j < |l| ==> ColumnOf(l, j) == x
    decreases |l| - i
  {
    if i < |l| && ColumnOf(l, i) != x {
      ColumnOffsetStep(l, i);
      IndexAtColumn(l, i + 1, x);
    }
  }

  /** After an insertion at the cursor's column, the cursor's line still reaches that column. */
  lemma {:induction false} InsertedKeepsCursor(doc: seq<Line>, y: nat, x: nat, g: Grapheme)
    requires y < |doc| && x <= Width(doc[y])
    ensures var d := Inserted(doc, y, IndexAt(doc[y], x), g);
      && |d| == |doc| + (if g.bytes == [NEWLINE] then 1 else 0)
      && x <= Width(d[y])
      && (g.bytes != [NEWLINE] ==> Width(d[y]) == Width(doc[y]) + g.width)
  {
    var l, i := doc[y], IndexAt(doc[y], x);
    assert ColumnOf(l, 0) == 0 by { assert l[..0] == []; }
    IndexAtColumn(l, 0, x);
    SplitAt(l, i);
    WidthAppend(l[..i], l[i..]);
    if g.bytes != [NEWLINE] {
      WidthAppend(l[..i] + [g], l[i..]);
      WidthAppend(l[..i], [g]);
      assert Width([g]) == g.width by { assert [g][1..] == []; }
    }
  }

  /** Removing grapheme `k` shortens its line by the grapheme's width. */
  lemma {:induction false} WithoutGraphemeWidth(doc: seq<Line>, y: nat, k: nat)
    requires y < |doc| && k < |doc[y]|
    ensures var d := WithoutGrapheme(doc, y, k);
      |d| == |doc| && Width(d[y]) + doc[y][k].width == Width(doc[y]) && ColumnOf(doc[y], k) <= Width(d[y])
  {
    var l := doc[y];
    SplitAround(l, k);
    WidthAppend(l[..k], l[k + 1..]);
    WidthAppend(l[..k] + [l[k]], l[k + 1..]);
    WidthAppend(l[..k], [l[k]]);
    assert Width([l[k]]) == l[k].width by { assert [l[k]][1..] == []; }
  }

  /** Joining two lines gives a line as wide as both. */
  lemma {:induction false} JoinedWidth(doc: seq<Line>, y: nat)
    requires 0 < y < |doc|
    ensures var d := JoinedWithPrevious(doc, y);
      |d| == |doc| - 1 && Width(d[y - 1]) == Width(doc[y - 1]) + Width(doc[y])
  {
    WidthAppend(doc[y - 1], doc[y]);
  }

  /**
   * The first step of `delete_to_the_left`: a cursor one column left of `x`,
   * moved back onto a grapheme start, is on the start of the grapheme that
   * `grapheme_at_cursor` names as the one before the cursor.
   */
  lemma {:induction false} StepLeftLandsOnGrapheme(l: Line, x: nat)
    requires 0 < x <= Width(l)
    ensures var k := AtOrPastFrom(l, 0, 0, x) - 1;
      && 0 <= k < |l| && ColumnOf(l, k) < x <= ColumnOf(l, k + 1)
      && (if x - 1 > 0 then Aligned(l, x - 1, true, false, Insert) else 0) == ColumnOf(l, k)
  {
    assert ColumnOf(l, 0) == 0 by { assert l[..0] == []; }
    assert l != [] by { assert l[..|l|] == l; }
    AtOrPastBrackets(l, 0, x);
    var k := AtOrPastFrom(l, 0, 0, x) - 1;
    if x - 1 > 0 {
      AlignBackInside(l, 0, 0, x - 1, k, false, false);
    }
  }

  // ---------------------------------------------------------------------
  // Searches along a line
  // ---------------------------------------------------------------------

  /** The column of the first grapheme from `i` on that starts right of column `x` with the character `c` (its UTF-8 bytes). */
  function ForwardFrom(l: Line, i: nat, x: nat, c: seq<Byte>): Option<nat>
    requires i <= |l|
    decreases |l| - i
  {
    if i == |l| then None
    else if ColumnOf(l, i) > x && c <= l[i].bytes then Some(ColumnOf(l, i))
    else ForwardFrom(l, i + 1, x, c)
  }

  /**
   * `goto_character_forward`'s target: the start column of the first
   * grapheme right of the cursor that starts with `c`; None when there is
   * none. No grapheme strictly between the cursor and the target starts
   * with `c`.
   */
  lemma {:induction false} ForwardTarget(l: Line, i: nat, x: nat, c: seq<Byte>)
    requires i <= |l|
    ensures var r := ForwardFrom(l, i, x, c);
      && (r.Some? ==> r.value > x && exists j :: i <= j < |l| && ColumnOf(l, j) == r.value && c <= l[j].bytes)
      && (r.Some? ==> forall j :: i <= j < |l| && x < ColumnOf(l, j) < r.value ==> !(c <= l[j].bytes))
      && (r.None? ==> forall j :: i <= j < |l| && ColumnOf(l, j) > x ==> !(c <= l[j].bytes))
    decreases |l| - i
  {
    if i < |l| {
      ForwardTarget(l, i + 1, x, c);
      if ColumnOf(l, i) > x && c <= l[i].bytes {
        forall j | i <= j < |l|
          ensures ColumnOf(l, i) <= ColumnOf(l, j)
        {
          ColumnMono(l, i, j);
        }
      }
    }
  }

  /** The end column of the last grapheme among the first `i` that ends at or left of column `x` and starts with `c`. */
  function BackwardFrom(l: Line, i: nat, x: nat, c: seq<Byte>): Option<nat>
    requires i <= |l|
    decreases i
  {
    if i == 0 then None
    else if ColumnOf(l, i) <= x && c <= l[i - 1].bytes then Some(ColumnOf(l, i))
    else BackwardFrom(l, i - 1, x, c)
  }

  /**
   * `goto_character_backward`'s target: the end column of the last
   * grapheme that ends at or before the cursor and starts with `c`; None
   * when there is none.
   */
  lemma {:induction false} BackwardTarget(l: Line, i: nat, x: nat, c: seq<Byte>)
    requires i <= |l|
    ensures var r := BackwardFrom(l, i, x, c);
      && (r.Some? ==> r.value <= x && exists j :: 0 < j <= i && ColumnOf(l, j) == r.value && c <= l[j - 1].bytes)
      && (r.None? ==> forall j :: 0 < j <= i && ColumnOf(l, j) <= x ==> !(c <= l[j - 1].bytes))
    decreases i
  {
    if i > 0 {
      BackwardTarget(l, i - 1, x, c);
    }
  }

  /**
   * `goto_line_first_non_whitespace` as written: the index of the first
   * grapheme that IS whitespace, used as a column.
   */
  function FirstWhitespaceAsWritten(l: Line): (r: Option<nat>)
    ensures r.Some? ==> r.value < |l| && l[r.value].category == Whitespace
    ensures r.Some? ==> forall j :: 0 <= j < r.value ==> l[j].category != Whitespace
    ensures r.None? ==> forall j :: 0 <= j < |l| ==> l[j].category != Whitespace
    decreases |l|
  {
    if l == [] then None
    else if l[0].category == Whitespace then Some(0)
    else
      match FirstWhitespaceAsWritten(l[1..])
      case None => None
      case Some(i) => Some(i + 1)
  }

  /** The index of the first grapheme that is not whitespace. */
  function FirstNonWhitespace(l: Line): (r: Option<nat>)
    ensures r.Some? ==> r.value < |l| && l[r.value].category != Whitespace
    ensures r.Some? ==> forall j :: 0 <= j < r.value ==> l[j].category == Whitespace
    ensures r.None? ==> forall j :: 0 <= j < |l| ==> l[j].category == Whitespace
    decreases |l|
  {
    if l == [] then None
    else if l[0].category != Whitespace then Some(0)
    else
      match FirstNonWhitespace(l[1..])
      case None => None
      case Some(i) => Some(i + 1)
  }

  /**
   * On an indented line the as-written search stops on the indentation's
   * first column, and on an unindented line with a later space it jumps to
   * that space; the intended target is the first non-blank grapheme.
   */
  lemma {:induction false} FirstNonWhitespaceAsWrittenMisses()
    ensures var sp := Grapheme([32], 1, Whitespace);
      var a := Grapheme([97], 1, Word);
      && FirstWhitespaceAsWritten([sp, sp, a]) == Some(0)
      && FirstNonWhitespace([sp, sp, a]) == Some(2)
      && FirstWhitespaceAsWritten([a, sp]) == Some(1)
      && FirstNonWhitespace([a, sp]) == Some(0)
  {
    var sp := Grapheme([32], 1, Whitespace);
    var a := Grapheme([97], 1, Word);
    assert [sp, sp, a][1..] == [sp, a];
    assert [sp, a][1..] == [a];
    assert [a, sp][1..] == [sp];
    assert FirstWhitespaceAsWritten([sp]) == Some(0);
    assert FirstNonWhitespace([a]) == Some(0);
    assert FirstNonWhitespace([sp, a]) == Some(1);
  }

  // ---------------------------------------------------------------------
  // Word motions
  // ---------------------------------------------------------------------

  /** The column a word motion goes to in word `w`: where its last grapheme starts, or its first. */
  function Mark(w: TextObjects.Word, atEnd: bool): nat
  {
    if atEnd then w.end else w.start
  }

  /** The words a motion visits on line `y`: those of `words_of_line` that are not blank. */
  function MotionWords(doc: seq<Line>, y: nat): seq<TextObjects.Word>
    requires y < |doc|
  {
    TextObjects.NonBlank(doc[y], TextObjects.Words(doc[y]))
  }

  /** A word a forward motion may stop at: any word on a later line, one right of the cursor's column on its own. */
  function Ahead(x: nat, later: bool, atEnd: bool): TextObjects.Word -> bool
  {
    (w: TextObjects.Word) => later || x < Mark(w, atEnd)
  }

  /** A word a backward motion may stop at: any word on an earlier line, one left of the cursor's column on its own. */
  function Behind(x: nat, earlier: bool, atEnd: bool): TextObjects.Word -> bool
  {
    (w: TextObjects.Word) => earlier || Mark(w, atEnd) < x
  }

  /** The word of line `l` a forward motion from (x, y) stops at: the first one it may stop at. */
  function StopForward(doc: seq<Line>, x: nat, y: nat, l: nat, atEnd: bool): Option<nat>
    requires l < |doc|
  {
    FirstWhere(MotionWords(doc, l), Ahead(x, l > y, atEnd))
  }

  /** The word of line `l` a backward motion from (x, y) stops at: the last one it may stop at. */
  function StopBackward(doc: seq<Line>, x: nat, y: nat, l: nat, atEnd: bool): Option<nat>
    requires l < |doc|
  {
    LastWhere(MotionWords(doc, l), Behind(x, l < y, atEnd))
  }

  /**
   * Where `goto_word_start_forward` (`atEnd` false) or
   * `goto_word_end_forward` (`atEnd` true) from (x, y) goes, scanning from
   * line `l` down: the column and the line, or None when no line has a word
   * to stop at.
   */
  function WordForward(doc: seq<Line>, x: nat, y: nat, l: nat, atEnd: bool): (r: Option<(nat, nat)>)
    requires l <= |doc|
    ensures r.Some? ==> l <= r.value.1 < |doc|
    decreases |doc| - l
  {
    if l == |doc| then None
    else match StopForward(doc, x, y, l, atEnd)
      case Some(k) => Some((Mark(MotionWords(doc, l)[k], atEnd), l))
      case None => WordForward(doc, x, y, l + 1, atEnd)
  }

  /**
   * Where `goto_word_start_backward` or `goto_word_end_backward` from
   * (x, y) goes, scanning from line `l` up.
   */
  function WordBackward(doc: seq<Line>, x: nat, y: nat, l: nat, atEnd: bool): (r: Option<(nat, nat)>)
    requires l < |doc|
    ensures r.Some? ==> r.value.1 <= l
    decreases l
  {
    match StopBackward(doc, x, y, l, atEnd)
    case Some(k) => Some((Mark(MotionWords(doc, l)[k], atEnd), l))
    case None => if l == 0 then None else WordBackward(doc, x, y, l - 1, atEnd)
  }

  /** No line in `from..to` has a word a forward motion from (x, y) may stop at. */
  predicate NoStopForward(doc: seq<Line>, x: nat, y: nat, from: nat, to: nat, atEnd: bool)
    requires to <= |doc|
  {
    forall m :: from <= m < to ==> StopForward(doc, x, y, m, atEnd).None?
  }

  /** No line in `from..to` has a word a backward motion from (x, y) may stop at. */
  predicate NoStopBackward(doc: seq<Line>, x: nat, y: nat, from: nat, to: nat, atEnd: bool)
    requires to <= |doc|
  {
    forall m :: from <= m < to ==> StopBackward(doc, x, y, m, atEnd).None?
  }

  /** A forward motion lands on a line with a word to stop at, at that word's mark. */
  lemma {:induction false} WordForwardLands(doc: seq<Line>, x: nat, y: nat, l: nat, atEnd: bool)
    requires l <= |doc|
    ensures WordForward(doc, x, y, l, atEnd).Some? ==>
      && StopForward(doc, x, y, WordForward(doc, x, y, l, atEnd).value.1, atEnd).Some?
      && WordForward(doc, x, y, l, atEnd).value.0 == Mark(MotionWords(doc, WordForward(doc, x, y, l, atEnd).value.1)[StopForward(doc, x, y, WordForward(doc, x, y, l, atEnd).value.1, atEnd).value], atEnd)
    decreases |doc| - l
  {
    if l < |doc| && StopForward(doc, x, y, l, atEnd).None? {
      WordForwardLands(doc, x, y, l + 1, atEnd);
    }
  }

  /** A forward motion passes over exactly the lines, from `l` down, with no word to stop at. */
  lemma {:induction false} WordForwardSkips(doc: seq<Line>, x: nat, y: nat, l: nat, atEnd: bool)
    requires l <= |doc|
    ensures WordForward(doc, x, y, l, atEnd).None? ==> NoStopForward(doc, x, y, l, |doc|, atEnd)
    ensures WordForward(doc, x, y, l, atEnd).Some? ==> NoStopForward(doc, x, y, l, WordForward(doc, x, y, l, atEnd).value.1, atEnd)
    decreases |doc| - l
  {
    if l < |doc| && StopForward(doc, x, y, l, atEnd).None? {
      var r := WordForward(doc, x, y, l + 1, atEnd);
      assert WordForward(doc, x, y, l, atEnd) == r;
      WordForwardSkips(doc, x, y, l + 1, atEnd);
      var to := if r.Some? then r.value.1 else |doc|;
      assert NoStopForward(doc, x, y, l + 1, to, atEnd);
      forall m | l <= m < to
        ensures StopForward(doc, x, y, m, atEnd).None?
      {
      }
    }
  }

  /** A backward motion lands on a line with a word to stop at, at that word's mark. */
  lemma {:induction false} WordBackwardLands(doc: seq<Line>, x: nat, y: nat, l: nat, atEnd: bool)
    requires l < |doc|
    ensures WordBackward(doc, x, y, l, atEnd).Some? ==>
      && StopBackward(doc, x, y, WordBackward(doc, x, y, l, atEnd).value.1, atEnd).Some?
      && WordBackward(doc, x, y, l, atEnd).value.0 == Mark(MotionWords(doc, WordBackward(doc, x, y, l, atEnd).value.1)[StopBackward(doc, x, y, WordBackward(doc, x, y, l, atEnd).value.1, atEnd).value], atEnd)
    decreases l
  {
    if StopBackward(doc, x, y, l, atEnd).None? && l > 0 {
      WordBackwardLands(doc, x, y, l - 1, atEnd);
    }
  }

  /** A backward motion passes over exactly the lines, from `l` up, with no word to stop at. */
  lemma {:induction false} WordBackwardSkips(doc: seq<Line>, x: nat, y: nat, l: nat, atEnd: bool)
    requires l < |doc|
    ensures WordBackward(doc, x, y, l, atEnd).None? ==> NoStopBackward(doc, x, y, 0, l + 1, atEnd)
    ensures WordBackward(doc, x, y, l, atEnd).Some? ==> NoStopBackward(doc, x, y, WordBackward(doc, x, y, l, atEnd).value.1 + 1, l + 1, atEnd)
    decreases l
  {
    if StopBackward(doc, x, y, l, atEnd).None? && l > 0 {
      var r := WordBackward(doc, x, y, l - 1, atEnd);
      assert WordBackward(doc, x, y, l, atEnd) == r;
      WordBackwardSkips(doc, x, y, l - 1, atEnd);
      var from := if r.Some? then r.value.1 + 1 else 0;
      assert NoStopBackward(doc, x, y, from, l, atEnd);
      forall m | from <= m < l + 1
        ensures StopBackward(doc, x, y, m, atEnd).None?
      {
      }
    }
  }

  /**
   * On a later line a forward motion stops at the line's first non-blank
   * word, so it skips only blank lines; on the cursor's own line it stops at
   * the first word whose mark is right of the cursor, and skips the line when
   * there is none.
   */
  lemma {:induction false} StopForwardMeaning(doc: seq<Line>, x: nat, y: nat, m: nat, atEnd: bool)
    requires y <= m < |doc|
    ensures m > y ==> (StopForward(doc, x, y, m, atEnd).None? <==> MotionWords(doc, m) == [])
    ensures m > y && MotionWords(doc, m) != [] ==> StopForward(doc, x, y, m, atEnd) == Some(0)
    ensures m == y ==> (StopForward(doc, x, y, m, atEnd).None? <==>
      forall k :: 0 <= k < |MotionWords(doc, m)| ==> Mark(MotionWords(doc, m)[k], atEnd) <= x)
    ensures m == y && StopForward(doc, x, y, m, atEnd).Some? ==>
      && x < Mark(MotionWords(doc, m)[StopForward(doc, x, y, m, atEnd).value], atEnd)
      && forall k :: 0 <= k < StopForward(doc, x, y, m, atEnd).value ==> Mark(MotionWords(doc, m)[k], atEnd) <= x
  {
    var ws, p := MotionWords(doc, m), Ahead(x, m > y, atEnd);
    FirstWhereIsFirst(ws, p);
    if m > y && ws != [] {
      FirstWhereAt(ws, p, 0);
    }
  }

  /**
   * On an earlier line a backward motion stops at the line's last non-blank
   * word; on the cursor's own line at the last word whose mark is left of the
   * cursor.
   */
  lemma {:induction false} StopBackwardMeaning(doc: seq<Line>, x: nat, y: nat, m: nat, atEnd: bool)
    requires m <= y < |doc|
    ensures m < y ==> (StopBackward(doc, x, y, m, atEnd).None? <==> MotionWords(doc, m) == [])
    ensures m < y && MotionWords(doc, m) != [] ==> StopBackward(doc, x, y, m, atEnd) == Some(|MotionWords(doc, m)| - 1)
    ensures m == y ==> (StopBackward(doc, x, y, m, atEnd).None? <==>
      forall k :: 0 <= k < |MotionWords(doc, m)| ==> x <= Mark(MotionWords(doc, m)[k], atEnd))
    ensures m == y && StopBackward(doc, x, y, m, atEnd).Some? ==>
      && Mark(MotionWords(doc, m)[StopBackward(doc, x, y, m, atEnd).value], atEnd) < x
      && forall k :: StopBackward(doc, x, y, m, atEnd).value < k < |MotionWords(doc, m)| ==> x <= Mark(MotionWords(doc, m)[k], atEnd)
  {
    var ws, p := MotionWords(doc, m), Behind(x, m < y, atEnd);
    LastWhereIsLast(ws, p);
    if m < y && ws != [] {
      LastWhereAt(ws, p, |ws| - 1);
    }
  }

  /** A forward word motion goes strictly past the cursor: to a later line, or right on the same one. */
  lemma {:induction false} WordForwardMovesOn(doc: seq<Line>, x: nat, y: nat, atEnd: bool)
    requires y < |doc|
    ensures WordForward(doc, x, y, y, atEnd).Some? ==>
      WordForward(doc, x, y, y, atEnd).value.1 > y || WordForward(doc, x, y, y, atEnd).value.0 > x
  {
    WordForwardLands(doc, x, y, y, atEnd);
    if WordForward(doc, x, y, y, atEnd).Some? && WordForward(doc, x, y, y, atEnd).value.1 == y {
      StopForwardMeaning(doc, x, y, y, atEnd);
    }
  }

  /** A backward word motion goes strictly before the cursor: to an earlier line, or left on the same one. */
  lemma {:induction false} WordBackwardMovesBack(doc: seq<Line>, x: nat, y: nat, atEnd: bool)
    requires y < |doc|
    ensures WordBackward(doc, x, y, y, atEnd).Some? ==>
      WordBackward(doc, x, y, y, atEnd).value.1 < y || WordBackward(doc, x, y, y, atEnd).value.0 < x
  {
    WordBackwardLands(doc, x, y, y, atEnd);
    if WordBackward(doc, x, y, y, atEnd).Some? && WordBackward(doc, x, y, y, atEnd).value.1 == y {
      StopBackwardMeaning(doc, x, y, y, atEnd);
    }
  }

  /** The grapheme whose start a word motion goes to: the word's last grapheme, or its first. */
  function MarkIndex(w: TextObjects.Word, atEnd: bool): nat
  {
    if atEnd then w.last else w.first
  }

  /** A word motion lands where a grapheme of the line starts. */
  lemma {:induction false} MarkOnGrapheme(doc: seq<Line>, l: nat, k: nat, atEnd: bool)
    requires l < |doc| && k < |MotionWords(doc, l)|
    ensures MarkIndex(MotionWords(doc, l)[k], atEnd) < |doc[l]|
    ensures Mark(MotionWords(doc, l)[k], atEnd) == ColumnOf(doc[l], MarkIndex(MotionWords(doc, l)[k], atEnd))
  {
    var ws := TextObjects.Words(doc[l]);
    TextObjects.WordsTile(doc[l]);
    var w := MotionWords(doc, l)[k];
    assert w in ws;
    var j :| 0 <= j < |ws| && ws[j] == w;
    assert TextObjects.WellPlaced(doc[l], ws[j]);
  }

  /** The scan of one line's words in a forward motion: the first it may stop at. */
  method ScanForward(ws: seq<TextObjects.Word>, x: nat, later: bool, atEnd: bool) returns (r: Option<nat>)
    ensures r == FirstWhere(ws, Ahead(x, later, atEnd))
  {
    var i := 0;
    while i < |ws|
      invariant i <= |ws| && forall j :: 0 <= j < i ==> !Ahead(x, later, atEnd)(ws[j])
    {
      if later || x < Mark(ws[i], atEnd) {
        FirstWhereAt(ws, Ahead(x, later, atEnd), i);
        return Some(i);
      }
      i := i + 1;
    }
    FirstWhereIsFirst(ws, Ahead(x, later, atEnd));
    return None;
  }

  /** The scan of one line's words, last to first, in a backward motion: the last it may stop at. */
  method ScanBackward(ws: seq<TextObjects.Word>, x: nat, earlier: bool, atEnd: bool) returns (r: Option<nat>)
    ensures r == LastWhere(ws, Behind(x, earlier, atEnd))
  {
    var i := |ws|;
    while i > 0
      invariant 0 <= i <= |ws| && forall j :: i <= j < |ws| ==> !Behind(x, earlier, atEnd)(ws[j])
    {
      if earlier || Mark(ws[i - 1], atEnd) < x {
        LastWhereAt(ws, Behind(x, earlier, atEnd), i - 1);
        return Some(i - 1);
      }
      i := i - 1;
    }
    LastWhereIsLast(ws, Behind(x, earlier, atEnd));
    return None;
  }

  /** The labelled line loop of the forward word motions: the lines from the cursor's down. */
  method FindWordForward(doc: seq<Line>, x: nat, y: nat, atEnd: bool) returns (r: Option<(nat, nat)>)
    requires y < |doc|
    ensures r == WordForward(doc, x, y, y, atEnd)
  {
    var line := y;
    while line < |doc|
      invariant y <= line <= |doc|
      invariant WordForward(doc, x, y, line, atEnd) == WordForward(doc, x, y, y, atEnd)
      decreases |doc| - line
    {
      var words := TextObjects.WordsOfLine(doc[line], true);
      var k := ScanForward(words, x, line > y, atEnd);
      assert k == StopForward(doc, x, y, line, atEnd);
      if k.Some? {
        return Some((Mark(words[k.value], atEnd), line));
      }
      line := line + 1;
    }
    return None;
  }

  /** The labelled line loop of the backward word motions: the lines from the cursor's up. */
  method FindWordBackward(doc: seq<Line>, x: nat, y: nat, atEnd: bool) returns (r: Option<(nat, nat)>)
    requires y < |doc|
    ensures r == WordBackward(doc, x, y, y, atEnd)
  {
    var line: nat := y;
    while true
      invariant line <= y
      invariant WordBackward(doc, x, y, line, atEnd) == WordBackward(doc, x, y, y, atEnd)
      decreases line
    {
      var words := TextObjects.WordsOfLine(doc[line], true);
      var k := ScanBackward(words, x, line < y, atEnd);
      assert k == StopBackward(doc, x, y, line, atEnd);
      if k.Some? {
        return Some((Mark(words[k.value], atEnd), line));
      }
      if line == 0 {
        return None;
      }
      line := line - 1;
    }
  }

  // ---------------------------------------------------------------------
  // The editable text
  // ---------------------------------------------------------------------

  class EditableText {
    var doc: seq<Line>
    var cursorX: nat
    var cursorY: nat
    var stickyX: nat

    /** The document has a line, the cursor is on one of them and not past its end. */
    predicate Valid()
      reads this
    {
      |doc| >= 1 && cursorY < |doc| && cursorX <= Width(doc[cursorY])
    }

    /** `EditableText::new`: the cursor at the top left. */
    constructor (doc: seq<Line>)
      requires |doc| >= 1
      ensures Valid()
      ensures this.doc == doc && cursorX == 0 && cursorY == 0 && stickyX == 0
    {
      this.doc := doc;
      cursorX := 0;
      cursorY := 0;
      stickyX := 0;
    }

    /** `byte_offset_at_cursor`: the offset of the grapheme at column `x` of line `y`, or the line's end. */
    method ByteOffsetAtCursor(x: nat, y: nat) returns (offset: nat)
      requires y < |doc|
      ensures offset == ByteOfLine(doc, y) + OffsetOf(doc[y], IndexAt(doc[y], x))
      ensures offset <= |DocBytes(doc)|
    {
      offset := Selection.ByteOffsetAtCursor(doc, Selection.Cursor(x, y), Normal);
      CursorOffsetAtIndex(doc, x, y, Normal);
      Selection.CursorByteOffsetInLine(doc, Selection.Cursor(x, y), Normal);
    }

    /** `byte_range_until_eol`: from the cursor to the end of its line, or None when that end is byte 0. */
    method ByteRangeUntilEol() returns (r: Option<(nat, nat)>)
      requires Valid()
      ensures r.Some? <==> ByteOfLine(doc, cursorY) + |LineBytes(doc[cursorY])| > 0
      ensures r.Some? ==> r.value.1 == ByteOfLine(doc, cursorY) + |LineBytes(doc[cursorY])|
      ensures r.Some? ==> r.value.0 == ByteOfLine(doc, cursorY) + OffsetOf(doc[cursorY], IndexAt(doc[cursorY], cursorX))
      ensures r.Some? ==> r.value.0 <= r.value.1
    {
      var start := ByteOffsetAtCursor(cursorX, cursorY);
      var end := ByteOfLine(doc, cursorY) + |LineBytes(doc[cursorY])|;
      OffsetMono(doc[cursorY], IndexAt(doc[cursorY], cursorX), |doc[cursorY]|);
      assert doc[cursorY][..|doc[cursorY]|] == doc[cursorY];
      if end > 0 {
        return Some((start, end));
      }
      return None;
    }

    /** `ensure_cursor_is_on_grapheme_boundary`: moves a cursor inside a grapheme to one of its edges. */
    method EnsureCursorOnGraphemeBoundary(mode: Mode, back: bool, on: bool)
      requires Valid()
      modifies this
      ensures doc == old(doc) && cursorY == old(cursorY) && stickyX == old(stickyX)
      ensures cursorX == Aligned(doc[cursorY], old(cursorX), back, on, mode)
    {
      var l := doc[cursorY];
      ghost var x0 := cursorX;
      var acc := 0;
      var i := 0;
      while i < |l|
        invariant i <= |l| && doc == old(doc) && cursorY == old(cursorY) && stickyX == old(stickyX)
        invariant cursorX == x0
        invariant AlignFrom(l, i, acc, x0, back, on, mode != Insert) == Aligned(l, x0, back, on, mode)
      {
        var width := l[i].width;
        var nextStart := acc + width;
        if cursorX < nextStart && cursorX > acc {
          if back {
            cursorX := acc;
          } else if on {
            if i + 1 == |l| && mode != Insert {
              cursorX := acc;
            } else {
              cursorX := nextStart;
            }
          }
          return;
        }
        acc := acc + width;
        i := i + 1;
      }
    }

    /**
     * `move_cursor_to`: the line defaults to the cursor's and is clamped to
     * the document; the column defaults to the sticky column and is clamped
     * to the line's last cursor position, then moved to a grapheme edge.
     * Only an explicit column updates the sticky column.
     */
    method MoveCursorTo(x: Option<nat>, y: Option<nat>, mode: Mode)
      requires Valid() && Editing(mode)
      modifies this
      ensures Valid() && doc == old(doc)
      ensures cursorY == Min(|doc| - 1, if y.Some? then y.value else old(cursorY))
      ensures cursorX == MovedColumn(doc[cursorY], old(cursorX), old(cursorY), if x.Some? then x.value else old(stickyX), cursorY, mode)
      ensures stickyX == if x.Some? then cursorX else old(stickyX)
      ensures PositiveWidths(doc[cursorY]) ==> cursorX <= Selection.MaxCursorX(doc[cursorY], mode)
    {
      var ny := Min(|doc| - 1, if y.Some? then y.value else cursorY);
      var nx := Min(Selection.MaxCursorX(doc[ny], mode), if x.Some? then x.value else stickyX);
      var d := Selection.MoveDirection(cursorX, cursorY, nx, ny);
      cursorX := nx;
      cursorY := ny;
      if nx > 0 {
        EnsureCursorOnGraphemeBoundary(mode, GoesBack(d), GoesOn(d));
        AlignedInRange(doc[ny], nx, GoesBack(d), GoesOn(d), mode);
      }
      if x.Some? {
        stickyX := cursorX;
      }
    }

    /** `cursor_up`: one line up, saturating at the first line, back at the sticky column. */
    method CursorUp(mode: Mode)
      requires Valid() && Editing(mode)
      modifies this
      ensures Valid() && doc == old(doc)
      ensures cursorY == SatSub(old(cursorY), 1) && stickyX == old(stickyX)
    {
      MoveCursorTo(None, Some(SatSub(cursorY, 1)), mode);
    }

    /** `cursor_down`: one line down, saturating at the last line, back at the sticky column. */
    method CursorDown(mode: Mode)
      requires Valid() && Editing(mode)
      modifies this
      ensures Valid() && doc == old(doc)
      ensures cursorY == Min(|doc| - 1, old(cursorY) + 1) && stickyX == old(stickyX)
    {
      MoveCursorTo(None, Some(cursorY + 1), mode);
    }

    /** `cursor_left`: one column left, saturating at column 0, onto the start of the grapheme it lands in. */
    method CursorLeft(mode: Mode)
      requires Valid() && Editing(mode)
      modifies this
      ensures Valid() && doc == old(doc) && cursorY == old(cursorY)
      ensures old(cursorX) == 0 ==> cursorX == 0
      ensures old(cursorX) > 0 ==> cursorX < old(cursorX)
      ensures var nx := Min(Selection.MaxCursorX(doc[cursorY], mode), SatSub(old(cursorX), 1));
        cursorX == if nx > 0 then Aligned(doc[cursorY], nx, true, false, mode) else 0
      ensures stickyX == cursorX
    {
      ghost var x0 := cursorX;
      var nx := Min(Selection.MaxCursorX(doc[cursorY], mode), SatSub(cursorX, 1));
      assert ColumnOf(doc[cursorY], 0) == 0 by { assert doc[cursorY][..0] == []; }
      AlignFromFacts(doc[cursorY], 0, 0, nx, true, false, mode != Insert);
      MoveCursorTo(Some(SatSub(cursorX, 1)), None, mode);
    }

    /** `cursor_right`: one column right, clamped to the line, onto a grapheme edge. */
    method CursorRight(mode: Mode)
      requires Valid() && Editing(mode)
      modifies this
      ensures Valid() && doc == old(doc) && cursorY == old(cursorY)
      ensures cursorX == MovedColumn(doc[cursorY], old(cursorX), cursorY, old(cursorX) + 1, cursorY, mode)
      ensures stickyX == cursorX
      ensures PositiveWidths(doc[cursorY]) ==> cursorX <= Selection.MaxCursorX(doc[cursorY], mode)
    {
      MoveCursorTo(Some(cursorX + 1), None, mode);
    }

    /**
     * `insert_char_at_cursor`: the grapheme's bytes go in at the cursor's
     * byte offset; a line feed moves the cursor to the start of the next
     * line, anything else one column right.
     */
    method InsertCharAtCursor(g: Grapheme, mode: Mode)
      requires Valid() && Editing(mode)
      modifies this
      ensures Valid()
      ensures doc == Inserted(old(doc), old(cursorY), IndexAt(old(doc)[old(cursorY)], old(cursorX)), g)
      ensures g.bytes == [NEWLINE] ==> cursorY == old(cursorY) + 1 && cursorX == 0 && stickyX == 0
      ensures g.bytes != [NEWLINE] ==>
        && cursorY == old(cursorY) && stickyX == cursorX
        && cursorX == MovedColumn(doc[cursorY], old(cursorX), old(cursorY), old(cursorX) + 1, cursorY, mode)
    {
      var offset := ByteOffsetAtCursor(cursorX, cursorY);
      var i := IndexAt(doc[cursorY], cursorX);
      InsertedKeepsCursor(doc, cursorY, cursorX, g);
      doc := Inserted(doc, cursorY, i, g);
      if g.bytes == [NEWLINE] {
        MoveCursorTo(Some(0), Some(cursorY + 1), mode);
      } else {
        MoveCursorTo(Some(cursorX + 1), None, mode);
      }
    }

    /**
     * `delete_to_the_left`: inside a line, removes the grapheme left of the
     * cursor and puts the cursor on its start; at the start of a line after
     * the first, removes the line feed before it and puts the cursor at the
     * end of the previous line; at the top left, changes nothing and returns
     * false.
     */
    method DeleteToTheLeft(mode: Mode) returns (deleted: bool)
      requires Valid() && Editing(mode)
      modifies this
      ensures Valid()
      ensures deleted <==> old(cursorX) > 0 || old(cursorY) > 0
      ensures !deleted ==> doc == old(doc) && cursorX == old(cursorX) && cursorY == old(cursorY) && stickyX == old(stickyX)
      ensures old(cursorX) > 0 ==>
        var l := old(doc)[old(cursorY)];
        var k := AtOrPastFrom(l, 0, 0, old(cursorX)) - 1;
        && 0 <= k < |l| && ColumnOf(l, k) < old(cursorX) <= ColumnOf(l, k + 1)
        && doc == WithoutGrapheme(old(doc), old(cursorY), k)
        && cursorY == old(cursorY) && cursorX == ColumnOf(l, k) && stickyX == cursorX
      ensures old(cursorX) == 0 && old(cursorY) > 0 ==>
        && doc == JoinedWithPrevious(old(doc), old(cursorY))
        && cursorY == old(cursorY) - 1 && stickyX == cursorX
        && var l := old(doc)[cursorY];
           && cursorX == MovedColumn(l, 0, old(cursorY), Width(l), cursorY, mode)
           && (mode == Insert ==> cursorX == Width(l))
           && (mode == Normal && PositiveWidths(l) ==> cursorX == if l == [] then 0 else ColumnOf(l, |l| - 1))
    {
      if cursorX > 0 {
        var y, l := cursorY, doc[cursorY];
        StepLeftLandsOnGrapheme(l, cursorX);
        var idx := GraphemeAtCursor();
        var k := idx - 1;
        WithoutGraphemeWidth(doc, y, k);
        // the cursor moves first, in Insert mode whatever the mode
        MoveCursorTo(Some(cursorX - 1), None, Insert);
        doc := WithoutGrapheme(doc, y, k);
        return true;
      } else if cursorY > 0 {
        var y := cursorY;
        JoinedWidth(doc, y);
        JoinColumn(doc[y - 1], y, y - 1, mode);
        MoveCursorTo(Some(Width(doc[y - 1])), Some(y - 1), mode);
        doc := JoinedWithPrevious(doc, y);
        return true;
      }
      return false;
    }

    /**
     * `grapheme_at_cursor`'s index: the first grapheme of the cursor's line
     * starting at or past the cursor, or the line's length.
     */
    method GraphemeAtCursor() returns (idx: nat)
      requires Valid()
      ensures idx == AtOrPastFrom(doc[cursorY], 0, 0, cursorX)
    {
      var l := doc[cursorY];
      var i: nat := 0;
      var col: nat := 0;
      while i < |l|
        invariant i <= |l|
        invariant AtOrPastFrom(l, i, col, cursorX) == AtOrPastFrom(l, 0, 0, cursorX)
      {
        if col >= cursorX {
          return i;
        }
        col := col + l[i].width;
        i := i + 1;
      }
      return |l|;
    }

    /**
     * `goto_character_forward`: to the first grapheme right of the cursor
     * starting with `c`, `offset` columns before it (saturating); nothing
     * happens when there is none.
     */
    method GotoCharacterForward(c: seq<Byte>, mode: Mode, offset: nat)
      requires Valid() && Editing(mode)
      modifies this
      ensures Valid() && doc == old(doc) && cursorY == old(cursorY)
      ensures var target := ForwardFrom(old(doc)[old(cursorY)], 0, old(cursorX), c);
        && (target.None? ==> cursorX == old(cursorX) && stickyX == old(stickyX))
        && (target.Some? ==>
              stickyX == cursorX
              && cursorX == MovedColumn(doc[cursorY], old(cursorX), cursorY, SatSub(target.value, offset), cursorY, mode))
        && (target.Some? && offset == 0 && target.value <= Selection.MaxCursorX(doc[cursorY], mode) ==> cursorX == target.value)
    {
      var l := doc[cursorY];
      var i := 0;
      var col := 0;
      assert l[..0] == [];
      while i < |l|
        invariant i <= |l| && col == ColumnOf(l, i)
        invariant ForwardFrom(l, i, cursorX, c) == ForwardFrom(l, 0, cursorX, c)
        invariant Valid() && doc == old(doc) && l == doc[cursorY]
        invariant cursorX == old(cursorX) && cursorY == old(cursorY) && stickyX == old(stickyX)
      {
        if col > cursorX && c <= l[i].bytes {
          IsBoundaryAt(l, i, mode);
          MoveCursorTo(Some(SatSub(col, offset)), None, mode);
          return;
        }
        ColumnOffsetStep(l, i);
        col := col + l[i].width;
        i := i + 1;
      }
    }

    /**
     * `goto_character_backward`: to the end column of the last grapheme
     * ending at or before the cursor and starting with `c`, `offset` columns
     * before it (saturating); nothing happens when there is none.
     */
    method GotoCharacterBackward(c: seq<Byte>, mode: Mode, offset: nat)
      requires Valid() && Editing(mode)
      modifies this
      ensures Valid() && doc == old(doc) && cursorY == old(cursorY)
      ensures var target := BackwardFrom(old(doc)[old(cursorY)], |old(doc)[old(cursorY)]|, old(cursorX), c);
        && (target.None? ==> cursorX == old(cursorX) && stickyX == old(stickyX))
        && (target.Some? ==>
              stickyX == cursorX
              && cursorX == MovedColumn(doc[cursorY], old(cursorX), cursorY, SatSub(target.value, offset), cursorY, mode))
        && (target.Some? && offset == 0 && target.value <= Selection.MaxCursorX(doc[cursorY], mode) ==> cursorX == target.value)
    {
      var l := doc[cursorY];
      var i: nat := |l|;
      var col: nat := Width(l);
      assert l[..|l|] == l;
      while i > 0
        invariant i <= |l| && col == ColumnOf(l, i)
        invariant BackwardFrom(l, i, cursorX, c) == BackwardFrom(l, |l|, cursorX, c)
        invariant Valid() && doc == old(doc) && l == doc[cursorY]
        invariant cursorX == old(cursorX) && cursorY == old(cursorY) && stickyX == old(stickyX)
      {
        if col <= cursorX && c <= l[i - 1].bytes {
          IsBoundaryAt(l, i, mode);
          MoveCursorTo(Some(SatSub(col, offset)), None, mode);
          return;
        }
        ColumnOffsetStep(l, i - 1);
        col := col - l[i - 1].width;
        i := i - 1;
      }
    }

    /**
     * `goto_word_start_forward` (`atEnd` false) and `goto_word_end_forward`
     * (`atEnd` true): to the first non-blank word past the cursor, on its
     * line or a later one; nothing moves when there is none. A target within
     * the line's last cursor column is reached exactly.
     */
    method GotoWordForward(atEnd: bool, mode: Mode)
      requires Valid() && Editing(mode)
      modifies this
      ensures Valid() && doc == old(doc)
      ensures WordForward(doc, old(cursorX), old(cursorY), old(cursorY), atEnd).None? ==>
        cursorX == old(cursorX) && cursorY == old(cursorY) && stickyX == old(stickyX)
      ensures WordForward(doc, old(cursorX), old(cursorY), old(cursorY), atEnd).Some? ==>
        && cursorY == WordForward(doc, old(cursorX), old(cursorY), old(cursorY), atEnd).value.1
        && stickyX == cursorX
        && (WordForward(doc, old(cursorX), old(cursorY), old(cursorY), atEnd).value.0 <= Selection.MaxCursorX(doc[cursorY], mode) ==>
            cursorX == WordForward(doc, old(cursorX), old(cursorY), old(cursorY), atEnd).value.0)
    {
      var target := FindWordForward(doc, cursorX, cursorY, atEnd);
      if target.Some? {
        var (c, line) := target.value;
        WordForwardLands(doc, cursorX, cursorY, cursorY, atEnd);
        ghost var k := StopForward(doc, cursorX, cursorY, line, atEnd).value;
        MarkOnGrapheme(doc, line, k, atEnd);
        IsBoundaryAt(doc[line], MarkIndex(MotionWords(doc, line)[k], atEnd), mode);
        MoveCursorTo(Some(c), Some(line), mode);
      }
    }

    /**
     * `goto_word_start_backward` and `goto_word_end_backward`: to the last
     * non-blank word before the cursor, on its line or an earlier one;
     * nothing moves when there is none.
     */
    method GotoWordBackward(atEnd: bool, mode: Mode)
      requires Valid() && Editing(mode)
      modifies this
      ensures Valid() && doc == old(doc)
      ensures WordBackward(doc, old(cursorX), old(cursorY), old(cursorY), atEnd).None? ==>
        cursorX == old(cursorX) && cursorY == old(cursorY) && stickyX == old(stickyX)
      ensures WordBackward(doc, old(cursorX), old(cursorY), old(cursorY), atEnd).Some? ==>
        && cursorY == WordBackward(doc, old(cursorX), old(cursorY), old(cursorY), atEnd).value.1
        && stickyX == cursorX
        && (WordBackward(doc, old(cursorX), old(cursorY), old(cursorY), atEnd).value.0 <= Selection.MaxCursorX(doc[cursorY], mode) ==>
            cursorX == WordBackward(doc, old(cursorX), old(cursorY), old(cursorY), atEnd).value.0)
    {
      var target := FindWordBackward(doc, cursorX, cursorY, atEnd);
      if target.Some? {
        var (c, line) := target.value;
        WordBackwardLands(doc, cursorX, cursorY, cursorY, atEnd);
        ghost var k := StopBackward(doc, cursorX, cursorY, line, atEnd).value;
        MarkOnGrapheme(doc, line, k, atEnd);
        IsBoundaryAt(doc[line], MarkIndex(MotionWords(doc, line)[k], atEnd), mode);
        MoveCursorTo(Some(c), Some(line), mode);
      }
    }

    /**
     * `goto_line_first_non_whitespace`, corrected: to the column of the
     * line's first grapheme that is not whitespace; nothing happens on a
     * blank line.
     */
    method GotoLineFirstNonWhitespace(line: nat, mode: Mode)
      requires Valid() && Editing(mode) && line < |doc|
      modifies this
      ensures Valid() && doc == old(doc)
      ensures FirstNonWhitespace(doc[line]).None? ==> cursorX == old(cursorX) && cursorY == old(cursorY)
      ensures FirstNonWhitespace(doc[line]).Some? ==> cursorY == line && stickyX == cursorX
      ensures FirstNonWhitespace(doc[line]).Some? ==>
        cursorX == MovedColumn(doc[line], old(cursorX), old(cursorY), ColumnOf(doc[line], FirstNonWhitespace(doc[line]).value), line, mode)
      ensures FirstNonWhitespace(doc[line]).Some? && PositiveWidths(doc[line]) ==>
        cursorX == ColumnOf(doc[line], FirstNonWhitespace(doc[line]).value)
    {
      var l := doc[line];
      var i := 0;
      var col := 0;
      assert l[..0] == [];
      while i < |l|
        invariant i <= |l| && col == ColumnOf(l, i)
        invariant forall j :: 0 <= j < i ==> l[j].category == Whitespace
        invariant Valid() && doc == old(doc) && l == doc[line]
        invariant cursorX == old(cursorX) && cursorY == old(cursorY) && stickyX == old(stickyX)
      {
        if l[i].category != Whitespace {
          assert FirstNonWhitespace(l) == Some(i);
          ColumnOffsetStep(l, i);
          ColumnMono(l, i + 1, |l|);
          assert l[..|l|] == l;
          IsBoundaryAt(l, i, mode);
          MoveCursorTo(Some(col), Some(line), mode);
          return;
        }
        ColumnOffsetStep(l, i);
        col := col + l[i].width;
        i := i + 1;
      }
    }
  }

  /**
   * A vertical move to the end of line `l` lands exactly there in Insert
   * mode, and on the start of the line's last grapheme in Normal mode.
   */
  lemma {:induction false} JoinColumn(l: Line, fromY: nat, toY: nat, mode: Mode)
    requires Editing(mode) && fromY != toY
    ensures mode == Insert ==> MovedColumn(l, 0, fromY, Width(l), toY, mode) == Width(l)
    ensures mode == Normal && PositiveWidths(l) ==>
      MovedColumn(l, 0, fromY, Width(l), toY, mode) == if l == [] then 0 else ColumnOf(l, |l| - 1)
  {
    assert l[..|l|] == l;
    assert ColumnOf(l, 0) == 0 by { assert l[..0] == []; }
    if mode == Insert {
      var d := Selection.MoveDirection(0, fromY, Width(l), toY);
      IsBoundaryAt(l, |l|, mode);
      assert Aligned(l, ColumnOf(l, |l|), GoesBack(d), GoesOn(d), mode) == Width(l);
    } else if PositiveWidths(l) && l != [] {
      LastColumn(l);
      var nx := Width(l) - 1;
      var d := Selection.MoveDirection(0, fromY, nx, toY);
      AlignBackInside(l, 0, 0, nx, |l| - 1, GoesOn(d), true);
    }
  }

  /** A column where a grapheme starts is left alone by the alignment. */
  lemma {:induction false} IsBoundaryAt(l: Line, i: nat, mode: Mode)
    requires i <= |l|
    ensures forall back: bool, on: bool :: Aligned(l, ColumnOf(l, i), back, on, mode) == ColumnOf(l, i)
  {
    forall back: bool, on: bool
      ensures Aligned(l, ColumnOf(l, i), back, on, mode) == ColumnOf(l, i)
    {
      assert ColumnOf(l, 0) == 0 by { assert l[..0] == []; }
      AlignAtStart(l, 0, ColumnOf(l, i), i, back, on, mode != Insert);
    }
  }

  lemma {:induction false} AlignAtStart(l: Line, j: nat, x: nat, i: nat, back: bool, on: bool, backOnLast: bool)
    requires j <= |l| && i <= |l| && x == ColumnOf(l, i)
    ensures AlignFrom(l, j, ColumnOf(l, j), x, back, on, backOnLast) == x
    decreases |l| - j
  {
    if j < |l| {
      ColumnOffsetStep(l, j);
      if j < i {
        ColumnMono(l, j + 1, i);
      } else {
        ColumnMono(l, i, j);
      }
      AlignAtStart(l, j + 1, x, i, back, on, backOnLast);
    }
  }
}

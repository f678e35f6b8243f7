/**
 * The one-line text input of prompts (`ui/text_input.rs`): a small document
 * with a cursor, and a history of earlier values that Up and Down recall.
 * The input always works in Insert mode.
 */
module TextInputs {
  import opened Base
  import opened Text
  import opened Keys
  import Selection
  import EditableTexts

  /** `usize::MAX`, which `move_cursor_to` clamps to the end of the line. */
  const USIZE_MAX: nat := 0xFFFF_FFFF_FFFF_FFFF

  // ---------------------------------------------------------------------
  // History navigation, on values
  // ---------------------------------------------------------------------

  /** What the input shows and where it stands in the history. */
  datatype Prompt = Prompt(value: Line, idx: nat)

  /**
   * Up: recalls the entry before the position, the oldest one again at
   * position 0, and steps back; nothing changes when there is no such entry.
   */
  function PressUp(history: seq<Line>, p: Prompt): (r: Prompt)
  {
    var i := SatSub(p.idx, 1);
    if i < |history| then Prompt(history[i], i) else p
  }

  /** Down: recalls the entry after the position and steps forward; past the newest, clears the input. */
  function PressDown(history: seq<Line>, p: Prompt): (r: Prompt)
  {
    if p.idx + 1 < |history| then Prompt(history[p.idx + 1], p.idx + 1) else Prompt([], |history|)
  }

  function Ups(history: seq<Line>, p: Prompt, k: nat): Prompt
    decreases k
  {
    if k == 0 then p else PressUp(history, Ups(history, p, k - 1))
  }

  function Downs(history: seq<Line>, p: Prompt, k: nat): Prompt
    decreases k
  {
    if k == 0 then p else PressDown(history, Downs(history, p, k - 1))
  }

  /** From a fresh prompt, `k` presses of Up walk back through the history, newest first. */
  lemma {:induction false} UpsWalkBack(history: seq<Line>, v: Line, k: nat)
    requires 1 <= k <= |history|
    ensures Ups(history, Prompt(v, |history|), k) == Prompt(history[|history| - k], |history| - k)
    decreases k
  {
    if k > 1 {
      UpsWalkBack(history, v, k - 1);
    }
  }

  /** Once the oldest entry is reached, further presses of Up keep showing it. */
  lemma {:induction false} UpsStopAtOldest(history: seq<Line>, v: Line, k: nat)
    requires 1 <= |history| <= k
    ensures Ups(history, Prompt(v, |history|), k) == Prompt(history[0], 0)
    decreases k
  {
    if k == |history| {
      UpsWalkBack(history, v, k);
    } else {
      UpsStopAtOldest(history, v, k - 1);
    }
  }

  /** Below the newest entry, `k` presses of Down walk forward through the history. */
  lemma {:induction false} DownsWalkForward(history: seq<Line>, j: nat, k: nat)
    requires j + k < |history|
    ensures Downs(history, Prompt(history[j], j), k) == Prompt(history[j + k], j + k)
    decreases k
  {
    if k > 0 {
      DownsWalkForward(history, j, k - 1);
    }
  }

  /** Going `k` entries back and `k` presses forward again ends on a cleared input past the newest entry. */
  lemma {:induction false} UpsThenDownsClear(history: seq<Line>, v: Line, k: nat)
    requires 1 <= k <= |history|
    ensures Downs(history, Ups(history, Prompt(v, |history|), k), k) == Prompt([], |history|)
  {
    var n := |history|;
    UpsWalkBack(history, v, k);
    DownsWalkForward(history, n - k, k - 1);
    assert Downs(history, Prompt(history[n - k], n - k), k)
      == PressDown(history, Prompt(history[n - 1], n - 1));
  }

  /** `remember`'s effect on the history: the value is appended unless it repeats the newest entry. */
  function Remembered(history: seq<Line>, v: Line): (r: seq<Line>)
  {
    if history == [] || history[|history| - 1] != v then history + [v] else history
  }

  /** No two neighbouring entries are equal. */
  predicate NoRepeats(history: seq<Line>)
  {
    forall i :: 0 < i < |history| ==> history[i - 1] != history[i]
  }

  /**
   * Remembering ends the history with the value, grows it by at most one,
   * never creates neighbouring repeats and is idempotent.
   */
  lemma {:induction false} RememberedProperties(history: seq<Line>, v: Line)
    ensures var r := Remembered(history, v);
      && |r| >= 1 && r[|r| - 1] == v
      && (r == history || r == history + [v])
      && (NoRepeats(history) ==> NoRepeats(r))
      && Remembered(r, v) == r
  {
    var r := Remembered(history, v);
    if NoRepeats(history) && r != history {
      forall i | 0 < i < |r| ensures r[i - 1] != r[i] {
        if i < |history| {
          assert r[i - 1] == history[i - 1] && r[i] == history[i];
        }
      }
    }
  }

  /** The grapheme a typed character becomes: its UTF-8 bytes, with width and category from the Unicode engines. */
  function Typed(c: char, width: char -> nat, category: char -> Category): (g: Grapheme)
    ensures g.bytes == [NEWLINE] <==> c == '\n'
  {
    Grapheme(Utf8(c), width(c), category(c))
  }

  // ---------------------------------------------------------------------
  // The input
  // ---------------------------------------------------------------------

  class TextInput {
    var doc: seq<Line>
    var selection: Selection.Range
    var history: seq<Line>
    var historyIdx: nat

    /** The document has a line and the position is at most one past the history. */
    predicate Consistent()
      reads this
    {
      |doc| >= 1 && historyIdx <= Max(1, |history|)
    }

    /** Besides, the cursor is on a line and within it. */
    predicate Valid()
      reads this
    {
      && Consistent()
      && selection.head.y < |doc|
      && selection.head.x <= Width(doc[selection.head.y])
    }

    /** `value`: the first line. */
    function Value(): (v: Line)
      requires Valid()
      reads this
      ensures v == doc[0]
    {
      doc[0]
    }

    /** `TextInput::empty`: an empty line and no history. */
    constructor Empty()
      ensures Valid()
      ensures doc == [[]] && Value() == [] && selection == Selection.DefaultRange
      ensures history == [] && historyIdx == 1
    {
      doc := [[]];
      selection := Selection.DefaultRange;
      history := [];
      historyIdx := 1;
    }

    /** `TextInput::with_history`: an empty line, positioned after the newest entry (at least at 1). */
    constructor WithHistory(history: seq<Line>)
      ensures Valid()
      ensures doc == [[]] && selection == Selection.DefaultRange
      ensures this.history == history && historyIdx == Max(1, |history|)
    {
      doc := [[]];
      selection := Selection.DefaultRange;
      this.history := history;
      historyIdx := Max(1, |history|);
    }

    /** `TextInput::with_value`: the given line and no history. */
    constructor WithValue(v: Line)
      ensures Valid()
      ensures doc == [v] && Value() == v && selection == Selection.DefaultRange
      ensures history == [] && historyIdx == 1
    {
      doc := [v];
      selection := Selection.DefaultRange;
      history := [];
      historyIdx := 1;
    }

    /** `remember`: records the value unless it repeats the newest entry, and moves past the newest entry. */
    method Remember()
      requires Valid()
      modifies this
      ensures Valid() && doc == old(doc) && selection == old(selection)
      ensures history == Remembered(old(history), old(Value()))
      ensures historyIdx == |history|
    {
      var v := Value();
      if history == [] || history[|history| - 1] != v {
        history := history + [v];
      }
      historyIdx := |history|;
    }

    /** `move_cursor_to`, in Insert mode. */
    method MoveCursorTo(x: Option<nat>, y: Option<nat>)
      requires Consistent()
      modifies this
      ensures Valid() && doc == old(doc) && history == old(history) && historyIdx == old(historyIdx)
      ensures selection.head.y == Min(|doc| - 1, if y.Some? then y.value else old(selection.head.y))
      ensures var cx := Min(Width(doc[selection.head.y]), if x.Some? then x.value else old(selection.stickyX));
        && selection.head.x == Selection.Aligned(doc[selection.head.y], cx,
             Selection.MoveDirection(old(selection.head.x), old(selection.head.y), cx, selection.head.y), Insert)
        && selection.stickyX == if x.Some? then cx else old(selection.stickyX)
      ensures selection.anchor == selection.head
    {
      selection := Selection.MoveTo(selection, doc, x, y, Insert);
    }

    /** Moving to column 0 or to the end of a line puts the cursor exactly there. */
    method MoveCursorToEdge(toEnd: bool, y: Option<nat>)
      requires Consistent()
      modifies this
      ensures Valid() && doc == old(doc) && history == old(history) && historyIdx == old(historyIdx)
      ensures selection.head.y == Min(|doc| - 1, if y.Some? then y.value else old(selection.head.y))
      ensures selection.head.x == if toEnd then Width(doc[selection.head.y]) else 0
      ensures selection.anchor == selection.head
    {
      var ny := Min(|doc| - 1, if y.Some? then y.value else selection.head.y);
      var d := Selection.MoveDirection(selection.head.x, selection.head.y, if toEnd then Width(doc[ny]) else 0, ny);
      if toEnd {
        Selection.AlignedAtEnd(doc[ny], d, Insert);
        MoveCursorTo(Some(Max(USIZE_MAX, Width(doc[ny]))), y);
      } else {
        Selection.AlignedAtStart(doc[ny], d, Insert);
        MoveCursorTo(Some(0), y);
      }
    }

    /** `clear`: an empty line, the cursor at its start, positioned past the newest entry. */
    method Clear()
      requires Valid()
      modifies this
      ensures Valid() && history == old(history)
      ensures doc == [[]] && Value() == [] && historyIdx == |history|
      ensures selection.head == Selection.Cursor(0, 0)
    {
      doc := [[]];
      historyIdx := |history|;
      MoveCursorToEdge(false, Some(0));
    }

    /** Shows a history entry with the cursor at its end. */
    method Load(v: Line)
      requires Valid()
      modifies this
      ensures Valid() && history == old(history) && historyIdx == old(historyIdx)
      ensures doc == [v] && selection.head == Selection.Cursor(Width(v), 0)
    {
      doc := [v];
      MoveCursorToEdge(true, None);
    }

    /**
     * `insert_char_at_cursor`: the grapheme's bytes go in at the cursor's
     * byte offset; a line feed moves the cursor to the start of the next
     * line, anything else one column right.
     */
    method InsertCharAtCursor(g: Grapheme)
      requires Valid()
      modifies this
      ensures Valid() && history == old(history) && historyIdx == old(historyIdx)
      ensures var y, x := old(selection.head.y), old(selection.head.x);
        && doc == EditableTexts.Inserted(old(doc), y, EditableTexts.IndexAt(old(doc)[y], x), g)
        && var off := Selection.CursorByteOffset(old(doc), old(selection.head), Insert);
           && off <= |DocBytes(old(doc))|
           && DocBytes(doc) == DocBytes(old(doc))[..off] + g.bytes + DocBytes(old(doc))[off..]
      ensures g.bytes == [NEWLINE] ==> selection.head == Selection.Cursor(0, old(selection.head.y) + 1)
      ensures g.bytes != [NEWLINE] ==>
        var y, l := old(selection.head.y), doc[old(selection.head.y)];
        var cx := Min(Width(l), old(selection.head.x) + 1);
        && selection.head.y == y && selection.stickyX == cx
        && selection.head.x == Selection.Aligned(l, cx, Selection.MoveDirection(old(selection.head.x), y, cx, y), Insert)
        && Selection.IsBoundary(l, selection.head.x)
    {
      var y, x := selection.head.y, selection.head.x;
      var offset := Selection.ByteOffsetAtCursor(doc, selection.head, Insert);
      EditableTexts.CursorOffsetAtIndex(doc, x, y, Insert);
      var i := EditableTexts.IndexAt(doc[y], x);
      EditableTexts.InsertedKeepsCursor(doc, y, x, g);
      EditableTexts.InsertedBytes(doc, y, i, g);
      doc := EditableTexts.Inserted(doc, y, i, g);
      if g.bytes == [NEWLINE] {
        MoveCursorToEdge(false, Some(y + 1));
      } else {
        var cx := Min(Width(doc[y]), x + 1);
        Selection.AlignedSettlesOnBoundary(doc[y], cx, Selection.MoveDirection(x, y, cx, y), Insert);
        MoveCursorTo(Some(x + 1), None);
      }
    }

    /**
     * `delete_to_the_left`: inside a line, removes the bytes of the grapheme
     * left of the cursor and puts the cursor on its start; at the start of
     * a line after the first, removes the line feed before it and puts the
     * cursor where the lines meet; at the top left, changes nothing and
     * returns false.
     */
    method DeleteToTheLeft() returns (deleted: bool)
      requires Valid()
      modifies this
      ensures Valid() && history == old(history) && historyIdx == old(historyIdx)
      ensures deleted <==> old(selection.head) != Selection.Cursor(0, 0)
      ensures !deleted ==> doc == old(doc) && selection == old(selection)
      ensures old(selection.head.x) > 0 ==> DeletedGrapheme(old(doc), old(selection.head), doc, selection.head)
      ensures old(selection.head.x) == 0 && old(selection.head.y) > 0 ==> JoinedLines(old(doc), old(selection.head.y), doc, selection.head)
    {
      if selection.head.x > 0 {
        DeleteGraphemeLeft();
        return true;
      } else if selection.head.y > 0 {
        JoinWithPrevious();
        return true;
      }
      return false;
    }

    /** The first branch of `delete_to_the_left`. */
    method DeleteGraphemeLeft()
      requires Valid() && selection.head.x > 0
      modifies this
      ensures Valid() && history == old(history) && historyIdx == old(historyIdx)
      ensures DeletedGrapheme(old(doc), old(selection.head), doc, selection.head)
    {
      var y, x := selection.head.y, selection.head.x;
      var l := doc[y];
      EditableTexts.StepLeftLandsOnGrapheme(l, x);
      var idx := EditableTexts.AtOrPastFrom(l, 0, 0, x) - 1;
      var start, end := GraphemeBytes(y, idx);
      EditableTexts.WithoutGraphemeBytes(doc, y, idx);
      EditableTexts.WithoutGraphemeWidth(doc, y, idx);
      LeftOntoGrapheme(l, x, idx);
      MoveCursorTo(Some(x - 1), None);
      doc := EditableTexts.WithoutGrapheme(doc, y, idx);
    }

    /** The second branch of `delete_to_the_left`. */
    method JoinWithPrevious()
      requires Valid() && selection.head.x == 0 && selection.head.y > 0
      modifies this
      ensures Valid() && history == old(history) && historyIdx == old(historyIdx)
      ensures JoinedLines(old(doc), old(selection.head.y), doc, selection.head)
    {
      var y := selection.head.y;
      EditableTexts.JoinedWidth(doc, y);
      EditableTexts.JoinedBytes(doc, y);
      MoveCursorToEdge(true, Some(y - 1));
      doc := EditableTexts.JoinedWithPrevious(doc, y);
    }

    /** The byte span of grapheme `idx` of line `y`, found by walking the line's graphemes. */
    method GraphemeBytes(y: nat, idx: nat) returns (start: nat, end: nat)
      requires y < |doc| && idx < |doc[y]|
      ensures start == ByteOfLine(doc, y) + OffsetOf(doc[y], idx)
      ensures end == start + |doc[y][idx].bytes|
    {
      var l := doc[y];
      start := ByteOfLine(doc, y);
      end := start;
      var i := 0;
      assert l[..0] == [];
      while i < |l|
        invariant i <= idx
        invariant start == ByteOfLine(doc, y) + OffsetOf(l, i)
      {
        if i == idx {
          end := start + |l[i].bytes|;
          break;
        }
        ColumnOffsetStep(l, i);
        start := start + |l[i].bytes|;
        i := i + 1;
      }
    }

    /**
     * `handle_key_event`: Left and Right move the cursor; Up and Down walk
     * the history; Home and End go to the ends of the line; Backspace and
     * typing move past the newest entry, and then delete or insert, except
     * that Ctrl-h and Ctrl-l go to the ends of the line and other control
     * characters do nothing; any other key changes nothing.
     */
    method HandleKeyEvent(event: KeyEvent, width: char -> nat, category: char -> Category)
      requires Valid()
      modifies this
      ensures Valid() && history == old(history)
      ensures event.code in {Keys.Left, Keys.Right, Home, End} ==>
        doc == old(doc) && historyIdx == old(historyIdx) && selection.head.y == old(selection.head.y)
      ensures event.code == Keys.Left ==> selection.head.x <= old(selection.head.x)
      ensures event.code == Home ==> selection.head.x == 0
      ensures event.code == End ==> selection.head.x == Width(doc[selection.head.y])
      ensures event.code == Up ==> Prompt(Value(), historyIdx) == PressUp(history, Prompt(old(Value()), old(historyIdx)))
      ensures event.code == Down ==> Prompt(Value(), historyIdx) == PressDown(history, Prompt(old(Value()), old(historyIdx)))
      ensures event.code == Backspace || event.code.Char? ==> historyIdx == |history|
      ensures event.code == Backspace && old(selection.head) == Selection.Cursor(0, 0) ==> doc == old(doc)
      ensures event.code.Char? && Control in event.modifiers ==> doc == old(doc) && selection.head.y == old(selection.head.y)
      ensures event.code == Char('h') && Control in event.modifiers ==> selection.head.x == 0
      ensures event.code == Char('l') && Control in event.modifiers ==> selection.head.x == Width(doc[selection.head.y])
      ensures event.code.Char? && Control !in event.modifiers ==>
        var y, x := old(selection.head.y), old(selection.head.x);
        doc == EditableTexts.Inserted(old(doc), y, EditableTexts.IndexAt(old(doc)[y], x), Typed(event.code.c, width, category))
      ensures event.code !in {Keys.Left, Keys.Right, Up, Down, Home, End, Backspace} && !event.code.Char? ==>
        doc == old(doc) && selection == old(selection) && historyIdx == old(historyIdx)
    {
      match event.code {
        case Left =>
          CursorLeft();
        case Right =>
          MoveCursorTo(Some(selection.head.x + 1), None);
        case Up =>
          RecallPrevious();
        case Down =>
          RecallNext();
        case Home =>
          MoveCursorToEdge(false, None);
        case End =>
          MoveCursorToEdge(true, None);
        case Backspace =>
          historyIdx := |history|;
          var _ := DeleteToTheLeft();
        case Char(c) =>
          TypeChar(c, Control in event.modifiers, Typed(c, width, category));
        case _ =>
      }
    }

    /** Up: shows the entry before the position, if there is one, with the cursor at its end. */
    method RecallPrevious()
      requires Valid()
      modifies this
      ensures Valid() && history == old(history)
      ensures var p := PressUp(history, Prompt(old(Value()), old(historyIdx)));
        && Value() == p.value && historyIdx == p.idx
        && (if SatSub(old(historyIdx), 1) < |history|
            then doc == [p.value] && selection.head == Selection.Cursor(Width(p.value), 0)
            else doc == old(doc) && selection == old(selection))
    {
      var i := SatSub(historyIdx, 1);
      if i < |history| {
        Load(history[i]);
        historyIdx := i;
      }
    }

    /** Down: shows the entry after the position with the cursor at its end, or clears the input past the newest entry. */
    method RecallNext()
      requires Valid()
      modifies this
      ensures Valid() && history == old(history)
      ensures var p := PressDown(history, Prompt(old(Value()), old(historyIdx)));
        && Value() == p.value && historyIdx == p.idx
        && doc == [p.value] && selection.head == Selection.Cursor(Width(p.value), 0)
    {
      if historyIdx + 1 < |history| {
        Load(history[historyIdx + 1]);
        historyIdx := historyIdx + 1;
      } else {
        Clear();
      }
    }

    /** A typed character: moves past the newest entry, then inserts it, or with Control held, handles `h` and `l`. */
    method TypeChar(c: char, control: bool, g: Grapheme)
      requires Valid()
      modifies this
      ensures Valid() && history == old(history) && historyIdx == |history|
      ensures control ==> doc == old(doc) && selection.head.y == old(selection.head.y)
      ensures control && c == 'h' ==> selection.head.x == 0
      ensures control && c == 'l' ==> selection.head.x == Width(doc[selection.head.y])
      ensures control && c != 'h' && c != 'l' ==> selection == old(selection)
      ensures !control ==>
        var y, x := old(selection.head.y), old(selection.head.x);
        doc == EditableTexts.Inserted(old(doc), y, EditableTexts.IndexAt(old(doc)[y], x), g)
    {
      historyIdx := |history|;
      if control {
        if c == 'h' {
          MoveCursorToEdge(false, None);
        } else if c == 'l' {
          MoveCursorToEdge(true, None);
        }
      } else {
        InsertCharAtCursor(g);
      }
    }

    /** `cursor_left`: one column left, saturating at column 0, onto the start of the grapheme it lands in. */
    method CursorLeft()
      requires Valid()
      modifies this
      ensures Valid() && doc == old(doc) && history == old(history) && historyIdx == old(historyIdx)
      ensures selection.head.y == old(selection.head.y) && selection.head.x <= old(selection.head.x)
    {
      var l, x := doc[selection.head.y], selection.head.x;
      var d := Selection.MoveDirection(x, selection.head.y, SatSub(x, 1), selection.head.y);
      Selection.AlignedFromBack(l, 0, 0, SatSub(x, 1), d, Insert);
      MoveCursorTo(Some(SatSub(x, 1)), None);
    }
  }

  /**
   * Deleting left of cursor `c` inside its line removes exactly the bytes of
   * the grapheme left of it and leaves the cursor on that grapheme's start.
   */
  ghost predicate DeletedGrapheme(doc: seq<Line>, c: Selection.Cursor, doc': seq<Line>, c': Selection.Cursor)
  {
    && c.y < |doc| && 0 < c.x
    && var l := doc[c.y];
       var k := EditableTexts.AtOrPastFrom(l, 0, 0, c.x) - 1;
       && 0 <= k < |l| && ColumnOf(l, k) < c.x <= ColumnOf(l, k + 1)
       && doc' == EditableTexts.WithoutGrapheme(doc, c.y, k)
       && var start := ByteOfLine(doc, c.y) + OffsetOf(l, k);
          && start + |l[k].bytes| <= |DocBytes(doc)|
          && DocBytes(doc') == DocBytes(doc)[..start] + DocBytes(doc)[start + |l[k].bytes|..]
          && c' == Selection.Cursor(ColumnOf(l, k), c.y)
  }

  /**
   * Deleting left of the start of line `y` removes exactly the line feed
   * before it and leaves the cursor where the two lines meet.
   */
  ghost predicate JoinedLines(doc: seq<Line>, y: nat, doc': seq<Line>, c': Selection.Cursor)
  {
    && 0 < y < |doc|
    && doc' == EditableTexts.JoinedWithPrevious(doc, y)
    && 1 <= ByteOfLine(doc, y) <= |DocBytes(doc)|
    && DocBytes(doc') == DocBytes(doc)[..ByteOfLine(doc, y) - 1] + DocBytes(doc)[ByteOfLine(doc, y)..]
    && c' == Selection.Cursor(Width(doc[y - 1]), y - 1)
  }

  /** Moving one column left from inside a line lands on the start of the grapheme left of the cursor. */
  lemma {:induction false} LeftOntoGrapheme(l: Line, x: nat, k: nat)
    requires 0 <= k < |l| && ColumnOf(l, k) < x <= ColumnOf(l, k + 1)
    ensures var d := Selection.MoveDirection(x, 0, x - 1, 0);
      Selection.Aligned(l, x - 1, d, Insert) == ColumnOf(l, k)
  {
    var d := Selection.MoveDirection(x, 0, x - 1, 0);
    if x - 1 == ColumnOf(l, k) {
      assert Selection.IsBoundary(l, ColumnOf(l, k));
      Selection.AlignedSettlesOnBoundary(l, x - 1, d, Insert);
    } else {
      assert l[..0] == [];
      Selection.AlignedFromInside(l, 0, x - 1, k, d, Insert);
    }
  }
}

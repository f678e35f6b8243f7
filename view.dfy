/**
 * The document view (`view.rs`): the style of each run of source text,
 * stacked from the active highlights, the byte range of the visible lines,
 * and the selection overlay in Select mode.
 *
 * The theme is global in the source; here the base text style and the
 * style of each highlight are given to the iterator.
 */
module Views {
  import opened Base
  import opened Text
  import opened Styles
  import opened Highlights
  import Selection

  /** The text style with every active highlight patched on, bottom to top. */
  function Stacked(text: Style, active: seq<Highlight>, styleOf: Highlight -> Style): Style
    decreases |active|
  {
    if active == [] then text
    else Patch(Stacked(text, active[..|active| - 1], styleOf), styleOf(active[|active| - 1]))
  }

  /** `Vec::pop`, which leaves an empty stack alone. */
  function Pop(active: seq<Highlight>): (r: seq<Highlight>)
    ensures |r| == if active == [] then 0 else |active| - 1
    ensures r == active[..|r|]
  {
    if active == [] then [] else active[..|active| - 1]
  }

  /** What one call of `next` leaves: the active stack, the events not yet read, and the item it yields. */
  datatype Advanced = Advanced(active: seq<Highlight>, rest: seq<HighlightEvent>, item: Option<(Style, nat)>)

  /** `StyleIter::next` on values: read events until a source span, pushing and popping highlights on the way. */
  function Advance(active: seq<Highlight>, events: seq<HighlightEvent>, text: Style, styleOf: Highlight -> Style): Advanced
    decreases |events|
  {
    if events == [] then Advanced(active, [], None)
    else
      match events[0]
      case HighlightStart(h) => Advance(active + [h], events[1..], text, styleOf)
      case HighlightEnd => Advance(Pop(active), events[1..], text, styleOf)
      case Source(_, end) => Advanced(active, events[1..], Some((Stacked(text, active, styleOf), end)))
  }

  predicate HasSource(events: seq<HighlightEvent>)
  {
    exists k :: 0 <= k < |events| && events[k].Source?
  }

  /**
   * `next` yields an item exactly when a source span remains, and then it is
   * the style of the first such span with the span's end offset; the events
   * it consumed are a prefix of the input.
   */
  lemma {:induction false} AdvanceYields(active: seq<Highlight>, events: seq<HighlightEvent>, text: Style, styleOf: Highlight -> Style)
    ensures var a := Advance(active, events, text, styleOf);
      && (a.item.Some? <==> HasSource(events))
      && (a.item.None? ==> a.rest == [])
      && |a.rest| <= |events| && a.rest == events[|events| - |a.rest|..]
      && (a.item.Some? ==>
            |a.rest| < |events| && events[|events| - |a.rest| - 1].Source? &&
            a.item.value.1 == events[|events| - |a.rest| - 1].end)
    decreases |events|
  {
    if events != [] {
      var tail := events[1..];
      match events[0]
      case Source(_, _) =>
        assert events[1..] == events[|events| - |tail|..];
      case HighlightStart(h) =>
        AdvanceYields(active + [h], tail, text, styleOf);
        SourceInTail(events);
      case HighlightEnd =>
        AdvanceYields(Pop(active), tail, text, styleOf);
        SourceInTail(events);
    }
  }

  lemma {:induction false} SourceInTail(events: seq<HighlightEvent>)
    requires events != [] && !events[0].Source?
    ensures HasSource(events) <==> HasSource(events[1..])
  {
    if HasSource(events) {
      var k :| 0 <= k < |events| && events[k].Source?;
      assert events[1..][k - 1].Source?;
    }
    if HasSource(events[1..]) {
      var k :| 0 <= k < |events[1..]| && events[1..][k].Source?;
      assert events[k + 1].Source?;
    }
  }

  /** The topmost active highlight wins every field it sets. */
  lemma {:induction false} TopmostWins(text: Style, active: seq<Highlight>, h: Highlight, styleOf: Highlight -> Style)
    ensures var s := Stacked(text, active + [h], styleOf);
      && (styleOf(h).fg.Some? ==> s.fg == styleOf(h).fg)
      && (styleOf(h).bg.Some? ==> s.bg == styleOf(h).bg)
      && styleOf(h).addModifier <= s.addModifier
      && styleOf(h).subModifier <= s.subModifier
  {
    assert (active + [h])[..|active|] == active;
  }

  /** A highlight started and then ended leaves the stack as it was. */
  lemma {:induction false} StartThenEnd(active: seq<Highlight>, h: Highlight, events: seq<HighlightEvent>, text: Style, styleOf: Highlight -> Style)
    ensures Advance(active, [HighlightStart(h), HighlightEnd] + events, text, styleOf) == Advance(active, events, text, styleOf)
  {
    var e := [HighlightStart(h), HighlightEnd] + events;
    assert e[1..] == [HighlightEnd] + events;
    assert e[1..][1..] == events;
    assert Pop(active + [h]) == active;
  }

  /** With no highlight active a span gets the plain text style. */
  lemma {:induction false} NoHighlightPlainText(text: Style, styleOf: Highlight -> Style)
    ensures Stacked(text, [], styleOf) == text
  {
  }

  /**
   * `StyleIter`: the stack of active highlights over a stream of highlight
   * events; the stream is the sequence of events not yet read.
   */
  class StyleIter {
    var active: seq<Highlight>
    var events: seq<HighlightEvent>
    const text: Style
    const styleOf: Highlight -> Style

    /** `StyleIter::new`: no highlight active. */
    constructor (events: seq<HighlightEvent>, text: Style, styleOf: Highlight -> Style)
      ensures this.active == [] && this.events == events
      ensures this.text == text && this.styleOf == styleOf
    {
      active := [];
      this.events := events;
      this.text := text;
      this.styleOf := styleOf;
    }

    /** `next`: the stacked style of the next source span and its end offset, or None once the events run out. */
    method Next() returns (item: Option<(Style, nat)>)
      modifies this
      ensures Advance(old(active), old(events), text, styleOf) == Advanced(active, events, item)
    {
      ghost var a0, e0 := active, events;
      while events != []
        invariant Advance(active, events, text, styleOf) == Advance(a0, e0, text, styleOf)
        decreases |events|
      {
        var event := events[0];
        events := events[1..];
        match event
        case HighlightStart(h) =>
          active := active + [h];
        case HighlightEnd =>
          active := Pop(active);
        case Source(_, end) =>
          var style := StackedStyle(text, active, styleOf);
          return Some((style, end));
      }
      return None;
    }
  }

  /** The fold of `next`: the highlights patched onto the text style one at a time. */
  method StackedStyle(text: Style, active: seq<Highlight>, styleOf: Highlight -> Style) returns (style: Style)
    ensures style == Stacked(text, active, styleOf)
  {
    style := text;
    var i := 0;
    while i < |active|
      invariant 0 <= i <= |active|
      invariant style == Stacked(text, active[..i], styleOf)
    {
      assert active[..i + 1][..i] == active[..i];
      style := Patch(style, styleOf(active[i]));
      i := i + 1;
    }
    assert active[..i] == active;
  }

  /**
   * `visible_byte_range`: from the first byte of the top visible line to
   * the first byte after the last visible line, which is clamped to the
   * document's last line.
   */
  function VisibleByteRange(doc: seq<Line>, scrollY: nat, height: U16): (r: (nat, nat))
    requires 1 <= |doc| && scrollY <= |doc|
    ensures r.0 == ByteOfLine(doc, scrollY)
    ensures r.1 == ByteOfLine(doc, Min(scrollY + SatSub(height, 1), |doc| - 1) + 1)
  {
    var last := Min(scrollY + SatSub(height, 1), |doc| - 1);
    (ByteOfLine(doc, scrollY), ByteOfLine(doc, last + 1))
  }

  /**
   * The visible range holds exactly the bytes (newlines included) of the
   * visible lines: at most `height` lines from the top one (at least one),
   * never past the document's end.
   */
  lemma {:induction false} VisibleBytesAreVisibleLines(doc: seq<Line>, scrollY: nat, height: U16)
    requires 1 <= |doc| && scrollY < |doc|
    ensures var r := VisibleByteRange(doc, scrollY, height);
      var last := Min(scrollY + SatSub(height, 1), |doc| - 1);
      && r.0 <= r.1 <= |DocBytes(doc)|
      && DocBytes(doc)[r.0..r.1] == DocBytes(doc[scrollY..last + 1])
      && last + 1 - scrollY <= Max(height, 1)
  {
    var last := Min(scrollY + SatSub(height, 1), |doc| - 1);
    var a, b, c := doc[..scrollY], doc[scrollY..last + 1], doc[last + 1..];
    assert doc[..last + 1] == a + b;
    assert doc == (a + b) + c;
    DocBytesAppend(a, b);
    DocBytesAppend(a + b, c);
    var bytes := DocBytes(doc);
    assert bytes == DocBytes(a) + DocBytes(b) + DocBytes(c);
    assert ByteOfLine(doc, scrollY) == |DocBytes(a)|;
    assert ByteOfLine(doc, last + 1) == |DocBytes(a)| + |DocBytes(b)|;
    assert bytes[|DocBytes(a)|..|DocBytes(a)| + |DocBytes(b)|] == DocBytes(b);
  }

  /** `visual_selection_style`: in Select mode a cell inside some range gets the selection style patched on. */
  function VisualSelectionStyle(style: Style, sel: Selection.Selection, x: nat, y: nat, mode: Mode, selectionStyle: Style): (r: Style)
    ensures mode != Select ==> r == style
    ensures mode == Select && (exists k :: 0 <= k < |sel.ranges| && Selection.ContainsCursor(sel.ranges[k], x, y)) ==>
      r == Patch(style, selectionStyle)
    ensures (forall k :: 0 <= k < |sel.ranges| ==> !Selection.ContainsCursor(sel.ranges[k], x, y)) ==> r == style
  {
    if mode != Select then style
    else if exists k :: 0 <= k < |sel.ranges| && Selection.ContainsCursor(sel.ranges[k], x, y) then Patch(style, selectionStyle)
    else style
  }

  /** The selection overlay changes a cell's style only in Select mode and only inside a range. */
  lemma {:induction false} SelectionOverlayOnlyInside(style: Style, sel: Selection.Selection, x: nat, y: nat, mode: Mode, selectionStyle: Style)
    requires VisualSelectionStyle(style, sel, x, y, mode, selectionStyle) != style
    ensures mode == Select
    ensures exists k :: 0 <= k < |sel.ranges| && Selection.From(sel.ranges[k]) == Selection.CursorMin(Selection.From(sel.ranges[k]), Selection.Cursor(x, y))
  {
    var k :| 0 <= k < |sel.ranges| && Selection.ContainsCursor(sel.ranges[k], x, y);
    assert Selection.LessEq(Selection.From(sel.ranges[k]), Selection.Cursor(x, y));
  }
}

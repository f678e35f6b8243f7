/**
 * Alerts (`components/alert.rs`): a message box whose body is wrapped at
 * spaces into lines no wider than the box allows.
 *
 * Display widths come from Unicode tables that are not part of this
 * model: `width` is a parameter.
 */
module Alerts {
  import opened Base

  /** The wrapping state: the finished lines as word groups, the words of the current line and its width. */
  datatype Wrap = Wrap(done: seq<seq<string>>, current: seq<string>, lineWidth: nat)

  /** The width a word is counted with: at least one column. */
  function WordWidth(word: string, width: string -> nat): (w: nat)
    ensures w >= 1
  {
    Max(width(word), 1)
  }

  /** One word: it joins the current line if it fits in what is left, and starts a new line otherwise. */
  function Step(a: Wrap, word: string, maxWidth: nat, width: string -> nat): Wrap
  {
    var w := WordWidth(word, width);
    if a.lineWidth + w <= maxWidth then Wrap(a.done, a.current + [word], a.lineWidth + w + 1)
    else Wrap(a.done + [a.current], [word], w + 1)
  }

  /** The words `words[i..]`, one step each. */
  function WrapFrom(a: Wrap, words: seq<string>, i: nat, maxWidth: nat, width: string -> nat): Wrap
    requires i <= |words|
    decreases |words| - i
  {
    if i == |words| then a else WrapFrom(Step(a, words[i], maxWidth, width), words, i + 1, maxWidth, width)
  }

  /** The words of each line of a body wider than `maxWidth`. */
  function Groups(words: seq<string>, maxWidth: nat, width: string -> nat): (g: seq<seq<string>>)
    ensures |g| >= 1
  {
    var a := WrapFrom(Wrap([], [], 0), words, 0, maxWidth, width);
    a.done + [a.current]
  }

  /** A line as written: each of its words followed by one space. */
  function Render(group: seq<string>): string
    decreases |group|
  {
    if group == [] then "" else group[0] + " " + Render(group[1..])
  }

  function Concat(lines: seq<string>): string
    decreases |lines|
  {
    if lines == [] then "" else lines[0] + Concat(lines[1..])
  }

  function Flatten(groups: seq<seq<string>>): seq<string>
    decreases |groups|
  {
    if groups == [] then [] else groups[0] + Flatten(groups[1..])
  }

  /** The lines an alert body is broken into. */
  function Wrapped(s: string, maxWidth: nat, width: string -> nat): (lines: seq<string>)
    ensures |lines| >= 1
  {
    if width(s) <= maxWidth then [s]
    else
      var g := Groups(Split(s, ' '), maxWidth, width);
      seq(|g|, k requires 0 <= k < |g| => Render(g[k]))
  }

  /**
   * `break_into_lines` as written: before wrapping it reserves capacity for
   * `width / max_width + 1` lines, a division that panics when `max_width`
   * is zero; `None` stands for that panic.
   */
  function BreakIntoLinesAsWritten(s: string, maxWidth: nat, width: string -> nat): (r: Option<seq<string>>)
    ensures r.Some? ==> r.value == Wrapped(s, maxWidth, width)
    ensures r.None? <==> width(s) > maxWidth && maxWidth == 0
  {
    if width(s) <= maxWidth then Some([s])
    else if maxWidth == 0 then None
    else Some(Wrapped(s, maxWidth, width))
  }

  /** The alert box width: body or title plus padding, at most 55 columns and 80% of the area. */
  function BoxWidth(bodyWidth: nat, titleWidth: nat, areaWidth: U16): (w: nat)
    ensures w <= 55 && w <= areaWidth * 8 / 10 && w <= Max(bodyWidth, titleWidth) + 4
    ensures w == 55 || w == areaWidth * 8 / 10 || w == Max(bodyWidth, titleWidth) + 4
  {
    Min(Min(55, areaWidth * 8 / 10), Max(bodyWidth + 4, titleWidth + 4))
  }

  /**
   * On a terminal at most six columns wide, an alert whose body has any
   * width makes `break_into_lines` divide by zero: the box is at most four
   * columns wide and the text width `max_width - 4` saturates to zero.
   */
  lemma {:induction false} NarrowAlertPanics(body: string, titleWidth: nat, areaWidth: U16, width: string -> nat)
    requires areaWidth <= 6 && width(body) >= 1
    ensures BreakIntoLinesAsWritten(body, SatSub(BoxWidth(width(body), titleWidth, areaWidth), 4), width).None?
  {
  }

  /**
   * `break_into_lines` without the capacity division: the body as one line
   * when it fits, and otherwise its words wrapped greedily.
   */
  method BreakIntoLines(s: string, maxWidth: nat, width: string -> nat) returns (lines: seq<string>)
    ensures lines == Wrapped(s, maxWidth, width)
  {
    if width(s) <= maxWidth {
      return [s];
    }
    var words := Split(s, ' ');
    var line := "";
    var lineWidth := 0;
    lines := [];
    ghost var a := Wrap([], [], 0);
    var i := 0;
    while i < |words|
      invariant 0 <= i <= |words|
      invariant WrapFrom(a, words, i, maxWidth, width) == WrapFrom(Wrap([], [], 0), words, 0, maxWidth, width)
      invariant |lines| == |a.done| && forall k :: 0 <= k < |lines| ==> lines[k] == Render(a.done[k])
      invariant line == Render(a.current) && lineWidth == a.lineWidth
    {
      var word := words[i];
      var w := Max(width(word), 1);
      if lineWidth + w <= maxWidth {
        RenderAppend(a.current, word);
        line := line + word + " ";
        lineWidth := lineWidth + w + 1;
      } else {
        lines := lines + [line];
        line := word + " ";
        lineWidth := w + 1;
        assert Render([word]) == word + " ";
      }
      a := Step(a, words[i], maxWidth, width);
      i := i + 1;
    }
    lines := lines + [line];
  }

  lemma {:induction false} RenderAppend(group: seq<string>, word: string)
    ensures Render(group + [word]) == Render(group) + word + " "
    decreases |group|
  {
    if group == [] {
      assert Render([word]) == word + " " + Render([]);
    } else {
      assert (group + [word])[1..] == group[1..] + [word];
      RenderAppend(group[1..], word);
    }
  }

  lemma {:induction false} FlattenAppend(groups: seq<seq<string>>, g: seq<string>)
    ensures Flatten(groups + [g]) == Flatten(groups) + g
    decreases |groups|
  {
    if groups == [] {
      assert Flatten([g]) == g + Flatten([]);
    } else {
      assert (groups + [g])[1..] == groups[1..] + [g];
      FlattenAppend(groups[1..], g);
    }
  }

  /** Each step keeps the words in order: finished lines, then the current one, then the words still to come. */
  lemma {:induction false} WrapKeepsWords(a: Wrap, words: seq<string>, i: nat, maxWidth: nat, width: string -> nat)
    requires i <= |words|
    ensures var b := WrapFrom(a, words, i, maxWidth, width);
      Flatten(b.done) + b.current == Flatten(a.done) + a.current + words[i..]
    decreases |words| - i
  {
    if i < |words| {
      var b := Step(a, words[i], maxWidth, width);
      WrapKeepsWords(b, words, i + 1, maxWidth, width);
      assert words[i..] == [words[i]] + words[i + 1..];
      if b.done != a.done {
        FlattenAppend(a.done, a.current);
      }
    }
  }

  /** Wrapping keeps every word, in order: the lines hold exactly the words of the body. */
  lemma {:induction false} GroupsKeepWords(words: seq<string>, maxWidth: nat, width: string -> nat)
    ensures Flatten(Groups(words, maxWidth, width)) == words
  {
    var a := WrapFrom(Wrap([], [], 0), words, 0, maxWidth, width);
    WrapKeepsWords(Wrap([], [], 0), words, 0, maxWidth, width);
    FlattenAppend(a.done, a.current);
    assert words[0..] == words;
  }

  /** The columns a line's words take, each counted with its following space. */
  function Budget(group: seq<string>, width: string -> nat): nat
    decreases |group|
  {
    if group == [] then 0 else Budget(group[..|group| - 1], width) + WordWidth(group[|group| - 1], width) + 1
  }

  /** A line fits: its words without the last trailing space fit the width, or it is a single word too wide to share a line. */
  predicate Fits(group: seq<string>, maxWidth: nat, width: string -> nat)
  {
    Budget(group, width) <= maxWidth + 1 || |group| == 1
  }

  /** The state keeps the current line's width and every line fitting. */
  predicate WrapValid(a: Wrap, maxWidth: nat, width: string -> nat)
  {
    && a.lineWidth == Budget(a.current, width)
    && Fits(a.current, maxWidth, width)
    && forall k :: 0 <= k < |a.done| ==> Fits(a.done[k], maxWidth, width)
  }

  lemma {:induction false} StepValid(a: Wrap, word: string, maxWidth: nat, width: string -> nat)
    requires WrapValid(a, maxWidth, width)
    ensures WrapValid(Step(a, word, maxWidth, width), maxWidth, width)
  {
    var b := Step(a, word, maxWidth, width);
    if a.lineWidth + WordWidth(word, width) <= maxWidth {
      assert (a.current + [word])[..|a.current|] == a.current;
    } else {
      assert [word][..0] == [];
      assert forall k :: 0 <= k < |b.done| ==> b.done[k] == if k < |a.done| then a.done[k] else a.current;
    }
  }

  lemma {:induction false} WrapFromValid(a: Wrap, words: seq<string>, i: nat, maxWidth: nat, width: string -> nat)
    requires i <= |words| && WrapValid(a, maxWidth, width)
    ensures WrapValid(WrapFrom(a, words, i, maxWidth, width), maxWidth, width)
    decreases |words| - i
  {
    if i < |words| {
      StepValid(a, words[i], maxWidth, width);
      WrapFromValid(Step(a, words[i], maxWidth, width), words, i + 1, maxWidth, width);
    }
  }

  /**
   * Every line fits the width, apart from a line holding one word that is
   * too wide on its own (and an empty first line that such a word leaves
   * behind).
   */
  lemma {:induction false} GroupsFit(words: seq<string>, maxWidth: nat, width: string -> nat)
    ensures forall k :: 0 <= k < |Groups(words, maxWidth, width)| ==> Fits(Groups(words, maxWidth, width)[k], maxWidth, width)
  {
    WrapFromValid(Wrap([], [], 0), words, 0, maxWidth, width);
  }

  /**
   * A first word wider than the whole line does not fit the empty line
   * either, so the wrapped body starts with an empty line.
   */
  lemma {:induction false} WideFirstWordLeavesEmptyLine(words: seq<string>, maxWidth: nat, width: string -> nat)
    requires |words| >= 1 && WordWidth(words[0], width) > maxWidth
    ensures |Groups(words, maxWidth, width)| >= 2 && Groups(words, maxWidth, width)[0] == []
  {
    var a1 := Step(Wrap([], [], 0), words[0], maxWidth, width);
    assert a1.done == [[]];
    DonePrefix(a1, words, 1, maxWidth, width);
  }

  /** Lines once finished stay finished. */
  lemma {:induction false} DonePrefix(a: Wrap, words: seq<string>, i: nat, maxWidth: nat, width: string -> nat)
    requires i <= |words|
    ensures var b := WrapFrom(a, words, i, maxWidth, width);
      |a.done| <= |b.done| && b.done[..|a.done|] == a.done
    decreases |words| - i
  {
    if i < |words| {
      var s := Step(a, words[i], maxWidth, width);
      DonePrefix(s, words, i + 1, maxWidth, width);
      var b := WrapFrom(s, words, i + 1, maxWidth, width);
      assert s.done[..|a.done|] == a.done;
      assert b.done[..|a.done|] == b.done[..|s.done|][..|a.done|];
    }
  }

  /** A body that fits stays one line; otherwise the lines together are every word followed by a space. */
  lemma {:induction false} WrappedText(s: string, maxWidth: nat, width: string -> nat)
    ensures width(s) <= maxWidth ==> Wrapped(s, maxWidth, width) == [s]
    ensures width(s) > maxWidth ==> Concat(Wrapped(s, maxWidth, width)) == Render(Split(s, ' '))
  {
    if width(s) > maxWidth {
      var g := Groups(Split(s, ' '), maxWidth, width);
      GroupsKeepWords(Split(s, ' '), maxWidth, width);
      ConcatRender(g);
    }
  }

  lemma {:induction false} ConcatRender(g: seq<seq<string>>)
    ensures Concat(seq(|g|, k requires 0 <= k < |g| => Render(g[k]))) == Render(Flatten(g))
    decreases |g|
  {
    if g != [] {
      var lines := seq(|g|, k requires 0 <= k < |g| => Render(g[k]));
      ConcatRender(g[1..]);
      assert lines[1..] == seq(|g[1..]|, k requires 0 <= k < |g[1..]| => Render(g[1..][k]));
      RenderConcat(g[0], Flatten(g[1..]));
    }
  }

  lemma {:induction false} RenderConcat(a: seq<string>, b: seq<string>)
    ensures Render(a + b) == Render(a) + Render(b)
    decreases |a|
  {
    if a != [] {
      assert (a + b)[1..] == a[1..] + b;
      RenderConcat(a[1..], b);
    } else {
      assert a + b == b;
    }
  }
}

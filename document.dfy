/**
 * A document (`document.rs`): the rope, the pending transaction composed from
 * the edits since the last commit, the state it was built on, the undo tree
 * and the revision last saved. Files, clocks, tree-sitter and the language
 * loader are outside the model: what a load reads arrives as parameters.
 */
module Documents {
  import opened Base
  import opened Transactions
  import opened TransactionLaws
  import opened Histories
  import Changes
  import Selection

  // ---------------------------------------------------------------------
  // Lines of a rope
  // ---------------------------------------------------------------------

  const CARRIAGE_RETURN: Byte := 13

  /** Lines longer than this many bytes are broken when a document is loaded. */
  const WRAP_LIMIT: nat := 10_000

  /** A line of the rope: the offset of its first byte and its length without the line break. */
  datatype LineSpan = LineSpan(start: nat, len: nat)

  function IsNewline(b: Byte): bool { b == NEWLINE }

  /** The length of the line at `start` whose line feed is `k` bytes on: a `\r` before the `\n` is part of the break. */
  function BreakFree(rope: seq<Byte>, start: nat, k: nat): (len: nat)
    requires start + k <= |rope|
    ensures len <= k
  {
    if k > 0 && rope[start + k - 1] == CARRIAGE_RETURN then k - 1 else k
  }

  /**
   * `Rope::lines` from byte `start`: each line ends at a line feed, which is not
   * part of it, and a final line feed does not open an empty line.
   */
  function LinesFrom(rope: seq<Byte>, start: nat): seq<LineSpan>
    requires start <= |rope|
    decreases |rope| - start
  {
    if start == |rope| then []
    else match FirstWhere(rope[start..], IsNewline)
      case None => [LineSpan(start, |rope| - start)]
      case Some(k) => [LineSpan(start, BreakFree(rope, start, k))] + LinesFrom(rope, start + k + 1)
  }

  /** Every line lies within the first `n` bytes. */
  predicate Within(ls: seq<LineSpan>, n: nat)
  {
    forall k :: 0 <= k < |ls| ==> ls[k].start + ls[k].len <= n
  }

  /** Lines in order, from byte `from` on, each ending before the next one starts, within `n` bytes. */
  predicate Laid(ls: seq<LineSpan>, from: nat, n: nat)
  {
    && Within(ls, n)
    && (forall k :: 0 <= k < |ls| ==> from <= ls[k].start)
    && (forall k :: 0 <= k < |ls| - 1 ==> ls[k].start + ls[k].len < ls[k + 1].start)
  }

  /** The lines of a rope lie in it in order, separated by their line breaks. */
  lemma {:induction false} LinesLaid(rope: seq<Byte>, start: nat)
    requires start <= |rope|
    ensures Laid(LinesFrom(rope, start), start, |rope|)
    decreases |rope| - start
  {
    if start < |rope| {
      var f := FirstWhere(rope[start..], IsNewline);
      if f.Some? {
        var k := f.value;
        LinesLaid(rope, start + k + 1);
        LaidCons(LineSpan(start, BreakFree(rope, start, k)), LinesFrom(rope, start + k + 1), start + k + 1, |rope|);
      }
    }
  }

  lemma {:induction false} LaidCons(h: LineSpan, rest: seq<LineSpan>, m: nat, n: nat)
    requires Laid(rest, m, n) && h.start + h.len < m && h.start + h.len <= n
    ensures Laid([h] + rest, h.start, n)
  {
    var ls := [h] + rest;
    assert forall j :: 0 < j < |ls| ==> ls[j] == rest[j - 1];
  }

  /** A non-empty rope has a first line. */
  lemma {:induction false} FirstLineExists(rope: seq<Byte>)
    requires rope != []
    ensures LinesFrom(rope, 0) != [] && LinesFrom(rope, 0)[0].start == 0
  {
  }

  function LineOf(rope: seq<Byte>, s: LineSpan): seq<Byte>
    requires s.start + s.len <= |rope|
  {
    rope[s.start..s.start + s.len]
  }

  // ---------------------------------------------------------------------
  // Where long lines are broken
  // ---------------------------------------------------------------------

  /**
   * The first grapheme boundary of `line` at or after `offset`, or the length of
   * the line when none comes before its end.
   */
  function NextBoundary(line: seq<Byte>, isBoundary: (seq<Byte>, nat) -> bool, offset: nat): (b: nat)
    requires offset < |line|
    ensures offset <= b <= |line|
    decreases |line| - offset
  {
    if isBoundary(line, offset) then offset
    else if offset + 1 == |line| then |line|
    else NextBoundary(line, isBoundary, offset + 1)
  }

  /** The boundary found is one, and no boundary is skipped on the way to it. */
  lemma {:induction false} NextBoundaryIsFirst(line: seq<Byte>, isBoundary: (seq<Byte>, nat) -> bool, offset: nat, k: nat)
    requires offset <= k < |line|
    ensures NextBoundary(line, isBoundary, offset) < |line| ==> isBoundary(line, NextBoundary(line, isBoundary, offset))
    ensures k < NextBoundary(line, isBoundary, offset) ==> !isBoundary(line, k)
    decreases |line| - offset
  {
    if !isBoundary(line, offset) && offset + 1 < |line| {
      if k == offset {
        NextBoundaryIsFirst(line, isBoundary, offset + 1, offset + 1);
      } else {
        NextBoundaryIsFirst(line, isBoundary, offset + 1, k);
      }
    }
  }

  /**
   * The offsets in `line` where `hard_wrap_long_lines` puts a line feed, from
   * `offset` on: the first boundary at or after it, then again `WRAP_LIMIT`
   * bytes on, until the end of the line.
   */
  function Cuts(line: seq<Byte>, isBoundary: (seq<Byte>, nat) -> bool, offset: nat): seq<nat>
    decreases if offset < |line| then |line| - offset else 0
  {
    if offset >= |line| then []
    else
      var b := NextBoundary(line, isBoundary, offset);
      if b == |line| then [] else [b] + Cuts(line, isBoundary, b + WRAP_LIMIT)
  }

  /** Every cut is a grapheme boundary inside the line, and cuts are at least `WRAP_LIMIT` bytes apart. */
  lemma {:induction false} CutsSpaced(line: seq<Byte>, isBoundary: (seq<Byte>, nat) -> bool, offset: nat)
    ensures forall j :: 0 <= j < |Cuts(line, isBoundary, offset)| ==>
      offset <= Cuts(line, isBoundary, offset)[j] < |line| && isBoundary(line, Cuts(line, isBoundary, offset)[j])
    ensures forall i, j :: 0 <= i < j < |Cuts(line, isBoundary, offset)| ==>
      Cuts(line, isBoundary, offset)[i] + WRAP_LIMIT <= Cuts(line, isBoundary, offset)[j]
    decreases if offset < |line| then |line| - offset else 0
  {
    if offset < |line| {
      var b := NextBoundary(line, isBoundary, offset);
      NextBoundaryIsFirst(line, isBoundary, offset, offset);
      if b < |line| {
        var rest := Cuts(line, isBoundary, b + WRAP_LIMIT);
        CutsSpaced(line, isBoundary, b + WRAP_LIMIT);
        var cs := [b] + rest;
        assert Cuts(line, isBoundary, offset) == cs;
        assert forall j :: 0 < j < |cs| ==> cs[j] == rest[j - 1];
      } else {
        assert Cuts(line, isBoundary, offset) == [];
      }
    }
  }

  /** A line of no more than `WRAP_LIMIT` bytes is never cut. */
  lemma {:induction false} ShortLineUncut(line: seq<Byte>, isBoundary: (seq<Byte>, nat) -> bool)
    requires |line| <= WRAP_LIMIT
    ensures Cuts(line, isBoundary, WRAP_LIMIT) == []
  {
  }

  /** A line longer than `WRAP_LIMIT` bytes with a boundary at `WRAP_LIMIT` is cut there first. */
  lemma {:induction false} LongLineCut(line: seq<Byte>, isBoundary: (seq<Byte>, nat) -> bool)
    requires WRAP_LIMIT < |line| && isBoundary(line, WRAP_LIMIT)
    ensures Cuts(line, isBoundary, WRAP_LIMIT) != [] && Cuts(line, isBoundary, WRAP_LIMIT)[0] == WRAP_LIMIT
  {
  }

  function Shift(base: nat, cs: seq<nat>): (ps: seq<nat>)
  {
    seq(|cs|, k requires 0 <= k < |cs| => base + cs[k])
  }

  /** Where `hard_wrap_long_lines` breaks the lines `ls` of `rope`, as offsets into the unwrapped rope. */
  function WrapPositions(rope: seq<Byte>, isBoundary: (seq<Byte>, nat) -> bool, ls: seq<LineSpan>): (ps: seq<nat>)
    requires Within(ls, |rope|)
    decreases |ls|
  {
    if ls == [] then []
    else
      var last := ls[|ls| - 1];
      WrapPositions(rope, isBoundary, ls[..|ls| - 1]) + Shift(last.start, Cuts(LineOf(rope, last), isBoundary, WRAP_LIMIT))
  }

  /** Strictly increasing. */
  predicate Increasing(ps: seq<nat>)
  {
    forall i, j :: 0 <= i < j < |ps| ==> ps[i] < ps[j]
  }

  /** The cuts of one line, placed at the line's offset, are increasing and inside the line. */
  lemma {:induction false} ShiftedCuts(rope: seq<Byte>, isBoundary: (seq<Byte>, nat) -> bool, s: LineSpan)
    requires s.start + s.len <= |rope|
    ensures var ps := Shift(s.start, Cuts(LineOf(rope, s), isBoundary, WRAP_LIMIT));
      && Increasing(ps)
      && forall j :: 0 <= j < |ps| ==> s.start <= ps[j] < s.start + s.len
  {
    CutsSpaced(LineOf(rope, s), isBoundary, WRAP_LIMIT);
  }

  /** Wrap positions increase, and each lies inside the line it breaks. */
  lemma {:induction false} WrapPositionsIncreasing(rope: seq<Byte>, isBoundary: (seq<Byte>, nat) -> bool, ls: seq<LineSpan>, from: nat)
    requires Laid(ls, from, |rope|)
    ensures var ps := WrapPositions(rope, isBoundary, ls);
      && Increasing(ps)
      && forall j :: 0 <= j < |ps| ==> from <= ps[j] < ls[|ls| - 1].start + ls[|ls| - 1].len
    decreases |ls|
  {
    if ls != [] {
      var init := ls[..|ls| - 1];
      var last := ls[|ls| - 1];
      var a := WrapPositions(rope, isBoundary, init);
      var b := Shift(last.start, Cuts(LineOf(rope, last), isBoundary, WRAP_LIMIT));
      ShiftedCuts(rope, isBoundary, last);
      if init != [] {
        assert Laid(init, from, |rope|);
        WrapPositionsIncreasing(rope, isBoundary, init, from);
        assert init[|init| - 1].start + init[|init| - 1].len < last.start;
      }
      assert WrapPositions(rope, isBoundary, ls) == a + b;
      IncreasingJoin(a, b);
    }
  }

  lemma {:induction false} IncreasingJoin(a: seq<nat>, b: seq<nat>)
    requires Increasing(a) && Increasing(b)
    requires forall i, j :: 0 <= i < |a| && 0 <= j < |b| ==> a[i] < b[j]
    ensures Increasing(a + b)
  {
  }

  /** Increasing positions, none past `n`. */
  predicate Fits(ps: seq<nat>, n: nat)
  {
    Increasing(ps) && forall j :: 0 <= j < |ps| ==> ps[j] <= n
  }

  /** The positions where `hard_wrap_long_lines` breaks the lines of `rope`: increasing, each before its end. */
  function WrapPoints(rope: seq<Byte>, isBoundary: (seq<Byte>, nat) -> bool): (ps: seq<nat>)
    ensures Fits(ps, |rope|) && forall j :: 0 <= j < |ps| ==> ps[j] < |rope|
  {
    LinesLaid(rope, 0);
    WrapPositionsIncreasing(rope, isBoundary, LinesFrom(rope, 0), 0);
    WrapPositions(rope, isBoundary, LinesFrom(rope, 0))
  }

  /** `rope` with a line feed inserted before each of the positions `ps`. */
  function Wrapped(rope: seq<Byte>, ps: seq<nat>): (r: seq<Byte>)
    requires Fits(ps, |rope|)
    ensures |r| == |rope| + |ps|
    decreases |ps|
  {
    if ps == [] then rope
    else
      var p := ps[|ps| - 1];
      Wrapped(rope[..p], ps[..|ps| - 1]) + [NEWLINE] + rope[p..]
  }

  /** The rope `hard_wrap_long_lines` leaves. */
  function HardWrapped(rope: seq<Byte>, isBoundary: (seq<Byte>, nat) -> bool): (r: seq<Byte>)
    ensures |r| == |rope| + |WrapPoints(rope, isBoundary)|
  {
    Wrapped(rope, WrapPoints(rope, isBoundary))
  }

  /** Line feeds before positions up to `q` leave the bytes from `q` on as they were. */
  lemma {:induction false} WrappedSplit(rope: seq<Byte>, ps: seq<nat>, q: nat)
    requires q <= |rope| && Fits(ps, q)
    ensures Wrapped(rope, ps) == Wrapped(rope[..q], ps) + rope[q..]
  {
    if ps != [] {
      var p := ps[|ps| - 1];
      assert rope[..q][..p] == rope[..p];
      assert rope[..q][p..] + rope[q..] == rope[p..];
    }
  }

  /** `offsets[k]` is `ps[k]` moved on by the `k` line feeds inserted before it. */
  function Staggered(ps: seq<nat>): (offsets: seq<nat>)
    ensures |offsets| == |ps|
  {
    seq(|ps|, k requires 0 <= k < |ps| => ps[k] + k)
  }

  /** The rope with line feeds before the first `k` of the positions `ps`. */
  function WrappedUpTo(rope: seq<Byte>, ps: seq<nat>, k: nat): (r: seq<Byte>)
    requires Fits(ps, |rope|) && k <= |ps|
    ensures |r| == |rope| + k
  {
    assert Fits(ps[..k], |rope|);
    Wrapped(rope, ps[..k])
  }

  /** The change inserting one line feed at `o`. */
  function LineFeedAt(o: nat): seq<Changes.Change>
  {
    [Changes.Change(o, o, Some([NEWLINE]))]
  }

  /** Inserting at the next staggered offset of the partly wrapped rope wraps one more position. */
  lemma {:induction false} WrapStep(rope: seq<Byte>, ps: seq<nat>, k: nat)
    requires Fits(ps, |rope|) && k < |ps|
    ensures var cur := WrappedUpTo(rope, ps, k); var o := ps[k] + k;
      && o <= |cur|
      && Changes.Ordered(LineFeedAt(o), 0, |cur|)
      && Changes.Replaced(cur, LineFeedAt(o), 0) == WrappedUpTo(rope, ps, k + 1)
  {
    var head := ps[..k];
    var p := ps[k];
    assert ps[..k + 1][..k] == head && ps[..k + 1][k] == p;
    assert Fits(head, p);
    WrappedSplit(rope, head, p);
    var w := Wrapped(rope[..p], head);
    var cur := Wrapped(rope, head);
    var o := p + k;
    assert cur == w + rope[p..];
    assert cur[..o] == w && cur[o..] == rope[p..];
    var c := Changes.Change(o, o, Some([NEWLINE]));
    assert Changes.Ordered([c][1..], o, |cur|);
    assert Changes.Replaced(cur, [c], 0) == cur[0..o] + [NEWLINE] + Changes.Replaced(cur, [c][1..], o);
  }

  /** Increasing indices, all below `n`. */
  predicate Below(qs: seq<nat>, n: nat)
  {
    Increasing(qs) && forall j :: 0 <= j < |qs| ==> qs[j] < n
  }

  /** `bytes` with the bytes at the indices `qs` taken out. */
  function Removed(bytes: seq<Byte>, qs: seq<nat>): (r: seq<Byte>)
    requires Below(qs, |bytes|)
    decreases |qs|
  {
    if qs == [] then bytes
    else
      var q := qs[|qs| - 1];
      Removed(bytes[..q], qs[..|qs| - 1]) + bytes[q + 1..]
  }

  /** Staggered positions of a wrapped rope are increasing indices into it. */
  lemma {:induction false} StaggeredBelow(rope: seq<Byte>, ps: seq<nat>)
    requires Fits(ps, |rope|)
    ensures Below(Staggered(ps), |Wrapped(rope, ps)|)
  {
  }

  /** Each inserted line feed sits at its staggered offset. */
  lemma {:induction false} WrappedMarks(rope: seq<Byte>, ps: seq<nat>)
    requires Fits(ps, |rope|)
    ensures forall j :: 0 <= j < |ps| ==> Staggered(ps)[j] < |Wrapped(rope, ps)| && Wrapped(rope, ps)[Staggered(ps)[j]] == NEWLINE
    decreases |ps|
  {
    if ps != [] {
      var n := |ps|;
      var p := ps[n - 1];
      var init := ps[..n - 1];
      var w := Wrapped(rope[..p], init);
      var r := Wrapped(rope, ps);
      assert r == w + [NEWLINE] + rope[p..];
      WrappedMarks(rope[..p], init);
      forall j | 0 <= j < n
        ensures Staggered(ps)[j] < |r| && r[Staggered(ps)[j]] == NEWLINE
      {
        if j < n - 1 {
          assert Staggered(ps)[j] == Staggered(init)[j];
        }
      }
    }
  }

  /** The last line feed of a wrapped rope splits it into the rope wrapped before it and the rest as it was. */
  lemma {:induction false} WrappedLast(rope: seq<Byte>, ps: seq<nat>)
    requires Fits(ps, |rope|) && ps != []
    ensures var n := |ps|; var p := ps[n - 1]; var q := p + n - 1;
      && Fits(ps[..n - 1], p)
      && Staggered(ps)[n - 1] == q && Staggered(ps)[..n - 1] == Staggered(ps[..n - 1])
      && q < |Wrapped(rope, ps)|
      && Wrapped(rope, ps)[..q] == Wrapped(rope[..p], ps[..n - 1])
      && Wrapped(rope, ps)[q + 1..] == rope[p..]
  {
    var n := |ps|;
    var p := ps[n - 1];
    var w := Wrapped(rope[..p], ps[..n - 1]);
    assert Wrapped(rope, ps) == w + [NEWLINE] + rope[p..];
  }

  /** Wrapping only adds line feeds: taking them out again gives back the rope. */
  lemma {:induction false} WrappedRoundTrip(rope: seq<Byte>, ps: seq<nat>)
    requires Fits(ps, |rope|)
    ensures Below(Staggered(ps), |Wrapped(rope, ps)|)
    ensures Removed(Wrapped(rope, ps), Staggered(ps)) == rope
    decreases |ps|
  {
    StaggeredBelow(rope, ps);
    if ps != [] {
      var n := |ps|;
      WrappedLast(rope, ps);
      WrappedRoundTrip(rope[..ps[n - 1]], ps[..n - 1]);
      RoundTripStep(rope, ps);
    }
  }

  /** The round trip for all positions, from the round trip for all but the last. */
  lemma {:induction false} RoundTripStep(rope: seq<Byte>, ps: seq<nat>)
    requires Fits(ps, |rope|) && ps != [] && Fits(ps[..|ps| - 1], ps[|ps| - 1])
    requires Below(Staggered(ps), |Wrapped(rope, ps)|)
    requires var p := ps[|ps| - 1]; var init := ps[..|ps| - 1];
      && Below(Staggered(init), |Wrapped(rope[..p], init)|)
      && Removed(Wrapped(rope[..p], init), Staggered(init)) == rope[..p]
    ensures Removed(Wrapped(rope, ps), Staggered(ps)) == rope
  {
    var p := ps[|ps| - 1];
    WrappedLast(rope, ps);
    assert rope[..p] + rope[p..] == rope;
  }

  // ---------------------------------------------------------------------
  // The pending transaction
  // ---------------------------------------------------------------------

  /**
   * What `apply` keeps of the pending transaction: when there is one, `old_state`
   * holds the rope it was built on, it consumes all of that rope, it is in the
   * builders' form, and it turns that rope into the current one.
   */
  predicate Coherent(pending: Transaction, oldState: Option<State>, rope: seq<Byte>)
  {
    pending.operations != [] ==>
      && oldState.Some?
      && InLen(pending.operations) == |oldState.value.rope|
      && Canonical(pending.operations)
      && ApplyAt(pending.operations, oldState.value.rope, 0) == Some(rope)
  }

  /**
   * A transaction built by `Transaction::change` on the current rope, whatever
   * selection it is given, consumes all of the rope, turns it into the rope with
   * the changes made, and composes with a coherent pending transaction: `modify`
   * never reaches the panic in `compose`.
   */
  lemma {:induction false} PendingComposes(pending: Transaction, oldState: Option<State>, rope: seq<Byte>,
                                           changes: seq<Changes.Change>, sel: Selection.Selection)
    requires Coherent(pending, oldState, rope) && Changes.Ordered(changes, 0, |rope|)
    ensures var t := Changes.Changed(rope, changes).(selection := sel);
      && InLen(t.operations) == |rope| && Canonical(t.operations)
      && ApplyAt(t.operations, rope, 0) == Some(Changes.Replaced(rope, changes, 0))
      && Composed(pending, t).Some?
  {
    var t := Changes.Changed(rope, changes).(selection := sel);
    Changes.ChangedApplies(rope, changes);
    if pending.operations != [] && t.operations != [] {
      ApplyFromStart(pending.operations, oldState.value.rope);
      assert OutLen(pending.operations) == |rope|;
      ComposeTotal(pending.operations, t.operations, []);
    }
  }

  /** Applying a transaction to the rope and composing it onto a coherent pending one keeps the two coherent. */
  lemma {:induction false} ComposedCoherent(pending: Transaction, oldState: Option<State>, rope: seq<Byte>, t: Transaction)
    requires Coherent(pending, oldState, rope) && pending.operations != [] && t.operations != []
    requires ApplyAt(t.operations, rope, 0).Some? && Composed(pending, t).Some?
    ensures Coherent(Composed(pending, t).value, oldState, ApplyAt(t.operations, rope, 0).value)
  {
    ComposeLens(pending.operations, t.operations, []);
    ComposeCanonical(pending.operations, t.operations, []);
    ComposedApply(pending, t, oldState.value.rope);
  }

  // ---------------------------------------------------------------------
  // The document
  // ---------------------------------------------------------------------

  class Document {
    var rope: seq<Byte>
    var readonly: bool
    var language: Option<string>
    var lastSavedRevision: nat
    var selections: map<nat, Selection.Selection>
    var history: History
    /** The edits applied since the last commit, composed into one. */
    var transaction: Transaction
    /** The rope and selection the pending transaction was built on. */
    var oldState: Option<State>

    /** The undo tree is well formed, the saved revision is one of it, and the pending transaction is coherent. */
    ghost predicate Valid()
      reads this, history
    {
      && history.Valid()
      && lastSavedRevision < |history.revisions|
      && Coherent(transaction, oldState, rope)
    }

    /** `is_modified`: the current revision is not the saved one, or edits are pending. */
    predicate IsModified()
      reads this, history
    {
      history.current != lastSavedRevision || transaction.operations != []
    }

    /** `Document::new`: a scratch document holding one line feed, with the default selection in its pane. */
    constructor (paneId: nat)
      ensures Valid() && fresh(history)
      ensures rope == [NEWLINE] && !readonly && language.None? && lastSavedRevision == 0
      ensures selections == map[paneId := Selection.DefaultSelection]
      ensures transaction == Empty() && oldState.None?
      ensures history.current == 0 && |history.revisions| == 1
      ensures !IsModified()
    {
      rope := [NEWLINE];
      readonly := false;
      language := None;
      lastSavedRevision := 0;
      selections := map[paneId := Selection.DefaultSelection];
      history := new History();
      transaction := Empty();
      oldState := None;
    }

    /** `selection`: the pane's selection; None where the source panics on a pane the document is not shown in. */
    function SelectionOf(paneId: nat): (r: Option<Selection.Selection>)
      reads this
      ensures r.Some? <==> paneId in selections
      ensures r.Some? ==> r.value == selections[paneId]
    {
      if paneId in selections then Some(selections[paneId]) else None
    }

    /** `set_selection`: the pane's selection is replaced; other panes keep theirs. */
    method SetSelection(paneId: nat, selection: Selection.Selection)
      requires Valid()
      modifies this
      ensures Valid()
      ensures selections == old(selections)[paneId := selection]
      ensures SelectionOf(paneId) == Some(selection)
      ensures forall other :: other != paneId ==> SelectionOf(other) == old(SelectionOf(other))
      ensures rope == old(rope) && readonly == old(readonly) && language == old(language)
      ensures lastSavedRevision == old(lastSavedRevision) && history == old(history)
      ensures transaction == old(transaction) && oldState == old(oldState)
    {
      selections := selections[paneId := selection];
    }

    /** `save`: the current revision becomes the saved one, so with nothing pending the document is unmodified. */
    method Save()
      requires Valid()
      modifies this
      ensures Valid()
      ensures lastSavedRevision == history.current
      ensures IsModified() <==> transaction.operations != []
      ensures rope == old(rope) && readonly == old(readonly) && language == old(language)
      ensures selections == old(selections) && history == old(history)
      ensures transaction == old(transaction) && oldState == old(oldState)
    {
      lastSavedRevision := history.current;
    }

    /**
     * `apply`: an empty transaction changes nothing. Otherwise the transaction is
     * applied to the rope and composed onto the pending one, and the rope it was
     * applied to is kept as `old_state` when nothing was pending. Where the source
     * panics (the transaction does not fit the rope, or the composition fails)
     * the result is false and nothing changes.
     */
    method Apply(t: Transaction) returns (ok: bool)
      requires Valid()
      modifies this
      ensures history == old(history) && readonly == old(readonly) && language == old(language)
      ensures lastSavedRevision == old(lastSavedRevision) && selections == old(selections)
      ensures t.operations == [] ==> ok
      ensures t.operations != [] ==>
        (ok <==> ApplyAt(t.operations, old(rope), 0).Some? && Composed(old(transaction), t).Some?)
      ensures !ok || t.operations == [] ==>
        rope == old(rope) && transaction == old(transaction) && oldState == old(oldState)
      ensures ok && t.operations != [] ==>
        && Some(rope) == ApplyAt(t.operations, old(rope), 0)
        && Some(transaction) == Composed(old(transaction), t)
        && oldState == (if old(transaction).operations == [] then Some(State(old(rope), t.selection)) else old(oldState))
      ensures ok && (Fresh(old(transaction), t) ==> InLen(t.operations) == |old(rope)| && Canonical(t.operations)) ==> Valid()
    {
      if t.operations == [] {
        return true;
      }
      var pending := transaction;
      var composed := Compose(pending, t);
      if ApplyAt(t.operations, rope, 0).None? || composed.None? {
        return false;
      }
      if pending.operations == [] {
        oldState := Some(State(rope, t.selection));
      } else {
        ComposedCoherent(pending, oldState, rope, t);
      }
      rope := Transactions.Apply(t, rope);
      transaction := composed.value;
      ok := true;
    }

    /**
     * `modify`: a readonly document refuses the edit. Otherwise the changes
     * become a transaction carrying `sel`, which is applied and returned.
     */
    method Modify(changes: seq<Changes.Change>, sel: Selection.Selection) returns (r: Option<Transaction>)
      requires Valid() && Changes.Ordered(changes, 0, |rope|)
      modifies this
      ensures Valid()
      ensures history == old(history) && readonly == old(readonly) && language == old(language)
      ensures lastSavedRevision == old(lastSavedRevision) && selections == old(selections)
      ensures old(readonly) ==>
        r.None? && rope == old(rope) && transaction == old(transaction) && oldState == old(oldState)
      ensures !old(readonly) ==>
        var t := Changes.Changed(old(rope), changes).(selection := sel);
        && r == Some(t)
        && rope == Changes.Replaced(old(rope), changes, 0)
        && (t.operations == [] ==> transaction == old(transaction) && oldState == old(oldState))
        && (t.operations != [] ==> Some(transaction) == Composed(old(transaction), t))
        && (Fresh(old(transaction), t) ==> oldState == Some(State(old(rope), sel)))
        && (!Fresh(old(transaction), t) ==> oldState == old(oldState))
    {
      if readonly {
        return None;
      }
      var t := ApplyChanges(changes, sel);
      r := Some(t);
    }

    /**
     * `Transaction::change` on the rope, given the selection `sel`, and then
     * `apply`: the transaction always fits the rope and composes with the
     * pending one, so the new rope is the old one with the changes made.
     */
    method ApplyChanges(changes: seq<Changes.Change>, sel: Selection.Selection) returns (t: Transaction)
      requires Valid() && Changes.Ordered(changes, 0, |rope|)
      modifies this
      ensures Valid()
      ensures history == old(history) && readonly == old(readonly) && language == old(language)
      ensures lastSavedRevision == old(lastSavedRevision) && selections == old(selections)
      ensures t == Changes.Changed(old(rope), changes).(selection := sel)
      ensures rope == Changes.Replaced(old(rope), changes, 0)
      ensures t.operations == [] ==> transaction == old(transaction) && oldState == old(oldState)
      ensures t.operations != [] ==> Some(transaction) == Composed(old(transaction), t)
      ensures Fresh(old(transaction), t) ==> oldState == Some(State(old(rope), sel))
      ensures !Fresh(old(transaction), t) ==> oldState == old(oldState)
    {
      var built := Changes.FromChanges(rope, changes);
      t := built.(selection := sel);
      PendingComposes(transaction, oldState, rope, changes, sel);
      var ok := Apply(t);
    }

    /**
     * `commit_transaction_to_history`: with nothing pending nothing is committed.
     * Otherwise the pending transaction, with its inversion against `old_state`,
     * becomes the new current revision. Coherence means the `old_state` the
     * source expects is always there. The pending transaction is reset either way.
     */
    method CommitTransactionToHistory()
      requires Valid()
      modifies this, history
      ensures Valid()
      ensures transaction == Empty()
      ensures rope == old(rope) && readonly == old(readonly) && language == old(language)
      ensures lastSavedRevision == old(lastSavedRevision) && selections == old(selections) && history == old(history)
      ensures old(transaction).operations == [] ==>
        && oldState == old(oldState)
        && history.revisions == old(history.revisions) && history.current == old(history.current)
        && history.origins == old(history.origins)
      ensures old(transaction).operations != [] ==>
        && oldState.None?
        && history.current == old(|history.revisions|) && |history.revisions| == history.current + 1
        && history.revisions[history.current].parent == old(history.current)
        && history.revisions[history.current].transaction == old(transaction)
        && history.origins[history.current] == old(oldState.value)
        && IsModified()
    {
      var pending := transaction;
      transaction := Empty();
      if pending.operations == [] {
        return;
      }
      var original := oldState.value;
      oldState := None;
      history.CommitRevision(pending, original);
    }

    /**
     * `undo_redo`: the transaction the undo tree hands back is applied and its
     * selection returned; the pending transaction is then dropped. When nothing
     * was pending and the rope is what the current revision made of its origin,
     * undo restores the origin's rope and selection; when the rope is the origin
     * of the last child, redo makes the child's rope again. `ok` is false where
     * the source panics applying a transaction that does not fit the rope.
     */
    method UndoRedo(undo: bool) returns (r: Option<Selection.Selection>, ok: bool)
      requires Valid()
      modifies this, history
      ensures Valid()
      ensures transaction == Empty()
      ensures readonly == old(readonly) && language == old(language) && history == old(history)
      ensures lastSavedRevision == old(lastSavedRevision) && selections == old(selections)
      ensures history.revisions == old(history.revisions) && history.origins == old(history.origins)
      ensures IsModified() <==> history.current != lastSavedRevision
      ensures undo && old(history.current) == 0 ==> r.None? && ok && rope == old(rope) && history.current == 0
      ensures undo && old(history.current) > 0 ==> history.current == old(history.revisions[history.current].parent)
      ensures undo && old(history.current) > 0 && old(transaction).operations == []
                && old(ApplyAt(history.revisions[history.current].transaction.operations, history.origins[history.current].rope, 0)) == Some(old(rope))
        ==> ok && rope == old(history.origins[history.current].rope) && r == Some(old(history.origins[history.current].selection))
      ensures !undo && old(history.revisions[history.current].lastChild).None? ==>
        r.None? && ok && rope == old(rope) && history.current == old(history.current)
      ensures !undo && old(history.revisions[history.current].lastChild).Some? ==>
        history.current == old(history.revisions[history.current].lastChild.value)
      ensures !undo && old(history.revisions[history.current].lastChild).Some? && old(transaction).operations == []
                && history.origins[history.current].rope == old(rope)
        ==> ok && Some(rope) == ApplyAt(history.revisions[history.current].transaction.operations, old(rope), 0)
            && r == Some(history.revisions[history.current].transaction.selection)
    {
      ghost var before := rope;
      var t: Option<Transaction>;
      if undo {
        t := history.Undo();
      } else {
        t := history.Redo();
      }
      r := None;
      ok := true;
      if t.Some? {
        ok := Apply(t.value);
        r := Some(t.value.selection);
      }
      transaction := Empty();
    }

    /**
     * `hard_wrap_long_lines`: a line feed goes in every `WRAP_LIMIT` bytes of a
     * long line, moved on to the next grapheme boundary (`isBoundary`), each
     * through its own transaction at an offset shifted by the line feeds already
     * inserted. The document is readonly exactly when something was wrapped.
     */
    method HardWrapLongLines(isBoundary: (seq<Byte>, nat) -> bool) returns (wrapped: bool)
      requires Valid()
      modifies this
      ensures Valid()
      ensures rope == HardWrapped(old(rope), isBoundary)
      ensures wrapped <==> WrapPoints(old(rope), isBoundary) != []
      ensures readonly == wrapped
      ensures !wrapped ==> rope == old(rope) && transaction == old(transaction) && oldState == old(oldState)
      ensures history == old(history) && language == old(language)
      ensures lastSavedRevision == old(lastSavedRevision) && selections == old(selections)
    {
      ghost var ps := WrapPoints(rope, isBoundary);
      var offsets := WrapOffsets(rope, isBoundary);
      wrapped := offsets != [];
      readonly := wrapped;
      if wrapped {
        InsertLineFeeds(rope, ps, offsets);
      }
      assert ps[..|ps|] == ps;
    }

    /** The insertion loop of `hard_wrap_long_lines`: line feeds at the staggered wrap points, one at a time. */
    method InsertLineFeeds(ghost orig: seq<Byte>, ghost ps: seq<nat>, offsets: seq<nat>)
      requires Valid() && rope == orig && Fits(ps, |orig|) && offsets == Staggered(ps)
      modifies this
      ensures Valid()
      ensures rope == WrappedUpTo(orig, ps, |ps|)
      ensures history == old(history) && language == old(language) && readonly == old(readonly)
      ensures lastSavedRevision == old(lastSavedRevision) && selections == old(selections)
    {
      var k := 0;
      while k < |offsets|
        invariant 0 <= k <= |ps| == |offsets|
        invariant rope == WrappedUpTo(orig, ps, k)
        invariant Valid()
        invariant history == old(history) && language == old(language) && readonly == old(readonly)
        invariant lastSavedRevision == old(lastSavedRevision) && selections == old(selections)
      {
        WrapStep(orig, ps, k);
        InsertLineFeed(offsets[k]);
        k := k + 1;
      }
    }

    /** One insertion of `hard_wrap_long_lines`: a line feed at `o` through its own transaction. */
    method InsertLineFeed(o: nat)
      requires Valid() && o <= |rope|
      modifies this
      ensures Valid()
      ensures rope == Changes.Replaced(old(rope), LineFeedAt(o), 0)
      ensures history == old(history) && language == old(language) && readonly == old(readonly)
      ensures lastSavedRevision == old(lastSavedRevision) && selections == old(selections)
    {
      var t := ApplyChanges(LineFeedAt(o), Selection.DefaultSelection);
    }
  }

  /** Whether applying `t` onto `pending` starts a new pending transaction. */
  predicate Fresh(pending: Transaction, t: Transaction)
  {
    pending.operations == [] && t.operations != []
  }

  /**
   * The offsets `hard_wrap_long_lines` collects: for each line, in order, its
   * cuts placed at the line's first byte (`byte_of_line`) and moved on by the
   * number of offsets collected before.
   */
  method WrapOffsets(rope: seq<Byte>, isBoundary: (seq<Byte>, nat) -> bool) returns (offsets: seq<nat>)
    ensures offsets == Staggered(WrapPoints(rope, isBoundary))
  {
    LinesLaid(rope, 0);
    var lines := LinesFrom(rope, 0);
    offsets := [];
    var i := 0;
    while i < |lines|
      invariant 0 <= i <= |lines|
      invariant offsets == Staggered(WrapPositions(rope, isBoundary, lines[..i]))
    {
      var line := lines[i];
      var cs := LineCuts(LineOf(rope, line), isBoundary);
      ghost var before := WrapPositions(rope, isBoundary, lines[..i]);
      offsets := PlaceCuts(offsets, before, line.start, cs);
      assert lines[..i + 1][..i] == lines[..i] && lines[..i + 1][i] == line;
      i := i + 1;
    }
    assert lines[..i] == lines;
  }

  /** The inner loop of `hard_wrap_long_lines`: each cut placed at the line's offset and moved on by the offsets before it. */
  method PlaceCuts(offsets: seq<nat>, ghost before: seq<nat>, start: nat, cs: seq<nat>) returns (r: seq<nat>)
    requires offsets == Staggered(before)
    ensures r == Staggered(before + Shift(start, cs))
  {
    r := offsets;
    var j := 0;
    while j < |cs|
      invariant 0 <= j <= |cs|
      invariant r == Staggered(before + Shift(start, cs[..j]))
    {
      PlaceStep(before, start, cs, j);
      r := r + [start + cs[j] + |r|];
      j := j + 1;
    }
    assert cs[..j] == cs;
  }

  lemma {:induction false} PlaceStep(before: seq<nat>, start: nat, cs: seq<nat>, j: nat)
    requires j < |cs|
    ensures Staggered(before + Shift(start, cs[..j + 1]))
      == Staggered(before + Shift(start, cs[..j])) + [start + cs[j] + |before + Shift(start, cs[..j])|]
  {
    var q := before + Shift(start, cs[..j]);
    assert before + Shift(start, cs[..j + 1]) == q + [start + cs[j]];
    StaggeredSnoc(q, start + cs[j]);
  }

  lemma {:induction false} StaggeredSnoc(ps: seq<nat>, p: nat)
    ensures Staggered(ps + [p]) == Staggered(ps) + [p + |ps|]
  {
  }

  /** The cut scan over one line: at `WRAP_LIMIT`, then on to a boundary, then `WRAP_LIMIT` further. */
  method LineCuts(line: seq<Byte>, isBoundary: (seq<Byte>, nat) -> bool) returns (cs: seq<nat>)
    ensures cs == Cuts(line, isBoundary, WRAP_LIMIT)
  {
    cs := [];
    var offset := WRAP_LIMIT;
    while offset < |line|
      invariant Cuts(line, isBoundary, WRAP_LIMIT) == cs + Cuts(line, isBoundary, offset)
      decreases |line| - offset
    {
      ghost var prev := offset;
      offset := SkipToBoundary(line, isBoundary, offset);
      CutsUnfold(line, isBoundary, prev);
      if offset < |line| {
        ghost var rest := Cuts(line, isBoundary, offset + WRAP_LIMIT);
        assert cs + ([offset] + rest) == (cs + [offset]) + rest;
        cs := cs + [offset];
        offset := offset + WRAP_LIMIT;
      }
    }
  }

  lemma {:induction false} CutsUnfold(line: seq<Byte>, isBoundary: (seq<Byte>, nat) -> bool, offset: nat)
    requires offset < |line|
    ensures var b := NextBoundary(line, isBoundary, offset);
      Cuts(line, isBoundary, offset) == if b < |line| then [b] + Cuts(line, isBoundary, b + WRAP_LIMIT) else []
  {
  }

  /** The inner scan: on byte by byte until a boundary, giving up at the end of the line. */
  method SkipToBoundary(line: seq<Byte>, isBoundary: (seq<Byte>, nat) -> bool, start: nat) returns (offset: nat)
    requires start < |line|
    ensures offset == NextBoundary(line, isBoundary, start)
  {
    offset := start;
    while !isBoundary(line, offset)
      invariant start <= offset < |line|
      invariant NextBoundary(line, isBoundary, offset) == NextBoundary(line, isBoundary, start)
      decreases |line| - offset
    {
      offset := offset + 1;
      if offset == |line| {
        return;
      }
    }
  }

  /**
   * `Document::open` on a file whose bytes are `contents`: an empty file becomes
   * a single line feed, the language is the one known for the path or else the
   * one the first line's shebang names, and long lines are wrapped. The file's
   * own readonly flag is set first and then replaced by whether anything was
   * wrapped, as `hard_wrap_long_lines` assigns it.
   */
  method Open(paneId: nat, contents: seq<Byte>, fileReadonly: bool, pathLanguage: Option<string>,
              shebangLanguage: seq<Byte> -> Option<string>, isBoundary: (seq<Byte>, nat) -> bool)
    returns (wrapped: bool, d: Document)
    ensures fresh(d) && fresh(d.history) && d.Valid()
    ensures d.rope == HardWrapped(Loaded(contents), isBoundary)
    ensures d.language == (if pathLanguage.Some? then pathLanguage else shebangLanguage(FirstLine(Loaded(contents))))
    ensures wrapped <==> WrapPoints(Loaded(contents), isBoundary) != []
    ensures d.readonly == wrapped
    ensures !wrapped ==> !d.IsModified()
  {
    d := new Document(paneId);
    d.rope := Loaded(contents);
    d.readonly := fileReadonly;
    d.language := if pathLanguage.Some? then pathLanguage else shebangLanguage(FirstLine(d.rope));
    wrapped := d.HardWrapLongLines(isBoundary);
  }

  /** The rope a load makes of a file's bytes: never empty, an empty file being one line feed. */
  function Loaded(contents: seq<Byte>): (rope: seq<Byte>)
    ensures rope != []
    ensures contents != [] ==> rope == contents
  {
    if contents == [] then [NEWLINE] else contents
  }

  /** `rope.line(0)`: the first line without its line break. */
  function FirstLine(rope: seq<Byte>): seq<Byte>
    requires rope != []
  {
    FirstLineExists(rope);
    LinesLaid(rope, 0);
    LineOf(rope, LinesFrom(rope, 0)[0])
  }
}

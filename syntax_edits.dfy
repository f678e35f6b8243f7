/**
 * From transactions to tree-sitter edits, and from edits to the byte
 * ranges of syntax layers (`syntax.rs`: `generate_edits` and the first half
 * of `Syntax::update`). Only byte offsets are modelled: the rows and columns
 * tree-sitter also receives follow the bytes and decide nothing here.
 */
module SyntaxEdits {
  import opened Base
  import opened Transactions

  // ---------------------------------------------------------------------
  // generate_edits
  // ---------------------------------------------------------------------

  /** The byte part of `tree_sitter::InputEdit`, in the coordinates of the old text. */
  datatype Edit = Edit(startByte: nat, oldEndByte: nat, newEndByte: nat)

  /** An edit replaces the old bytes `startByte..oldEndByte` by new bytes ending at `newEndByte`. */
  predicate EditWellFormed(e: Edit)
  {
    e.startByte <= e.oldEndByte && e.startByte <= e.newEndByte
  }

  /**
   * What operation `i`, read at old byte `oldByte`, contributes: a Delete is
   * a deletion, an Insert followed by a Delete one replacement (consuming
   * the Delete), a lone Insert a pure insertion, and a Retain no edit; then
   * the next operation and the old byte it is read at.
   */
  function Step(ops: seq<Operation>, i: nat, oldByte: nat): (r: (seq<Edit>, nat, nat))
    requires i < |ops|
    ensures i < r.1 <= |ops| && oldByte <= r.2
  {
    if ops[i].Retain? then ([], i + 1, oldByte + ops[i].n)
    else if ops[i].Delete? then ([Edit(oldByte, oldByte + ops[i].n, oldByte)], i + 1, oldByte + ops[i].n)
    else if i + 1 < |ops| && ops[i + 1].Delete? then
      ([Edit(oldByte, oldByte + ops[i + 1].n, oldByte + |ops[i].s|)], i + 2, oldByte + ops[i + 1].n)
    else ([Edit(oldByte, oldByte, oldByte + |ops[i].s|)], i + 1, oldByte)
  }

  /** The edits of the operations from `i` on, read from old byte `oldByte`. */
  function EditsAt(ops: seq<Operation>, i: nat, oldByte: nat): seq<Edit>
    requires i <= |ops|
    decreases |ops| - i
  {
    if i == |ops| then []
    else
      var s := Step(ops, i, oldByte);
      s.0 + EditsAt(ops, s.1, s.2)
  }

  /** The edits of a whole transaction's operations. */
  function Edits(ops: seq<Operation>): seq<Edit>
  {
    EditsAt(ops, 0, 0)
  }

  /** One turn of the loop of `generate_edits`, peeking at the operation after an insert. */
  method NextEdit(ops: seq<Operation>, i: nat, oldByte: nat) returns (edit: seq<Edit>, next: nat, oldEnd: nat)
    requires i < |ops|
    ensures (edit, next, oldEnd) == Step(ops, i, oldByte)
  {
    var op := ops[i];
    next := i + 1;
    oldEnd := oldByte + OpIn(op);
    match op {
      case Retain(_) =>
        edit := [];
      case Delete(_) =>
        edit := [Edit(oldByte, oldEnd, oldByte)];
      case Insert(s) =>
        if next < |ops| && ops[next].Delete? {
          oldEnd := oldByte + ops[next].n;
          next := next + 1;
          edit := [Edit(oldByte, oldEnd, oldByte + |s|)];
        } else {
          edit := [Edit(oldByte, oldByte, oldByte + |s|)];
        }
    }
  }

  /** `generate_edits`: no edits for an empty transaction, otherwise the edits of every operation in turn. */
  method GenerateEdits(t: Transaction) returns (edits: seq<Edit>)
    ensures edits == Edits(t.operations)
    ensures IsEmpty(t) ==> edits == []
  {
    edits := [];
    if IsEmpty(t) {
      return;
    }
    var ops := t.operations;
    var i := 0;
    var oldByte: nat := 0;
    while i < |ops|
      invariant i <= |ops|
      invariant edits + EditsAt(ops, i, oldByte) == Edits(ops)
      decreases |ops| - i
    {
      var edit, next, oldEnd := NextEdit(ops, i, oldByte);
      assert (edits + edit) + EditsAt(ops, next, oldEnd) == edits + (edit + EditsAt(ops, next, oldEnd));
      edits := edits + edit;
      i, oldByte := next, oldEnd;
    }
  }

  /** Well-formed edits inside `lo..hi`, each ending before the next one starts. */
  predicate Ordered(edits: seq<Edit>, lo: nat, hi: nat)
  {
    && (forall i :: 0 <= i < |edits| ==> EditWellFormed(edits[i]) && lo <= edits[i].startByte && edits[i].oldEndByte <= hi)
    && (forall i, j :: 0 <= i < j < |edits| ==> edits[i].oldEndByte <= edits[j].startByte)
  }

  lemma {:induction false} OrderedCons(e: Edit, rest: seq<Edit>, lo: nat, mid: nat, hi: nat)
    requires EditWellFormed(e) && lo <= e.startByte && e.oldEndByte <= mid && Ordered(rest, mid, hi) && mid <= hi
    ensures Ordered([e] + rest, lo, hi)
  {
    var r := [e] + rest;
    forall i, j | 0 <= i < j < |r| ensures r[i].oldEndByte <= r[j].startByte {
      if i > 0 {
        assert r[i] == rest[i - 1] && r[j] == rest[j - 1];
      } else {
        assert r[j] == rest[j - 1];
      }
    }
  }

  lemma {:induction false} OrderedWithin(edits: seq<Edit>, lo: nat, hi: nat, lo': nat, hi': nat)
    requires Ordered(edits, lo, hi) && lo' <= lo && hi <= hi'
    ensures Ordered(edits, lo', hi')
  {
  }

  /** The bytes the operations from `i` on consume. */
  function InFrom(ops: seq<Operation>, i: nat): nat
    requires i <= |ops|
    decreases |ops| - i
  {
    if i == |ops| then 0 else OpIn(ops[i]) + InFrom(ops, i + 1)
  }

  /** The bytes the operations from `i` on produce. */
  function OutFrom(ops: seq<Operation>, i: nat): nat
    requires i <= |ops|
    decreases |ops| - i
  {
    if i == |ops| then 0 else OpOut(ops[i]) + OutFrom(ops, i + 1)
  }

  lemma {:induction false} FromIsLen(ops: seq<Operation>, i: nat)
    requires i <= |ops|
    ensures InFrom(ops, i) == InLen(ops[i..]) && OutFrom(ops, i) == OutLen(ops[i..])
    decreases |ops| - i
  {
    if i < |ops| {
      FromIsLen(ops, i + 1);
      assert ops[i..][1..] == ops[i + 1..];
    }
  }

  /**
   * One step consumes exactly the old bytes between its two offsets and
   * yields at most one well-formed edit inside them, which grows the text
   * by what the step's operations produce beyond what they consume.
   */
  lemma {:induction false} StepFacts(ops: seq<Operation>, i: nat, b: nat)
    requires i < |ops|
    ensures InFrom(ops, i) == (Step(ops, i, b).2 - b) + InFrom(ops, Step(ops, i, b).1)
    ensures OutFrom(ops, i) == OutFrom(ops, Step(ops, i, b).1) + (Step(ops, i, b).2 - b) + Growth(Step(ops, i, b).0)
    ensures |Step(ops, i, b).0| <= 1
    ensures |Step(ops, i, b).0| == 1 ==>
      EditWellFormed(Step(ops, i, b).0[0]) && b <= Step(ops, i, b).0[0].startByte && Step(ops, i, b).0[0].oldEndByte <= Step(ops, i, b).2
  {
    if ops[i].Insert? && i + 1 < |ops| && ops[i + 1].Delete? {
      assert InFrom(ops, i) == ops[i + 1].n + InFrom(ops, i + 2);
      assert OutFrom(ops, i) == |ops[i].s| + OutFrom(ops, i + 2);
    }
  }

  /**
   * The edits lie inside the old bytes the operations consume, in order and
   * without overlapping, each well formed: applied from the last to the
   * first, none disturbs the offsets of those still to come.
   */
  lemma {:induction false} EditsOrdered(ops: seq<Operation>)
    ensures Ordered(Edits(ops), 0, InLen(ops))
  {
    OrderedFrom(ops, 0, 0);
    FromIsLen(ops, 0);
    assert ops[0..] == ops;
  }

  lemma {:induction false} OrderedFrom(ops: seq<Operation>, i: nat, b: nat)
    requires i <= |ops|
    ensures Ordered(EditsAt(ops, i, b), b, b + InFrom(ops, i))
    decreases |ops| - i
  {
    if i < |ops| {
      var s := Step(ops, i, b);
      var hi := b + InFrom(ops, i);
      StepFacts(ops, i, b);
      OrderedFrom(ops, s.1, s.2);
      if s.0 == [] {
        OrderedWithin(EditsAt(ops, s.1, s.2), s.2, hi, b, hi);
      } else {
        assert s.0 == [s.0[0]];
        OrderedCons(s.0[0], EditsAt(ops, s.1, s.2), b, s.2, hi);
      }
    }
  }

  /** How much the edits grow the text: new bytes minus old bytes, summed. */
  function Growth(edits: seq<Edit>): int
  {
    if edits == [] then 0 else edits[0].newEndByte - edits[0].oldEndByte + Growth(edits[1..])
  }

  /** The edits account for the whole change in length the operations make. */
  lemma {:induction false} EditsGrowth(ops: seq<Operation>)
    ensures InLen(ops) + Growth(Edits(ops)) == OutLen(ops)
  {
    GrowthFrom(ops, 0, 0);
    FromIsLen(ops, 0);
    assert ops[0..] == ops;
  }

  lemma {:induction false} GrowthAppend(p: seq<Edit>, q: seq<Edit>)
    ensures Growth(p + q) == Growth(p) + Growth(q)
    decreases |p|
  {
    if p != [] {
      GrowthAppend(p[1..], q);
      assert (p + q)[1..] == p[1..] + q;
    } else {
      assert p + q == q;
    }
  }

  lemma {:induction false} GrowthFrom(ops: seq<Operation>, i: nat, b: nat)
    requires i <= |ops|
    ensures InFrom(ops, i) + Growth(EditsAt(ops, i, b)) == OutFrom(ops, i)
    decreases |ops| - i
  {
    if i < |ops| {
      var s := Step(ops, i, b);
      StepFacts(ops, i, b);
      GrowthFrom(ops, s.1, s.2);
      GrowthAppend(s.0, EditsAt(ops, s.1, s.2));
    }
  }

  // ---------------------------------------------------------------------
  // Layer ranges under edits
  // ---------------------------------------------------------------------

  /** The byte part of a layer's `tree_sitter::Range`. */
  datatype ByteRange = ByteRange(startByte: nat, endByte: nat)

  predicate WellFormed(r: ByteRange)
  {
    r.startByte <= r.endByte
  }

  /** `LayerUpdateFlags`. */
  datatype Flags = Flags(modified: bool, moved: bool, touched: bool)

  const NoFlags := Flags(false, false, false)
  const Modified := Flags(true, false, false)

  /** A range behind an edit: both ends move by what the edit grows the text. */
  function Moved(r: ByteRange, e: Edit): (m: ByteRange)
    requires WellFormed(r) && e.oldEndByte < r.startByte
    ensures WellFormed(m) && m.endByte - m.startByte == r.endByte - r.startByte
    ensures m.startByte - r.startByte == e.newEndByte - e.oldEndByte
  {
    ByteRange(e.newEndByte + (r.startByte - e.oldEndByte), e.newEndByte + (r.endByte - e.oldEndByte))
  }

  /**
   * One edit against one range as `Syntax::update` writes it: an edit past
   * the range leaves it; one before it moves it; one starting before it and
   * reaching into it, or one inside it, changes its end and marks the layer
   * modified; a pure insertion at its start moves the start alone.
   * Well-formedness is what keeps the source's unchecked subtraction of the
   * edit's end from the range's end from underflowing.
   */
  function ShiftAsWritten(r: ByteRange, e: Edit, f: Flags): (ByteRange, Flags)
    requires WellFormed(r)
  {
    if e.startByte > r.endByte then (r, f)
    else if e.oldEndByte < r.startByte then (Moved(r, e), f.(moved := true))
    else if e.startByte < r.startByte then (ByteRange(e.newEndByte, SatSub(r.endByte, e.oldEndByte) + e.newEndByte), Modified)
    else if e.startByte == r.startByte && e.oldEndByte == e.startByte then (ByteRange(e.newEndByte, r.endByte), f.(moved := true))
    else (ByteRange(r.startByte, SatSub(r.endByte, e.oldEndByte) + e.newEndByte), Modified)
  }

  /** An insertion of 10 bytes at the start of the range 5..8 leaves the range 15..8, which ends before it starts. */
  lemma InsertionAtStartInverts()
    ensures ShiftAsWritten(ByteRange(5, 8), Edit(5, 5, 15), NoFlags).0 == ByteRange(15, 8)
    ensures !WellFormed(ShiftAsWritten(ByteRange(5, 8), Edit(5, 5, 15), NoFlags).0)
  {
  }

  /**
   * One edit against one range, with a pure insertion at the range's start
   * moving the whole range past the inserted bytes.
   */
  function Shift(r: ByteRange, e: Edit, f: Flags): (res: (ByteRange, Flags))
    requires WellFormed(r) && EditWellFormed(e)
    ensures WellFormed(res.0)
  {
    if e.startByte > r.endByte then (r, f)
    else if e.oldEndByte < r.startByte then (Moved(r, e), f.(moved := true))
    else if e.startByte < r.startByte then (ByteRange(e.newEndByte, SatSub(r.endByte, e.oldEndByte) + e.newEndByte), Modified)
    else if e.startByte == r.startByte && e.oldEndByte == e.startByte then
      (ByteRange(e.newEndByte, r.endByte + (e.newEndByte - e.oldEndByte)), f.(moved := true))
    else (ByteRange(r.startByte, SatSub(r.endByte, e.oldEndByte) + e.newEndByte), Modified)
  }

  /** An edit past the end of a range leaves the range and the flags alone. */
  lemma {:induction false} EditAfterLeaves(r: ByteRange, e: Edit, f: Flags)
    requires WellFormed(r) && EditWellFormed(e) && e.startByte > r.endByte
    ensures Shift(r, e, f) == (r, f)
  {
  }

  /**
   * An edit that ends before a range, or a pure insertion at its start,
   * moves both ends by what the edit grows the text, keeps its length and
   * only adds MOVED to the flags.
   */
  lemma {:induction false} EditBeforeMoves(r: ByteRange, e: Edit, f: Flags)
    requires WellFormed(r) && EditWellFormed(e)
    requires e.oldEndByte < r.startByte || (e.startByte == r.startByte == e.oldEndByte)
    ensures Shift(r, e, f).0.startByte - r.startByte == e.newEndByte - e.oldEndByte
    ensures Shift(r, e, f).0.endByte - r.endByte == e.newEndByte - e.oldEndByte
    ensures Shift(r, e, f).1 == f.(moved := true)
  {
  }

  /**
   * Any other edit touching a range keeps the bytes after the edit at the
   * range's end (the end moves with the text it was in front of, down to
   * the edit's new end) and marks the layer MODIFIED, dropping MOVED.
   */
  lemma {:induction false} EditInsideModifies(r: ByteRange, e: Edit, f: Flags)
    requires WellFormed(r) && EditWellFormed(e) && e.startByte <= r.endByte && e.oldEndByte >= r.startByte
    requires !(e.startByte == r.startByte == e.oldEndByte)
    ensures Shift(r, e, f).1 == Modified
    ensures r.endByte >= e.oldEndByte ==> Shift(r, e, f).0.endByte == r.endByte - e.oldEndByte + e.newEndByte
    ensures r.endByte < e.oldEndByte ==> Shift(r, e, f).0.endByte == e.newEndByte
    ensures Shift(r, e, f).0.startByte == if e.startByte < r.startByte then e.newEndByte else r.startByte
  {
  }

  /** A range under a list of edits, applied from the last to the first. */
  function ShiftAll(r: ByteRange, edits: seq<Edit>, f: Flags): (res: (ByteRange, Flags))
    requires WellFormed(r) && forall i :: 0 <= i < |edits| ==> EditWellFormed(edits[i])
    ensures WellFormed(res.0)
    decreases |edits|
  {
    if edits == [] then (r, f)
    else
      var step := Shift(r, edits[|edits| - 1], f);
      ShiftAll(step.0, edits[..|edits| - 1], step.1)
  }

  /** All of a layer's ranges under the edits, the layer's flags carried from range to range. */
  function ShiftRanges(ranges: seq<ByteRange>, edits: seq<Edit>, f: Flags): (res: (seq<ByteRange>, Flags))
    requires forall i :: 0 <= i < |ranges| ==> WellFormed(ranges[i])
    requires forall i :: 0 <= i < |edits| ==> EditWellFormed(edits[i])
    ensures |res.0| == |ranges|
    ensures forall i :: 0 <= i < |res.0| ==> WellFormed(res.0[i])
    decreases |ranges|
  {
    if ranges == [] then ([], f)
    else
      var first := ShiftAll(ranges[0], edits, f);
      var rest := ShiftRanges(ranges[1..], edits, first.1);
      ([first.0] + rest.0, rest.1)
  }

  /** The edits `generate_edits` produces are well formed. */
  lemma {:induction false} GeneratedWellFormed(t: Transaction)
    ensures forall i :: 0 <= i < |Edits(t.operations)| ==> EditWellFormed(Edits(t.operations)[i])
  {
    EditsOrdered(t.operations);
  }
}

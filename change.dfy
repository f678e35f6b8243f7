/**
 * `Transaction::change`: a transaction built from a list of byte-range
 * replacements of a rope.
 */
module Changes {
  import opened Base
  import opened Transactions
  import opened TransactionLaws
  import Selection

  /** The bytes `start..end` replaced by `text`, or deleted when `text` is `None`. */
  datatype Change = Change(start: nat, end: nat, text: Option<seq<Byte>>)

  /**
   * What `change` demands of its changes: each range well formed and starting
   * no earlier than where the previous one ended, and the last one ending
   * within the rope (otherwise its unsigned subtractions underflow).
   */
  predicate Ordered(changes: seq<Change>, last: nat, len: nat)
    ensures Ordered(changes, last, len) ==> last <= len
    decreases |changes|
  {
    if changes == [] then last <= len
    else last <= changes[0].start <= changes[0].end && Ordered(changes[1..], changes[0].end, len)
  }

  function TextOf(text: Option<seq<Byte>>): seq<Byte>
  {
    if text.Some? then text.value else []
  }

  /** The rope from `last` on with every change carried out: the meaning of a list of changes. */
  function Replaced(rope: seq<Byte>, changes: seq<Change>, last: nat): seq<Byte>
    requires Ordered(changes, last, |rope|)
    decreases |changes|
  {
    if changes == [] then rope[last..]
    else
      var c := changes[0];
      rope[last..c.start] + TextOf(c.text) + Replaced(rope, changes[1..], c.end)
  }

  /** The operations `change` writes for one change, as written: a retain up to it, its insert if any, a delete of its range. */
  function RawChange(last: nat, c: Change): seq<Operation>
    requires last <= c.start <= c.end
  {
    var delete := [Delete(c.end - c.start)];
    [Retain(c.start - last)] + (if c.text.Some? then [Insert(c.text.value)] + delete else delete)
  }

  /**
   * The operations of `change` as written: each change's operations, then a
   * retain to the end of the rope, all pushed as they are, so that retains and
   * deletes of zero bytes appear.
   */
  function RawChangeOps(changes: seq<Change>, last: nat, len: nat): seq<Operation>
    requires Ordered(changes, last, len)
    decreases |changes|
  {
    if changes == [] then [Retain(len - last)]
    else RawChange(last, changes[0]) + RawChangeOps(changes[1..], changes[0].end, len)
  }

  /** One change's operations pushed through the `retain`, `insert` and `delete` builders onto `acc`. */
  function PushChange(acc: seq<Operation>, last: nat, c: Change): seq<Operation>
    requires last <= c.start <= c.end
  {
    var kept := PushRetain(acc, c.start - last);
    var inserted := if c.text.Some? then PushInsert(kept, c.text.value) else kept;
    PushDelete(inserted, c.end - c.start)
  }

  /** `change` with its operations pushed through the builders onto `acc`. */
  function ChangeOps(changes: seq<Change>, last: nat, len: nat, acc: seq<Operation>): seq<Operation>
    requires Ordered(changes, last, len)
    decreases |changes|
  {
    if changes == [] then PushRetain(acc, len - last)
    else ChangeOps(changes[1..], changes[0].end, len, PushChange(acc, last, changes[0]))
  }

  /** The transaction `change` builds, with the default selection. */
  function Changed(rope: seq<Byte>, changes: seq<Change>): Transaction
    requires Ordered(changes, 0, |rope|)
  {
    Transaction(ChangeOps(changes, 0, |rope|, []), Selection.DefaultSelection)
  }

  lemma {:induction false} ChangeOpsStep(changes: seq<Change>, last: nat, len: nat, acc: seq<Operation>)
    requires changes != [] && Ordered(changes, last, len)
    ensures last <= changes[0].start <= changes[0].end && Ordered(changes[1..], changes[0].end, len)
    ensures ChangeOps(changes, last, len, acc) == ChangeOps(changes[1..], changes[0].end, len, PushChange(acc, last, changes[0]))
  {
  }

  /** `change`, pushing its operations through the builders. */
  method FromChanges(rope: seq<Byte>, changes: seq<Change>) returns (t: Transaction)
    requires Ordered(changes, 0, |rope|)
    ensures t == Changed(rope, changes)
  {
    var ops: seq<Operation> := [];
    var last: nat := 0;
    var i := 0;
    while i < |changes|
      invariant i <= |changes|
      invariant Ordered(changes[i..], last, |rope|)
      invariant ChangeOps(changes[i..], last, |rope|, ops) == ChangeOps(changes, 0, |rope|, [])
    {
      var c := changes[i];
      ChangeOpsStep(changes[i..], last, |rope|, ops);
      assert changes[i..][0] == c && changes[i..][1..] == changes[i + 1..];
      ops := ChangeStep(ops, last, c);
      last := c.end;
      i := i + 1;
    }
    assert changes[i..] == [];
    ops := PushRetain(ops, |rope| - last);
    t := Transaction(ops, Selection.DefaultSelection);
  }

  /** The body of the `change` loop: one change's operations through the builders. */
  method ChangeStep(ops: seq<Operation>, last: nat, c: Change) returns (r: seq<Operation>)
    requires last <= c.start <= c.end
    ensures r == PushChange(ops, last, c)
  {
    var kept := PushRetain(ops, c.start - last);
    var inserted := kept;
    if c.text.Some? {
      inserted := PushInsert(kept, c.text.value);
    }
    r := PushDelete(inserted, c.end - c.start);
  }

  // ---------------------------------------------------------------- laws

  /** One change's raw operations consume its range and the bytes before it, and carry it out. */
  lemma {:induction false} RawChangeEffect(rope: seq<Byte>, last: nat, c: Change)
    requires last <= c.start <= c.end <= |rope|
    ensures InLen(RawChange(last, c)) == c.end - last
    ensures ApplyRest(RawChange(last, c), rope[last..c.end]) == rope[last..c.start] + TextOf(c.text)
  {
    var p, q := rope[last..c.start], rope[c.start..c.end];
    assert rope[last..c.end] == p + q;
    RawChangeParts(last, c, p, q);
  }

  /** `RawChangeEffect` on the bytes before the change, `p`, and the bytes it replaces, `q`. */
  lemma {:induction false} RawChangeParts(last: nat, c: Change, p: seq<Byte>, q: seq<Byte>)
    requires last <= c.start <= c.end && |p| == c.start - last && |q| == c.end - c.start
    ensures InLen(RawChange(last, c)) == |p| + |q|
    ensures ApplyRest(RawChange(last, c), p + q) == p + TextOf(c.text)
  {
    var delete := [Delete(|q|)];
    var mid := if c.text.Some? then [Insert(c.text.value)] + delete else delete;
    assert RawChange(last, c) == [Retain(|p|)] + mid;
    ApplyCons(Delete(|q|), [], q);
    assert q[|q|..] == [];
    assert InLen(mid) == |q| && ApplyRest(mid, q) == TextOf(c.text) by {
      if c.text.Some? {
        InsertHead(c.text.value, delete, q);
      }
    }
    ConsSeq(Retain(|p|), mid);
    RetainHead(|p|, mid, p, q);
  }

  /** The raw operations consume exactly the rest of the rope. */
  lemma {:induction false} RawChangeLens(changes: seq<Change>, last: nat, len: nat)
    requires Ordered(changes, last, len)
    ensures InLen(RawChangeOps(changes, last, len)) == len - last
    decreases |changes|
  {
    if changes == [] {
      assert InLen([Retain(len - last)]) == len - last + InLen([]);
    } else {
      var c := changes[0];
      RawChangeLens(changes[1..], c.end, len);
      assert InLen(RawChange(last, c)) == c.end - last by {
        var rope := seq(c.end, _ => 0);
        RawChangeEffect(rope, last, c);
      }
      LenAppend(RawChange(last, c), RawChangeOps(changes[1..], c.end, len));
    }
  }

  /** The raw operations, applied to the rest of the rope, carry out every change. */
  lemma {:induction false} RawChangeApplies(rope: seq<Byte>, changes: seq<Change>, last: nat)
    requires Ordered(changes, last, |rope|)
    ensures ApplyRest(RawChangeOps(changes, last, |rope|), rope[last..]) == Replaced(rope, changes, last)
    decreases |changes|
  {
    var d := rope[last..];
    if changes == [] {
      ApplyCons(Retain(|rope| - last), [], d);
      assert d[..|d|] == d;
    } else {
      RawChangeApplies(rope, changes[1..], changes[0].end);
      RawChangeAppliesStep(rope, changes, last);
    }
  }

  lemma {:induction false} RawChangeAppliesStep(rope: seq<Byte>, changes: seq<Change>, last: nat)
    requires changes != [] && Ordered(changes, last, |rope|)
    requires ApplyRest(RawChangeOps(changes[1..], changes[0].end, |rope|), rope[changes[0].end..])
      == Replaced(rope, changes[1..], changes[0].end)
    ensures ApplyRest(RawChangeOps(changes, last, |rope|), rope[last..]) == Replaced(rope, changes, last)
  {
    var c := changes[0];
    var head := RawChange(last, c);
    var tail := RawChangeOps(changes[1..], c.end, |rope|);
    var x, y := rope[last..c.end], rope[c.end..];
    assert rope[last..] == x + y;
    RawChangeLens(changes[1..], c.end, |rope|);
    RawChangeEffect(rope, last, c);
    ApplyConcat(head, tail, x, y);
  }

  /** Builders keep the canonical form. */
  lemma {:induction false} BuildCanonical(acc: seq<Operation>, l: seq<Operation>)
    requires Canonical(acc)
    ensures Canonical(Build(acc, l))
    decreases |l|
  {
    if l != [] {
      EmitCanonical(acc, Some(l[0]));
      BuildCanonical(Emit(acc, Some(l[0])), l[1..]);
    }
  }

  /** Building `p + q` builds `p` and then `q` on the result. */
  lemma {:induction false} BuildAppend(acc: seq<Operation>, p: seq<Operation>, q: seq<Operation>)
    ensures Build(acc, p + q) == Build(Build(acc, p), q)
    decreases |p|
  {
    if p == [] {
      assert p + q == q;
    } else {
      assert (p + q)[0] == p[0] && (p + q)[1..] == p[1..] + q;
      BuildAppend(Emit(acc, Some(p[0])), p[1..], q);
    }
  }

  /** Pushing one change through the builders is its raw operations folded through them. */
  lemma {:induction false} PushChangeIsBuild(acc: seq<Operation>, last: nat, c: Change)
    requires last <= c.start <= c.end
    ensures PushChange(acc, last, c) == Build(acc, RawChange(last, c))
  {
    var k, n := c.start - last, c.end - c.start;
    var delete := [Delete(n)];
    var mid := if c.text.Some? then [Insert(c.text.value)] + delete else delete;
    assert RawChange(last, c) == [Retain(k)] + mid;
    BuildCons(acc, Retain(k), mid);
    BuildTail(PushRetain(acc, k), c.text, n);
  }

  /** The insert (if any) and the delete of one change, folded through the builders. */
  lemma {:induction false} BuildTail(kept: seq<Operation>, text: Option<seq<Byte>>, n: nat)
    ensures Build(kept, if text.Some? then [Insert(text.value)] + [Delete(n)] else [Delete(n)])
      == PushDelete(if text.Some? then PushInsert(kept, text.value) else kept, n)
  {
    var inserted := if text.Some? then PushInsert(kept, text.value) else kept;
    if text.Some? {
      BuildCons(kept, Insert(text.value), [Delete(n)]);
    }
    BuildCons(inserted, Delete(n), []);
    assert [Delete(n)] == [Delete(n)] + [];
  }

  /** `change` through the builders is the raw operations folded through them. */
  lemma {:induction false} ChangeIsBuild(changes: seq<Change>, last: nat, len: nat, acc: seq<Operation>)
    requires Ordered(changes, last, len)
    ensures ChangeOps(changes, last, len, acc) == Build(acc, RawChangeOps(changes, last, len))
    decreases |changes|
  {
    if changes == [] {
      BuildCons(acc, Retain(len - last), []);
    } else {
      var c := changes[0];
      ChangeIsBuild(changes[1..], c.end, len, PushChange(acc, last, c));
      PushChangeIsBuild(acc, last, c);
      BuildAppend(acc, RawChange(last, c), RawChangeOps(changes[1..], c.end, len));
    }
  }

  /**
   * `change` applied to its rope carries out every change, consumes exactly the
   * rope, and is in the canonical form the builders keep.
   */
  lemma {:induction false} ChangedApplies(rope: seq<Byte>, changes: seq<Change>)
    requires Ordered(changes, 0, |rope|)
    ensures InLen(Changed(rope, changes).operations) == |rope|
    ensures ApplyAt(Changed(rope, changes).operations, rope, 0) == Some(Replaced(rope, changes, 0))
    ensures Canonical(Changed(rope, changes).operations)
  {
    var raw := RawChangeOps(changes, 0, |rope|);
    var ops := Changed(rope, changes).operations;
    ChangeIsBuild(changes, 0, |rope|, []);
    RawChangeLens(changes, 0, |rope|);
    BuildEffect([], raw, rope);
    assert [] + raw == raw;
    RawChangeApplies(rope, changes, 0);
    assert rope[0..] == rope;
    ApplyFromStart(ops, rope);
    BuildCanonical([], raw);
  }

  /**
   * The transaction `change` builds composes with every transaction written for
   * its result that holds no operation doing nothing.
   */
  lemma {:induction false} ChangedComposes(rope: seq<Byte>, changes: seq<Change>, y: Transaction)
    requires Ordered(changes, 0, |rope|)
    requires NoNoops(y.operations) && InLen(y.operations) == OutLen(Changed(rope, changes).operations)
    ensures Composed(Changed(rope, changes), y).Some?
  {
    ChangedApplies(rope, changes);
    ComposeTotal(Changed(rope, changes).operations, y.operations, []);
  }

  /**
   * As written, `change` on the rope "ab\n" with the single change 3..3 to "x"
   * yields `[Retain(3), Insert("x"), Delete(0), Retain(0)]`; composing it with
   * `[Retain(4)]`, which consumes exactly its four output bytes, reaches the
   * `unreachable!` arm of `compose` on the trailing `Retain(0)`.
   */
  lemma {:induction false} RawChangeComposePanics()
    ensures var raw := RawChangeOps([Change(3, 3, Some([120]))], 0, 3);
      raw == [Retain(3), Insert([120]), Delete(0), Retain(0)] &&
      OutLen(raw) == InLen([Retain(4)]) &&
      ComposeOps(raw, [Retain(4)], []).None?
  {
    var raw := RawChangeOps([Change(3, 3, Some([120]))], 0, 3);
    assert [Change(3, 3, Some([120]))][1..] == [];
    assert RawChange(0, Change(3, 3, Some([120]))) == [Retain(3), Insert([120]), Delete(0)];
    assert raw == [Retain(3), Insert([120]), Delete(0), Retain(0)];
    var t1 := ComposeTurn(raw, [Retain(4)]).value;
    assert t1 == Turn(Some(Retain(3)), raw[1..], [Retain(1)]);
    var t2 := ComposeTurn(t1.a, t1.b).value;
    assert t2 == Turn(Some(Insert([120])), [Delete(0), Retain(0)], []);
    var t3 := ComposeTurn(t2.a, t2.b).value;
    assert t3 == Turn(Some(Delete(0)), [Retain(0)], []);
    assert ComposeTurn(t3.a, t3.b).None?;
  }
}

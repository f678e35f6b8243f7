/**
 * The undo tree: every committed transaction is a revision holding its
 * parent, the child most recently committed on top of it, the transaction
 * and its inversion.
 */
module Histories {
  import opened Base
  import opened Transactions
  import opened TransactionLaws
  import Selection

  /** What a transaction is applied to: the rope and the selection. */
  datatype State = State(rope: seq<Byte>, selection: Selection.Selection)

  datatype Revision = Revision(parent: nat, lastChild: Option<nat>, transaction: Transaction, inversion: Transaction)

  /** Applying the revision's transaction to `origin` and then its inversion gives `origin` back. */
  predicate Undoes(r: Revision, origin: State)
  {
    && r.inversion.selection == origin.selection
    && Then(ApplyAt(r.transaction.operations, origin.rope, 0), r.inversion.operations) == Some(origin.rope)
  }

  /** Every revision but the root comes after its parent. */
  predicate ParentsBefore(revisions: seq<Revision>)
  {
    forall j :: 0 < j < |revisions| ==> revisions[j].parent < j
  }

  /** From `i` to the root, every revision is the last child of its parent. */
  predicate OnLastPath(revisions: seq<Revision>, i: nat)
    requires i < |revisions| && ParentsBefore(revisions)
    decreases i
  {
    i == 0 || (revisions[revisions[i].parent].lastChild == Some(i) && OnLastPath(revisions, revisions[i].parent))
  }

  /**
   * Changing the last child of revision `m` only, and adding revisions after the
   * old ones, keeps the last-child path from any `p <= m` to the root.
   */
  lemma {:induction false} LastPathKept(before: seq<Revision>, after: seq<Revision>, p: nat, m: nat)
    requires ParentsBefore(before) && ParentsBefore(after)
    requires p <= m < |before| <= |after|
    requires forall j :: 0 <= j < |before| ==> after[j].parent == before[j].parent
    requires forall j :: 0 <= j < |before| && j != m ==> after[j].lastChild == before[j].lastChild
    requires OnLastPath(before, p)
    ensures OnLastPath(after, p)
    decreases p
  {
    if p != 0 {
      LastPathKept(before, after, before[p].parent, m);
    }
  }

  class History {
    var revisions: seq<Revision>
    var current: nat
    /** The state each revision was committed from. */
    ghost var origins: seq<State>

    /**
     * The root revision is its own parent; every other revision's parent comes
     * before it; a last child comes after its parent and names it as parent;
     * every committed inversion undoes its transaction; and the path from the
     * current revision to the root is made of last children, so that `redo`
     * retraces what `undo` walked back.
     */
    ghost predicate Valid()
      reads this
    {
      && |revisions| >= 1
      && |origins| == |revisions|
      && current < |revisions|
      && revisions[0].parent == 0
      && ParentsBefore(revisions)
      && (forall i :: 0 < i < |revisions| ==> Undoes(revisions[i], origins[i]))
      && (forall i :: 0 <= i < |revisions| && revisions[i].lastChild.Some? ==> LinkedChild(i))
      && OnLastPath(revisions, current)
    }

    /** The last child of revision `i` is a later revision whose parent is `i`. */
    ghost predicate LinkedChild(i: nat)
      requires i < |revisions| && revisions[i].lastChild.Some?
      reads this
    {
      var c := revisions[i].lastChild.value;
      i < c < |revisions| && revisions[c].parent == i
    }

    /** `History::default`: the root revision with empty transactions. */
    constructor ()
      ensures Valid()
      ensures revisions == [Revision(0, None, Empty(), Empty())] && current == 0
    {
      revisions := [Revision(0, None, Empty(), Empty())];
      current := 0;
      origins := [State([], Selection.DefaultSelection)];
    }

    /**
     * `commit_revision`: the transaction, with its inversion against the state it
     * was applied to, becomes a new revision, the last child of the current one,
     * and the current revision.
     */
    method CommitRevision(t: Transaction, original: State)
      requires Valid()
      requires InLen(t.operations) <= |original.rope|
      modifies this
      ensures Valid()
      ensures current == old(|revisions|) && origins == old(origins) + [original]
      ensures Inverted(t, original.rope, original.selection).Some?
      ensures var inversion := Inverted(t, original.rope, original.selection).value;
        revisions == old(revisions[current := revisions[current].(lastChild := Some(|revisions|))])
                     + [Revision(old(current), None, t, inversion)]
    {
      InvertedUndoes(t, original.rope, original.selection);
      var inversion := Invert(t, original.rope, original.selection);
      var newCurrent := |revisions|;
      ghost var before := revisions;
      revisions := revisions[current := revisions[current].(lastChild := Some(newCurrent))];
      revisions := revisions + [Revision(current, None, t, inversion.value)];
      origins := origins + [original];
      LastPathKept(before, revisions, current, current);
      current := newCurrent;
    }

    /**
     * `undo`: at the root there is nothing to undo; otherwise the parent becomes
     * current and the inversion of the revision left is returned.
     */
    method Undo() returns (r: Option<Transaction>)
      requires Valid()
      modifies this
      ensures Valid()
      ensures revisions == old(revisions) && origins == old(origins)
      ensures old(current) == 0 ==> r.None? && current == 0
      ensures old(current) > 0 ==>
        && r == Some(revisions[old(current)].inversion)
        && current == revisions[old(current)].parent
        && revisions[current].lastChild == Some(old(current))
        && Undoes(revisions[old(current)], origins[old(current)])
    {
      if current == 0 {
        return None;
      }
      var revision := revisions[current];
      current := revision.parent;
      r := Some(revision.inversion);
    }

    /**
     * `redo`: without a last child there is nothing to redo; otherwise the last
     * child becomes current and its transaction is returned.
     */
    method Redo() returns (r: Option<Transaction>)
      requires Valid()
      modifies this
      ensures Valid()
      ensures revisions == old(revisions) && origins == old(origins)
      ensures old(revisions[current].lastChild).None? ==> r.None? && current == old(current)
      ensures old(revisions[current].lastChild).Some? ==>
        && current == old(revisions[current].lastChild.value)
        && r == Some(revisions[current].transaction)
        && revisions[current].parent == old(current)
    {
      var lastChild := revisions[current].lastChild;
      if lastChild.None? {
        return None;
      }
      assert LinkedChild(current);
      current := lastChild.value;
      r := Some(revisions[current].transaction);
    }
  }
}

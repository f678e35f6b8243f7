/**
 * Incremental ids (`make_inc_id_type`): non-zero integers handed out in
 * increasing order, starting at 1.
 */
module Ids {

  /** An id: a non-zero integer, positive since ids start at 1 and only grow. */
  datatype Id = Id(value: int)

  predicate IsId(i: Id)
  {
    i.value > 0
  }

  /** `default`: the first id. */
  function Default(): (r: Id)
    ensures IsId(r) && (forall i: Id :: IsId(i) ==> r.value <= i.value)
  {
    Id(1)
  }

  /** `next`: the id after `i`. */
  function Next(i: Id): (r: Id)
    requires IsId(i)
    ensures IsId(r) && r.value > i.value
    ensures forall j: Id :: j.value > i.value ==> r.value <= j.value
  {
    Id(i.value + 1)
  }

  /** The ids `n` successive `advance` calls return, starting from `i`. */
  function Issued(i: Id, n: nat): seq<Id>
    requires IsId(i)
    decreases n
  {
    if n == 0 then [] else [i] + Issued(Next(i), n - 1)
  }

  /** `n` successive `advance` calls return `n` strictly increasing, non-zero ids. */
  lemma {:induction false} IssuedIncreasing(i: Id, n: nat)
    requires IsId(i)
    ensures |Issued(i, n)| == n
    ensures forall k :: 0 <= k < n ==> IsId(Issued(i, n)[k]) && Issued(i, n)[k].value >= i.value
    ensures forall k, l :: 0 <= k < l < n ==> Issued(i, n)[k].value < Issued(i, n)[l].value
    decreases n
  {
    if n > 0 {
      IssuedIncreasing(Next(i), n - 1);
      var r := Issued(i, n);
      assert r[1..] == Issued(Next(i), n - 1);
      assert forall k :: 0 < k < n ==> r[k] == r[1..][k - 1];
    }
  }

  /** A mutable id, as a field holding one: `advance` returns it and stores its successor. */
  class IdCounter {
    var id: Id

    ghost predicate Valid()
      reads this
    {
      IsId(id)
    }

    constructor ()
      ensures Valid() && id == Default()
    {
      id := Default();
    }

    /** `advance`: the current id, which is then replaced by the next one. */
    method Advance() returns (current: Id)
      requires Valid()
      modifies this
      ensures Valid()
      ensures current == old(id) && id == Next(current) && current.value < id.value
    {
      current := id;
      id := Next(id);
    }
  }
}

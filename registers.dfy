/**
 * Registers (`registers.rs`): named stacks of yanked text. Pushing a value
 * equal to the register's latest entry is skipped, so no register holds
 * the same text twice in a row.
 */
module Registers {
  import opened Base

  /** No two neighbouring entries are equal. */
  predicate NoRepeats(entries: seq<string>)
  {
    forall k :: 0 < k < |entries| ==> entries[k - 1] != entries[k]
  }

  /** Every register that exists holds at least one entry and no repeats. */
  predicate WellFormed(m: map<char, seq<string>>)
  {
    forall reg :: reg in m ==> |m[reg]| >= 1 && NoRepeats(m[reg])
  }

  /** The registers after `push(reg, value)`. */
  function Pushed(m: map<char, seq<string>>, reg: char, value: string): (r: map<char, seq<string>>)
    ensures reg in r && |r[reg]| >= 1 && r[reg][|r[reg]| - 1] == value
    ensures reg !in m ==> r[reg] == [value]
    ensures reg in m && m[reg] != [] && m[reg][|m[reg]| - 1] == value ==> r == m
    ensures reg in m && (m[reg] == [] || m[reg][|m[reg]| - 1] != value) ==> r[reg] == m[reg] + [value]
    ensures forall other :: other != reg ==> (other in r <==> other in m) && (other in m ==> r[other] == m[other])
  {
    if reg in m then
      var contents := m[reg];
      if contents == [] || contents[|contents| - 1] != value then m[reg := contents + [value]] else m
    else m[reg := [value]]
  }

  /** Pushing keeps every register free of neighbouring repeats. */
  lemma {:induction false} PushedWellFormed(m: map<char, seq<string>>, reg: char, value: string)
    requires WellFormed(m)
    ensures WellFormed(Pushed(m, reg, value))
  {
  }

  /** Pushing the same value twice is the same as pushing it once. */
  lemma {:induction false} PushIdempotent(m: map<char, seq<string>>, reg: char, value: string)
    ensures Pushed(Pushed(m, reg, value), reg, value) == Pushed(m, reg, value)
  {
  }

  class Registers {
    var contents: map<char, seq<string>>

    predicate Valid()
      reads this
    {
      WellFormed(contents)
    }

    /** `Registers::default`: no register exists. */
    constructor ()
      ensures Valid() && contents == map[]
    {
      contents := map[];
    }

    /** `get`: the register's entries, if it exists. */
    function Get(reg: char): (r: Option<seq<string>>)
      reads this
      ensures r.Some? <==> reg in contents
      ensures r.Some? ==> r.value == contents[reg]
    {
      if reg in contents then Some(contents[reg]) else None
    }

    /** `get_nth`: entry `idx` of the register; None for a missing register or an index past its end. */
    function GetNth(reg: char, idx: nat): (r: Option<string>)
      reads this
      ensures r.Some? <==> reg in contents && idx < |contents[reg]|
      ensures r.Some? ==> r.value == contents[reg][idx]
    {
      match Get(reg)
      case None => None
      case Some(entries) => if idx < |entries| then Some(entries[idx]) else None
    }

    /** `push`: append the value unless it equals the register's latest entry; a missing register is created. */
    method Push(reg: char, value: string)
      requires Valid()
      modifies this
      ensures Valid()
      ensures contents == Pushed(old(contents), reg, value)
    {
      if reg in contents {
        var entries := contents[reg];
        if entries == [] || entries[|entries| - 1] != value {
          contents := contents[reg := entries + [value]];
        }
      } else {
        contents := contents[reg := [value]];
      }
      PushedWellFormed(old(contents), reg, value);
    }
  }
}

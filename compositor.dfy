/**
 * The component stack (`compositor.rs`): layers drawn bottom to top, with
 * input offered from the top down. What a component does with a key, where
 * it puts the cursor and the callbacks it hands back are its own code; a
 * layer here records those answers, and a callback is known by identity.
 */
module Compositors {
  import opened Base
  import opened Rects

  /** crossterm's `SetCursorStyle`. */
  datatype CursorStyle =
    | DefaultUserShape | BlinkingBlock | SteadyBlock
    | BlinkingUnderScore | SteadyUnderScore | BlinkingBar | SteadyBar

  /** A component on the stack, by its type name and its answers to the cursor queries. */
  datatype Layer = Layer(typeName: string, hidesCursor: bool, cursorAt: Option<Position>, cursorStyle: Option<CursorStyle>)

  /** A deferred `FnOnce(&mut Compositor, &mut Context)`, by identity. */
  datatype Callback = Callback(id: nat)

  /** A component's answer to an event, with the callback it asks to run. */
  datatype EventResult = Ignored(callback: Option<Callback>) | Consumed(callback: Option<Callback>)

  /** The terminal events the compositor is given. Only keys and pastes are dispatched. */
  datatype Event = Key | Paste(text: string) | Resize | Focus

  // ---------------------------------------------------------------------
  // Event dispatch
  // ---------------------------------------------------------------------

  function CallbackOf(r: EventResult): seq<Callback>
  {
    if r.callback.Some? then [r.callback.value] else []
  }

  /** The callbacks of a run of layers, from the top one down. */
  function Collected(rs: seq<EventResult>): (cbs: seq<Callback>)
    ensures |cbs| <= |rs|
  {
    if rs == [] then [] else Collected(rs[1..]) + CallbackOf(rs[0])
  }

  /** Callbacks of upper layers come before those of lower ones. */
  lemma {:induction false} CollectedAppend(lower: seq<EventResult>, upper: seq<EventResult>)
    ensures Collected(lower + upper) == Collected(upper) + Collected(lower)
    decreases |lower|
  {
    if lower != [] {
      assert (lower + upper)[0] == lower[0] && (lower + upper)[1..] == lower[1..] + upper;
      CollectedAppend(lower[1..], upper);
    } else {
      assert lower + upper == upper;
    }
  }

  /** A single layer's callback, if it gave one. */
  lemma {:induction false} CollectedOne(r: EventResult)
    ensures Collected([r]) == CallbackOf(r)
  {
    assert [r][1..] == [];
  }

  function IsConsumed(r: EventResult): bool { r.Consumed? }

  /** The lowest layer an event reaches: the topmost one that consumes it, or the bottom of the stack. */
  function Reached(rs: seq<EventResult>): (k: nat)
    ensures k <= |rs|
  {
    match LastWhere(rs, IsConsumed)
    case None => 0
    case Some(k) => k
  }

  /** The outcome of dispatching an event: whether it was consumed, and the callbacks to run in order. */
  datatype Dispatch = Dispatch(consumed: bool, callbacks: seq<Callback>)

  class Compositor {
    var size: Rect
    var layers: seq<Layer>

    /** `Compositor::new`: an empty stack. */
    constructor (size: Rect)
      ensures this.size == size && layers == []
    {
      this.size := size;
      layers := [];
    }

    /** `push`: the layer goes on top. */
    method Push(layer: Layer)
      modifies this
      ensures layers == old(layers) + [layer] && size == old(size)
    {
      layers := layers + [layer];
    }

    /** `pop`: the top layer comes off, None on an empty stack. */
    method Pop() returns (r: Option<Layer>)
      modifies this
      ensures old(layers) == [] ==> r.None? && layers == []
      ensures old(layers) != [] ==> r == Some(old(layers)[|old(layers)| - 1]) && layers == old(layers)[..|old(layers)| - 1]
      ensures size == old(size)
    {
      if layers == [] {
        return None;
      }
      r := Some(layers[|layers| - 1]);
      layers := layers[..|layers| - 1];
    }

    /** `resize`. */
    method Resize(size: Rect)
      modifies this
      ensures this.size == size && layers == old(layers)
    {
      this.size := size;
    }

    /** `hide_cursor`: some layer asks for the cursor to be hidden. */
    method HideCursor() returns (h: bool)
      ensures h <==> exists i :: 0 <= i < |layers| && layers[i].hidesCursor
    {
      var i := |layers|;
      while i > 0
        invariant 0 <= i <= |layers|
        invariant forall j :: i <= j < |layers| ==> !layers[j].hidesCursor
      {
        if layers[i - 1].hidesCursor {
          return true;
        }
        i := i - 1;
      }
      return false;
    }

    /**
     * `cursor`: the position and style reported by the topmost layer that
     * reports a position; (None, None) when no layer does.
     */
    method Cursor() returns (pos: Option<Position>, style: Option<CursorStyle>)
      ensures LastWhere(layers, HasCursor).None? ==> pos.None? && style.None?
      ensures LastWhere(layers, HasCursor).Some? ==>
        var top := layers[LastWhere(layers, HasCursor).value];
        pos == top.cursorAt && style == top.cursorStyle
    {
      var i := |layers|;
      while i > 0
        invariant 0 <= i <= |layers|
        invariant forall j :: i <= j < |layers| ==> !HasCursor(layers[j])
      {
        var layer := layers[i - 1];
        if layer.cursorAt.Some? {
          LastWhereAt(layers, HasCursor, i - 1);
          return layer.cursorAt, layer.cursorStyle;
        }
        i := i - 1;
      }
      LastWhereIsLast(layers, HasCursor);
      return None, None;
    }

    /**
     * `handle_event`: offers the event to the layers from the top down,
     * where layer `i` answers `results[i]`, and stops at the first layer
     * that consumes it. Returns whether one did, with the callbacks of
     * every visited layer in visit order, which the compositor runs next.
     * Any event but a key or a paste panics (None) once a layer is offered it.
     */
    method HandleEvent(event: Event, results: seq<EventResult>) returns (r: Option<Dispatch>)
      requires |results| == |layers|
      ensures r.None? <==> !(event.Key? || event.Paste?) && layers != []
      ensures r.Some? ==> r.value.consumed == LastWhere(results, IsConsumed).Some?
      ensures r.Some? ==> r.value.callbacks == Collected(results[Reached(results)..])
    {
      if !(event.Key? || event.Paste?) && layers != [] {
        return None;
      }
      var callbacks: seq<Callback> := [];
      var consumed := false;
      var i := |results|;
      while i > 0 && !consumed
        invariant 0 <= i <= |results|
        invariant forall j :: i < j < |results| ==> !IsConsumed(results[j])
        invariant !consumed ==> i == |results| || !IsConsumed(results[i])
        invariant consumed ==> i < |results| && IsConsumed(results[i])
        invariant callbacks == Collected(results[i..])
      {
        var result := results[i - 1];
        assert results[i - 1..][1..] == results[i..];
        callbacks := callbacks + CallbackOf(result);
        consumed := result.Consumed?;
        i := i - 1;
      }
      if consumed {
        LastWhereAt(results, IsConsumed, i);
      } else {
        LastWhereIsLast(results, IsConsumed);
        assert Reached(results) == 0 == i;
      }
      return Some(Dispatch(consumed, callbacks));
    }

    /** `find::<T>`: the index of the bottommost layer of the type. */
    method Find(typeName: string) returns (r: Option<nat>)
      ensures r == FirstWhere(layers, (l: Layer) => l.typeName == typeName)
    {
      r := FirstOfType(layers, typeName);
    }

    /**
     * `remove::<T>`: takes out the bottommost layer of the type, keeping the
     * order of the others; None and no change when there is none.
     */
    method Remove(typeName: string) returns (r: Option<Layer>)
      modifies this
      ensures size == old(size)
      ensures FirstWhere(old(layers), (l: Layer) => l.typeName == typeName).None? ==> r.None? && layers == old(layers)
      ensures FirstWhere(old(layers), (l: Layer) => l.typeName == typeName).Some? ==>
        var k := FirstWhere(old(layers), (l: Layer) => l.typeName == typeName).value;
        r == Some(old(layers)[k]) && layers == old(layers)[..k] + old(layers)[k + 1..]
    {
      var idx := FirstOfType(layers, typeName);
      if idx.None? {
        return None;
      }
      r := Some(layers[idx.value]);
      layers := layers[..idx.value] + layers[idx.value + 1..];
    }
  }

  function HasCursor(l: Layer): bool { l.cursorAt.Some? }

  /** The `position` scan by type name, bottom up. */
  method FirstOfType(layers: seq<Layer>, typeName: string) returns (r: Option<nat>)
    ensures r == FirstWhere(layers, (l: Layer) => l.typeName == typeName)
  {
    var p := (l: Layer) => l.typeName == typeName;
    var i := 0;
    while i < |layers|
      invariant i <= |layers|
      invariant FirstWhere(layers, p) == match FirstWhere(layers[i..], p) case None => None case Some(k) => Some(k + i)
    {
      assert layers[i..][0] == layers[i] && layers[i..][1..] == layers[i + 1..];
      if layers[i].typeName == typeName {
        return Some(i);
      }
      i := i + 1;
    }
    assert layers[i..] == [];
    return None;
  }

  /** Removing a layer by type keeps every other layer, in order, and removes the bottommost one of that type. */
  lemma {:induction false} RemoveKeepsOthers(layers: seq<Layer>, typeName: string, k: nat)
    requires FirstWhere(layers, (l: Layer) => l.typeName == typeName) == Some(k)
    ensures var rest := layers[..k] + layers[k + 1..];
      && |rest| == |layers| - 1
      && (forall j :: 0 <= j < k ==> rest[j] == layers[j] && rest[j].typeName != typeName)
      && (forall j :: k <= j < |rest| ==> rest[j] == layers[j + 1])
  {
    FirstWhereIsFirst(layers, (l: Layer) => l.typeName == typeName);
  }
}

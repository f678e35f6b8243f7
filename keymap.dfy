/**
 * Key chords (`keymap.rs`): each mode has a keymap from keys to actions,
 * where an action is a command or a further keymap. Keys that start a chord
 * are held as pending until the chord reaches a command, leaves the keymap
 * or is cancelled with Esc.
 */
module Keymaps {
  import opened Base
  import opened Keys
  import opened Text

  /** A command (a function of the editor, known here by its name) or a nested keymap. */
  datatype Action = Func(name: string) | Map(keys: map<KeyEvent, Action>)

  type Keymap = map<KeyEvent, Action>

  datatype KeymapResult = Found(name: string) | Pending | Cancelled(keys: seq<KeyEvent>) | NotFound

  // ---------------------------------------------------------------------
  // Building keymaps
  // ---------------------------------------------------------------------

  /** No key is bound twice. */
  predicate DistinctKeys(bindings: seq<(KeyEvent, Action)>)
  {
    forall i, j :: 0 <= i < j < |bindings| ==> bindings[i].0 != bindings[j].0
  }

  /** A keymap binds exactly the listed keys, each to its action. */
  ghost predicate Binds(m: Keymap, bindings: seq<(KeyEvent, Action)>)
  {
    && (forall k :: k in m <==> exists i :: 0 <= i < |bindings| && bindings[i].0 == k)
    && (forall i :: 0 <= i < |bindings| ==> bindings[i].0 in m && m[bindings[i].0] == bindings[i].1)
  }

  /**
   * The `map!` macro: inserts the bindings one by one and panics (None)
   * on a key bound twice.
   */
  method BuildKeymap(bindings: seq<(KeyEvent, Action)>) returns (r: Option<Keymap>)
    ensures r.None? <==> !DistinctKeys(bindings)
    ensures r.Some? ==> Binds(r.value, bindings)
  {
    var m: Keymap := map[];
    var i := 0;
    while i < |bindings|
      invariant i <= |bindings|
      invariant DistinctKeys(bindings[..i])
      invariant Binds(m, bindings[..i])
    {
      var key := bindings[i].0;
      if key in m {
        var j :| 0 <= j < i && bindings[..i][j].0 == key;
        assert bindings[j].0 == bindings[i].0;
        return None;
      }
      m := m[key := bindings[i].1];
      assert bindings[..i + 1] == bindings[..i] + [bindings[i]];
      i := i + 1;
    }
    assert bindings[..i] == bindings;
    return Some(m);
  }

  // ---------------------------------------------------------------------
  // Following a chord
  // ---------------------------------------------------------------------

  /** `find_by_path`: follows the keys through nested keymaps; a command with keys left over, or an unbound key, gives None. */
  function FindPath(a: Action, path: seq<KeyEvent>): Option<Action>
    decreases |path|
  {
    if path == [] then Some(a)
    else match a
      case Func(_) => None
      case Map(m) => if path[0] in m then FindPath(m[path[0]], path[1..]) else None
  }

  /** Following `p + q` is following `p`, then `q` from where `p` ends. */
  lemma {:induction false} FindPathAppend(a: Action, p: seq<KeyEvent>, q: seq<KeyEvent>)
    ensures FindPath(a, p + q) == match FindPath(a, p) case None => None case Some(b) => FindPath(b, q)
    decreases |p|
  {
    if p == [] {
      assert p + q == q;
    } else {
      assert (p + q)[0] == p[0] && (p + q)[1..] == p[1..] + q;
      match a
      case Func(_) =>
      case Map(m) =>
        if p[0] in m {
          FindPathAppend(m[p[0]], p[1..], q);
        }
    }
  }

  /** `find_by_path` walks the path key by key. */
  method FindByPath(a: Action, path: seq<KeyEvent>) returns (r: Option<Action>)
    ensures r == FindPath(a, path)
  {
    var current := a;
    var i := 0;
    while i < |path|
      invariant i <= |path|
      invariant FindPath(current, path[i..]) == FindPath(a, path)
    {
      assert path[i..][0] == path[i] && path[i..][1..] == path[i + 1..];
      match current
      case Func(_) =>
        return None;
      case Map(m) =>
        if path[i] !in m {
          return None;
        }
        current := m[path[i]];
      i := i + 1;
    }
    assert path[i..] == [];
    return Some(current);
  }

  /**
   * One key through `Keymaps::get`, given the mode's keymap and the pending
   * keys: the result and the pending keys after it.
   */
  function Step(km: Keymap, pending: seq<KeyEvent>, event: KeyEvent): (KeymapResult, seq<KeyEvent>)
  {
    if event.code == Esc && pending != [] then (Cancelled(pending), [])
    else
      var root := if pending != [] then pending[0] else event;
      if root !in km then (NotFound, pending)
      else match km[root]
        case Func(f) => (Found(f), pending)
        case Map(_) =>
          var p := pending + [event];
          match FindPath(km[root], p[1..])
          case None => (Cancelled(p), [])
          case Some(Map(_)) => (Pending, p)
          case Some(Func(f)) => (Found(f), [])
  }

  /** The pending keys are a proper prefix of some chord: they lead into a nested keymap. */
  predicate ChordPrefix(km: Keymap, pending: seq<KeyEvent>)
  {
    pending == [] || (FindPath(Map(km), pending).Some? && FindPath(Map(km), pending).value.Map?)
  }

  /**
   * `get` keeps the pending keys a chord prefix, and keys stay pending
   * exactly when the result is Pending.
   */
  lemma {:induction false} StepKeepsChordPrefix(km: Keymap, pending: seq<KeyEvent>, event: KeyEvent)
    requires ChordPrefix(km, pending)
    ensures ChordPrefix(km, Step(km, pending, event).1)
    ensures Step(km, pending, event).1 != [] <==> Step(km, pending, event).0 == Pending
  {
    var (r, q) := Step(km, pending, event);
    if !(event.code == Esc && pending != []) {
      var root := if pending != [] then pending[0] else event;
      if pending != [] {
        assert FindPath(Map(km), pending) == FindPath(km[root], pending[1..]);
      }
      if root in km && km[root].Map? {
        var p := pending + [event];
        assert p[0] == root;
        assert FindPath(Map(km), p) == FindPath(km[root], p[1..]);
      }
    }
  }

  /** Feeding several keys in turn: the results and the pending keys after the last. */
  function Feed(km: Keymap, pending: seq<KeyEvent>, keys: seq<KeyEvent>): (seq<KeymapResult>, seq<KeyEvent>)
    decreases |keys|
  {
    if keys == [] then ([], pending)
    else
      var s := Step(km, pending, keys[0]);
      var rest := Feed(km, s.1, keys[1..]);
      ([s.0] + rest.0, rest.1)
  }

  function Pendings(n: nat): (r: seq<KeymapResult>)
    ensures |r| == n && forall i :: 0 <= i < n ==> r[i] == Pending
  {
    if n == 0 then [] else Pendings(n - 1) + [Pending]
  }

  /**
   * Typing a whole chord that leads to a command, with no Esc after its
   * first key, answers Pending for every key but the last, then Found with
   * the command, and leaves nothing pending.
   */
  lemma {:induction false} ChordResolves(km: Keymap, p: seq<KeyEvent>, f: string)
    requires |p| >= 1 && FindPath(Map(km), p) == Some(Func(f))
    requires forall i :: 0 < i < |p| ==> p[i].code != Esc
    ensures Feed(km, [], p) == (Pendings(|p| - 1) + [Found(f)], [])
  {
    assert FindPath(Map(km), p) == FindPath(km[p[0]], p[1..]);
    if |p| == 1 {
      assert p[1..] == [];
      assert Step(km, [], p[0]) == (Found(f), []);
      assert p[1..] == [] && Feed(km, [], p[1..]) == ([], []);
      assert Feed(km, [], p) == ([Found(f)] + [], []);
      assert [Found(f)] + [] == Pendings(0) + [Found(f)];
    } else {
      assert km[p[0]].Map?;
      var first := [] + [p[0]];
      assert first == p[..1] && first[1..] == [];
      assert FindPath(km[p[0]], first[1..]) == Some(km[p[0]]);
      assert Step(km, [], p[0]) == (Pending, p[..1]);
      assert p[1..] == p[1..][..];
      ChordTail(km, p, f, 1);
      var rest := Feed(km, p[..1], p[1..]);
      assert Feed(km, [], p) == ([Pending] + rest.0, rest.1);
      PendingsCons(|p| - 2);
      assert rest == (Pendings(|p| - 2) + [Found(f)], []);
      assert [Pending] + (Pendings(|p| - 2) + [Found(f)]) == ([Pending] + Pendings(|p| - 2)) + [Found(f)];
    }
  }

  lemma {:induction false} PendingsCons(n: nat)
    ensures Pendings(n + 1) == [Pending] + Pendings(n)
  {
    var a, b := Pendings(n + 1), [Pending] + Pendings(n);
    assert |a| == |b|;
    forall i | 0 <= i < |a| ensures a[i] == b[i] {
      if i > 0 {
        assert b[i] == Pendings(n)[i - 1];
      }
    }
  }

  /** The rest of a chord, from `i` keys pending. */
  lemma {:induction false} ChordTail(km: Keymap, p: seq<KeyEvent>, f: string, i: nat)
    requires 1 <= i < |p| && FindPath(Map(km), p) == Some(Func(f))
    requires forall j :: 0 < j < |p| ==> p[j].code != Esc
    ensures Feed(km, p[..i], p[i..]) == (Pendings(|p| - i - 1) + [Found(f)], [])
    decreases |p| - i
  {
    var pending := p[..i];
    var next := p[..i + 1];
    assert pending[0] == p[0] && next[0] == p[0];
    assert pending + [p[i]] == next;
    assert p[i..][0] == p[i] && p[i..][1..] == p[i + 1..];
    assert FindPath(Map(km), p) == FindPath(km[p[0]], p[1..]);
    assert km[p[0]].Map?;
    assert FindPath(Map(km), next) == FindPath(km[p[0]], next[1..]);
    assert p == next + p[i + 1..];
    FindPathAppend(Map(km), next, p[i + 1..]);
    var st := Step(km, pending, p[i]);
    var rest := Feed(km, st.1, p[i + 1..]);
    assert Feed(km, pending, p[i..]) == ([st.0] + rest.0, rest.1);
    if i + 1 == |p| {
      assert p[i + 1..] == [];
      assert st == (Found(f), []);
      assert rest == ([], []);
      assert [st.0] + rest.0 == Pendings(0) + [Found(f)];
    } else {
      assert FindPath(Map(km), next).value.Map?;
      assert st == (Pending, next);
      ChordTail(km, p, f, i + 1);
      PendingsCons(|p| - i - 2);
      assert rest == (Pendings(|p| - i - 2) + [Found(f)], []);
      assert [Pending] + (Pendings(|p| - i - 2) + [Found(f)]) == ([Pending] + Pendings(|p| - i - 2)) + [Found(f)];
      assert [st.0] + rest.0 == Pendings(|p| - i - 1) + [Found(f)];
    }
  }

  // ---------------------------------------------------------------------
  // The keymaps of the editor
  // ---------------------------------------------------------------------

  function Bind(code: KeyCode, a: Action): (KeyEvent, Action)
  {
    (Plain(code), a)
  }

  /** The Normal mode bindings, one entry per key. */
  const NormalBindings: seq<(KeyEvent, Action)> := [
    Bind(Char('h'), Func("cursor_left")), Bind(Left, Func("cursor_left")),
    Bind(Char('j'), Func("cursor_down")), Bind(Down, Func("cursor_down")),
    Bind(Char('k'), Func("cursor_up")), Bind(Up, Func("cursor_up")),
    Bind(Char('l'), Func("cursor_right")), Bind(Right, Func("cursor_right")),
    Bind(Char('i'), Func("enter_insert_mode_at_cursor")),
    Bind(Char('I'), Func("enter_insert_mode_at_first_non_whitespace")),
    Bind(Char('a'), Func("enter_insert_mode_after_cursor")),
    Bind(Char('A'), Func("enter_insert_mode_at_eol")),
    Bind(Char('o'), Func("insert_line_below")),
    Bind(Char('O'), Func("insert_line_above")),
    Bind(Char('D'), Func("delete_until_eol")),
    Bind(Char('C'), Func("change_until_eol")),
    Bind(Char('X'), Func("delete_symbol_to_the_left")),
    Bind(Char('d'), Map(map[Plain(Char('d')) := Func("delete_current_line")])),
    Bind(Char('G'), Func("goto_last_line")),
    Bind(Char('g'), Map(map[Plain(Char('g')) := Func("goto_first_line")]))
  ]

  /** The Insert mode bindings. */
  const InsertBindings: seq<(KeyEvent, Action)> := [
    Bind(Esc, Func("enter_normal_mode")),
    Bind(Left, Func("cursor_left")), Bind(Down, Func("cursor_down")),
    Bind(Up, Func("cursor_up")), Bind(Right, Func("cursor_right")),
    Bind(Char('j'), Map(map[Plain(Char('k')) := Func("enter_normal_mode")])),
    Bind(Backspace, Func("delete_symbol_to_the_left")),
    Bind(Enter, Func("append_new_line"))
  ]

  /** Bindings whose key codes are pairwise different bind no key twice. */
  lemma {:induction false} DistinctByCodes(bindings: seq<(KeyEvent, Action)>, codes: seq<KeyCode>)
    requires |codes| == |bindings| && forall i :: 0 <= i < |codes| ==> bindings[i].0.code == codes[i]
    requires forall i, j :: 0 <= i < j < |codes| ==> codes[i] != codes[j]
    ensures DistinctKeys(bindings)
  {
    forall i, j | 0 <= i < j < |bindings| ensures bindings[i].0 != bindings[j].0 {
      assert bindings[i].0.code == codes[i] && bindings[j].0.code == codes[j];
    }
  }

  /** The editor's own tables bind no key twice, so building them never panics. */
  lemma {:induction false} NormalBindingsDistinct()
    ensures DistinctKeys(NormalBindings)
  {
    DistinctByCodes(NormalBindings, [Char('h'), Left, Char('j'), Down, Char('k'), Up, Char('l'), Right, Char('i'), Char('I'),
      Char('a'), Char('A'), Char('o'), Char('O'), Char('D'), Char('C'), Char('X'), Char('d'), Char('G'), Char('g')]);
  }

  lemma {:induction false} InsertBindingsDistinct()
    ensures DistinctKeys(InsertBindings)
  {
    DistinctByCodes(InsertBindings, [Esc, Left, Down, Up, Right, Char('j'), Backspace, Enter]);
  }

  class Keymaps {
    var maps: map<Mode, Keymap>
    var pending: seq<KeyEvent>

    /** `Keymaps::default`: the Normal and Insert keymaps, nothing pending. */
    constructor Default()
      ensures maps.Keys == {Normal, Insert}
      ensures Binds(maps[Normal], NormalBindings) && Binds(maps[Insert], InsertBindings)
      ensures pending == []
    {
      NormalBindingsDistinct();
      InsertBindingsDistinct();
      var normal := BuildKeymap(NormalBindings);
      var insert := BuildKeymap(InsertBindings);
      maps := map[Normal := normal.value, Insert := insert.value];
      pending := [];
    }

    /**
     * `Keymaps::get`: panics (None) when the mode has no keymap; otherwise
     * Esc cancels the pending keys, a key that starts nothing is NotFound, a
     * command bound at the root is Found at once, and any other key extends
     * the chord: Pending while it leads into a keymap, Found at a command and
     * Cancelled with all its keys when it leads nowhere.
     */
    method Get(mode: Mode, event: KeyEvent) returns (r: Option<KeymapResult>)
      modifies this
      ensures maps == old(maps)
      ensures mode !in maps ==> r.None? && pending == old(pending)
      ensures mode in maps ==> r.Some? && (r.value, pending) == Step(maps[mode], old(pending), event)
    {
      if mode !in maps {
        return None;
      }
      var keymap := maps[mode];
      if event.code == Esc && pending != [] {
        var keys := pending;
        pending := [];
        return Some(Cancelled(keys));
      }
      var root := if pending != [] then pending[0] else event;
      if root !in keymap {
        return Some(NotFound);
      }
      var action := keymap[root];
      if action.Func? {
        return Some(Found(action.name));
      }
      pending := pending + [event];
      var found := FindByPath(action, pending[1..]);
      if found.None? {
        var keys := pending;
        pending := [];
        return Some(Cancelled(keys));
      } else if found.value.Map? {
        return Some(Pending);
      } else {
        pending := [];
        return Some(Found(found.value.name));
      }
    }
  }

  /** In the editor's Normal keymap, `d d` deletes the current line and `g g` goes to the first line. */
  lemma {:induction false} NormalChords(km: Keymap)
    requires Binds(km, NormalBindings)
    ensures Feed(km, [], [Plain(Char('d')), Plain(Char('d'))]) == ([Pending, Found("delete_current_line")], [])
    ensures Feed(km, [], [Plain(Char('g')), Plain(Char('g'))]) == ([Pending, Found("goto_first_line")], [])
  {
    assert NormalBindings[17].0 == Plain(Char('d')) && NormalBindings[19].0 == Plain(Char('g'));
    TwoKeyChord(km, Plain(Char('d')), Plain(Char('d')), "delete_current_line");
    TwoKeyChord(km, Plain(Char('g')), Plain(Char('g')), "goto_first_line");
  }

  /** In the editor's Insert keymap, `j k` returns to Normal mode. */
  lemma {:induction false} InsertChord(km: Keymap)
    requires Binds(km, InsertBindings)
    ensures Feed(km, [], [Plain(Char('j')), Plain(Char('k'))]) == ([Pending, Found("enter_normal_mode")], [])
  {
    assert InsertBindings[5].0 == Plain(Char('j'));
    TwoKeyChord(km, Plain(Char('j')), Plain(Char('k')), "enter_normal_mode");
  }

  lemma {:induction false} TwoKeyChord(km: Keymap, a: KeyEvent, b: KeyEvent, f: string)
    requires a in km && km[a] == Map(map[b := Func(f)]) && b.code != Esc
    ensures Feed(km, [], [a, b]) == ([Pending, Found(f)], [])
  {
    var p := [a, b];
    assert p[1..] == [b] && p[1..][1..] == [];
    assert FindPath(Map(map[b := Func(f)]), [b]) == FindPath(Func(f), []);
    assert FindPath(Map(km), p) == FindPath(km[a], [b]);
    ChordResolves(km, p, f);
    assert Pendings(1) == [] + [Pending];
    assert Pendings(1) + [Found(f)] == [Pending, Found(f)];
  }
}

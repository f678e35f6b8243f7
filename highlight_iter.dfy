/**
 * Ordering highlight events across syntax layers (`HighlightIter` in
 * `syntax.rs`): each layer's sort key, the re-sorting of the layer list
 * after its first layer advanced, the emission of source spans, and the
 * mapping of capture names to theme scopes (`configure`).
 *
 * A layer's query captures are abstracted to what the ordering reads off
 * them: the start of the next capture, if any, and the stack of pending
 * highlight ends.
 */
module HighlightIter {
  import opened Base
  import opened Highlights

  // ---------------------------------------------------------------------
  // sort_key
  // ---------------------------------------------------------------------

  /** `(usize, bool, isize)`: the offset, whether the boundary starts a highlight, the negated depth. */
  datatype SortKey = SortKey(offset: nat, isStart: bool, negDepth: int)

  /** The derived ordering of the tuple: lexicographic, `false` before `true`. */
  predicate Less(a: SortKey, b: SortKey)
  {
    a.offset < b.offset
    || (a.offset == b.offset && !a.isStart && b.isStart)
    || (a.offset == b.offset && a.isStart == b.isStart && a.negDepth < b.negDepth)
  }

  predicate LessEq(a: SortKey, b: SortKey)
  {
    !Less(b, a)
  }

  /** A highlight layer as the ordering sees it. */
  datatype IterLayer = IterLayer(nextStart: Option<nat>, highlightEnds: seq<nat>, depth: nat)

  /**
   * `HighlightIterLayer::sort_key`: the layer's nearest boundary, the
   * start of its next capture or its innermost pending end, an end winning
   * a tie; `None` when it has neither.
   */
  function Key(layer: IterLayer): (r: Option<SortKey>)
    ensures r.None? <==> layer.nextStart.None? && layer.highlightEnds == []
    ensures r.Some? ==> r.value.negDepth == -(layer.depth as int)
    ensures r.Some? && r.value.isStart ==>
      (layer.nextStart == Some(r.value.offset)
       && (layer.highlightEnds != [] ==> r.value.offset < layer.highlightEnds[|layer.highlightEnds| - 1]))
    ensures r.Some? && !r.value.isStart ==>
      (layer.highlightEnds != [] && r.value.offset == layer.highlightEnds[|layer.highlightEnds| - 1]
       && (layer.nextStart.Some? ==> r.value.offset <= layer.nextStart.value))
  {
    var depth := -(layer.depth as int);
    var nextEnd := if layer.highlightEnds == [] then None else Some(layer.highlightEnds[|layer.highlightEnds| - 1]);
    match (layer.nextStart, nextEnd)
    case (Some(start), Some(end)) => if start < end then Some(SortKey(start, true, depth)) else Some(SortKey(end, false, depth))
    case (Some(i), None) => Some(SortKey(i, true, depth))
    case (None, Some(j)) => Some(SortKey(j, false, depth))
    case (None, None) => None
  }

  /** The offset of a layer's nearest boundary. */
  function NextOffset(layer: IterLayer): nat
    requires Key(layer).Some?
  {
    Key(layer).value.offset
  }

  /**
   * The order of keys is the order of events: an earlier boundary first;
   * at one offset an end before a start; at one offset and kind the deeper
   * layer first; and two layers tie only at the same offset, kind and depth.
   */
  lemma KeyOrder(a: IterLayer, b: IterLayer)
    requires Key(a).Some? && Key(b).Some?
    ensures NextOffset(a) < NextOffset(b) ==> Less(Key(a).value, Key(b).value)
    ensures NextOffset(a) == NextOffset(b) && !Key(a).value.isStart && Key(b).value.isStart ==> Less(Key(a).value, Key(b).value)
    ensures NextOffset(a) == NextOffset(b) && Key(a).value.isStart == Key(b).value.isStart && a.depth > b.depth ==> Less(Key(a).value, Key(b).value)
    ensures Less(Key(a).value, Key(b).value) || Less(Key(b).value, Key(a).value)
      || (NextOffset(a) == NextOffset(b) && Key(a).value.isStart == Key(b).value.isStart && a.depth == b.depth)
  {
  }

  /** Keys are totally ordered: `LessEq` is transitive and total. */
  lemma LessEqOrder(a: SortKey, b: SortKey, c: SortKey)
    ensures LessEq(a, b) && LessEq(b, c) ==> LessEq(a, c)
    ensures LessEq(a, b) || LessEq(b, a)
    ensures LessEq(a, b) && LessEq(b, a) ==> a == b
  {
  }

  // ---------------------------------------------------------------------
  // sort_layers
  // ---------------------------------------------------------------------

  /**
   * The first layer, with key `k`, moved past the layers before it whose
   * keys are smaller; a layer without a key met on the way is dropped.
   */
  function Place(first: IterLayer, k: SortKey, rest: seq<IterLayer>): (r: seq<IterLayer>)
    decreases |rest|
  {
    if rest == [] then [first]
    else match Key(rest[0])
      case None => [first] + rest[1..]
      case Some(k') => if Less(k', k) then [rest[0]] + Place(first, k, rest[1..]) else [first] + rest
  }

  /** `sort_layers` on a list of layers: leading layers without a key are dropped, then the first is placed. */
  function Reordered(layers: seq<IterLayer>): seq<IterLayer>
    decreases |layers|
  {
    if layers == [] then []
    else match Key(layers[0])
      case None => Reordered(layers[1..])
      case Some(k) => Place(layers[0], k, layers[1..])
  }

  /** Layers that all have keys, in order of their keys. */
  predicate InOrder(layers: seq<IterLayer>)
  {
    (forall i :: 0 <= i < |layers| ==> Key(layers[i]).Some?)
    && forall i, j :: 0 <= i < j < |layers| ==> LessEq(Key(layers[i]).value, Key(layers[j]).value)
  }

  /** Placing skips the layers whose keys are present and smaller. */
  lemma {:induction false} PlaceSkips(first: IterLayer, k: SortKey, rest: seq<IterLayer>, i: nat)
    requires i <= |rest|
    requires forall j :: 0 <= j < i ==> Key(rest[j]).Some? && Less(Key(rest[j]).value, k)
    ensures Place(first, k, rest) == rest[..i] + Place(first, k, rest[i..])
    decreases i
  {
    if i > 0 {
      PlaceSkips(first, k, rest[1..], i - 1);
      assert rest[1..][..i - 1] == rest[1..i];
      assert rest[1..][i - 1..] == rest[i..];
      assert rest[..i] == [rest[0]] + rest[1..i];
    }
  }

  /** Placing keeps the placed layer and brings in no other. */
  lemma {:induction false} PlaceMembers(first: IterLayer, k: SortKey, rest: seq<IterLayer>)
    ensures first in Place(first, k, rest)
    ensures forall x :: x in Place(first, k, rest) ==> x == first || x in rest
    decreases |rest|
  {
    if rest != [] && Key(rest[0]).Some? && Less(Key(rest[0]).value, k) {
      PlaceMembers(first, k, rest[1..]);
    }
  }

  /** Among layers that all have keys, placing drops none. */
  lemma {:induction false} PlaceKeeps(first: IterLayer, k: SortKey, rest: seq<IterLayer>)
    requires forall i :: 0 <= i < |rest| ==> Key(rest[i]).Some?
    ensures multiset(Place(first, k, rest)) == multiset([first] + rest)
    decreases |rest|
  {
    if rest != [] {
      assert Key(rest[0]).Some?;
      assert rest == [rest[0]] + rest[1..];
      if Less(Key(rest[0]).value, k) {
        PlaceKeeps(first, k, rest[1..]);
        assert multiset([first] + rest) == multiset([rest[0]] + ([first] + rest[1..]));
      }
    }
  }

  lemma InOrderTail(layers: seq<IterLayer>)
    requires layers != [] && InOrder(layers)
    ensures InOrder(layers[1..])
  {
    var tail := layers[1..];
    forall i, j | 0 <= i < j < |tail| ensures LessEq(Key(tail[i]).value, Key(tail[j]).value) {
      assert tail[i] == layers[i + 1] && tail[j] == layers[j + 1];
    }
  }

  lemma InOrderCons(x: IterLayer, layers: seq<IterLayer>)
    requires Key(x).Some? && InOrder(layers)
    requires forall y :: y in layers ==> LessEq(Key(x).value, Key(y).value)
    ensures InOrder([x] + layers)
  {
    var r := [x] + layers;
    forall i, j | 0 <= i < j < |r| ensures LessEq(Key(r[i]).value, Key(r[j]).value) {
      if i == 0 {
        assert r[j] == layers[j - 1] && r[j] in layers;
      } else {
        assert r[i] == layers[i - 1] && r[j] == layers[j - 1];
      }
    }
  }

  /** Placing a layer with a key among layers in order leaves them in order. */
  lemma {:induction false} PlaceInOrder(first: IterLayer, k: SortKey, rest: seq<IterLayer>)
    requires Key(first) == Some(k) && InOrder(rest)
    ensures InOrder(Place(first, k, rest))
    decreases |rest|
  {
    if rest == [] {
      assert Place(first, k, rest) == [first];
    } else {
      var k0 := Key(rest[0]).value;
      if Less(k0, k) {
        var tail := rest[1..];
        InOrderTail(rest);
        PlaceInOrder(first, k, tail);
        PlaceMembers(first, k, tail);
        var p := Place(first, k, tail);
        forall y | y in p ensures LessEq(k0, Key(y).value) {
          if y != first {
            var j :| 0 <= j < |tail| && tail[j] == y;
            assert rest[j + 1] == y;
          }
        }
        InOrderCons(rest[0], p);
      } else {
        forall y | y in rest ensures LessEq(k, Key(y).value) {
          var j :| 0 <= j < |rest| && rest[j] == y;
          if j > 0 {
            LessEqOrder(k, k0, Key(rest[j]).value);
          }
        }
        InOrderCons(first, rest);
      }
    }
  }

  /**
   * What `sort_layers` promises: when every layer after the first is in
   * order, the result is in order and holds the same layers, less the
   * first one if it has no key.
   */
  lemma {:induction false} ReorderedInOrder(layers: seq<IterLayer>)
    requires |layers| > 0 && InOrder(layers[1..])
    ensures InOrder(Reordered(layers))
    ensures Key(layers[0]).Some? ==> multiset(Reordered(layers)) == multiset(layers)
    ensures Key(layers[0]).None? ==> multiset(Reordered(layers)) == multiset(layers[1..])
  {
    assert layers == [layers[0]] + layers[1..];
    match Key(layers[0])
    case Some(k) =>
      PlaceInOrder(layers[0], k, layers[1..]);
      PlaceKeeps(layers[0], k, layers[1..]);
    case None =>
      var rest := layers[1..];
      if rest != [] {
        var k := Key(rest[0]).value;
        assert Reordered(layers) == Place(rest[0], k, rest[1..]);
        assert InOrder(rest[1..]) by {
          forall i, j | 0 <= i < j < |rest[1..]| ensures LessEq(Key(rest[1..][i]).value, Key(rest[1..][j]).value) {
            assert rest[1..][i] == rest[i + 1] && rest[1..][j] == rest[j + 1];
          }
        }
        PlaceInOrder(rest[0], k, rest[1..]);
        PlaceKeeps(rest[0], k, rest[1..]);
        assert rest == [rest[0]] + rest[1..];
      }
  }

  /** Scans for the place of the first layer, dropping a layer without a key that it meets. */
  method PlaceFirst(ls: seq<IterLayer>, k: SortKey) returns (r: seq<IterLayer>)
    requires |ls| > 0 && Key(ls[0]) == Some(k)
    ensures r == Place(ls[0], k, ls[1..])
  {
    r := ls;
    var i := 0;
    while i + 1 < |r|
      invariant i < |r| && r == ls
      invariant forall j :: 0 <= j < i ==> Key(ls[1..][j]).Some? && Less(Key(ls[1..][j]).value, k)
      decreases |r| - i
    {
      var next := Key(r[i + 1]);
      if next.Some? && Less(next.value, k) {
        i := i + 1;
        continue;
      }
      if next.None? {
        r := r[..i + 1] + r[i + 2..];
      }
      break;
    }
    PlaceSkips(ls[0], k, ls[1..], i);
    assert ls[1..][..i] == ls[1..i + 1];
    assert ls[1..][i..] == ls[i + 1..];
    if i > 0 {
      r := r[1..i + 1] + [r[0]] + r[i + 1..];
    } else {
      assert r == [ls[0]] + r[1..];
    }
  }

  /** `sort_layers` on a list: the loop dropping leading layers without a key, then the placing scan. */
  method SortedLayers(layers: seq<IterLayer>) returns (r: seq<IterLayer>)
    ensures r == Reordered(layers)
  {
    r := layers;
    while r != []
      invariant Reordered(r) == Reordered(layers)
      decreases |r|
    {
      var key := Key(r[0]);
      if key.Some? {
        r := PlaceFirst(r, key.value);
        return;
      }
      r := r[1..];
    }
  }

  // ---------------------------------------------------------------------
  // The iterator's position
  // ---------------------------------------------------------------------

  /** The part of `HighlightIter` the event ordering updates. */
  class HighlightIter {
    var byteOffset: nat
    var layers: seq<IterLayer>
    var nextEvent: Option<HighlightEvent>

    /** `HighlightIter::new` after sorting the layers by key: the iterator starts at `start`. */
    constructor (start: nat, layers: seq<IterLayer>)
      ensures byteOffset == start && nextEvent.None?
      ensures this.layers == Reordered(layers)
    {
      byteOffset := start;
      nextEvent := None;
      new;
      this.layers := SortedLayers(layers);
    }

    /** `sort_layers`. */
    method SortLayers()
      modifies this
      ensures layers == Reordered(old(layers))
      ensures byteOffset == old(byteOffset) && nextEvent == old(nextEvent)
    {
      layers := SortedLayers(layers);
    }

    /**
     * `emit_event`: source text up to `offset` that has not been emitted
     * yet goes out first, as one span starting where the last one ended,
     * and `event` waits; otherwise `event` goes out. The layers are
     * re-sorted either way. The emitted offset never moves back.
     */
    method EmitEvent(offset: nat, event: Option<HighlightEvent>) returns (result: Option<HighlightEvent>)
      modifies this
      ensures old(byteOffset) <= byteOffset
      ensures old(byteOffset) < offset ==>
        result == Some(Source(old(byteOffset), offset)) && byteOffset == offset && nextEvent == event
      ensures offset <= old(byteOffset) ==> result == event && byteOffset == old(byteOffset) && nextEvent == old(nextEvent)
      ensures layers == Reordered(old(layers))
    {
      if byteOffset < offset {
        result := Some(Source(byteOffset, offset));
        byteOffset := offset;
        nextEvent := event;
      } else {
        result := event;
      }
      SortLayers();
    }
  }

  // ---------------------------------------------------------------------
  // configure
  // ---------------------------------------------------------------------

  /** The number of segments a theme scope names when it matches: it matches when its segments begin the capture's. */
  function MatchLen(scope: string, captureParts: seq<string>): (n: nat)
    ensures n > 0 <==> Split(scope, '.') <= captureParts
    ensures n > 0 ==> n == |Split(scope, '.')|
  {
    var parts := Split(scope, '.');
    if parts <= captureParts then |parts| else 0
  }

  /** The best scope among `scopes[i..]`, given the best so far: a strictly longer match replaces it. */
  function BestFrom(captureParts: seq<string>, scopes: seq<string>, i: nat, best: Option<nat>, bestLen: nat): Option<nat>
    requires i <= |scopes|
    decreases |scopes| - i
  {
    if i == |scopes| then best
    else
      var n := MatchLen(scopes[i], captureParts);
      if n > bestLen then BestFrom(captureParts, scopes, i + 1, Some(i), n)
      else BestFrom(captureParts, scopes, i + 1, best, bestLen)
  }

  /** The theme scope a capture name is highlighted with. */
  function BestScope(capture: string, scopes: seq<string>): Option<nat>
  {
    BestFrom(Split(capture, '.'), scopes, 0, None, 0)
  }

  /** Whether `best` is the longest match among the first `i` scopes, the earliest on ties, with length `bestLen`. */
  predicate BestSoFar(captureParts: seq<string>, scopes: seq<string>, i: nat, best: Option<nat>, bestLen: nat)
    requires i <= |scopes|
  {
    && (best.None? ==> bestLen == 0 && forall j :: 0 <= j < i ==> MatchLen(scopes[j], captureParts) == 0)
    && (best.Some? ==>
          (best.value < i && bestLen > 0 && MatchLen(scopes[best.value], captureParts) == bestLen
           && (forall j :: 0 <= j < i ==> MatchLen(scopes[j], captureParts) <= bestLen)
           && (forall j :: 0 <= j < best.value ==> MatchLen(scopes[j], captureParts) < bestLen)))
  }

  lemma {:induction false} BestFromKeeps(captureParts: seq<string>, scopes: seq<string>, i: nat, best: Option<nat>, bestLen: nat)
    requires i <= |scopes| && BestSoFar(captureParts, scopes, i, best, bestLen)
    ensures exists len :: BestSoFar(captureParts, scopes, |scopes|, BestFrom(captureParts, scopes, i, best, bestLen), len)
    decreases |scopes| - i
  {
    if i == |scopes| {
      assert BestFrom(captureParts, scopes, i, best, bestLen) == best;
      assert BestSoFar(captureParts, scopes, |scopes|, best, bestLen);
    } else {
      var n := MatchLen(scopes[i], captureParts);
      if n > bestLen {
        assert BestFrom(captureParts, scopes, i, best, bestLen) == BestFrom(captureParts, scopes, i + 1, Some(i), n);
        BestFromKeeps(captureParts, scopes, i + 1, Some(i), n);
      } else {
        assert BestFrom(captureParts, scopes, i, best, bestLen) == BestFrom(captureParts, scopes, i + 1, best, bestLen);
        BestFromKeeps(captureParts, scopes, i + 1, best, bestLen);
      }
    }
  }

  /**
   * What `configure` promises for one capture: a scope is chosen exactly
   * when some scope's segments begin the capture's; the chosen one names
   * the most segments, and no earlier scope names as many.
   */
  lemma BestScopeIsLongest(capture: string, scopes: seq<string>)
    ensures BestScope(capture, scopes).None? <==> forall j :: 0 <= j < |scopes| ==> !(Split(scopes[j], '.') <= Split(capture, '.'))
    ensures BestScope(capture, scopes).Some? ==>
      var b := BestScope(capture, scopes).value;
      b < |scopes| && Split(scopes[b], '.') <= Split(capture, '.')
      && (forall j :: 0 <= j < |scopes| && Split(scopes[j], '.') <= Split(capture, '.') ==> |Split(scopes[j], '.')| <= |Split(scopes[b], '.')|)
      && (forall j :: 0 <= j < b && Split(scopes[j], '.') <= Split(capture, '.') ==> |Split(scopes[j], '.')| < |Split(scopes[b], '.')|)
  {
    var cp := Split(capture, '.');
    BestFromKeeps(cp, scopes, 0, None, 0);
    var len :| BestSoFar(cp, scopes, |scopes|, BestScope(capture, scopes), len);
    forall j | 0 <= j < |scopes| ensures MatchLen(scopes[j], cp) > 0 <==> Split(scopes[j], '.') <= cp {
    }
  }

  /** The inner loop of `configure`: whether a scope's segments begin the capture's, and how many there are. */
  method MatchSegments(scopeParts: seq<string>, captureParts: seq<string>) returns (matches: bool, len: nat)
    ensures matches <==> scopeParts <= captureParts
    ensures matches ==> len == |scopeParts|
  {
    len := 0;
    matches := true;
    var i := 0;
    while i < |scopeParts|
      invariant i <= |scopeParts| && len == i
      invariant i <= |captureParts| && scopeParts[..i] == captureParts[..i]
    {
      if i < |captureParts| && captureParts[i] == scopeParts[i] {
        len := len + 1;
      } else {
        matches := false;
        return;
      }
      assert scopeParts[..i + 1] == scopeParts[..i] + [scopeParts[i]];
      assert captureParts[..i + 1] == captureParts[..i] + [captureParts[i]];
      i := i + 1;
    }
    assert scopeParts == captureParts[..i];
  }

  /** The scope loop of `configure` for one capture. */
  method ScopeFor(capture: string, scopes: seq<string>) returns (best: Option<nat>)
    ensures best == BestScope(capture, scopes)
  {
    var captureParts := Split(capture, '.');
    best := None;
    var bestLen := 0;
    var i := 0;
    while i < |scopes|
      invariant i <= |scopes|
      invariant BestFrom(captureParts, scopes, i, best, bestLen) == BestScope(capture, scopes)
    {
      var matches, len := MatchSegments(Split(scopes[i], '.'), captureParts);
      if matches && len > bestLen {
        best := Some(i);
        bestLen := len;
      }
      i := i + 1;
    }
  }

  /** `configure`: the highlight index of every capture name of the query. */
  method Configure(captureNames: seq<string>, scopes: seq<string>) returns (indices: seq<Option<nat>>)
    ensures |indices| == |captureNames|
    ensures forall k :: 0 <= k < |captureNames| ==> indices[k] == BestScope(captureNames[k], scopes)
  {
    indices := [];
    var k := 0;
    while k < |captureNames|
      invariant k <= |captureNames| && |indices| == k
      invariant forall j :: 0 <= j < k ==> indices[j] == BestScope(captureNames[j], scopes)
    {
      var best := ScopeFor(captureNames[k], scopes);
      indices := indices + [best];
      k := k + 1;
    }
  }

  /** One step of splitting. */
  lemma SplitStep(s: string, sep: char)
    requires s != []
    ensures Split(s, sep) == if s[0] == sep then [""] + Split(s[1..], sep) else [[s[0]] + Split(s[1..], sep)[0]] + Split(s[1..], sep)[1..]
  {
    var rest := Split(s[1..], sep);
    if s[0] == sep {
      assert Split(s, sep) == [""] + rest;
    } else {
      assert Split(s, sep) == [[s[0]] + rest[0]] + rest[1..];
    }
  }

  /** A one-character segment followed by a dot splits off on its own. */
  lemma SplitDotted(x: char, rest: string)
    requires x != '.'
    ensures Split([x, '.'] + rest, '.') == [[x]] + Split(rest, '.')
  {
    var t := [x, '.'] + rest;
    SplitStep(t, '.');
    assert t[1..] == ['.'] + rest;
    SplitStep(['.'] + rest, '.');
    assert (['.'] + rest)[1..] == rest;
    assert [x] + "" == [x];
  }

  /** A one-character name is one segment. */
  lemma SplitSingle(x: char)
    requires x != '.'
    ensures Split([x], '.') == [[x]]
  {
    SplitStep([x], '.');
    assert [x][1..] == [];
    assert [x] + "" == [x];
  }

  /** For `function.builtin.constructor`, `function.builtin` is chosen over `function` and `function.method`: here with one-character segment names. */
  lemma ConfigureExample(f: char, m: char, b: char, c: char)
    requires f != '.' && m != '.' && b != '.' && c != '.' && m != b
    ensures BestScope([f, '.', b, '.', c], [[f], [f, '.', m], [f, '.', b]]) == Some(2)
  {
    var scopes := [[f], [f, '.', m], [f, '.', b]];
    SplitSingle(c);
    SplitDotted(b, [c]);
    assert [b, '.'] + [c] == [b, '.', c];
    SplitDotted(f, [b, '.', c]);
    assert [f, '.'] + [b, '.', c] == [f, '.', b, '.', c];
    var cp := [[f], [b], [c]];
    assert Split([f, '.', b, '.', c], '.') == cp;
    SplitSingle(f);
    SplitSingle(m);
    SplitSingle(b);
    SplitDotted(f, [m]);
    SplitDotted(f, [b]);
    assert [f, '.'] + [m] == [f, '.', m] && [f, '.'] + [b] == [f, '.', b];
    assert MatchLen(scopes[0], cp) == 1 by { assert [[f]] <= cp; }
    assert MatchLen(scopes[1], cp) == 0 by { assert Split(scopes[1], '.') == [[f], [m]]; assert [[f], [m]][1] != cp[1]; }
    assert MatchLen(scopes[2], cp) == 2 by { assert Split(scopes[2], '.') == [[f], [b]]; assert [[f], [b]] <= cp; }
    assert BestFrom(cp, scopes, 3, Some(2), 2) == Some(2);
    assert BestFrom(cp, scopes, 2, Some(0), 1) == Some(2);
    assert BestFrom(cp, scopes, 1, Some(0), 1) == Some(2);
    assert BestFrom(cp, scopes, 0, None, 0) == Some(2);
  }
}

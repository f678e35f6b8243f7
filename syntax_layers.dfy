/**
 * Syntax layers (`syntax.rs`): the ranges an injection is parsed in
 * (`intersect_ranges`), the injections a layer's query matches yield, and
 * the pass of `Syntax::update` that re-marks, re-parses, injects and
 * prunes layers.
 *
 * Tree-sitter is a parameter: whether a layer parses, the injection
 * matches its tree yields, and the nodes those matches capture. The
 * injection callback (language lookup plus highlight configuration) is a
 * parameter too.
 */
module SyntaxLayers {
  import opened Base
  import opened SyntaxEdits
  import Transactions
  import Languages

  /** `usize::MAX`: the end of the root layer's range and of what follows a content node. */
  const USIZE_MAX: nat := 0xFFFF_FFFF_FFFF_FFFF

  // ---------------------------------------------------------------------
  // intersect_ranges
  // ---------------------------------------------------------------------

  /** `IncludedChildren`; the default is `None`. */
  datatype IncludedChildren = NoChildren | AllChildren | UnnamedChildren

  /** A child of a content node: its range and whether it is named. */
  datatype Child = Child(range: ByteRange, named: bool)

  datatype NodeData = NodeData(range: ByteRange, children: seq<Child>)

  /** A tree-sitter node: it never ends before it starts. */
  type Node = n: NodeData | n.range.startByte <= n.range.endByte witness NodeData(ByteRange(0, 0), [])

  /** Whether an injection leaves a child out of the text it parses. */
  predicate Excludes(included: IncludedChildren, c: Child)
  {
    included.NoChildren? || (included.UnnamedChildren? && c.named)
  }

  /** The ranges of the children left out, in order. */
  function ExcludedChildren(children: seq<Child>, included: IncludedChildren): seq<ByteRange>
  {
    if children == [] then []
    else (if Excludes(included, children[0]) then [children[0].range] else []) + ExcludedChildren(children[1..], included)
  }

  /** What a content node's text is cut at: the children left out, then everything after the node. */
  function Excluded(node: Node, included: IncludedChildren): (r: seq<ByteRange>)
    ensures |r| > 0
  {
    ExcludedChildren(node.children, included) + [ByteRange(node.range.endByte, USIZE_MAX)]
  }

  /**
   * The `k`th stretch of a content node that is parsed: from the end of the
   * excluded range before it (the node's start for the first) to the start
   * of the `k`th excluded range.
   */
  function Gap(node: Node, included: IncludedChildren, k: nat): ByteRange
    requires k < |Excluded(node, included)|
  {
    var ex := Excluded(node, included);
    ByteRange(if k == 0 then node.range.startByte else ex[k - 1].endByte, ex[k].startByte)
  }

  predicate Inside(r: ByteRange, outer: ByteRange)
  {
    outer.startByte <= r.startByte && r.endByte <= outer.endByte
  }

  predicate InSomeParent(r: ByteRange, parents: seq<ByteRange>)
  {
    exists p :: 0 <= p < |parents| && Inside(r, parents[p])
  }

  predicate InSomeGap(r: ByteRange, nodes: seq<Node>, included: IncludedChildren)
  {
    exists n, k :: 0 <= n < |nodes| && 0 <= k < |Excluded(nodes[n], included)| && Inside(r, Gap(nodes[n], included, k))
  }

  /** A range an injection may be parsed in: not empty, inside a parent range, and inside a parsed stretch of a content node. */
  predicate Sound(r: ByteRange, parents: seq<ByteRange>, nodes: seq<Node>, included: IncludedChildren)
  {
    r.startByte < r.endByte && InSomeParent(r, parents) && InSomeGap(r, nodes, included)
  }

  /**
   * The inner `while` of `intersect_ranges`: cuts one stretch against the
   * parent ranges from `pi` on, clipping it to each parent it meets. The
   * parent reached is kept for the next stretch; `exhausted` says that the
   * parents ran out, which ends the whole computation.
   */
  method ClipGap(parents: seq<ByteRange>, pi: nat, gap: ByteRange) returns (out: seq<ByteRange>, pj: nat, exhausted: bool)
    requires pi < |parents|
    ensures pi <= pj < |parents|
    ensures forall i :: 0 <= i < |out| ==>
      out[i].startByte < out[i].endByte && Inside(out[i], gap) && InSomeParent(out[i], parents)
  {
    var range := gap;
    out := [];
    pj := pi;
    exhausted := false;
    while parents[pj].startByte <= range.endByte
      invariant pi <= pj < |parents|
      invariant range.endByte == gap.endByte && gap.startByte <= range.startByte
      invariant forall i :: 0 <= i < |out| ==>
        out[i].startByte < out[i].endByte && Inside(out[i], gap) && InSomeParent(out[i], parents)
      decreases |parents| - pj
    {
      var parent := parents[pj];
      if parent.endByte > range.startByte {
        if range.startByte < parent.startByte {
          range := range.(startByte := parent.startByte);
        }
        if parent.endByte < range.endByte {
          if range.startByte < parent.endByte {
            var piece := ByteRange(range.startByte, parent.endByte);
            assert Inside(piece, parents[pj]);
            out := out + [piece];
          }
          range := range.(startByte := parent.endByte);
        } else {
          if range.startByte < range.endByte {
            assert Inside(range, parents[pj]);
            out := out + [range];
          }
          return;
        }
      }
      if pj + 1 < |parents| {
        pj := pj + 1;
      } else {
        exhausted := true;
        return;
      }
    }
  }

  /**
   * `intersect_ranges`: the ranges an injection over `nodes` is parsed in.
   * Each is non-empty, inside one of the parent layer's ranges, and inside
   * a content node with the excluded children cut out. The source panics
   * on an empty list of parent ranges or of nodes.
   */
  method IntersectRanges(parents: seq<ByteRange>, nodes: seq<Node>, included: IncludedChildren) returns (result: seq<ByteRange>)
    requires |parents| > 0 && |nodes| > 0
    ensures forall i :: 0 <= i < |result| ==> Sound(result[i], parents, nodes, included)
  {
    result := [];
    var pi := 0;
    var n := 0;
    while n < |nodes|
      invariant pi < |parents| && n <= |nodes|
      invariant forall i :: 0 <= i < |result| ==> Sound(result[i], parents, nodes, included)
    {
      var ex := Excluded(nodes[n], included);
      var precedingEnd := nodes[n].range.startByte;
      var k := 0;
      while k < |ex|
        invariant pi < |parents| && k <= |ex|
        invariant precedingEnd == if k == 0 then nodes[n].range.startByte else ex[k - 1].endByte
        invariant forall i :: 0 <= i < |result| ==> Sound(result[i], parents, nodes, included)
      {
        var range := ByteRange(precedingEnd, ex[k].startByte);
        assert range == Gap(nodes[n], included, k);
        precedingEnd := ex[k].endByte;
        if range.endByte >= parents[pi].startByte {
          var out, pj, exhausted := ClipGap(parents, pi, range);
          forall i | 0 <= i < |out| ensures Sound(out[i], parents, nodes, included) {
            assert Inside(out[i], Gap(nodes[n], included, k));
          }
          result := result + out;
          pi := pj;
          if exhausted {
            return;
          }
        }
        k := k + 1;
      }
      n := n + 1;
    }
  }

  /** Including all children leaves a single stretch: the whole node. */
  lemma {:induction false} AllChildrenWholeNode(node: Node)
    ensures Excluded(node, AllChildren) == [ByteRange(node.range.endByte, USIZE_MAX)]
    ensures Gap(node, AllChildren, 0) == node.range
  {
    NoneExcluded(node.children);
  }

  lemma {:induction false} NoneExcluded(children: seq<Child>)
    ensures ExcludedChildren(children, AllChildren) == []
  {
    if children != [] {
      NoneExcluded(children[1..]);
    }
  }

  // ---------------------------------------------------------------------
  // Injections of one layer
  // ---------------------------------------------------------------------

  /** What `injection_for_match` reads off a query match, with the match's pattern. */
  datatype QueryMatch = QueryMatch(pattern: nat, capture: Option<Languages.InjectionLanguageMarker>, content: Option<Node>, included: IncludedChildren)

  /** A layer to inject: its configuration and the ranges it is parsed in. */
  datatype Injection = Injection(config: Languages.HighlightConfiguration, ranges: seq<ByteRange>)

  /** The entry a combined-injection pattern accumulates: the last language marker, the accepted nodes, the last inclusion setting. */
  datatype CombinedEntry = CombinedEntry(marker: Option<Languages.InjectionLanguageMarker>, nodes: seq<Node>, included: IncludedChildren)

  /** The first position of a pattern among the combined-injection patterns. */
  function CombinedIndex(patterns: seq<nat>, pattern: nat): (r: Option<nat>)
    ensures r.Some? ==> r.value < |patterns| && patterns[r.value] == pattern && forall j :: 0 <= j < r.value ==> patterns[j] != pattern
    ensures r.None? ==> forall j :: 0 <= j < |patterns| ==> patterns[j] != pattern
  {
    if patterns == [] then None
    else if patterns[0] == pattern then Some(0)
    else match CombinedIndex(patterns[1..], pattern) case None => None case Some(j) => Some(j + 1)
  }

  /** Content nodes each ending before the next one starts. */
  predicate NodesInOrder(nodes: seq<Node>)
  {
    forall i, j :: 0 <= i < j < |nodes| ==> nodes[i].range.endByte <= nodes[j].range.startByte
  }

  /** Adds one match to its combined-injection entry, accepting its content node only past `lastEnd`. */
  method AddCombined(entry: CombinedEntry, m: QueryMatch, lastEnd: nat) returns (r: CombinedEntry, newEnd: nat)
    ensures lastEnd <= newEnd
    ensures r.marker == if m.capture.Some? then m.capture else entry.marker
    ensures r.included == m.included
    ensures m.content.Some? && m.content.value.range.startByte >= lastEnd ==>
      r.nodes == entry.nodes + [m.content.value] && newEnd == m.content.value.range.endByte
    ensures !(m.content.Some? && m.content.value.range.startByte >= lastEnd) ==> r.nodes == entry.nodes && newEnd == lastEnd
  {
    r := entry;
    newEnd := lastEnd;
    if m.capture.Some? {
      r := r.(marker := m.capture);
    }
    if m.content.Some? && m.content.value.range.startByte >= lastEnd {
      r := r.(nodes := r.nodes + [m.content.value]);
      newEnd := m.content.value.range.endByte;
    }
    r := r.(included := m.included);
  }

  /**
   * The loop over a layer's injection matches: a match of a combined
   * pattern goes to its entry; any other match with a language marker and
   * a content node becomes an injection when the callback finds a
   * configuration and the ranges are not empty, unless its content node
   * starts before the end of the content accepted last. Besides the
   * injections, the content node and inclusion setting of each.
   */
  method CollectMatches(parents: seq<ByteRange>, matches: seq<QueryMatch>, patterns: seq<nat>,
                        callback: Languages.InjectionLanguageMarker -> Option<Languages.HighlightConfiguration>)
    returns (injections: seq<Injection>, contents: seq<(Node, IncludedChildren)>, combined: seq<CombinedEntry>)
    requires |parents| > 0
    ensures |contents| == |injections| && |combined| == |patterns|
    ensures forall i :: 0 <= i < |injections| ==> |injections[i].ranges| > 0
    ensures forall i, r :: 0 <= i < |injections| && r in injections[i].ranges ==> Sound(r, parents, [contents[i].0], contents[i].1)
    ensures forall i, j :: 0 <= i < j < |contents| ==> contents[i].0.range.endByte <= contents[j].0.range.startByte
  {
    injections, contents := [], [];
    combined := seq(|patterns|, _ => CombinedEntry(None, [], NoChildren));
    var lastEnd := 0;
    var i := 0;
    while i < |matches|
      invariant i <= |matches| && |contents| == |injections| && |combined| == |patterns|
      invariant forall k :: 0 <= k < |injections| ==> |injections[k].ranges| > 0
      invariant forall k, r :: 0 <= k < |injections| && r in injections[k].ranges ==> Sound(r, parents, [contents[k].0], contents[k].1)
      invariant forall k :: 0 <= k < |contents| ==> contents[k].0.range.endByte <= lastEnd
      invariant forall k, j :: 0 <= k < j < |contents| ==> contents[k].0.range.endByte <= contents[j].0.range.startByte
    {
      var m := matches[i];
      i := i + 1;
      var ci := CombinedIndex(patterns, m.pattern);
      if ci.Some? {
        var entry, newEnd := AddCombined(combined[ci.value], m, lastEnd);
        combined := combined[ci.value := entry];
        lastEnd := newEnd;
        continue;
      }
      if m.capture.Some? && m.content.Some? {
        var config := callback(m.capture.value);
        if config.Some? {
          var content := m.content.value;
          var ranges := IntersectRanges(parents, [content], m.included);
          if ranges != [] {
            if content.range.startByte < lastEnd {
              continue;
            }
            lastEnd := content.range.endByte;
            injections := injections + [Injection(config.value, ranges)];
            contents := contents + [(content, m.included)];
          }
        }
      }
    }
  }

  /** The combined injections: one per entry with a language, some nodes, a configuration and non-empty ranges. */
  method CollectCombined(parents: seq<ByteRange>, combined: seq<CombinedEntry>,
                         callback: Languages.InjectionLanguageMarker -> Option<Languages.HighlightConfiguration>)
    returns (injections: seq<Injection>)
    requires |parents| > 0
    ensures forall i :: 0 <= i < |injections| ==> |injections[i].ranges| > 0
    ensures forall i, r :: 0 <= i < |injections| && r in injections[i].ranges ==>
      exists e :: 0 <= e < |combined| && Sound(r, parents, combined[e].nodes, combined[e].included)
  {
    injections := [];
    var e := 0;
    while e < |combined|
      invariant e <= |combined|
      invariant forall i :: 0 <= i < |injections| ==> |injections[i].ranges| > 0
      invariant forall i, r :: 0 <= i < |injections| && r in injections[i].ranges ==>
        exists e' :: 0 <= e' < |combined| && Sound(r, parents, combined[e'].nodes, combined[e'].included)
    {
      var entry := combined[e];
      if entry.marker.Some? && entry.nodes != [] {
        var config := callback(entry.marker.value);
        if config.Some? {
          var ranges := IntersectRanges(parents, entry.nodes, entry.included);
          if ranges != [] {
            injections := injections + [Injection(config.value, ranges)];
          }
        }
      }
      e := e + 1;
    }
  }

  /** Ranges a layer can be parsed in: at least one, none ending before it starts. */
  predicate RangesWellFormed(ranges: seq<ByteRange>)
  {
    |ranges| > 0 && forall i :: 0 <= i < |ranges| ==> WellFormed(ranges[i])
  }

  /** All injections of one layer: the plain ones in match order, then the combined ones. */
  method LayerInjections(parents: seq<ByteRange>, matches: seq<QueryMatch>, patterns: seq<nat>,
                         callback: Languages.InjectionLanguageMarker -> Option<Languages.HighlightConfiguration>)
    returns (injections: seq<Injection>)
    requires |parents| > 0
    ensures forall i :: 0 <= i < |injections| ==> RangesWellFormed(injections[i].ranges)
  {
    var plain, contents, combined := CollectMatches(parents, matches, patterns, callback);
    var more := CollectCombined(parents, combined, callback);
    injections := plain + more;
    forall i | 0 <= i < |injections| ensures RangesWellFormed(injections[i].ranges) {
      forall k | 0 <= k < |injections[i].ranges| ensures WellFormed(injections[i].ranges[k]) {
        assert injections[i].ranges[k] in injections[i].ranges;
        if i >= |plain| {
          assert injections[i] == more[i - |plain|];
        }
      }
    }
  }

  // ---------------------------------------------------------------------
  // Layers and the update pass
  // ---------------------------------------------------------------------

  /** `LanguageLayer`; `parsed` stands for the presence of a tree. */
  datatype LanguageLayer = LanguageLayer(config: Languages.HighlightConfiguration, depth: nat, ranges: seq<ByteRange>,
                                         flags: Flags, parsed: bool, parent: Option<nat>)

  /** The layer equality used to find an existing layer for an injection: depth, language and ranges. */
  predicate SameLayer(a: LanguageLayer, b: LanguageLayer)
  {
    a.depth == b.depth && a.config.grammar == b.config.grammar && a.ranges == b.ranges
  }

  /** One range under the edits, applied from the last to the first, with the layer's flags. */
  method ShiftRange(r: ByteRange, edits: seq<Edit>, f: Flags) returns (shifted: ByteRange, g: Flags)
    requires WellFormed(r) && forall i :: 0 <= i < |edits| ==> EditWellFormed(edits[i])
    ensures (shifted, g) == ShiftAll(r, edits, f)
  {
    shifted, g := r, f;
    var j := |edits|;
    assert edits[..j] == edits;
    while j > 0
      invariant j <= |edits|
      invariant WellFormed(shifted)
      invariant ShiftAll(shifted, edits[..j], g) == ShiftAll(r, edits, f)
    {
      assert edits[..j][..j - 1] == edits[..j - 1];
      var step := Shift(shifted, edits[j - 1], g);
      shifted, g := step.0, step.1;
      j := j - 1;
    }
  }

  /** The ranges and flags of one layer after the edits: the source's loop over ranges. */
  method ShiftLayerRanges(ranges: seq<ByteRange>, edits: seq<Edit>, f: Flags) returns (shifted: seq<ByteRange>, g: Flags)
    requires forall i :: 0 <= i < |ranges| ==> WellFormed(ranges[i])
    requires forall i :: 0 <= i < |edits| ==> EditWellFormed(edits[i])
    ensures (shifted, g) == ShiftRanges(ranges, edits, f)
  {
    shifted, g := [], f;
    var i := 0;
    while i < |ranges|
      invariant i <= |ranges|
      invariant shifted + ShiftRanges(ranges[i..], edits, g).0 == ShiftRanges(ranges, edits, f).0
      invariant ShiftRanges(ranges[i..], edits, g).1 == ShiftRanges(ranges, edits, f).1
    {
      var r, h := ShiftRange(ranges[i], edits, g);
      assert ranges[i..][1..] == ranges[i + 1..];
      assert ShiftRanges(ranges[i..], edits, g).0 == [r] + ShiftRanges(ranges[i + 1..], edits, h).0;
      assert shifted + ([r] + ShiftRanges(ranges[i + 1..], edits, h).0) == (shifted + [r]) + ShiftRanges(ranges[i + 1..], edits, h).0;
      shifted, g := shifted + [r], h;
      i := i + 1;
    }
    assert ranges[i..] == [];
    assert ShiftRanges(ranges[i..], edits, g) == ([], g);
    assert shifted + ShiftRanges(ranges[i..], edits, g).0 == shifted;
  }

  /** One layer re-marked: the body of the source's loop over layers. */
  method RemarkLayer(layer: LanguageLayer, edits: seq<Edit>) returns (r: LanguageLayer)
    requires RangesWellFormed(layer.ranges)
    requires forall i :: 0 <= i < |edits| ==> EditWellFormed(edits[i])
    ensures r == Remarked(layer, edits)
  {
    r := layer;
    if r.depth == 0 {
      r := r.(flags := Modified);
      return;
    }
    if edits != [] {
      var ranges, flags := ShiftLayerRanges(r.ranges, edits, r.flags);
      r := r.(ranges := ranges, flags := flags);
    }
  }

  /**
   * A layer after the edits, before any reparse: the root layer is marked
   * MODIFIED and keeps its range; any other layer keeps everything when
   * there are no edits, and otherwise has its ranges shifted.
   */
  function Remarked(layer: LanguageLayer, edits: seq<Edit>): (r: LanguageLayer)
    requires RangesWellFormed(layer.ranges)
    requires forall i :: 0 <= i < |edits| ==> EditWellFormed(edits[i])
    ensures r.config == layer.config && r.depth == layer.depth && r.parsed == layer.parsed && r.parent == layer.parent
    ensures RangesWellFormed(r.ranges)
  {
    if layer.depth == 0 then layer.(flags := Modified)
    else if edits == [] then layer
    else
      var s := ShiftRanges(layer.ranges, edits, layer.flags);
      layer.(ranges := s.0, flags := s.1)
  }

  /** A range that every edit starts past keeps its place and its flags. */
  lemma {:induction false} EditsPastLeave(r: ByteRange, edits: seq<Edit>, f: Flags)
    requires WellFormed(r) && forall i :: 0 <= i < |edits| ==> EditWellFormed(edits[i])
    requires forall i :: 0 <= i < |edits| ==> edits[i].startByte > r.endByte
    ensures ShiftAll(r, edits, f) == (r, f)
    decreases |edits|
  {
    if edits != [] {
      EditAfterLeaves(r, edits[|edits| - 1], f);
      EditsPastLeave(r, edits[..|edits| - 1], f);
    }
  }

  /** The edits never set TOUCHED: a layer untouched before them is untouched after. */
  lemma {:induction false} ShiftAllUntouched(r: ByteRange, edits: seq<Edit>, f: Flags)
    requires WellFormed(r) && forall i :: 0 <= i < |edits| ==> EditWellFormed(edits[i])
    requires !f.touched
    ensures !ShiftAll(r, edits, f).1.touched
    decreases |edits|
  {
    if edits != [] {
      var step := Shift(r, edits[|edits| - 1], f);
      ShiftAllUntouched(step.0, edits[..|edits| - 1], step.1);
    }
  }

  lemma {:induction false} ShiftRangesUntouched(ranges: seq<ByteRange>, edits: seq<Edit>, f: Flags)
    requires forall i :: 0 <= i < |ranges| ==> WellFormed(ranges[i])
    requires forall i :: 0 <= i < |edits| ==> EditWellFormed(edits[i])
    requires !f.touched
    ensures !ShiftRanges(ranges, edits, f).1.touched
    decreases |ranges|
  {
    if ranges != [] {
      ShiftAllUntouched(ranges[0], edits, f);
      ShiftRangesUntouched(ranges[1..], edits, ShiftAll(ranges[0], edits, f).1);
    }
  }

  /** A layer whose ranges all end before the first edit starts keeps its ranges and flags. */
  lemma {:induction false} LayerBeforeEditsKept(layer: LanguageLayer, edits: seq<Edit>)
    requires RangesWellFormed(layer.ranges) && layer.depth > 0
    requires forall i :: 0 <= i < |edits| ==> EditWellFormed(edits[i])
    requires forall i, k :: 0 <= i < |edits| && 0 <= k < |layer.ranges| ==> edits[i].startByte > layer.ranges[k].endByte
    ensures Remarked(layer, edits) == layer
  {
    if edits != [] {
      RangesBeforeEditsKept(layer.ranges, edits, layer.flags);
    }
  }

  lemma {:induction false} RangesBeforeEditsKept(ranges: seq<ByteRange>, edits: seq<Edit>, f: Flags)
    requires forall i :: 0 <= i < |ranges| ==> WellFormed(ranges[i])
    requires forall i :: 0 <= i < |edits| ==> EditWellFormed(edits[i])
    requires forall i, k :: 0 <= i < |edits| && 0 <= k < |ranges| ==> edits[i].startByte > ranges[k].endByte
    ensures ShiftRanges(ranges, edits, f) == (ranges, f)
    decreases |ranges|
  {
    if ranges != [] {
      EditsPastLeave(ranges[0], edits, f);
      RangesBeforeEditsKept(ranges[1..], edits, f);
      assert [ranges[0]] + ranges[1..] == ranges;
    }
  }

  /** The root layer is only ever marked MODIFIED: it keeps its whole-text range. */
  lemma RootRemarked(layer: LanguageLayer, edits: seq<Edit>)
    requires RangesWellFormed(layer.ranges) && layer.depth == 0
    requires forall i :: 0 <= i < |edits| ==> EditWellFormed(edits[i])
    ensures Remarked(layer, edits).ranges == layer.ranges && Remarked(layer, edits).flags == Modified
  {
  }

  /** The layer a new injection would add, before its parent is set. */
  function Candidate(inj: Injection, depth: nat): LanguageLayer
  {
    LanguageLayer(inj.config, depth, inj.ranges, NoFlags, false, None)
  }

  /** Whether a layer needs a parse when it is visited: it has no tree yet, or the edits modified it. */
  predicate NeedsParse(layer: LanguageLayer)
  {
    !layer.parsed || layer.flags.modified
  }

  /**
   * The layers' invariant: the root is in the map at depth 0 covering
   * `0..usize::MAX` with no parent; every other layer is deeper and one
   * level below a parent still present; ranges are well formed; ids and
   * parent ids are below the next id to hand out.
   */
  predicate LayersValid(layers: map<nat, LanguageLayer>, nextId: nat, root: nat)
  {
    && root in layers && layers[root].depth == 0 && layers[root].ranges == [ByteRange(0, USIZE_MAX)]
    && layers[root].parent.None?
    && (forall id :: id in layers ==> id < nextId && RangesWellFormed(layers[id].ranges))
    && (forall id :: id in layers ==> layers[id].parent.Some? ==> layers[id].parent.value < nextId)
    && (forall id :: id in layers && id != root ==> layers[id].depth > 0)
    && (forall id :: id in layers && layers[id].parent.Some? && layers[id].parent.value in layers ==>
          layers[id].depth == layers[layers[id].parent.value].depth + 1)
  }

  /**
   * The first loop of `update` on the layer map: every layer re-marked,
   * and the ids of all layers but the root collected for reuse.
   */
  method RemarkLayers(layers: map<nat, LanguageLayer>, edits: seq<Edit>) returns (m: map<nat, LanguageLayer>, table: set<nat>)
    requires forall id :: id in layers ==> RangesWellFormed(layers[id].ranges)
    requires forall i :: 0 <= i < |edits| ==> EditWellFormed(edits[i])
    ensures m.Keys == layers.Keys && forall id :: id in m ==> m[id] == Remarked(layers[id], edits)
    ensures forall id :: id in table <==> id in layers && layers[id].depth != 0
  {
    m := layers;
    var todo := m.Keys;
    table := {};
    while todo != {}
      invariant todo <= layers.Keys && m.Keys == layers.Keys
      invariant forall id :: id in m ==> m[id] == if id in todo then layers[id] else Remarked(layers[id], edits)
      invariant forall id :: id in table <==> id in layers && id !in todo && layers[id].depth != 0
      decreases |todo|
    {
      var id :| id in todo;
      var layer := RemarkLayer(m[id], edits);
      if layer.depth != 0 {
        table := table + {id};
      }
      m := m[id := layer];
      todo := todo - {id};
    }
  }

  /** Re-marking every layer keeps the layers' invariant. */
  lemma RemarkedValid(layers: map<nat, LanguageLayer>, after: map<nat, LanguageLayer>, nextId: nat, root: nat, edits: seq<Edit>)
    requires LayersValid(layers, nextId, root)
    requires forall i :: 0 <= i < |edits| ==> EditWellFormed(edits[i])
    requires after.Keys == layers.Keys && forall id :: id in after ==> after[id] == Remarked(layers[id], edits)
    ensures LayersValid(after, nextId, root)
  {
    forall id | id in after
      ensures after[id].depth == layers[id].depth && after[id].parent == layers[id].parent
      ensures RangesWellFormed(after[id].ranges) && (id == root ==> after[id].ranges == layers[id].ranges)
    {
    }
  }

  /** Tree-sitter as the update pass sees it. */
  datatype TreeSitter = TreeSitter(
    parses: LanguageLayer -> bool,
    injectionMatches: LanguageLayer -> seq<QueryMatch>,
    combinedPatterns: Languages.HighlightConfiguration -> seq<nat>,
    callback: Languages.InjectionLanguageMarker -> Option<Languages.HighlightConfiguration>)

  /** How an update pass ends: done, a parse error, or the bound on visits reached. */
  datatype UpdateResult = Done | ParseFailed | OutOfFuel

  /** `Syntax`: the layer map (a slot map keyed by ids never reused) and its root. */
  class Syntax {
    var layers: map<nat, LanguageLayer>
    var nextId: nat
    const root: nat

    predicate Valid()
      reads this
    {
      LayersValid(layers, nextId, root)
    }

    /** The root layer alone: depth 0, the whole text, no tree yet. */
    constructor (config: Languages.HighlightConfiguration)
      ensures Valid() && root == 0 && nextId == 1
      ensures layers == map[0 := LanguageLayer(config, 0, [ByteRange(0, USIZE_MAX)], NoFlags, false, None)]
    {
      layers := map[0 := LanguageLayer(config, 0, [ByteRange(0, USIZE_MAX)], NoFlags, false, None)];
      nextId := 1;
      root := 0;
    }

    /**
     * The first loop of `update`: every layer re-marked under the edits.
     * Returns the ids of the layers an injection may reuse: all but the
     * root.
     */
    method RemarkAll(edits: seq<Edit>) returns (table: set<nat>)
      requires Valid() && forall i :: 0 <= i < |edits| ==> EditWellFormed(edits[i])
      modifies this
      ensures Valid() && nextId == old(nextId)
      ensures layers.Keys == old(layers).Keys && forall id :: id in layers ==> layers[id] == Remarked(old(layers)[id], edits)
      ensures forall id :: id in table <==> id in layers && id != root
    {
      var m;
      m, table := RemarkLayers(layers, edits);
      RemarkedValid(layers, m, nextId, root, edits);
      layers := m;
    }

    /**
     * Adds one injection below layer `cur`: an equal layer among `table`
     * is reused, otherwise a new one is inserted; either way its parent
     * becomes `cur`.
     */
    method InjectLayer(cur: nat, inj: Injection, table: set<nat>) returns (child: nat)
      requires Valid() && cur in layers && table <= layers.Keys && root !in table
      requires RangesWellFormed(inj.ranges)
      modifies this
      ensures Valid() && old(layers).Keys <= layers.Keys
      ensures child in layers && layers[child].parent == Some(cur) && layers[child].depth == old(layers)[cur].depth + 1
      ensures layers[child].config.grammar == inj.config.grammar && layers[child].ranges == inj.ranges
      ensures child in table <==> exists id :: id in table && SameLayer(old(layers)[id], Candidate(inj, old(layers)[cur].depth + 1))
      ensures child in table ==> nextId == old(nextId) && layers == old(layers)[child := old(layers)[child].(parent := Some(cur))]
      ensures child !in table ==> child == old(nextId) && nextId == old(nextId) + 1
      ensures child !in table ==> layers == old(layers)[child := Candidate(inj, old(layers)[cur].depth + 1).(parent := Some(cur))]
    {
      var candidate := Candidate(inj, layers[cur].depth + 1);
      if existing :| existing in table && SameLayer(layers[existing], candidate) {
        child := existing;
        layers := layers[child := layers[child].(parent := Some(cur))];
      } else {
        child := nextId;
        layers := layers[child := candidate.(parent := Some(cur))];
        nextId := nextId + 1;
      }
    }

    /**
     * Visiting a layer: it is marked TOUCHED and parsed when it has no tree
     * or was modified. `ok` is false when that parse fails.
     */
    method Visit(id: nat, ts: TreeSitter) returns (ok: bool)
      requires Valid() && id in layers
      modifies this
      ensures Valid() && nextId == old(nextId)
      ensures ok <==> !NeedsParse(old(layers)[id]) || ts.parses(old(layers)[id].(flags := old(layers)[id].flags.(touched := true)))
      ensures layers == old(layers)[id := old(layers)[id].(flags := old(layers)[id].flags.(touched := true), parsed := old(layers)[id].parsed || ok)]
    {
      var layer := layers[id];
      layer := layer.(flags := layer.flags.(touched := true));
      ok := true;
      if NeedsParse(layer) {
        ok := ts.parses(layer);
      }
      layers := layers[id := layer.(parsed := layer.parsed || ok)];
    }

    /** Adds a layer's injections below it, in order; returns the layers to queue. */
    method InjectAll(cur: nat, injections: seq<Injection>, table: set<nat>) returns (children: seq<nat>)
      requires Valid() && cur in layers && table <= layers.Keys && root !in table
      requires forall i :: 0 <= i < |injections| ==> RangesWellFormed(injections[i].ranges)
      modifies this
      ensures Valid() && old(layers).Keys <= layers.Keys
      ensures forall c :: c in children ==> c in layers
      ensures forall id :: id in layers && id !in old(layers) ==> id in children
      ensures forall id :: id in old(layers) ==> layers[id] == old(layers)[id].(parent := layers[id].parent)
    {
      children := [];
      var k := 0;
      while k < |injections|
        invariant k <= |injections|
        invariant Valid() && cur in layers && table <= layers.Keys && old(layers).Keys <= layers.Keys
        invariant forall c :: c in children ==> c in layers
        invariant forall id :: id in layers && id !in old(layers) ==> id in children
        invariant forall id :: id in old(layers) ==> layers[id] == old(layers)[id].(parent := layers[id].parent)
      {
        var child := InjectLayer(cur, injections[k], table);
        children := children + [child];
        k := k + 1;
      }
    }

    /** One turn of the queue: visit the layer, then add its injections below it. */
    method VisitLayer(id: nat, table: set<nat>, ts: TreeSitter) returns (ok: bool, children: seq<nat>)
      requires Valid() && id in layers && table <= layers.Keys && root !in table
      modifies this
      ensures Valid() && old(layers).Keys <= layers.Keys
      ensures forall c :: c in children ==> c in layers
      ensures ok ==> layers[id].flags.touched && layers[id].parsed
      ensures forall other :: other in old(layers) ==> layers[other].config == old(layers)[other].config
      ensures forall n :: n in layers && n !in old(layers) ==> n in children
      ensures forall other :: other in old(layers) && other != id ==>
        layers[other] == old(layers)[other].(parent := layers[other].parent)
    {
      children := [];
      ok := Visit(id, ts);
      ghost var visited := layers;
      assert forall other :: other in old(layers) && other != id ==> visited[other] == old(layers)[other];
      if ok {
        var layer := layers[id];
        var injections := LayerInjections(layer.ranges, ts.injectionMatches(layer), ts.combinedPatterns(layer.config), ts.callback);
        children := InjectAll(id, injections, table);
      }
    }

    /**
     * The queue of `update`: from the root, each layer is visited, its
     * injections collected and added below it, and the added layers queued.
     * `fuel` bounds the number of visits. When the pass is done, the root
     * and every layer it added are touched and parsed.
     */
    method RunQueue(table: set<nat>, ts: TreeSitter, fuel: nat) returns (res: UpdateResult)
      requires Valid() && table <= layers.Keys && root !in table
      modifies this
      ensures Valid() && old(layers).Keys <= layers.Keys
      ensures layers[root].config == old(layers)[root].config
      ensures res.Done? ==> layers[root].flags.touched && layers[root].parsed
      ensures res.Done? ==> forall id :: id in layers && id !in old(layers) ==> layers[id].flags.touched && layers[id].parsed
    {
      var queue := [root];
      var left := fuel;
      ghost var started := false;
      while queue != []
        invariant Valid() && table <= layers.Keys && old(layers).Keys <= layers.Keys
        invariant layers[root].config == old(layers)[root].config
        invariant forall q :: q in queue ==> q in layers
        invariant started || queue == [root]
        invariant started ==> layers[root].flags.touched && layers[root].parsed
        invariant forall id :: id in layers && id !in old(layers) ==> id in queue || (layers[id].flags.touched && layers[id].parsed)
        decreases left
      {
        if left == 0 {
          return OutOfFuel;
        }
        left := left - 1;
        var id := queue[0];
        queue := queue[1..];
        ghost var visited := layers;
        var ok, children := VisitLayer(id, table, ts);
        if !ok {
          return ParseFailed;
        }
        started := true;
        queue := queue + children;
        forall other | other in layers && other !in old(layers)
          ensures other in queue || (layers[other].flags.touched && layers[other].parsed)
        {
          if other !in visited {
            assert other in children;
          } else if other != id {
            assert layers[other].flags == visited[other].flags && layers[other].parsed == visited[other].parsed;
          }
        }
      }
      res := Done;
    }

    /** The end of `update`: only touched layers are kept, with their flags cleared. */
    method Prune()
      requires Valid() && layers[root].flags.touched
      modifies this
      ensures Valid() && nextId == old(nextId)
      ensures layers == map id | id in old(layers) && old(layers)[id].flags.touched :: old(layers)[id].(flags := NoFlags)
    {
      ghost var before := layers;
      layers := map id | id in layers && layers[id].flags.touched :: layers[id].(flags := NoFlags);
      forall id | id in layers ensures id < nextId && RangesWellFormed(layers[id].ranges) {
        assert id in before && layers[id].ranges == before[id].ranges;
      }
    }

    /**
     * `Syntax::update`: the transaction's edits re-mark every layer, the
     * queue re-parses and injects from the root, and a finished pass
     * leaves only touched layers, every flag cleared and the root parsed.
     */
    method Update(t: Transactions.Transaction, ts: TreeSitter, fuel: nat) returns (res: UpdateResult)
      requires Valid()
      modifies this
      ensures Valid() && layers[root].config == old(layers)[root].config
      ensures res.Done? ==> layers[root].parsed && forall id :: id in layers ==> layers[id].flags == NoFlags
    {
      var edits := GenerateEdits(t);
      GeneratedWellFormed(t);
      var table := RemarkAll(edits);
      res := RunQueue(table, ts, fuel);
      if res.Done? {
        Prune();
      }
    }
  }

  /** `Syntax::new`: the root layer, then an update with the empty transaction; `None` when that fails. */
  method NewSyntax(config: Languages.HighlightConfiguration, ts: TreeSitter, fuel: nat) returns (r: Option<Syntax>)
    ensures r.Some? ==> fresh(r.value) && r.value.Valid() && r.value.layers[r.value.root].config == config
    ensures r.Some? ==> r.value.layers[r.value.root].parsed
  {
    var s := new Syntax(config);
    var res := s.Update(Transactions.Empty(), ts, fuel);
    if res.Done? {
      r := Some(s);
    } else {
      r := None;
    }
  }
}

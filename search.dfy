/**
 * Searching the document (`search.rs`). The query is compiled as a regular
 * expression, case-insensitively when it has no uppercase letter. A plain
 * search picks one match relative to the cursor, wrapping around the
 * document; "select all" searches inside every selected range. The regular
 * expression engine and Unicode's uppercase table are not part of this
 * model: they are the fields of a `RegexEngine` value.
 */
module Searches {
  import opened Base
  import opened Text
  import Selection

  /** A match: the bytes [start, end) of the haystack. */
  datatype Match = Match(start: nat, end: nat)

  /**
   * The engine: which characters are uppercase, whether a pattern compiles
   * with the given case-insensitivity, and the matches of a compiled pattern
   * in a haystack, ordered by start as `sort_by_key` leaves them.
   */
  datatype RegexEngine = RegexEngine(
    isUppercase: char -> bool,
    compiles: (string, bool) -> bool,
    findAll: (string, bool, seq<Byte>) -> seq<Match>)

  /** A compiled pattern. */
  datatype Regex = Regex(pattern: string, caseInsensitive: bool)

  /** A search result; the found byte spans become ranges of the selection, the first one primary. */
  datatype SearchResult = Ok(spans: seq<Match>) | InvalidRegex | Empty | NoQuery

  predicate HasUppercase(e: RegexEngine, s: string)
  {
    exists i :: 0 <= i < |s| && e.isUppercase(s[i])
  }

  /** `build_regex`: case-insensitive exactly when the query has no uppercase character; None when it does not compile. */
  function BuildRegex(e: RegexEngine, query: string): (r: Option<Regex>)
    ensures r.Some? ==> r.value.pattern == query && (r.value.caseInsensitive <==> !HasUppercase(e, query))
    ensures r.None? <==> !e.compiles(query, !HasUppercase(e, query))
  {
    var caseInsensitive := !HasUppercase(e, query);
    if e.compiles(query, caseInsensitive) then Some(Regex(query, caseInsensitive)) else None
  }

  function Matches(e: RegexEngine, re: Regex, haystack: seq<Byte>): seq<Match>
  {
    e.findAll(re.pattern, re.caseInsensitive, haystack)
  }

  // ---------------------------------------------------------------------
  // Choosing the current match
  // ---------------------------------------------------------------------

  /**
   * The match a search lands on from byte `offset`: forwards, the first
   * match starting after it, or else the first match; backwards, the last
   * match starting before it, or else the last match.
   */
  function PickMatch(ms: seq<Match>, offset: nat, backwards: bool): (i: nat)
    requires ms != []
    ensures i < |ms|
  {
    if backwards then
      match LastWhere(ms, (m: Match) => m.start < offset)
      case Some(k) => k
      case None => |ms| - 1
    else
      match FirstWhere(ms, (m: Match) => m.start > offset)
      case Some(k) => k
      case None => 0
  }

  /** A forward search lands on the first match after the offset, and wraps to match 0 only when there is none. */
  lemma {:induction false} ForwardPick(ms: seq<Match>, offset: nat)
    requires ms != []
    ensures var i := PickMatch(ms, offset, false);
      && ((exists k :: 0 <= k < |ms| && ms[k].start > offset) ==>
            ms[i].start > offset && forall j :: 0 <= j < i ==> ms[j].start <= offset)
      && ((forall k :: 0 <= k < |ms| ==> ms[k].start <= offset) ==> i == 0)
  {
    FirstWhereIsFirst(ms, (m: Match) => m.start > offset);
  }

  /** A backward search lands on the last match before the offset, and wraps to the last match only when there is none. */
  lemma {:induction false} BackwardPick(ms: seq<Match>, offset: nat)
    requires ms != []
    ensures var i := PickMatch(ms, offset, true);
      && ((exists k :: 0 <= k < |ms| && ms[k].start < offset) ==>
            ms[i].start < offset && forall j :: i < j < |ms| ==> ms[j].start >= offset)
      && ((forall k :: 0 <= k < |ms| ==> ms[k].start >= offset) ==> i == |ms| - 1)
  {
    LastWhereIsLast(ms, (m: Match) => m.start < offset);
  }

  /** The forward scan of `search`. */
  method PickForward(ms: seq<Match>, offset: nat) returns (i: nat)
    requires ms != []
    ensures i == PickMatch(ms, offset, false)
  {
    var p := (m: Match) => m.start > offset;
    var k := 0;
    while k < |ms|
      invariant k <= |ms|
      invariant forall j :: 0 <= j < k ==> !p(ms[j])
    {
      if ms[k].start > offset {
        FirstWhereAt(ms, p, k);
        return k;
      }
      k := k + 1;
    }
    FirstWhereIsFirst(ms, p);
    return 0;
  }

  /** The backward scan of `search`. */
  method PickBackward(ms: seq<Match>, offset: nat) returns (i: nat)
    requires ms != []
    ensures i == PickMatch(ms, offset, true)
  {
    var p := (m: Match) => m.start < offset;
    var k := |ms|;
    while k > 0
      invariant 0 <= k <= |ms|
      invariant forall j :: k <= j < |ms| ==> !p(ms[j])
    {
      if ms[k - 1].start < offset {
        LastWhereAt(ms, p, k - 1);
        return k - 1;
      }
      k := k - 1;
    }
    LastWhereIsLast(ms, p);
    return |ms| - 1;
  }

  // ---------------------------------------------------------------------
  // Selecting every match inside the selection
  // ---------------------------------------------------------------------

  /** Matches found in a slice starting at byte `start`, moved to document offsets. */
  function Shifted(start: nat, ms: seq<Match>): (r: seq<Match>)
    ensures |r| == |ms|
    ensures forall k :: 0 <= k < |r| ==> r[k] == Match(start + ms[k].start, start + ms[k].end)
  {
    if ms == [] then [] else [Match(start + ms[0].start, start + ms[0].end)] + Shifted(start, ms[1..])
  }

  /** A selected range is in the document. */
  predicate InDoc(doc: seq<Line>, r: Selection.Range)
  {
    Selection.To(r).y < |doc|
  }

  /**
   * The matches inside each range in turn, shifted to document offsets;
   * None when a range's bytes run backwards, where slicing the rope panics.
   */
  function MatchesIn(e: RegexEngine, re: Regex, doc: seq<Line>, mode: Mode, ranges: seq<Selection.Range>): Option<seq<Match>>
    requires forall k :: 0 <= k < |ranges| ==> InDoc(doc, ranges[k])
    decreases |ranges|
  {
    if ranges == [] then Some([])
    else
      var init := ranges[..|ranges| - 1];
      assert InDoc(doc, ranges[|ranges| - 1]);
      var span := Selection.ByteSpan(ranges[|ranges| - 1], doc, mode);
      match MatchesIn(e, re, doc, mode, init)
      case None => None
      case Some(found) =>
        if span.0 > span.1 then None
        else Some(found + Shifted(span.0, Matches(e, re, DocBytes(doc)[span.0..span.1])))
  }

  /** Once one range panics, so does any selection that extends it. */
  lemma {:induction false} MatchesInPanics(e: RegexEngine, re: Regex, doc: seq<Line>, mode: Mode, ranges: seq<Selection.Range>, i: nat)
    requires i <= |ranges| && forall k :: 0 <= k < |ranges| ==> InDoc(doc, ranges[k])
    requires MatchesIn(e, re, doc, mode, ranges[..i]).None?
    ensures MatchesIn(e, re, doc, mode, ranges).None?
    decreases |ranges| - i
  {
    if i < |ranges| {
      assert ranges[..i + 1][..i] == ranges[..i];
      MatchesInPanics(e, re, doc, mode, ranges, i + 1);
    } else {
      assert ranges[..i] == ranges;
    }
  }

  /** One more range: its matches follow those of the ranges before it. */
  lemma {:induction false} MatchesInStep(e: RegexEngine, re: Regex, doc: seq<Line>, mode: Mode, ranges: seq<Selection.Range>, i: nat, found: seq<Match>)
    requires i < |ranges| && forall k :: 0 <= k < |ranges| ==> InDoc(doc, ranges[k])
    requires MatchesIn(e, re, doc, mode, ranges[..i]) == Some(found) && InDoc(doc, ranges[i])
    ensures var span := Selection.ByteSpan(ranges[i], doc, mode);
      MatchesIn(e, re, doc, mode, ranges[..i + 1]) ==
        if span.0 > span.1 then None
        else Some(found + Shifted(span.0, Matches(e, re, DocBytes(doc)[span.0..span.1])))
  {
    assert ranges[..i + 1][..i] == ranges[..i] && ranges[..i + 1][i] == ranges[i];
  }

  /** The matches inside one range, shifted to document offsets; None when its bytes run backwards. */
  method RangeMatches(e: RegexEngine, re: Regex, doc: seq<Line>, mode: Mode, r: Selection.Range) returns (ms: Option<seq<Match>>)
    requires InDoc(doc, r)
    ensures var span := Selection.ByteSpan(r, doc, mode);
      if span.0 > span.1 then ms.None?
      else ms == Some(Shifted(span.0, Matches(e, re, DocBytes(doc)[span.0..span.1])))
  {
    var start, end := Selection.ByteRange(r, doc, mode);
    if start > end {
      return None;
    }
    return Some(Shifted(start, Matches(e, re, DocBytes(doc)[start..end])));
  }

  /** The loop of `select_matches` over the selected ranges. */
  method CollectMatches(e: RegexEngine, re: Regex, doc: seq<Line>, mode: Mode, ranges: seq<Selection.Range>) returns (r: Option<seq<Match>>)
    requires forall k :: 0 <= k < |ranges| ==> InDoc(doc, ranges[k])
    ensures r == MatchesIn(e, re, doc, mode, ranges)
  {
    var found: seq<Match> := [];
    var i := 0;
    while i < |ranges|
      invariant i <= |ranges|
      invariant MatchesIn(e, re, doc, mode, ranges[..i]) == Some(found)
    {
      assert InDoc(doc, ranges[i]);
      MatchesInStep(e, re, doc, mode, ranges, i, found);
      var ms := RangeMatches(e, re, doc, mode, ranges[i]);
      if ms.None? {
        MatchesInPanics(e, re, doc, mode, ranges, i + 1);
        return None;
      }
      found := found + ms.value;
      i := i + 1;
    }
    assert ranges[..i] == ranges;
    return Some(found);
  }

  // ---------------------------------------------------------------------
  // The search state of the editor
  // ---------------------------------------------------------------------

  /** What `Search::search` does to the document's selection. */
  datatype Outcome = Unchanged | SelectFound(spans: seq<Match>) | RevertPosition

  class SearchState {
    var focused: bool
    var totalMatches: nat
    var currentMatch: nat
    var originalSelection: Selection.Selection
    var result: Option<SearchResult>
    var query: string

    /** `SearchState::default`. */
    constructor ()
      ensures !focused && totalMatches == 0 && currentMatch == 0
      ensures originalSelection == Selection.DefaultSelection && result.None? && query == []
    {
      focused := false;
      totalMatches := 0;
      currentMatch := 0;
      originalSelection := Selection.DefaultSelection;
      result := None;
      query := [];
    }

    /** The original selection is a selection of the document. */
    predicate Anchored(doc: seq<Line>)
      reads this
    {
      Selection.Valid(originalSelection) && InDoc(doc, Selection.Primary(originalSelection))
    }

    /**
     * `search`: NoQuery for an empty query, before any pattern is built;
     * InvalidRegex when it does not compile; Empty without matches.
     * Otherwise it records the number of matches and the match picked from
     * the start of the original primary range, and selects that match.
     */
    method Search(backwards: bool, doc: seq<Line>, e: RegexEngine) returns (r: SearchResult)
      requires Anchored(doc)
      modifies this
      ensures focused == old(focused) && originalSelection == old(originalSelection)
      ensures result == old(result) && query == old(query)
      ensures query == [] ==> r == NoQuery
      ensures query != [] && BuildRegex(e, query).None? ==> r == InvalidRegex
      ensures query != [] && BuildRegex(e, query).Some? && Matches(e, BuildRegex(e, query).value, DocBytes(doc)) == [] ==> r == Empty
      ensures !r.Ok? ==> totalMatches == old(totalMatches) && currentMatch == old(currentMatch)
      ensures r.Ok? ==>
        && query != [] && BuildRegex(e, query).Some?
        && var ms := Matches(e, BuildRegex(e, query).value, DocBytes(doc));
        var offset := Selection.CursorByteOffset(doc, Selection.From(Selection.Primary(originalSelection)), Normal);
        && ms != []
        && totalMatches == |ms|
        && currentMatch == PickMatch(ms, offset, backwards)
        && r.spans == [ms[currentMatch]]
    {
      if query == [] {
        return NoQuery;
      }
      var re := BuildRegex(e, query);
      if re.None? {
        return InvalidRegex;
      }
      var ms := Matches(e, re.value, DocBytes(doc));
      if ms == [] {
        return Empty;
      }
      var range := Selection.CollapseToStart(Selection.Primary(originalSelection));
      var offset, _ := Selection.ByteRange(range, doc, Normal);
      totalMatches := |ms|;
      if backwards {
        currentMatch := PickBackward(ms, offset);
      } else {
        currentMatch := PickForward(ms, offset);
      }
      return Ok([ms[currentMatch]]);
    }

    /**
     * `select_matches`: the matches of the query inside every range of the
     * original selection, in order; Empty when there are none. None when a
     * range's bytes run backwards (the source panics there).
     */
    method SelectMatches(doc: seq<Line>, mode: Mode, e: RegexEngine) returns (r: Option<SearchResult>)
      requires forall k :: 0 <= k < |originalSelection.ranges| ==> InDoc(doc, originalSelection.ranges[k])
      ensures query == [] ==> r == Some(NoQuery)
      ensures query != [] && BuildRegex(e, query).None? ==> r == Some(InvalidRegex)
      ensures query != [] && BuildRegex(e, query).Some? ==>
        match MatchesIn(e, BuildRegex(e, query).value, doc, mode, originalSelection.ranges)
        case None => r.None?
        case Some(found) => r == Some(if found == [] then Empty else Ok(found))
    {
      if query == [] {
        return Some(NoQuery);
      }
      var re := BuildRegex(e, query);
      if re.None? {
        return Some(InvalidRegex);
      }
      var found := CollectMatches(e, re.value, doc, mode, originalSelection.ranges);
      if found.None? {
        return None;
      }
      if found.value == [] {
        return Some(Empty);
      }
      return Some(Ok(found.value));
    }

    /**
     * `Search::search`, the component's step after each key: an unchanged
     * query does nothing; otherwise the query is stored and searched again,
     * forwards or within every range, and the document selects what was
     * found or goes back to the original position. None when the search panics.
     */
    method Update(newQuery: string, selectAll: bool, doc: seq<Line>, mode: Mode, e: RegexEngine) returns (o: Option<Outcome>)
      requires Anchored(doc)
      requires forall k :: 0 <= k < |originalSelection.ranges| ==> InDoc(doc, originalSelection.ranges[k])
      modifies this
      ensures newQuery == old(query) ==> o == Some(Unchanged) && result == old(result) && totalMatches == old(totalMatches) && currentMatch == old(currentMatch)
      ensures newQuery != old(query) && o.Some? ==>
        && query == newQuery && result.Some?
        && (result.value.Ok? ==> o.value == SelectFound(result.value.spans))
        && (!result.value.Ok? ==> o.value == RevertPosition)
      ensures newQuery != old(query) && !selectAll ==> o.Some?
      ensures newQuery != old(query) && newQuery == [] ==> o == Some(RevertPosition) && result == Some(NoQuery)
      ensures newQuery != old(query) && newQuery != [] && BuildRegex(e, newQuery).None? ==>
        o == Some(RevertPosition) && result == Some(InvalidRegex)
      ensures focused == old(focused) && originalSelection == old(originalSelection)
    {
      if newQuery == query {
        return Some(Unchanged);
      }
      query := newQuery;
      var res: SearchResult;
      if selectAll {
        var all := SelectMatches(doc, mode, e);
        if all.None? {
          return None;
        }
        res := all.value;
      } else {
        res := Search(false, doc, e);
      }
      result := Some(res);
      if res.Ok? {
        return Some(SelectFound(res.spans));
      }
      return Some(RevertPosition);
    }
  }
}

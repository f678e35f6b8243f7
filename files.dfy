/**
 * The file browser (`components/files.rs`): a row of directory columns, the
 * rightmost of which may be children of the entry selected to their left,
 * with a set of marked paths, a set of yanked (copied or cut) paths and a
 * dialog state. Directory listings and file kinds come from the file system
 * and are parameters here; paths are their components below the root.
 */
module FileBrowser {
  import opened Base

  const ACTIVE_COLUMN_WIDTH: nat := 52
  const INACTIVE_COLUMN_WIDTH: nat := 17

  /** A path, as the components below the root directory. */
  type Path = seq<string>

  datatype Ordering = Less | Equal | Greater

  function Flip(o: Ordering): Ordering
  {
    match o
    case Less => Greater
    case Equal => Equal
    case Greater => Less
  }

  // ---------------------------------------------------------------------
  // Path order: `Ord for PathBuf` compares component by component, and a
  // component by its bytes, which for UTF-8 is the order of code points.
  // ---------------------------------------------------------------------

  function CmpNames(a: string, b: string): (o: Ordering)
    ensures o == Equal <==> a == b
  {
    if a == [] && b == [] then Equal
    else if a == [] then Less
    else if b == [] then Greater
    else if a[0] < b[0] then Less
    else if a[0] > b[0] then Greater
    else
      assert a == [a[0]] + a[1..] && b == [b[0]] + b[1..];
      CmpNames(a[1..], b[1..])
  }

  lemma {:induction false} CmpNamesFlip(a: string, b: string)
    ensures CmpNames(b, a) == Flip(CmpNames(a, b))
  {
    if a != [] && b != [] && a[0] == b[0] {
      CmpNamesFlip(a[1..], b[1..]);
    }
  }

  lemma {:induction false} CmpNamesTrans(a: string, b: string, c: string)
    requires CmpNames(a, b) == Less && CmpNames(b, c) == Less
    ensures CmpNames(a, c) == Less
  {
    if a != [] && b != [] && c != [] && a[0] == b[0] && b[0] == c[0] {
      CmpNamesTrans(a[1..], b[1..], c[1..]);
    }
  }

  function CmpPaths(a: Path, b: Path): (o: Ordering)
    ensures o == Equal <==> a == b
  {
    if a == [] && b == [] then Equal
    else if a == [] then Less
    else if b == [] then Greater
    else if CmpNames(a[0], b[0]) != Equal then CmpNames(a[0], b[0])
    else
      assert a == [a[0]] + a[1..] && b == [b[0]] + b[1..];
      CmpPaths(a[1..], b[1..])
  }

  lemma {:induction false} CmpPathsFlip(a: Path, b: Path)
    ensures CmpPaths(b, a) == Flip(CmpPaths(a, b))
  {
    if a != [] && b != [] {
      CmpNamesFlip(a[0], b[0]);
      if a[0] == b[0] {
        CmpPathsFlip(a[1..], b[1..]);
      }
    }
  }

  lemma {:induction false} CmpPathsTrans(a: Path, b: Path, c: Path)
    requires CmpPaths(a, b) == Less && CmpPaths(b, c) == Less
    ensures CmpPaths(a, c) == Less
  {
    if a != [] && b != [] && c != [] {
      if a[0] == b[0] && b[0] == c[0] {
        CmpPathsTrans(a[1..], b[1..], c[1..]);
      } else if a[0] == b[0] {
        assert CmpNames(a[0], c[0]) == Less;
      } else if b[0] == c[0] {
        assert CmpNames(a[0], c[0]) == Less;
      } else {
        CmpNamesTrans(a[0], b[0], c[0]);
      }
    }
  }

  predicate PathLess(a: Path, b: Path)
  {
    CmpPaths(a, b) == Less
  }

  /** Two different paths are ordered one way or the other. */
  lemma PathsTotal(a: Path, b: Path)
    requires a != b
    ensures PathLess(a, b) != PathLess(b, a)
  {
    CmpPathsFlip(a, b);
  }

  /** A non-empty set of paths has a least element, which `BTreeSet::pop_first` takes. */
  lemma {:induction false} HasLeast(s: set<Path>)
    requires s != {}
    ensures exists p :: p in s && forall q :: q in s ==> !PathLess(q, p)
    decreases |s|
  {
    var x :| x in s;
    if s != {x} {
      var rest := s - {x};
      HasLeast(rest);
      var m :| m in rest && forall q :: q in rest ==> !PathLess(q, m);
      if PathLess(x, m) {
        forall q | q in s
          ensures !PathLess(q, x)
        {
          if PathLess(q, x) {
            assert q in rest;
            CmpPathsTrans(q, x, m);
          }
        }
      } else {
        assert forall q :: q in s ==> !PathLess(q, m);
      }
    } else {
      CmpPathsFlip(x, x);
      assert forall q :: q in s ==> q == x;
    }
  }

  /** Strictly increasing in path order: the order a `BTreeSet` is drained in. */
  predicate Ascending(ps: seq<Path>)
  {
    forall i, j :: 0 <= i < j < |ps| ==> PathLess(ps[i], ps[j])
  }

  /**
   * `while let Some(p) = set.pop_first()`: the set's paths, least first.
   */
  method Drain(s: set<Path>) returns (ps: seq<Path>)
    ensures Ascending(ps)
    ensures forall p :: p in ps <==> p in s
    ensures |ps| == |s|
  {
    ps := [];
    var rest := s;
    while rest != {}
      invariant Ascending(ps)
      invariant forall p :: p in s <==> p in ps || p in rest
      invariant forall i, q :: 0 <= i < |ps| && q in rest ==> PathLess(ps[i], q)
      invariant |ps| + |rest| == |s|
      decreases |rest|
    {
      HasLeast(rest);
      var p :| p in rest && forall q :: q in rest ==> !PathLess(q, p);
      forall q | q in rest - {p}
        ensures PathLess(p, q)
      {
        PathsTotal(p, q);
      }
      ps := ps + [p];
      rest := rest - {p};
    }
  }

  // ---------------------------------------------------------------------
  // Listing order (`sorted_entries`, files.rs:33-39)
  // ---------------------------------------------------------------------

  /** A directory entry and whether it is a directory. */
  datatype Entry = Entry(path: Path, isDir: bool)

  /** The listing comparator: directories before files, then by path. */
  function CmpEntries(a: Entry, b: Entry): (o: Ordering)
    ensures a.isDir && !b.isDir ==> o == Less
    ensures !a.isDir && b.isDir ==> o == Greater
    ensures a.isDir == b.isDir ==> o == CmpPaths(a.path, b.path)
  {
    match (a.isDir, b.isDir)
    case (true, false) => Less
    case (false, true) => Greater
    case _ => CmpPaths(a.path, b.path)
  }

  /**
   * The comparator is a total order, as `sort_by` needs: swapping the
   * arguments flips the answer, Less is transitive, and only equal entries
   * compare Equal.
   */
  lemma EntryOrderTotal(a: Entry, b: Entry, c: Entry)
    ensures CmpEntries(b, a) == Flip(CmpEntries(a, b))
    ensures CmpEntries(a, b) == Equal <==> a == b
    ensures CmpEntries(a, b) == Less && CmpEntries(b, c) == Less ==> CmpEntries(a, c) == Less
  {
    CmpPathsFlip(a.path, b.path);
    if CmpEntries(a, b) == Less && CmpEntries(b, c) == Less && a.isDir == b.isDir && b.isDir == c.isDir {
      CmpPathsTrans(a.path, b.path, c.path);
    }
  }

  /** A listing in comparator order. */
  predicate Listed(es: seq<Entry>)
  {
    forall i, j :: 0 <= i < j < |es| ==> CmpEntries(es[i], es[j]) != Greater
  }

  /** In a sorted listing every directory comes before every file. */
  lemma DirectoriesFirst(es: seq<Entry>, i: nat, j: nat)
    requires Listed(es) && i < |es| && j < |es|
    requires es[i].isDir && !es[j].isDir
    ensures i < j
  {
  }

  // ---------------------------------------------------------------------
  // Columns and their index moves (files.rs:269-323)
  // ---------------------------------------------------------------------

  /** `Path::parent`: None for the root. */
  function Parent(p: Path): (r: Option<Path>)
    ensures r.Some? ==> |r.value| + 1 == |p| && r.value == p[..|r.value|]
    ensures r.None? <==> p == []
  {
    if p == [] then None else Some(p[..|p| - 1])
  }

  /** `Path::ancestors`: the path itself and every path above it. */
  predicate IsAncestor(a: Path, p: Path)
  {
    a <= p
  }

  /**
   * A directory column: its path, its sorted listing, the selected row and
   * the height it was last drawn with (`calculated_area.height`).
   */
  datatype Column = Column(path: Path, paths: seq<Path>, index: nat, height: nat)

  /** `col.paths.get(col.index)`. */
  function Selected(c: Column): (r: Option<Path>)
    ensures r.Some? <==> c.index < |c.paths|
    ensures r.Some? ==> r.value == c.paths[c.index]
  {
    if c.index < |c.paths| then Some(c.paths[c.index]) else None
  }

  function IsPath(x: Path): Path -> bool
  {
    (p: Path) => p == x
  }

  /**
   * `Column::new` over a listing `entries` read from disk: the row of
   * `selected` when it is listed, the first row otherwise.
   */
  function NewColumn(path: Path, entries: seq<Path>, selected: Option<Path>): (c: Column)
    ensures c.path == path && c.paths == entries && c.height == 0
    ensures selected.Some? && selected.value in entries ==> Selected(c) == selected
    ensures selected.None? || selected.value !in entries ==> c.index == 0
  {
    if selected.Some? then
      var at := FirstWhere(entries, IsPath(selected.value));
      FirstWhereIsFirst(entries, IsPath(selected.value));
      Column(path, entries, if at.Some? then at.value else 0, 0)
    else
      Column(path, entries, 0, 0)
  }

  /** The last row of a listing, or row 0 of an empty one (`len().saturating_sub(1)`). */
  function LastRow(c: Column): nat
  {
    SatSub(|c.paths|, 1)
  }

  /** The index lies in [0, len - 1] (just 0 for an empty listing). */
  predicate InRange(c: Column)
  {
    c.index <= LastRow(c)
  }

  datatype Motion = Up | Down | HalfPageUp | HalfPageDown | Top | Bottom

  predicate Upward(m: Motion)
  {
    m.Up? || m.HalfPageUp? || m.Top?
  }

  /**
   * The row a motion moves the selection to, or None when it cannot move
   * (`move_up`, `move_down`, `move_half_page_up`, `move_half_page_down`,
   * `move_top`, `move_bottom`). A half page is half the drawn height.
   */
  function Target(m: Motion, c: Column): (r: Option<nat>)
    ensures r.None? <==> (if Upward(m) then c.index == 0 else c.index >= LastRow(c))
    ensures r.Some? && Upward(m) ==> r.value <= c.index
    ensures r.Some? && !Upward(m) ==> c.index <= r.value <= LastRow(c)
    ensures r.Some? && (m.Up? || m.Top?) ==> r.value < c.index
    ensures r.Some? && (m.Down? || m.Bottom?) ==> r.value > c.index
    ensures r.Some? && InRange(c) ==> r.value <= LastRow(c)
    ensures r.Some? && m.Up? ==> r.value + 1 == c.index
    ensures r.Some? && m.Down? ==> r.value == c.index + 1
    ensures r.Some? && m.Top? ==> r.value == 0
    ensures r.Some? && m.Bottom? ==> r.value == LastRow(c)
    ensures r.Some? && m.HalfPageDown? ==> r.value == Min(c.index + c.height / 2, LastRow(c))
    ensures r.Some? && m.HalfPageUp? ==> r.value == SatSub(c.index, c.height / 2)
  {
    if Upward(m) && c.index == 0 then None
    else if !Upward(m) && c.index >= LastRow(c) then None
    else
      match m
      case Up => Some(c.index - 1)
      case Down => Some(c.index + 1)
      case HalfPageUp => Some(SatSub(c.index, c.height / 2))
      case HalfPageDown => Some(Min(c.index + c.height / 2, LastRow(c)))
      case Top => Some(0)
      case Bottom => Some(LastRow(c))
  }

  /** Every motion keeps an in-range selection in range. */
  lemma MotionKeepsRange(m: Motion, c: Column)
    requires InRange(c) && Target(m, c).Some?
    ensures InRange(c.(index := Target(m, c).value))
  {
  }

  /** The position cache after `close_children` records the active column's selection. */
  function Remember(cache: map<Path, Path>, c: Column): (r: map<Path, Path>)
    ensures Selected(c).Some? ==> c.path in r && r[c.path] == Selected(c).value
    ensures forall d :: d in cache && d != c.path ==> d in r && r[d] == cache[d]
    ensures r.Keys <= cache.Keys + {c.path}
  {
    match Selected(c)
    case Some(p) => cache[c.path := p]
    case None => cache
  }

  /** Each column after the first lists the directory selected in the column before it. */
  predicate Chain(cols: seq<Column>)
  {
    forall i :: 0 <= i < |cols| - 1 ==> Selected(cols[i]) == Some(cols[i + 1].path)
  }

  /** Dropping columns from the right keeps the chain. */
  lemma ChainPrefix(cols: seq<Column>, n: nat)
    requires Chain(cols) && n <= |cols|
    ensures Chain(cols[..n])
  {
    assert forall i :: 0 <= i < n ==> cols[..n][i] == cols[i];
  }

  /** Moving the selection of the last column keeps the chain. */
  lemma ChainReselect(cols: seq<Column>, k: nat)
    requires Chain(cols) && |cols| > 0
    ensures Chain(cols[..|cols| - 1] + [cols[|cols| - 1].(index := k)])
  {
    var n := |cols| - 1;
    var r := cols[..n] + [cols[n].(index := k)];
    assert forall i :: 0 <= i < n ==> r[i] == cols[i];
    assert r[n].path == cols[n].path;
  }

  /** Clamping out-of-range rows keeps the chain: a linked column already selects a row. */
  lemma ChainClamped(cols: seq<Column>, clamped: seq<Column>)
    requires Chain(cols) && |clamped| == |cols|
    requires forall i :: 0 <= i < |cols| ==> clamped[i].path == cols[i].path && clamped[i].paths == cols[i].paths
    requires forall i :: 0 <= i < |cols| && cols[i].index < |cols[i].paths| ==> clamped[i].index == cols[i].index
    ensures Chain(clamped)
  {
    forall i | 0 <= i < |clamped| - 1
      ensures Selected(clamped[i]) == Some(clamped[i + 1].path)
    {
      assert Selected(cols[i]) == Some(cols[i + 1].path);
    }
  }

  // ---------------------------------------------------------------------
  // Column layout in `render` (files.rs:1117-1147)
  // ---------------------------------------------------------------------

  /** A column chosen for drawing: its index, its left edge and its width. */
  datatype Placed = Placed(column: nat, left: nat, width: nat)

  /** The active column takes up to 52 cells, any other 17. */
  function ColumnWidth(i: nat, active: nat, areaWidth: nat): (w: nat)
    ensures w <= ACTIVE_COLUMN_WIDTH && (i == active ==> w <= areaWidth)
  {
    if i == active then Min(ACTIVE_COLUMN_WIDTH, areaWidth) else INACTIVE_COLUMN_WIDTH
  }

  /** The right edge of the last placed column: the width consumed so far. */
  function End(ps: seq<Placed>): nat
  {
    if ps == [] then 0 else ps[|ps| - 1].left + ps[|ps| - 1].width
  }

  /** Placed side by side from the left edge. */
  predicate Packed(ps: seq<Placed>)
  {
    (ps != [] ==> ps[0].left == 0) &&
    forall k :: 0 <= k < |ps| - 1 ==> ps[k + 1].left == ps[k].left + ps[k].width
  }

  /** Consecutive column indices. */
  predicate Consecutive(ps: seq<Placed>)
  {
    forall k :: 0 <= k < |ps| - 1 ==> ps[k + 1].column == ps[k].column + 1
  }

  predicate Sized(ps: seq<Placed>, active: nat, areaWidth: nat)
  {
    forall k :: 0 <= k < |ps| ==> ps[k].width == ColumnWidth(ps[k].column, active, areaWidth)
  }

  /** The layout loop's picture of the `to_render` deque: columns ending at `upto - 1`. */
  predicate Strip(ps: seq<Placed>, upto: nat, active: nat, areaWidth: nat)
  {
    Packed(ps) && Consecutive(ps) && Sized(ps, active, areaWidth) &&
    (ps != [] ==> ps[|ps| - 1].column + 1 == upto && ps[0].column + |ps| == upto)
  }

  lemma StripPush(ps: seq<Placed>, i: nat, active: nat, areaWidth: nat)
    requires Strip(ps, i, active, areaWidth)
    requires ps == [] || ps[|ps| - 1].column + 1 == i
    ensures Strip(ps + [Placed(i, End(ps), ColumnWidth(i, active, areaWidth))], i + 1, active, areaWidth)
    ensures End(ps + [Placed(i, End(ps), ColumnWidth(i, active, areaWidth))]) == End(ps) + ColumnWidth(i, active, areaWidth)
  {
  }

  /**
   * The inner loop that moves the remaining areas left by the width of the
   * column just dropped.
   */
  method ShiftLeft(ps: seq<Placed>, w: nat) returns (r: seq<Placed>)
    requires forall k :: 0 <= k < |ps| ==> ps[k].left >= w
    ensures |r| == |ps|
    ensures forall k :: 0 <= k < |ps| ==> r[k] == ps[k].(left := ps[k].left - w)
  {
    r := [];
    var k := 0;
    while k < |ps|
      invariant k <= |ps| && |r| == k
      invariant forall j :: 0 <= j < k ==> r[j] == ps[j].(left := ps[j].left - w)
    {
      r := r + [ps[k].(left := ps[k].left - w)];
      k := k + 1;
    }
  }

  /** Dropping the leftmost column of a strip leaves a strip that is narrower by its width. */
  method DropFirst(ps: seq<Placed>, upto: nat, active: nat, areaWidth: nat) returns (r: seq<Placed>)
    requires Strip(ps, upto, active, areaWidth) && ps != []
    ensures Strip(r, upto, active, areaWidth)
    ensures End(r) + ps[0].width == End(ps)
    ensures |r| + 1 == |ps|
    ensures r != [] ==> r[0].column == ps[0].column + 1
  {
    var w := ps[0].width;
    assert forall k :: 0 <= k < |ps| - 1 ==> ps[1..][k].left >= w by {
      forall k | 0 <= k < |ps| - 1
        ensures ps[1..][k].left >= w
      {
        LeftGrows(ps, k + 1);
      }
    }
    r := ShiftLeft(ps[1..], w);
    if r != [] {
      LeftGrows(ps, |ps| - 1);
    }
  }

  lemma {:induction false} LeftGrows(ps: seq<Placed>, k: nat)
    requires Packed(ps) && 0 < k < |ps|
    ensures ps[k].left >= ps[0].left + ps[0].width
  {
    if k > 1 {
      LeftGrows(ps, k - 1);
    }
  }

  /**
   * The layout as written: it drops leftmost columns with
   * `to_render.pop_front().unwrap()`, which panics (`panicked`) once the
   * deque is empty while a 17-cell column still does not fit.
   */
  method LayoutAsWritten(count: nat, active: nat, areaWidth: nat) returns (placed: seq<Placed>, panicked: bool)
    requires active < count
    ensures panicked <==> active > 0 && areaWidth < INACTIVE_COLUMN_WIDTH
  {
    placed := [];
    var i := 0;
    while i < count
      invariant i <= count && Strip(placed, i, active, areaWidth)
      invariant i > 0 && areaWidth < INACTIVE_COLUMN_WIDTH ==> active == 0
      invariant i <= active ==> End(placed) <= areaWidth
      decreases count - i
    {
      var width := ColumnWidth(i, active, areaWidth);
      if i <= active {
        while End(placed) + width > areaWidth
          invariant Strip(placed, i, active, areaWidth)
          decreases |placed|
        {
          if placed == [] {
            assert i < active && areaWidth < INACTIVE_COLUMN_WIDTH;
            return placed, true;
          }
          placed := DropFirst(placed, i, active, areaWidth);
        }
      } else if End(placed) + width > areaWidth {
        break;
      }
      StripPush(placed, i, active, areaWidth);
      placed := placed + [Placed(i, End(placed), width)];
      i := i + 1;
    }
    panicked := false;
  }

  /**
   * One turn of the layout loop for a column up to the active one, with
   * the drop loop stopped at an empty deque: leftmost columns are dropped
   * while the column does not fit, then it is placed. A column is dropped
   * only when the ones kept cannot fit beside it.
   */
  method PlaceUpToActive(placed: seq<Placed>, i: nat, active: nat, areaWidth: nat) returns (r: seq<Placed>)
    requires i <= active && Strip(placed, i, active, areaWidth)
    requires i > 0 ==> placed != []
    requires placed != [] && placed[0].column > 0 ==> INACTIVE_COLUMN_WIDTH + End(placed) > areaWidth
    ensures r != [] && Strip(r, i + 1, active, areaWidth)
    ensures r[0].column > 0 ==> INACTIVE_COLUMN_WIDTH + End(r) > areaWidth
    ensures i == active ==> End(r) <= areaWidth
  {
    var width := ColumnWidth(i, active, areaWidth);
    r := placed;
    ghost var dropped := false;
    while r != [] && End(r) + width > areaWidth
      invariant Strip(r, i, active, areaWidth)
      invariant r != [] && r[0].column > 0 && !dropped ==> INACTIVE_COLUMN_WIDTH + End(r) > areaWidth
      invariant dropped ==> INACTIVE_COLUMN_WIDTH + End(r) + width > areaWidth
      invariant i > 0 && !dropped ==> r != []
      decreases |r|
    {
      assert r[0].column < i;
      r := DropFirst(r, i, active, areaWidth);
      dropped := true;
    }
    ghost var before := r;
    StripPush(r, i, active, areaWidth);
    r := r + [Placed(i, End(r), width)];
    if before != [] {
      assert r[0] == before[0];
    }
  }

  /**
   * The layout with the drop loop stopped at an empty deque: the columns
   * up to the active one are drawn, dropping the leftmost until they fit,
   * and those to its right follow while they fit.
   */
  method Layout(count: nat, active: nat, areaWidth: nat) returns (placed: seq<Placed>)
    requires active < count
    ensures placed != [] && Strip(placed, placed[|placed| - 1].column + 1, active, areaWidth)
    ensures placed[0].column + |placed| == placed[|placed| - 1].column + 1
    ensures placed[0].column <= active <= placed[|placed| - 1].column < count
    ensures End(placed) <= areaWidth
    ensures placed[|placed| - 1].column + 1 < count ==> End(placed) + INACTIVE_COLUMN_WIDTH > areaWidth
    ensures placed[0].column > 0 ==> INACTIVE_COLUMN_WIDTH + End(placed[..active - placed[0].column + 1]) > areaWidth
  {
    placed := [];
    var i := 0;
    while i < count
      invariant i <= count && Strip(placed, i, active, areaWidth)
      invariant i > 0 ==> placed != []
      invariant i <= active ==> (placed != [] && placed[0].column > 0 ==> INACTIVE_COLUMN_WIDTH + End(placed) > areaWidth)
      invariant i > active ==> placed != [] && placed[0].column <= active < i && End(placed) <= areaWidth
      invariant i > active && placed[0].column > 0 ==> INACTIVE_COLUMN_WIDTH + End(placed[..active - placed[0].column + 1]) > areaWidth
      decreases count - i
    {
      if i <= active {
        placed := PlaceUpToActive(placed, i, active, areaWidth);
        if i == active && placed[0].column > 0 {
          assert placed[..active - placed[0].column + 1] == placed;
        }
      } else {
        var width := ColumnWidth(i, active, areaWidth);
        if End(placed) + width > areaWidth {
          break;
        }
        ghost var k := active - placed[0].column + 1;
        StripPush(placed, i, active, areaWidth);
        assert (placed + [Placed(i, End(placed), width)])[..k] == placed[..k];
        placed := placed + [Placed(i, End(placed), width)];
      }
      i := i + 1;
    }
  }

  // ---------------------------------------------------------------------
  // The browser
  // ---------------------------------------------------------------------

  datatype PasteAction = Copy | Move

  /** The dialog state. */
  datatype State =
    | Browsing
    | Searching
    | Adding
    | Renaming(path: Path)
    | ConfirmDelete(paths: seq<Path>)
    | ConfirmOverwrite(path: Path)

  /** What `metadata()` says of the selected path. */
  datatype Kind = IsDir | IsFile | Neither

  /** The outcome of `select`. */
  datatype Selection = File(path: Path) | Dir | Invalid

  /** What a start path is (`Path::exists` and `metadata()`). */
  datatype StartKind = Missing | StartDir | StartFile | Other

  /**
   * The directory `Files::new` opens and the file it selects there: a
   * missing path opens its parent (or `cwd` for the root), a file opens its
   * parent selecting the file, and anything else is an error (None).
   */
  function StartAt(p: Option<Path>, kind: StartKind, cwd: Path): (r: Option<(Path, Option<Path>)>)
    ensures p.None? ==> r == Some((cwd, None))
    ensures p.Some? && kind.StartDir? ==> r == Some((p.value, None))
    ensures r.Some? && r.value.1.Some? ==> p.Some? && r.value.1.value == p.value && Parent(p.value) == Some(r.value.0)
    ensures r.None? <==> p.Some? && (kind.Other? || (kind.StartFile? && p.value == []))
  {
    match p
    case None => Some((cwd, None))
    case Some(path) =>
      match kind
      case Missing => Some((if Parent(path).Some? then Parent(path).value else cwd, None))
      case StartDir => Some((path, None))
      case StartFile => if Parent(path).Some? then Some((Parent(path).value, Some(path))) else None
      case Other => None
  }

  class Files {
    var activeColumn: nat
    var columns: seq<Column>
    var positionCache: map<Path, Path>
    var marked: set<Path>
    var yanked: set<Path>
    var pasteAction: PasteAction
    var state: State

    predicate Valid()
      reads this
    {
      activeColumn < |columns|
    }

    /** The active column. */
    function Current(): Column
      reads this
      requires Valid()
    {
      columns[activeColumn]
    }

    /**
     * `Files::new` for the directory `dir` listing `entries`, selecting
     * `file` there when given (see StartAt).
     */
    constructor (dir: Path, file: Option<Path>, entries: seq<Path>)
      ensures Valid() && activeColumn == 0 && columns == [NewColumn(dir, entries, file)]
      ensures positionCache == (if file.Some? then map[dir := file.value] else map[])
      ensures marked == {} && yanked == {} && pasteAction == Copy && state == Browsing
    {
      activeColumn := 0;
      columns := [NewColumn(dir, entries, file)];
      positionCache := if file.Some? then map[dir := file.value] else map[];
      marked := {};
      yanked := {};
      pasteAction := Copy;
      state := Browsing;
    }

    /**
     * `close_children`: exactly the columns up to the active one are
     * kept, and the cache remembers the active directory's selection.
     */
    method CloseChildren()
      requires Valid()
      modifies this
      ensures Valid() && |columns| == activeColumn + 1
      ensures columns == old(columns[..activeColumn + 1])
      ensures old(Chain(columns)) ==> Chain(columns)
      ensures positionCache == Remember(old(positionCache), old(Current()))
      ensures activeColumn == old(activeColumn) && marked == old(marked) && yanked == old(yanked)
      ensures pasteAction == old(pasteAction) && state == old(state)
    {
      if Chain(columns) {
        ChainPrefix(columns, activeColumn + 1);
      }
      var total := |columns|;
      var n := activeColumn;
      while n < SatSub(total, 1)
        invariant activeColumn == old(activeColumn) && activeColumn < |columns| <= total
        invariant columns == old(columns)[..|columns|]
        invariant |columns| == total - (n - activeColumn)
        invariant activeColumn <= n <= total - 1
        invariant positionCache == old(positionCache)
        invariant marked == old(marked) && yanked == old(yanked)
        invariant pasteAction == old(pasteAction) && state == old(state)
      {
        assert old(columns)[..|columns|][..|columns| - 1] == old(columns)[..|columns| - 1];
        columns := columns[..|columns| - 1];
        n := n + 1;
      }
      positionCache := Remember(positionCache, columns[activeColumn]);
    }

    /**
     * The index moves: when the motion can move (Target), the active
     * column's row changes and the columns to its right close; otherwise
     * nothing changes.
     */
    method MoveBy(m: Motion)
      requires Valid()
      modifies this
      ensures Valid() && activeColumn == old(activeColumn)
      ensures Target(m, old(Current())).None? ==> columns == old(columns) && positionCache == old(positionCache)
      ensures Target(m, old(Current())).Some? ==>
        var moved := old(Current()).(index := Target(m, old(Current())).value);
        columns == old(columns[..activeColumn]) + [moved] &&
        positionCache == Remember(old(positionCache), moved)
      ensures old(InRange(Current())) ==> InRange(Current())
      ensures old(Chain(columns)) ==> Chain(columns)
      ensures marked == old(marked) && yanked == old(yanked)
      ensures pasteAction == old(pasteAction) && state == old(state)
    {
      var c := columns[activeColumn];
      var t := Target(m, c);
      if t.Some? {
        if Chain(columns) {
          ChainPrefix(columns, activeColumn + 1);
          ChainReselect(columns[..activeColumn + 1], t.value);
        }
        assert columns[..activeColumn + 1][..activeColumn] == columns[..activeColumn];
        columns := columns[activeColumn := c.(index := t.value)];
        CloseChildren();
        assert columns == old(columns[..activeColumn]) + [c.(index := t.value)];
        if InRange(c) {
          MotionKeepsRange(m, c);
        }
      }
    }

    /** `goto_path`: select the first row that is `path` or one of its ancestors, if any. */
    method GotoPath(path: Path)
      requires Valid()
      modifies this
      ensures activeColumn == old(activeColumn) && |columns| == old(|columns|)
      ensures forall i :: 0 <= i < |columns| && i != activeColumn ==> columns[i] == old(columns[i])
      ensures var c := old(Current());
        Current() == c.(index := Current().index) &&
        (forall i :: 0 <= i < |c.paths| && IsAncestor(c.paths[i], path) ==> Current().index <= i) &&
        (Current().index == c.index || (Current().index < |c.paths| && IsAncestor(c.paths[Current().index], path)))
      ensures positionCache == old(positionCache) && marked == old(marked) && yanked == old(yanked)
      ensures pasteAction == old(pasteAction) && state == old(state)
    {
      var c := columns[activeColumn];
      var i := 0;
      while i < |c.paths|
        invariant i <= |c.paths|
        invariant forall j :: 0 <= j < i ==> !IsAncestor(c.paths[j], path)
      {
        if IsAncestor(c.paths[i], path) {
          columns := columns[activeColumn := c.(index := i)];
          return;
        }
        i := i + 1;
      }
    }

    /**
     * `mark`: forgets the yanked paths and, when a row is selected,
     * toggles it in the marked set and moves down.
     */
    method Mark()
      requires Valid()
      modifies this
      ensures Valid() && activeColumn == old(activeColumn) && yanked == {}
      ensures Selected(old(Current())).None? ==>
        marked == old(marked) && columns == old(columns) && positionCache == old(positionCache)
      ensures Selected(old(Current())).Some? ==>
        var p := Selected(old(Current())).value;
        (p in marked <==> p !in old(marked)) &&
        (forall q :: q != p ==> (q in marked <==> q in old(marked))) &&
        (Target(Down, old(Current())).None? ==> columns == old(columns) && positionCache == old(positionCache)) &&
        (Target(Down, old(Current())).Some? ==>
          var moved := old(Current()).(index := old(Current()).index + 1);
          columns == old(columns[..activeColumn]) + [moved] &&
          positionCache == Remember(old(positionCache), moved))
      ensures old(Chain(columns)) ==> Chain(columns)
      ensures pasteAction == old(pasteAction) && state == old(state)
    {
      yanked := {};
      var c := columns[activeColumn];
      if c.index < |c.paths| {
        var p := c.paths[c.index];
        if p in marked {
          marked := marked - {p};
        } else {
          marked := marked + {p};
        }
        MoveBy(Down);
      }
    }

    /**
     * `copy`: with nothing marked, toggles the selected row as the only
     * yanked path (None when it was yanked already, or no row is
     * selected); otherwise the marked set becomes the yanked one and the
     * yanked one the marked one. The count returned is the size of the new
     * yanked set.
     */
    method CopySelection() returns (r: Option<nat>)
      requires Valid()
      modifies this
      ensures Valid() && columns == old(columns) && activeColumn == old(activeColumn)
      ensures old(marked) != {} ==> marked == old(yanked) && yanked == old(marked)
      ensures old(marked) == {} && Selected(Current()).None? ==> marked == {} && yanked == old(yanked)
      ensures old(marked) == {} && Selected(Current()).Some? ==>
        marked == {} &&
        (Selected(Current()).value in old(yanked) ==> yanked == {}) &&
        (Selected(Current()).value !in old(yanked) ==> yanked == {Selected(Current()).value})
      ensures r.Some? <==> old(marked) != {} || (Selected(Current()).Some? && Selected(Current()).value !in old(yanked))
      ensures r.Some? ==> r.value == |yanked| > 0
      ensures positionCache == old(positionCache) && pasteAction == old(pasteAction) && state == old(state)
    {
      if marked == {} {
        var c := columns[activeColumn];
        if c.index < |c.paths| {
          var p := c.paths[c.index];
          marked := {};
          if p in yanked {
            yanked := {};
            return None;
          }
          yanked := {p};
          return Some(1);
        }
      } else {
        marked, yanked := yanked, marked;
        return Some(|yanked|);
      }
      return None;
    }

    /** `yank`: copies with the Copy action; the count is the status message's. */
    method Yank() returns (status: Option<nat>)
      requires Valid()
      modifies this
      ensures Valid() && pasteAction == Copy
      ensures columns == old(columns) && activeColumn == old(activeColumn)
      ensures positionCache == old(positionCache) && state == old(state)
      ensures old(marked) != {} ==> marked == old(yanked) && yanked == old(marked)
      ensures old(marked) == {} && Selected(Current()).None? ==> marked == {} && yanked == old(yanked)
      ensures old(marked) == {} && Selected(Current()).Some? ==>
        marked == {} &&
        (Selected(Current()).value in old(yanked) ==> yanked == {}) &&
        (Selected(Current()).value !in old(yanked) ==> yanked == {Selected(Current()).value})
      ensures status.Some? ==> status.value == |yanked| > 0
      ensures status.Some? <==> old(marked) != {} || (Selected(Current()).Some? && Selected(Current()).value !in old(yanked))
    {
      pasteAction := Copy;
      status := CopySelection();
    }

    /** `cut`: copies with the Move action. */
    method Cut() returns (status: Option<nat>)
      requires Valid()
      modifies this
      ensures Valid() && pasteAction == Move
      ensures columns == old(columns) && activeColumn == old(activeColumn)
      ensures positionCache == old(positionCache) && state == old(state)
      ensures old(marked) != {} ==> marked == old(yanked) && yanked == old(marked)
      ensures old(marked) == {} && Selected(Current()).None? ==> marked == {} && yanked == old(yanked)
      ensures old(marked) == {} && Selected(Current()).Some? ==>
        marked == {} &&
        (Selected(Current()).value in old(yanked) ==> yanked == {}) &&
        (Selected(Current()).value !in old(yanked) ==> yanked == {Selected(Current()).value})
      ensures status.Some? ==> status.value == |yanked| > 0
      ensures status.Some? <==> old(marked) != {} || (Selected(Current()).Some? && Selected(Current()).value !in old(yanked))
    {
      pasteAction := Move;
      status := CopySelection();
    }

    /**
     * `try_delete`: the paths to confirm are the marked ones, drained in
     * path order, or else the selected row; the dialog opens only when
     * there is at least one.
     */
    method TryDelete()
      requires Valid()
      modifies this
      ensures Valid() && columns == old(columns) && activeColumn == old(activeColumn)
      ensures marked == {} && yanked == old(yanked)
      ensures old(marked) != {} ==>
        (state.ConfirmDelete? && Ascending(state.paths) && (forall p :: p in state.paths <==> p in old(marked)))
      ensures old(marked) == {} && Selected(Current()).Some? ==> state == ConfirmDelete([Selected(Current()).value])
      ensures old(marked) == {} && Selected(Current()).None? ==> state == old(state)
      ensures positionCache == old(positionCache) && pasteAction == old(pasteAction)
    {
      var confirm: seq<Path> := [];
      if marked == {} {
        var c := columns[activeColumn];
        if c.index < |c.paths| {
          confirm := [c.paths[c.index]];
        }
      } else {
        confirm := Drain(marked);
        marked := {};
      }
      if confirm != [] {
        state := ConfirmDelete(confirm);
      }
    }

    /**
     * Esc, `-` or `q` while browsing: clears the marks if there are any,
     * else the yanked paths if there are any, else dismisses the browser.
     */
    method Escape() returns (dismissed: bool)
      requires Valid()
      modifies this
      ensures Valid() && columns == old(columns) && activeColumn == old(activeColumn)
      ensures old(marked) != {} ==> !dismissed && marked == {} && yanked == old(yanked)
      ensures old(marked) == {} && old(yanked) != {} ==> !dismissed && marked == {} && yanked == {}
      ensures dismissed <==> old(marked) == {} && old(yanked) == {}
      ensures dismissed ==> marked == {} && yanked == {}
      ensures positionCache == old(positionCache) && pasteAction == old(pasteAction) && state == old(state)
    {
      if marked != {} {
        marked := {};
        return false;
      } else if yanked != {} {
        yanked := {};
        return false;
      }
      return true;
    }

    /**
     * `parent`: a column to the left becomes active, or, at the leftmost
     * column, the parent directory (listing `entries`) opens in front of it
     * with the old directory selected. Either way the marks are cleared;
     * at the root nothing happens.
     */
    method ParentDir(entries: seq<Path>)
      requires Valid()
      modifies this
      ensures old(activeColumn) > 0 ==>
        activeColumn == old(activeColumn) - 1 && columns == old(columns) && marked == {} &&
        positionCache == old(positionCache)
      ensures old(activeColumn) == 0 && Parent(old(Current()).path).None? ==>
        activeColumn == 0 && columns == old(columns) && marked == old(marked) && positionCache == old(positionCache)
      ensures old(activeColumn) == 0 && Parent(old(Current()).path).Some? ==>
        var dir := old(Current()).path;
        var up := Parent(dir).value;
        activeColumn == 0 && marked == {} &&
        columns == [NewColumn(up, entries, Some(dir))] + old(columns) &&
        positionCache == old(positionCache)[up := dir]
      ensures Valid()
      ensures old(Chain(columns)) && (old(activeColumn) > 0 || old(Current()).path in entries) ==> Chain(columns)
      ensures yanked == old(yanked) && pasteAction == old(pasteAction) && state == old(state)
    {
      if activeColumn > 0 {
        activeColumn := activeColumn - 1;
        marked := {};
      } else {
        var dir := columns[activeColumn].path;
        var up := Parent(dir);
        if up.Some? {
          var col := NewColumn(up.value, entries, Some(dir));
          positionCache := positionCache[up.value := dir];
          ghost var old_columns := columns;
          columns := [col] + columns;
          marked := {};
          if dir in entries {
            assert forall i :: 1 <= i < |columns| ==> columns[i] == old_columns[i - 1];
          }
        }
      }
    }

    /**
     * `select`: a selected directory that is not yanked becomes the active
     * column, opened from `entries` with its cached selection when no
     * column is open to the right; a selected file is returned; anything
     * else is Invalid.
     */
    method Select(kind: Kind, entries: seq<Path>) returns (r: Selection)
      requires Valid()
      modifies this
      ensures Valid()
      ensures Selected(old(Current())).None? || kind.Neither? ==> r == Invalid && columns == old(columns) && activeColumn == old(activeColumn)
      ensures Selected(old(Current())).Some? && kind.IsFile? ==>
        r == File(Selected(old(Current())).value) && columns == old(columns) && activeColumn == old(activeColumn)
      ensures Selected(old(Current())).Some? && kind.IsDir? && Selected(old(Current())).value in yanked ==>
        r == Invalid && columns == old(columns) && activeColumn == old(activeColumn)
      ensures Selected(old(Current())).Some? && kind.IsDir? && Selected(old(Current())).value !in yanked ==>
        var p := Selected(old(Current())).value;
        var cached := if p in positionCache then Some(positionCache[p]) else None;
        r == Dir && activeColumn == old(activeColumn) + 1 && marked == {} &&
        (old(Chain(columns)) || old(activeColumn) + 1 == old(|columns|) ==> Current().path == p) &&
        (old(activeColumn) + 1 < old(|columns|) ==> columns == old(columns)) &&
        (old(activeColumn) + 1 == old(|columns|) ==> columns == old(columns) + [NewColumn(p, entries, cached)])
      ensures r != Dir ==> marked == old(marked)
      ensures old(Chain(columns)) ==> Chain(columns)
      ensures yanked == old(yanked) && positionCache == old(positionCache)
      ensures pasteAction == old(pasteAction) && state == old(state)
    {
      var c := columns[activeColumn];
      if c.index < |c.paths| {
        var p := c.paths[c.index];
        if kind.IsDir? {
          if p in yanked {
            return Invalid;
          }
          if activeColumn + 1 >= |columns| {
            var cached := if p in positionCache then Some(positionCache[p]) else None;
            ghost var old_columns := columns;
            columns := columns + [NewColumn(p, entries, cached)];
            assert forall i :: 0 <= i < |old_columns| ==> columns[i] == old_columns[i];
          }
          activeColumn := activeColumn + 1;
          marked := {};
          return Dir;
        } else if kind.IsFile? {
          return File(p);
        }
      }
      return Invalid;
    }

    /**
     * `reposition_cursor`: every row index past the end of its listing is
     * pulled back to the last row; rows in range stay.
     */
    method RepositionCursor()
      requires Valid()
      modifies this
      ensures Valid() && activeColumn == old(activeColumn) && |columns| == old(|columns|)
      ensures forall i :: 0 <= i < |columns| ==>
        columns[i] == old(columns[i]).(index := columns[i].index) && InRange(columns[i])
      ensures forall i :: 0 <= i < |columns| && old(columns[i]).index < |old(columns[i]).paths| ==>
        columns[i] == old(columns[i])
      ensures forall i :: 0 <= i < |columns| && old(columns[i]).index >= |old(columns[i]).paths| ==>
        columns[i].index == LastRow(columns[i])
      ensures old(Chain(columns)) ==> Chain(columns)
      ensures positionCache == old(positionCache) && marked == old(marked) && yanked == old(yanked)
      ensures pasteAction == old(pasteAction) && state == old(state)
    {
      var cols := Clamp(columns);
      if Chain(columns) {
        ChainClamped(columns, cols);
      }
      columns := cols;
    }
  }

  /** The loop of `reposition_cursor` over the columns. */
  method Clamp(cols: seq<Column>) returns (r: seq<Column>)
    ensures |r| == |cols|
    ensures forall i :: 0 <= i < |r| ==> r[i] == cols[i].(index := r[i].index) && InRange(r[i])
    ensures forall i :: 0 <= i < |r| && cols[i].index < |cols[i].paths| ==> r[i] == cols[i]
    ensures forall i :: 0 <= i < |r| && cols[i].index >= |cols[i].paths| ==> r[i].index == LastRow(r[i])
  {
    r := cols;
    var i := 0;
    while i < |r|
      invariant i <= |r| == |cols|
      invariant forall j :: i <= j < |r| ==> r[j] == cols[j]
      invariant forall j :: 0 <= j < i ==> r[j] == cols[j].(index := r[j].index) && InRange(r[j])
      invariant forall j :: 0 <= j < i && cols[j].index < |cols[j].paths| ==> r[j] == cols[j]
      invariant forall j :: 0 <= j < i && cols[j].index >= |cols[j].paths| ==> r[j].index == LastRow(r[j])
    {
      if r[i].index >= |r[i].paths| {
        r := r[i := r[i].(index := LastRow(r[i]))];
      }
      i := i + 1;
    }
  }
}

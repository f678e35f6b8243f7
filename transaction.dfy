// Transactions of the edit history (src/history.rs, `Operation` and `Transaction`).
//
// A transaction is a list of operations walked over the document bytes from
// offset 0: `Retain(n)` keeps n bytes, `Delete(n)` removes n bytes at the
// cursor and `Insert(s)` inserts s at the cursor.  Bytes after the last
// operation are kept as they are.

module Transactions {
  import opened Base
  import Selection

  datatype Operation = Retain(n: nat) | Delete(n: nat) | Insert(s: seq<Byte>)

  datatype Transaction = Transaction(operations: seq<Operation>, selection: Selection.Selection)

  /** `Transaction::empty` (and `default`): no operations and the default selection. */
  function Empty(): (t: Transaction)
    ensures t.operations == [] && t.selection == Selection.DefaultSelection
  {
    Transaction([], Selection.DefaultSelection)
  }

  predicate IsEmpty(t: Transaction)
  {
    t.operations == []
  }

  /** Bytes of the old document an operation consumes. */
  function OpIn(op: Operation): nat
  {
    match op
    case Retain(n) => n
    case Delete(n) => n
    case Insert(_) => 0
  }

  /** Bytes of the new document an operation produces. */
  function OpOut(op: Operation): nat
  {
    match op
    case Retain(n) => n
    case Delete(_) => 0
    case Insert(s) => |s|
  }

  /** Bytes of the old document the operations consume (retained plus deleted). */
  function InLen(ops: seq<Operation>): nat
  {
    if ops == [] then 0 else OpIn(ops[0]) + InLen(ops[1..])
  }

  /** Bytes the operations produce (retained plus inserted). */
  function OutLen(ops: seq<Operation>): nat
  {
    if ops == [] then 0 else OpOut(ops[0]) + OutLen(ops[1..])
  }

  lemma {:induction false} LenAppend(p: seq<Operation>, q: seq<Operation>)
    ensures InLen(p + q) == InLen(p) + InLen(q)
    ensures OutLen(p + q) == OutLen(p) + OutLen(q)
    decreases |p|
  {
    if p != [] {
      assert (p + q)[0] == p[0] && (p + q)[1..] == p[1..] + q;
      LenAppend(p[1..], q);
    } else {
      assert p + q == q;
    }
  }

  /**
   * What `apply` does to `rope` with its cursor at `cursor`: a retain only moves
   * the cursor; a delete or insert outside the rope is a panic, `None`.
   */
  function ApplyAt(ops: seq<Operation>, rope: seq<Byte>, cursor: nat): Option<seq<Byte>>
    decreases |ops|
  {
    if ops == [] then Some(rope)
    else match ops[0]
      case Retain(n) => ApplyAt(ops[1..], rope, cursor + n)
      case Delete(n) =>
        if cursor + n <= |rope| then ApplyAt(ops[1..], rope[..cursor] + rope[cursor + n..], cursor) else None
      case Insert(s) =>
        if cursor <= |rope| then ApplyAt(ops[1..], rope[..cursor] + s + rope[cursor..], cursor + |s|) else None
  }

  /**
   * The operations applied to `d` from its first byte, keeping the bytes after the
   * last one they consume.  The laws below are stated for a `d` that holds every
   * byte the operations consume; on a shorter `d` retains and deletes are cut short.
   */
  function ApplyRest(ops: seq<Operation>, d: seq<Byte>): (r: seq<Byte>)
    ensures InLen(ops) <= |d| ==> |r| == |d| - InLen(ops) + OutLen(ops)
    decreases |ops|
  {
    if ops == [] then d
    else match ops[0]
      case Retain(n) => d[..Min(n, |d|)] + ApplyRest(ops[1..], d[Min(n, |d|)..])
      case Delete(n) => ApplyRest(ops[1..], d[Min(n, |d|)..])
      case Insert(s) => s + ApplyRest(ops[1..], d)
  }

  /** With the rope long enough, `apply` keeps the bytes before the cursor and rewrites the rest. */
  lemma {:induction false} ApplyAtRest(ops: seq<Operation>, rope: seq<Byte>, c: nat)
    requires c + InLen(ops) <= |rope|
    ensures ApplyAt(ops, rope, c) == Some(rope[..c] + ApplyRest(ops, rope[c..]))
  {
    TakeDrop(rope, c);
    ApplyAtSplit(ops, rope[..c], rope[c..]);
  }

  /** `apply` with its cursor between `x` and `y` keeps `x` and rewrites `y`. */
  lemma {:induction false} ApplyAtSplit(ops: seq<Operation>, x: seq<Byte>, y: seq<Byte>)
    requires InLen(ops) <= |y|
    ensures ApplyAt(ops, x + y, |x|) == Some(x + ApplyRest(ops, y))
    decreases |ops|
  {
    if ops == [] {
      assert x + y == x + ApplyRest(ops, y);
    } else {
      assert InLen(ops) == OpIn(ops[0]) + InLen(ops[1..]);
      match ops[0]
      case Retain(n) =>
        ApplyAtSplit(ops[1..], x + y[..n], y[n..]);
        RetainAtSplit(ops, x, y, n);
      case Delete(n) =>
        ApplyAtSplit(ops[1..], x, y[n..]);
        DeleteAtSplit(ops, x, y, n);
      case Insert(s) =>
        ApplyAtSplit(ops[1..], x + s, y);
        InsertAtSplit(ops, x, y, s);
    }
  }

  lemma {:induction false} RetainAtSplit(ops: seq<Operation>, x: seq<Byte>, y: seq<Byte>, n: nat)
    requires ops != [] && ops[0] == Retain(n) && n <= |y|
    requires ApplyAt(ops[1..], (x + y[..n]) + y[n..], |x + y[..n]|) == Some((x + y[..n]) + ApplyRest(ops[1..], y[n..]))
    ensures ApplyAt(ops, x + y, |x|) == Some(x + ApplyRest(ops, y))
  {
    assert ApplyRest(ops, y) == y[..n] + ApplyRest(ops[1..], y[n..]);
    Regroup(x, y, n);
    Assoc(x, y[..n], ApplyRest(ops[1..], y[n..]));
  }

  lemma {:induction false} DeleteAtSplit(ops: seq<Operation>, x: seq<Byte>, y: seq<Byte>, n: nat)
    requires ops != [] && ops[0] == Delete(n) && n <= |y|
    requires ApplyAt(ops[1..], x + y[n..], |x|) == Some(x + ApplyRest(ops[1..], y[n..]))
    ensures ApplyAt(ops, x + y, |x|) == Some(x + ApplyRest(ops, y))
  {
    RestDelete(ops, y, n);
    ApplyAtDelete(ops, x, y, n);
  }

  lemma {:induction false} RestDelete(ops: seq<Operation>, y: seq<Byte>, n: nat)
    requires ops != [] && ops[0] == Delete(n) && n <= |y|
    ensures ApplyRest(ops, y) == ApplyRest(ops[1..], y[n..])
  {
  }

  lemma {:induction false} ApplyAtDelete(ops: seq<Operation>, x: seq<Byte>, y: seq<Byte>, n: nat)
    requires ops != [] && ops[0] == Delete(n) && n <= |y|
    ensures ApplyAt(ops, x + y, |x|) == ApplyAt(ops[1..], x + y[n..], |x|)
  {
    CutAfter(x, y, n);
  }

  lemma {:induction false} InsertAtSplit(ops: seq<Operation>, x: seq<Byte>, y: seq<Byte>, s: seq<Byte>)
    requires ops != [] && ops[0] == Insert(s)
    requires ApplyAt(ops[1..], (x + s) + y, |x + s|) == Some((x + s) + ApplyRest(ops[1..], y))
    ensures ApplyAt(ops, x + y, |x|) == Some(x + ApplyRest(ops, y))
  {
    assert ApplyRest(ops, y) == s + ApplyRest(ops[1..], y);
    PasteAfter(x, y, s);
    Assoc(x, s, ApplyRest(ops[1..], y));
  }

  lemma {:induction false} Regroup<T>(x: seq<T>, y: seq<T>, n: nat)
    requires n <= |y|
    ensures x + y == (x + y[..n]) + y[n..] && |x + y[..n]| == |x| + n
  {
    assert y == y[..n] + y[n..];
  }

  lemma {:induction false} CutAfter<T>(x: seq<T>, y: seq<T>, n: nat)
    requires n <= |y|
    ensures |x| + n <= |x + y| && (x + y)[..|x|] + (x + y)[|x| + n..] == x + y[n..]
  {
    assert (x + y)[..|x|] == x && (x + y)[|x| + n..] == y[n..];
  }

  lemma {:induction false} PasteAfter<T>(x: seq<T>, y: seq<T>, s: seq<T>)
    ensures (x + y)[..|x|] + s + (x + y)[|x|..] == (x + s) + y && |x + s| == |x| + |s|
  {
    assert (x + y)[..|x|] == x && (x + y)[|x|..] == y;
  }

  lemma {:induction false} TailAt<T>(s: seq<T>, i: nat)
    requires i < |s|
    ensures s[i..][1..] == s[i + 1..] && s[i..][0] == s[i]
  {
  }

  lemma {:induction false} AppendSlices<T>(y: seq<T>, z: seq<T>, n: nat)
    requires n <= |y|
    ensures (y + z)[..n] == y[..n] && (y + z)[n..] == y[n..] + z
  {
  }

  lemma {:induction false} SplitAt<T>(s: seq<T>, c: nat, n: nat)
    requires c + n <= |s|
    ensures s[..c + n] == s[..c] + s[c..][..n] && s[c + n..] == s[c..][n..]
  {
  }

  lemma {:induction false} TakeDrop<T>(s: seq<T>, k: nat)
    requires k <= |s|
    ensures s[..k] + s[k..] == s
  {
  }

  lemma {:induction false} Assoc<T>(a: seq<T>, b: seq<T>, c: seq<T>)
    ensures (a + b) + c == a + (b + c)
  {
  }

  /** Bytes past the last consumed one pass through unchanged. */
  lemma {:induction false} ApplyTail(ops: seq<Operation>, y: seq<Byte>, z: seq<Byte>)
    requires InLen(ops) <= |y|
    ensures ApplyRest(ops, y + z) == ApplyRest(ops, y) + z
    decreases |ops|
  {
    if ops != [] {
      match ops[0]
      case Retain(n) =>
        assert InLen(ops) == n + InLen(ops[1..]);
        AppendSlices(y, z, n);
        ApplyTail(ops[1..], y[n..], z);
        Assoc(y[..n], ApplyRest(ops[1..], y[n..]), z);
      case Delete(n) =>
        assert InLen(ops) == n + InLen(ops[1..]);
        AppendSlices(y, z, n);
        ApplyTail(ops[1..], y[n..], z);
      case Insert(s) =>
        ApplyTail(ops[1..], y, z);
        Assoc(s, ApplyRest(ops[1..], y), z);
    }
  }

  /** Applying `p + q` applies `p` to the bytes `p` consumes and `q` to the rest. */
  lemma {:induction false} ApplyAppend(p: seq<Operation>, q: seq<Operation>, d: seq<Byte>)
    requires InLen(p) + InLen(q) <= |d|
    ensures InLen(p + q) == InLen(p) + InLen(q)
    ensures ApplyRest(p + q, d) == ApplyRest(p, d[..InLen(p)]) + ApplyRest(q, d[InLen(p)..])
  {
    var L := InLen(p);
    TakeDrop(d, L);
    ApplyConcat(p, q, d[..L], d[L..]);
  }

  /** `p + q` applied to `x + y`, where `p` consumes exactly `x`, applies `p` to `x` and `q` to `y`. */
  lemma {:induction false} ApplyConcat(p: seq<Operation>, q: seq<Operation>, x: seq<Byte>, y: seq<Byte>)
    requires InLen(p) == |x| && InLen(q) <= |y|
    ensures InLen(p + q) == InLen(p) + InLen(q)
    ensures ApplyRest(p + q, x + y) == ApplyRest(p, x) + ApplyRest(q, y)
    decreases |p|
  {
    LenAppend(p, q);
    if p == [] {
      assert p + q == q && x + y == y;
    } else {
      ConsAppend(p, q);
      assert InLen(p) == OpIn(p[0]) + InLen(p[1..]);
      match p[0]
      case Retain(n) =>
        AppendSlices(x, y, n);
        ApplyConcat(p[1..], q, x[n..], y);
        Assoc(x[..n], ApplyRest(p[1..], x[n..]), ApplyRest(q, y));
      case Delete(n) =>
        AppendSlices(x, y, n);
        ApplyConcat(p[1..], q, x[n..], y);
      case Insert(s) =>
        ApplyConcat(p[1..], q, x, y);
        Assoc(s, ApplyRest(p[1..], x), ApplyRest(q, y));
    }
  }

  lemma {:induction false} ConsAppend<T>(p: seq<T>, q: seq<T>)
    requires p != []
    ensures (p + q)[0] == p[0] && (p + q)[1..] == p[1..] + q
  {
  }

  /** Operations that do nothing: `Retain(0)`, `Delete(0)` and `Insert("")`. */
  predicate IsNoop(op: Operation)
  {
    OpIn(op) + OpOut(op) == 0
  }

  /** Whether `b` may directly follow `a` in a transaction built with the builders below. */
  predicate CanFollow(a: Operation, b: Operation)
  {
    && !(a.Retain? && b.Retain?)
    && !(a.Delete? && b.Delete?)
    && !(a.Insert? && b.Insert?)
    && !(a.Delete? && b.Insert?)
  }

  /**
   * The form `insert`, `delete` and `retain` keep: no operation that does nothing,
   * no two neighbours of the same kind and an insert never directly after a delete.
   */
  predicate Canonical(ops: seq<Operation>)
  {
    && (forall i :: 0 <= i < |ops| ==> !IsNoop(ops[i]))
    && (forall i :: 0 <= i < |ops| - 1 ==> CanFollow(ops[i], ops[i + 1]))
  }

  /** `insert`: appends `text`, joining a trailing insert and placing it before a trailing delete. */
  function PushInsert(ops: seq<Operation>, text: seq<Byte>): (r: seq<Operation>)
    ensures InLen(r) == InLen(ops) && OutLen(r) == OutLen(ops) + |text|
  {
    var n := |ops|;
    if text == [] then ops
    else if n >= 1 && ops[n - 1].Insert? then
      var r := ops[n - 1 := Insert(ops[n - 1].s + text)];
      LastSplit(ops, Insert(text), r[n - 1]);
      LenReplace(ops[..n - 1], ops[n - 1], r[n - 1]);
      r
    else if n >= 2 && ops[n - 2].Insert? && ops[n - 1].Delete? then
      var r := ops[n - 2 := Insert(ops[n - 2].s + text)];
      LastTwoSplit(ops, r[n - 2], Insert(text));
      LenReplace2(ops[..n - 2], ops[n - 2], r[n - 2], ops[n - 1]);
      r
    else if n >= 1 && ops[n - 1].Delete? then
      var r := ops[..n - 1] + [Insert(text), ops[n - 1]];
      LastSplit(ops, Insert(text), Insert(text));
      LenAppend(ops[..n - 1], [ops[n - 1]]);
      LenAppend(ops[..n - 1], [Insert(text), ops[n - 1]]);
      assert InLen([Insert(text), ops[n - 1]]) == InLen([ops[n - 1]]);
      assert OutLen([Insert(text), ops[n - 1]]) == OutLen([ops[n - 1]]) + |text|;
      r
    else
      LenAppend(ops, [Insert(text)]);
      ops + [Insert(text)]
  }

  /** `delete`: appends `Delete(count)`, joining a trailing delete. */
  function PushDelete(ops: seq<Operation>, count: nat): (r: seq<Operation>)
    ensures InLen(r) == InLen(ops) + count && OutLen(r) == OutLen(ops)
  {
    var n := |ops|;
    if count == 0 then ops
    else if n >= 1 && ops[n - 1].Delete? then
      var r := ops[n - 1 := Delete(ops[n - 1].n + count)];
      LastSplit(ops, Delete(count), r[n - 1]);
      LenReplace(ops[..n - 1], ops[n - 1], r[n - 1]);
      r
    else
      LenAppend(ops, [Delete(count)]);
      ops + [Delete(count)]
  }

  /** `retain`: appends `Retain(count)`, joining a trailing retain. */
  function PushRetain(ops: seq<Operation>, count: nat): (r: seq<Operation>)
    ensures InLen(r) == InLen(ops) + count && OutLen(r) == OutLen(ops) + count
  {
    var n := |ops|;
    if count == 0 then ops
    else if n >= 1 && ops[n - 1].Retain? then
      var r := ops[n - 1 := Retain(ops[n - 1].n + count)];
      LastSplit(ops, Retain(count), r[n - 1]);
      LenReplace(ops[..n - 1], ops[n - 1], r[n - 1]);
      r
    else
      LenAppend(ops, [Retain(count)]);
      ops + [Retain(count)]
  }

  /** The builders keep a canonical transaction canonical. */
  lemma {:induction false} PushInsertCanonical(ops: seq<Operation>, text: seq<Byte>)
    requires Canonical(ops)
    ensures Canonical(PushInsert(ops, text))
  {
    var n := |ops|;
    var r := PushInsert(ops, text);
    if text != [] && !(n >= 1 && ops[n - 1].Insert?) && !(n >= 2 && ops[n - 2].Insert? && ops[n - 1].Delete?) {
      if n >= 1 && ops[n - 1].Delete? {
        assert r == ops[..n - 1] + [Insert(text), ops[n - 1]];
        forall i | 0 <= i < |r| - 1
          ensures CanFollow(r[i], r[i + 1])
        {
          if i < n - 2 {
            assert r[i] == ops[i] && r[i + 1] == ops[i + 1];
          } else if i == n - 2 {
            assert r[i] == ops[n - 2] && CanFollow(ops[n - 2], ops[n - 1]);
          }
        }
      } else {
        assert r == ops + [Insert(text)];
      }
    }
  }

  lemma {:induction false} PushDeleteCanonical(ops: seq<Operation>, count: nat)
    requires Canonical(ops)
    ensures Canonical(PushDelete(ops, count))
  {
  }

  lemma {:induction false} PushRetainCanonical(ops: seq<Operation>, count: nat)
    requires Canonical(ops)
    ensures Canonical(PushRetain(ops, count))
  {
  }

  /** Two tails that rewrite the bytes after `p` alike give the same result after `p`. */
  lemma {:induction false} SamePrefix(p: seq<Operation>, x: seq<Operation>, y: seq<Operation>, d: seq<Byte>)
    requires InLen(x) == InLen(y) && InLen(p) + InLen(x) <= |d|
    requires ApplyRest(x, d[InLen(p)..]) == ApplyRest(y, d[InLen(p)..])
    ensures InLen(p + x) == InLen(p + y) == InLen(p) + InLen(x)
    ensures ApplyRest(p + x, d) == ApplyRest(p + y, d)
  {
    ApplyAppend(p, x, d);
    ApplyAppend(p, y, d);
  }

  /** Appending an operation that does nothing changes nothing. */
  lemma {:induction false} AppendNoop(ops: seq<Operation>, op: Operation, d: seq<Byte>)
    requires IsNoop(op) && InLen(ops) <= |d|
    ensures InLen(ops + [op]) == InLen(ops)
    ensures ApplyRest(ops, d) == ApplyRest(ops + [op], d)
  {
    var L := InLen(ops);
    var x, y := d[..L], d[L..];
    TakeDrop(d, L);
    NoopKeeps(op, y);
    ApplyConcat(ops, [op], x, y);
    ApplyTail(ops, x, y);
  }

  lemma {:induction false} NoopKeeps(op: Operation, y: seq<Byte>)
    requires IsNoop(op)
    ensures InLen([op]) == 0 && ApplyRest([op], y) == y
  {
    assert [op][1..] == [];
  }

  /** What one operation leaves of the bytes `x` it consumes. */
  function OpEffect(op: Operation, x: seq<Byte>): seq<Byte>
  {
    match op
    case Retain(_) => x
    case Delete(_) => []
    case Insert(s) => s
  }

  lemma {:induction false} ApplyCons(op: Operation, rest: seq<Operation>, e: seq<Byte>)
    requires OpIn(op) + InLen(rest) <= |e|
    ensures InLen([op] + rest) == OpIn(op) + InLen(rest) && OutLen([op] + rest) == OpOut(op) + OutLen(rest)
    ensures ApplyRest([op] + rest, e) == OpEffect(op, e[..OpIn(op)]) + ApplyRest(rest, e[OpIn(op)..])
  {
    assert ([op] + rest)[0] == op && ([op] + rest)[1..] == rest;
  }

  lemma {:induction false} JoinInserts(p: seq<Operation>, a: seq<Byte>, b: seq<Byte>, d: seq<Byte>)
    requires InLen(p) <= |d|
    ensures InLen([Insert(a), Insert(b)]) == 0 && InLen(p + [Insert(a), Insert(b)]) == InLen(p)
    ensures ApplyRest(p + [Insert(a + b)], d) == ApplyRest(p + [Insert(a), Insert(b)], d)
  {
    var e := d[InLen(p)..];
    assert [Insert(a), Insert(b)] == [Insert(a)] + [Insert(b)];
    ApplyCons(Insert(b), [], e);
    ApplyCons(Insert(a), [Insert(b)], e);
    ApplyCons(Insert(a + b), [], e);
    Assoc(a, b, e);
    SamePrefix(p, [Insert(a + b)], [Insert(a), Insert(b)], d);
  }

  lemma {:induction false} JoinInsertsAroundDelete(p: seq<Operation>, a: seq<Byte>, k: nat, b: seq<Byte>, d: seq<Byte>)
    requires InLen(p) + k <= |d|
    ensures InLen([Insert(a), Delete(k)]) == k && InLen(p + [Insert(a), Delete(k), Insert(b)]) == InLen(p) + k
    ensures ApplyRest(p + [Insert(a + b), Delete(k)], d) == ApplyRest(p + [Insert(a), Delete(k), Insert(b)], d)
  {
    var e := d[InLen(p)..];
    assert [Insert(a), Delete(k), Insert(b)] == [Insert(a)] + ([Delete(k)] + [Insert(b)]);
    assert [Insert(a), Delete(k)] == [Insert(a)] + [Delete(k)];
    assert [Insert(a + b), Delete(k)] == [Insert(a + b)] + [Delete(k)];
    ApplyCons(Insert(b), [], e[k..]);
    ApplyCons(Delete(k), [Insert(b)], e);
    ApplyCons(Insert(a), [Delete(k)] + [Insert(b)], e);
    ApplyCons(Delete(k), [], e);
    ApplyCons(Insert(a), [Delete(k)], e);
    ApplyCons(Insert(a + b), [Delete(k)], e);
    Assoc(a, b, e[k..]);
    SamePrefix(p, [Insert(a + b), Delete(k)], [Insert(a), Delete(k), Insert(b)], d);
  }

  lemma {:induction false} SwapDeleteInsert(p: seq<Operation>, k: nat, b: seq<Byte>, d: seq<Byte>)
    requires InLen(p) + k <= |d|
    ensures InLen(p + [Delete(k), Insert(b)]) == InLen(p) + k
    ensures ApplyRest(p + [Insert(b), Delete(k)], d) == ApplyRest(p + [Delete(k), Insert(b)], d)
  {
    var e := d[InLen(p)..];
    assert [Delete(k), Insert(b)] == [Delete(k)] + [Insert(b)];
    assert [Insert(b), Delete(k)] == [Insert(b)] + [Delete(k)];
    ApplyCons(Insert(b), [], e[k..]);
    ApplyCons(Delete(k), [Insert(b)], e);
    ApplyCons(Delete(k), [], e);
    ApplyCons(Insert(b), [Delete(k)], e);
    SamePrefix(p, [Insert(b), Delete(k)], [Delete(k), Insert(b)], d);
  }

  lemma {:induction false} JoinDeletes(p: seq<Operation>, a: nat, b: nat, d: seq<Byte>)
    requires InLen(p) + a + b <= |d|
    ensures InLen(p + [Delete(a), Delete(b)]) == InLen(p) + a + b
    ensures ApplyRest(p + [Delete(a + b)], d) == ApplyRest(p + [Delete(a), Delete(b)], d)
  {
    DeletesOnce(a, b, d[InLen(p)..]);
    SamePrefix(p, [Delete(a + b)], [Delete(a), Delete(b)], d);
  }

  lemma {:induction false} DeletesOnce(a: nat, b: nat, e: seq<Byte>)
    requires a + b <= |e|
    ensures InLen([Delete(a), Delete(b)]) == a + b
    ensures ApplyRest([Delete(a + b)], e) == ApplyRest([Delete(a), Delete(b)], e)
  {
    assert [Delete(a), Delete(b)] == [Delete(a)] + [Delete(b)];
    ApplyCons(Delete(b), [], e[a..]);
    ApplyCons(Delete(a), [Delete(b)], e);
    ApplyCons(Delete(a + b), [], e);
    assert e[a..][b..] == e[a + b..];
  }

  lemma {:induction false} JoinRetains(p: seq<Operation>, a: nat, b: nat, d: seq<Byte>)
    requires InLen(p) + a + b <= |d|
    ensures InLen(p + [Retain(a), Retain(b)]) == InLen(p) + a + b
    ensures ApplyRest(p + [Retain(a + b)], d) == ApplyRest(p + [Retain(a), Retain(b)], d)
  {
    RetainsOnce(a, b, d[InLen(p)..]);
    SamePrefix(p, [Retain(a + b)], [Retain(a), Retain(b)], d);
  }

  lemma {:induction false} RetainsOnce(a: nat, b: nat, e: seq<Byte>)
    requires a + b <= |e|
    ensures InLen([Retain(a), Retain(b)]) == a + b
    ensures ApplyRest([Retain(a + b)], e) == ApplyRest([Retain(a), Retain(b)], e)
  {
    RetainKeeps([Retain(a + b)], e);
    RetainKeeps([Retain(a), Retain(b)], e);
  }

  /** Operations that only retain leave bytes as they are. */
  lemma {:induction false} RetainKeeps(ops: seq<Operation>, e: seq<Byte>)
    requires forall i :: 0 <= i < |ops| ==> ops[i].Retain?
    ensures ApplyRest(ops, e) == e
    decreases |ops|
  {
    if ops != [] {
      var n := Min(ops[0].n, |e|);
      RetainKeeps(ops[1..], e[n..]);
      assert e[..n] + e[n..] == e;
    }
  }

  /** `insert` has the effect of appending `Insert(text)`. */
  lemma {:induction false} PushInsertEffect(ops: seq<Operation>, text: seq<Byte>, d: seq<Byte>)
    requires InLen(ops) <= |d|
    ensures InLen(ops + [Insert(text)]) == InLen(ops)
    ensures ApplyRest(PushInsert(ops, text), d) == ApplyRest(ops + [Insert(text)], d)
  {
    LenAppend(ops, [Insert(text)]);
    var n := |ops|;
    if text == [] {
      AppendNoop(ops, Insert(text), d);
    } else if n >= 1 && ops[n - 1].Insert? {
      var p := ops[..n - 1];
      var prev := ops[n - 1].s;
      LastSplit(ops, Insert(text), Insert(prev + text));
      assert PushInsert(ops, text) == ops[n - 1 := Insert(prev + text)] == p + [Insert(prev + text)];
      assert ops + [Insert(text)] == p + [Insert(prev), Insert(text)];
      LenAppend(p, [ops[n - 1]]);
      JoinInserts(p, prev, text, d);
    } else if n >= 2 && ops[n - 2].Insert? && ops[n - 1].Delete? {
      var p := ops[..n - 2];
      var prev := ops[n - 2].s;
      var k := ops[n - 1].n;
      LastTwoSplit(ops, Insert(prev + text), Insert(text));
      assert PushInsert(ops, text) == ops[n - 2 := Insert(prev + text)] == p + [Insert(prev + text), Delete(k)];
      assert ops + [Insert(text)] == p + [Insert(prev), Delete(k), Insert(text)];
      LenAppend(p, [ops[n - 2], ops[n - 1]]);
      JoinInsertsAroundDelete(p, prev, k, text, d);
    } else if n >= 1 && ops[n - 1].Delete? {
      var p := ops[..n - 1];
      var k := ops[n - 1].n;
      LastSplit(ops, Insert(text), Insert(text));
      assert PushInsert(ops, text) == p + [Insert(text), Delete(k)];
      assert ops + [Insert(text)] == p + [Delete(k), Insert(text)];
      LenAppend(p, [ops[n - 1]]);
      SwapDeleteInsert(p, k, text, d);
    } else {
      assert PushInsert(ops, text) == ops + [Insert(text)];
    }
  }

  /** `delete` has the effect of appending `Delete(count)`. */
  lemma {:induction false} PushDeleteEffect(ops: seq<Operation>, count: nat, d: seq<Byte>)
    requires InLen(ops) + count <= |d|
    ensures InLen(ops + [Delete(count)]) == InLen(ops) + count
    ensures ApplyRest(PushDelete(ops, count), d) == ApplyRest(ops + [Delete(count)], d)
  {
    LenAppend(ops, [Delete(count)]);
    var n := |ops|;
    if count == 0 {
      AppendNoop(ops, Delete(0), d);
    } else if n >= 1 && ops[n - 1].Delete? {
      var p, k := ops[..n - 1], ops[n - 1].n;
      JoinLast(ops, Delete(count), Delete(count));
      assert ops == p + [Delete(k)];
      PushDeleteJoined(p, k, count, d);
    } else {
      assert PushDelete(ops, count) == ops + [Delete(count)];
    }
  }




  /** `retain` has the effect of appending `Retain(count)`. */
  lemma {:induction false} PushRetainEffect(ops: seq<Operation>, count: nat, d: seq<Byte>)
    requires InLen(ops) + count <= |d|
    ensures InLen(ops + [Retain(count)]) == InLen(ops) + count
    ensures ApplyRest(PushRetain(ops, count), d) == ApplyRest(ops + [Retain(count)], d)
  {
    LenAppend(ops, [Retain(count)]);
    var n := |ops|;
    if count == 0 {
      AppendNoop(ops, Retain(0), d);
    } else if n >= 1 && ops[n - 1].Retain? {
      var p, k := ops[..n - 1], ops[n - 1].n;
      JoinLast(ops, Retain(count), Retain(count));
      assert ops == p + [Retain(k)];
      PushRetainJoined(p, k, count, d);
    } else {
      assert PushRetain(ops, count) == ops + [Retain(count)];
    }
  }




  /** `delete` after a trailing `Delete(k)` has the effect of appending `Delete(count)` to it. */
  lemma {:induction false} PushDeleteJoined(p: seq<Operation>, k: nat, count: nat, d: seq<Byte>)
    requires count > 0 && InLen(p) + k + count <= |d|
    ensures ApplyRest(PushDelete(p + [Delete(k)], count), d) == ApplyRest(p + [Delete(k)] + [Delete(count)], d)
  {
    PushDeleteShape(p, k, count);
    JoinDeletes(p, k, count, d);
  }

  lemma {:induction false} PushDeleteShape(p: seq<Operation>, k: nat, count: nat)
    requires count > 0
    ensures PushDelete(p + [Delete(k)], count) == p + [Delete(k + count)]
    ensures p + [Delete(k)] + [Delete(count)] == p + [Delete(k), Delete(count)]
  {
    JoinLast(p + [Delete(k)], Delete(count), Delete(k + count));
    assert (p + [Delete(k)])[..|p|] == p;
  }

  /** `retain` after a trailing `Retain(k)` has the effect of appending `Retain(count)` to it. */
  lemma {:induction false} PushRetainJoined(p: seq<Operation>, k: nat, count: nat, d: seq<Byte>)
    requires count > 0 && InLen(p) + k + count <= |d|
    ensures ApplyRest(PushRetain(p + [Retain(k)], count), d) == ApplyRest(p + [Retain(k)] + [Retain(count)], d)
  {
    PushRetainShape(p, k, count);
    JoinRetains(p, k, count, d);
  }

  lemma {:induction false} PushRetainShape(p: seq<Operation>, k: nat, count: nat)
    requires count > 0
    ensures PushRetain(p + [Retain(k)], count) == p + [Retain(k + count)]
    ensures p + [Retain(k)] + [Retain(count)] == p + [Retain(k), Retain(count)]
  {
    JoinLast(p + [Retain(k)], Retain(count), Retain(k + count));
    assert (p + [Retain(k)])[..|p|] == p;
  }

  /** Replacing the last operation with `y` equals appending `y` to the operations before it. */
  lemma {:induction false} JoinLast(ops: seq<Operation>, x: Operation, y: Operation)
    requires |ops| >= 1
    ensures ops + [x] == ops[..|ops| - 1] + [ops[|ops| - 1], x]
    ensures ops[|ops| - 1 := y] == ops[..|ops| - 1] + [y]
    ensures InLen(ops) == InLen(ops[..|ops| - 1]) + OpIn(ops[|ops| - 1])
  {
    LastSplit(ops, x, y);
    LenAppend(ops[..|ops| - 1], [ops[|ops| - 1]]);
  }

  lemma {:induction false} LastSplit<T>(s: seq<T>, x: T, y: T)
    requires |s| >= 1
    ensures s == s[..|s| - 1] + [s[|s| - 1]]
    ensures s + [x] == s[..|s| - 1] + [s[|s| - 1], x]
    ensures s[|s| - 1 := y] == s[..|s| - 1] + [y]
  {
  }

  lemma {:induction false} LastTwoSplit<T>(s: seq<T>, x: T, z: T)
    requires |s| >= 2
    ensures s == s[..|s| - 2] + [s[|s| - 2], s[|s| - 1]]
    ensures s + [z] == s[..|s| - 2] + [s[|s| - 2], s[|s| - 1], z]
    ensures s[|s| - 2 := x] == s[..|s| - 2] + [x, s[|s| - 1]]
  {
  }

  lemma {:induction false} LenReplace(p: seq<Operation>, a: Operation, b: Operation)
    ensures InLen(p + [b]) == InLen(p + [a]) - OpIn(a) + OpIn(b)
    ensures OutLen(p + [b]) == OutLen(p + [a]) - OpOut(a) + OpOut(b)
  {
    LenAppend(p, [a]);
    LenAppend(p, [b]);
  }

  lemma {:induction false} LenReplace2(p: seq<Operation>, a: Operation, b: Operation, c: Operation)
    ensures InLen(p + [b, c]) == InLen(p + [a, c]) - OpIn(a) + OpIn(b)
    ensures OutLen(p + [b, c]) == OutLen(p + [a, c]) - OpOut(a) + OpOut(b)
  {
    LenAppend(p, [a, c]);
    LenAppend(p, [b, c]);
    assert [a, c][1..] == [c] && [b, c][1..] == [c];
  }

  /** `apply`: walks the operations with a byte cursor, editing the rope in place. */
  method Apply(t: Transaction, rope: seq<Byte>) returns (r: seq<Byte>)
    requires ApplyAt(t.operations, rope, 0).Some?
    ensures ApplyAt(t.operations, rope, 0) == Some(r)
  {
    r := rope;
    var cursor: nat := 0;
    var i := 0;
    while i < |t.operations|
      invariant i <= |t.operations|
      invariant ApplyAt(t.operations[i..], r, cursor) == ApplyAt(t.operations, rope, 0)
    {
      TailAt(t.operations, i);
      match t.operations[i] {
        case Retain(n) =>
          cursor := cursor + n;
        case Delete(n) =>
          r := r[..cursor] + r[cursor + n..];
        case Insert(s) =>
          r := r[..cursor] + s + r[cursor..];
          cursor := cursor + |s|;
      }
      i := i + 1;
    }
  }

  // ---------------------------------------------------------------- compose

  /** Operations without one that does nothing. */
  predicate NoNoops(ops: seq<Operation>)
  {
    forall i :: 0 <= i < |ops| ==> !IsNoop(ops[i])
  }

  /** One turn of the `compose` loop: the operation handed to a builder, if any, and what is left of both sides. */
  datatype Turn = Turn(emit: Option<Operation>, a: seq<Operation>, b: seq<Operation>)

  /**
   * The turn of `compose` on the pending operations `a` (first) and `b` (second);
   * `None` is the `unreachable!` panic: one side ran out while the other still
   * holds a retain, a delete of `b` or an insert of `a`.
   */
  function ComposeTurn(a: seq<Operation>, b: seq<Operation>): (r: Option<Turn>)
    requires a != [] || b != []
    ensures r.Some? ==> |r.value.a| <= |a| && |r.value.b| <= |b| && |r.value.a| + |r.value.b| < |a| + |b|
  {
    if a != [] && a[0].Delete? then Some(Turn(Some(a[0]), a[1..], b))
    else if b != [] && b[0].Insert? then Some(Turn(Some(b[0]), a, b[1..]))
    else if a == [] || b == [] then None
    else if a[0].Retain? && b[0].Retain? then TurnRetainRetain(a[0].n, b[0].n, a[1..], b[1..])
    else if a[0].Insert? && b[0].Delete? then TurnInsertDelete(a[0].s, b[0].n, a[1..], b[1..])
    else if a[0].Insert? then TurnInsertRetain(a[0].s, b[0].n, a[1..], b[1..])
    else TurnRetainDelete(a[0].n, b[0].n, a[1..], b[1..])
  }

  /** `(Retain(i), Retain(j))`: the shorter retain passes through, the rest of the longer stays pending. */
  function TurnRetainRetain(i: nat, j: nat, ra: seq<Operation>, rb: seq<Operation>): (r: Option<Turn>)
    ensures r.Some? && |r.value.a| <= |ra| + 1 && |r.value.b| <= |rb| + 1 && |r.value.a| + |r.value.b| <= |ra| + |rb| + 1
  {
    if i < j then Some(Turn(Some(Retain(i)), ra, [Retain(j - i)] + rb))
    else if i == j then Some(Turn(Some(Retain(i)), ra, rb))
    else Some(Turn(Some(Retain(j)), [Retain(i - j)] + ra, rb))
  }

  /** `(Insert(s), Delete(j))`: the inserted bytes are deleted again and nothing is emitted. */
  function TurnInsertDelete(s: seq<Byte>, j: nat, ra: seq<Operation>, rb: seq<Operation>): (r: Option<Turn>)
    ensures r.Some? && r.value.emit.None?
    ensures |r.value.a| <= |ra| + 1 && |r.value.b| <= |rb| + 1 && |r.value.a| + |r.value.b| <= |ra| + |rb| + 1
  {
    if |s| < j then Some(Turn(None, ra, [Delete(j - |s|)] + rb))
    else if |s| == j then Some(Turn(None, ra, rb))
    else Some(Turn(None, [Insert(s[j..])] + ra, rb))
  }

  /** `(Insert(s), Retain(j))`: the retained part of the insertion is emitted. */
  function TurnInsertRetain(s: seq<Byte>, j: nat, ra: seq<Operation>, rb: seq<Operation>): (r: Option<Turn>)
    ensures r.Some? && r.value.emit.Some? && r.value.emit.value.Insert?
    ensures |r.value.a| <= |ra| + 1 && |r.value.b| <= |rb| + 1 && |r.value.a| + |r.value.b| <= |ra| + |rb| + 1
  {
    if |s| < j then Some(Turn(Some(Insert(s)), ra, [Retain(j - |s|)] + rb))
    else if |s| == j then Some(Turn(Some(Insert(s)), ra, rb))
    else Some(Turn(Some(Insert(s[..j])), [Insert(s[j..])] + ra, rb))
  }

  /** `(Retain(i), Delete(j))`: the deleted part of the retained span is emitted as a delete. */
  function TurnRetainDelete(i: nat, j: nat, ra: seq<Operation>, rb: seq<Operation>): (r: Option<Turn>)
    ensures r.Some? && r.value.emit.Some? && r.value.emit.value.Delete?
    ensures |r.value.a| <= |ra| + 1 && |r.value.b| <= |rb| + 1 && |r.value.a| + |r.value.b| <= |ra| + |rb| + 1
  {
    if i < j then Some(Turn(Some(Delete(i)), ra, [Delete(j - i)] + rb))
    else if i == j then Some(Turn(Some(Delete(j)), ra, rb))
    else Some(Turn(Some(Delete(j)), [Retain(i - j)] + ra, rb))
  }

  /** Hands an emitted operation to the matching builder. */
  function Emit(acc: seq<Operation>, e: Option<Operation>): (r: seq<Operation>)
    ensures InLen(r) == InLen(acc) + EmitIn(e) && OutLen(r) == OutLen(acc) + EmitOut(e)
  {
    match e
    case None => acc
    case Some(Retain(n)) => PushRetain(acc, n)
    case Some(Delete(n)) => PushDelete(acc, n)
    case Some(Insert(s)) => PushInsert(acc, s)
  }

  function EmitIn(e: Option<Operation>): nat
  {
    if e.Some? then OpIn(e.value) else 0
  }

  function EmitOut(e: Option<Operation>): nat
  {
    if e.Some? then OpOut(e.value) else 0
  }

  function EmitEffect(e: Option<Operation>, x: seq<Byte>): seq<Byte>
  {
    if e.Some? then OpEffect(e.value, x) else []
  }

  /** The `compose` loop from the pending operations `a` and `b`, having built `acc`. */
  function ComposeOps(a: seq<Operation>, b: seq<Operation>, acc: seq<Operation>): Option<seq<Operation>>
    decreases |a| + |b|
  {
    if a == [] && b == [] then Some(acc)
    else match ComposeTurn(a, b)
      case None => None
      case Some(t) => ComposeOps(t.a, t.b, Emit(acc, t.emit))
  }

  /** `compose`: an empty side is the identity; otherwise the merged operations with the second selection. */
  function Composed(x: Transaction, y: Transaction): Option<Transaction>
  {
    if x.operations == [] then Some(y)
    else if y.operations == [] then Some(x)
    else match ComposeOps(x.operations, y.operations, [])
      case None => None
      case Some(ops) => Some(Transaction(ops, y.selection))
  }

  /** The operations an iterator has still to hand out: the one it has taken and those after `i`. */
  function Pending(next: Option<Operation>, s: seq<Operation>, i: nat): seq<Operation>
    requires i <= |s|
  {
    if next.Some? then [next.value] + s[i..] else []
  }

  /** `Iterator::next` over `s` at position `i`. */
  method Next(s: seq<Operation>, i: nat) returns (next: Option<Operation>, i': nat)
    requires i <= |s|
    ensures i' <= |s| && (next.None? ==> i' == |s|)
    ensures Pending(next, s, i') == s[i..]
  {
    if i < |s| {
      assert [s[i]] + s[i + 1..] == s[i..];
      next, i' := Some(s[i]), i + 1;
    } else {
      next, i' := None, i;
    }
  }

  /** `compose`: walks both operation lists with one pending operation from each. */
  method Compose(x: Transaction, y: Transaction) returns (r: Option<Transaction>)
    ensures r == Composed(x, y)
  {
    if x.operations == [] {
      return Some(y);
    }
    if y.operations == [] {
      return Some(x);
    }
    var a := x.operations;
    var b := y.operations;
    var nextA: Option<Operation>, ia: nat := Next(a, 0);
    var nextB: Option<Operation>, ib: nat := Next(b, 0);
    var ops: seq<Operation> := [];
    while nextA.Some? || nextB.Some?
      invariant ia <= |a| && (nextA.None? ==> ia == |a|)
      invariant ib <= |b| && (nextB.None? ==> ib == |b|)
      invariant ComposeOps(Pending(nextA, a, ia), Pending(nextB, b, ib), ops) == ComposeOps(a, b, [])
      decreases |Pending(nextA, a, ia)| + |Pending(nextB, b, ib)|
    {
      var ok;
      ok, nextA, ia, nextB, ib, ops := ComposeStep(a, b, nextA, ia, nextB, ib, ops);
      if !ok {
        return None;
      }
    }
    return Some(Transaction(ops, y.selection));
  }

  /** `Pending` splits into the held operation and the unread rest. */
  lemma {:induction false} PendingParts(next: Option<Operation>, s: seq<Operation>, i: nat)
    requires i <= |s| && next.Some?
    ensures Pending(next, s, i) != [] && Pending(next, s, i)[0] == next.value && Pending(next, s, i)[1..] == s[i..]
  {
  }

  /** One pass through the `match` of the `compose` loop; `ok` is false on the `unreachable!` arm. */
  method ComposeStep(a: seq<Operation>, b: seq<Operation>, nextA: Option<Operation>, ia: nat,
                     nextB: Option<Operation>, ib: nat, ops: seq<Operation>)
    returns (ok: bool, nextA': Option<Operation>, ia': nat, nextB': Option<Operation>, ib': nat, ops': seq<Operation>)
    requires ia <= |a| && (nextA.None? ==> ia == |a|)
    requires ib <= |b| && (nextB.None? ==> ib == |b|)
    requires nextA.Some? || nextB.Some?
    ensures ia' <= |a| && (nextA'.None? ==> ia' == |a|)
    ensures ib' <= |b| && (nextB'.None? ==> ib' == |b|)
    ensures ok <==> ComposeTurn(Pending(nextA, a, ia), Pending(nextB, b, ib)).Some?
    ensures ok ==> var t := ComposeTurn(Pending(nextA, a, ia), Pending(nextB, b, ib)).value;
      Pending(nextA', a, ia') == t.a && Pending(nextB', b, ib') == t.b && ops' == Emit(ops, t.emit)
  {
    ghost var pa, pb := Pending(nextA, a, ia), Pending(nextB, b, ib);
    if nextA.Some? { PendingParts(nextA, a, ia); }
    if nextB.Some? { PendingParts(nextB, b, ib); }
    ok, nextA', ia', nextB', ib', ops' := true, nextA, ia, nextB, ib, ops;
    if nextA.Some? && nextA.value.Delete? {
      ops' := PushDelete(ops, nextA.value.n);
      nextA', ia' := Next(a, ia);
    } else if nextB.Some? && nextB.value.Insert? {
      ops' := PushInsert(ops, nextB.value.s);
      nextB', ib' := Next(b, ib);
    } else if nextA.None? || nextB.None? {
      ok := false;
    } else if nextA.value.Retain? && nextB.value.Retain? {
      nextA', ia', nextB', ib', ops' := StepRetainRetain(a, b, nextA.value.n, ia, nextB.value.n, ib, ops);
    } else if nextA.value.Insert? && nextB.value.Delete? {
      nextA', ia', nextB', ib' := StepInsertDelete(a, b, nextA.value.s, ia, nextB.value.n, ib);
    } else if nextA.value.Insert? {
      nextA', ia', nextB', ib', ops' := StepInsertRetain(a, b, nextA.value.s, ia, nextB.value.n, ib, ops);
    } else {
      nextA', ia', nextB', ib', ops' := StepRetainDelete(a, b, nextA.value.n, ia, nextB.value.n, ib, ops);
    }
  }

  method StepRetainRetain(a: seq<Operation>, b: seq<Operation>, i: nat, ia: nat, j: nat, ib: nat, ops: seq<Operation>)
    returns (nextA': Option<Operation>, ia': nat, nextB': Option<Operation>, ib': nat, ops': seq<Operation>)
    requires ia <= |a| && ib <= |b|
    ensures ia' <= |a| && (nextA'.None? ==> ia' == |a|)
    ensures ib' <= |b| && (nextB'.None? ==> ib' == |b|)
    ensures var t := TurnRetainRetain(i, j, a[ia..], b[ib..]).value;
      Pending(nextA', a, ia') == t.a && Pending(nextB', b, ib') == t.b && ops' == Emit(ops, t.emit)
  {
    if i < j {
      ops' := PushRetain(ops, i);
      nextA', ia' := Next(a, ia);
      nextB', ib' := Some(Retain(j - i)), ib;
    } else if i == j {
      ops' := PushRetain(ops, i);
      nextA', ia' := Next(a, ia);
      nextB', ib' := Next(b, ib);
    } else {
      ops' := PushRetain(ops, j);
      nextA', ia' := Some(Retain(i - j)), ia;
      nextB', ib' := Next(b, ib);
    }
  }

  method StepInsertDelete(a: seq<Operation>, b: seq<Operation>, s: seq<Byte>, ia: nat, j: nat, ib: nat)
    returns (nextA': Option<Operation>, ia': nat, nextB': Option<Operation>, ib': nat)
    requires ia <= |a| && ib <= |b|
    ensures ia' <= |a| && (nextA'.None? ==> ia' == |a|)
    ensures ib' <= |b| && (nextB'.None? ==> ib' == |b|)
    ensures var t := TurnInsertDelete(s, j, a[ia..], b[ib..]).value;
      Pending(nextA', a, ia') == t.a && Pending(nextB', b, ib') == t.b
  {
    if |s| < j {
      nextA', ia' := Next(a, ia);
      nextB', ib' := Some(Delete(j - |s|)), ib;
    } else if |s| == j {
      nextA', ia' := Next(a, ia);
      nextB', ib' := Next(b, ib);
    } else {
      nextA', ia' := Some(Insert(s[j..])), ia;
      nextB', ib' := Next(b, ib);
    }
  }

  method StepInsertRetain(a: seq<Operation>, b: seq<Operation>, s: seq<Byte>, ia: nat, j: nat, ib: nat, ops: seq<Operation>)
    returns (nextA': Option<Operation>, ia': nat, nextB': Option<Operation>, ib': nat, ops': seq<Operation>)
    requires ia <= |a| && ib <= |b|
    ensures ia' <= |a| && (nextA'.None? ==> ia' == |a|)
    ensures ib' <= |b| && (nextB'.None? ==> ib' == |b|)
    ensures var t := TurnInsertRetain(s, j, a[ia..], b[ib..]).value;
      Pending(nextA', a, ia') == t.a && Pending(nextB', b, ib') == t.b && ops' == Emit(ops, t.emit)
  {
    if |s| < j {
      ops' := PushInsert(ops, s);
      nextA', ia' := Next(a, ia);
      nextB', ib' := Some(Retain(j - |s|)), ib;
    } else if |s| == j {
      ops' := PushInsert(ops, s);
      nextA', ia' := Next(a, ia);
      nextB', ib' := Next(b, ib);
    } else {
      ops' := PushInsert(ops, s[..j]);
      nextA', ia' := Some(Insert(s[j..])), ia;
      nextB', ib' := Next(b, ib);
    }
  }

  method StepRetainDelete(a: seq<Operation>, b: seq<Operation>, i: nat, ia: nat, j: nat, ib: nat, ops: seq<Operation>)
    returns (nextA': Option<Operation>, ia': nat, nextB': Option<Operation>, ib': nat, ops': seq<Operation>)
    requires ia <= |a| && ib <= |b|
    ensures ia' <= |a| && (nextA'.None? ==> ia' == |a|)
    ensures ib' <= |b| && (nextB'.None? ==> ib' == |b|)
    ensures var t := TurnRetainDelete(i, j, a[ia..], b[ib..]).value;
      Pending(nextA', a, ia') == t.a && Pending(nextB', b, ib') == t.b && ops' == Emit(ops, t.emit)
  {
    if i < j {
      ops' := PushDelete(ops, i);
      nextA', ia' := Next(a, ia);
      nextB', ib' := Some(Delete(j - i)), ib;
    } else if i == j {
      ops' := PushDelete(ops, j);
      nextA', ia' := Next(a, ia);
      nextB', ib' := Next(b, ib);
    } else {
      ops' := PushDelete(ops, j);
      nextA', ia' := Some(Retain(i - j)), ia;
      nextB', ib' := Next(b, ib);
    }
  }

  // ---------------------------------------------------------------------------
  // invert

  /**
   * The `invert` loop from `offset` in the original rope, having built `acc`: a
   * retain stays, a delete becomes an insert of the bytes it removed, an insert
   * becomes a delete of as many bytes; slicing past the rope is a panic, `None`.
   */
  function InvertOps(ops: seq<Operation>, orig: seq<Byte>, offset: nat, acc: seq<Operation>): Option<seq<Operation>>
    decreases |ops|
  {
    if ops == [] then Some(acc)
    else match ops[0]
      case Retain(n) => InvertOps(ops[1..], orig, offset + n, PushRetain(acc, n))
      case Delete(n) =>
        if offset + n <= |orig| then InvertOps(ops[1..], orig, offset + n, PushInsert(acc, orig[offset..offset + n]))
        else None
      case Insert(s) => InvertOps(ops[1..], orig, offset, PushDelete(acc, |s|))
  }

  /** The inversion of `t` against the state (`rope`, `selection`) it was applied to. */
  function Inverted(t: Transaction, rope: seq<Byte>, selection: Selection.Selection): Option<Transaction>
  {
    match InvertOps(t.operations, rope, 0, [])
    case None => None
    case Some(ops) => Some(Transaction(ops, selection))
  }

  /** One step of `InvertOps`, by the kind of the leading operation. */
  lemma {:induction false} InvertOpsStep(ops: seq<Operation>, orig: seq<Byte>, offset: nat, acc: seq<Operation>)
    requires ops != []
    ensures ops[0].Retain? ==>
      InvertOps(ops, orig, offset, acc) == InvertOps(ops[1..], orig, offset + ops[0].n, PushRetain(acc, ops[0].n))
    ensures ops[0].Delete? && offset + ops[0].n <= |orig| ==>
      InvertOps(ops, orig, offset, acc)
        == InvertOps(ops[1..], orig, offset + ops[0].n, PushInsert(acc, orig[offset..offset + ops[0].n]))
    ensures ops[0].Delete? && offset + ops[0].n > |orig| ==> InvertOps(ops, orig, offset, acc).None?
    ensures ops[0].Insert? ==>
      InvertOps(ops, orig, offset, acc) == InvertOps(ops[1..], orig, offset, PushDelete(acc, |ops[0].s|))
  {
  }

  /** `invert`: one pass over the operations with a byte offset into the original rope. */
  method Invert(t: Transaction, rope: seq<Byte>, selection: Selection.Selection) returns (r: Option<Transaction>)
    ensures r == Inverted(t, rope, selection)
  {
    var ops: seq<Operation> := [];
    var offset: nat := 0;
    var rest := t.operations;
    while rest != []
      invariant InvertOps(rest, rope, offset, ops) == InvertOps(t.operations, rope, 0, [])
      decreases |rest|
    {
      InvertOpsStep(rest, rope, offset, ops);
      var op := rest[0];
      if op.Retain? {
        ops := PushRetain(ops, op.n);
        offset := offset + op.n;
      } else if op.Delete? {
        if offset + op.n > |rope| {
          return None;
        }
        ops := PushInsert(ops, rope[offset..offset + op.n]);
        offset := offset + op.n;
      } else {
        ops := PushDelete(ops, |op.s|);
      }
      rest := rest[1..];
    }
    return Some(Transaction(ops, selection));
  }
}

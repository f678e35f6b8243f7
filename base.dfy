/**
 * Shared vocabulary of the model: optional values, bytes, and the
 * saturating and clamping arithmetic the editor uses on `usize`/`u16`.
 */
module Base {

  datatype Option<T> = None | Some(value: T)

  /** A byte of UTF-8 text. */
  type Byte = b: int | 0 <= b < 0x100

  /** The line feed byte. */
  const NEWLINE: Byte := 10

  const U16_MAX: nat := 0xFFFF

  /** A `u16`. */
  type U16 = n: int | 0 <= n <= 0xFFFF

  function Min(a: int, b: int): int { if a <= b then a else b }

  function Max(a: int, b: int): int { if a >= b then a else b }

  /** `saturating_sub` on unsigned integers: never below zero. */
  function SatSub(a: nat, b: nat): (r: nat)
    ensures r <= a && (b <= a ==> r + b == a)
  {
    if a >= b then a - b else 0
  }

  /** `saturating_add` on `u16`: never above `u16::MAX`. */
  function SatAddU16(a: nat, b: nat): (r: nat)
    ensures r <= U16_MAX && (a + b <= U16_MAX ==> r == a + b)
  {
    if a + b <= U16_MAX then a + b else U16_MAX
  }

  /** The total of a sequence of naturals. */
  function Sum(s: seq<nat>): nat
  {
    if s == [] then 0 else s[0] + Sum(s[1..])
  }

  lemma {:induction false} SumAppend(a: seq<nat>, b: seq<nat>)
    ensures Sum(a + b) == Sum(a) + Sum(b)
  {
    if a == [] {
      assert a + b == b;
    } else {
      assert (a + b)[1..] == a[1..] + b;
      SumAppend(a[1..], b);
    }
  }

  // ---------------------------------------------------------------------
  // Searching sequences
  // ---------------------------------------------------------------------

  /** The index of the last element satisfying `p`. */
  function LastWhere<T>(s: seq<T>, p: T -> bool): (r: Option<nat>)
    ensures r.Some? ==> r.value < |s| && p(s[r.value])
    decreases |s|
  {
    if s == [] then None
    else if p(s[|s| - 1]) then Some(|s| - 1)
    else LastWhere(s[..|s| - 1], p)
  }

  /** Nothing after the last match satisfies `p`, and there is no match only when nothing does. */
  lemma {:induction false} LastWhereIsLast<T>(s: seq<T>, p: T -> bool)
    ensures LastWhere(s, p).None? <==> forall i :: 0 <= i < |s| ==> !p(s[i])
    ensures LastWhere(s, p).Some? ==> forall j :: LastWhere(s, p).value < j < |s| ==> !p(s[j])
    decreases |s|
  {
    if s != [] && !p(s[|s| - 1]) {
      var init := s[..|s| - 1];
      LastWhereIsLast(init, p);
      assert forall i :: 0 <= i < |init| ==> init[i] == s[i];
    }
  }

  /** An element satisfying `p` with nothing after it that does is the last match. */
  lemma {:induction false} LastWhereAt<T>(s: seq<T>, p: T -> bool, k: nat)
    requires k < |s| && p(s[k]) && forall j :: k < j < |s| ==> !p(s[j])
    ensures LastWhere(s, p) == Some(k)
  {
    LastWhereIsLast(s, p);
  }

  /** The index of the first element satisfying `p` (`Iterator::position`). */
  function FirstWhere<T>(s: seq<T>, p: T -> bool): (r: Option<nat>)
    ensures r.Some? ==> r.value < |s| && p(s[r.value])
    decreases |s|
  {
    if s == [] then None
    else if p(s[0]) then Some(0)
    else match FirstWhere(s[1..], p)
      case None => None
      case Some(k) => Some(k + 1)
  }

  /** Nothing before the first match satisfies `p`, and there is no match only when nothing does. */
  lemma {:induction false} FirstWhereIsFirst<T>(s: seq<T>, p: T -> bool)
    ensures FirstWhere(s, p).None? <==> forall i :: 0 <= i < |s| ==> !p(s[i])
    ensures FirstWhere(s, p).Some? ==> forall j :: 0 <= j < FirstWhere(s, p).value ==> !p(s[j])
    decreases |s|
  {
    if s != [] && !p(s[0]) {
      var tail := s[1..];
      FirstWhereIsFirst(tail, p);
      assert forall i :: 0 <= i < |tail| ==> tail[i] == s[i + 1];
    }
  }

  /** An element satisfying `p` with nothing before it that does is the first match. */
  lemma {:induction false} FirstWhereAt<T>(s: seq<T>, p: T -> bool, k: nat)
    requires k < |s| && p(s[k]) && forall j :: 0 <= j < k ==> !p(s[j])
    ensures FirstWhere(s, p) == Some(k)
    decreases k
  {
    if k > 0 {
      var tail := s[1..];
      assert forall j :: 0 <= j < k - 1 ==> tail[j] == s[j + 1];
      FirstWhereAt(tail, p, k - 1);
    }
  }

  /** `str::split(sep)`: the pieces between separators, empty ones included. */
  function Split(s: string, sep: char): (r: seq<string>)
    ensures |r| >= 1
    ensures forall k :: 0 <= k < |r| ==> sep !in r[k]
    decreases |s|
  {
    if s == [] then [""]
    else
      var rest := Split(s[1..], sep);
      if s[0] == sep then [""] + rest
      else [[s[0]] + rest[0]] + rest[1..]
  }

  /** The pieces joined back with the separator between them. */
  function Join(pieces: seq<string>, sep: char): string
    requires |pieces| >= 1
    decreases |pieces|
  {
    if |pieces| == 1 then pieces[0] else pieces[0] + [sep] + Join(pieces[1..], sep)
  }

  /** Splitting loses nothing: joining the pieces gives the string back. */
  lemma {:induction false} SplitJoin(s: string, sep: char)
    ensures Join(Split(s, sep), sep) == s
    decreases |s|
  {
    if s != [] {
      SplitJoin(s[1..], sep);
      var rest := Split(s[1..], sep);
      if s[0] == sep {
        assert ([""] + rest)[1..] == rest;
        assert s == [sep] + s[1..];
      } else {
        var r := [[s[0]] + rest[0]] + rest[1..];
        if |rest| == 1 {
          assert s == [s[0]] + s[1..];
        } else {
          assert r[1..] == rest[1..];
          assert Join(rest, sep) == rest[0] + [sep] + Join(rest[1..], sep);
          assert s == [s[0]] + s[1..];
        }
      }
    }
  }
}

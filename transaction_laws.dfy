/**
 * Laws of `compose` and `invert` on the transaction model: lengths, the effect on a
 * document, and when `compose` reaches its `unreachable!` arm.
 */
module TransactionLaws {
  import opened Base
  import opened Transactions
  import Selection

  // ---------------------------------------------------------------------------
  // One turn of `compose`

  lemma {:induction false} ConsParts(op: Operation, rest: seq<Operation>)
    ensures ([op] + rest)[0] == op && ([op] + rest)[1..] == rest
    ensures InLen([op] + rest) == OpIn(op) + InLen(rest) && OutLen([op] + rest) == OpOut(op) + OutLen(rest)
    ensures NoNoops([op] + rest) <==> !IsNoop(op) && NoNoops(rest)
  {
    assert ([op] + rest)[0] == op && ([op] + rest)[1..] == rest;
    if NoNoops([op] + rest) {
      forall k | 0 <= k < |rest| ensures !IsNoop(rest[k]) {
        assert rest[k] == ([op] + rest)[k + 1];
      }
    }
  }

  lemma {:induction false} ConsSeq(op: Operation, rest: seq<Operation>)
    ensures ([op] + rest)[0] == op && ([op] + rest)[1..] == rest
    ensures InLen([op] + rest) == OpIn(op) + InLen(rest) && OutLen([op] + rest) == OpOut(op) + OutLen(rest)
  {
    assert ([op] + rest)[0] == op && ([op] + rest)[1..] == rest;
  }

  lemma {:induction false} HeadParts(s: seq<Operation>)
    requires s != []
    ensures s == [s[0]] + s[1..]
  {
  }

  /** The lengths the turn on the leading operations `x` and `y` keeps, given the rests `ra` and `rb`. */
  predicate KeepsLens(x: Operation, y: Operation, ra: seq<Operation>, rb: seq<Operation>, t: Turn)
  {
    && OpIn(x) + InLen(ra) == EmitIn(t.emit) + InLen(t.a)
    && OpOut(y) + OutLen(rb) == EmitOut(t.emit) + OutLen(t.b)
    && OpOut(x) + OutLen(ra) - OpIn(y) - InLen(rb) == OutLen(t.a) - InLen(t.b)
    && (!IsNoop(x) && !IsNoop(y) && NoNoops(ra) && NoNoops(rb) ==> NoNoops(t.a) && NoNoops(t.b))
  }

  lemma {:induction false} RetainRetainLens(i: nat, j: nat, ra: seq<Operation>, rb: seq<Operation>)
    ensures KeepsLens(Retain(i), Retain(j), ra, rb, TurnRetainRetain(i, j, ra, rb).value)
  {
    if i < j { ConsParts(Retain(j - i), rb); } else if i > j { ConsParts(Retain(i - j), ra); }
  }

  lemma {:induction false} InsertDeleteLens(s: seq<Byte>, j: nat, ra: seq<Operation>, rb: seq<Operation>)
    ensures KeepsLens(Insert(s), Delete(j), ra, rb, TurnInsertDelete(s, j, ra, rb).value)
  {
    if |s| < j { ConsParts(Delete(j - |s|), rb); } else if |s| > j { ConsParts(Insert(s[j..]), ra); }
  }

  lemma {:induction false} InsertRetainLens(s: seq<Byte>, j: nat, ra: seq<Operation>, rb: seq<Operation>)
    ensures KeepsLens(Insert(s), Retain(j), ra, rb, TurnInsertRetain(s, j, ra, rb).value)
  {
    if |s| < j { ConsParts(Retain(j - |s|), rb); } else if |s| > j { ConsParts(Insert(s[j..]), ra); }
  }

  lemma {:induction false} RetainDeleteLens(i: nat, j: nat, ra: seq<Operation>, rb: seq<Operation>)
    ensures KeepsLens(Retain(i), Delete(j), ra, rb, TurnRetainDelete(i, j, ra, rb).value)
  {
    if i < j { ConsParts(Delete(j - i), rb); } else if i > j { ConsParts(Retain(i - j), ra); }
  }

  /** The lengths a turn `t` of `a` against `b` keeps. */
  predicate TurnKeeps(a: seq<Operation>, b: seq<Operation>, t: Turn)
  {
    && InLen(a) == EmitIn(t.emit) + InLen(t.a)
    && OutLen(b) == EmitOut(t.emit) + OutLen(t.b)
    && OutLen(a) - InLen(b) == OutLen(t.a) - InLen(t.b)
    && (NoNoops(a) && NoNoops(b) ==> NoNoops(t.a) && NoNoops(t.b))
  }

  /** One turn keeps the difference between what `a` produces and what `b` consumes. */
  lemma {:induction false} TurnLens(a: seq<Operation>, b: seq<Operation>)
    requires a != [] || b != []
    requires ComposeTurn(a, b).Some?
    ensures TurnKeeps(a, b, ComposeTurn(a, b).value)
  {
    var t := ComposeTurn(a, b).value;
    if a != [] && a[0].Delete? {
      HeadParts(a);
      ConsParts(a[0], a[1..]);
    } else if b != [] && b[0].Insert? {
      HeadParts(b);
      ConsParts(b[0], b[1..]);
    } else {
      var x, y, ra, rb := a[0], b[0], a[1..], b[1..];
      if x.Retain? && y.Retain? {
        RetainRetainLens(x.n, y.n, ra, rb);
      } else if x.Insert? && y.Delete? {
        InsertDeleteLens(x.s, y.n, ra, rb);
      } else if x.Insert? {
        InsertRetainLens(x.s, y.n, ra, rb);
      } else {
        RetainDeleteLens(x.n, y.n, ra, rb);
      }
      LensFromHeads(a, b, t);
    }
  }

  /** What the turn keeps of the leading operations and the rests, it keeps of the whole. */
  lemma {:induction false} LensFromHeads(a: seq<Operation>, b: seq<Operation>, t: Turn)
    requires a != [] && b != [] && KeepsLens(a[0], b[0], a[1..], b[1..], t)
    ensures TurnKeeps(a, b, t)
  {
    HeadParts(a);
    HeadParts(b);
    ConsParts(a[0], a[1..]);
    ConsParts(b[0], b[1..]);
  }

  // ---------------------------------------------------------------------------
  // The whole of `compose`

  /**
   * When `compose` finishes, the first transaction produced exactly what the second
   * consumes, and the result consumes what the first does and produces what the
   * second does.
   */
  lemma {:induction false} ComposeLens(a: seq<Operation>, b: seq<Operation>, acc: seq<Operation>)
    requires ComposeOps(a, b, acc).Some?
    ensures OutLen(a) == InLen(b)
    ensures InLen(ComposeOps(a, b, acc).value) == InLen(acc) + InLen(a)
    ensures OutLen(ComposeOps(a, b, acc).value) == OutLen(acc) + OutLen(b)
    decreases |a| + |b|
  {
    if a != [] || b != [] {
      var t := ComposeTurn(a, b).value;
      TurnLens(a, b);
      ComposeLens(t.a, t.b, Emit(acc, t.emit));
    }
  }

  /**
   * `compose` never reaches its `unreachable!` arm when neither transaction holds an
   * operation that does nothing and the first produces exactly what the second consumes.
   */
  lemma {:induction false} ComposeTotal(a: seq<Operation>, b: seq<Operation>, acc: seq<Operation>)
    requires NoNoops(a) && NoNoops(b) && OutLen(a) == InLen(b)
    ensures ComposeOps(a, b, acc).Some?
    decreases |a| + |b|
  {
    if a != [] || b != [] {
      if a != [] {
        assert InLen(a) == OpIn(a[0]) + InLen(a[1..]) && OutLen(a) == OpOut(a[0]) + OutLen(a[1..]);
        assert !IsNoop(a[0]);
      }
      if b != [] {
        assert InLen(b) == OpIn(b[0]) + InLen(b[1..]) && OutLen(b) == OpOut(b[0]) + OutLen(b[1..]);
        assert !IsNoop(b[0]);
      }
      assert ComposeTurn(a, b).Some?;
      var t := ComposeTurn(a, b).value;
      TurnLens(a, b);
      ComposeTotal(t.a, t.b, Emit(acc, t.emit));
    }
  }

  // ---------------------------------------------------------------------------
  // The effect of `compose` on a document

  lemma {:induction false} CatLeft<T>(p: seq<T>, z: seq<T>, j: nat)
    requires j <= |p|
    ensures (p + z)[..j] == p[..j] && (p + z)[j..] == p[j..] + z
  {
  }

  lemma {:induction false} CatRight<T>(p: seq<T>, z: seq<T>, j: nat)
    requires |p| <= j <= |p| + |z|
    ensures (p + z)[..j] == p + z[..j - |p|] && (p + z)[j..] == z[j - |p|..]
  {
  }

  lemma {:induction false} DropDrop<T>(x: seq<T>, j: nat, m: nat)
    requires j + m <= |x|
    ensures x[j..][m..] == x[j + m..] && x[j..][..m] == x[j..j + m] && x[..j + m][j..] == x[j..j + m]
  {
  }

  /** Appending one operation appends its effect on the bytes it consumes. */
  lemma {:induction false} AppendOne(acc: seq<Operation>, op: Operation, y: seq<Byte>)
    requires |y| == InLen(acc) + OpIn(op)
    ensures InLen(acc + [op]) == |y|
    ensures ApplyRest(acc + [op], y) == ApplyRest(acc, y[..InLen(acc)]) + OpEffect(op, y[InLen(acc)..])
  {
    var L := InLen(acc);
    ApplyAppend(acc, [op], y);
    assert [op] == [op] + [];
    ApplyCons(op, [], y[L..]);
    assert y[L..][..OpIn(op)] == y[L..];
  }

  /** Emitting an operation through its builder appends that operation's effect. */
  lemma {:induction false} EmitLaw(acc: seq<Operation>, e: Option<Operation>, y: seq<Byte>)
    requires |y| == InLen(acc) + EmitIn(e)
    ensures ApplyRest(Emit(acc, e), y) == ApplyRest(acc, y[..InLen(acc)]) + EmitEffect(e, y[InLen(acc)..])
  {
    if e.None? {
      assert y[..InLen(acc)] == y;
    } else {
      match e.value {
        case Retain(n) => PushRetainEffect(acc, n, y);
        case Delete(n) => PushDeleteEffect(acc, n, y);
        case Insert(s) => PushInsertEffect(acc, s, y);
      }
      AppendOne(acc, e.value, y);
    }
  }

  /** The effect of `b` after `a`, split at the turn on `(Retain(i), Retain(j))`. */
  lemma {:induction false} RetainRetainEffect(i: nat, j: nat, ra: seq<Operation>, rb: seq<Operation>, x: seq<Byte>)
    requires i + OutLen(ra) == j + InLen(rb) && |x| == i + InLen(ra)
    ensures var t := TurnRetainRetain(i, j, ra, rb).value; var k := EmitIn(t.emit);
      k <= |x| && ApplyRest([Retain(j)] + rb, ApplyRest([Retain(i)] + ra, x))
        == EmitEffect(t.emit, x[..k]) + ApplyRest(t.b, ApplyRest(t.a, x[k..]))
  {
    var z := ApplyRest(ra, x[i..]);
    TakeDrop(x, i);
    RetainHead(i, ra, x[..i], x[i..]);
    if i < j {
      RetainShorter(i, j, ra, rb, x, z);
    } else if i == j {
      RetainHead(i, rb, x[..i], z);
    } else {
      RetainLonger(i, j, ra, rb, x, z);
    }
  }

  lemma {:induction false} RetainShorter(i: nat, j: nat, ra: seq<Operation>, rb: seq<Operation>, x: seq<Byte>, z: seq<Byte>)
    requires i < j && |z| == j - i + InLen(rb) && |x| >= i
    ensures ApplyRest([Retain(j)] + rb, x[..i] + z) == x[..i] + ApplyRest([Retain(j - i)] + rb, z)
  {
    var p, z1, z2 := x[..i], z[..j - i], z[j - i..];
    TakeDrop(z, j - i);
    RetainHead(j - i, rb, z1, z2);
    Assoc(p, z1, z2);
    RetainHead(j, rb, p + z1, z2);
    Assoc(p, z1, ApplyRest(rb, z2));
  }

  lemma {:induction false} RetainLonger(i: nat, j: nat, ra: seq<Operation>, rb: seq<Operation>, x: seq<Byte>, z: seq<Byte>)
    requires j < i && |x| == i + InLen(ra) && z == ApplyRest(ra, x[i..]) && i + |z| == j + InLen(rb)
    ensures ApplyRest([Retain(j)] + rb, x[..i] + z) == x[..j] + ApplyRest(rb, ApplyRest([Retain(i - j)] + ra, x[j..]))
  {
    var p, q, w := x[..j], x[j..i], x[i..];
    Thirds(x, j, i);
    RetainHead(i - j, ra, q, w);
    Assoc(p, q, z);
    RetainHead(j, rb, p, q + z);
  }

  /** A retain of exactly `q` keeps `q` and applies the rest after it. */
  lemma {:induction false} RetainHead(n: nat, r: seq<Operation>, q: seq<Byte>, w: seq<Byte>)
    requires |q| == n && InLen(r) <= |w|
    ensures ApplyRest([Retain(n)] + r, q + w) == q + ApplyRest(r, w)
  {
    ApplyCons(Retain(n), r, q + w);
    assert (q + w)[..n] == q && (q + w)[n..] == w;
  }

  /** Cutting `x` at `j` and `i` into three pieces. */
  lemma {:induction false} Thirds<T>(x: seq<T>, j: nat, i: nat)
    requires j <= i <= |x|
    ensures x[..i] == x[..j] + x[j..i] && x[j..] == x[j..i] + x[i..] && x[..i][j..] == x[j..i]
  {
  }

  /** The effect of `b` after `a`, split at the turn on `(Insert(s), Delete(j))`. */
  lemma {:induction false} InsertDeleteEffect(s: seq<Byte>, j: nat, ra: seq<Operation>, rb: seq<Operation>, x: seq<Byte>)
    requires |s| + OutLen(ra) == j + InLen(rb) && |x| == InLen(ra)
    ensures var t := TurnInsertDelete(s, j, ra, rb).value;
      ApplyRest([Delete(j)] + rb, ApplyRest([Insert(s)] + ra, x)) == ApplyRest(t.b, ApplyRest(t.a, x))
  {
    var z := ApplyRest(ra, x);
    InsertHead(s, ra, x);
    if |s| <= j {
      RetainWithinDelete(|s|, j, rb, s, z);
    } else {
      DeleteWithin(j, rb, s, z);
      InsertHead(s[j..], ra, x);
    }
  }

  /** A delete shorter than `s` removes the start of `s` only. */
  lemma {:induction false} DeleteWithin(j: nat, rb: seq<Operation>, s: seq<Byte>, z: seq<Byte>)
    requires j <= |s| && InLen(rb) <= |s| - j + |z|
    ensures ApplyRest([Delete(j)] + rb, s + z) == ApplyRest(rb, s[j..] + z)
  {
    ApplyCons(Delete(j), rb, s + z);
    CatLeft(s, z, j);
  }

  /** The effect of `b` after `a`, split at the turn on `(Insert(s), Retain(j))`. */
  lemma {:induction false} InsertRetainEffect(s: seq<Byte>, j: nat, ra: seq<Operation>, rb: seq<Operation>, x: seq<Byte>)
    requires |s| + OutLen(ra) == j + InLen(rb) && |x| == InLen(ra)
    ensures var t := TurnInsertRetain(s, j, ra, rb).value;
      ApplyRest([Retain(j)] + rb, ApplyRest([Insert(s)] + ra, x)) == t.emit.value.s + ApplyRest(t.b, ApplyRest(t.a, x))
  {
    ApplyCons(Insert(s), ra, x);
    assert x[..0] == [] && x[0..] == x;
    var z := ApplyRest(ra, x);
    if |s| <= j {
      InsertWithinRetain(s, j, rb, z);
    } else {
      InsertBeyondRetain(s, j, ra, rb, x, z);
    }
  }

  lemma {:induction false} InsertWithinRetain(s: seq<Byte>, j: nat, rb: seq<Operation>, z: seq<Byte>)
    requires |s| <= j && |s| + |z| == j + InLen(rb)
    ensures ApplyRest([Retain(j)] + rb, s + z)
      == s + (if |s| < j then ApplyRest([Retain(j - |s|)] + rb, z) else ApplyRest(rb, z))
  {
    ApplyCons(Retain(j), rb, s + z);
    CatRight(s, z, j);
    if |s| < j {
      ApplyCons(Retain(j - |s|), rb, z);
    }
  }

  lemma {:induction false} InsertHead(s: seq<Byte>, ra: seq<Operation>, x: seq<Byte>)
    requires InLen(ra) <= |x|
    ensures ApplyRest([Insert(s)] + ra, x) == s + ApplyRest(ra, x)
  {
    ApplyCons(Insert(s), ra, x);
    assert x[..0] == [] && x[0..] == x;
  }

  lemma {:induction false} InsertBeyondRetain(s: seq<Byte>, j: nat, ra: seq<Operation>, rb: seq<Operation>, x: seq<Byte>, z: seq<Byte>)
    requires j < |s| && |x| == InLen(ra) && z == ApplyRest(ra, x) && |s| + |z| == j + InLen(rb)
    ensures ApplyRest([Retain(j)] + rb, s + z) == s[..j] + ApplyRest(rb, ApplyRest([Insert(s[j..])] + ra, x))
  {
    ApplyCons(Retain(j), rb, s + z);
    CatLeft(s, z, j);
    InsertHead(s[j..], ra, x);
  }

  /** The effect of `b` after `a`, split at the turn on `(Retain(i), Delete(j))`. */
  lemma {:induction false} RetainDeleteEffect(i: nat, j: nat, ra: seq<Operation>, rb: seq<Operation>, x: seq<Byte>)
    requires i + OutLen(ra) == j + InLen(rb) && |x| == i + InLen(ra)
    ensures var t := TurnRetainDelete(i, j, ra, rb).value; var k := EmitIn(t.emit);
      k <= |x| && ApplyRest([Delete(j)] + rb, ApplyRest([Retain(i)] + ra, x)) == ApplyRest(t.b, ApplyRest(t.a, x[k..]))
  {
    var z := ApplyRest(ra, x[i..]);
    TakeDrop(x, i);
    RetainHead(i, ra, x[..i], x[i..]);
    if i <= j {
      RetainWithinDelete(i, j, rb, x[..i], z);
    } else {
      RetainBeyondDelete(i, j, ra, rb, x, z);
    }
  }

  lemma {:induction false} RetainWithinDelete(i: nat, j: nat, rb: seq<Operation>, p: seq<Byte>, z: seq<Byte>)
    requires i <= j && |p| == i && i + |z| == j + InLen(rb)
    ensures ApplyRest([Delete(j)] + rb, p + z)
      == if i < j then ApplyRest([Delete(j - i)] + rb, z) else ApplyRest(rb, z)
  {
    ApplyCons(Delete(j), rb, p + z);
    CatRight(p, z, j);
    if i < j {
      ApplyCons(Delete(j - i), rb, z);
    }
  }

  lemma {:induction false} RetainBeyondDelete(i: nat, j: nat, ra: seq<Operation>, rb: seq<Operation>, x: seq<Byte>, z: seq<Byte>)
    requires j < i && |x| == i + InLen(ra) && z == ApplyRest(ra, x[i..]) && i + |z| == j + InLen(rb)
    ensures ApplyRest([Delete(j)] + rb, x[..i] + z) == ApplyRest(rb, ApplyRest([Retain(i - j)] + ra, x[j..]))
  {
    ApplyCons(Delete(j), rb, x[..i] + z);
    DeleteInsideRetain(i, j, ra, x, z);
    CatLeft(x[..i], z, j);
  }

  lemma {:induction false} DeleteInsideRetain(i: nat, j: nat, ra: seq<Operation>, x: seq<Byte>, z: seq<Byte>)
    requires j < i && |x| == i + InLen(ra) && z == ApplyRest(ra, x[i..])
    ensures ApplyRest([Retain(i - j)] + ra, x[j..]) == x[..i][j..] + z
  {
    Thirds(x, j, i);
    RetainHead(i - j, ra, x[j..i], x[i..]);
  }

  /** The effect of `b` after `a` when `a` starts with a delete, which passes through. */
  lemma {:induction false} DeleteFirstEffect(n: nat, ra: seq<Operation>, b: seq<Operation>, x: seq<Byte>)
    requires |x| == n + InLen(ra)
    ensures ApplyRest(b, ApplyRest([Delete(n)] + ra, x)) == ApplyRest(b, ApplyRest(ra, x[n..]))
  {
    ApplyCons(Delete(n), ra, x);
  }

  /** The effect of `b` after `a` when `b` starts with an insert, which passes through. */
  lemma {:induction false} InsertSecondEffect(a: seq<Operation>, s: seq<Byte>, rb: seq<Operation>, x: seq<Byte>)
    requires |x| == InLen(a) && OutLen(a) == InLen(rb)
    ensures ApplyRest([Insert(s)] + rb, ApplyRest(a, x)) == s + ApplyRest(rb, ApplyRest(a, x))
  {
    var y := ApplyRest(a, x);
    ApplyCons(Insert(s), rb, y);
    assert y[..0] == [] && y[0..] == y;
  }

  /** The effect of `b` after `a` on `x` is the turn's emitted effect followed by the effect of what stays pending. */
  predicate TurnSplits(a: seq<Operation>, b: seq<Operation>, x: seq<Byte>)
    requires a != [] || b != []
    requires ComposeTurn(a, b).Some?
  {
    var t := ComposeTurn(a, b).value;
    var k := EmitIn(t.emit);
    k <= |x| && ApplyRest(b, ApplyRest(a, x)) == EmitEffect(t.emit, x[..k]) + ApplyRest(t.b, ApplyRest(t.a, x[k..]))
  }

  /** One turn of `compose` splits the effect of the pending operations. */
  lemma {:induction false} TurnEffect(a: seq<Operation>, b: seq<Operation>, x: seq<Byte>)
    requires a != [] || b != []
    requires ComposeTurn(a, b).Some? && OutLen(a) == InLen(b) && |x| == InLen(a)
    ensures TurnSplits(a, b, x)
  {
    if a != [] && a[0].Delete? {
      DeleteFirstTurn(a, b, x);
    } else if b != [] && b[0].Insert? {
      InsertSecondTurn(a, b, x);
    } else {
      PairTurnEffect(a, b, x);
    }
  }

  lemma {:induction false} DeleteFirstTurn(a: seq<Operation>, b: seq<Operation>, x: seq<Byte>)
    requires a != [] && a[0].Delete? && |x| == InLen(a)
    ensures ComposeTurn(a, b).Some? && TurnSplits(a, b, x)
  {
    HeadParts(a);
    DeleteFirstEffect(a[0].n, a[1..], b, x);
  }

  lemma {:induction false} InsertSecondTurn(a: seq<Operation>, b: seq<Operation>, x: seq<Byte>)
    requires !(a != [] && a[0].Delete?) && b != [] && b[0].Insert?
    requires OutLen(a) == InLen(b) && |x| == InLen(a)
    ensures ComposeTurn(a, b).Some? && TurnSplits(a, b, x)
  {
    HeadParts(b);
    InsertSecondEffect(a, b[0].s, b[1..], x);
    assert x[..0] == [] && x[0..] == x;
  }

  lemma {:induction false} PairTurnEffect(a: seq<Operation>, b: seq<Operation>, x: seq<Byte>)
    requires a != [] && b != [] && !a[0].Delete? && !b[0].Insert?
    requires OutLen(a) == InLen(b) && |x| == InLen(a)
    ensures ComposeTurn(a, b).Some? && TurnSplits(a, b, x)
  {
    HeadParts(a);
    HeadParts(b);
    var ra, rb := a[1..], b[1..];
    if a[0].Retain? && b[0].Retain? {
      PairRetainRetain(a[0].n, b[0].n, ra, rb, x);
    } else if a[0].Insert? && b[0].Delete? {
      PairInsertDelete(a[0].s, b[0].n, ra, rb, x);
    } else if a[0].Insert? {
      PairInsertRetain(a[0].s, b[0].n, ra, rb, x);
    } else {
      PairRetainDelete(a[0].n, b[0].n, ra, rb, x);
    }
  }

  /** The turn on `(x0, y0)` with neither a leading delete of `a` nor a leading insert of `b`. */
  lemma {:induction false} PairTurn(x0: Operation, y0: Operation, ra: seq<Operation>, rb: seq<Operation>)
    requires !x0.Delete? && !y0.Insert?
    ensures ComposeTurn([x0] + ra, [y0] + rb) ==
      if x0.Retain? && y0.Retain? then TurnRetainRetain(x0.n, y0.n, ra, rb)
      else if x0.Insert? && y0.Delete? then TurnInsertDelete(x0.s, y0.n, ra, rb)
      else if x0.Insert? then TurnInsertRetain(x0.s, y0.n, ra, rb)
      else TurnRetainDelete(x0.n, y0.n, ra, rb)
  {
    ConsSeq(x0, ra);
    ConsSeq(y0, rb);
  }

  lemma {:induction false} PairRetainRetain(i: nat, j: nat, ra: seq<Operation>, rb: seq<Operation>, x: seq<Byte>)
    requires i + OutLen(ra) == j + InLen(rb) && |x| == i + InLen(ra)
    ensures var t := ComposeTurn([Retain(i)] + ra, [Retain(j)] + rb).value; var k := EmitIn(t.emit);
      k <= |x| && ApplyRest([Retain(j)] + rb, ApplyRest([Retain(i)] + ra, x)) == EmitEffect(t.emit, x[..k]) + ApplyRest(t.b, ApplyRest(t.a, x[k..]))
  {
    PairTurn(Retain(i), Retain(j), ra, rb);
    RetainRetainEffect(i, j, ra, rb, x);
  }

  lemma {:induction false} PairInsertDelete(s: seq<Byte>, j: nat, ra: seq<Operation>, rb: seq<Operation>, x: seq<Byte>)
    requires |s| + OutLen(ra) == j + InLen(rb) && |x| == InLen(ra)
    ensures var t := ComposeTurn([Insert(s)] + ra, [Delete(j)] + rb).value; var k := EmitIn(t.emit);
      k <= |x| && ApplyRest([Delete(j)] + rb, ApplyRest([Insert(s)] + ra, x)) == EmitEffect(t.emit, x[..k]) + ApplyRest(t.b, ApplyRest(t.a, x[k..]))
  {
    PairTurn(Insert(s), Delete(j), ra, rb);
    InsertDeleteEffect(s, j, ra, rb, x);
    assert x[0..] == x;
  }

  lemma {:induction false} PairInsertRetain(s: seq<Byte>, j: nat, ra: seq<Operation>, rb: seq<Operation>, x: seq<Byte>)
    requires |s| + OutLen(ra) == j + InLen(rb) && |x| == InLen(ra)
    ensures var t := ComposeTurn([Insert(s)] + ra, [Retain(j)] + rb).value; var k := EmitIn(t.emit);
      k <= |x| && ApplyRest([Retain(j)] + rb, ApplyRest([Insert(s)] + ra, x)) == EmitEffect(t.emit, x[..k]) + ApplyRest(t.b, ApplyRest(t.a, x[k..]))
  {
    PairTurn(Insert(s), Retain(j), ra, rb);
    InsertRetainEffect(s, j, ra, rb, x);
    assert x[0..] == x;
  }

  lemma {:induction false} PairRetainDelete(i: nat, j: nat, ra: seq<Operation>, rb: seq<Operation>, x: seq<Byte>)
    requires i + OutLen(ra) == j + InLen(rb) && |x| == i + InLen(ra)
    ensures var t := ComposeTurn([Retain(i)] + ra, [Delete(j)] + rb).value; var k := EmitIn(t.emit);
      k <= |x| && ApplyRest([Delete(j)] + rb, ApplyRest([Retain(i)] + ra, x)) == EmitEffect(t.emit, x[..k]) + ApplyRest(t.b, ApplyRest(t.a, x[k..]))
  {
    PairTurn(Retain(i), Delete(j), ra, rb);
    RetainDeleteEffect(i, j, ra, rb, x);
  }

  lemma {:induction false} Slices3<T>(d: seq<T>, l: nat, k: nat)
    requires l + k <= |d|
    ensures d[..l + k][..l] == d[..l] && d[..l + k][l..] == d[l..][..k] && d[l..][k..] == d[l + k..]
  {
  }

  /**
   * `compose` is correct: what it builds rewrites a document as `acc` does on its
   * part, followed by `a` and then `b` on the rest.
   */
  lemma {:induction false} ComposeEffect(a: seq<Operation>, b: seq<Operation>, acc: seq<Operation>, d: seq<Byte>)
    requires ComposeOps(a, b, acc).Some? && |d| == InLen(acc) + InLen(a)
    ensures OutLen(a) == InLen(b)
    ensures ApplyRest(ComposeOps(a, b, acc).value, d)
      == ApplyRest(acc, d[..InLen(acc)]) + ApplyRest(b, ApplyRest(a, d[InLen(acc)..]))
    decreases |a| + |b|
  {
    ComposeLens(a, b, acc);
    var L := InLen(acc);
    if a == [] && b == [] {
      assert d[..L] == d && d[L..] == [];
    } else {
      var t := ComposeTurn(a, b).value;
      var acc' := Emit(acc, t.emit);
      TurnLens(a, b);
      assert ComposeOps(a, b, acc) == ComposeOps(t.a, t.b, acc');
      ComposeEffect(t.a, t.b, acc', d);
      TurnEffect(a, b, d[L..]);
      ComposeRegroup(acc, t.emit, t.a, t.b, d, ApplyRest(b, ApplyRest(a, d[L..])));
    }
  }

  /** One turn of `compose`, regrouped: the emitted operation joins `acc` on the left and the turn's effect on the right. */
  lemma {:induction false} ComposeRegroup(acc: seq<Operation>, e: Option<Operation>, ta: seq<Operation>, tb: seq<Operation>, d: seq<Byte>, whole: seq<Byte>)
    requires InLen(acc) + EmitIn(e) + InLen(ta) == |d|
    requires whole == EmitEffect(e, d[InLen(acc)..][..EmitIn(e)]) + ApplyRest(tb, ApplyRest(ta, d[InLen(acc)..][EmitIn(e)..]))
    ensures ApplyRest(Emit(acc, e), d[..InLen(Emit(acc, e))]) + ApplyRest(tb, ApplyRest(ta, d[InLen(Emit(acc, e))..]))
      == ApplyRest(acc, d[..InLen(acc)]) + whole
  {
    var L, k := InLen(acc), EmitIn(e);
    Slices3(d, L, k);
    EmitLaw(acc, e, d[..L + k]);
    Assoc(ApplyRest(acc, d[..L]), EmitEffect(e, d[L..][..k]), ApplyRest(tb, ApplyRest(ta, d[L + k..])));
  }

  /** The builders keep the canonical form, so `compose` does too. */
  lemma {:induction false} EmitCanonical(acc: seq<Operation>, e: Option<Operation>)
    requires Canonical(acc)
    ensures Canonical(Emit(acc, e))
  {
    if e.Some? {
      match e.value
      case Insert(s) => PushInsertCanonical(acc, s);
      case Delete(n) => PushDeleteCanonical(acc, n);
      case Retain(n) => PushRetainCanonical(acc, n);
    }
  }

  /** What `compose` builds from a canonical start is canonical. */
  lemma {:induction false} ComposeCanonical(a: seq<Operation>, b: seq<Operation>, acc: seq<Operation>)
    requires ComposeOps(a, b, acc).Some? && Canonical(acc)
    ensures Canonical(ComposeOps(a, b, acc).value)
    decreases |a| + |b|
  {
    if a != [] || b != [] {
      var t := ComposeTurn(a, b).value;
      EmitCanonical(acc, t.emit);
      ComposeCanonical(t.a, t.b, Emit(acc, t.emit));
    }
  }

  /** Applying `o`'s document, when there is one, with `ops`. */
  function Then(o: Option<seq<Byte>>, ops: seq<Operation>): Option<seq<Byte>>
  {
    if o.Some? then ApplyAt(ops, o.value, 0) else None
  }

  /** `apply` from the start of a document that holds what the operations consume. */
  lemma {:induction false} ApplyFromStart(ops: seq<Operation>, d: seq<Byte>)
    requires InLen(ops) <= |d|
    ensures ApplyAt(ops, d, 0) == Some(ApplyRest(ops, d))
  {
    ApplyAtRest(ops, d, 0);
    assert d[..0] == [] && d[0..] == d;
    assert d[..0] + ApplyRest(ops, d) == ApplyRest(ops, d);
  }

  /** `ComposeEffect` from an empty start, on a document with bytes past what `a` consumes. */
  lemma {:induction false} ComposeOpsEffect(a: seq<Operation>, b: seq<Operation>, d: seq<Byte>)
    requires ComposeOps(a, b, []).Some? && InLen(a) <= |d|
    ensures InLen(ComposeOps(a, b, []).value) == InLen(a) && InLen(b) <= |ApplyRest(a, d)|
    ensures ApplyRest(ComposeOps(a, b, []).value, d) == ApplyRest(b, ApplyRest(a, d))
  {
    var z := ComposeOps(a, b, []).value;
    ComposeLens(a, b, []);
    var L := InLen(a);
    var x, y := d[..L], d[L..];
    assert d == x + y;
    ComposeFromEmpty(a, b, x);
    ComposeTail(a, b, z, x, y);
  }

  /** `ComposeEffect` with nothing emitted yet, on exactly what `a` consumes. */
  lemma {:induction false} ComposeFromEmpty(a: seq<Operation>, b: seq<Operation>, x: seq<Byte>)
    requires ComposeOps(a, b, []).Some? && |x| == InLen(a)
    ensures ApplyRest(ComposeOps(a, b, []).value, x) == ApplyRest(b, ApplyRest(a, x))
  {
    ComposeEffect(a, b, [], x);
    assert x[..0] == [] && x[0..] == x;
  }

  /** Bytes past what both sides consume pass through unchanged on both sides. */
  lemma {:induction false} ComposeTail(a: seq<Operation>, b: seq<Operation>, z: seq<Operation>, x: seq<Byte>, y: seq<Byte>)
    requires InLen(a) == |x| && InLen(z) == |x| && InLen(b) <= |ApplyRest(a, x)|
    requires ApplyRest(z, x) == ApplyRest(b, ApplyRest(a, x))
    ensures ApplyRest(z, x + y) == ApplyRest(b, ApplyRest(a, x + y))
  {
    ApplyTail(a, x, y);
    ApplyTail(z, x, y);
    ApplyTail(b, ApplyRest(a, x), y);
  }

  /**
   * Applying the composition of `x` and `y` to a document `d` that holds what `x`
   * consumes is applying `x` and then `y`; the composition carries `y`'s selection
   * unless `y` is empty.
   */
  lemma {:induction false} ComposedApply(x: Transaction, y: Transaction, d: seq<Byte>)
    requires Composed(x, y).Some? && InLen(x.operations) <= |d|
    ensures ApplyAt(Composed(x, y).value.operations, d, 0) == Then(ApplyAt(x.operations, d, 0), y.operations)
    ensures y.operations != [] ==> Composed(x, y).value.selection == y.selection
  {
    var a, b := x.operations, y.operations;
    if a == [] {
    } else if b == [] {
      ApplyFromStart(a, d);
    } else {
      var z := ComposeOps(a, b, []).value;
      ComposeOpsEffect(a, b, d);
      ApplyFromStart(a, d);
      ApplyFromStart(z, d);
      ApplyFromStart(b, ApplyRest(a, d));
    }
  }

  // ---------------------------------------------------------------------------
  // invert

  lemma {:induction false} InvertTotal(ops: seq<Operation>, orig: seq<Byte>, offset: nat, acc: seq<Operation>)
    requires offset + InLen(ops) <= |orig|
    ensures InvertOps(ops, orig, offset, acc).Some?
    decreases |ops|
  {
    if ops != [] {
      match ops[0]
      case Retain(n) => InvertTotal(ops[1..], orig, offset + n, PushRetain(acc, n));
      case Delete(n) => InvertTotal(ops[1..], orig, offset + n, PushInsert(acc, orig[offset..offset + n]));
      case Insert(s) => InvertTotal(ops[1..], orig, offset, PushDelete(acc, |s|));
    }
  }

  /** Each operation pushed in turn through its builder onto `acc`. */
  function Build(acc: seq<Operation>, l: seq<Operation>): (r: seq<Operation>)
    ensures InLen(r) == InLen(acc) + InLen(l) && OutLen(r) == OutLen(acc) + OutLen(l)
    decreases |l|
  {
    if l == [] then acc else Build(Emit(acc, Some(l[0])), l[1..])
  }

  /** A builder has the effect of appending its operation. */
  lemma {:induction false} EmitOpEffect(acc: seq<Operation>, x: Operation, d: seq<Byte>)
    requires InLen(acc) + OpIn(x) <= |d|
    ensures InLen(acc + [x]) == InLen(acc) + OpIn(x)
    ensures ApplyRest(Emit(acc, Some(x)), d) == ApplyRest(acc + [x], d)
  {
    match x
    case Retain(n) => PushRetainEffect(acc, n, d);
    case Delete(n) => PushDeleteEffect(acc, n, d);
    case Insert(s) => PushInsertEffect(acc, s, d);
  }

  /** Building with the builders has the effect of plain concatenation. */
  lemma {:induction false} BuildEffect(acc: seq<Operation>, l: seq<Operation>, d: seq<Byte>)
    requires InLen(acc) + InLen(l) <= |d|
    ensures ApplyRest(Build(acc, l), d) == ApplyRest(acc + l, d)
    decreases |l|
  {
    if l == [] {
      assert acc + l == acc;
    } else {
      var acc' := Emit(acc, Some(l[0]));
      assert InLen(l) == OpIn(l[0]) + InLen(l[1..]);
      BuildEffect(acc', l[1..], d);
      BuildStep(acc, l, d);
    }
  }

  lemma {:induction false} BuildStep(acc: seq<Operation>, l: seq<Operation>, d: seq<Byte>)
    requires l != [] && InLen(acc) + InLen(l) <= |d|
    ensures ApplyRest(Emit(acc, Some(l[0])) + l[1..], d) == ApplyRest(acc + l, d)
  {
    var x, rest := l[0], l[1..];
    var acc' := Emit(acc, Some(x));
    assert InLen(l) == OpIn(x) + InLen(rest);
    ConsAppend(acc, l);
    var L := InLen(acc) + OpIn(x);
    EmitOpEffect(acc, x, d[..L]);
    ApplyAppend(acc', rest, d);
    ApplyAppend(acc + [x], rest, d);
  }

  lemma {:induction false} ConsAppend<T>(acc: seq<T>, l: seq<T>)
    requires l != []
    ensures acc + l == (acc + [l[0]]) + l[1..]
  {
  }

  lemma {:induction false} BuildCons(acc: seq<Operation>, x: Operation, t: seq<Operation>)
    ensures Build(acc, [x] + t) == Build(Emit(acc, Some(x)), t)
  {
    assert ([x] + t)[0] == x && ([x] + t)[1..] == t;
  }

  /**
   * The inverse of each operation on its own, with no joining: `invert` before its
   * builders, on the bytes `e` the operations consume from their start on.
   */
  function Reversal(ops: seq<Operation>, e: seq<Byte>): (r: seq<Operation>)
    requires InLen(ops) <= |e|
    ensures InLen(r) == OutLen(ops) && OutLen(r) == InLen(ops)
    decreases |ops|
  {
    if ops == [] then []
    else match ops[0]
      case Retain(n) => [Retain(n)] + Reversal(ops[1..], e[n..])
      case Delete(n) => [Insert(e[..n])] + Reversal(ops[1..], e[n..])
      case Insert(s) => [Delete(|s|)] + Reversal(ops[1..], e)
  }

  /** `invert` is the per-operation inverse pushed through the builders. */
  lemma {:induction false} InvertIsBuild(ops: seq<Operation>, orig: seq<Byte>, offset: nat, acc: seq<Operation>)
    requires offset + InLen(ops) <= |orig|
    ensures InvertOps(ops, orig, offset, acc) == Some(Build(acc, Reversal(ops, orig[offset..])))
    decreases |ops|, 1
  {
    if ops != [] {
      match ops[0]
      case Retain(n) => BuildRetain(ops, n, orig, offset, acc);
      case Delete(n) => BuildDelete(ops, n, orig, offset, acc);
      case Insert(s) => BuildInsert(ops, s, orig, offset, acc);
    }
  }

  lemma {:induction false} BuildRetain(ops: seq<Operation>, n: nat, orig: seq<Byte>, offset: nat, acc: seq<Operation>)
    requires ops != [] && ops[0] == Retain(n) && offset + InLen(ops) <= |orig|
    ensures InvertOps(ops, orig, offset, acc) == Some(Build(acc, Reversal(ops, orig[offset..])))
    decreases |ops|, 0
  {
    assert InLen(ops) == n + InLen(ops[1..]);
    InvertIsBuild(ops[1..], orig, offset + n, PushRetain(acc, n));
    DropDrop(orig, offset, n);
    var r' := Reversal(ops[1..], orig[offset + n..]);
    assert Reversal(ops, orig[offset..]) == [Retain(n)] + r';
    BuildCons(acc, Retain(n), r');
  }

  lemma {:induction false} BuildDelete(ops: seq<Operation>, n: nat, orig: seq<Byte>, offset: nat, acc: seq<Operation>)
    requires ops != [] && ops[0] == Delete(n) && offset + InLen(ops) <= |orig|
    ensures InvertOps(ops, orig, offset, acc) == Some(Build(acc, Reversal(ops, orig[offset..])))
    decreases |ops|, 0
  {
    assert InLen(ops) == n + InLen(ops[1..]);
    var text := orig[offset..offset + n];
    InvertIsBuild(ops[1..], orig, offset + n, PushInsert(acc, text));
    DropDrop(orig, offset, n);
    var r' := Reversal(ops[1..], orig[offset + n..]);
    assert Reversal(ops, orig[offset..]) == [Insert(text)] + r';
    BuildCons(acc, Insert(text), r');
  }

  lemma {:induction false} BuildInsert(ops: seq<Operation>, s: seq<Byte>, orig: seq<Byte>, offset: nat, acc: seq<Operation>)
    requires ops != [] && ops[0] == Insert(s) && offset + InLen(ops) <= |orig|
    ensures InvertOps(ops, orig, offset, acc) == Some(Build(acc, Reversal(ops, orig[offset..])))
    decreases |ops|, 0
  {
    assert InLen(ops) == InLen(ops[1..]);
    var r' := Reversal(ops[1..], orig[offset..]);
    InvertIsBuild(ops[1..], orig, offset, PushDelete(acc, |s|));
    assert Reversal(ops, orig[offset..]) == [Delete(|s|)] + r';
    BuildCons(acc, Delete(|s|), r');
  }

  /**
   * The per-operation inverse undoes the operations on the bytes they consume;
   * bytes past those pass through both unchanged.
   */
  lemma {:induction false} ReversalUndo(ops: seq<Operation>, e: seq<Byte>)
    requires InLen(ops) <= |e|
    ensures ApplyRest(Reversal(ops, e), ApplyRest(ops, e)) == e
    decreases |ops|
  {
    if ops == [] {
    } else {
      var rest := ops[1..];
      assert ops == [ops[0]] + rest;
      match ops[0]
      case Retain(n) =>
        assert InLen(ops) == n + InLen(rest);
        var e1, e2 := e[..n], e[n..];
        assert e == e1 + e2;
        ReversalUndo(rest, e2);
        UndoRetainStep(n, rest, Reversal(rest, e2), e1, e2);
      case Delete(n) =>
        assert InLen(ops) == n + InLen(rest);
        var e1, e2 := e[..n], e[n..];
        assert e == e1 + e2;
        ReversalUndo(rest, e2);
        UndoDeleteStep(n, rest, Reversal(rest, e2), e1, e2);
      case Insert(s) =>
        assert InLen(ops) == InLen(rest);
        ReversalUndo(rest, e);
        UndoInsertStep(s, rest, Reversal(rest, e), e);
    }
  }

  /** A retained head is retained back; the rest is undone by the rest. */
  lemma {:induction false} UndoRetainStep(n: nat, rest: seq<Operation>, r': seq<Operation>, e1: seq<Byte>, e2: seq<Byte>)
    requires |e1| == n && InLen(rest) <= |e2| && InLen(r') == OutLen(rest)
    requires ApplyRest(r', ApplyRest(rest, e2)) == e2
    ensures ApplyRest([Retain(n)] + r', ApplyRest([Retain(n)] + rest, e1 + e2)) == e1 + e2
  {
    var z := ApplyRest(rest, e2);
    ApplyCons(Retain(n), rest, e1 + e2);
    assert (e1 + e2)[..n] == e1 && (e1 + e2)[n..] == e2;
    ApplyCons(Retain(n), r', e1 + z);
    assert (e1 + z)[..n] == e1 && (e1 + z)[n..] == z;
  }

  /** A deleted head is inserted back; the rest is undone by the rest. */
  lemma {:induction false} UndoDeleteStep(n: nat, rest: seq<Operation>, r': seq<Operation>, e1: seq<Byte>, e2: seq<Byte>)
    requires |e1| == n && InLen(rest) <= |e2| && InLen(r') == OutLen(rest)
    requires ApplyRest(r', ApplyRest(rest, e2)) == e2
    ensures ApplyRest([Insert(e1)] + r', ApplyRest([Delete(n)] + rest, e1 + e2)) == e1 + e2
  {
    var z := ApplyRest(rest, e2);
    ApplyCons(Delete(n), rest, e1 + e2);
    assert (e1 + e2)[n..] == e2;
    InsertHead(e1, r', z);
  }

  /** An inserted head is deleted back; the rest is undone by the rest. */
  lemma {:induction false} UndoInsertStep(s: seq<Byte>, rest: seq<Operation>, r': seq<Operation>, e: seq<Byte>)
    requires InLen(rest) <= |e| && InLen(r') == OutLen(rest)
    requires ApplyRest(r', ApplyRest(rest, e)) == e
    ensures ApplyRest([Delete(|s|)] + r', ApplyRest([Insert(s)] + rest, e)) == e
  {
    var z := ApplyRest(rest, e);
    InsertHead(s, rest, e);
    ApplyCons(Delete(|s|), r', s + z);
    assert (s + z)[|s|..] == z;
  }

  /**
   * The inversion undoes the operations: applying them to a document that holds
   * what they consume and then applying the inversion gives the document back.
   */
  lemma {:induction false} InvertUndo(ops: seq<Operation>, d: seq<Byte>)
    requires InLen(ops) <= |d|
    ensures InvertOps(ops, d, 0, []).Some?
    ensures InLen(InvertOps(ops, d, 0, []).value) == OutLen(ops)
    ensures ApplyRest(InvertOps(ops, d, 0, []).value, ApplyRest(ops, d)) == d
  {
    assert d[0..] == d;
    InvertIsBuild(ops, d, 0, []);
    var r := Reversal(ops, d);
    ReversalUndo(ops, d);
    BuildEffect([], r, ApplyRest(ops, d));
    assert [] + r == r;
  }

  /**
   * `invert` against the state a transaction was applied to gives a transaction
   * that, applied to the result, restores the rope, and carries the state's selection.
   */
  lemma {:induction false} InvertedUndoes(t: Transaction, rope: seq<Byte>, selection: Selection.Selection)
    requires InLen(t.operations) <= |rope|
    ensures Inverted(t, rope, selection).Some?
    ensures Inverted(t, rope, selection).value.selection == selection
    ensures Then(ApplyAt(t.operations, rope, 0), Inverted(t, rope, selection).value.operations) == Some(rope)
  {
    var ops := t.operations;
    InvertUndo(ops, rope);
    var inv := InvertOps(ops, rope, 0, []).value;
    ApplyFromStart(ops, rope);
    ApplyFromStart(inv, ApplyRest(ops, rope));
  }

  /**
   * Inverting the inversion against the edited rope gives a transaction with the
   * same effect on the original rope as the transaction itself.
   */
  lemma {:induction false} DoubleInversion(ops: seq<Operation>, d: seq<Byte>)
    requires InLen(ops) <= |d|
    ensures InvertOps(ops, d, 0, []).Some?
    ensures var inv := InvertOps(ops, d, 0, []).value;
      InvertOps(inv, ApplyRest(ops, d), 0, []).Some? &&
      ApplyRest(InvertOps(inv, ApplyRest(ops, d), 0, []).value, d) == ApplyRest(ops, d)
  {
    InvertUndo(ops, d);
    var inv := InvertOps(ops, d, 0, []).value;
    var m := ApplyRest(ops, d);
    InvertUndo(inv, m);
  }
}

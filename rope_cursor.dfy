/**
 * The chunk cursor the regex engine walks over a rope: the rope's chunks
 * with the byte offset at which each starts.
 */
module RopeCursors {
  import opened Base

  /** The start offset of every chunk: the total length of the chunks before it. */
  function Offsets(chunks: seq<seq<Byte>>, start: nat): (r: seq<nat>)
    ensures |r| == |chunks|
    decreases |chunks|
  {
    if chunks == [] then [] else [start] + Offsets(chunks[1..], start + |chunks[0]|)
  }

  /** The total length of the chunks. */
  function TotalLen(chunks: seq<seq<Byte>>): nat
  {
    if chunks == [] then 0 else |chunks[0]| + TotalLen(chunks[1..])
  }

  lemma {:induction false} TotalLenAppend(a: seq<seq<Byte>>, b: seq<seq<Byte>>)
    ensures TotalLen(a + b) == TotalLen(a) + TotalLen(b)
    decreases |a|
  {
    if a == [] {
      assert a + b == b;
    } else {
      assert (a + b)[1..] == a[1..] + b;
      TotalLenAppend(a[1..], b);
    }
  }

  /** The offset of chunk `k` is the length of the chunks before it. */
  lemma {:induction false} OffsetIsPrefixLen(chunks: seq<seq<Byte>>, start: nat, k: nat)
    requires k < |chunks|
    ensures Offsets(chunks, start)[k] == start + TotalLen(chunks[..k])
    decreases k
  {
    if k > 0 {
      OffsetIsPrefixLen(chunks[1..], start + |chunks[0]|, k - 1);
      assert chunks[1..][..k - 1] == chunks[..k][1..];
    }
  }

  class RopeCursor {
    var slices: seq<(nat, seq<Byte>)>
    var totalSlices: nat
    var index: nat
    var totalBytes: nat
    /** The chunks of the rope. */
    ghost var chunks: seq<seq<Byte>>

    ghost predicate Valid()
      reads this
    {
      && |slices| == |chunks| == totalSlices
      && (forall k :: 0 <= k < |slices| ==> slices[k] == (Offsets(chunks, 0)[k], chunks[k]))
      && totalBytes == TotalLen(chunks)
      && (totalSlices == 0 ==> index == 0)
      && (totalSlices > 0 ==> index < totalSlices)
    }

    /** `new`: every chunk with its start offset, the cursor on the first chunk. */
    constructor (rope: seq<seq<Byte>>)
      ensures Valid() && chunks == rope && index == 0
    {
      var built: seq<(nat, seq<Byte>)> := [];
      var offset: nat := 0;
      var i := 0;
      while i < |rope|
        invariant i <= |rope| && |built| == i
        invariant offset == TotalLen(rope[..i])
        invariant forall k :: 0 <= k < i ==> built[k] == (Offsets(rope, 0)[k], rope[k])
      {
        OffsetIsPrefixLen(rope, 0, i);
        built := built + [(offset, rope[i])];
        TotalLenAppend(rope[..i], [rope[i]]);
        assert rope[..i + 1] == rope[..i] + [rope[i]];
        assert TotalLen([rope[i]]) == |rope[i]| + TotalLen([]);
        offset := offset + |rope[i]|;
        i := i + 1;
      }
      assert rope[..i] == rope;
      slices := built;
      totalSlices := |built|;
      index := 0;
      totalBytes := offset;
      chunks := rope;
    }

    /** `chunk`: the bytes of the current chunk (out of range on a rope without chunks). */
    function Chunk(): (r: seq<Byte>)
      requires Valid() && totalSlices > 0
      reads this
      ensures r == chunks[index]
    {
      slices[index].1
    }

    /** `offset`: where the current chunk starts, the length of the chunks before it. */
    function Offset(): (r: nat)
      requires Valid() && totalSlices > 0
      reads this
      ensures r == TotalLen(chunks[..index])
    {
      OffsetIsPrefixLen(chunks, 0, index);
      slices[index].0
    }

    /** `advance`: to the next chunk, unless already at the last one. */
    method Advance() returns (moved: bool)
      requires Valid()
      modifies this
      ensures Valid() && chunks == old(chunks)
      ensures moved <==> old(index) + 1 < totalSlices
      ensures index == if moved then old(index) + 1 else old(index)
    {
      if index == SatSub(totalSlices, 1) {
        return false;
      }
      index := index + 1;
      return true;
    }

    /** `backtrack`: to the previous chunk, unless already at the first one. */
    method Backtrack() returns (moved: bool)
      requires Valid()
      modifies this
      ensures Valid() && chunks == old(chunks)
      ensures moved <==> old(index) > 0
      ensures index == if moved then old(index) - 1 else old(index)
    {
      if index == 0 {
        return false;
      }
      index := index - 1;
      return true;
    }

    /** `total_bytes`: the length of the rope. */
    function TotalBytes(): (r: nat)
      requires Valid()
      reads this
      ensures r == TotalLen(chunks)
    {
      totalBytes
    }
  }
}

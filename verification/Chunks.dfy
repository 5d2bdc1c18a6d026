/** Cutting a byte string into records of a fixed size. */
module Chunks {

  /** The whole records at the front of `b`; a short tail is discarded. */
  function Chunk(b: seq<int>, size: nat): (r: seq<seq<int>>)
    requires size > 0
    ensures forall i :: 0 <= i < |r| ==> |r[i]| == size
    decreases |b|
  {
    if |b| < size then [] else [b[..size]] + Chunk(b[size..], size)
  }

  /** The short tail that `Chunk` discards. */
  function Tail(b: seq<int>, size: nat): (t: seq<int>)
    requires size > 0
    ensures |t| < size
    decreases |b|
  {
    if |b| < size then b else Tail(b[size..], size)
  }

  function Flatten(records: seq<seq<int>>): seq<int> {
    if records == [] then [] else records[0] + Flatten(records[1..])
  }

  lemma {:induction false} ChunkInverse(b: seq<int>, size: nat)
    requires size > 0
    ensures b == Flatten(Chunk(b, size)) + Tail(b, size)
    decreases |b|
  {
    if |b| >= size {
      ChunkInverse(b[size..], size);
      assert Chunk(b, size)[1..] == Chunk(b[size..], size);
      assert b == b[..size] + b[size..];
    }
  }

  lemma {:induction false} FlattenInverse(records: seq<seq<int>>, tail: seq<int>, size: nat)
    requires size > 0 && |tail| < size
    requires forall i :: 0 <= i < |records| ==> |records[i]| == size
    ensures Chunk(Flatten(records) + tail, size) == records
    ensures Tail(Flatten(records) + tail, size) == tail
    decreases |records|
  {
    var b := Flatten(records) + tail;
    if records != [] {
      assert b == records[0] + (Flatten(records[1..]) + tail);
      assert b[..size] == records[0] && b[size..] == Flatten(records[1..]) + tail;
      FlattenInverse(records[1..], tail, size);
    }
  }

  lemma {:induction false} FlattenAppend(a: seq<seq<int>>, b: seq<seq<int>>)
    ensures Flatten(a + b) == Flatten(a) + Flatten(b)
  {
    if a == [] {
      assert a + b == b;
    } else {
      FlattenAppend(a[1..], b);
      assert (a + b)[1..] == a[1..] + b;
    }
  }

  /** One more byte either lengthens the tail or completes a record. */
  lemma {:induction false} ChunkOneMore(b: seq<int>, x: int, size: nat)
    requires size > 0
    ensures var t := Tail(b, size) + [x];
            if |t| < size
            then Chunk(b + [x], size) == Chunk(b, size) && Tail(b + [x], size) == t
            else Chunk(b + [x], size) == Chunk(b, size) + [t] && Tail(b + [x], size) == []
    decreases |b|
  {
    if |b| >= size {
      ChunkOneMore(b[size..], x, size);
      assert (b + [x])[..size] == b[..size] && (b + [x])[size..] == b[size..] + [x];
    } else if |b| + 1 == size {
      assert (b + [x])[..size] == b + [x] && (b + [x])[size..] == [];
    }
  }

  lemma {:induction false} FlattenAt(records: seq<seq<int>>, size: nat, r: nat, k: nat)
    requires r < |records| && k < size
    requires forall i :: 0 <= i < |records| ==> |records[i]| == size
    ensures size * r + k < |Flatten(records)| && Flatten(records)[size * r + k] == records[r][k]
  {
    if r > 0 {
      assert size * r == size + size * (r - 1);
      FlattenAt(records[1..], size, r - 1, k);
    }
  }
}

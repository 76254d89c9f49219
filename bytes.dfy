/** Bytes and byte chunks, as read from files and sockets by the modelled code. */
module Bytes {

  newtype byte = x: int | 0 <= x < 256

  /** The bytes of a sequence of chunks, one after the other. */
  function Flatten(chunks: seq<seq<byte>>): (r: seq<byte>)
  {
    if chunks == [] then [] else Flatten(chunks[..|chunks| - 1]) + chunks[|chunks| - 1]
  }

  /** Flattening distributes over concatenation of chunk lists. */
  lemma {:induction false} FlattenAppend(a: seq<seq<byte>>, b: seq<seq<byte>>)
    ensures Flatten(a + b) == Flatten(a) + Flatten(b)
    decreases |b|
  {
    if b == [] {
      assert a + b == a;
    } else {
      var init, x := b[..|b| - 1], b[|b| - 1];
      FlattenAppend(a, init);
      assert b == init + [x];
      assert a + b == (a + init) + [x];
      FlattenSnoc(a + init, x);
      FlattenSnoc(init, x);
    }
  }

  /** Flattening a chunk followed by more chunks puts that chunk first. */
  lemma FlattenCons(x: seq<byte>, rest: seq<seq<byte>>)
    ensures Flatten([x] + rest) == x + Flatten(rest)
  {
    FlattenAppend([x], rest);
    assert [x][..0] == [];
  }

  /** Flattening one more chunk appends its bytes. */
  lemma FlattenSnoc(chunks: seq<seq<byte>>, x: seq<byte>)
    ensures Flatten(chunks + [x]) == Flatten(chunks) + x
  {
    assert (chunks + [x])[..|chunks|] == chunks;
  }
}

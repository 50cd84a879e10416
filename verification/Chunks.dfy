/**
 Data that arrives in chunks.
 */
module Chunks {
  import opened Bits

  function Flatten(chunks: seq<seq<Byte>>): seq<Byte>
  {
    if |chunks| == 0 then [] else chunks[0] + Flatten(chunks[1..])
  }

  lemma {:induction false} FlattenAppend(chunks: seq<seq<Byte>>, c: seq<Byte>)
    ensures Flatten(chunks + [c]) == Flatten(chunks) + c
  {
    if |chunks| == 0 {
      assert (chunks + [c])[1..] == [];
      assert Flatten([]) == [];
    } else {
      assert (chunks + [c])[1..] == chunks[1..] + [c];
      FlattenAppend(chunks[1..], c);
    }
  }

  lemma NoChunks()
    ensures Flatten([]) == []
  {
  }
}

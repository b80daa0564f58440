/** The salt cursor of src/lib.rs (`ByteSource`) and the `Salt::byte_source`
    constructor that starts one over a salt's bytes. */
module Cursor {
  import opened Keystream

  class ByteSource {
    var idx: nat
    const data: seq<bv8>
    /** Number of bytes delivered to callers so far. */
    ghost var Drawn: nat

    /** The cursor stands where `Drawn` draws from a fresh cursor leave it. */
    ghost predicate Valid()
      reads this
    {
      CanDraw(|data|, Drawn) && idx == IdxAfter(|data|, Drawn)
    }

    /** `next` neither indexes past the salt nor recurses without end: the cursor
        is inside the salt, or at its end with at least two bytes to wrap over. */
    predicate Ready()
      reads this
    {
      idx < |data| || (idx == |data| && 2 <= |data|)
    }

    /** `Salt::byte_source`: a fresh cursor over the salt's bytes. */
    constructor (salt: seq<bv8>)
      ensures data == salt && idx == 0 && Drawn == 0 && Valid()
    {
      data := salt;
      idx := 0;
      Drawn := 0;
    }

    /** A cursor that is valid and has a draw left is ready for it. */
    lemma ValidIsReady()
      requires Valid() && CanDraw(|data|, Drawn + 1)
      ensures Ready()
    {
    }

    /** `next`: at the end of the salt, reset to 0 and draw once, discarding the
        byte; then return the byte under the cursor and advance. */
    method Next() returns (b: bv8)
      requires Ready()
      modifies this
      decreases if idx == |data| then 1 else 0
      ensures b == data[ReadIndex(|data|, old(idx))]
      ensures idx == ReadIndex(|data|, old(idx)) + 1 && 1 <= idx <= |data|
      ensures Drawn == old(Drawn) + 1
      ensures old(Valid()) ==> Valid() && b == KeyByte(data, old(Drawn))
    {
      ghost var delivered := Drawn;
      if idx == |data| {
        idx := 0;
        var discarded := Next();
      }
      b := data[idx];
      idx := idx + 1;
      Drawn := delivered + 1;
      if old(Valid()) {
        DrawStep(|data|, delivered);
      }
    }

    /** `apply`: XOR a digit with the next salt byte reduced modulo 32. */
    method Apply(u: bv8) returns (r: bv8)
      requires Ready()
      modifies this
      ensures r == u ^ (data[ReadIndex(|data|, old(idx))] % 32)
      ensures idx == ReadIndex(|data|, old(idx)) + 1 && 1 <= idx <= |data|
      ensures Drawn == old(Drawn) + 1
      ensures u < 32 ==> r < 32
      ensures old(Valid()) ==> Valid() && r == u ^ Mask(data, old(Drawn))
    {
      var x := Next();
      r := u ^ (x % 32);
    }
  }
}

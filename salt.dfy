/** src/salt.rs: an older copy of the salt cursor, reached through the `Salt`
    newtype. Its `next` and `apply` behave exactly like those of src/lib.rs and
    are proved against the same keystream. */
module SaltCursor {
  import opened Keystream

  /** `Salt<T>`: a newtype around the salt's bytes. */
  datatype Salt = Salt(bytes: seq<bv8>)
  {
    /** `Salt::get`: a fresh cursor at index 0 over exactly the wrapped bytes. */
    method Get() returns (s: ByteSource)
      ensures fresh(s) && s.data == bytes && s.idx == 0 && s.Drawn == 0 && s.Valid()
    {
      s := new ByteSource(bytes);
    }
  }

  class ByteSource {
    var idx: nat
    const data: seq<bv8>
    /** Number of bytes delivered to callers so far. */
    ghost var Drawn: nat

    /** The cursor stands where `Drawn` draws from a fresh cursor leave it. */
    ghost predicate Valid()
      reads this
    {
      CanDraw(|data|, Drawn) && idx == IdxAfter(|data|, Drawn)
    }

    /** `next` neither indexes past the salt nor recurses without end. */
    predicate Ready()
      reads this
    {
      idx < |data| || (idx == |data| && 2 <= |data|)
    }

    /** The struct literal `ByteSource { idx: 0, data }`. */
    constructor (data: seq<bv8>)
      ensures this.data == data && idx == 0 && Drawn == 0 && Valid()
    {
      this.data := data;
      idx := 0;
      Drawn := 0;
    }

    /** A cursor that is valid and has a draw left is ready for it. */
    lemma ValidIsReady()
      requires Valid() && CanDraw(|data|, Drawn + 1)
      ensures Ready()
    {
    }

    method Next() returns (b: bv8)
      requires Ready()
      modifies this
      decreases if idx == |data| then 1 else 0
      ensures b == data[ReadIndex(|data|, old(idx))]
      ensures idx == ReadIndex(|data|, old(idx)) + 1 && 1 <= idx <= |data|
      ensures Drawn == old(Drawn) + 1
      ensures old(Valid()) ==> Valid() && b == KeyByte(data, old(Drawn))
    {
      ghost var delivered := Drawn;
      if idx == |data| {
        idx := 0;
        var discarded := Next();
      }
      b := data[idx];
      idx := idx + 1;
      Drawn := delivered + 1;
      if old(Valid()) {
        DrawStep(|data|, delivered);
      }
    }

    method Apply(u: bv8) returns (r: bv8)
      requires Ready()
      modifies this
      ensures r == u ^ (data[ReadIndex(|data|, old(idx))] % 32)
      ensures idx == ReadIndex(|data|, old(idx)) + 1 && 1 <= idx <= |data|
      ensures Drawn == old(Drawn) + 1
      ensures u < 32 ==> r < 32
      ensures old(Valid()) ==> Valid() && r == u ^ Mask(data, old(Drawn))
    {
      var x := Next();
      r := u ^ (x % 32);
    }
  }

  /** One lockstep round: the first cursor applies its next mask to u, the
      second applies its own next mask to the result. */
  method ApplyBoth(a: ByteSource, b: ByteSource, u: bv8) returns (s: bv8, t: bv8)
    requires a != b && a.Valid() && b.Valid() && a.data == b.data
    requires a.Drawn == b.Drawn && CanDraw(|a.data|, a.Drawn + 1)
    modifies a, b
    ensures a.Valid() && b.Valid() && a.Drawn == b.Drawn == old(a.Drawn) + 1
    ensures s == u ^ Mask(a.data, old(a.Drawn)) && t == u
  {
    a.ValidIsReady();
    b.ValidIsReady();
    s := a.Apply(u);
    t := b.Apply(s);
    MaskInvolution(a.data, old(a.Drawn), u);
  }

  /** Two cursors from one salt driven in lockstep: whatever the first `apply`
      does to a byte, the second undoes. */
  method Lockstep(salt: Salt, us: seq<bv8>) returns (shifted: seq<bv8>, restored: seq<bv8>)
    requires CanDraw(|salt.bytes|, |us|)
    ensures restored == us && |shifted| == |us|
    ensures forall i :: 0 <= i < |us| ==> shifted[i] == us[i] ^ Mask(salt.bytes, i)
  {
    var a := salt.Get();
    var b := salt.Get();
    shifted, restored := [], [];
    for i := 0 to |us|
      invariant a != b
      invariant a.Valid() && b.Valid() && a.data == b.data == salt.bytes
      invariant a.Drawn == b.Drawn == i && |shifted| == i
      invariant restored == us[..i]
      invariant forall j :: 0 <= j < i ==> shifted[j] == us[j] ^ Mask(salt.bytes, j)
    {
      var s, t := ApplyBoth(a, b, us[i]);
      assert us[..i + 1] == us[..i] + [us[i]];
      shifted, restored := shifted + [s], restored + [t];
    }
  }
}

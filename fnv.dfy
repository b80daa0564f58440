/** `fnv_hash` of src/lib.rs: 32-bit FNV-1a over the salt bytes followed by a
    fixed shift-and-add finishing mix. It is what seeds the alphabet shuffle.
    Rust's `u32` with `wrapping_mul`, `wrapping_add`, `<<` and `>>` is `bv32`,
    whose arithmetic wraps modulo 2^32 the same way. */
module Fnv {

  /** The FNV prime for 32 bits. */
  const P: bv32 := 16777619
  /** The FNV offset basis for 32 bits. */
  const SEED_HASH: bv32 := 2166136261

  /** One step of the fold: XOR in the byte, then multiply by the prime. */
  function Step(acc: bv32, b: bv8): bv32
  {
    (acc ^ (b as bv32)) * P
  }

  /** `bytes.iter().fold(acc, step)`, first byte first. */
  function Fold(acc: bv32, bytes: seq<bv8>): bv32
    decreases |bytes|
  {
    if bytes == [] then acc else Fold(Step(acc, bytes[0]), bytes[1..])
  }

  /** The finishing mix applied to the folded value. */
  function Finish(h: bv32): bv32
  {
    var h1 := h + (h << 13);
    var h2 := h1 ^ (h1 >> 7);
    var h3 := h2 + (h2 << 3);
    var h4 := h3 ^ (h3 >> 17);
    h4 + (h4 << 5)
  }

  /** `fnv_hash`: the finishing mix of the accumulator the bytes leave, one
      step per byte from the offset basis. */
  function FnvHash(bytes: seq<bv8>): (h: bv32)
    ensures h == Finish(Accumulated(bytes))
  {
    FoldAccumulated(bytes);
    Finish(Fold(SEED_HASH, bytes))
  }

  /** The accumulator as the fold describes it byte by byte: the offset
      basis for no bytes, and one more step for each appended byte. */
  function Accumulated(bytes: seq<bv8>): bv32
    decreases |bytes|
  {
    if bytes == [] then SEED_HASH
    else Step(Accumulated(bytes[..|bytes| - 1]), bytes[|bytes| - 1])
  }

  /** Folding a concatenation folds the second part from where the first left off. */
  lemma {:induction false} FoldAppend(acc: bv32, a: seq<bv8>, b: seq<bv8>)
    ensures Fold(acc, a + b) == Fold(Fold(acc, a), b)
    decreases |a|
  {
    if a != [] {
      assert (a + b)[0] == a[0];
      assert (a + b)[1..] == a[1..] + b;
      FoldAppend(Step(acc, a[0]), a[1..], b);
    } else {
      assert a + b == b;
    }
  }

  /** The left fold from the offset basis is the byte-by-byte accumulator. */
  lemma {:induction false} FoldAccumulated(bytes: seq<bv8>)
    ensures Fold(SEED_HASH, bytes) == Accumulated(bytes)
    decreases |bytes|
  {
    if bytes != [] {
      var init, last := bytes[..|bytes| - 1], bytes[|bytes| - 1];
      assert bytes == init + [last];
      FoldAccumulated(init);
      FoldAppend(SEED_HASH, init, [last]);
      assert Fold(Fold(SEED_HASH, init), [last]) == Step(Fold(SEED_HASH, init), last);
    }
  }

  /** Reference values: the empty input, "a" and "foobar" fold to the 32-bit
      FNV-1a values of the FNV test suite, and the mix maps them on. */
  lemma KnownValues()
    ensures Fold(SEED_HASH, []) == 0x811c9dc5 && FnvHash([]) == 0x5902879e
    ensures Fold(SEED_HASH, [0x61]) == 0xe40c292c && FnvHash([0x61]) == 0xd94aa0cf
    ensures Fold(SEED_HASH, [0x66, 0x6f, 0x6f, 0x62, 0x61, 0x72]) == 0xbf9cf968
    ensures FnvHash([0x66, 0x6f, 0x6f, 0x62, 0x61, 0x72]) == 0x950a6281
  {
  }

  /** Each step of the finishing mix loses no information: each has an explicit
      inverse. `h + (h << 13)` is h times 1 + 2^13, whose inverse modulo 2^32 is
      1 - 2^13 + 2^26. */
  lemma AddShl13Undone(h: bv32)
    ensures var y := h + (h << 13); y - (y << 13) + (y << 26) == h
  {
  }

  /** `h ^ (h >> 7)` is undone by folding the shifted copies back in. */
  lemma XorShr7Undone(h: bv32)
    ensures var y := h ^ (h >> 7); y ^ (y >> 7) ^ (y >> 14) ^ (y >> 21) ^ (y >> 28) == h
  {
  }

  /** `h + (h << 3)` is undone by the alternating sum of the powers 2^(3i) below 2^32. */
  lemma AddShl3Undone(h: bv32)
    ensures var y := h + (h << 3);
      y - (y << 3) + (y << 6) - (y << 9) + (y << 12) - (y << 15) + (y << 18)
        - (y << 21) + (y << 24) - (y << 27) + (y << 30) == h
  {
  }

  /** `h ^ (h >> 17)` is its own inverse: a second shift by 17 falls off the word. */
  lemma XorShr17Undone(h: bv32)
    ensures var y := h ^ (h >> 17); y ^ (y >> 17) == h
  {
  }

  /** `h + (h << 5)` is undone by the alternating sum of the powers 2^(5i) below 2^32. */
  lemma AddShl5Undone(h: bv32)
    ensures var y := h + (h << 5); y - (y << 5) + (y << 10) - (y << 15) + (y << 20) - (y << 25) + (y << 30) == h
  {
  }
}

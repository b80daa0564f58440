/** The byte stream a fresh salt cursor delivers, as a function of the draw
    number. A cursor first walks the salt from index 0 to the end; every later
    pass starts at index 1, because the wrap-around resets the cursor, makes a
    recursive draw whose byte is thrown away, and then reads the next index.
    With a salt of L >= 2 bytes the stream is therefore
      s[0], s[1], ..., s[L-1], s[1], ..., s[L-1], s[1], ...
    A one-byte salt yields one byte and then reads past its end; an empty salt
    recurses without end. */
module Keystream {
  import U64
  import opened Masks

  /** k draws from a fresh cursor over `len` salt bytes complete without
      reading past the end and without endless recursion. */
  predicate CanDraw(len: nat, k: nat)
  {
    k <= len || 2 <= len
  }

  /** Index of the salt byte that draw number k (counting from 0) of a fresh cursor returns. */
  function KeyIndex(len: nat, k: nat): (i: nat)
    requires CanDraw(len, k + 1)
    ensures i < len
  {
    if k < len then k else 1 + (k - len) % (len - 1)
  }

  /** Byte returned by draw number k of a fresh cursor over `data`. */
  function KeyByte(data: seq<bv8>, k: nat): bv8
    requires CanDraw(|data|, k + 1)
  {
    data[KeyIndex(|data|, k)]
  }

  /** The digit mask of draw k: `apply` XORs a digit with the byte reduced modulo 32. */
  function Mask(data: seq<bv8>, k: nat): (x: bv8)
    requires CanDraw(|data|, k + 1)
    ensures x < 32
  {
    KeyByte(data, k) % 32
  }

  /** The cursor's `idx` field after k draws from a fresh cursor. */
  function IdxAfter(len: nat, k: nat): (idx: nat)
    requires CanDraw(len, k)
    ensures idx <= len && (k >= 1 ==> 1 <= idx)
  {
    if k <= len then k else 2 + (k - 1 - len) % (len - 1)
  }

  /** Index that `next` reads when it finds the cursor at idx: at the end of the
      salt the reset and the discarded recursive draw leave the cursor at 1. */
  function ReadIndex(len: nat, idx: nat): nat
  {
    if idx == len then 1 else idx
  }

  lemma ModSucc(a: nat, m: nat)
    requires m >= 1
    ensures 0 <= a % m < m
    ensures (a + 1) % m == if a % m + 1 < m then a % m + 1 else 0
  {
    U64.DivModUnique(a, m, a / m, a % m);
    if a % m + 1 < m {
      U64.DivModUnique(a + 1, m, a / m, a % m + 1);
    } else {
      U64.DivModUnique(a + 1, m, a / m + 1, 0);
    }
  }

  /** One `next` step from the cursor state after k draws: it reads the byte of
      draw k and leaves the cursor in the state after k + 1 draws. */
  lemma DrawStep(len: nat, k: nat)
    requires CanDraw(len, k + 1)
    ensures ReadIndex(len, IdxAfter(len, k)) == KeyIndex(len, k)
    ensures IdxAfter(len, k + 1) == KeyIndex(len, k) + 1
  {
    if k > len {
      ModSucc(k - 1 - len, len - 1);
    }
  }

  /** On the first pass the stream is the salt itself. */
  lemma FirstPass(data: seq<bv8>, k: nat)
    requires k < |data|
    ensures KeyByte(data, k) == data[k]
  {
  }

  /** After the first pass the stream repeats with period L - 1, and the first
      salt byte never comes back. */
  lemma SteadyState(data: seq<bv8>, k: nat)
    requires 2 <= |data| <= k
    ensures 1 <= KeyIndex(|data|, k)
    ensures KeyByte(data, k + |data| - 1) == KeyByte(data, k)
  {
    var m := |data| - 1;
    U64.DivModUnique(k - |data|, m, (k - |data|) / m, (k - |data|) % m);
    U64.DivModUnique(k + m - |data|, m, (k - |data|) / m + 1, (k - |data|) % m);
  }

  /** The first wrap-around returns the second salt byte, not the first. */
  lemma FirstWrap(data: seq<bv8>)
    requires 2 <= |data|
    ensures KeyByte(data, |data|) == data[1]
    ensures IdxAfter(|data|, |data| + 1) == 2
  {
  }

  /** XOR with the same mask undoes itself: two cursors in lockstep over one salt
      invert each other's `apply`. */
  lemma MaskInvolution(data: seq<bv8>, k: nat, u: bv8)
    requires CanDraw(|data|, k + 1)
    ensures (u ^ Mask(data, k)) ^ Mask(data, k) == u
    ensures u < 32 ==> u ^ Mask(data, k) < 32
  {
  }

  /** Digit d masked by draw k, read as a table position: what `apply` makes
      of a digit. */
  function MaskDigit(data: seq<bv8>, k: nat, d: nat): (e: nat)
    requires d < 32 && CanDraw(|data|, k + 1)
    ensures e < 32
  {
    XorMask(Mask(data, k), d)
  }

  /** Masking a digit twice with the same draw gives it back. */
  lemma MaskDigitTwice(data: seq<bv8>, k: nat, d: nat)
    requires d < 32 && CanDraw(|data|, k + 1)
    ensures MaskDigit(data, k, MaskDigit(data, k, d)) == d
  {
    XorMaskTwice(Mask(data, k), d);
  }
}

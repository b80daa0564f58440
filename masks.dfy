/** The digit masking of `apply` on its own: XOR of a digit with a salt byte
    reduced modulo 32, and the trips between digits and bytes it needs. */
module Masks {

  /** A digit survives the trip to a byte and back. */
  lemma DigitRound(d: nat)
    requires d < 32
    ensures (d as bv8) as int == d
  {
  }

  /** A byte survives the trip to an integer and back. */
  lemma ByteRound(x: bv8)
    ensures (x as int) as bv8 == x
  {
  }

  /** XOR with m undoes itself. */
  lemma XorTwice(x: bv8, m: bv8)
    ensures (x ^ m) ^ m == x
  {
  }

  /** XOR of two digits is a digit. */
  lemma XorBelow32(x: bv8, m: bv8)
    requires x < 32 && m < 32
    ensures x ^ m < 32
  {
  }

  /** Digit d XORed with the mask m, as a digit. */
  function XorMask(m: bv8, d: nat): (e: nat)
    requires d < 32 && m < 32
    ensures e < 32
  {
    XorBelow32(d as bv8, m);
    ((d as bv8) ^ m) as int
  }

  /** A digit masked as a byte, read back as a table position and masked again
      is the digit. */
  lemma XorDigit(d: nat, m: bv8)
    requires d < 32 && m < 32
    ensures (d as bv8) ^ m < 32
    ensures ((((d as bv8) ^ m) as int) as bv8 ^ m) as int == d
  {
    var x := (d as bv8) ^ m;
    ByteRound(x);
    DigitRound(d);
    XorTwice(d as bv8, m);
    XorBelow32(d as bv8, m);
  }

  /** Masking a digit twice with the same mask gives it back. */
  lemma XorMaskTwice(m: bv8, d: nat)
    requires d < 32 && m < 32
    ensures XorMask(m, XorMask(m, d)) == d
  {
    var e := XorMask(m, d);
    XorDigit(d, m);
    assert e == ((d as bv8) ^ m) as int;
  }

  /** A digit masks to 0 exactly when it equals the mask. */
  lemma XorMaskZero(m: bv8, d: nat)
    requires d < 32 && m < 32
    ensures XorMask(m, d) == 0 <==> d == m as int
  {
    DigitRound(d);
    ByteRound(m);
    var x := (d as bv8) ^ m;
    assert x == 0 <==> d as bv8 == m;
  }
}

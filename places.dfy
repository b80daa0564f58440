/** The accumulator of `Weird::decode` (src/lib.rs). Each digit is multiplied by
    its place value with `wrapping_mul` and added with a plain `+=`. Only the
    first product can wrap (a leading digit of a 13-symbol input times 2^60);
    after it the running total is always a multiple of the current place and
    leaves room for one more place, so no later addition overflows. */
module Places {
  import opened U64

  /** x shifted up k base-32 places, one place at a time. */
  function Scale(x: int, k: nat): int
  {
    if k == 0 then x else 32 * Scale(x, k - 1)
  }

  /** Shifting up k places multiplies by 32^k. */
  lemma {:induction false} ScaleClosed(x: int, k: nat)
    ensures Scale(x, k) == x * Pow32(k)
  {
    if k > 0 {
      ScaleClosed(x, k - 1);
      assert x * Pow32(k) == 32 * (x * Pow32(k - 1));
    }
  }

  /** Place values and headroom when j digit places are left: 32^j places fill
      2^(64 - 5j) of them into 2^64. */
  lemma PlacePowers(j: nat)
    requires j <= 12
    ensures Pow2(64 - 5 * j) * Pow32(j) == TWO_64
    ensures Pow2(64 - 5 * j) >= 16
    ensures j >= 1 ==> Pow2(64 - 5 * (j - 1)) == 32 * Pow2(64 - 5 * j)
    ensures 1 <= Pow32(j) < TWO_64
  {
    Pow2Constants();
    Pow32IsPow2(j);
    Pow2Add(64 - 5 * j, 5 * j);
    Pow2Monotone(4, 64 - 5 * j);
    MulLe(16, Pow2(64 - 5 * j), Pow32(j));
    if j >= 1 {
      Pow2Add(5, 64 - 5 * j);
    }
  }

  /** Sixteen times the place of the leading digit of thirteen is 2^64: a
      leading digit of 16 or more no longer fits. */
  lemma TopPlace()
    ensures 16 * Pow32(12) == TWO_64
  {
    PlacePowers(12);
    Pow2Ten();
  }

  /** Taking 16 off a leading digit a >= 16 at place P, where 16 P is 2^64,
      takes 2^64 off the value, which is its truncation to 64 bits. */
  lemma WrapArith(a: int, r: int, P: int, v: int, v': int)
    requires 16 <= a < 32 && 0 <= r < P && 16 * P == TWO_64
    requires v == a * P + r && v' == (a - 16) * P + r
    ensures v' == v - TWO_64 && 0 <= v' < TWO_64
    ensures v % TWO_64 == v' && v' % TWO_64 == v'
  {
    assert (a - 16) * P == a * P - 16 * P;
    MulLe(a - 16, 15, P);
    DivModUnique(v, TWO_64, 1, v');
    DivModUnique(v', TWO_64, 0, v');
  }

  /** The place of a digit of a u64 fits in 64 bits. */
  lemma PlaceBound(j: nat)
    requires j <= 12
    ensures 1 <= Pow32(j) < TWO_64
  {
    PlacePowers(j);
  }

  /** Dividing the place for j digits by 32 gives the place below it, and 0
      below the last one. */
  lemma NextPlace(j: nat)
    requires j <= 12
    ensures 1 <= Pow32(j) < TWO_64
    ensures j >= 1 ==> Pow32(j) / 32 == Pow32(j - 1)
    ensures j == 0 ==> Pow32(j) / 32 == 0
  {
    PlacePowers(j);
    if j >= 1 {
      DivModUnique(Pow32(j), 32, Pow32(j - 1), 0);
    }
  }

  /** The first product: digit d times place P, wrapped to 64 bits, keeps d
      modulo E places (E * P == 2^64). */
  lemma FirstArith(d: int, P: int, E: int, W: int)
    requires 0 <= d < 32 && P >= 1 && E >= 1 && E * P == W
    ensures 0 <= d % E < E
    ensures (d * P) % W == (d % E) * P
  {
    DivModUnique(d, E, d / E, d % E);
    MulLe(d % E, E - 1, P);
    assert d * P == (d / E) * W + (d % E) * P;
    DivModUnique(d * P, W, d / E, (d % E) * P);
  }

  /** A later step: the total c * P with c < E and P == 32 * P1, plus digit d
      times the place P1, neither wraps nor overflows, and is the wrapped value
      of the digits read so far times the new place. */
  lemma StepArith(F: int, d: int, c: int, E: int, P: int, P1: int, W: int)
    requires 0 <= F && 0 <= d < 32 && P1 >= 1 && P == 32 * P1 && 0 <= c < E && E * P == W
    requires (F * P) % W == c * P
    ensures (d * P1) % W == d * P1
    ensures c * P + d * P1 == (32 * c + d) * P1
    ensures 0 <= (32 * c + d) * P1 < W
    ensures ((32 * F + d) * P1) % W == (32 * c + d) * P1
    ensures 32 * c + d < 32 * E
  {
    var t := c * P + d * P1;
    ScaleDigit(c, d, P, P1);
    ScaleDigit(F, d, P, P1);
    RoomForDigit(c, d, E, P, P1, W);
    var a := F * P;
    DivModUnique(a + d * P1, W, a / W, t);
    DivModUnique(d * P1, W, 0, d * P1);
  }

  /** Appending digit d to a total c at place P == 32 * P1. */
  lemma ScaleDigit(c: int, d: int, P: int, P1: int)
    requires P == 32 * P1
    ensures c * P + d * P1 == (32 * c + d) * P1
  {
  }

  /** A total below E places of P, plus a digit at the place below, stays
      below E * P. */
  lemma RoomForDigit(c: int, d: int, E: int, P: int, P1: int, W: int)
    requires 0 <= c < E && 0 <= d < 32 && P1 >= 1 && P == 32 * P1 && E * P == W
    ensures 0 <= d * P1 < P
    ensures 0 <= c * P + d * P1 < W
  {
    MulLe(0, d, P1);
    MulLe(d, 31, P1);
    MulLe(0, c, P);
    MulLe(c + 1, E, P);
    assert (c + 1) * P == c * P + P;
  }
}

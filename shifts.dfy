/** The register discipline of `Weird::encode_into` (src/lib.rs). After the
    set-up step the 64-bit register holds the m digits still to be written,
    left-aligned, followed by a single marker bit:
      x == F * 2^(64 - 5m) + 2^(60 - 5m)     where F < 32^m.
    Each round reads the top five bits and shifts them out; once every digit
    is gone the register is exactly the stop bit 2^60. */
module Shifts {
  import opened U64
  import opened Base32

  /** Register contents with `rest` (an m-digit value) still to be written:
      with twelve digits left it is rest followed by the marker bit four
      places below, and each digit fewer moves everything five places up. */
  function Register(rest: nat, m: nat): nat
    requires m <= 12
    decreases 12 - m
  {
    if m == 12 then 16 * rest + 1 else 32 * Register(rest, m + 1)
  }

  /** The register as a single sum: rest * 2^(64-5m) + 2^(60-5m). */
  lemma {:induction false} RegisterClosed(rest: nat, m: nat)
    requires m <= 12
    ensures Register(rest, m) == rest * Pow2(64 - 5 * m) + Pow2(60 - 5 * m)
    decreases 12 - m
  {
    if m == 12 {
      Pow2Ten();
    } else {
      RegisterClosed(rest, m + 1);
      Pow2Times32(64 - 5 * m, 64 - 5 * (m + 1));
      Pow2Times32(60 - 5 * m, 60 - 5 * (m + 1));
      ScaleSum(rest, Register(rest, m + 1), Pow2(64 - 5 * (m + 1)), Pow2(60 - 5 * (m + 1)),
               Pow2(64 - 5 * m), Pow2(60 - 5 * m));
    }
  }

  /** 32 (rest A + B) == rest (32 A) + 32 B. */
  lemma ScaleSum(rest: int, R: int, A: int, B: int, A': int, B': int)
    requires R == rest * A + B && A' == 32 * A && B' == 32 * B
    ensures 32 * R == rest * A' + B'
  {
  }

  /** Adding a value below the next multiple of a place keeps the quotient. */
  lemma SplitBelow(q: nat, p: nat, low: nat)
    requires p >= 1 && low < p
    ensures (q * p + low) / p == q && (q * p + low) % p == low
  {
    DivModUnique(q * p + low, p, q, low);
  }

  /** Four exponent steps multiply by 16. */
  lemma Pow2Times16(a: nat, b: nat)
    requires a == b + 4
    ensures Pow2(a) == 16 * Pow2(b)
  {
    Pow2Ten();
    Pow2Split(a, 4, b);
  }

  /** Five exponent steps multiply by 32. */
  lemma Pow2Times32(a: nat, b: nat)
    requires a == b + 5
    ensures Pow2(a) == 32 * Pow2(b)
  {
    Pow2Ten();
    Pow2Split(a, 5, b);
  }

  /** The m - 1 remaining places below the leading digit's and the register
      shift fill the 59 bits under the top five. */
  lemma PlacesFill(m: nat)
    requires 1 <= m <= 12
    ensures Pow32(m - 1) * Pow2(64 - 5 * m) == Pow2(59)
  {
    Pow32IsPow2(m - 1);
    Pow2Split(59, 5 * (m - 1), 64 - 5 * m);
  }

  /** A register x == (qR + r) P64 + P4 is q times 2^59 plus its tail. */
  lemma RegisterSplit(q: int, r: int, R: int, P64: int, P4: int, P59: int)
    requires R * P64 == P59
    ensures (q * R + r) * P64 + P4 == q * P59 + (r * P64 + P4)
  {
    assert (q * R + r) * P64 == q * (R * P64) + r * P64;
  }

  /** The tail of a register lies strictly between 0 and 2^59. */
  lemma TailBounds(r: int, R: int, P64: int, P4: int, P59: int)
    requires 0 <= r < R && P4 >= 1 && P64 == 16 * P4 && R * P64 == P59
    ensures 1 <= r * P64 + P4 < P59
  {
    MulLe(0, r, P64);
    MulLe(r, R - 1, P64);
  }

  /** q times 2^59 plus a non-zero tail: q is the quotient and the remainder
      is not zero. */
  lemma TopDigit(x: int, q: int, t: int, P59: int)
    requires 0 <= q < 32 && 1 <= t < P59 && x == q * P59 + t
    ensures x < 32 * P59 && x / P59 == q && x % P59 != 0
  {
    MulLe(q, 31, P59);
    DivModUnique(x, P59, q, t);
  }

  /** Shifting left by five drops q and keeps the tail. */
  lemma ShiftFive(x: int, q: int, t: int, W: int, P59: int)
    requires 0 <= q < 32 && 1 <= t < P59 && x == q * P59 + t && W == 32 * P59
    ensures (x * 32) % W == 32 * t
  {
    assert x * 32 == q * W + 32 * t;
    DivModUnique(x * 32, W, q, 32 * t);
  }

  /** The arithmetic of one round, with the powers of two as plain numbers:
      R == 32^(m-1), P64 == 2^(64-5m), P4 == 2^(60-5m), P59 == 2^59,
      P64n and P4n the powers for m - 1 digits, P5 == 2^5 and W == 2^64;
      x is the register before the round and y the one after it. */
  lemma RoundArith(q: int, r: int, R: int, P64: int, P4: int, P59: int, P64n: int, P4n: int, P5: int, W: int,
                   v: int, x: int, y: int)
    requires 0 <= q < 32 && 0 <= r < R && P4 >= 1
    requires P64 == 16 * P4 && R * P64 == P59 && W == 32 * P59
    requires P5 == 32 && P64n == 32 * P64 && P4n == 32 * P4
    requires v == q * R + r && x == v * P64 + P4 && y == r * P64n + P4n
    ensures 0 <= x < W && x / P59 == q && x % P59 != 0 && (x * P5) % W == y
  {
    RegisterSplit(q, r, R, P64, P4, P59);
    TailBounds(r, R, P64, P4, P59);
    var t := r * P64 + P4;
    TopDigit(x, q, t, P59);
    ShiftFive(x, q, t, W, P59);
    assert 32 * t == y by {
      assert 32 * (r * P64) == r * (32 * P64);
    }
  }

  /** One round of the loop: with m >= 1 digits left the register is not the
      stop bit, its top five bits are the leading digit q, and shifting left by
      five leaves the register for the remaining m - 1 digits. */
  lemma ShiftOutDigit(q: nat, r: nat, m: nat, v: nat)
    requires 1 <= m <= 12 && q < 32 && r < Pow32(m - 1) && v == q * Pow32(m - 1) + r
    ensures Register(v, m) < TWO_64
    ensures Register(v, m) != Pow2(60)
    ensures Shr(Register(v, m), 59) == q
    ensures Shl(Register(v, m), 5) == Register(r, m - 1)
  {
    var x, y := Register(v, m), Register(r, m - 1);
    RegisterClosed(v, m);
    RegisterClosed(r, m - 1);
    Pow2Times16(64 - 5 * m, 60 - 5 * m);
    PlacesFill(m);
    Pow2Times32(64 - 5 * (m - 1), 64 - 5 * m);
    Pow2Times32(60 - 5 * (m - 1), 60 - 5 * m);
    Pow2Ten();
    Pow2Sixty();
    RoundArith(q, r, Pow32(m - 1), Pow2(64 - 5 * m), Pow2(60 - 5 * m), Pow2(59),
               Pow2(64 - 5 * (m - 1)), Pow2(60 - 5 * (m - 1)), Pow2(5), TWO_64, v, x, y);
    ShlClosed(x, 5);
    ShrClosed(x, 59);
    DivModUnique(Pow2(60), Pow2(59), 2, 0);
  }

  /** With no digit left the register is the stop bit. */
  lemma EmptyRegister()
    ensures Register(0, 0) == Pow2(60)
  {
    RegisterClosed(0, 0);
  }

  /** k digit places and the register shift for k digits fill 64 bits. */
  lemma RegisterWidth(k: nat)
    requires k <= 12
    ensures Pow32(k) * Pow2(64 - 5 * k) == TWO_64
  {
    Pow32IsPow2(k);
    Pow2Split(64, 5 * k, 64 - 5 * k);
    Pow2SixtyFour();
  }

  /** The arithmetic of the final set-up shift, with Ps == 2^(60-5k),
      P64 == 2^(64-5k), Pk == 32^k and W == 2^64: it does not truncate. */
  lemma AlignArith(n: int, Ps: int, P64: int, Pk: int, W: int, x: int, y: int)
    requires 0 <= n < Pk && Ps >= 1 && P64 == 16 * Ps && Pk * P64 == W
    requires x == (n * 16 + 1) * Ps && y == n * P64 + Ps
    ensures x % W == y
  {
    assert x == y by {
      assert (n * 16 + 1) * Ps == n * (16 * Ps) + Ps;
    }
    assert 0 <= n * P64 <= W - P64 by {
      MulLe(0, n, P64);
      MulLe(n, Pk - 1, P64);
      assert (Pk - 1) * P64 == Pk * P64 - P64;
    }
    DivModUnique(y, W, 0, y);
  }

  /** `(n << 4) | 1` for a value of k digits lies between 2^(5k-1) and 2^(5k+4). */
  lemma AlignBounds(n: nat, k: nat)
    requires 1 <= k <= 12 && Pow32(k - 1) <= n < Pow32(k)
    ensures Pow2(5 * k - 1) <= n * 16 + 1 < Pow2(5 * k + 4) <= TWO_64
  {
    Pow32IsPow2(k);
    Pow32IsPow2(k - 1);
    Pow2Times16(5 * k - 1, 5 * (k - 1));
    Pow2Times16(5 * k + 4, 5 * k);
    Pow2SixtyFour();
    Pow2Monotone(5 * k + 4, 64);
  }

  /** For a value of k digits, `(n << 4) | 1` has between 60 - 5k and 64 - 5k
      leading zeros, so rounding them down to a multiple of five gives 60 - 5k. */
  lemma AlignShift(n: nat, k: nat)
    requires 1 <= k <= 12 && Pow32(k - 1) <= n < Pow32(k)
    ensures n * 16 + 1 < TWO_64
    ensures LeadingZeros(n * 16 + 1) / 5 * 5 == 60 - 5 * k
  {
    AlignBounds(n, k);
    var x := n * 16 + 1;
    var lz := LeadingZeros(x);
    ShiftWindow(k, lz, x);
  }

  /** A value with lz leading zeros that lies between 2^(5k-1) and 2^(5k+4)
      has lz rounded down to a multiple of five equal to 60 - 5k. */
  lemma ShiftWindow(k: nat, lz: nat, x: nat)
    requires 1 <= k <= 12 && lz < 64
    requires Pow2(5 * k - 1) <= x < Pow2(5 * k + 4)
    requires Pow2(63 - lz) <= x < Pow2(64 - lz)
    ensures lz / 5 * 5 == 60 - 5 * k
  {
    Pow2Lt(63 - lz, 5 * k + 4);
    Pow2Lt(5 * k - 1, 64 - lz);
    SplitBelow(12 - k, 5, lz - (60 - 5 * k));
  }

  /** The final set-up shift left-aligns the k digits of n behind the marker bit. */
  lemma AlignRegister(n: nat, k: nat)
    requires 1 <= k <= 12 && n < Pow32(k) && n * 16 + 1 < TWO_64
    ensures Shl(n * 16 + 1, 60 - 5 * k) == Register(n, k)
  {
    RegisterClosed(n, k);
    ShlClosed(n * 16 + 1, 60 - 5 * k);
    Pow2Times16(64 - 5 * k, 60 - 5 * k);
    RegisterWidth(k);
    AlignArith(n, Pow2(60 - 5 * k), Pow2(64 - 5 * k), Pow32(k), TWO_64,
               (n * 16 + 1) * Pow2(60 - 5 * k), Register(n, k));
  }

  /** `n <<= 4; n |= 1;` on a value below 2^60 appends the marker bit. */
  lemma MarkSmall(n: u64)
    requires n < Pow2(60)
    ensures Or1(Shl(n, 4)) == n * 16 + 1
  {
    ShlClosed(n, 4);
    Pow2Ten();
    Pow2Sixty();
    ModSmall(n * 16);
  }

  /** Set-up when the top four bits are clear: once `n <<= 4; n |= 1;` has
      appended the marker bit, `leading_zeros / 5 * 5` is the shift that
      left-aligns the k digits of n (AlignRegister). */
  lemma NormalizeSmall(n: u64)
    requires 1 <= n < Pow2(60)
    ensures NumDigits(n) <= 12 && n * 16 + 1 < TWO_64
    ensures LeadingZeros(n * 16 + 1) / 5 * 5 == 60 - 5 * NumDigits(n)
  {
    var k := NumDigits(n);
    assert k <= 12 by {
      Pow2Sixty();
      Pow32IsPow2(12);
      DigitsBelow(n, 12);
    }
    AlignShift(n, k);
  }

  /** The split of a 13-digit value at bit 60: its leading digit and the
      value of the other twelve. */
  lemma LeadingSplit(n: u64)
    requires n >= Pow2(60)
    ensures NumDigits(n) == 13
    ensures n == Digits(n)[0] * Pow2(60) + FromDigits(Digits(n)[1..])
    ensures FromDigits(Digits(n)[1..]) < Pow2(60)
  {
    Pow2Sixty();
    Pow32IsPow2(12);
    Pow32IsPow2(13);
    Pow2SixtyFour();
    Pow2Times32(65, 60);
    DigitsBelow(n, 13);
    DigitsAbove(n, 12);
    var ds := Digits(n);
    assert ds == [ds[0]] + ds[1..];
    FromDigitsCons(ds[0], ds[1..]);
    FromDigitsBound(ds[1..]);
  }

  /** The arithmetic of the set-up for a 13-digit value, with P4 == 2^4,
      P60 == 2^60 and W == 2^64: the four top bits q leave the register. */
  lemma TopArith(n: int, q: int, r: int, P4: int, P60: int, W: int)
    requires 0 <= q && 0 <= r < P60 && P4 == 16 && P60 * 16 == W && n == q * P60 + r && n < W
    ensures n / P60 == q && q < 16 && (q == 0 <==> n < P60)
    ensures (n * P4) % W == r * 16 && r * 16 < W
  {
    DivModUnique(n, P60, q, r);
    QuotBound(n, P60, 16);
    DivModUnique(n * 16, W, q, r * 16);
  }

  /** Set-up when the top four bits are set: the value has 13 digits, the
      leading one is those four bits, and `n <<= 4` keeps the other twelve. */
  lemma NormalizeLarge(n: u64)
    requires n >= Pow2(60)
    ensures NumDigits(n) == 13
    ensures Shr(n, 60) == Digits(n)[0] && 1 <= Shr(n, 60) < 16
    ensures var r := FromDigits(Digits(n)[1..]);
      r * 16 < TWO_64 && Shl(n, 4) == r * 16
  {
    LeadingSplit(n);
    var q, r := Digits(n)[0], FromDigits(Digits(n)[1..]);
    Pow2Ten();
    Pow2Sixty();
    Pow2SixtyFour();
    ShlClosed(n, 4);
    ShrClosed(n, 60);
    TopArith(n, q, r, Pow2(4), Pow2(60), TWO_64);
  }

  /** `n |= 1` after the shift by four: the marker bit behind twelve digits. */
  lemma MarkLarge(r: nat)
    requires r * 16 < TWO_64
    ensures Or1(r * 16) == Register(r, 12)
  {
    DivModUnique(r * 16, 2, r * 8, 0);
  }

  /** The four top bits `(n >> 60) as u8`: below 16, and zero exactly when n < 2^60. */
  lemma TopBits(n: u64)
    ensures Shr(n, 60) < 16
    ensures Shr(n, 60) == 0 <==> n < Pow2(60)
  {
    Pow2Sixty();
    Pow2SixtyFour();
    ShrClosed(n, 60);
    QuotBound(n, Pow2(60), 16);
  }
}

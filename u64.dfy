/** Rust's `u64` and the operators the codec applies to it, written out on
    unbounded integers: a shift left drops the bits pushed past bit 63, a shift
    right is a floor division by a power of two. */
module U64 {

  const TWO_64: int := 0x1_0000_0000_0000_0000

  type u64 = x: int | 0 <= x < TWO_64

  function Pow2(e: nat): (r: nat)
    ensures r >= 1
  {
    if e == 0 then 1 else 2 * Pow2(e - 1)
  }

  /** 32^m, the place value of the m-th base-32 digit from the right. */
  function Pow32(m: nat): (r: nat)
    ensures r >= 1
  {
    if m == 0 then 1 else 32 * Pow32(m - 1)
  }

  lemma {:induction false} Pow32IsPow2(m: nat)
    ensures Pow32(m) == Pow2(5 * m)
  {
    if m > 0 {
      Pow32IsPow2(m - 1);
      Pow2Add(5, 5 * (m - 1));
      Pow2Constants();
    }
  }

  lemma {:induction false} Pow2Add(a: nat, b: nat)
    ensures Pow2(a + b) == Pow2(a) * Pow2(b)
  {
    if a > 0 {
      Pow2Add(a - 1, b);
      assert Pow2(a + b) == 2 * Pow2(a - 1 + b);
    }
  }

  /** Pow2Add with the exponent sum given by the caller. */
  lemma Pow2Split(a: nat, k: nat, b: nat)
    requires a == k + b
    ensures Pow2(a) == Pow2(k) * Pow2(b)
  {
    Pow2Add(k, b);
  }

  /** Powers of two are ordered like their exponents. */
  lemma Pow2Lt(a: nat, b: nat)
    requires Pow2(a) < Pow2(b)
    ensures a < b
  {
    if a >= b {
      Pow2Monotone(b, a);
    }
  }

  lemma {:induction false} Pow2Monotone(a: nat, b: nat)
    requires a <= b
    ensures Pow2(a) <= Pow2(b)
  {
    if a < b {
      Pow2Monotone(a, b - 1);
    }
  }

  /** 32-powers are ordered like their exponents. */
  lemma Pow32Lt(a: nat, b: nat)
    requires Pow32(a) < Pow32(b)
    ensures a < b
  {
    if a >= b {
      Pow32Monotone(b, a);
    }
  }

  lemma {:induction false} Pow32Monotone(a: nat, b: nat)
    requires a <= b
    ensures Pow32(a) <= Pow32(b)
  {
    if a < b {
      Pow32Monotone(a, b - 1);
    }
  }

  lemma Pow2Ten()
    ensures Pow2(4) == 16 && Pow2(5) == 32 && Pow2(10) == 1024
  {
    assert Pow2(5) == 32 by {
      assert Pow2(4) == 16;
    }
    Pow2Add(5, 5);
  }

  lemma Pow2Forty()
    ensures Pow2(20) == 0x10_0000 && Pow2(40) == 0x100_0000_0000
  {
    assert Pow2(20) == 0x10_0000 by {
      Pow2Ten();
      Pow2Add(10, 10);
    }
    Pow2Add(20, 20);
  }

  lemma Pow2Sixty()
    ensures Pow2(60) == 0x1000_0000_0000_0000 && Pow2(59) == 0x0800_0000_0000_0000
  {
    Pow2Forty();
    Pow2Add(40, 20);
    assert Pow2(60) == 2 * Pow2(59);
  }

  lemma Pow2SixtyFour()
    ensures Pow2(64) == TWO_64
  {
    Pow2Ten();
    Pow2Sixty();
    Pow2Add(60, 4);
  }

  lemma Pow2Constants()
    ensures Pow2(4) == 16 && Pow2(5) == 32
    ensures Pow2(59) == 0x0800_0000_0000_0000
    ensures Pow2(60) == 0x1000_0000_0000_0000
    ensures Pow2(64) == TWO_64
  {
    Pow2Ten();
    Pow2Sixty();
    Pow2SixtyFour();
  }

  /** `x << s` on a `u64` (Rust rejects shift amounts of 64 or more): s
      doublings, each dropping the bit pushed past bit 63. */
  function Shl(x: u64, s: nat): (r: u64)
    requires s < 64
  {
    if s == 0 then x else (2 * Shl(x, s - 1)) % TWO_64
  }

  /** `x >> s` on a `u64`: s halvings, each dropping the lowest bit. */
  function Shr(x: u64, s: nat): (r: u64)
    requires s < 64
    ensures r <= x
  {
    if s == 0 then x else Shr(x, s - 1) / 2
  }

  /** A shift left multiplies by 2^s modulo 2^64. */
  lemma {:induction false} ShlClosed(x: u64, s: nat)
    requires s < 64
    ensures Shl(x, s) == (x * Pow2(s)) % TWO_64
  {
    if s > 0 {
      ShlClosed(x, s - 1);
      DoubleMod(x * Pow2(s - 1), TWO_64);
      assert x * Pow2(s) == 2 * (x * Pow2(s - 1));
    }
  }

  /** A shift right is the floor quotient by 2^s. */
  lemma {:induction false} ShrClosed(x: u64, s: nat)
    requires s < 64
    ensures Shr(x, s) == x / Pow2(s)
  {
    if s > 0 {
      ShrClosed(x, s - 1);
      DivDiv(x, Pow2(s - 1), 2);
      assert Pow2(s - 1) * 2 == Pow2(s);
    }
  }

  /** Doubling commutes with the reduction modulo W. */
  lemma DoubleMod(a: int, W: int)
    requires a >= 0 && W >= 1
    ensures (2 * (a % W)) % W == (2 * a) % W
  {
    var q, r := a / W, a % W;
    var q2, r2 := (2 * r) / W, (2 * r) % W;
    assert 2 * a == (2 * q + q2) * W + r2 by {
      assert a == q * W + r;
      assert 2 * r == q2 * W + r2;
      assert (2 * q + q2) * W == 2 * (q * W) + q2 * W;
    }
    DivModUnique(2 * a, W, 2 * q + q2, r2);
  }

  /** Two floor divisions in a row are one by the product. */
  lemma DivDiv(x: int, a: int, b: int)
    requires x >= 0 && a >= 1 && b >= 1
    ensures (x / a) / b == x / (a * b)
  {
    var q1, r1 := x / a, x % a;
    var q2, r2 := q1 / b, q1 % b;
    assert x == q2 * (a * b) + (r2 * a + r1) by {
      assert x == q1 * a + r1;
      assert q1 == q2 * b + r2;
      assert q1 * a == q2 * (a * b) + r2 * a;
    }
    MulLe(r2, b - 1, a);
    assert (b - 1) * a == a * b - a;
    DivModUnique(x, a * b, q2, r2 * a + r1);
  }

  /** `x | 1`. */
  function Or1(x: u64): (r: u64)
    ensures r % 2 == 1 && (x % 2 == 0 ==> r == x + 1) && (x % 2 == 1 ==> r == x)
  {
    if x % 2 == 0 then x + 1 else x
  }

  /** Number of significant bits of x. */
  function BitLen(x: nat): nat
  {
    if x == 0 then 0 else 1 + BitLen(x / 2)
  }

  lemma {:induction false} BitLenExact(x: nat, b: nat)
    requires 1 <= b && Pow2(b - 1) <= x < Pow2(b)
    ensures BitLen(x) == b
  {
    if b > 1 {
      BitLenExact(x / 2, b - 1);
    }
  }

  lemma {:induction false} BitLenBelow(x: nat, b: nat)
    requires x < Pow2(b)
    ensures BitLen(x) <= b
  {
    if x > 0 {
      BitLenBelow(x / 2, b - 1);
    }
  }

  /** `u64::leading_zeros`. */
  function LeadingZeros(x: u64): (r: nat)
    ensures r <= 64
    ensures x != 0 ==> r < 64 && Pow2(63 - r) <= x < Pow2(64 - r)
  {
    Pow2Constants();
    BitLenBelow(x, 64);
    if x == 0 then 64 else BitLenBounds(x); 64 - BitLen(x)
  }

  lemma {:induction false} BitLenBounds(x: nat)
    requires x >= 1
    ensures BitLen(x) >= 1 && Pow2(BitLen(x) - 1) <= x < Pow2(BitLen(x))
  {
    if x > 1 {
      BitLenBounds(x / 2);
    }
  }

  /** Quotient and remainder are determined by any decomposition n == q * d + r with 0 <= r < d. */
  lemma DivModUnique(n: int, d: int, q: int, r: int)
    requires d > 0 && 0 <= r < d && n == q * d + r
    ensures n / d == q && n % d == r
  {
    var q', r' := n / d, n % d;
    assert (q' - q) * d == r - r' by {
      assert q' * d + r' == q * d + r;
    }
    ZeroMultiple(q' - q, d, r - r');
  }

  /** A quotient by d of a value below b * d is below b, and it is zero
      exactly for values below d. */
  lemma QuotBound(n: int, d: int, b: int)
    requires d >= 1 && 0 <= n && n < b * d
    ensures n / d < b
    ensures n / d == 0 <==> n < d
  {
    var q := n / d;
    if q >= b {
      MulLe(b, q, d);
    }
    if n < d {
      DivModUnique(n, d, 0, n);
    }
  }

  lemma ZeroMultiple(k: int, d: int, e: int)
    requires d > 0 && -d < e < d && k * d == e
    ensures k == 0
  {
  }

  /** Multiplying by a non-negative factor keeps the order. */
  lemma MulLe(a: int, b: int, c: int)
    requires a <= b && c >= 0
    ensures a * c <= b * c
  {
  }

  /** A product that fits in 64 bits is not changed by the truncation to 64 bits. */
  lemma ModSmall(n: int)
    requires 0 <= n < TWO_64
    ensures n % TWO_64 == n
  {
    DivModUnique(n, TWO_64, 0, n);
  }
}

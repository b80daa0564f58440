/** Positional base-32 notation: the digit strings the codec emits, most
    significant digit first, and the values they stand for. */
module Base32 {
  import opened U64

  predicate AllDigits(ds: seq<nat>)
  {
    forall i :: 0 <= i < |ds| ==> ds[i] < 32
  }

  /** Value of a digit string read left to right, each digit one place more
      significant than the next. */
  function FromDigits(ds: seq<nat>): nat
  {
    if ds == [] then 0 else 32 * FromDigits(ds[..|ds| - 1]) + ds[|ds| - 1]
  }

  /** Appending a digit shifts the value up one place. */
  lemma FromDigitsSnoc(ds: seq<nat>, d: nat)
    ensures FromDigits(ds + [d]) == 32 * FromDigits(ds) + d
  {
    assert (ds + [d])[..|ds|] == ds;
  }

  lemma {:induction false} FromDigitsBound(ds: seq<nat>)
    requires AllDigits(ds)
    ensures FromDigits(ds) < Pow32(|ds|)
  {
    if ds != [] {
      FromDigitsBound(ds[..|ds| - 1]);
    }
  }

  /** The leading digit contributes its value times the place of the first position. */
  lemma {:induction false} FromDigitsCons(a: nat, ds: seq<nat>)
    ensures FromDigits([a] + ds) == a * Pow32(|ds|) + FromDigits(ds)
  {
    if ds != [] {
      var n := |ds|;
      assert ([a] + ds)[..n] == [a] + ds[..n - 1];
      FromDigitsCons(a, ds[..n - 1]);
      calc {
        FromDigits([a] + ds);
        32 * FromDigits([a] + ds[..n - 1]) + ds[n - 1];
        32 * (a * Pow32(n - 1) + FromDigits(ds[..n - 1])) + ds[n - 1];
        { assert 32 * (a * Pow32(n - 1)) == a * (32 * Pow32(n - 1)); }
        a * Pow32(n) + FromDigits(ds);
      }
    }
  }

  /** Quotient of a bounded value by a place value is a single digit. */
  lemma DigitOfBounded(x: nat, p: nat)
    requires p >= 1 && x < 32 * p
    ensures 0 <= x / p < 32 && 0 <= x % p < p && x == (x / p) * p + x % p
  {
    DivModUnique(x, p, x / p, x % p);
  }

  /** The m base-32 digits of x, most significant first. */
  function DigitsN(x: nat, m: nat): (ds: seq<nat>)
    requires x < Pow32(m)
    ensures |ds| == m && AllDigits(ds) && FromDigits(ds) == x
    decreases m
  {
    if m == 0 then []
    else
      var p := Pow32(m - 1);
      assert x < 32 * p;
      DigitOfBounded(x, p);
      var d, rest := x / p, DigitsN(x % p, m - 1);
      FromDigitsCons(d, rest);
      assert AllDigits([d] + rest);
      [d] + rest
  }

  /** Number of base-32 digits needed to write v (one for zero). */
  function NumDigits(v: nat): (k: nat)
    ensures 1 <= k && v < Pow32(k)
    ensures v >= 1 ==> Pow32(k - 1) <= v
    ensures v < 32 ==> k == 1
  {
    if v < 32 then 1 else 1 + NumDigits(v / 32)
  }

  /** Digits of v without leading zeros. */
  function Digits(v: nat): (ds: seq<nat>)
    ensures |ds| == NumDigits(v) && AllDigits(ds) && FromDigits(ds) == v
    ensures v >= 1 ==> ds[0] != 0
  {
    var k := NumDigits(v);
    var ds := DigitsN(v, k);
    assert v >= 1 ==> ds[0] == v / Pow32(k - 1);
    ds
  }

  /** A value below 32^j, j >= 1, has at most j digits. */
  lemma DigitsBelow(v: nat, j: nat)
    requires 1 <= j && v < Pow32(j)
    ensures NumDigits(v) <= j
  {
    if v >= 1 {
      Pow32Lt(NumDigits(v) - 1, j);
    }
  }

  /** A value of at least 32^j has more than j digits. */
  lemma DigitsAbove(v: nat, j: nat)
    requires Pow32(j) <= v
    ensures NumDigits(v) > j
  {
    Pow32Lt(j, NumDigits(v));
  }

  /** No shorter digit string denotes v: the digit count is minimal. */
  lemma DigitsMinimal(v: nat, ds: seq<nat>)
    requires AllDigits(ds) && FromDigits(ds) == v
    ensures |ds| >= NumDigits(v) || v == 0
  {
    FromDigitsBound(ds);
    if ds != [] {
      DigitsBelow(v, |ds|);
    }
  }

  /** A 64-bit value has at most 13 digits, exactly 13 when one of its top
      four bits is set, and then the leading digit holds only those four bits. */
  lemma DigitCountU64(v: u64)
    ensures NumDigits(v) <= 13
    ensures NumDigits(v) == 13 <==> v >= Pow2(60)
    ensures NumDigits(v) == 13 ==> Digits(v)[0] == v / Pow2(60) < 16
  {
    Pow2Constants();
    Pow32IsPow2(12);
    Pow32IsPow2(13);
    Pow2Add(64, 1);
    var k := NumDigits(v);
    if k > 13 {
      Pow32Monotone(13, k - 1);
    }
    if v >= Pow2(60) && k < 13 {
      Pow32Monotone(k, 12);
    }
    if k == 13 {
      DigitOfBounded(v, Pow2(60));
      assert Digits(v)[0] == v / Pow2(60);
    }
  }
}

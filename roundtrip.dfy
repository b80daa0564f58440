/** What encoding and decoding promise together: every nonzero value comes
    back from its symbols; zero, written as a literal '0', does not unless the
    first salt draw happens to cancel the position of '0'; and thirteen-symbol
    inputs whose leading digit is 16 or more wrap onto smaller values. */
module RoundTrip {
  import opened U64
  import opened Base32
  import opened Keystream
  import opened Alphabets
  import opened Places
  import opened Codec
  import opened Masks

  /** Looking up the symbol of digit d at position k and unmasking the entry
      gives d back. */
  lemma SymbolRecovers(w: Weird, k: nat, d: nat)
    requires w.alphabet.Inverts() && d < 32 && CanDraw(|w.salt|, k + 1)
    ensures 0 <= w.alphabet.mapping[Symbol(w.alphabet.alpha, w.salt, k, d)] < 32
    ensures w.Unmask(k, w.alphabet.mapping[Symbol(w.alphabet.alpha, w.salt, k, d)]) == d
  {
    var e := MaskDigit(w.salt, k, d);
    MaskDigitTwice(w.salt, k, d);
    assert w.alphabet.mapping[w.alphabet.alpha[e] as int] == e;
  }

  /** Two digits written at the same position give the same symbol only when
      they are equal. */
  lemma SymbolInjective(w: Weird, k: nat, d: nat, d': nat)
    requires w.alphabet.Checked() && d < 32 && d' < 32 && CanDraw(|w.salt|, k + 1)
    ensures Symbol(w.alphabet.alpha, w.salt, k, d) == Symbol(w.alphabet.alpha, w.salt, k, d') <==> d == d'
  {
    SymbolRecovers(w, k, d);
    SymbolRecovers(w, k, d');
  }

  /** Decoding the symbols of a digit string of accepted length draws once per
      symbol, rejects none and returns the digits' value wrapped to 64 bits. */
  lemma DecodeScrambled(w: Weird, ds: seq<nat>)
    requires w.alphabet.Checked() && AllDigits(ds) && 1 <= |ds| <= MAX_SYMBOLS && CanDraw(|w.salt|, |ds|)
    ensures w.DecodeDraws(Scrambled(w.alphabet.alpha, w.salt, ds)) == |ds|
    ensures w.Decoded(Scrambled(w.alphabet.alpha, w.salt, ds)) == Ok(FromDigits(ds) % TWO_64)
  {
    var input := Scrambled(w.alphabet.alpha, w.salt, ds);
    forall j | 0 <= j < |input|
      ensures 0 <= w.alphabet.mapping[input[j]] && w.Unmask(j, w.alphabet.mapping[input[j]]) == ds[j]
    {
      SymbolRecovers(w, j, ds[j]);
    }
    FirstRejectedUnique(w.alphabet.mapping, input, |input|);
    assert w.Recovered(input, |input|) == ds;
  }

  /** `decode(encode(n)) == Ok(n)` for every nonzero n. */
  lemma RoundTrip(w: Weird, n: u64)
    requires w.alphabet.Checked() && 1 <= n && w.Encodable(n)
    ensures w.DecodeDraws(w.Encoded(n)) == NumDigits(n)
    ensures w.Decoded(w.Encoded(n)) == Ok(n)
  {
    var ds := Digits(n);
    DigitCountU64(n);
    assert w.Encoded(n) == Scrambled(w.alphabet.alpha, w.salt, ds);
    DecodeScrambled(w, ds);
    ModSmall(FromDigits(ds));
  }

  /** Distinct nonzero values have distinct encodings. */
  lemma EncodedInjective(w: Weird, n: u64, m: u64)
    requires w.alphabet.Checked() && 1 <= n && 1 <= m && w.Encodable(n) && w.Encodable(m)
    ensures w.Encoded(n) == w.Encoded(m) <==> n == m
  {
    RoundTrip(w, n);
    RoundTrip(w, m);
  }

  /** Zero as written: `encode` writes the literal '0' without a draw, and
      `decode` reads it as the position of '0' in the alphabet masked by the
      first draw, which is 0 exactly when the two agree. */
  lemma ZeroAsWritten(w: Weird)
    requires w.alphabet.Checked() && 1 <= |w.salt|
    ensures w.Encoded(0) == ['0' as byte]
    ensures 0 <= w.alphabet.mapping['0' as int] < 32
    ensures w.DecodeDraws(w.Encoded(0)) == 1
    ensures w.Decoded(w.Encoded(0)) == Ok(w.Unmask(0, w.alphabet.mapping['0' as int]))
    ensures w.Decoded(w.Encoded(0)) == Ok(0) <==> w.alphabet.mapping['0' as int] == Mask(w.salt, 0) as int
  {
    assert '0' as byte == UPPERCASE_ENCODING[0];
    PermutationHasAll(w.alphabet.alpha, '0' as byte);
    var i :| 0 <= i < 32 && w.alphabet.alpha[i] == '0' as byte;
    var e := w.alphabet.mapping['0' as int];
    assert e == w.alphabet.mapping[w.alphabet.alpha[i] as int] == i;
    var input := w.Encoded(0);
    assert input == ['0' as byte];
    FirstRejectedUnique(w.alphabet.mapping, input, 1);
    var d := w.Unmask(0, e);
    assert w.Recovered(input, |input|) == [d];
    assert FromDigits([d]) == d;
    ModSmall(d);
    assert w.Decoded(input) == Ok(FromDigits(w.Recovered(input, |input|)) % TWO_64);
    XorMaskZero(Mask(w.salt, 0), e);
  }

  /** A concrete case of the zero finding: with '0' in the first position of
      the alphabet and the salt [1, 1], the literal '0' decodes to 1. */
  lemma ZeroMisdecoded(w: Weird)
    requires w.alphabet.Checked() && w.alphabet.alpha[0] == '0' as byte && w.salt == [1, 1]
    ensures w.Decoded(w.Encoded(0)) == Ok(1)
  {
    ZeroAsWritten(w);
    assert w.alphabet.mapping['0' as int] == 0;
    assert Mask(w.salt, 0) == 1;
  }

  /** The corrected encoding round-trips every value, zero included. */
  lemma IntendedRoundTrip(w: Weird, n: u64)
    requires w.alphabet.Checked() && CanDraw(|w.salt|, NumDigits(n))
    ensures w.DecodeDraws(w.EncodedIntended(n)) == NumDigits(n)
    ensures w.Decoded(w.EncodedIntended(n)) == Ok(n)
  {
    var ds := Digits(n);
    DigitCountU64(n);
    assert w.EncodedIntended(n) == Scrambled(w.alphabet.alpha, w.salt, ds);
    DecodeScrambled(w, ds);
    ModSmall(FromDigits(ds));
  }

  /** The corrected encoding is injective on all values. */
  lemma IntendedInjective(w: Weird, n: u64, m: u64)
    requires w.alphabet.Checked() && CanDraw(|w.salt|, NumDigits(n)) && CanDraw(|w.salt|, NumDigits(m))
    ensures w.EncodedIntended(n) == w.EncodedIntended(m) <==> n == m
  {
    IntendedRoundTrip(w, n);
    IntendedRoundTrip(w, m);
  }

  /** Thirteen symbols hold 65 bits: a leading digit of 16 or more wraps, so
      the input and the one with 16 taken off its leading digit are different
      strings that decode to the same value. */
  lemma WrapAliasing(w: Weird, ds: seq<nat>)
    requires w.alphabet.Checked() && AllDigits(ds) && |ds| == MAX_SYMBOLS && 16 <= ds[0]
    requires CanDraw(|w.salt|, MAX_SYMBOLS)
    ensures AllDigits(ds[0 := ds[0] - 16])
    ensures Scrambled(w.alphabet.alpha, w.salt, ds) != Scrambled(w.alphabet.alpha, w.salt, ds[0 := ds[0] - 16])
    ensures w.Decoded(Scrambled(w.alphabet.alpha, w.salt, ds)) == Ok(FromDigits(ds) - TWO_64)
    ensures w.Decoded(Scrambled(w.alphabet.alpha, w.salt, ds[0 := ds[0] - 16])) == Ok(FromDigits(ds) - TWO_64)
  {
    var low := ds[0 := ds[0] - 16];
    WrapValue(ds);
    DecodeScrambled(w, ds);
    DecodeScrambled(w, low);
    SymbolInjective(w, 0, ds[0], low[0]);
  }

  /** The value arithmetic of WrapAliasing: both digit strings wrap to the
      value less 2^64. */
  lemma WrapValue(ds: seq<nat>)
    requires AllDigits(ds) && |ds| == MAX_SYMBOLS && 16 <= ds[0]
    ensures AllDigits(ds[0 := ds[0] - 16])
    ensures FromDigits(ds) % TWO_64 == FromDigits(ds) - TWO_64
    ensures FromDigits(ds[0 := ds[0] - 16]) % TWO_64 == FromDigits(ds) - TWO_64
  {
    var low := ds[0 := ds[0] - 16];
    assert low[1..] == ds[1..];
    FirstDigit(ds);
    FirstDigit(low);
    TopPlace();
    WrapArith(ds[0], FromDigits(ds[1..]), Pow32(12), FromDigits(ds), FromDigits(low));
  }
}

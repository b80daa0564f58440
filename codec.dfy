/** `Weird` of src/lib.rs: a salted, shuffled base-32 codec for 64-bit values.
    A value is written as its base-32 digits, most significant first and without
    leading zeros; digit number k is XORed with the mask of draw k of a fresh
    salt cursor and written as the alphabet's symbol at the resulting position.
    Decoding looks each byte up in the alphabet's table, XORs it with the same
    mask and accumulates the digits. */
module Codec {
  import opened U64
  import opened Base32
  import opened Keystream
  import opened Alphabets
  import opened Shifts
  import opened Places
  import Cursor

  /** `error::Kind`: why a decode failed, with the offending position and byte. */
  datatype Kind =
    | InvalidDigit(idx: nat, u: byte)
    | CheckDigitUnsupported(idx: nat, u: byte)
    | EmptyString
    | OutOfRange

  /** `error::Error`: a kind and its message. */
  datatype Error = Error(kind: Kind, message: string)

  datatype Result<T> = Ok(value: T) | Err(error: Error)

  const QUAD_SHIFT: nat := 60
  const QUAD_RESET: nat := 4
  const FIVE_SHIFT: nat := 59
  const FIVE_RESET: nat := 5
  /** The register value once every digit has been shifted out. */
  const STOP_BIT: u64 := 0x1000_0000_0000_0000
  /** Longest accepted input: 13 symbols hold 65 bits. */
  const MAX_SYMBOLS: nat := 13

  /** Symbol written for digit d at output position k. */
  function Symbol(alpha: seq<byte>, salt: seq<bv8>, k: nat, d: nat): byte
    requires |alpha| == 32 && d < 32 && CanDraw(|salt|, k + 1)
  {
    alpha[MaskDigit(salt, k, d)]
  }

  /** The symbols of a digit string, each masked by the draw of its position. */
  function Scrambled(alpha: seq<byte>, salt: seq<bv8>, ds: seq<nat>): (out: seq<byte>)
    requires |alpha| == 32 && AllDigits(ds) && CanDraw(|salt|, |ds|)
    ensures |out| == |ds|
  {
    seq(|ds|, k requires 0 <= k < |ds| => Symbol(alpha, salt, k, ds[k]))
  }

  /** A single digit is written as the symbol of the first draw. */
  lemma ScrambledSingle(alpha: seq<byte>, salt: seq<bv8>, d: nat)
    requires |alpha| == 32 && d < 32 && CanDraw(|salt|, 1)
    ensures AllDigits([d])
    ensures Scrambled(alpha, salt, [d]) == [Symbol(alpha, salt, 0, d)]
  {
  }

  /** Writing one more digit appends its symbol, masked by the draw of its position. */
  lemma ScrambledAppend(alpha: seq<byte>, salt: seq<bv8>, done: seq<nat>, d: nat)
    requires |alpha| == 32 && AllDigits(done) && d < 32 && CanDraw(|salt|, |done| + 1)
    ensures AllDigits(done + [d])
    ensures Scrambled(alpha, salt, done + [d]) == Scrambled(alpha, salt, done) + [Symbol(alpha, salt, |done|, d)]
  {
  }

  /** `get_mapping`: the table entry of byte u at input position idx, or the
      error its sentinel stands for. */
  function GetMapping(idx: nat, u: byte, mapping: seq<i8>): (r: Result<byte>)
    requires |mapping| == 256
    ensures r.Ok? <==> mapping[u] != INVALID && mapping[u] != CHECK_DIGIT
    ensures r.Err? ==> r.error.kind in {InvalidDigit(idx, u), CheckDigitUnsupported(idx, u)}
    ensures r.Err? ==> (r.error.kind == InvalidDigit(idx, u) <==> mapping[u] == INVALID)
    ensures r.Ok? && 0 <= mapping[u] ==> r.value == mapping[u]
  {
    var e := mapping[u];
    if e == INVALID then Err(Error(InvalidDigit(idx, u), "Invalid encoded digit."))
    else if e == CHECK_DIGIT then Err(Error(CheckDigitUnsupported(idx, u), "Check digits not currently supported."))
    else if e >= 0 then Ok(e as byte)
    else Ok((e as int + 256) as byte)
  }

  /** The table marks byte u as no digit. */
  predicate Rejects(mapping: seq<i8>, u: byte)
    requires |mapping| == 256
  {
    mapping[u] == INVALID || mapping[u] == CHECK_DIGIT
  }

  /** Position of the first byte the table rejects, or |input| if there is none. */
  function FirstRejected(mapping: seq<i8>, input: seq<byte>): (r: nat)
    requires |mapping| == 256
    ensures r <= |input|
    ensures forall j :: 0 <= j < r ==> !Rejects(mapping, input[j])
    ensures r < |input| ==> Rejects(mapping, input[r])
  {
    if input == [] then 0
    else if Rejects(mapping, input[0]) then 0
    else 1 + FirstRejected(mapping, input[1..])
  }

  /** The first-rejected position is the only one that fits its description. */
  lemma FirstRejectedUnique(mapping: seq<i8>, input: seq<byte>, r: nat)
    requires |mapping| == 256 && r <= |input|
    requires forall j :: 0 <= j < r ==> !Rejects(mapping, input[j])
    requires r < |input| ==> Rejects(mapping, input[r])
    ensures FirstRejected(mapping, input) == r
  {
  }

  datatype Weird = Weird(alphabet: Alphabet, salt: seq<bv8>)
  {
    /** `encode` neither reads past a one-byte salt nor recurses on an empty one. */
    predicate Encodable(n: u64)
    {
      n == 0 || CanDraw(|salt|, NumDigits(n))
    }

    /** The symbols `encode` writes for n: a literal '0' for zero, otherwise the
        masked digits of n. */
    function Encoded(n: u64): (out: seq<byte>)
      requires |alphabet.alpha| == 32 && Encodable(n)
      ensures 1 <= |out| == NumDigits(n) <= MAX_SYMBOLS
      ensures |out| == MAX_SYMBOLS <==> n >= Pow2(60)
    {
      DigitCountU64(n);
      if n == 0 then ['0' as byte] else Scrambled(alphabet.alpha, salt, Digits(n))
    }

    /** The encoding the codec evidently intends: zero written like every
        other value, as its single digit 0, masked and mapped. */
    function EncodedIntended(n: u64): (out: seq<byte>)
      requires |alphabet.alpha| == 32 && CanDraw(|salt|, NumDigits(n))
      ensures 1 <= |out| == NumDigits(n) <= MAX_SYMBOLS
      ensures n != 0 ==> out == Encoded(n)
    {
      DigitCountU64(n);
      Scrambled(alphabet.alpha, salt, Digits(n))
    }

    /** Number of salt bytes `decode` draws on input: one per symbol up to the
        first rejected one, none when the length is refused. */
    function DecodeDraws(input: seq<byte>): nat
      requires alphabet.WellFormed()
    {
      if |input| == 0 || |input| > MAX_SYMBOLS then 0
      else FirstRejected(alphabet.mapping, input)
    }

    /** Digit recovered from table entry e at position k. */
    function Unmask(k: nat, e: i8): (d: nat)
      requires 0 <= e < 32 && CanDraw(|salt|, k + 1)
      ensures d < 32
    {
      MaskDigit(salt, k, e as nat)
    }

    /** The digits `decode` recovers from the first n bytes of input, none of
        which is rejected. */
    function Recovered(input: seq<byte>, n: nat): (ds: seq<nat>)
      requires alphabet.WellFormed() && n <= |input| && CanDraw(|salt|, n)
      requires forall j :: 0 <= j < n ==> !Rejects(alphabet.mapping, input[j])
      ensures |ds| == n && AllDigits(ds)
    {
      seq(n, k requires 0 <= k < n =>
        assert !Rejects(alphabet.mapping, input[k]);
        Unmask(k, alphabet.mapping[input[k]]))
    }

    /** Reading one more accepted byte appends its unmasked digit. */
    lemma RecoveredSnoc(input: seq<byte>, idx: nat)
      requires alphabet.WellFormed() && 1 <= idx <= |input| && CanDraw(|salt|, idx)
      requires forall j :: 0 <= j < idx ==> !Rejects(alphabet.mapping, input[j])
      ensures Recovered(input, idx) == Recovered(input, idx - 1) + [Unmask(idx - 1, alphabet.mapping[input[idx - 1]])]
    {
    }

    /** The accumulator of `decode` after idx accepted bytes: n is the wrapped
        value of their digits times the place of the next one, and from the
        second byte on it is an exact multiple c of that place with room for
        the digits still to come. */
    ghost predicate Accumulated(input: seq<byte>, idx: nat, n: int, c: nat)
      requires alphabet.WellFormed() && idx <= |input| <= MAX_SYMBOLS && CanDraw(|salt|, idx)
      requires forall j :: 0 <= j < idx ==> !Rejects(alphabet.mapping, input[j])
    {
      && n == Scale(Prefix(input, idx), |input| - idx) % TWO_64
      && (idx > 0 ==> n == Scale(c, |input| - idx) && c < Pow2(64 - 5 * (|input| - idx)))
    }

    /** Every accepted byte before the first rejected one has a draw of its own. */
    lemma AcceptedDraws(input: seq<byte>, idx: nat)
      requires alphabet.WellFormed() && idx < |input| <= MAX_SYMBOLS && CanDraw(|salt|, DecodeDraws(input))
      requires forall j :: 0 <= j <= idx ==> !Rejects(alphabet.mapping, input[j])
      ensures CanDraw(|salt|, idx + 1)
    {
      assert idx < FirstRejected(alphabet.mapping, input);
    }

    /** Before the first byte the accumulator is 0. */
    lemma AccumulatedStart(input: seq<byte>)
      requires alphabet.WellFormed() && |input| <= MAX_SYMBOLS
      ensures Accumulated(input, 0, 0, 0)
    {
      ScaleClosed(0, |input|);
    }

    /** Decoding stops with the error of the first rejected byte. */
    lemma DecodedRejected(input: seq<byte>, idx: nat)
      requires alphabet.WellFormed() && idx < |input| <= MAX_SYMBOLS
      requires forall j :: 0 <= j < idx ==> !Rejects(alphabet.mapping, input[j])
      requires Rejects(alphabet.mapping, input[idx])
      requires CanDraw(|salt|, DecodeDraws(input))
      ensures Decoded(input) == Err(GetMapping(idx, input[idx], alphabet.mapping).error)
    {
      FirstRejectedUnique(alphabet.mapping, input, idx);
    }

    /** With every byte accepted, decoding returns the accumulator. */
    lemma DecodedAccepted(input: seq<byte>, n: u64, c: nat)
      requires alphabet.WellFormed() && 1 <= |input| <= MAX_SYMBOLS && CanDraw(|salt|, |input|)
      requires forall j :: 0 <= j < |input| ==> !Rejects(alphabet.mapping, input[j])
      requires Accumulated(input, |input|, n, c)
      ensures CanDraw(|salt|, DecodeDraws(input))
      ensures Decoded(input) == Ok(n)
    {
      PrefixRecovered(input, |input|);
      FirstRejectedUnique(alphabet.mapping, input, |input|);
    }

    /** One round of the `for` loop of `decode` on an accepted byte: unmask its
        table entry e, add the digit times its place and move to the next place. */
    method AccumulateRound(src: Cursor.ByteSource, input: seq<byte>, idx: nat, e: byte,
                           n: u64, place: u64, ghost c: nat) returns (n': u64, place': u64, ghost c': nat)
      requires alphabet.WellFormed() && idx < |input| <= MAX_SYMBOLS && CanDraw(|salt|, idx + 1)
      requires forall j :: 0 <= j <= idx ==> !Rejects(alphabet.mapping, input[j])
      requires alphabet.mapping[input[idx]] == e
      requires src.Valid() && src.Drawn == idx && src.data == salt
      requires place == Pow32(|input| - (idx + 1))
      requires Accumulated(input, idx, n, c)
      modifies src
      ensures src.Valid() && src.Drawn == idx + 1 && src.data == salt
      ensures place' == if idx + 1 < |input| then Pow32(|input| - (idx + 2)) else 0
      ensures Accumulated(input, idx + 1, n', c')
    {
      var digit := ReadDigit(src, e);
      var sum := n + (digit * place) % TWO_64;
      c' := AccumulateStep(Prefix(input, idx), digit, c, n, idx == 0,
                           |input| - idx, |input| - (idx + 1), place, sum);
      NextPlace(|input| - (idx + 1));
      n' := sum;
      place' := place / 32;
    }

    /** `apply` on the table entry e of input position Drawn: the digit it
        unmasks to. */
    method ReadDigit(src: Cursor.ByteSource, e: byte) returns (digit: nat)
      requires e < 32 && src.Valid() && src.data == salt && CanDraw(|salt|, src.Drawn + 1)
      modifies src
      ensures src.Valid() && src.data == salt && src.Drawn == old(src.Drawn) + 1
      ensures digit == Unmask(old(src.Drawn), e)
    {
      src.ValidIsReady();
      var u := src.Apply(e as bv8);
      digit := u as int;
    }

    /** Value of the digits recovered from the first idx bytes, the first one
        most significant: the running value `decode` multiplies out place by place. */
    ghost function Prefix(input: seq<byte>, idx: nat): nat
      requires alphabet.WellFormed() && idx <= |input| && CanDraw(|salt|, idx)
      requires forall j :: 0 <= j < idx ==> !Rejects(alphabet.mapping, input[j])
    {
      if idx == 0 then 0
      else
        assert !Rejects(alphabet.mapping, input[idx - 1]);
        32 * Prefix(input, idx - 1) + Unmask(idx - 1, alphabet.mapping[input[idx - 1]])
    }

    /** The running value is the value of the recovered digits of the prefix. */
    lemma {:induction false} PrefixRecovered(input: seq<byte>, idx: nat)
      requires alphabet.WellFormed() && idx <= |input| && CanDraw(|salt|, idx)
      requires forall j :: 0 <= j < idx ==> !Rejects(alphabet.mapping, input[j])
      ensures Prefix(input, idx) == FromDigits(Recovered(input, idx))
    {
      if idx == 0 {
        assert Recovered(input, 0) == [];
      } else {
        PrefixRecovered(input, idx - 1);
        RecoveredSnoc(input, idx);
        var d := Unmask(idx - 1, alphabet.mapping[input[idx - 1]]);
        var ds := Recovered(input, idx - 1);
        FromDigitsSnoc(ds, d);
        assert Prefix(input, idx) == 32 * FromDigits(ds) + d;
      }
    }

    /** What `decode` returns: the length errors first, then the error of the
        first rejected byte, otherwise the recovered digits' value wrapped to
        64 bits. */
    function Decoded(input: seq<byte>): (r: Result<u64>)
      requires alphabet.WellFormed() && CanDraw(|salt|, DecodeDraws(input))
      ensures (r.Err? && r.error.kind == EmptyString) <==> |input| == 0
      ensures (r.Err? && r.error.kind == OutOfRange) <==> |input| > MAX_SYMBOLS
      ensures r.Ok? ==>
        && 1 <= |input| <= MAX_SYMBOLS
        && forall j :: 0 <= j < |input| ==> 0 <= alphabet.mapping[input[j]]
      ensures r.Err? && (r.error.kind.InvalidDigit? || r.error.kind.CheckDigitUnsupported?) ==>
        var i := r.error.kind.idx;
        && i < |input| && input[i] == r.error.kind.u
        && (r.error.kind.InvalidDigit? <==> alphabet.mapping[input[i]] == INVALID)
        && forall j :: 0 <= j < i ==> !Rejects(alphabet.mapping, input[j])
    {
      if |input| == 0 then Err(Error(EmptyString, "Encoded input string is empty."))
      else if |input| > MAX_SYMBOLS then Err(Error(OutOfRange, "Encoded value is too large"))
      else
        var i := FirstRejected(alphabet.mapping, input);
        if i < |input| then Err(GetMapping(i, input[i], alphabet.mapping).error)
        else Ok(FromDigits(Recovered(input, |input|)) % TWO_64)
    }

    /** `encode_into`: append the symbols of n to the sink w. */
    method EncodeInto(n: u64, w: seq<byte>) returns (out: seq<byte>)
      requires |alphabet.alpha| == 32 && Encodable(n)
      ensures out == w + Encoded(n)
    {
      if n == 0 {
        out := w + ['0' as byte];
        return;
      }
      ghost var ds := Digits(n);
      var src := new Cursor.ByteSource(salt);
      TopBits(n);
      var top := Shr(n, QUAD_SHIFT);
      if top == 0 {
        var x := SmallRegister(n);
        assert [] + ds == ds;
        out := EmitDigits(src, x, [], ds, w, w);
      } else {
        var x := LargeRegister(n);
        var sym := EmitSymbol(src, top);
        ScrambledSingle(alphabet.alpha, salt, top);
        assert [top] + ds[1..] == ds;
        out := EmitDigits(src, x, [top], ds[1..], w, w + [sym]);
      }
    }

    /** The `while` loop of `encode_into`: the symbols of the digits `done`
        follow w in out0, the register x0 holds the digits `rest`; write them. */
    method EmitDigits(src: Cursor.ByteSource, x0: u64, ghost done0: seq<nat>, ghost rest0: seq<nat>,
                      ghost w: seq<byte>, out0: seq<byte>) returns (out: seq<byte>)
      requires |alphabet.alpha| == 32 && AllDigits(done0) && AllDigits(rest0) && |rest0| <= 12
      requires CanDraw(|salt|, |done0| + |rest0|)
      requires x0 == Register(FromDigits(rest0), |rest0|)
      requires src.Valid() && src.Drawn == |done0| && src.data == salt
      requires out0 == w + Scrambled(alphabet.alpha, salt, done0)
      modifies src
      ensures out == w + Scrambled(alphabet.alpha, salt, done0 + rest0)
    {
      ghost var done, rest := done0, rest0;
      var x := x0;
      out := out0;
      RegisterStop(rest);
      while x != STOP_BIT
        invariant done + rest == done0 + rest0 && AllDigits(done) && AllDigits(rest) && |rest| <= 12
        invariant out == w + Scrambled(alphabet.alpha, salt, done)
        invariant x == Register(FromDigits(rest), |rest|)
        invariant x == STOP_BIT <==> rest == []
        invariant src.Valid() && src.Drawn == |done| && src.data == salt
        decreases |rest|
      {
        x, out := EmitRound(src, x, done, rest, w, out);
        assert done + rest == (done + [rest[0]]) + rest[1..];
        done, rest := done + [rest[0]], rest[1..];
      }
      assert done + [] == done;
    }

    /** One round of the loop: emit the symbol of the top five bits, the first
        digit of `rest`, and shift it out of the register. */
    method EmitRound(src: Cursor.ByteSource, x: u64, ghost done: seq<nat>, ghost rest: seq<nat>,
                     ghost w: seq<byte>, out: seq<byte>) returns (x': u64, out': seq<byte>)
      requires |alphabet.alpha| == 32 && AllDigits(done) && AllDigits(rest) && 1 <= |rest| <= 12
      requires CanDraw(|salt|, |done| + |rest|)
      requires x == Register(FromDigits(rest), |rest|)
      requires src.Valid() && src.Drawn == |done| && src.data == salt
      requires out == w + Scrambled(alphabet.alpha, salt, done)
      modifies src
      ensures AllDigits(done + [rest[0]]) && AllDigits(rest[1..])
      ensures out' == w + Scrambled(alphabet.alpha, salt, done + [rest[0]])
      ensures x' == Register(FromDigits(rest[1..]), |rest| - 1)
      ensures x' == STOP_BIT <==> |rest| == 1
      ensures src.Valid() && src.Drawn == |done| + 1 && src.data == salt
    {
      EmitStep(rest);
      ScrambledAppend(alphabet.alpha, salt, done, rest[0]);
      var sym := EmitSymbol(src, Shr(x, FIVE_SHIFT));
      out' := out + [sym];
      x' := Shl(x, FIVE_RESET);
      RegisterStop(rest[1..]);
    }

    /** `apply` on digit d followed by the alphabet lookup: the symbol of draw
        number Drawn. */
    method EmitSymbol(src: Cursor.ByteSource, d: nat) returns (sym: byte)
      requires |alphabet.alpha| == 32 && d < 32
      requires src.Valid() && src.data == salt && CanDraw(|salt|, src.Drawn + 1)
      modifies src
      ensures src.Valid() && src.data == salt && src.Drawn == old(src.Drawn) + 1
      ensures sym == Symbol(alphabet.alpha, salt, old(src.Drawn), d)
    {
      src.ValidIsReady();
      var u := src.Apply(d as bv8);
      sym := alphabet.alpha[u as int];
    }

    /** `encode`: the symbols of n as a fresh string. */
    method Encode(n: u64) returns (s: seq<byte>)
      requires |alphabet.alpha| == 32 && Encodable(n)
      ensures s == Encoded(n)
    {
      s := EncodeInto(n, []);
    }

    /** `decode`: reject empty and over-long input, then look up, unmask and
        accumulate each symbol, stopping at the first rejected byte. */
    method Decode(input: seq<byte>) returns (r: Result<u64>)
      requires alphabet.WellFormed() && CanDraw(|salt|, DecodeDraws(input))
      ensures r == Decoded(input)
    {
      if |input| == 0 {
        return Err(Error(EmptyString, "Encoded input string is empty."));
      }
      if |input| > MAX_SYMBOLS {
        return Err(Error(OutOfRange, "Encoded value is too large"));
      }
      r := DecodeSymbols(input);
    }

    /** The `for` loop of `decode` over an input of accepted length. */
    method DecodeSymbols(input: seq<byte>) returns (r: Result<u64>)
      requires alphabet.WellFormed() && 1 <= |input| <= MAX_SYMBOLS && CanDraw(|salt|, DecodeDraws(input))
      ensures r == Decoded(input)
    {
      var src := new Cursor.ByteSource(salt);
      var len := |input|;
      PlaceBound(len - 1);
      var place: u64 := Pow32(len - 1);
      assert len - (0 + 1) == len - 1;
      var n: u64 := 0;
      ghost var c: nat := 0;
      AccumulatedStart(input);
      for idx := 0 to len
        invariant place == if idx < len then Pow32(len - (idx + 1)) else 0
        invariant forall j :: 0 <= j < idx ==> !Rejects(alphabet.mapping, input[j])
        invariant src.Valid() && src.Drawn == idx && src.data == salt
        invariant Accumulated(input, idx, n, c)
      {
        var g := GetMapping(idx, input[idx], alphabet.mapping);
        if g.Err? {
          DecodedRejected(input, idx);
          return Err(g.error);
        }
        AcceptedDraws(input, idx);
        n, place, c := AccumulateRound(src, input, idx, g.value, n, place, c);
      }
      DecodedAccepted(input, n, c);
      r := Ok(n);
    }
  }

  /** Set-up of `encode_into` for a value below 2^60: `n <<= 4; n |= 1;` and
      the shift by `leading_zeros / 5 * 5` leave every digit of n in the
      register. */
  method SmallRegister(n: u64) returns (x: u64)
    requires 1 <= n && Shr(n, QUAD_SHIFT) == 0
    ensures NumDigits(n) <= 12 && x == Register(n, NumDigits(n))
  {
    TopBits(n);
    MarkSmall(n);
    x := Shl(n, QUAD_RESET);
    x := Or1(x);
    assert x == n * 16 + 1;
    NormalizeSmall(n);
    var shift := LeadingZeros(x) / 5 * 5;
    AlignRegister(n, NumDigits(n));
    x := Shl(x, shift);
  }

  /** Set-up of `encode_into` for a value of 13 digits: the top four bits are
      the leading digit, and `n <<= 4; n |= 1;` leaves the other twelve in
      the register. */
  method LargeRegister(n: u64) returns (x: u64)
    requires Shr(n, QUAD_SHIFT) != 0
    ensures |Digits(n)| == 13 && Shr(n, QUAD_SHIFT) == Digits(n)[0]
    ensures x == Register(FromDigits(Digits(n)[1..]), 12)
  {
    TopBits(n);
    NormalizeLarge(n);
    MarkLarge(FromDigits(Digits(n)[1..]));
    x := Shl(n, QUAD_RESET);
    x := Or1(x);
  }

  /** The register is the stop bit exactly when no digit is left. */
  lemma RegisterStop(rest: seq<nat>)
    requires |rest| <= 12 && AllDigits(rest)
    ensures Register(FromDigits(rest), |rest|) == STOP_BIT <==> |rest| == 0
  {
    Pow2Constants();
    if rest == [] {
      EmptyRegister();
    } else {
      FirstDigit(rest);
      ShiftOutDigit(rest[0], FromDigits(rest[1..]), |rest|, FromDigits(rest));
    }
  }

  /** One round of `encode_into`: the top five bits of the register are the next
      digit and the shift leaves the register of the digits after it. */
  lemma EmitStep(rest: seq<nat>)
    requires AllDigits(rest) && 1 <= |rest| <= 12
    ensures Register(FromDigits(rest), |rest|) < TWO_64
    ensures Shr(Register(FromDigits(rest), |rest|), 59) == rest[0]
    ensures Shl(Register(FromDigits(rest), |rest|), 5) == Register(FromDigits(rest[1..]), |rest| - 1)
  {
    FirstDigit(rest);
    ShiftOutDigit(rest[0], FromDigits(rest[1..]), |rest|, FromDigits(rest));
  }

  /** The first digit of a non-empty digit string, at its place, plus the rest. */
  lemma FirstDigit(ds: seq<nat>)
    requires AllDigits(ds) && 1 <= |ds|
    ensures FromDigits(ds) == ds[0] * Pow32(|ds| - 1) + FromDigits(ds[1..])
    ensures FromDigits(ds[1..]) < Pow32(|ds| - 1)
  {
    assert ds == [ds[0]] + ds[1..];
    FromDigitsCons(ds[0], ds[1..]);
    FromDigitsBound(ds[1..]);
  }

  /** One step of the decode accumulator with k places left, F the value of the
      digits read so far and n the running total (0 before the first digit):
      returns the new multiple of the place and shows that the `+=` neither
      overflows nor loses the value. */
  lemma AccumulateStep(F: nat, d: nat, c: nat, n: int, first: bool, k: nat, k1: nat, P1: int, sum: int)
    returns (c': nat)
    requires d < 32 && 1 <= k <= MAX_SYMBOLS && k1 == k - 1 && P1 == Pow32(k1)
    requires n == Scale(F, k) % TWO_64 && (first ==> F == 0)
    requires !first ==> k <= 12 && n == Scale(c, k) && c < Pow2(64 - 5 * k)
    requires sum == n + (d * P1) % TWO_64
    ensures 0 <= sum < TWO_64
    ensures sum == Scale(32 * F + d, k1) % TWO_64
    ensures sum == Scale(c', k1)
    ensures c' < Pow2(64 - 5 * k1)
  {
    ScaleClosed(F, k);
    ScaleClosed(c, k);
    c' := AccumulateArith(F, d, c, n, first, k, k1, P1, sum);
    ScaleClosed(32 * F + d, k1);
    ScaleClosed(c', k1);
  }

  /** AccumulateStep with the places written as products. */
  lemma AccumulateArith(F: nat, d: nat, c: nat, n: int, first: bool, k: nat, k1: nat, P1: int, sum: int)
    returns (c': nat)
    requires d < 32 && 1 <= k <= MAX_SYMBOLS && k1 == k - 1 && P1 == Pow32(k1)
    requires n == (F * Pow32(k)) % TWO_64 && (first ==> F == 0)
    requires !first ==> k <= 12 && n == c * Pow32(k) && c < Pow2(64 - 5 * k)
    requires sum == n + (d * P1) % TWO_64
    ensures 0 <= sum < TWO_64
    ensures sum == ((32 * F + d) * Pow32(k1)) % TWO_64
    ensures sum == c' * Pow32(k1)
    ensures c' < Pow2(64 - 5 * k1)
  {
    if first {
      c' := AccumulateFirst(d, k1, P1, n, sum);
      assert 32 * F + d == d;
    } else {
      c' := AccumulateNext(F, d, c, n, k, k1, P1, sum);
    }
  }

  /** The first digit: its product with its place may wrap, and what is left
      is a multiple of the place with room for the digits still to come. */
  lemma AccumulateFirst(d: nat, k1: nat, P1: int, n: int, sum: int) returns (c': nat)
    requires d < 32 && k1 <= 12 && P1 == Pow32(k1) && n == 0 && sum == n + (d * P1) % TWO_64
    ensures 0 <= sum < TWO_64 && sum == (d * P1) % TWO_64
    ensures sum == c' * P1 && c' < Pow2(64 - 5 * k1)
  {
    PlacePowers(k1);
    FirstArith(d, P1, Pow2(64 - 5 * k1), TWO_64);
    c' := d % Pow2(64 - 5 * k1);
  }

  /** A later digit: the `+=` adds the digit at its place to an exact multiple
      of the place above without overflow. */
  lemma AccumulateNext(F: nat, d: nat, c: nat, n: int, k: nat, k1: nat, P1: int, sum: int) returns (c': nat)
    requires d < 32 && 1 <= k <= 12 && k1 == k - 1 && P1 == Pow32(k1)
    requires n == (F * Pow32(k)) % TWO_64 && n == c * Pow32(k) && c < Pow2(64 - 5 * k)
    requires sum == n + (d * P1) % TWO_64
    ensures 0 <= sum < TWO_64 && sum == ((32 * F + d) * P1) % TWO_64
    ensures sum == c' * P1 && c' < Pow2(64 - 5 * k1)
  {
    PlacePowers(k1);
    PlacePowers(k);
    StepArith(F, d, c, Pow2(64 - 5 * k), Pow32(k), P1, TWO_64);
    c' := 32 * c + d;
  }
}

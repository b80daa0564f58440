# weird: a salted base-32 codec for 64-bit identifiers, modelled in Dafny

The crate turns a `u64` into a short string of Crockford-style base-32 symbols
and back. Two things stand between a value and its text. The first is a
shuffled alphabet: a permutation of the 32 canonical symbols
`0123456789ABCDEFGHJKMNPQRSTVWXYZ`, with a 256-entry decode table built from
it. The second is a keystream drawn from a salt: each digit is XORed with the
next salt byte reduced modulo 32 before the alphabet lookup.

The model covers these parts:

- **The salt cursor `ByteSource`** of src/lib.rs and its older copy in
  src/salt.rs (`cursor.dfy`, `salt.dfy`). Each is a class with a mutable `idx`.
  Both are proved against one pure description of the byte stream
  (`keystream.dfy`). When the cursor reaches the end of the salt, `next`
  resets it, makes one recursive draw and throws that byte away. So after the
  first pass the stream re-enters the salt at index 1, not 0.
- **`Alphabet::from_checked_alphabet`** (`alphabet.dfy`). An in-place loop over
  a 256-entry array. It starts from the canonical table and gives every alias
  of each scrambled symbol that symbol's position. `'0'` also claims `O` and
  `o`; `'1'` also claims `I`, `i`, `L` and `l`.
- **`Weird::encode_into` / `encode`** (`codec.dfy`, with the register
  arithmetic in `shifts.dfy`). The value is packed into a 64-bit register
  behind a 4-bit stop marker. Five bits are shifted out per symbol until only
  the marker is left.
- **`Weird::decode`** (`codec.dfy`, with the place arithmetic in
  `places.dfy`). It checks the length, then looks each byte up in the table
  and unmasks it with the same keystream. The digits are accumulated with the
  leading `wrapping_mul`.
- **`fnv_hash`** (`fnv.dfy`): 32-bit FNV-1a followed by a shift/xor/add
  finishing mix.
- **Encode and decode together** (`roundtrip.dfy`). Every nonzero value
  round-trips, and the encoding is injective. Zero is the exception (see
  Findings). Thirteen-symbol inputs whose leading digit is 16 or more wrap
  modulo 2^64, so two different inputs decode to the same value.

Representation choices:

- A `u64` is an `int` in `[0, 2^64)`. Shifts are written as multiplication,
  division and `% 2^64` (`u64.dfy`).
- Salt bytes are `bv8`, so `apply` is literally `u ^ (b % 32)`.
- `fnv_hash` works on `bv32`, whose `+`, `*`, `<<` and `>>` wrap exactly like
  Rust's `wrapping_add`, `wrapping_mul` and shifts on `u32`.
- Text is a sequence of bytes (`byte`, `0..256`).
- The canonical table `CANONICAL_MAPPING` is a parameter. It is constrained by
  `IsCanonicalMapping`: 256 entries, each a digit or one of the sentinels −1 and
  −2, and each canonical symbol mapped to its own position.

Encode and decode draw the same keystream, so the round trip does not depend
on the re-entry index.

## Model

| member | source | states |
|---|---|---|
| Keystream.DrawStep | src/lib.rs:90-99 | A `next` from the cursor state after k draws reads the salt index of draw k and leaves the cursor in the state after k + 1 draws. Together with KeyIndex this makes the stream `data[k]` for k < L and `data[1 + (k-L) % (L-1)]` afterwards. |
| Keystream.FirstPass | src/lib.rs:90-99 | On the first pass, draw k returns `data[k]`. |
| Keystream.SteadyState | src/salt.rs:19-26 | After the first pass the stream repeats with period L − 1, and index 0 is never read again. |
| Keystream.FirstWrap | src/salt.rs:19-26 | The first wrap-around returns `data[1]` and leaves the cursor at index 2. |
| Keystream.MaskInvolution | src/lib.rs:102-105 | XORing twice with the same draw's mask gives the byte back, and a byte below 32 stays below 32. |
| Keystream.MaskDigitTwice | src/lib.rs:102-105 | Masking a digit twice with the same draw is the identity. This is why decode undoes encode. |
| Keystream.IdxAfter | src/lib.rs:90-99 | After k ≥ 1 draws the cursor index lies in `1..L`. |
| Masks.XorMaskTwice | src/lib.rs:102-105 | For digits and masks below 32, `apply` with the same mask is its own inverse. |
| Masks.XorMaskZero | src/lib.rs:102-105 | A masked digit is 0 exactly when the digit equals the mask. |
| Cursor.ByteSource.constructor | src/lib.rs:71-76 | `Salt::byte_source`: a fresh cursor over exactly the salt's bytes, at index 0, with no draws made. |
| Cursor.ByteSource.ValidIsReady | src/lib.rs:91-96 | A cursor that has a draw left (salt at least 2 bytes, or still on the first pass) neither indexes past the salt nor recurses without end. |
| Cursor.ByteSource.Next | src/lib.rs:90-99 | Returns the byte at the index it reads (1 at the end of the salt), leaves `1 <= idx <= L`, and delivers exactly the stream byte of its draw number. |
| Cursor.ByteSource.Apply | src/lib.rs:102-105 | Returns `u ^ (byte % 32)` for the next stream byte, which is below 32 when u is. |
| SaltCursor.Salt.Get | src/salt.rs:4-9 | A fresh cursor at index 0 over exactly the wrapped bytes. |
| SaltCursor.ByteSource.constructor | src/salt.rs:5-8 | The struct literal: index 0 over the given bytes. |
| SaltCursor.ByteSource.ValidIsReady | src/salt.rs:19-24 | With a draw left, `next` neither indexes past the salt nor recurses without end. |
| SaltCursor.ByteSource.Next | src/salt.rs:18-27 | Same behaviour as the src/lib.rs cursor, proved against the same stream. |
| SaltCursor.ByteSource.Apply | src/salt.rs:29-32 | `u ^ (next() % 32)`, below 32 when u is, equal to the stream's mask for its draw. |
| SaltCursor.ApplyBoth | src/salt.rs:29-32 | Two cursors over one salt at the same draw: the second `apply` undoes the first, for every byte. |
| SaltCursor.Lockstep | src/salt.rs:29-32 | Over any sequence of bytes, the first cursor's outputs are each byte XOR the mask of its position, and the second cursor restores the input exactly. |
| Alphabets.PermutationHasAll | src/lib.rs:63 | A permutation of the canonical symbols contains every canonical symbol. |
| Alphabets.CanonicalSymbolShape | src/lib.rs:63 | Canonical symbols are digits or upper-case letters other than I, L, O and U. |
| Alphabets.AliasOfAliases | src/lib.rs:149-172 | Every byte written for a symbol identifies that symbol. |
| Alphabets.AliasesDisjoint | src/lib.rs:148-174 | No two distinct symbols write the same table entry, so no iteration overwrites another's work. |
| Alphabets.ToAsciiLowercase | src/lib.rs:171 | `u8::to_ascii_lowercase`: an upper-case ASCII letter moves up by 32 to its lower-case form, and every other byte is unchanged. |
| Alphabets.MapSymbol | src/lib.rs:149-173 | One iteration sets every alias of the scrambled symbol to the value and changes no other entry. |
| Alphabets.FromCheckedAlphabet | src/lib.rs:145-177 | `alpha` is stored unchanged; each `alpha[i]` and its lower-case form map to i; the position of '0' also claims O and o, and that of '1' claims I, i, L and l; every other byte keeps its canonical entry; the table inverts the permutation. |
| Base32.NumDigits | src/lib.rs:239-263 | The number of base-32 digits of v is the least k ≥ 1 with v < 32^k: one for every v below 32, zero included, and otherwise 32^(k−1) ≤ v. |
| Base32.Digits | src/lib.rs:239-263 | The digits have that length, most significant first, evaluate to v, and have no leading zero when v ≥ 1. |
| Base32.DigitsMinimal | src/lib.rs:239-263 | No shorter digit string has value v, unless v is 0. |
| Base32.DigitCountU64 | src/lib.rs:239-253 | A `u64` has at most 13 digits; it has 13 exactly when v ≥ 2^60, and then the leading digit is the top four bits. |
| Codec.ScrambledSingle | src/lib.rs:252 | A single digit is written as the symbol of the first draw. |
| Codec.ScrambledAppend | src/lib.rs:258-263 | Writing one more digit appends its symbol, masked by the draw of its position. |
| U64.LeadingZeros | src/lib.rs:245 | `u64::leading_zeros`: at most 64, and for nonzero x the count r places x in [2^(63−r), 2^(64−r)). |
| Codec.SmallRegister | src/lib.rs:242-246 | For n below 2^60, shifting in the four-bit marker and then `leading_zeros / 5 * 5` zero bits leaves all of n's digits (at most 12) in the register above the stop marker. |
| Codec.LargeRegister | src/lib.rs:249-253 | For n ≥ 2^60 the top four bits are the leading digit of 13, and the register holds the other twelve above the marker. |
| Codec.RegisterStop | src/lib.rs:221 | The register equals `STOP_BIT` exactly when no digit is left, so the loop runs once per remaining digit. |
| Codec.EmitStep | src/lib.rs:258-263 | `n >> 59` is the next digit, and `n <<= 5` leaves the register of the digits after it. |
| Codec.GetMapping | src/lib.rs:269-283 | −1 gives `InvalidDigit(idx, u)`, −2 gives `CheckDigitUnsupported(idx, u)`, and any other entry is returned as the digit; the lookup is in bounds for every byte. |
| Codec.FirstRejected | src/lib.rs:299-300 | The position of the first byte the table rejects: every earlier byte is accepted, and the byte there is rejected. |
| Codec.FirstRejectedUnique | src/lib.rs:299-300 | That description determines the position. |
| Codec.Weird.Encoded | src/lib.rs:229-263 | The output has one symbol per base-32 digit of n: 1 to 13 symbols, and 13 exactly when n ≥ 2^60. |
| Codec.Weird.EncodedIntended | src/lib.rs:229-232 | The corrected encoding agrees with `encode` on every nonzero n. |
| Codec.Weird.Unmask | src/lib.rs:301 | The unmasked table entry is a digit below 32. |
| Codec.Weird.Recovered | src/lib.rs:299-301 | `decode` recovers one digit below 32 per accepted byte. |
| Codec.Weird.RecoveredSnoc | src/lib.rs:299-301 | Reading one more accepted byte appends its unmasked digit. |
| Codec.Weird.AcceptedDraws | src/lib.rs:299-301 | Every byte before the first rejected one has a salt draw available. |
| Codec.Weird.AccumulatedStart | src/lib.rs:295-297 | Before the first byte the accumulator is 0 at place 32^(len−1). |
| Codec.Weird.DecodedRejected | src/lib.rs:300 | Decoding stops with the error of the first rejected byte. |
| Codec.Weird.DecodedAccepted | src/lib.rs:308 | With every byte accepted, decode returns the accumulator. |
| Codec.Weird.PrefixRecovered | src/lib.rs:299-306 | The running total, multiplied out place by place, is the value of the digits recovered so far. |
| Codec.Weird.AccumulateRound | src/lib.rs:300-305 | One iteration: draws exactly once, adds the digit at its place without overflow, and divides `place` exactly by 32. |
| Codec.Weird.ReadDigit | src/lib.rs:301 | `apply` on a table entry yields the digit the keystream unmasks for that position. |
| Codec.AccumulateStep | src/lib.rs:302 | The `+=` never exceeds `u64::MAX`; the sum is the wrapped value of the digits so far at the next place; only the leading product may wrap. |
| Codec.AccumulateArith | src/lib.rs:302 | The same step with the places written as products. |
| Codec.AccumulateFirst | src/lib.rs:302 | The leading `wrapping_mul` leaves a multiple of the place with room for the digits still to come. |
| Codec.AccumulateNext | src/lib.rs:302 | A later digit adds to an exact multiple of the place above without overflow. |
| Codec.Weird.Decoded | src/lib.rs:268-311 | Empty input gives `EmptyString` and more than 13 bytes gives `OutOfRange`, both before any byte is read. Otherwise the first rejected byte gives its error with its position and value. Success means every byte has a digit entry. |
| Codec.Weird.EncodeInto | src/lib.rs:217-266 | Appends exactly the encoding of n to the sink. |
| Codec.Weird.EmitDigits | src/lib.rs:258-263 | The `while` loop writes the symbols of the digits in the register, in order, one draw each, and stops at the stop marker. |
| Codec.Weird.EmitRound | src/lib.rs:259-262 | One iteration writes the symbol of the next digit and shifts it out of the register. |
| Codec.Weird.EmitSymbol | src/lib.rs:252 | `alpha[salt.apply(d)]` is the symbol of digit d for the current draw. |
| Codec.Weird.Encode | src/lib.rs:211-215 | A fresh string holding the encoding of n. |
| Codec.Weird.Decode | src/lib.rs:268-311 | Returns exactly the result `Decoded` describes, errors included. |
| Codec.Weird.DecodeSymbols | src/lib.rs:295-308 | The `for` loop returns the first rejected byte's error, or the digits' value wrapped to 64 bits. |
| RoundTrip.SymbolRecovers | src/lib.rs:300-301 | Decoding the symbol written for digit d at position k gives d back. |
| RoundTrip.SymbolInjective | src/lib.rs:252 | At one position, distinct digits get distinct symbols. |
| RoundTrip.DecodeScrambled | src/lib.rs:295-308 | Decoding the symbols of a digit string of accepted length draws once per symbol, rejects none, and returns the digits' value mod 2^64. |
| RoundTrip.RoundTrip | src/lib.rs:234-308 | `decode(encode(n)) == Ok(n)` for every n ≥ 1, with the same number of draws on both sides. |
| RoundTrip.EncodedInjective | src/lib.rs:217-266 | Distinct nonzero values have distinct encodings. |
| RoundTrip.ZeroAsWritten | src/lib.rs:229-232 | `encode(0)` is "0" with no draw. `decode("0")` returns the position of '0' in the alphabet, unmasked by the first draw, and that is 0 exactly when the two coincide. |
| RoundTrip.ZeroMisdecoded | src/lib.rs:229-232 | With '0' first in the alphabet and salt [1, 1], `decode(encode(0))` is `Ok(1)`. |
| RoundTrip.IntendedRoundTrip | src/lib.rs:229-308 | The corrected encoding round-trips every `u64`, zero included. |
| RoundTrip.IntendedInjective | src/lib.rs:229-266 | The corrected encoding is injective on all of `u64`. |
| RoundTrip.WrapAliasing | src/lib.rs:293-308 | A 13-symbol input with leading digit ≥ 16 and the input with 16 taken off that digit are different strings. Both decode to the value less 2^64. |
| RoundTrip.WrapValue | src/lib.rs:302 | The wrapping arithmetic behind WrapAliasing. |
| Fnv.FoldAppend | src/lib.rs:319-322 | Folding a concatenation continues from where the first part left off. |
| Fnv.FoldAccumulated | src/lib.rs:316-322 | The fold starts at 2166136261 and maps acc to `(acc ^ b) * 16777619 mod 2^32` for each appended byte. |
| Fnv.FnvHash | src/lib.rs:315-329 | The hash is the finishing mix of the accumulator that starts at the offset basis and takes one FNV-1a step per byte, in order. |
| Fnv.AddShl13Undone | src/lib.rs:324 | `hash + (hash << 13)` modulo 2^32 is undone by `y - (y << 13) + (y << 26)`, so the step loses no information. |
| Fnv.XorShr7Undone | src/lib.rs:325 | `hash ^ (hash >> 7)` is undone by XORing in the shifts by 7, 14, 21 and 28. |
| Fnv.AddShl3Undone | src/lib.rs:326 | `hash + (hash << 3)` modulo 2^32 is undone by the alternating sum of the shifts by multiples of 3. |
| Fnv.XorShr17Undone | src/lib.rs:327 | `hash ^ (hash >> 17)` is its own inverse. |
| Fnv.AddShl5Undone | src/lib.rs:328 | `hash + (hash << 5)` modulo 2^32 is undone by the alternating sum of the shifts by multiples of 5. |
| Fnv.KnownValues | src/lib.rs:315-329 | The empty input, "a" and "foobar" fold to the published 32-bit FNV-1a values, and the finishing mix maps them to fixed results. |

## Left out

- `Alphabet::from_salt`, `from_seed`, `from_rng`, `Weird::from_salt` and `Weird::from_salt_with_rng` (src/lib.rs:116-141, 193-205) shuffle with `rand` and the external `SquirrelRng`, which are not part of this model. The shuffled alphabet is a parameter constrained to be a permutation of the canonical symbols. `fnv_hash`, which seeds that shuffle, is modelled.
- `Weird::new` (src/lib.rs:207-209) only stores its arguments. `Weird` is a datatype of an alphabet and a salt.
- Alphabets.IsCanonicalMapping: resources/u8-mapping.txt is not part of this model. The table is a parameter with only the properties stated above, so facts about its other entries (which bytes are check digits) are not modelled.
- The `error` module is not part of this model. `Kind` and `Error` are plain datatypes carrying the kind and message the code passes.
- The `fmt::Write` sink, the `?` error propagation in `encode_into` and `encode`'s `expect` (src/lib.rs:211-266) are formatting plumbing. The output is a sequence of bytes that cannot fail.
- The `fmt::Debug` implementation (src/lib.rs:180-185) is display only.
- `get_unchecked` (src/lib.rs:270-271) is ordinary checked indexing; the index is a byte into a 256-entry table.
- `decode` takes `impl AsRef<str>`; the model takes the string's bytes, which is what the loop reads.
- Cursor.ByteSource.Next: the panic on a one-byte salt's second draw and the endless recursion on an empty salt are excluded by the `Ready`/`CanDraw` preconditions rather than modelled as outcomes. Encode and decode therefore require `CanDraw` for the draws they make.
- SaltCursor.ByteSource.Next: the same preconditions as the src/lib.rs cursor.
- Fnv.Finish: each of the five steps of the finishing mix is proved invertible on its own, but the composition is not stated as a bijection of its own; chaining the five 32-bit inverses in one proof is beyond the solver's budget.
- benches/encode.rs and benches/decode.rs time the current `Weird::from_salt`, `encode`, `encode_into` and `decode` against the external crockford crate; they are timing harnesses and add no behaviour.
- The crate's example programs are printing programs written against an older API (`StaticSalt`, `shift`) that src/lib.rs no longer has.

## Findings

| source | as written | input that shows it | evidently intended | confidence | as-written member | corrected member |
|---|---|---|---|---|---|---|
| src/lib.rs:229-232 | `encode(0)` writes the literal symbol '0' without drawing from the salt. `decode` treats it like any other symbol: it looks up the position of '0' in the shuffled alphabet and XORs it with `salt[0] % 32`. | Alphabet with '0' in position 0 and salt `[1, 1]`: `decode(encode(0))` is `Ok(1)`. | Zero is encoded like every other value, as its single digit 0 masked by the first draw, and so round-trips. | not executed | RoundTrip.ZeroAsWritten, RoundTrip.ZeroMisdecoded | Codec.Weird.EncodedIntended, RoundTrip.IntendedRoundTrip |

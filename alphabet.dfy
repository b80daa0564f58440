/** Alphabets of src/lib.rs: a permutation of the 32 canonical symbols and the
    256-entry decode table derived from it. */
module Alphabets {

  /** Rust's `i8`, the entry type of the decode tables. */
  type i8 = x: int | -128 <= x < 128

  /** Rust's `u8` for the bytes of text: symbols, encoded output and decoder
      input, which the codec only compares and uses as table indices. */
  type byte = x: int | 0 <= x < 256

  /** `UPPERCASE_ENCODING`: the canonical symbols in digit order, the ASCII
      bytes of "0123456789ABCDEFGHJKMNPQRSTVWXYZ". */
  const UPPERCASE_ENCODING: seq<byte> := [
    0x30, 0x31, 0x32, 0x33, 0x34, 0x35, 0x36, 0x37, 0x38, 0x39, 0x41, 0x42, 0x43, 0x44, 0x45, 0x46,
    0x47, 0x48, 0x4A, 0x4B, 0x4D, 0x4E, 0x50, 0x51, 0x52, 0x53, 0x54, 0x56, 0x57, 0x58, 0x59, 0x5A]

  /** Table entry of a byte that is no symbol of any alphabet. */
  const INVALID: i8 := -1
  /** Table entry of a byte reserved for the unsupported check digit. */
  const CHECK_DIGIT: i8 := -2

  /** What `CANONICAL_MAPPING` is known to satisfy: 256 entries, each a digit
      or one of the two sentinels, and each canonical symbol mapped to its
      position. Its other entries are not part of this model. */
  predicate IsCanonicalMapping(t: seq<i8>)
  {
    && |t| == 256
    && (forall b :: 0 <= b < 256 ==> CHECK_DIGIT <= t[b] < 32)
    && (forall i :: 0 <= i < 32 ==> t[UPPERCASE_ENCODING[i] as int] == i)
  }

  /** `alpha` holds each canonical symbol exactly once. */
  predicate IsPermutation(alpha: seq<byte>)
  {
    && |alpha| == 32
    && (forall i :: 0 <= i < 32 ==> alpha[i] in UPPERCASE_ENCODING)
    && (forall i, j :: 0 <= i < j < 32 ==> alpha[i] != alpha[j])
  }

  /** A permutation of the canonical symbols holds every one of them: 32
      distinct bytes drawn from 32 symbols leave none out. */
  lemma PermutationHasAll(alpha: seq<byte>, u: byte)
    requires IsPermutation(alpha) && u in UPPERCASE_ENCODING
    ensures exists i :: 0 <= i < 32 && alpha[i] == u
  {
    if forall i :: 0 <= i < 32 ==> alpha[i] != u {
      var symbols := Elements(UPPERCASE_ENCODING);
      SymbolCount(UPPERCASE_ENCODING);
      DistinctWithin(alpha, symbols - {u});
      assert false;
    }
  }

  /** The bytes occurring in s. */
  function Elements(s: seq<byte>): set<byte>
  {
    set x | x in s
  }

  /** A sequence has at most as many distinct elements as it has entries. */
  lemma {:induction false} SymbolCount(s: seq<byte>)
    ensures |Elements(s)| <= |s|
  {
    if s != [] {
      SymbolCount(s[1..]);
      assert s == [s[0]] + s[1..];
      assert Elements(s) == Elements(s[1..]) + {s[0]};
    }
  }

  /** Distinct entries all drawn from a set are no more than the set's size. */
  lemma {:induction false} DistinctWithin(s: seq<byte>, pool: set<byte>)
    requires forall i, j :: 0 <= i < j < |s| ==> s[i] != s[j]
    requires forall i :: 0 <= i < |s| ==> s[i] in pool
    ensures |s| <= |pool|
  {
    if s != [] {
      var rest := pool - {s[0]};
      DistinctWithin(s[1..], rest);
      assert pool == rest + {s[0]};
    }
  }

  /** `u8::to_ascii_lowercase`. */
  function ToAsciiLowercase(u: byte): (r: byte)
    ensures 'A' as byte <= u <= 'Z' as byte ==> r == u + 32
    ensures !('A' as byte <= u <= 'Z' as byte) ==> r == u
  {
    if 'A' as byte <= u <= 'Z' as byte then u + 32 else u
  }

  /** The bytes a decode table sends to the digit whose output symbol is s:
      the symbol in both cases, plus O and o for the symbol 0 and I, i, L and l
      for the symbol 1. */
  function Aliases(s: byte): set<byte>
  {
    if s == '0' as byte then {'0' as byte, 'O' as byte, 'o' as byte}
    else if s == '1' as byte then {'1' as byte, 'I' as byte, 'i' as byte, 'L' as byte, 'l' as byte}
    else {s, ToAsciiLowercase(s)}
  }

  /** Canonical symbols are the digits and the upper-case letters other than I, L, O and U. */
  predicate SymbolShape(u: byte)
  {
    || ('0' as byte <= u <= '9' as byte)
    || ('A' as byte <= u <= 'Z' as byte && u != 'I' as byte && u != 'L' as byte && u != 'O' as byte && u != 'U' as byte)
  }

  lemma CanonicalSymbolShape(u: byte)
    requires u in UPPERCASE_ENCODING
    ensures SymbolShape(u)
  {
  }

  /** The symbol whose aliases contain b, when b is an alias at all. */
  function AliasOf(b: byte): byte
  {
    if b == 'O' as byte || b == 'o' as byte then '0' as byte
    else if b == 'I' as byte || b == 'i' as byte || b == 'L' as byte || b == 'l' as byte then '1' as byte
    else if 'a' as byte <= b <= 'z' as byte then b - 32
    else b
  }

  lemma AliasOfAliases(s: byte, b: byte)
    requires SymbolShape(s) && b in Aliases(s)
    ensures AliasOf(b) == s
  {
  }

  /** Distinct symbols never share an alias, so no write of the table
      construction overwrites another symbol's entry. */
  lemma AliasesDisjoint(s: byte, t: byte, b: byte)
    requires s in UPPERCASE_ENCODING && t in UPPERCASE_ENCODING && s != t
    ensures !(b in Aliases(s) && b in Aliases(t))
  {
    CanonicalSymbolShape(s);
    CanonicalSymbolShape(t);
    if b in Aliases(s) && b in Aliases(t) {
      AliasOfAliases(s, b);
      AliasOfAliases(t, b);
    }
  }

  datatype Alphabet = Alphabet(alpha: seq<byte>, mapping: seq<i8>)
  {
    /** The shape the Rust types give: 32 symbols and 256 table entries, each a
        digit or a sentinel. */
    predicate WellFormed()
    {
      && |alpha| == 32
      && |mapping| == 256
      && (forall b :: 0 <= b < 256 ==> CHECK_DIGIT <= mapping[b] < 32)
    }

    /** What every alphabet built by `from_checked_alphabet` satisfies: the table
        inverts the permutation. */
    predicate Checked()
    {
      && WellFormed()
      && IsPermutation(alpha)
      && Inverts()
    }

    /** The table sends the symbol at each position back to the position. */
    predicate Inverts()
    {
      |alpha| == 32 && |mapping| == 256 && forall i :: 0 <= i < 32 ==> mapping[alpha[i] as int] == i
    }
  }

  /** One iteration of the table construction: every alias of the scrambled
      symbol s now maps to `value`, and no other entry changes. */
  method MapSymbol(mapping: array<i8>, s: byte, value: i8)
    requires mapping.Length == 256
    modifies mapping
    ensures forall b :: 0 <= b < 256 ==>
      mapping[b] == if b as byte in Aliases(s) then value else old(mapping[b])
  {
    if s == '0' as byte {
      mapping['0' as int] := value;
      mapping['O' as int] := value;
      mapping['o' as int] := value;
    } else if s == '1' as byte {
      mapping['1' as int] := value;
      mapping['I' as int] := value;
      mapping['i' as int] := value;
      mapping['L' as int] := value;
      mapping['l' as int] := value;
    } else {
      mapping[s as int] := value;
      mapping[ToAsciiLowercase(s) as int] := value;
    }
  }

  /** `Alphabet::from_checked_alphabet`: start from the canonical table and,
      for each position i, send every alias of the scrambled symbol alpha[i]
      to the canonical value of position i. */
  method FromCheckedAlphabet(canonical: seq<i8>, alpha: seq<byte>) returns (a: Alphabet)
    requires IsCanonicalMapping(canonical) && IsPermutation(alpha)
    ensures a.alpha == alpha && |a.mapping| == 256
    ensures forall i :: 0 <= i < 32 ==>
      a.mapping[alpha[i] as int] == i && a.mapping[ToAsciiLowercase(alpha[i]) as int] == i
    ensures forall i :: 0 <= i < 32 && alpha[i] == '0' as byte ==>
      a.mapping['O' as int] == i && a.mapping['o' as int] == i
    ensures forall i :: 0 <= i < 32 && alpha[i] == '1' as byte ==>
      a.mapping['I' as int] == i && a.mapping['i' as int] == i &&
      a.mapping['L' as int] == i && a.mapping['l' as int] == i
    ensures forall b :: 0 <= b < 256 && (forall i :: 0 <= i < 32 ==> b as byte !in Aliases(alpha[i])) ==>
      a.mapping[b] == canonical[b]
    ensures a.Checked()
  {
    var mapping := new i8[256](b requires 0 <= b < 256 => canonical[b]);
    for i := 0 to 32
      invariant forall j, b :: 0 <= j < i && 0 <= b < 256 && b as byte in Aliases(alpha[j]) ==> mapping[b] == j
      invariant forall b :: 0 <= b < 256 && (forall j :: 0 <= j < i ==> b as byte !in Aliases(alpha[j])) ==>
        mapping[b] == canonical[b]
    {
      forall j, b: byte | 0 <= j < i
        ensures !(b in Aliases(alpha[j]) && b in Aliases(alpha[i]))
      {
        AliasesDisjoint(alpha[j], alpha[i], b);
      }
      MapSymbol(mapping, alpha[i], canonical[UPPERCASE_ENCODING[i] as int]);
    }
    a := Alphabet(alpha, mapping[..]);
  }
}

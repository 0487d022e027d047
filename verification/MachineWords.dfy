/** The 32-bit and 64-bit arithmetic that the cache and session services share, over an arbitrary mixing
    function. */
module MachineWords {

  import opened PowerOfTwo

  const POW32: nat := Pow2(32)
  const POW64: nat := Pow2(64)
  const SPREAD_FACTOR: nat := 2654435761

  /** A 64-bit mixing function, otherwise arbitrary. */
  function Mix64(mix: nat -> nat, x: nat): nat {
    mix(x % POW64) % POW64
  }

  /** The low `b` bits of a word. */
  function Low(x: nat, b: nat): (r: nat)
    ensures r < Pow2(b)
  {
    Residue(x, Pow2(b));
    x % Pow2(b)
  }

  /** Setting the lowest bit. */
  lemma MadeOdd(x: nat, limit: nat)
    requires x < limit && limit % 2 == 0
    ensures var odd := x + (1 - x % 2); odd < limit && odd % 2 == 1 && odd / 2 == x / 2
  {
  }

  /** A word shifted right by `b` bits. */
  function High(x: nat, b: nat): nat {
    Quotient(x, Pow2(b));
    x / Pow2(b)
  }

  lemma Quotient(x: nat, m: int)
    requires m > 0
    ensures x / m >= 0
  {
  }

  /** A word shifted left by `b` bits. */
  function Left(x: nat, b: nat): nat {
    Product(x, Pow2(b));
    x * Pow2(b)
  }

  lemma Product(x: nat, m: int)
    requires m > 0
    ensures x * m >= 0
  {
  }

  /** A 64-bit sum, cut to 32 bits and masked. */
  function Masked(x: nat, items: nat): nat
    requires items > 0
  {
    x % POW64 % POW32 % items
  }

  /** `permute_index`, on 32-bit arguments; the mask is `items - 1` for a power of two.  The services differ
      in the factor of the seed. */
  function SpreadIndex(i: nat, items: nat, seed: nat, factor: nat): nat
    requires items > 0
  {
    Masked(Spread(i, seed, factor), items)
  }

  function Spread(i: nat, seed: nat, factor: nat): nat {
    SPREAD_FACTOR * i + seed * factor
  }

  lemma MaskedIs(x: nat, bits: nat, word: nat, wide: nat)
    requires bits <= word <= wide && Pow2(word) == POW32 && Pow2(wide) == POW64
    ensures Masked(x, Pow2(bits)) == x % Pow2(bits)
  {
    WrapThenMask(x, word, wide);
    WrapThenMask(x, bits, word);
  }

  /** Masking after both wraps is the affine map modulo the table size. */
  lemma SpreadIsAffine(i: nat, bits: nat, seed: nat, factor: nat)
    requires bits <= 32
    ensures SpreadIndex(i, Pow2(bits), seed, factor) == Affine(SPREAD_FACTOR, seed * factor, i, bits)
  {
    MaskedIs(Spread(i, seed, factor), bits, 32, 64);
  }

  /** The map sends different positions to different slots of any power-of-two table ... */
  lemma SpreadDistinct(bits: nat, seed: nat, factor: nat, i: nat, j: nat)
    requires bits <= 32 && i < j < Pow2(bits)
    ensures SpreadIndex(i, Pow2(bits), seed, factor) != SpreadIndex(j, Pow2(bits), seed, factor)
  {
    SpreadIsAffine(i, bits, seed, factor);
    SpreadIsAffine(j, bits, seed, factor);
    if Affine(SPREAD_FACTOR, seed * factor, i, bits) == Affine(SPREAD_FACTOR, seed * factor, j, bits) {
      AffineDistinct(SPREAD_FACTOR, seed * factor, bits, i, j);
    }
  }

  /** ... and reaches every slot. */
  lemma SpreadOnto(bits: nat, seed: nat, factor: nat, v: nat) returns (i: nat)
    requires bits <= 32 && v < Pow2(bits)
    ensures i < Pow2(bits) && SpreadIndex(i, Pow2(bits), seed, factor) == v
  {
    i := AffineOnto(SPREAD_FACTOR, seed * factor, bits, v);
    SpreadIsAffine(i, bits, seed, factor);
  }
}

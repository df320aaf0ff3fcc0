/** The three helpers of the fmath library that the order record uses to pack a
    trader id and a trade id into one 64-bit identity ("guid").  The library
    itself is not part of this model; they are defined here on the unsigned bit
    patterns: the trader id is the high 32 bits, the trade id the low 32 bits.
    The int32/uint32/int64/uint64 conversions around them in the source only
    reinterpret bits, so they disappear in this view. */
module Fmath {
  import opened Ints

  function CombineInt32(high: u32, low: u32): (whole: u64)
  {
    high * TWO_32 + low
  }

  function HighInt32(whole: u64): (high: u32)
  {
    whole / TWO_32
  }

  function LowInt32(whole: u64): (low: u32)
  {
    whole % TWO_32
  }

  /** Splitting a packed identity gives back both halves. */
  lemma HalvesOfCombine(high: u32, low: u32)
    ensures HighInt32(CombineInt32(high, low)) == high
    ensures LowInt32(CombineInt32(high, low)) == low
  {
    var w := CombineInt32(high, low);
    assert w == high * TWO_32 + low;
    DivModUnique(w, high, low);
  }

  /** Every 64-bit identity is the packing of its two halves. */
  lemma CombineOfHalves(whole: u64)
    ensures CombineInt32(HighInt32(whole), LowInt32(whole)) == whole
  {
  }

  /** Packing is injective: two identities are equal exactly when both the
      trader ids and the trade ids are. */
  lemma CombineInjective(h1: u32, l1: u32, h2: u32, l2: u32)
    ensures CombineInt32(h1, l1) == CombineInt32(h2, l2) <==> h1 == h2 && l1 == l2
  {
    HalvesOfCombine(h1, l1);
    HalvesOfCombine(h2, l2);
  }

  lemma DivModUnique(w: int, q: int, r: int)
    requires 0 <= r < TWO_32 && w == q * TWO_32 + r
    ensures w / TWO_32 == q && w % TWO_32 == r
  {
  }
}

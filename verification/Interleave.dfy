/** Bit-interleaved lanes: a 64-bit lane is held as its even and its odd bits. A 32-bit word is a
    64-bit vector below 2^32, with the truncation of the shifts written out. */
module Interleave {
  import opened KeccakSpec

  type Half = v: bv64 | v <= 0xFFFFFFFF

  datatype Pair = Pair(even: Half, odd: Half)

  // ---- interleaving ----

  /** Compacts the bits at even positions into the low 32 bits. */
  function EvenBits(v: bv64): Half {
    var x0 := v & 0x5555555555555555;
    var x1 := (x0 | (x0 >> 1)) & 0x3333333333333333;
    var x2 := (x1 | (x1 >> 2)) & 0x0F0F0F0F0F0F0F0F;
    var x3 := (x2 | (x2 >> 4)) & 0x00FF00FF00FF00FF;
    var x4 := (x3 | (x3 >> 8)) & 0x0000FFFF0000FFFF;
    (x4 | (x4 >> 16)) & 0x00000000FFFFFFFF
  }

  function OddBits(v: bv64): Half {
    EvenBits(v >> 1)
  }

  /** The interleaved form of a lane. */
  function Il64(v: bv64): Pair {
    Pair(EvenBits(v), OddBits(v))
  }

  /** Spreads 32 bits to the even positions. */
  function Spread(v: Half): bv64 {
    var x0 := (v | (v << 16)) & 0x0000FFFF0000FFFF;
    var x1 := (x0 | (x0 << 8)) & 0x00FF00FF00FF00FF;
    var x2 := (x1 | (x1 << 4)) & 0x0F0F0F0F0F0F0F0F;
    var x3 := (x2 | (x2 << 2)) & 0x3333333333333333;
    (x3 | (x3 << 1)) & 0x5555555555555555
  }

  function Dil(p: Pair): bv64 {
    Spread(p.even) | (Spread(p.odd) << 1)
  }

  /** Interleaving loses nothing. */
  lemma DilUndoesIl64(v: bv64)
    ensures Dil(Il64(v)) == v
  {
  }

  // ---- the lane operations on halves ----

  function Rotl32(v: Half, n: int): Half {
    if 1 <= n <= 31 then ((v << n) | (v >> (32 - n))) & 0xFFFFFFFF else v
  }

  /** Rotation of an interleaved lane: an odd amount swaps the halves. */
  function Irol(p: Pair, r: int): Pair {
    var m := r / 2;
    if r % 2 == 1 then Pair(Rotl32(p.odd, m + 1), Rotl32(p.even, m))
    else Pair(Rotl32(p.even, m), Rotl32(p.odd, m))
  }

  /** Interleaving turns the rotation of v by n into two rotations of halves. */
  ghost predicate Turns(v: bv64, n: int) {
    Il64(Rotl(v, n)) == Irol(Il64(v), n)
  }
}

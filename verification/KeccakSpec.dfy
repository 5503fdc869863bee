/** Keccak-f[1600] as FIPS 202 sections 3.2.1 to 3.2.5 and 3.3 define it. Lane (x, y) of the
    standard is element x + 5 y of the state. The step mappings are written over an algebra of
    lanes, because the same rounds run on plain 64-bit lanes and on bit-interleaved halves. */
module KeccakSpec {

  /** The lane operations: exclusive or, (not a) and b, rotation, and the round constants. */
  datatype Algebra<!T> = Algebra(xor: (T, T) -> T, andNot: (T, T) -> T, rot: (T, int) -> T, rc: int -> T)

  function Lane<T>(s: seq<T>, x: int, y: int): T
    requires |s| == 25
  {
    s[x % 5 + 5 * (y % 5)]
  }

  // ---- theta, section 3.2.1 ----

  function Parity<T>(L: Algebra<T>, s: seq<T>, x: int): T
    requires |s| == 25
  {
    L.xor(L.xor(L.xor(L.xor(Lane(s, x, 0), Lane(s, x, 1)), Lane(s, x, 2)), Lane(s, x, 3)), Lane(s, x, 4))
  }

  function ThetaEffect<T>(L: Algebra<T>, s: seq<T>, x: int): T
    requires |s| == 25
  {
    L.xor(Parity(L, s, (x + 4) % 5), L.rot(Parity(L, s, (x + 1) % 5), 1))
  }

  function Theta<T>(L: Algebra<T>, s: seq<T>): (r: seq<T>)
    requires |s| == 25
    ensures |r| == 25
  {
    seq(25, i requires 0 <= i < 25 => L.xor(s[i], ThetaEffect(L, s, i % 5)))
  }

  // ---- rho, section 3.2.2, and pi, section 3.2.3 ----

  /** Table 2 of the standard, modulo 64: the offset of lane (x, y) at x + 5 y. */
  const OFFSETS: seq<int> := [
     0,  1, 62, 28, 27,
    36, 44,  6, 55, 20,
     3, 10, 43, 25, 39,
    41, 45, 15, 21,  8,
    18,  2, 61, 56, 14]

  function Rho<T>(L: Algebra<T>, s: seq<T>): (r: seq<T>)
    requires |s| == 25
    ensures |r| == 25
  {
    seq(25, i requires 0 <= i < 25 => if OFFSETS[i] == 0 then s[i] else L.rot(s[i], OFFSETS[i]))
  }

  function Pi<T>(s: seq<T>): (r: seq<T>)
    requires |s| == 25
    ensures |r| == 25
  {
    seq(25, i requires 0 <= i < 25 => Lane(s, i % 5 + 3 * (i / 5), i % 5))
  }

  // ---- chi, section 3.2.4, and iota, section 3.2.5 ----

  function ChiLane<T>(L: Algebra<T>, s: seq<T>, i: int): T
    requires |s| == 25 && 0 <= i < 25
  {
    L.xor(s[i], L.andNot(Lane(s, i + 1, i / 5), Lane(s, i + 2, i / 5)))
  }

  function Chi<T>(L: Algebra<T>, s: seq<T>): (r: seq<T>)
    requires |s| == 25
    ensures |r| == 25
  {
    seq(25, i requires 0 <= i < 25 => ChiLane(L, s, i))
  }

  function Iota<T>(L: Algebra<T>, s: seq<T>, round: int): (r: seq<T>)
    requires |s| == 25
    ensures |r| == 25
  {
    s[0 := L.xor(s[0], L.rc(round))]
  }

  // ---- the rounds ----

  function Round<T>(L: Algebra<T>, s: seq<T>, round: int): (r: seq<T>)
    requires |s| == 25
    ensures |r| == 25
  {
    Iota(L, Chi(L, Pi(Rho(L, Theta(L, s)))), round)
  }

  /** The first n rounds. */
  function Rounds<T>(L: Algebra<T>, s: seq<T>, n: nat): (r: seq<T>)
    requires |s| == 25
    ensures |r| == 25
  {
    if n == 0 then s else Round(L, Rounds(L, s, n - 1), n - 1)
  }

  // ---- plain 64-bit lanes ----

  const RC: seq<bv64> := [
    0x0000000000000001, 0x0000000000008082, 0x800000000000808a, 0x8000000080008000,
    0x000000000000808b, 0x0000000080000001, 0x8000000080008081, 0x8000000000008009,
    0x000000000000008a, 0x0000000000000088, 0x0000000080008009, 0x000000008000000a,
    0x000000008000808b, 0x800000000000008b, 0x8000000000008089, 0x8000000000008003,
    0x8000000000008002, 0x8000000000000080, 0x000000000000800a, 0x800000008000000a,
    0x8000000080008081, 0x8000000000008080, 0x0000000080000001, 0x8000000080008008]

  /** Rotation by 1 to 63, the only amounts that occur. */
  function Rotl(v: bv64, n: int): bv64 {
    if 1 <= n <= 63 then (v << n) | (v >> (64 - n)) else v
  }

  function PlainXor(a: bv64, b: bv64): bv64 { a ^ b }
  function PlainAndNot(a: bv64, b: bv64): bv64 { !a & b }
  function PlainRc(i: int): bv64 { if 0 <= i < 24 then RC[i] else 0 }

  function Plain(): Algebra<bv64> {
    Algebra(PlainXor, PlainAndNot, Rotl, PlainRc)
  }

  /** Keccak-f[1600]. */
  function KeccakF(s: seq<bv64>): (r: seq<bv64>)
    requires |s| == 25
    ensures |r| == 25
  {
    Rounds(Plain(), s, |RC|)
  }
}

/** Keccak-256 on bits, read off FIPS 202: the step mappings of sections 3.2.1 to 3.2.5 bit by bit, the
    permutation and the sponge of section 4 with pad10*1 and no suffix. The lane-wise permutation and the
    byte-wise hash of the other modules compute exactly these bits. */
module Fips202 {
  import opened KeccakSpec
  import opened Keccak
  import opened KeccakHost
  import opened Sponge

  // ---- the standard ----

  /** A state: bit z of lane (x, y), with z modulo 64. */
  type Bits = (int, int, bv6) -> bool

  function ColumnBit(A: Bits, x: int, z: bv6): bool {
    (((A(x, 0, z) != A(x, 1, z)) != A(x, 2, z)) != A(x, 3, z)) != A(x, 4, z)
  }

  function ThetaBits(A: Bits): Bits {
    (x: int, y: int, z: bv6) => A(x, y, z) != (ColumnBit(A, (x + 4) % 5, z) != ColumnBit(A, (x + 1) % 5, z - 1))
  }

  /** The offset of lane (x, y), from step t of algorithm 2 on: step t of its walk has (t + 1)(t + 2) / 2. */
  function OffsetFrom(x: int, y: int, t: nat): int
    decreases 24 - t
  {
    if t >= 24 then 0
    else if WalkX(t) == x && WalkY(t) == y then (t + 1) * (t + 2) / 2 % 64
    else OffsetFrom(x, y, t + 1)
  }

  function RhoBits(A: Bits): Bits {
    (x: int, y: int, z: bv6) => A(x, y, z - Sixth(OffsetFrom(x, y, 0)))
  }

  /** An amount as a bit position, modulo 64. */
  function Sixth(n: int): bv6 { (n % 64) as bv6 }

  function PiBits(A: Bits): Bits {
    (x: int, y: int, z: bv6) => A((x + 3 * y) % 5, x, z)
  }

  function ChiBits(A: Bits): Bits {
    (x: int, y: int, z: bv6) => A(x, y, z) != (!A((x + 1) % 5, y, z) && A((x + 2) % 5, y, z))
  }

  /** rc(t) of algorithm 5, and the round constant of algorithm 6: bit 2^j - 1 is rc(j + 7 i). */
  function RcBit(t: nat): bool { Register(t) & 1 == 1 }

  function ConstantBit(i: nat, z: bv6): bool {
    if z == 0 then RcBit(7 * i) else if z == 1 then RcBit(7 * i + 1) else if z == 3 then RcBit(7 * i + 2)
    else if z == 7 then RcBit(7 * i + 3) else if z == 15 then RcBit(7 * i + 4) else if z == 31 then RcBit(7 * i + 5)
    else z == 63 && RcBit(7 * i + 6)
  }

  function IotaBits(A: Bits, i: nat): Bits {
    (x: int, y: int, z: bv6) => A(x, y, z) != (x == 0 && y == 0 && ConstantBit(i, z))
  }

  function RoundBits(A: Bits, i: nat): Bits {
    IotaBits(ChiBits(PiBits(RhoBits(ThetaBits(A)))), i)
  }

  /** The first n rounds. */
  function PermuteBits(A: Bits, n: nat): Bits {
    if n == 0 then A else RoundBits(PermuteBits(A, n - 1), n - 1)
  }

  // ---- the sponge on bits ----

  /** Bit t of a byte, least significant first. */
  function ByteBit(b: bv8, t: bv3): bool { (b >> t) & 1 == 1 }

  /** The byte that bit z of a lane belongs to, and its place there. */
  function ByteIn(z: bv6): (j: nat)
    ensures j < 8
  {
    if z < 8 then 0 else if z < 16 then 1 else if z < 24 then 2 else if z < 32 then 3
    else if z < 40 then 4 else if z < 48 then 5 else if z < 56 then 6 else 7
  }

  function BitIn(z: bv6): bv3 { (z & 7) as bv3 }

  /** Blocks of 136 bytes that the message takes up with its padding: at least one more bit is needed at
      either end of it. */
  function BlockCount(m: seq<bv8>): nat { |m| / 136 + 1 }

  /** Bit t of byte i of the padded message: after the message a 1, zeros, and a last 1. */
  function PaddedBit(m: seq<bv8>, i: nat, t: bv3): bool {
    if i < |m| then ByteBit(m[i], t) else (i == |m| && t == 0) || (i == 136 * BlockCount(m) - 1 && t == 7)
  }

  /** Block k of the padded message added to a state. */
  function AddBlockBits(A: Bits, m: seq<bv8>, k: nat): Bits {
    (x: int, y: int, z: bv6) =>
      A(x, y, z) != (0 <= x + 5 * y < 17 && PaddedBit(m, 136 * k + 8 * (x + 5 * y) + ByteIn(z), BitIn(z)))
  }

  /** The state after k blocks. */
  function SpongeBits(m: seq<bv8>, k: nat): Bits {
    if k == 0 then (x: int, y: int, z: bv6) => false
    else PermuteBits(AddBlockBits(SpongeBits(m, k - 1), m, k - 1), 24)
  }

  // ---- bits of lanes ----

  function LaneBit(v: bv64, z: bv6): bool { (v >> z) & 1 == 1 }

  /** The lanes hold the bits. */
  ghost predicate Agrees(s: seq<bv64>, A: Bits)
    requires |s| == 25
  {
    forall x: int, y: int, z: bv6 :: 0 <= x < 5 && 0 <= y < 5 ==> A(x, y, z) == LaneBit(s[x + 5 * y], z)
  }

  lemma XorRaw(a: bv64, b: bv64, z: bv6)
    ensures LaneBit(a ^ b, z) == (LaneBit(a, z) != LaneBit(b, z))
  {
  }

  lemma XorBit(a: bv64, b: bv64, z: bv6)
    ensures LaneBit(PlainXor(a, b), z) == (LaneBit(a, z) != LaneBit(b, z))
  {
    hide LaneBit;
    XorRaw(a, b, z);
  }

  lemma AndNotRaw(a: bv64, b: bv64, z: bv6)
    ensures LaneBit(!a & b, z) == (!LaneBit(a, z) && LaneBit(b, z))
  {
  }

  lemma AndNotBit(a: bv64, b: bv64, z: bv6)
    ensures LaneBit(PlainAndNot(a, b), z) == (!LaneBit(a, z) && LaneBit(b, z))
  {
    hide LaneBit;
    AndNotRaw(a, b, z);
  }

  /** Rotation by n moves bit z - n to z. */
  ghost predicate Turned(v: bv64, n: int, z: bv6) { LaneBit(Rotl(v, n), z) == LaneBit(v, z - Sixth(n)) }

  lemma Rot1(v: bv64, z: bv6) ensures Turned(v, 1, z) {}
  lemma Rot2(v: bv64, z: bv6) ensures Turned(v, 2, z) {}
  lemma Rot3(v: bv64, z: bv6) ensures Turned(v, 3, z) {}
  lemma Rot6(v: bv64, z: bv6) ensures Turned(v, 6, z) {}
  lemma Rot8(v: bv64, z: bv6) ensures Turned(v, 8, z) {}
  lemma Rot10(v: bv64, z: bv6) ensures Turned(v, 10, z) {}
  lemma Rot14(v: bv64, z: bv6) ensures Turned(v, 14, z) {}
  lemma Rot15(v: bv64, z: bv6) ensures Turned(v, 15, z) {}
  lemma Rot18(v: bv64, z: bv6) ensures Turned(v, 18, z) {}
  lemma Rot20(v: bv64, z: bv6) ensures Turned(v, 20, z) {}
  lemma Rot21(v: bv64, z: bv6) ensures Turned(v, 21, z) {}
  lemma Rot25(v: bv64, z: bv6) ensures Turned(v, 25, z) {}
  lemma Rot27(v: bv64, z: bv6) ensures Turned(v, 27, z) {}
  lemma Rot28(v: bv64, z: bv6) ensures Turned(v, 28, z) {}
  lemma Rot36(v: bv64, z: bv6) ensures Turned(v, 36, z) {}
  lemma Rot39(v: bv64, z: bv6) ensures Turned(v, 39, z) {}
  lemma Rot41(v: bv64, z: bv6) ensures Turned(v, 41, z) {}
  lemma Rot43(v: bv64, z: bv6) ensures Turned(v, 43, z) {}
  lemma Rot44(v: bv64, z: bv6) ensures Turned(v, 44, z) {}
  lemma Rot45(v: bv64, z: bv6) ensures Turned(v, 45, z) {}
  lemma Rot55(v: bv64, z: bv6) ensures Turned(v, 55, z) {}
  lemma Rot56(v: bv64, z: bv6) ensures Turned(v, 56, z) {}
  lemma Rot61(v: bv64, z: bv6) ensures Turned(v, 61, z) {}
  lemma Rot62(v: bv64, z: bv6) ensures Turned(v, 62, z) {}

  /** Rotation by one of the standard's offsets. */
  lemma OffsetTurns(v: bv64, i: int, z: bv6)
    requires 0 <= i < 25 && OFFSETS[i] != 0
    ensures Turned(v, OFFSETS[i], z)
  {
    hide Turned;
    var n := OFFSETS[i];
    assert n == 1 || n == 2 || n == 3 || n == 6 || n == 8 || n == 10 || n == 14 || n == 15
        || n == 18 || n == 20 || n == 21 || n == 25 || n == 27 || n == 28 || n == 36 || n == 39
        || n == 41 || n == 43 || n == 44 || n == 45 || n == 55 || n == 56 || n == 61 || n == 62;
    if n == 1 { Rot1(v, z); }
    else if n == 2 { Rot2(v, z); }
    else if n == 3 { Rot3(v, z); }
    else if n == 6 { Rot6(v, z); }
    else if n == 8 { Rot8(v, z); }
    else if n == 10 { Rot10(v, z); }
    else if n == 14 { Rot14(v, z); }
    else if n == 15 { Rot15(v, z); }
    else if n == 18 { Rot18(v, z); }
    else if n == 20 { Rot20(v, z); }
    else if n == 21 { Rot21(v, z); }
    else if n == 25 { Rot25(v, z); }
    else if n == 27 { Rot27(v, z); }
    else if n == 28 { Rot28(v, z); }
    else if n == 36 { Rot36(v, z); }
    else if n == 39 { Rot39(v, z); }
    else if n == 41 { Rot41(v, z); }
    else if n == 43 { Rot43(v, z); }
    else if n == 44 { Rot44(v, z); }
    else if n == 45 { Rot45(v, z); }
    else if n == 55 { Rot55(v, z); }
    else if n == 56 { Rot56(v, z); }
    else if n == 61 { Rot61(v, z); }
    else if n == 62 { Rot62(v, z); }
  }

  // ---- every step mapping, lane-wise and bit-wise ----

  lemma AgreesAt(s: seq<bv64>, A: Bits, x: int, y: int, z: bv6)
    requires |s| == 25 && Agrees(s, A) && 0 <= x < 5 && 0 <= y < 5
    ensures 0 <= x + 5 * y < 25 && A(x, y, z) == LaneBit(s[x + 5 * y], z)
  {
    hide LaneBit;
  }

  lemma Coordinates(x: int, y: int)
    requires 0 <= x < 5 && 0 <= y < 5
    ensures 0 <= x + 5 * y < 25 && (x + 5 * y) % 5 == x && (x + 5 * y) / 5 == y
  {
  }

  lemma ParityOf<T>(L: Algebra<T>, s: seq<T>, x: int)
    requires |s| == 25 && 0 <= x < 5
    ensures Parity(L, s, x) == L.xor(L.xor(L.xor(L.xor(s[x], s[x + 5]), s[x + 10]), s[x + 15]), s[x + 20])
  {
  }

  lemma PlainXorIs(a: bv64, b: bv64)
    ensures Plain().xor(a, b) == PlainXor(a, b)
  {
    hide PlainXor;
  }

  lemma ParityIs(s: seq<bv64>, x: int)
    requires |s| == 25 && 0 <= x < 5
    ensures Parity(Plain(), s, x)
         == PlainXor(PlainXor(PlainXor(PlainXor(s[x], s[x + 5]), s[x + 10]), s[x + 15]), s[x + 20])
  {
    hide PlainXor, Plain, Parity;
    ParityOf(Plain(), s, x);
    var p := PlainXor(s[x], s[x + 5]);
    var q := PlainXor(p, s[x + 10]);
    PlainXorIs(s[x], s[x + 5]); PlainXorIs(p, s[x + 10]); PlainXorIs(q, s[x + 15]);
    PlainXorIs(PlainXor(q, s[x + 15]), s[x + 20]);
  }

  lemma FiveXors(a: bv64, b: bv64, c: bv64, d: bv64, e: bv64, z: bv6)
    ensures LaneBit(PlainXor(PlainXor(PlainXor(PlainXor(a, b), c), d), e), z)
         == ((((LaneBit(a, z) != LaneBit(b, z)) != LaneBit(c, z)) != LaneBit(d, z)) != LaneBit(e, z))
  {
    hide LaneBit, PlainXor;
    var p := PlainXor(a, b);
    var q := PlainXor(p, c);
    XorBit(a, b, z); XorBit(p, c, z); XorBit(q, d, z); XorBit(PlainXor(q, d), e, z);
  }

  lemma ParityBit(s: seq<bv64>, A: Bits, x: int, z: bv6)
    requires |s| == 25 && Agrees(s, A) && 0 <= x < 5
    ensures LaneBit(Parity(Plain(), s, x), z) == ColumnBit(A, x, z)
  {
    hide LaneBit, PlainXor, Agrees, Parity, Plain;
    AgreesAt(s, A, x, 0, z); AgreesAt(s, A, x, 1, z); AgreesAt(s, A, x, 2, z);
    AgreesAt(s, A, x, 3, z); AgreesAt(s, A, x, 4, z);
    ParityIs(s, x);
    FiveXors(s[x], s[x + 5], s[x + 10], s[x + 15], s[x + 20], z);
  }

  lemma EffectIs(s: seq<bv64>, x: int)
    requires |s| == 25 && 0 <= x < 5
    ensures ThetaEffect(Plain(), s, x)
         == PlainXor(Parity(Plain(), s, (x + 4) % 5), Rotl(Parity(Plain(), s, (x + 1) % 5), 1))
  {
    hide PlainXor, Rotl, Parity;
  }

  lemma EffectBit(s: seq<bv64>, A: Bits, x: int, z: bv6)
    requires |s| == 25 && Agrees(s, A) && 0 <= x < 5
    ensures LaneBit(ThetaEffect(Plain(), s, x), z)
         == (ColumnBit(A, (x + 4) % 5, z) != ColumnBit(A, (x + 1) % 5, z - 1))
  {
    hide LaneBit, PlainXor, Agrees, Parity, Rotl, ColumnBit, ThetaEffect, Plain, Sixth;
    var p, q := Parity(Plain(), s, (x + 4) % 5), Parity(Plain(), s, (x + 1) % 5);
    EffectIs(s, x);
    ParityBit(s, A, (x + 4) % 5, z);
    ParityBit(s, A, (x + 1) % 5, z - 1);
    TurnedByOne(q, z);
    XorBit(p, Rotl(q, 1), z);
  }

  lemma TurnedByOne(v: bv64, z: bv6)
    ensures LaneBit(Rotl(v, 1), z) == LaneBit(v, z - 1)
  {
    hide LaneBit, Rotl;
    Rot1(v, z);
  }

  lemma ThetaBit(s: seq<bv64>, A: Bits, x: int, y: int, z: bv6)
    requires |s| == 25 && Agrees(s, A) && 0 <= x < 5 && 0 <= y < 5
    ensures ThetaBits(A)(x, y, z) == LaneBit(Theta(Plain(), s)[x + 5 * y], z)
  {
    hide LaneBit, PlainXor, ThetaEffect, ColumnBit, Agrees;
    Coordinates(x, y);
    AgreesAt(s, A, x, y, z);
    EffectBit(s, A, x, z);
    XorBit(s[x + 5 * y], ThetaEffect(Plain(), s, x), z);
  }

  lemma ThetaAgrees(s: seq<bv64>, A: Bits)
    requires |s| == 25 && Agrees(s, A)
    ensures Agrees(Theta(Plain(), s), ThetaBits(A))
  {
    hide LaneBit, Theta, ThetaBits, Plain;
    forall x: int, y: int, z: bv6 | 0 <= x < 5 && 0 <= y < 5
      ensures ThetaBits(A)(x, y, z) == LaneBit(Theta(Plain(), s)[x + 5 * y], z)
    {
      ThetaBit(s, A, x, y, z);
    }
  }

  /** The search of the walk finds the offset of the table. */
  lemma {:induction false} OffsetFound(x: int, y: int, t: nat, k: nat)
    requires t <= k < 24 && WalkX(k) == x && WalkY(k) == y
    ensures 0 <= x + 5 * y < 25 && OffsetFrom(x, y, t) == OFFSETS[x + 5 * y]
    decreases 24 - t
  {
    hide WalkX, WalkY, Source;
    WalkOfTheStandard(k);
    WalkIsRho(k);
    if WalkX(t) == x && WalkY(t) == y {
      WalkOfTheStandard(t);
      WalkIsRho(t);
      TriangularOffsets(t);
    } else {
      OffsetFound(x, y, t + 1, k);
    }
  }

  lemma {:induction false} NoOffset(t: nat)
    requires t <= 24
    ensures OffsetFrom(0, 0, t) == 0
    decreases 24 - t
  {
    hide WalkX, WalkY, Source;
    if t < 24 {
      WalkOfTheStandard(t);
      WalkTables(t);
      SourceIsMoved(t);
      NoOffset(t + 1);
    }
  }

  lemma SourceIsMoved(t: nat)
    requires t < 24
    ensures 1 <= Source(t) < 25
  {
  }

  /** Every lane but (0, 0) is on the walk. */
  lemma LaneWalked(x: int, y: int) returns (k: nat)
    requires 0 <= x < 5 && 0 <= y < 5 && (x, y) != (0, 0)
    ensures k < 24 && WalkX(k) == x && WalkY(k) == y
  {
    hide WalkX, WalkY;
    var i := x + 5 * y;
    k := ReadAt(i);
    WalkOfTheStandard(k);
    WalkBounds(k);
  }

  lemma ReadAt(i: int) returns (k: nat)
    requires 1 <= i < 25
    ensures k < 24 && Source(k) == i
  {
    k := if i == 1 then 0 else STEP_OF[i] + 1;
    WalkCovers(i);
    assert PILN[23] == 1;
  }

  lemma OffsetIs(x: int, y: int)
    requires 0 <= x < 5 && 0 <= y < 5
    ensures 0 <= x + 5 * y < 25 && OffsetFrom(x, y, 0) == OFFSETS[x + 5 * y]
  {
    hide WalkX, WalkY, OffsetFrom;
    if (x, y) == (0, 0) {
      NoOffset(0);
    } else {
      var k := LaneWalked(x, y);
      OffsetFound(x, y, 0, k);
    }
  }

  lemma RhoBit(s: seq<bv64>, A: Bits, x: int, y: int, z: bv6)
    requires |s| == 25 && Agrees(s, A) && 0 <= x < 5 && 0 <= y < 5
    ensures RhoBits(A)(x, y, z) == LaneBit(Rho(Plain(), s)[x + 5 * y], z)
  {
    hide LaneBit, Rotl, Rho, OffsetFrom, Sixth, Agrees;
    OffsetIs(x, y);
    RhoAt(Plain(), s, x + 5 * y);
    AgreesAt(s, A, x, y, z - Sixth(OffsetFrom(x, y, 0)));
    if OFFSETS[x + 5 * y] == 0 { NoTurn(z); } else { OffsetTurns(s[x + 5 * y], x + 5 * y, z); }
  }

  lemma RhoAgrees(s: seq<bv64>, A: Bits)
    requires |s| == 25 && Agrees(s, A)
    ensures Agrees(Rho(Plain(), s), RhoBits(A))
  {
    hide LaneBit, Rho, RhoBits, Plain;
    forall x: int, y: int, z: bv6 | 0 <= x < 5 && 0 <= y < 5
      ensures RhoBits(A)(x, y, z) == LaneBit(Rho(Plain(), s)[x + 5 * y], z)
    {
      RhoBit(s, A, x, y, z);
    }
  }

  lemma NoTurn(z: bv6)
    ensures z - Sixth(0) == z
  {
  }

  lemma PiLane(s: seq<bv64>, x: int, y: int)
    requires |s| == 25 && 0 <= x < 5 && 0 <= y < 5
    ensures 0 <= x + 5 * y < 25 && Pi(s)[x + 5 * y] == s[(x + 3 * y) % 5 + 5 * x]
  {
    hide Pi;
    Coordinates(x, y);
    PiAt(s, x + 5 * y, (x + 3 * y) % 5 + 5 * x);
  }

  lemma PiBit(s: seq<bv64>, A: Bits, x: int, y: int, z: bv6)
    requires |s| == 25 && Agrees(s, A) && 0 <= x < 5 && 0 <= y < 5
    ensures PiBits(A)(x, y, z) == LaneBit(Pi(s)[x + 5 * y], z)
  {
    hide LaneBit, Pi, Agrees;
    PiLane(s, x, y);
    AgreesAt(s, A, (x + 3 * y) % 5, x, z);
  }

  lemma PiAgrees(s: seq<bv64>, A: Bits)
    requires |s| == 25 && Agrees(s, A)
    ensures Agrees(Pi(s), PiBits(A))
  {
    hide LaneBit, Pi, PiBits;
    forall x: int, y: int, z: bv6 | 0 <= x < 5 && 0 <= y < 5
      ensures PiBits(A)(x, y, z) == LaneBit(Pi(s)[x + 5 * y], z)
    {
      PiBit(s, A, x, y, z);
    }
  }

  lemma ChiBit(s: seq<bv64>, A: Bits, x: int, y: int, z: bv6)
    requires |s| == 25 && Agrees(s, A) && 0 <= x < 5 && 0 <= y < 5
    ensures ChiBits(A)(x, y, z) == LaneBit(Chi(Plain(), s)[x + 5 * y], z)
  {
    hide LaneBit, PlainXor, PlainAndNot, Chi, Agrees;
    ChiAt(Plain(), s, y, x);
    AgreesAt(s, A, x, y, z); AgreesAt(s, A, (x + 1) % 5, y, z); AgreesAt(s, A, (x + 2) % 5, y, z);
    var a, b, c := s[5 * y + x], s[5 * y + (x + 1) % 5], s[5 * y + (x + 2) % 5];
    AndNotBit(b, c, z);
    XorBit(a, PlainAndNot(b, c), z);
  }

  lemma ChiAgrees(s: seq<bv64>, A: Bits)
    requires |s| == 25 && Agrees(s, A)
    ensures Agrees(Chi(Plain(), s), ChiBits(A))
  {
    hide LaneBit, Chi, ChiBits, Plain;
    forall x: int, y: int, z: bv6 | 0 <= x < 5 && 0 <= y < 5
      ensures ChiBits(A)(x, y, z) == LaneBit(Chi(Plain(), s)[x + 5 * y], z)
    {
      ChiBit(s, A, x, y, z);
    }
  }

  // ---- the round constants ----

  /** The seven bits of a round constant. */
  lemma ConstantParts(b0: bv64, b1: bv64, b2: bv64, b3: bv64, b4: bv64, b5: bv64, b6: bv64, z: bv6)
    requires b0 <= 1 && b1 <= 1 && b2 <= 1 && b3 <= 1 && b4 <= 1 && b5 <= 1 && b6 <= 1
    ensures LaneBit(b0 | (b1 << 1) | (b2 << 3) | (b3 << 7) | (b4 << 15) | (b5 << 31) | (b6 << 63), z)
         == if z == 0 then b0 == 1 else if z == 1 then b1 == 1 else if z == 3 then b2 == 1 else if z == 7 then b3 == 1
            else if z == 15 then b4 == 1 else if z == 31 then b5 == 1 else z == 63 && b6 == 1
  {
  }

  lemma LowBit(r: bv8)
    ensures Bit(r) <= 1 && (Bit(r) == 1 <==> r & 1 == 1)
  {
  }

  /** The bits of the round constant made from a register r and its next six states. */
  lemma ConstantFrom(r: bv8, z: bv6)
    ensures var r1 := Shift(r);
      var r2 := Shift(r1);
      var r3 := Shift(r2);
      var r4 := Shift(r3);
      var r5 := Shift(r4);
      var r6 := Shift(r5);
      LaneBit(RoundConstant(r), z)
      == if z == 0 then r & 1 == 1 else if z == 1 then r1 & 1 == 1 else if z == 3 then r2 & 1 == 1
         else if z == 7 then r3 & 1 == 1 else if z == 15 then r4 & 1 == 1 else if z == 31 then r5 & 1 == 1
         else z == 63 && r6 & 1 == 1
  {
    hide LaneBit, Shift, Bit;
    var r1 := Shift(r);
    var r2 := Shift(r1);
    var r3 := Shift(r2);
    var r4 := Shift(r3);
    var r5 := Shift(r4);
    var r6 := Shift(r5);
    LowBit(r); LowBit(r1); LowBit(r2); LowBit(r3); LowBit(r4); LowBit(r5); LowBit(r6);
    ConstantParts(Bit(r), Bit(r1), Bit(r2), Bit(r3), Bit(r4), Bit(r5), Bit(r6), z);
  }

  lemma RegisterNext(t: nat)
    ensures Register(t + 1) == Shift(Register(t))
  {
    hide Shift;
  }

  lemma ConstantIs(i: nat, z: bv6)
    requires i < 24
    ensures LaneBit(PlainRc(i), z) == ConstantBit(i, z)
  {
    hide LaneBit, Shift, Register, RoundConstant;
    var t := 7 * i;
    RoundConstantsOfTheStandard(i);
    ConstantFrom(Register(t), z);
    RegisterNext(t); RegisterNext(t + 1); RegisterNext(t + 2); RegisterNext(t + 3); RegisterNext(t + 4);
    RegisterNext(t + 5);
  }

  lemma IotaBit(s: seq<bv64>, A: Bits, i: nat, x: int, y: int, z: bv6)
    requires |s| == 25 && Agrees(s, A) && i < 24 && 0 <= x < 5 && 0 <= y < 5
    ensures IotaBits(A, i)(x, y, z) == LaneBit(Iota(Plain(), s, i)[x + 5 * y], z)
  {
    hide LaneBit, PlainXor, PlainRc, ConstantBit, Agrees;
    AgreesAt(s, A, x, y, z);
    ConstantIs(i, z);
    XorBit(s[0], PlainRc(i), z);
  }

  lemma IotaAgrees(s: seq<bv64>, A: Bits, i: nat)
    requires |s| == 25 && Agrees(s, A) && i < 24
    ensures Agrees(Iota(Plain(), s, i), IotaBits(A, i))
  {
    hide LaneBit, Iota, IotaBits, Plain;
    forall x: int, y: int, z: bv6 | 0 <= x < 5 && 0 <= y < 5
      ensures IotaBits(A, i)(x, y, z) == LaneBit(Iota(Plain(), s, i)[x + 5 * y], z)
    {
      IotaBit(s, A, i, x, y, z);
    }
  }

  /** One round of the plain lanes is one round of the standard. */
  lemma RoundAgrees(s: seq<bv64>, A: Bits, i: nat)
    requires |s| == 25 && Agrees(s, A) && i < 24
    ensures Agrees(Round(Plain(), s, i), RoundBits(A, i))
  {
    hide Agrees, Plain, Theta, Rho, Pi, Chi, Iota, ThetaBits, RhoBits, PiBits, ChiBits, IotaBits;
    var s1, A1 := Theta(Plain(), s), ThetaBits(A);
    var s2, A2 := Rho(Plain(), s1), RhoBits(A1);
    var s3, A3 := Pi(s2), PiBits(A2);
    ThetaAgrees(s, A); RhoAgrees(s1, A1); PiAgrees(s2, A2); ChiAgrees(s3, A3);
    IotaAgrees(Chi(Plain(), s3), ChiBits(A3), i);
  }

  /** After every round the lanes hold the bits of the standard. */
  lemma {:induction false} RoundsAgree(s: seq<bv64>, A: Bits, n: nat)
    requires |s| == 25 && Agrees(s, A) && n <= 24
    ensures Agrees(Rounds(Plain(), s, n), PermuteBits(A, n))
  {
    hide Agrees, Plain, Round, RoundBits;
    if n > 0 {
      RoundsAgree(s, A, n - 1);
      RoundAgrees(Rounds(Plain(), s, n - 1), PermuteBits(A, n - 1), n - 1);
    }
  }

  /** Keccak-f[1600] of the lanes is that of the standard, bit by bit. */
  lemma KeccakFAgrees(s: seq<bv64>, A: Bits)
    requires |s| == 25 && Agrees(s, A)
    ensures Agrees(KeccakF(s), PermuteBits(A, 24))
  {
    hide Agrees, Plain, Rounds, PermuteBits;
    RoundsAgree(s, A, 24);
  }

  // ---- bytes of lanes ----

  lemma OrBit(a: bv64, b: bv64, z: bv6)
    ensures LaneBit(Or(a, b), z) == (LaneBit(a, z) || LaneBit(b, z))
  {
    hide LaneBit;
    OrRaw(a, b, z);
  }

  lemma OrRaw(a: bv64, b: bv64, z: bv6)
    ensures LaneBit(a | b, z) == (LaneBit(a, z) || LaneBit(b, z))
  {
  }

  /** Shifting a byte to place j puts its bits at 8 j to 8 j + 7. */
  ghost predicate Placed(v: bv8, j: int, z: bv6)
    requires 0 <= j < 8
  {
    LaneBit(AtByte(v, j), z) == (ByteIn(z) == j && ByteBit(v, BitIn(z)))
  }

  /** Taking byte j of a lane takes its bits 8 j to 8 j + 7. */
  ghost predicate Taken(v: bv64, z: bv6) { ByteBit(ByteOf(v, ByteIn(z)), BitIn(z)) == LaneBit(v, z) }

  lemma Place0(v: bv8, z: bv6) ensures Placed(v, 0, z) {}
  lemma Place1(v: bv8, z: bv6) ensures Placed(v, 1, z) {}
  lemma Place2(v: bv8, z: bv6) ensures Placed(v, 2, z) {}
  lemma Place3(v: bv8, z: bv6) ensures Placed(v, 3, z) {}
  lemma Place4(v: bv8, z: bv6) ensures Placed(v, 4, z) {}
  lemma Place5(v: bv8, z: bv6) ensures Placed(v, 5, z) {}
  lemma Place6(v: bv8, z: bv6) ensures Placed(v, 6, z) {}
  lemma Place7(v: bv8, z: bv6) ensures Placed(v, 7, z) {}

  ghost predicate Shifts(v: bv64, n: int, t: bv3)
    requires 0 <= n < 64
  {
    LaneBit(ShiftRight(v, n), t as bv6) == LaneBit(v, Sixth(n) + (t as bv6))
  }

  lemma Take0(v: bv64, t: bv3) ensures Shifts(v, 0, t) {}
  lemma Take8(v: bv64, t: bv3) ensures Shifts(v, 8, t) {}
  lemma Take16(v: bv64, t: bv3) ensures Shifts(v, 16, t) {}
  lemma Take24(v: bv64, t: bv3) ensures Shifts(v, 24, t) {}
  lemma Take32(v: bv64, t: bv3) ensures Shifts(v, 32, t) {}
  lemma Take40(v: bv64, t: bv3) ensures Shifts(v, 40, t) {}
  lemma Take48(v: bv64, t: bv3) ensures Shifts(v, 48, t) {}
  lemma Take56(v: bv64, t: bv3) ensures Shifts(v, 56, t) {}

  lemma LowBits(v: bv64, t: bv3)
    ensures ByteBit(Low8(v), t) == LaneBit(v, t as bv6)
  {
  }

  lemma Placing(v: bv8, j: int, z: bv6)
    requires 0 <= j < 8
    ensures Placed(v, j, z)
  {
    hide Placed;
    match j {
      case 0 => Place0(v, z);
      case 1 => Place1(v, z);
      case 2 => Place2(v, z);
      case 3 => Place3(v, z);
      case 4 => Place4(v, z);
      case 5 => Place5(v, z);
      case 6 => Place6(v, z);
      case 7 => Place7(v, z);
    }
  }

  lemma HighAndLow(z: bv6)
    ensures z == (z & 56) + (BitIn(z) as bv6)
  {
  }

  lemma High0(z: bv6) requires 0 <= z <= 7 ensures z & 56 == Sixth(0) {}
  lemma High8(z: bv6) requires 8 <= z <= 15 ensures z & 56 == Sixth(8) {}
  lemma High16(z: bv6) requires 16 <= z <= 23 ensures z & 56 == Sixth(16) {}
  lemma High24(z: bv6) requires 24 <= z <= 31 ensures z & 56 == Sixth(24) {}
  lemma High32(z: bv6) requires 32 <= z <= 39 ensures z & 56 == Sixth(32) {}
  lemma High40(z: bv6) requires 40 <= z <= 47 ensures z & 56 == Sixth(40) {}
  lemma High48(z: bv6) requires 48 <= z <= 55 ensures z & 56 == Sixth(48) {}
  lemma High56(z: bv6) requires 56 <= z <= 63 ensures z & 56 == Sixth(56) {}

  lemma HighPart(z: bv6)
    ensures z & 56 == Sixth(8 * ByteIn(z))
  {
    hide Sixth;
    if z < 8 { High0(z); } else if z < 16 { High8(z); } else if z < 24 { High16(z); } else if z < 32 { High24(z); }
    else if z < 40 { High32(z); } else if z < 48 { High40(z); } else if z < 56 { High48(z); } else { High56(z); }
  }

  lemma Position(z: bv6)
    ensures z == Sixth(8 * ByteIn(z)) + (BitIn(z) as bv6)
  {
    hide Sixth, ByteIn, BitIn;
    HighAndLow(z);
    HighPart(z);
  }

  lemma AllShifts(v: bv64, n: int, t: bv3)
    requires n in {0, 8, 16, 24, 32, 40, 48, 56}
    ensures Shifts(v, n, t)
  {
    hide Shifts;
    if n == 0 { Take0(v, t); } else if n == 8 { Take8(v, t); } else if n == 16 { Take16(v, t); }
    else if n == 24 { Take24(v, t); } else if n == 32 { Take32(v, t); } else if n == 40 { Take40(v, t); }
    else if n == 48 { Take48(v, t); } else { Take56(v, t); }
  }

  lemma TakingAt(v: bv64, j: int, t: bv3)
    requires 0 <= j < 8
    ensures ByteBit(ByteOf(v, j), t) == LaneBit(v, Sixth(8 * j) + (t as bv6))
  {
    hide ByteBit, Low8, ShiftRight, LaneBit, Sixth;
    LowBits(ShiftRight(v, 8 * j), t);
    AllShifts(v, 8 * j, t);
  }

  lemma Taking(v: bv64, z: bv6)
    ensures Taken(v, z)
  {
    hide ByteBit, ByteOf, LaneBit, ByteIn, BitIn, Sixth;
    Position(z);
    TakingAt(v, ByteIn(z), BitIn(z));
  }

  lemma NoBit(z: bv6)
    ensures !LaneBit(0, z)
  {
  }

  /** The lane of eight bytes has the bits of its bytes, in order. */
  lemma {:induction false} LeLaneBit(b: seq<bv8>, n: nat, z: bv6)
    requires |b| == 8 && n <= 8
    ensures LaneBit(LeLane(b, n), z) == (ByteIn(z) < n && ByteBit(b[ByteIn(z)], BitIn(z)))
  {
    hide LaneBit, ByteBit, BitIn, ByteIn, AtByte, Or;
    if n == 0 {
      NoBit(z);
    } else {
      LeLaneBit(b, n - 1, z);
      Placing(b[n - 1], n - 1, z);
      OrBit(LeLane(b, n - 1), AtByte(b[n - 1], n - 1), z);
    }
  }

  /** Bit z of lane k of a block is bit z mod 8 of byte 8 k + z / 8. */
  lemma LaneOfBit(block: seq<bv8>, k: int, z: bv6)
    requires |block| == 136 && 0 <= k < 17
    ensures LaneBit(LaneOf(block, k), z) == ByteBit(block[8 * k + ByteIn(z)], BitIn(z))
  {
    hide LaneBit, ByteBit, BitIn, ByteIn, LeLane;
    var b := block[8 * k..8 * k + 8];
    LeLaneBit(b, 8, z);
    assert b[ByteIn(z)] == block[8 * k + ByteIn(z)];
  }

  // ---- the sponge ----

  /** The padding adds a 1, zeros and a last 1. */
  lemma PadBit(m: seq<bv8>, i: nat, t: bv3)
    requires i < 136 * BlockCount(m)
    ensures |Pad(m)| == 136 * BlockCount(m) && ByteBit(Pad(m)[i], t) == PaddedBit(m, i, t)
  {
    hide ByteBit;
    EdgeBits(t);
  }

  lemma EdgeBits(t: bv3)
    ensures ByteBit(0x01, t) == (t == 0) && ByteBit(0x80, t) == (t == 7) && ByteBit(0x81, t) == (t == 0 || t == 7)
    ensures !ByteBit(0, t)
  {
  }

  /** The state after the first k blocks. */
  function StateAfter(p: seq<bv8>, k: nat): (s: seq<bv64>)
    requires 136 * k <= |p|
    ensures |s| == 25
  {
    if k == 0 then Start() else KeccakF(XorBlock(StateAfter(p, k - 1), p[136 * k - 136..136 * k]))
  }

  lemma {:induction false} AbsorbIs(p: seq<bv8>, k: nat)
    requires |p| % 136 == 0 && 136 * k <= |p|
    ensures (|p| - 136 * k) % 136 == 0 && Absorb(StateAfter(p, k), p[136 * k..]) == Absorb(Start(), p)
  {
    hide KeccakF, XorBlock;
    if k == 0 {
      assert p[0..] == p;
    } else {
      AbsorbIs(p, k - 1);
      var rest := p[136 * k - 136..];
      assert rest[..136] == p[136 * k - 136..136 * k] && rest[136..] == p[136 * k..];
    }
  }

  lemma BlockBit(s: seq<bv64>, A: Bits, m: seq<bv8>, k: nat, x: int, y: int, z: bv6)
    requires |s| == 25 && Agrees(s, A) && k < BlockCount(m) && |Pad(m)| == 136 * BlockCount(m)
    requires 0 <= x < 5 && 0 <= y < 5
    ensures AddBlockBits(A, m, k)(x, y, z)
         == LaneBit(XorBlock(s, Pad(m)[136 * k..136 * k + 136])[x + 5 * y], z)
  {
    hide LaneBit, ByteBit, BitIn, ByteIn, LaneOf, PlainXor, Agrees, Pad, PaddedBit;
    var i, block := x + 5 * y, Pad(m)[136 * k..136 * k + 136];
    AgreesAt(s, A, x, y, z);
    if i < 17 {
      LaneOfBit(block, i, z);
      PadBit(m, 136 * k + 8 * i + ByteIn(z), BitIn(z));
      assert block[8 * i + ByteIn(z)] == Pad(m)[136 * k + 8 * i + ByteIn(z)];
      XorBit(s[i], LaneOf(block, i), z);
    }
  }

  lemma BlockAgrees(s: seq<bv64>, A: Bits, m: seq<bv8>, k: nat)
    requires |s| == 25 && Agrees(s, A) && k < BlockCount(m) && |Pad(m)| == 136 * BlockCount(m)
    ensures Agrees(XorBlock(s, Pad(m)[136 * k..136 * k + 136]), AddBlockBits(A, m, k))
  {
    hide LaneBit, XorBlock, AddBlockBits, Pad;
    forall x: int, y: int, z: bv6 | 0 <= x < 5 && 0 <= y < 5
      ensures AddBlockBits(A, m, k)(x, y, z) == LaneBit(XorBlock(s, Pad(m)[136 * k..136 * k + 136])[x + 5 * y], z)
    {
      BlockBit(s, A, m, k, x, y, z);
    }
  }

  lemma StartAgrees()
    ensures Agrees(Start(), SpongeBits([], 0))
  {
    hide LaneBit;
    forall x: int, y: int, z: bv6 | 0 <= x < 5 && 0 <= y < 5
      ensures SpongeBits([], 0)(x, y, z) == LaneBit(Start()[x + 5 * y], z)
    {
      NoBit(z);
    }
  }

  lemma {:induction false} SpongeAgrees(m: seq<bv8>, k: nat)
    requires k <= BlockCount(m) && |Pad(m)| == 136 * BlockCount(m)
    ensures Agrees(StateAfter(Pad(m), k), SpongeBits(m, k))
  {
    hide Agrees, KeccakF, XorBlock, Pad, PermuteBits, AddBlockBits;
    if k == 0 {
      StartAgrees();
    } else {
      SpongeAgrees(m, k - 1);
      BlockAgrees(StateAfter(Pad(m), k - 1), SpongeBits(m, k - 1), m, k - 1);
      KeccakFAgrees(XorBlock(StateAfter(Pad(m), k - 1), Pad(m)[136 * k - 136..136 * k]),
                    AddBlockBits(SpongeBits(m, k - 1), m, k - 1));
    }
  }

  /** The digest of every message: byte 8 x + z / 8 has at place z mod 8 the bit (x, 0, z) of the standard's
      state after all blocks. */
  lemma HashIsStandard(m: seq<bv8>, x: int, z: bv6)
    requires 0 <= x < 4
    ensures ByteBit(Keccak256(m)[8 * x + ByteIn(z)], BitIn(z)) == SpongeBits(m, BlockCount(m))(x, 0, z)
  {
    hide Agrees, KeccakF, XorBlock, Pad, SpongeBits, ByteBit, LaneBit, BitIn, ByteIn, ByteOf, StateAfter, Absorb;
    var n := BlockCount(m);
    PadBit(m, 0, 0);
    SpongeAgrees(m, n);
    AbsorbIs(Pad(m), n);
    AbsorbNothing(StateAfter(Pad(m), n));
    assert Pad(m)[136 * n..] == [];
    var s := StateAfter(Pad(m), n);
    AgreesAt(s, SpongeBits(m, n), x, 0, z);
    Taking(s[x], z);
    SqueezeAt(s, x, ByteIn(z));
  }

  lemma AbsorbNothing(s: seq<bv64>)
    requires |s| == 25
    ensures Absorb(s, []) == s
  {
  }

  lemma SqueezeAt(s: seq<bv64>, x: int, j: int)
    requires |s| == 25 && 0 <= x < 4 && 0 <= j < 8
    ensures Squeeze(s)[8 * x + j] == ByteOf(s[x], j)
  {
    hide ByteOf;
    assert (8 * x + j) / 8 == x && (8 * x + j) % 8 == j;
  }
}

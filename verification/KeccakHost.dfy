/** The table-driven permutation of the host, and the tables against the standard's definitions. */
module KeccakHost {
  import opened KeccakSpec
  import opened Keccak

  // ---- the loops of the host permutation ----

  method ThetaLoops(st: array<bv64>)
    requires st.Length == 25
    modifies st
    ensures st[..] == Theta(Plain(), old(st[..]))
  {
    hide Parity, Plain;
    ghost var s := st[..];
    var bc := new bv64[5];
    for i := 0 to 5
      invariant st[..] == s
      invariant forall k :: 0 <= k < i ==> bc[k] == Parity(Plain(), s, k)
    {
      bc[i] := ColumnParity(Plain(), st, i);
    }
    for i := 0 to 5
      invariant forall k :: 0 <= k < 5 ==> bc[k] == Parity(Plain(), s, k)
      invariant forall d :: 0 <= d < 25 ==>
        st[d] == if d % 5 < i then Plain().xor(s[d], ThetaEffect(Plain(), s, d % 5)) else s[d]
    {
      var t := Plain().xor(bc[(i + 4) % 5], Plain().rot(bc[(i + 1) % 5], 1));
      ThetaColumn(Plain(), st, i, t);
    }
  }

  method ChiRowLoop(st: array<bv64>, y: int, ghost s: seq<bv64>)
    requires st.Length == 25 && |s| == 25 && 0 <= y < 5
    requires forall d :: 0 <= d < 25 ==> st[d] == if d < 5 * y then Chi(Plain(), s)[d] else s[d]
    modifies st
    ensures forall d :: 0 <= d < 25 ==> st[d] == if d < 5 * y + 5 then Chi(Plain(), s)[d] else s[d]
  {
    hide Chi, Plain;
    var j := 5 * y;
    var a := new bv64[5];
    for i := 0 to 5
      invariant forall d :: 0 <= d < 25 ==> st[d] == if d < j then Chi(Plain(), s)[d] else s[d]
      invariant forall x :: 0 <= x < i ==> a[x] == s[j + x]
    {
      a[i] := st[j + i];
    }
    for i := 0 to 5
      invariant forall x :: 0 <= x < 5 ==> a[x] == s[j + x]
      invariant forall d :: 0 <= d < 25 ==> st[d] == if d < j + i then Chi(Plain(), s)[d] else s[d]
    {
      ChiAt(Plain(), s, y, i);
      st[j + i] := Plain().xor(a[i], Plain().andNot(a[(i + 1) % 5], a[(i + 2) % 5]));
    }
  }

  method ChiLoops(st: array<bv64>)
    requires st.Length == 25
    modifies st
    ensures st[..] == Chi(Plain(), old(st[..]))
  {
    hide Chi, Plain;
    ghost var s := st[..];
    for y := 0 to 5
      invariant forall d :: 0 <= d < 25 ==> st[d] == if d < 5 * y then Chi(Plain(), s)[d] else s[d]
    {
      ChiRowLoop(st, y, s);
    }
  }

  method KeccakTables(st: array<bv64>)
    requires st.Length == 25
    modifies st
    ensures st[..] == KeccakF(old(st[..]))
  {
    hide Theta, Rho, Pi, Chi, Iota;
    for round := 0 to 24
      invariant st[..] == Rounds(Plain(), old(st[..]), round)
    {
      ThetaLoops(st);
      RhoPiTables(Plain(), st);
      ChiLoops(st);
      IotaStep(Plain(), st, round);
    }
  }

  // ---- the tables are the ones of the standard ----

  /** Lane visited at step t of algorithm 2 of FIPS 202: (1, 0), then (x, y) -> (y, 2x + 3y). */
  function WalkX(t: nat): int { if t == 0 then 1 else WalkY(t - 1) }
  function WalkY(t: nat): int { if t == 0 then 0 else (2 * WalkX(t - 1) + 3 * WalkY(t - 1)) % 5 }

  lemma {:induction false} WalkBounds(t: nat)
    ensures 0 <= WalkX(t) < 5 && 0 <= WalkY(t) < 5
  {
    if t > 0 { WalkBounds(t - 1); }
  }

  lemma WalkNext(t: nat)
    ensures WalkX(t + 1) == WalkY(t) && WalkY(t + 1) == (2 * WalkX(t) + 3 * WalkY(t)) % 5
  {
  }

  lemma WalkStart()
    ensures WalkX(0) + 5 * WalkY(0) == Source(0)
  {
  }

  /** The lane that the chain reads at step t is the one that algorithm 2 visits there. */
  lemma {:induction false} WalkOfTheStandard(t: nat)
    requires t < 24
    ensures WalkX(t) + 5 * WalkY(t) == Source(t)
  {
    hide Source, WalkX, WalkY;
    if t == 0 {
      WalkStart();
    } else {
      WalkOfTheStandard(t - 1);
      WalkBounds(t - 1);
      WalkNext(t - 1);
      WalkMoves(t - 1, WalkX(t - 1), WalkY(t - 1));
    }
  }

  lemma WalkMoves(t: nat, x: int, y: int)
    requires t < 23 && 0 <= x < 5 && 0 <= y < 5 && x + 5 * y == Source(t)
    ensures y + 5 * ((2 * x + 3 * y) % 5) == Source(t + 1)
  {
  }

  /** Step t rotates its lane by (t + 1)(t + 2) / 2. */
  lemma TriangularOffsets(t: nat)
    requires t < 24
    ensures RHO[t] == ((t + 1) * (t + 2) / 2) % 64
  {
  }

  /** The shift register of algorithm 5; bit i of the byte is R[i]. */
  function Shift(r: bv8): bv8 {
    if r & 0x80 != 0 then (r << 1) ^ 0x71 else r << 1
  }

  function Register(t: nat): bv8 {
    if t == 0 then 1 else Shift(Register(t - 1))
  }

  /** The register at steps 0, 7, 14, ... */
  const REGISTER: seq<bv8> := [
    1, 128, 216, 26, 223, 9, 53, 79, 202, 112, 65, 236, 213, 205, 99, 171, 170, 42, 242, 232, 55, 62, 11, 68]

  function Bit(r: bv8): bv64 { (r & 1) as bv64 }

  /** Algorithm 6: bit 2^j - 1 of the round constant is rc(j + 7 i). */
  function RoundConstant(r: bv8): bv64 {
    var r1 := Shift(r);
    var r2 := Shift(r1);
    var r3 := Shift(r2);
    var r4 := Shift(r3);
    var r5 := Shift(r4);
    var r6 := Shift(r5);
    Bit(r) | (Bit(r1) << 1) | (Bit(r2) << 3) | (Bit(r3) << 7) | (Bit(r4) << 15) | (Bit(r5) << 31) | (Bit(r6) << 63)
  }

  function SevenShifts(r: bv8): bv8 {
    Shift(Shift(Shift(Shift(Shift(Shift(Shift(r)))))))
  }

  lemma RegisterAfterSeven(t: nat)
    ensures Register(t + 7) == SevenShifts(Register(t))
  {
    hide Shift;
    assert Register(t + 1) == Shift(Register(t));
    assert Register(t + 2) == Shift(Register(t + 1));
    assert Register(t + 3) == Shift(Register(t + 2));
    assert Register(t + 4) == Shift(Register(t + 3));
    assert Register(t + 5) == Shift(Register(t + 4));
    assert Register(t + 6) == Shift(Register(t + 5));
    assert Register(t + 7) == Shift(Register(t + 6));
  }

  lemma RegisterTable(i: nat)
    requires i < 23
    ensures SevenShifts(REGISTER[i]) == REGISTER[i + 1]
  {
    assert i == 0 ==> SevenShifts(1) == 128;
    assert i == 1 ==> SevenShifts(128) == 216;
    assert i == 2 ==> SevenShifts(216) == 26;
    assert i == 3 ==> SevenShifts(26) == 223;
    assert i == 4 ==> SevenShifts(223) == 9;
    assert i == 5 ==> SevenShifts(9) == 53;
    assert i == 6 ==> SevenShifts(53) == 79;
    assert i == 7 ==> SevenShifts(79) == 202;
    assert i == 8 ==> SevenShifts(202) == 112;
    assert i == 9 ==> SevenShifts(112) == 65;
    assert i == 10 ==> SevenShifts(65) == 236;
    assert i == 11 ==> SevenShifts(236) == 213;
    assert i == 12 ==> SevenShifts(213) == 205;
    assert i == 13 ==> SevenShifts(205) == 99;
    assert i == 14 ==> SevenShifts(99) == 171;
    assert i == 15 ==> SevenShifts(171) == 170;
    assert i == 16 ==> SevenShifts(170) == 42;
    assert i == 17 ==> SevenShifts(42) == 242;
    assert i == 18 ==> SevenShifts(242) == 232;
    assert i == 19 ==> SevenShifts(232) == 55;
    assert i == 20 ==> SevenShifts(55) == 62;
    assert i == 21 ==> SevenShifts(62) == 11;
    assert i == 22 ==> SevenShifts(11) == 68;
  }

  lemma {:induction false} RegisterAt(i: nat)
    requires i < 24
    ensures Register(7 * i) == REGISTER[i]
  {
    hide Shift, SevenShifts;
    if i > 0 {
      RegisterAt(i - 1);
      RegisterAfterSeven(7 * (i - 1));
      RegisterTable(i - 1);
    }
  }

  lemma FirstConstants(i: nat)
    requires i < 8
    ensures RoundConstant(REGISTER[i]) == RC[i]
  {
  }

  lemma MiddleConstants(i: nat)
    requires 8 <= i < 16
    ensures RoundConstant(REGISTER[i]) == RC[i]
  {
  }

  lemma LastConstants(i: nat)
    requires 16 <= i < 24
    ensures RoundConstant(REGISTER[i]) == RC[i]
  {
  }

  lemma ConstantTable(i: nat)
    requires i < 24
    ensures RoundConstant(REGISTER[i]) == RC[i]
  {
    hide RoundConstant;
    if i < 8 { FirstConstants(i); } else if i < 16 { MiddleConstants(i); } else { LastConstants(i); }
  }

  /** Every round constant of the kernels is the one the standard's shift register generates. */
  lemma RoundConstantsOfTheStandard(i: nat)
    requires i < 24
    ensures RC[i] == RoundConstant(Register(7 * i))
  {
    hide RoundConstant;
    RegisterAt(i);
    ConstantTable(i);
  }
}

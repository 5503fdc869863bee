/** The in-place permutation of the kernels, in its three orders of the rho and pi moves. */
module Keccak {
  import opened KeccakSpec

  // ---- theta ----

  /** The five lanes of column x take the effect t. */
  method ThetaColumn<T>(L: Algebra<T>, st: array<T>, x: int, t: T)
    requires st.Length == 25 && 0 <= x < 5
    modifies st
    ensures forall i :: 0 <= i < 25 ==> st[i] == if i % 5 == x then L.xor(old(st[i]), t) else old(st[i])
  {
    st[x] := L.xor(st[x], t);
    st[x + 5] := L.xor(st[x + 5], t);
    st[x + 10] := L.xor(st[x + 10], t);
    st[x + 15] := L.xor(st[x + 15], t);
    st[x + 20] := L.xor(st[x + 20], t);
  }

  method ColumnParity<T>(L: Algebra<T>, st: array<T>, x: int) returns (p: T)
    requires st.Length == 25 && 0 <= x < 5
    ensures p == Parity(L, st[..], x)
  {
    p := L.xor(L.xor(L.xor(L.xor(st[x], st[x + 5]), st[x + 10]), st[x + 15]), st[x + 20]);
  }

  method ThetaStep<T>(L: Algebra<T>, st: array<T>)
    requires st.Length == 25
    modifies st
    ensures st[..] == Theta(L, old(st[..]))
  {
    hide Parity;
    ghost var s := st[..];
    var bc0 := ColumnParity(L, st, 0);
    var bc1 := ColumnParity(L, st, 1);
    var bc2 := ColumnParity(L, st, 2);
    var bc3 := ColumnParity(L, st, 3);
    var bc4 := ColumnParity(L, st, 4);
    ThetaColumn(L, st, 0, L.xor(bc4, L.rot(bc1, 1)));
    ThetaColumn(L, st, 1, L.xor(bc0, L.rot(bc2, 1)));
    ThetaColumn(L, st, 2, L.xor(bc1, L.rot(bc3, 1)));
    ThetaColumn(L, st, 3, L.xor(bc2, L.rot(bc4, 1)));
    ThetaColumn(L, st, 4, L.xor(bc3, L.rot(bc0, 1)));
    assert ThetaEffect(L, s, 0) == L.xor(bc4, L.rot(bc1, 1));
    assert ThetaEffect(L, s, 1) == L.xor(bc0, L.rot(bc2, 1));
    assert ThetaEffect(L, s, 2) == L.xor(bc1, L.rot(bc3, 1));
    assert ThetaEffect(L, s, 3) == L.xor(bc2, L.rot(bc4, 1));
    assert ThetaEffect(L, s, 4) == L.xor(bc3, L.rot(bc0, 1));
    assert forall i :: 0 <= i < 25 ==> st[i] == L.xor(s[i], ThetaEffect(L, s, i % 5));
  }

  // ---- rho and pi ----

  /** The destinations of the rho-pi walk, in its forward order, and their rotations. */
  const PILN: seq<int> := [10, 7, 11, 17, 18, 3, 5, 16, 8, 21, 24, 4, 15, 23, 19, 13, 12, 2, 20, 14, 22, 9, 6, 1]
  const RHO: seq<int> := [1, 3, 6, 10, 15, 21, 28, 36, 45, 55, 2, 14, 27, 41, 56, 8, 25, 43, 62, 18, 39, 61, 20, 44]

  /** Where lane d is written in the walk. */
  const STEP_OF: seq<int> := [
    24, 23, 17, 5, 11, 6, 22, 1, 8, 21, 0, 2, 16, 15, 19, 12, 7, 3, 4, 14, 18, 9, 20, 13, 10]

  /** The lane that move k reads: the walk starts at lane 1 and each move reads the previous target. */
  function Source(k: int): int
    requires 0 <= k <= 24
  {
    if k == 0 then 1 else PILN[k - 1]
  }

  lemma WalkTables(k: int)
    requires 0 <= k < 24
    ensures 1 <= PILN[k] < 25 && STEP_OF[PILN[k]] == k && 1 <= RHO[k] <= 63
  {
  }

  lemma WalkCovers(d: int)
    requires 1 <= d < 25
    ensures 0 <= STEP_OF[d] < 24 && PILN[STEP_OF[d]] == d
  {
  }

  /** Pi reads, for target PILN[k], the lane Source(k). */
  lemma WalkIsPi(k: int)
    requires 0 <= k < 24
    ensures var d := PILN[k]; (d % 5 + 3 * (d / 5)) % 5 + 5 * (d % 5) == Source(k)
  {
  }

  lemma WalkIsRho(k: int)
    requires 0 <= k < 24
    ensures 0 <= Source(k) < 25 && OFFSETS[Source(k)] == RHO[k]
  {
  }

  /** The first n forward moves are done on s, and t holds the lane the next move needs. */
  ghost predicate Forward<T>(L: Algebra<T>, s: seq<T>, r: seq<T>, t: T, n: int)
    requires |s| == |r| == 25 && 0 <= n <= 24
  {
    && t == s[Source(n)]
    && r[0] == s[0]
    && forall d :: 1 <= d < 25 ==>
         r[d] == if STEP_OF[d] < n then L.rot(s[Source(STEP_OF[d])], RHO[STEP_OF[d]]) else s[d]
  }

  /** b = st[j]; st[j] = rotl(t, n); t = b. */
  method ForwardMove<T>(L: Algebra<T>, st: array<T>, t: T, j: int, n: int, ghost s: seq<T>, ghost k: int) returns (b: T)
    requires st.Length == 25 && |s| == 25 && 0 <= k < 24 && j == PILN[k] && n == RHO[k]
    requires Forward(L, s, st[..], t, k)
    modifies st
    ensures Forward(L, s, st[..], b, k + 1)
  {
    WalkTables(k);
    b := st[j];
    st[j] := L.rot(t, n);
    forall d | 1 <= d < 25
      ensures d != j ==> STEP_OF[d] != k
    {
      WalkCovers(d);
    }
  }

  lemma PiAt<T>(s: seq<T>, d: int, i: int)
    requires |s| == 25 && 0 <= d < 25 && i == (d % 5 + 3 * (d / 5)) % 5 + 5 * (d % 5)
    ensures 0 <= i < 25 && Pi(s)[d] == s[i]
  {
    hide Lane;
    assert Pi(s)[d] == Lane(s, d % 5 + 3 * (d / 5), d % 5);
    LaneIs(s, d % 5 + 3 * (d / 5), d % 5);
  }

  lemma LaneIs<T>(s: seq<T>, x: int, y: int)
    requires |s| == 25 && 0 <= y < 5
    ensures 0 <= x % 5 + 5 * y < 25 && Lane(s, x, y) == s[x % 5 + 5 * y]
  {
  }

  lemma RhoAt<T>(L: Algebra<T>, s: seq<T>, i: int)
    requires |s| == 25 && 0 <= i < 25
    ensures Rho(L, s)[i] == if OFFSETS[i] == 0 then s[i] else L.rot(s[i], OFFSETS[i])
  {
  }

  lemma WalkDone<T>(L: Algebra<T>, s: seq<T>, r: seq<T>, d: int)
    requires |s| == |r| == 25 && 0 <= d < 25
    requires r[d] == if d == 0 then s[0] else L.rot(s[Source(STEP_OF[d])], RHO[STEP_OF[d]])
    ensures r[d] == Pi(Rho(L, s))[d]
  {
    hide Pi, Rho, Source;
    if d == 0 {
      PiAt(Rho(L, s), 0, 0);
      RhoAt(L, s, 0);
    } else {
      var k := STEP_OF[d];
      WalkCovers(d);
      WalkIsPi(k);
      WalkIsRho(k);
      WalkTables(k);
      PiAt(Rho(L, s), d, Source(k));
      RhoAt(L, s, Source(k));
    }
  }

  lemma ForwardDone<T>(L: Algebra<T>, s: seq<T>, r: seq<T>, t: T)
    requires |s| == |r| == 25 && Forward(L, s, r, t, 24)
    ensures r == Pi(Rho(L, s))
  {
    forall d | 0 <= d < 25
      ensures r[d] == Pi(Rho(L, s))[d]
    {
      if d > 0 { WalkCovers(d); }
      WalkDone(L, s, r, d);
    }
  }

  /** The moves from n up are done on s, in the reverse order, with t the saved lane 1. */
  ghost predicate Backward<T>(L: Algebra<T>, s: seq<T>, r: seq<T>, n: int)
    requires |s| == |r| == 25 && 0 <= n <= 24
  {
    && r[0] == s[0]
    && forall d :: 1 <= d < 25 ==>
         r[d] == if STEP_OF[d] >= n then L.rot(s[Source(STEP_OF[d])], RHO[STEP_OF[d]]) else s[d]
  }

  /** st[i] = rotl(st[j], n), a move of the reverse order: it reads a lane no later move wrote. */
  method BackwardMove<T>(L: Algebra<T>, st: array<T>, i: int, j: int, n: int, ghost s: seq<T>, ghost k: int)
    requires st.Length == 25 && |s| == 25 && 1 <= k < 24 && i == PILN[k] && j == PILN[k - 1] && n == RHO[k]
    requires Backward(L, s, st[..], k + 1)
    modifies st
    ensures Backward(L, s, st[..], k)
  {
    WalkTables(k);
    WalkTables(k - 1);
    st[i] := L.rot(st[j], n);
    forall d | 1 <= d < 25
      ensures d != i ==> STEP_OF[d] != k
    {
      WalkCovers(d);
    }
  }

  /** The last reverse move uses the saved lane 1. */
  method LastBackwardMove<T>(L: Algebra<T>, st: array<T>, t: T, ghost s: seq<T>)
    requires st.Length == 25 && |s| == 25 && t == s[1] && Backward(L, s, st[..], 1)
    modifies st
    ensures st[..] == Pi(Rho(L, s))
  {
    st[10] := L.rot(t, 1);
    forall d | 0 <= d < 25
      ensures st[..][d] == Pi(Rho(L, s))[d]
    {
      if d > 0 {
        WalkCovers(d);
        WalkTables(STEP_OF[d]);
      }
      WalkDone(L, s, st[..], d);
    }
  }

  lemma WalkStarts<T>(L: Algebra<T>, s: seq<T>)
    requires |s| == 25
    ensures Forward(L, s, s, s[1], 0) && Backward(L, s, s, 24)
  {
    forall d | 1 <= d < 25
      ensures 0 <= STEP_OF[d] < 24
    {
      WalkCovers(d);
    }
  }

  // ---- chi ----

  method ChiRow<T>(L: Algebra<T>, st: array<T>, j: int, ghost s: seq<T>)
    requires st.Length == 25 && |s| == 25 && 0 <= j < 25 && j % 5 == 0
    requires forall i :: j <= i < 25 ==> st[i] == s[i]
    requires forall i :: 0 <= i < j ==> st[i] == Chi(L, s)[i]
    modifies st
    ensures forall i :: j + 5 <= i < 25 ==> st[i] == s[i]
    ensures forall i :: 0 <= i < j + 5 ==> st[i] == Chi(L, s)[i]
  {
    hide Chi;
    var a0, a1, a2, a3, a4 := st[j], st[j + 1], st[j + 2], st[j + 3], st[j + 4];
    st[j] := L.xor(a0, L.andNot(a1, a2));
    st[j + 1] := L.xor(a1, L.andNot(a2, a3));
    st[j + 2] := L.xor(a2, L.andNot(a3, a4));
    st[j + 3] := L.xor(a3, L.andNot(a4, a0));
    st[j + 4] := L.xor(a4, L.andNot(a0, a1));
    ChiRowIs(L, s, j);
  }

  lemma ChiDefinition<T>(L: Algebra<T>, s: seq<T>, i: int)
    requires |s| == 25 && 0 <= i < 25
    ensures Chi(L, s)[i] == ChiLane(L, s, i)
  {
    hide ChiLane;
  }

  lemma LaneIndex(y: int, x: int, e: int)
    requires 0 <= y < 5 && 0 <= x < 5 && 0 <= e <= 2
    ensures (5 * y + x + e) % 5 == (x + e) % 5 && (5 * y + x) / 5 == y && y % 5 == y
  {
  }

  lemma ChiAt<T>(L: Algebra<T>, s: seq<T>, y: int, x: int)
    requires |s| == 25 && 0 <= y < 5 && 0 <= x < 5
    ensures Chi(L, s)[5 * y + x] == L.xor(s[5 * y + x], L.andNot(s[5 * y + (x + 1) % 5], s[5 * y + (x + 2) % 5]))
  {
    hide Chi;
    ChiDefinition(L, s, 5 * y + x);
    LaneIndex(y, x, 1);
    LaneIndex(y, x, 2);
  }

  lemma ChiRowIs<T>(L: Algebra<T>, s: seq<T>, j: int)
    requires |s| == 25 && 0 <= j < 25 && j % 5 == 0
    ensures Chi(L, s)[j] == L.xor(s[j], L.andNot(s[j + 1], s[j + 2]))
    ensures Chi(L, s)[j + 1] == L.xor(s[j + 1], L.andNot(s[j + 2], s[j + 3]))
    ensures Chi(L, s)[j + 2] == L.xor(s[j + 2], L.andNot(s[j + 3], s[j + 4]))
    ensures Chi(L, s)[j + 3] == L.xor(s[j + 3], L.andNot(s[j + 4], s[j]))
    ensures Chi(L, s)[j + 4] == L.xor(s[j + 4], L.andNot(s[j], s[j + 1]))
  {
    hide Chi;
    var y := j / 5;
    assert j == 5 * y;
    ChiAt(L, s, y, 0);
    ChiAt(L, s, y, 1);
    ChiAt(L, s, y, 2);
    ChiAt(L, s, y, 3);
    ChiAt(L, s, y, 4);
  }

  method ChiStep<T>(L: Algebra<T>, st: array<T>)
    requires st.Length == 25
    modifies st
    ensures st[..] == Chi(L, old(st[..]))
  {
    hide Chi;
    ghost var s := st[..];
    ChiRow(L, st, 0, s);
    ChiRow(L, st, 5, s);
    ChiRow(L, st, 10, s);
    ChiRow(L, st, 15, s);
    ChiRow(L, st, 20, s);
  }

  // ---- the permutation in its three orders ----

  method IotaStep<T>(L: Algebra<T>, st: array<T>, round: int)
    requires st.Length == 25
    modifies st
    ensures st[..] == Iota(L, old(st[..]), round)
  {
    st[0] := L.xor(st[0], L.rc(round));
  }

  method BackwardHead<T>(L: Algebra<T>, st: array<T>, ghost s: seq<T>)
    requires st.Length == 25 && |s| == 25 && Backward(L, s, st[..], 24)
    modifies st
    ensures Backward(L, s, st[..], 12)
  {
    hide Backward;
    BackwardMove(L, st, 1, 6, 44, s, 23);
    BackwardMove(L, st, 6, 9, 20, s, 22);
    BackwardMove(L, st, 9, 22, 61, s, 21);
    BackwardMove(L, st, 22, 14, 39, s, 20);
    BackwardMove(L, st, 14, 20, 18, s, 19);
    BackwardMove(L, st, 20, 2, 62, s, 18);
    BackwardMove(L, st, 2, 12, 43, s, 17);
    BackwardMove(L, st, 12, 13, 25, s, 16);
    BackwardMove(L, st, 13, 19, 8, s, 15);
    BackwardMove(L, st, 19, 23, 56, s, 14);
    BackwardMove(L, st, 23, 15, 41, s, 13);
    BackwardMove(L, st, 15, 4, 27, s, 12);
  }

  /** The saved-lane order of the vanity kernels: each move reads a lane before it is overwritten. */
  method RhoPiBackward<T>(L: Algebra<T>, st: array<T>)
    requires st.Length == 25
    modifies st
    ensures st[..] == Pi(Rho(L, old(st[..])))
  {
    hide Pi, Rho, Backward, Forward;
    ghost var s := st[..];
    WalkStarts(L, s);
    var t := st[1];
    BackwardHead(L, st, s);
    BackwardMove(L, st, 4, 24, 14, s, 11);
    BackwardMove(L, st, 24, 21, 2, s, 10);
    BackwardMove(L, st, 21, 8, 55, s, 9);
    BackwardMove(L, st, 8, 16, 45, s, 8);
    BackwardMove(L, st, 16, 5, 36, s, 7);
    BackwardMove(L, st, 5, 3, 28, s, 6);
    BackwardMove(L, st, 3, 18, 21, s, 5);
    BackwardMove(L, st, 18, 17, 15, s, 4);
    BackwardMove(L, st, 17, 11, 10, s, 3);
    BackwardMove(L, st, 11, 7, 6, s, 2);
    BackwardMove(L, st, 7, 10, 3, s, 1);
    LastBackwardMove(L, st, t, s);
  }

  method ForwardHead<T>(L: Algebra<T>, st: array<T>, t0: T, ghost s: seq<T>) returns (t: T)
    requires st.Length == 25 && |s| == 25 && Forward(L, s, st[..], t0, 0)
    modifies st
    ensures Forward(L, s, st[..], t, 12)
  {
    hide Forward;
    t := t0;
    t := ForwardMove(L, st, t, 10, 1, s, 0);
    t := ForwardMove(L, st, t, 7, 3, s, 1);
    t := ForwardMove(L, st, t, 11, 6, s, 2);
    t := ForwardMove(L, st, t, 17, 10, s, 3);
    t := ForwardMove(L, st, t, 18, 15, s, 4);
    t := ForwardMove(L, st, t, 3, 21, s, 5);
    t := ForwardMove(L, st, t, 5, 28, s, 6);
    t := ForwardMove(L, st, t, 16, 36, s, 7);
    t := ForwardMove(L, st, t, 8, 45, s, 8);
    t := ForwardMove(L, st, t, 21, 55, s, 9);
    t := ForwardMove(L, st, t, 24, 2, s, 10);
    t := ForwardMove(L, st, t, 4, 14, s, 11);
  }

  /** The carried-lane order of the CREATE2 kernel, unrolled. */
  method RhoPiForward<T>(L: Algebra<T>, st: array<T>)
    requires st.Length == 25
    modifies st
    ensures st[..] == Pi(Rho(L, old(st[..])))
  {
    hide Pi, Rho, Forward, Backward;
    ghost var s := st[..];
    WalkStarts(L, s);
    var t := st[1];
    t := ForwardHead(L, st, t, s);
    t := ForwardMove(L, st, t, 15, 27, s, 12);
    t := ForwardMove(L, st, t, 23, 41, s, 13);
    t := ForwardMove(L, st, t, 19, 56, s, 14);
    t := ForwardMove(L, st, t, 13, 8, s, 15);
    t := ForwardMove(L, st, t, 12, 25, s, 16);
    t := ForwardMove(L, st, t, 2, 43, s, 17);
    t := ForwardMove(L, st, t, 20, 62, s, 18);
    t := ForwardMove(L, st, t, 14, 18, s, 19);
    t := ForwardMove(L, st, t, 22, 39, s, 20);
    t := ForwardMove(L, st, t, 9, 61, s, 21);
    t := ForwardMove(L, st, t, 6, 20, s, 22);
    t := ForwardMove(L, st, t, 1, 44, s, 23);
    ForwardDone(L, s, st[..], t);
  }

  /** The carried-lane order of the host, driven by the tables. */
  method RhoPiTables<T>(L: Algebra<T>, st: array<T>)
    requires st.Length == 25
    modifies st
    ensures st[..] == Pi(Rho(L, old(st[..])))
  {
    hide Pi, Rho, Forward, Backward;
    ghost var s := st[..];
    WalkStarts(L, s);
    var t := st[1];
    for i := 0 to 24
      invariant Forward(L, s, st[..], t, i)
    {
      t := ForwardMove(L, st, t, PILN[i], RHO[i], s, i);
    }
    ForwardDone(L, s, st[..], t);
  }

  /** The permutation of the vanity kernels, over whichever lanes the algebra provides. */
  method KeccakBackward<T>(L: Algebra<T>, st: array<T>)
    requires st.Length == 25
    modifies st
    ensures st[..] == Rounds(L, old(st[..]), 24)
  {
    hide Theta, Rho, Pi, Chi, Iota;
    for round := 0 to 24
      invariant st[..] == Rounds(L, old(st[..]), round)
    {
      ThetaStep(L, st);
      RhoPiBackward(L, st);
      ChiStep(L, st);
      IotaStep(L, st, round);
    }
  }

  /** The unrolled permutation of the CREATE2 kernel. */
  method KeccakForward(st: array<bv64>)
    requires st.Length == 25
    modifies st
    ensures st[..] == KeccakF(old(st[..]))
  {
    hide Theta, Rho, Pi, Chi, Iota;
    for round := 0 to 24
      invariant st[..] == Rounds(Plain(), old(st[..]), round)
    {
      ThetaStep(Plain(), st);
      RhoPiForward(Plain(), st);
      ChiStep(Plain(), st);
      IotaStep(Plain(), st, round);
    }
  }
}

/** Keccak on bit-interleaved lanes: every step of the permutation commutes with interleaving. */
module KeccakSplit {
  import opened KeccakSpec
  import opened Keccak
  import opened Interleave
  import opened RotationCases

  // ---- the lane operations on halves ----

  function HalfXor(a: Half, b: Half): Half { a ^ b }
  function HalfAndNot(a: bv64, b: Half): Half { !a & b }
  function PairXor(a: Pair, b: Pair): Pair { Pair(HalfXor(a.even, b.even), HalfXor(a.odd, b.odd)) }
  function PairAndNot(a: Pair, b: Pair): Pair { Pair(HalfAndNot(a.even, b.even), HalfAndNot(a.odd, b.odd)) }

  /** The round constants of the Metal kernel. */
  const PAIR_RC: seq<Pair> := [
    Pair(0x00000001, 0x00000000), Pair(0x00000000, 0x00000089), Pair(0x00000000, 0x8000008b),
    Pair(0x00000000, 0x80008080), Pair(0x00000001, 0x0000008b), Pair(0x00000001, 0x00008000),
    Pair(0x00000001, 0x80008088), Pair(0x00000001, 0x80000082), Pair(0x00000000, 0x0000000b),
    Pair(0x00000000, 0x0000000a), Pair(0x00000001, 0x00008082), Pair(0x00000000, 0x00008003),
    Pair(0x00000001, 0x0000808b), Pair(0x00000001, 0x8000000b), Pair(0x00000001, 0x8000008a),
    Pair(0x00000001, 0x80000081), Pair(0x00000000, 0x80000081), Pair(0x00000000, 0x80000008),
    Pair(0x00000000, 0x00000083), Pair(0x00000000, 0x80008003), Pair(0x00000001, 0x80008088),
    Pair(0x00000000, 0x80000088), Pair(0x00000001, 0x00008000), Pair(0x00000000, 0x80008082)]

  function PairRc(i: int): Pair { if 0 <= i < 24 then PAIR_RC[i] else Pair(0, 0) }

  function Split(): Algebra<Pair> {
    Algebra(PairXor, PairAndNot, Irol, PairRc)
  }

  // ---- interleaving respects rotation, exclusive or and the chi term ----

  /** Interleaving turns a 64-bit rotation into two 32-bit ones, for every amount that neither form
      has to special-case. */
  lemma RotlCommutes(v: bv64, n: int)
    requires 1 <= n <= 62
    ensures Il64(Rotl(v, n)) == Irol(Il64(v), n)
  {
    hide Il64, Rotl, Irol;
    EveryTurn(v, n);
  }

  lemma EvenXor(a: bv64, b: bv64)
    ensures EvenBits(a ^ b) == HalfXor(EvenBits(a), EvenBits(b))
  {
  }

  lemma OddXor(a: bv64, b: bv64)
    ensures EvenBits((a ^ b) >> 1) == HalfXor(EvenBits(a >> 1), EvenBits(b >> 1))
  {
  }

  lemma XorCommutes(a: bv64, b: bv64)
    ensures Il64(PlainXor(a, b)) == PairXor(Il64(a), Il64(b))
  {
    hide EvenBits, HalfXor;
    EvenXor(a, b);
    OddXor(a, b);
  }

  lemma EvenAndNot(a: bv64, b: bv64)
    ensures EvenBits(!a & b) == HalfAndNot(EvenBits(a), EvenBits(b))
  {
  }

  lemma OddAndNot(a: bv64, b: bv64)
    ensures EvenBits((!a & b) >> 1) == HalfAndNot(EvenBits(a >> 1), EvenBits(b >> 1))
  {
  }

  lemma AndNotCommutes(a: bv64, b: bv64)
    ensures Il64(PlainAndNot(a, b)) == PairAndNot(Il64(a), Il64(b))
  {
    hide EvenBits, HalfAndNot;
    EvenAndNot(a, b);
    OddAndNot(a, b);
  }

  lemma RcFrom0(i: int)
    requires 0 <= i < 6
    ensures Il64(RC[i]) == PAIR_RC[i]
  {
    assert Il64(0x0000000000000001) == Pair(0x00000001, 0x00000000);
    assert Il64(0x0000000000008082) == Pair(0x00000000, 0x00000089);
    assert Il64(0x800000000000808a) == Pair(0x00000000, 0x8000008b);
    assert Il64(0x8000000080008000) == Pair(0x00000000, 0x80008080);
    assert Il64(0x000000000000808b) == Pair(0x00000001, 0x0000008b);
    assert Il64(0x0000000080000001) == Pair(0x00000001, 0x00008000);
  }

  lemma RcFrom6(i: int)
    requires 6 <= i < 12
    ensures Il64(RC[i]) == PAIR_RC[i]
  {
    assert Il64(0x8000000080008081) == Pair(0x00000001, 0x80008088);
    assert Il64(0x8000000000008009) == Pair(0x00000001, 0x80000082);
    assert Il64(0x000000000000008a) == Pair(0x00000000, 0x0000000b);
    assert Il64(0x0000000000000088) == Pair(0x00000000, 0x0000000a);
    assert Il64(0x0000000080008009) == Pair(0x00000001, 0x00008082);
    assert Il64(0x000000008000000a) == Pair(0x00000000, 0x00008003);
  }

  lemma RcFrom12(i: int)
    requires 12 <= i < 18
    ensures Il64(RC[i]) == PAIR_RC[i]
  {
    assert Il64(0x000000008000808b) == Pair(0x00000001, 0x0000808b);
    assert Il64(0x800000000000008b) == Pair(0x00000001, 0x8000000b);
    assert Il64(0x8000000000008089) == Pair(0x00000001, 0x8000008a);
    assert Il64(0x8000000000008003) == Pair(0x00000001, 0x80000081);
    assert Il64(0x8000000000008002) == Pair(0x00000000, 0x80000081);
    assert Il64(0x8000000000000080) == Pair(0x00000000, 0x80000008);
  }

  lemma RcFrom18(i: int)
    requires 18 <= i < 24
    ensures Il64(RC[i]) == PAIR_RC[i]
  {
    assert Il64(0x000000000000800a) == Pair(0x00000000, 0x00000083);
    assert Il64(0x800000008000000a) == Pair(0x00000000, 0x80008003);
    assert Il64(0x8000000080008081) == Pair(0x00000001, 0x80008088);
    assert Il64(0x8000000000008080) == Pair(0x00000000, 0x80000088);
    assert Il64(0x0000000080000001) == Pair(0x00000001, 0x00008000);
    assert Il64(0x8000000080008008) == Pair(0x00000000, 0x80008082);
  }

  /** The interleaved constants are the plain ones, interleaved. */
  lemma RcCommutes(i: int)
    ensures Il64(PlainRc(i)) == PairRc(i)
  {
    hide Il64;
    if i < 0 || i >= 24 { ZeroPair(); }
    else if i < 6 { RcFrom0(i); }
    else if i < 12 { RcFrom6(i); }
    else if i < 18 { RcFrom12(i); }
    else { RcFrom18(i); }
  }

  lemma ZeroPair()
    ensures Il64(0) == Pair(0, 0)
  {
  }

  // ---- the interleaved permutation refines the plain one ----

  ghost function MapIl64(s: seq<bv64>): (r: seq<Pair>)
    requires |s| == 25
    ensures |r| == 25 && forall i :: 0 <= i < 25 ==> r[i] == Il64(s[i])
  {
    seq(25, i requires 0 <= i < 25 => Il64(s[i]))
  }

  lemma ParityCommutes(s: seq<bv64>, x: int)
    requires |s| == 25 && 0 <= x < 5
    ensures Il64(Parity(Plain(), s, x)) == Parity(Split(), MapIl64(s), x)
  {
    hide Il64, PlainXor, PairXor, MapIl64;
    var a, b, c, d, e := Lane(s, x, 0), Lane(s, x, 1), Lane(s, x, 2), Lane(s, x, 3), Lane(s, x, 4);
    XorCommutes(a, b);
    XorCommutes(PlainXor(a, b), c);
    XorCommutes(PlainXor(PlainXor(a, b), c), d);
    XorCommutes(PlainXor(PlainXor(PlainXor(a, b), c), d), e);
  }

  lemma EffectCommutes(s: seq<bv64>, x: int)
    requires |s| == 25 && 0 <= x < 5
    ensures Il64(ThetaEffect(Plain(), s, x)) == ThetaEffect(Split(), MapIl64(s), x)
  {
    hide Il64, PlainXor, PairXor, MapIl64, Parity, Rotl, Irol;
    var p, q := Parity(Plain(), s, (x + 4) % 5), Parity(Plain(), s, (x + 1) % 5);
    ParityCommutes(s, (x + 4) % 5);
    ParityCommutes(s, (x + 1) % 5);
    RotlCommutes(q, 1);
    XorCommutes(p, Rotl(q, 1));
  }

  lemma ThetaCommutes(s: seq<bv64>)
    requires |s| == 25
    ensures Theta(Split(), MapIl64(s)) == MapIl64(Theta(Plain(), s))
  {
    hide Il64, PlainXor, PairXor, MapIl64, ThetaEffect;
    forall i | 0 <= i < 25
      ensures Theta(Split(), MapIl64(s))[i] == MapIl64(Theta(Plain(), s))[i]
    {
      EffectCommutes(s, i % 5);
      XorCommutes(s[i], ThetaEffect(Plain(), s, i % 5));
    }
  }

  lemma OffsetIsTurn(i: int)
    requires 0 <= i < 25
    ensures OFFSETS[i] == 0 || 1 <= OFFSETS[i] <= 62
  {
  }

  lemma RhoCommutes(s: seq<bv64>)
    requires |s| == 25
    ensures Rho(Split(), MapIl64(s)) == MapIl64(Rho(Plain(), s))
  {
    hide Il64, Rotl, Irol, MapIl64, Rho;
    forall i | 0 <= i < 25
      ensures Rho(Split(), MapIl64(s))[i] == MapIl64(Rho(Plain(), s))[i]
    {
      RhoAt(Plain(), s, i);
      RhoAt(Split(), MapIl64(s), i);
      OffsetIsTurn(i);
      if OFFSETS[i] != 0 { RotlCommutes(s[i], OFFSETS[i]); }
    }
  }

  lemma PiCommutes(s: seq<bv64>)
    requires |s| == 25
    ensures Pi(MapIl64(s)) == MapIl64(Pi(s))
  {
    hide Il64, MapIl64, Pi;
    forall d | 0 <= d < 25
      ensures Pi(MapIl64(s))[d] == MapIl64(Pi(s))[d]
    {
      var i := (d % 5 + 3 * (d / 5)) % 5 + 5 * (d % 5);
      PiAt(s, d, i);
      PiAt(MapIl64(s), d, i);
    }
  }

  lemma ChiCommutes(s: seq<bv64>)
    requires |s| == 25
    ensures Chi(Split(), MapIl64(s)) == MapIl64(Chi(Plain(), s))
  {
    hide Il64, PlainXor, PairXor, PlainAndNot, PairAndNot, MapIl64, Chi;
    forall d | 0 <= d < 25
      ensures Chi(Split(), MapIl64(s))[d] == MapIl64(Chi(Plain(), s))[d]
    {
      ChiDefinition(Plain(), s, d);
      ChiDefinition(Split(), MapIl64(s), d);
      var b, c := Lane(s, d + 1, d / 5), Lane(s, d + 2, d / 5);
      AndNotCommutes(b, c);
      XorCommutes(s[d], PlainAndNot(b, c));
    }
  }

  lemma IotaCommutes(s: seq<bv64>, round: int)
    requires |s| == 25
    ensures Iota(Split(), MapIl64(s), round) == MapIl64(Iota(Plain(), s, round))
  {
    hide Il64, PlainXor, PairXor, PlainRc, PairRc, MapIl64;
    RcCommutes(round);
    XorCommutes(s[0], PlainRc(round));
  }

  /** The Metal rounds on interleaved lanes are the plain rounds, interleaved. */
  lemma {:induction false} RoundsCommute(s: seq<bv64>, n: nat)
    requires |s| == 25
    ensures Rounds(Split(), MapIl64(s), n) == MapIl64(Rounds(Plain(), s, n))
  {
    hide MapIl64, Theta, Rho, Pi, Chi, Iota, Split, Plain;
    if n > 0 {
      RoundsCommute(s, n - 1);
      var t := Rounds(Plain(), s, n - 1);
      ThetaCommutes(t);
      RhoCommutes(Theta(Plain(), t));
      PiCommutes(Rho(Plain(), Theta(Plain(), t)));
      ChiCommutes(Pi(Rho(Plain(), Theta(Plain(), t))));
      IotaCommutes(Chi(Plain(), Pi(Rho(Plain(), Theta(Plain(), t)))), n - 1);
    }
  }

  /** The Metal permutation: interleave every lane, run the rounds on the halves, deinterleave. */
  method KeccakInterleaved(lanes: array<bv64>)
    requires lanes.Length == 25
    modifies lanes
    ensures lanes[..] == KeccakF(old(lanes[..]))
  {
    hide Il64, Dil, Split, Plain, Rounds;
    ghost var s := lanes[..];
    var st := new Pair[25];
    for i := 0 to 25
      invariant forall k :: 0 <= k < i ==> st[k] == Il64(s[k])
      invariant lanes[..] == s
    {
      st[i] := Il64(lanes[i]);
    }
    assert st[..] == MapIl64(s);
    KeccakBackward(Split(), st);
    RoundsCommute(s, 24);
    for i := 0 to 25
      invariant st[..] == MapIl64(KeccakF(s))
      invariant forall k :: 0 <= k < i ==> lanes[k] == KeccakF(s)[k]
    {
      DilUndoesIl64(KeccakF(s)[i]);
      lanes[i] := Dil(st[i]);
    }
  }
}

/** Inversion by exponentiation: a^(p-2), least significant exponent bit first. */
module FieldInverse {
  import opened NumberTheory
  import opened Words
  import opened Field
  import opened FieldMul

  /** Bit i of a four-limb exponent: (e[i >> 6] >> (i & 63)) & 1. */
  function ExponentBit(e: seq<Word>, i: nat): int
    requires |e| == 4 && i < 256
  {
    (e[i / 64] / Pow2(i % 64)) % 2
  }

  /** The number in limbs k and up. */
  ghost function Upper(e: seq<Word>, k: nat): int
    requires |e| == 4 && k <= 4
    decreases 4 - k
  {
    if k == 4 then 0 else e[k] + B64 * Upper(e, k + 1)
  }

  /** The exponent shifted right by i bits. */
  ghost function Rest(e: seq<Word>, i: nat): int
    requires |e| == 4 && i <= 256
  {
    if i == 256 then 0 else e[i / 64] / Pow2(i % 64) + Pow2(64 - i % 64) * Upper(e, i / 64 + 1)
  }

  lemma HalfShift(x: int, k: nat)
    ensures x / Pow2(k) == (x / Pow2(k)) % 2 + 2 * (x / Pow2(k + 1))
  {
    var q, r := x / Pow2(k), x % Pow2(k);
    ModSplit(x, Pow2(k));
    ModSplit(q, 2);
    var h, b := q / 2, q % 2;
    assert x == h * Pow2(k + 1) + (b * Pow2(k) + r) by {
      assert (2 * h + b) * Pow2(k) == h * (2 * Pow2(k)) + b * Pow2(k);
    }
    assert 0 <= b * Pow2(k) + r < Pow2(k + 1);
    ModUnique(x, Pow2(k + 1), h, b * Pow2(k) + r);
  }

  lemma Pow2Is64()
    ensures Pow2(64) == B64
  {
    assert Pow2(8) == 256;
    assert Pow2(16) == 65536;
    assert Pow2(24) == 16777216;
    assert Pow2(32) == B32;
    assert Pow2(40) == B32 * 256;
    assert Pow2(48) == B32 * 65536;
    assert Pow2(56) == B32 * 16777216;
  }

  lemma RestStep(e: seq<Word>, i: nat)
    requires |e| == 4 && i < 256
    ensures Rest(e, i) == ExponentBit(e, i) + 2 * Rest(e, i + 1)
  {
    var k, j := i / 64, i % 64;
    HalfShift(e[k], j);
    if j < 63 {
      assert (i + 1) / 64 == k && (i + 1) % 64 == j + 1;
      assert Pow2(64 - j) == 2 * Pow2(64 - (j + 1));
      Assoc(2, Pow2(63 - j), Upper(e, k + 1));
    } else {
      assert (i + 1) / 64 == k + 1 && (i + 1) % 64 == 0;
      Pow2Is64();
      ModUnique(e[k], Pow2(64), 0, e[k]);
      assert Pow2(1) == 2;
      if k < 3 { NextLimb(e, k + 1); }
    }
  }

  lemma NextLimb(e: seq<Word>, k: nat)
    requires |e| == 4 && k < 4
    ensures Rest(e, 64 * k) == Upper(e, k)
  {
    Pow2Is64();
    assert (64 * k) / 64 == k && (64 * k) % 64 == 0;
  }

  lemma RestNonnegative(e: seq<Word>, i: nat)
    requires |e| == 4 && i <= 256
    ensures Rest(e, i) >= 0
    decreases 256 - i
  {
    if i < 256 {
      RestStep(e, i);
      RestNonnegative(e, i + 1);
    }
  }

  lemma RestEnd(e: seq<Word>)
    requires |e| == 4
    ensures Rest(e, 256) == 0
  {
  }

  const E0: Word := 0xFFFFFFFEFFFFFC2D

  lemma ExponentValue()
    ensures Rest([E0, PF, PF, PF], 0) == P - 2
  {
    PrimeValue();
    NextLimb([E0, PF, PF, PF], 0);
  }

  /** One bit: acc * base^rest is kept when the base is squared and the bit is multiplied in. */
  lemma PowerStep(acc: int, base: int, rest: nat, bit: int, rest': nat, acc': int, base': int, p: int, target: int)
    requires p > 0 && rest == bit + 2 * rest' && 0 <= bit <= 1
    requires Cong(acc * Pow(base, rest), target, p)
    requires Cong(acc', if bit == 1 then acc * base else acc, p)
    requires Cong(base', base * base, p)
    ensures Cong(acc' * Pow(base', rest'), target, p)
  {
    CongPow(base', base * base, rest', p);
    PowSquare(base, rest');
    var m := if bit == 1 then acc * base else acc;
    CongMul(acc', m, Pow(base', rest'), Pow(base, 2 * rest'), p);
    if bit == 1 {
      assert Pow(base, rest) == base * Pow(base, 2 * rest');
      Assoc(acc, base, Pow(base, 2 * rest'));
    }
  }

  /** a^(p-2) mod p for every 256-bit a, r aliased to a or not. */
  method FeInv(r: array<Word>, a: array<Word>)
    requires r.Length == 4 && a.Length == 4
    modifies r
    ensures Val(r) == Pow(old(Val(a)), P - 2) % P && InRange(Val(r))
  {
    hide Val, Pow, Rest, ExponentBit, Cong;
    ghost var v := Val(a);
    var acc := new Word[4];
    FeSetOne(acc);
    var base := new Word[4];
    FeCopy(base, a);
    var e := [E0, PF, PF, PF];
    ghost var target := Pow(v, P - 2);
    ExponentValue();
    StartPower(v, P - 2);
    ResidueBound(1);
    for i := 0 to 256
      invariant Rest(e, i) >= 0
      invariant Cong(Val(acc) * Pow(Val(base), Rest(e, i)), target, P)
      invariant 0 <= Val(acc) < P
    {
      ghost var va, vb := Val(acc), Val(base);
      RestStep(e, i);
      RestNonnegative(e, i + 1);
      BitBound(e, i);
      if ExponentBit(e, i) == 1 {
        FeMul(acc, acc, base);
      }
      FeSqr(base, base);
      Residue(va * vb);
      Residue(vb * vb);
      PowerStep(va, vb, Rest(e, i), ExponentBit(e, i), Rest(e, i + 1), Val(acc), Val(base), P, target);
    }
    RestEnd(e);
    FinishPower(Val(acc), Val(base), target);
    FeCopy(r, acc);
  }

  lemma BitBound(e: seq<Word>, i: nat)
    requires |e| == 4 && i < 256
    ensures 0 <= ExponentBit(e, i) <= 1
  {
  }

  lemma StartPower(v: int, e: nat)
    ensures Cong(1 * Pow(v, e), Pow(v, e), P)
  {
  }

  lemma Residue(x: int)
    ensures Cong(x % P, x, P) && 0 <= x % P < P
    ensures Cong(x, x, P)
  {
    CongMod(x, P);
  }

  lemma ResidueBound(x: int)
    requires 0 <= x <= 1
    ensures 0 <= x < P
  {
  }

  lemma FinishPower(acc: int, base: int, target: int)
    requires 0 <= acc < P && Cong(acc * Pow(base, 0), target, P)
    ensures acc == target % P
  {
    ModUnique(acc, P, 0, acc);
    assert Pow(base, 0) == 1;
  }
}

/** secp256k1 field elements as four little-endian 64-bit limbs, reduced with p = 2^256 - C.

    Every routine writes its result limb by limb through `r`, and no contract asks `r` to differ
    from the operands: the callers pass the same element as input and output all the time. */
module Field {
  import opened NumberTheory
  import opened Words

  const C: Word := 0x1000003D1
  const P0: Word := 0xFFFFFFFEFFFFFC2F
  const PF: Word := 0xFFFFFFFFFFFFFFFF
  /** The number that limbs denote, least significant first. */
  function FromLimbs(e: seq<Word>): (v: int)
    ensures v >= 0 && (e != [] ==> v >= e[0])
  {
    if e == [] then 0 else e[0] + B64 * FromLimbs(e[1..])
  }

  type Modulus = m: int | m > 2 witness 3

  /** The field prime. Its value plays a part only where PrimeValue is called. */
  const P: Modulus := FromLimbs([P0, PF, PF, PF])

  lemma PrimeValue()
    ensures P == 0xFFFFFFFFFFFFFFFF_FFFFFFFFFFFFFFFF_FFFFFFFFFFFFFFFF_FFFFFFFEFFFFFC2F
  {
    var e := [P0, PF, PF, PF];
    assert e[1..] == [PF, PF, PF];
    assert e[1..][1..] == [PF, PF];
    assert e[1..][1..][1..] == [PF];
    assert e[1..][1..][1..][1..] == [];
    assert FromLimbs([]) == 0;
    assert FromLimbs([PF]) == PF;
    assert FromLimbs([PF, PF]) == PF + B64 * PF;
    assert FromLimbs([PF, PF, PF]) == PF + B64 * (PF + B64 * PF);
  }

  /** The number that four limbs denote. */
  ghost function Val4(n0: int, n1: int, n2: int, n3: int): int {
    n0 + n1 * B64 + n2 * B128 + n3 * B192
  }

  ghost function Val(a: array<Word>): int
    requires a.Length == 4
    reads a
  {
    Val4(a[0], a[1], a[2], a[3])
  }

  // ---- the field operations on numbers ----

  ghost function FAdd(a: int, b: int): int { (a + b) % P }
  ghost function FSub(a: int, b: int): int { (a - b) % P }
  ghost function FMul(a: int, b: int): int { (a * b) % P }

  ghost predicate InRange(a: int) { 0 <= a < P }

  lemma OpsInRange(a: int, b: int)
    ensures InRange(FAdd(a, b)) && InRange(FSub(a, b)) && InRange(FMul(a, b))
  {
  }

  lemma ValBound(a: array<Word>)
    requires a.Length == 4
    ensures 0 <= Val(a) < B256
  {
  }

  // ---- the four-line carry and borrow chains ----

  lemma AddChain(a0: int, a1: int, a2: int, a3: int, b0: int, b1: int, b2: int, b3: int,
                 r0: int, r1: int, r2: int, r3: int, c1: int, c2: int, c3: int, c4: int)
    requires r0 + c1 * B64 == a0 + b0
    requires r1 + c2 * B64 == a1 + b1 + c1
    requires r2 + c3 * B64 == a2 + b2 + c2
    requires r3 + c4 * B64 == a3 + b3 + c3
    ensures Val4(r0, r1, r2, r3) + c4 * B256 == Val4(a0, a1, a2, a3) + Val4(b0, b1, b2, b3)
  {
  }

  /** r := a + b over four limbs; returns the carry out of bit 256. */
  method AddLimbs(r: array<Word>, a: array<Word>, b: array<Word>) returns (c: Word)
    requires r.Length == 4 && a.Length == 4 && b.Length == 4
    modifies r
    ensures c <= 1 && Val(r) + c * B256 == old(Val(a)) + old(Val(b))
  {
    ghost var a0, a1, a2, a3, b0, b1, b2, b3 := a[0], a[1], a[2], a[3], b[0], b[1], b[2], b[3];
    ghost var k1, k2, k3;
    c := 0;
    r[0], c := Addc(a[0], b[0], c); k1 := c;
    r[1], c := Addc(a[1], b[1], c); k2 := c;
    r[2], c := Addc(a[2], b[2], c); k3 := c;
    r[3], c := Addc(a[3], b[3], c);
    AddChain(a0, a1, a2, a3, b0, b1, b2, b3, r[0], r[1], r[2], r[3], k1, k2, k3, c);
  }

  /** r := r + add + addHi * 2^64, the chain that folds one or two words into an element. */
  method AddWords(r: array<Word>, add: Word, addHi: Word) returns (c: Word)
    requires r.Length == 4
    modifies r
    ensures c <= 1 && Val(r) + c * B256 == old(Val(r)) + add + addHi * B64
  {
    ghost var r0, r1, r2, r3 := r[0], r[1], r[2], r[3];
    ghost var k1, k2, k3;
    c := 0;
    r[0], c := Addc(r[0], add, c); k1 := c;
    r[1], c := Addc(r[1], addHi, c); k2 := c;
    r[2], c := Addc(r[2], 0, c); k3 := c;
    r[3], c := Addc(r[3], 0, c);
    AddChain(r0, r1, r2, r3, add, addHi, 0, 0, r[0], r[1], r[2], r[3], k1, k2, k3, c);
  }

  lemma SubChain(a0: int, a1: int, a2: int, a3: int, b0: int, b1: int, b2: int, b3: int,
                 r0: int, r1: int, r2: int, r3: int, c1: int, c2: int, c3: int, c4: int)
    requires r0 - c1 * B64 == a0 - b0
    requires r1 - c2 * B64 == a1 - b1 - c1
    requires r2 - c3 * B64 == a2 - b2 - c2
    requires r3 - c4 * B64 == a3 - b3 - c3
    ensures Val4(r0, r1, r2, r3) - c4 * B256 == Val4(a0, a1, a2, a3) - Val4(b0, b1, b2, b3)
  {
  }

  /** r := a - b over four limbs; returns the borrow out of bit 256. */
  method SubLimbs(r: array<Word>, a: array<Word>, b: array<Word>) returns (br: Word)
    requires r.Length == 4 && a.Length == 4 && b.Length == 4
    modifies r
    ensures br <= 1 && Val(r) - br * B256 == old(Val(a)) - old(Val(b))
  {
    ghost var a0, a1, a2, a3, b0, b1, b2, b3 := a[0], a[1], a[2], a[3], b[0], b[1], b[2], b[3];
    ghost var k1, k2, k3;
    br := 0;
    r[0], br := Subb(a[0], b[0], br); k1 := br;
    r[1], br := Subb(a[1], b[1], br); k2 := br;
    r[2], br := Subb(a[2], b[2], br); k3 := br;
    r[3], br := Subb(a[3], b[3], br);
    SubChain(a0, a1, a2, a3, b0, b1, b2, b3, r[0], r[1], r[2], r[3], k1, k2, k3, br);
  }

  /** r := r - (n0 + n1 2^64 + n1 2^128 + n1 2^192), the chain that takes a constant away. */
  method SubConst(r: array<Word>, n0: Word, n1: Word) returns (br: Word)
    requires r.Length == 4
    modifies r
    ensures br <= 1 && Val(r) - br * B256 == old(Val(r)) - Val4(n0, n1, n1, n1)
  {
    ghost var r0, r1, r2, r3 := r[0], r[1], r[2], r[3];
    ghost var k1, k2, k3;
    br := 0;
    r[0], br := Subb(r[0], n0, br); k1 := br;
    r[1], br := Subb(r[1], n1, br); k2 := br;
    r[2], br := Subb(r[2], n1, br); k3 := br;
    r[3], br := Subb(r[3], n1, br);
    SubChain(r0, r1, r2, r3, n0, n1, n1, n1, r[0], r[1], r[2], r[3], k1, k2, k3, br);
  }

  lemma Constants()
    ensures Val4(P0, PF, PF, PF) == P && Val4(C, 0, 0, 0) == C && P + C == B256
  {
    PrimeValue();
  }

  // ---- zero, one, copy, comparison ----

  method FeIsZero(a: array<Word>) returns (b: bool)
    requires a.Length == 4
    ensures b <==> Val(a) == 0
  {
    b := a[0] == 0 && a[1] == 0 && a[2] == 0 && a[3] == 0;
  }

  method FeSetZero(a: array<Word>)
    requires a.Length == 4
    modifies a
    ensures Val(a) == 0
  {
    a[0], a[1], a[2], a[3] := 0, 0, 0, 0;
  }

  method FeSetOne(a: array<Word>)
    requires a.Length == 4
    modifies a
    ensures Val(a) == 1
  {
    a[0], a[1], a[2], a[3] := 1, 0, 0, 0;
  }

  method FeCopy(r: array<Word>, a: array<Word>)
    requires r.Length == 4 && a.Length == 4
    modifies r
    ensures Val(r) == old(Val(a))
  {
    r[0], r[1], r[2], r[3] := a[0], a[1], a[2], a[3];
  }

  method FeGeP(a: array<Word>) returns (b: bool)
    requires a.Length == 4
    ensures b <==> Val(a) >= P
  {
    PrimeValue();
    if a[3] != PF { return a[3] > PF; }
    if a[2] != PF { return a[2] > PF; }
    if a[1] != PF { return a[1] > PF; }
    return a[0] >= P0;
  }

  // ---- conditional subtraction and carry folding ----

  /** The subtraction loop runs at most once, because 2^256 < 2p. */
  method FeCondSubP(r: array<Word>) returns (ghost rounds: nat)
    requires r.Length == 4
    modifies r
    ensures Val(r) == if old(Val(r)) < P then old(Val(r)) else old(Val(r)) - P
    ensures 0 <= Val(r) < P
    ensures rounds == if old(Val(r)) < P then 0 else 1
  {
    hide Val, Val4;
    ghost var v := Val(r);
    rounds := 0;
    ValBound(r);
    Constants();
    var ge := FeGeP(r);
    while ge
      invariant ge <==> Val(r) >= P
      invariant rounds == 0 ==> Val(r) == v
      invariant rounds == 1 ==> Val(r) == v - P && !ge
      invariant 0 <= rounds <= 1 && 0 <= Val(r)
      decreases 1 - rounds
    {
      var br := SubConst(r, P0, PF);
      ValBound(r);
      ge := FeGeP(r);
      rounds := rounds + 1;
    }
  }

  /** What one round adds for a carry: carry * C in 64 bits. */
  function Folded(carry: Word): Word { (carry * C) % B64 }

  lemma FoldedBit(carry: Word)
    requires carry <= 1
    ensures Folded(carry) == carry * C
  {
  }

  lemma FoldStep(v: int, f: Word, w: int, c: int)
    requires 0 <= v < B256 && 0 <= c <= 1 && 0 <= w < B256
    requires w + c * B256 == v + f
    ensures c == 1 ==> w < B64
    ensures v < B64 && f <= C ==> c == 0
  {
  }

  /** Adds the folded carry. A second round runs only when the first one carries, and a third never
      does. */
  method FoldCarry(r: array<Word>, carry0: Word) returns (ghost folds: nat)
    requires r.Length == 4
    modifies r
    ensures var sum := old(Val(r)) + Folded(carry0);
      && Val(r) == (if sum < B256 then sum else sum - P)
      && folds == if carry0 == 0 then 0 else if sum < B256 then 1 else 2
  {
    hide Val, Val4, Folded;
    PrimeValue();
    var carry := carry0;
    ghost var sum := Val(r) + Folded(carry0);
    folds := 0;
    ValBound(r);
    FoldedBit(0); FoldedBit(1);
    while carry != 0
      invariant 0 <= folds <= 2 && 0 <= Val(r) < B256
      invariant folds == 0 ==> carry == carry0 && Val(r) + Folded(carry) == sum
      invariant folds > 0 ==> carry0 != 0 && carry <= 1
      invariant folds == 1 ==> Val(r) + carry * B256 == sum && (carry == 1 ==> Val(r) < B64)
      invariant folds == 2 ==> carry == 0 && sum >= B256 && Val(r) == sum - P
      decreases 2 - folds
    {
      ghost var before := Val(r);
      var add := Folded(carry);
      var c := AddWords(r, add, 0);
      ValBound(r);
      FoldStep(before, add, Val(r), c);
      carry := c;
      folds := folds + 1;
    }
  }

  /** The fold stands for carry * 2^256 modulo p exactly when carry * C fits 64 bits. */
  lemma FoldIsRight(v: int, carry: Word, result: int)
    requires var sum := v + Folded(carry); result == if sum < B256 then sum else sum - P
    ensures (v + carry * B256 - result) % P == 0 <==> carry * C < B64
  {
    PrimeValue();
    ModSplit(carry * C, B64);
    var k, q := carry * C / B64, if v + Folded(carry) < B256 then carry else carry + 1;
    ModUnique(v + carry * B256 - result, P, q, k * B64);
  }

  // ---- addition and subtraction ----

  lemma AddReduced(s: int, x: int, c: int, f: int, r: int)
    requires 0 <= c <= 1
    requires x + c * B256 == s
    requires f == x + c * C || f == x + c * C - P
    requires r == (if f < P then f else f - P) && 0 <= r < P
    ensures r == s % P
  {
    PrimeValue();
    if c == 0 {
    } else {
    }
  }

  /** a + b mod p, canonical for every pair of 256-bit inputs. */
  method FeAdd(r: array<Word>, a: array<Word>, b: array<Word>)
    requires r.Length == 4 && a.Length == 4 && b.Length == 4
    modifies r
    ensures Val(r) == FAdd(old(Val(a)), old(Val(b))) && InRange(Val(r))
  {
    hide Val, Val4, Folded;
    var c := AddLimbs(r, a, b);
    ghost var x := Val(r);
    FoldedBit(c);
    ghost var folds := FoldCarry(r, c);
    ghost var f := Val(r);
    ghost var rounds := FeCondSubP(r);
    AddReduced(old(Val(a)) + old(Val(b)), x, c, f, Val(r));
  }

  /** What the borrow path of FeSub makes of d = a - b. */
  ghost function SubResult(d: int): int {
    if d >= 0 then d else if d + P >= 0 then d + P else d + P + B256
  }

  /** The borrow path gives the canonical difference exactly when d is within one p of zero. */
  lemma SubCanonical(d: int)
    requires d < B256 && 0 < d + B256
    ensures SubResult(d) == d % P <==> d < P && 0 <= d + P
  {
    PrimeValue();
    if d >= P {
    } else if d + P < 0 {
      assert SubResult(d) > P;
    }
  }

  /** With canonical operands the single add-back of p never borrows again and the result is
      a - b mod p; the first clause also says what comes out in every other case. */
  method FeSub(r: array<Word>, a: array<Word>, b: array<Word>)
    requires r.Length == 4 && a.Length == 4 && b.Length == 4
    modifies r
    ensures Val(r) == SubResult(old(Val(a)) - old(Val(b)))
    ensures old(InRange(Val(a)) && InRange(Val(b))) ==> Val(r) == FSub(old(Val(a)), old(Val(b))) && InRange(Val(r))
  {
    hide Val, Val4;
    ghost var d := Val(a) - Val(b);
    ValBound(a); ValBound(b);
    if Val(a) < P && Val(b) < P { SubCanonical(d); }
    var br := SubLimbs(r, a, b);
    ValBound(r);
    if br != 0 {
      Constants();
      var b2 := SubConst(r, C, 0);
      ValBound(r);
    }
  }
}

/** The host's precompute: point decompression by a modular square root, and the linear form of ECDSA
    public-key recovery (SEC 1 version 2, sections 2.3.4 and 4.1.6). */
module HostPrecompute {
  import opened NumberTheory
  import opened Field
  import opened Curve
  import opened Group
  import opened Order
  import opened Wire
  import opened Comb
  import opened CombHost

  datatype Error = OutOfField | NotACoordinate | BadSighash | OutOfGroup | NotInvertible

  datatype Result<T> = Ok(value: T) | Err(error: Error)

  // ---- square roots modulo p = 3 mod 4 ----

  ghost predicate IsSquare(a: int) { exists s :: Cong(s * s, a, P) }

  const ROOT_EXPONENT: nat := (P + 1) / 4

  lemma RootExponent()
    ensures 4 * ROOT_EXPONENT == P + 1 && P % 2 == 1
  {
    PrimeValue();
  }

  lemma PrimeSize(p: int)
    requires Prime(p)
    ensures p >= 2
  {
  }

  lemma PowTwo(s: int)
    ensures Pow(s, 2) == s * s
  {
    assert Pow(s, 1) == s * Pow(s, 0);
  }

  lemma SquareFixed(s: int, p: int)
    requires Prime(p)
    ensures Cong(Pow(s, p + 1), s * s, p)
  {
    hide Pow, Prime;
    PrimeSize(p);
    PowTwo(s);
    if s % p == 0 {
      CongPow(s, 0, p + 1, p) by { ModUnique(0, p, 0, 0); }
      PowZero(p + 1);
      CongScale(s, 0, s, p) by { ModUnique(0, p, 0, 0); }
    } else {
      PowAdd(s, p - 1, 2);
      Fermat(s, p);
      CongScale(Pow(s, p - 1), 1, s * s, p);
    }
  }

  /** If a is a square modulo a prime p = 4e - 1 then a^e is one of its roots. */
  lemma RootOfSquare(s: int, a: int, p: int, e: nat)
    requires Prime(p) && 4 * e == p + 1 && Cong(s * s, a, p)
    ensures var y := Pow(a, e) % p; Cong(y * y, a, p)
  {
    hide Pow, Prime, Cong;
    PrimeSize(p);
    var y, h := Pow(a, e) % p, Pow(s, 2 * e);
    CongMod(Pow(a, e), p);
    CongPow(s * s, a, e, p);
    PowSquare(s, e);
    CongSym(h, Pow(a, e), p);
    CongTrans(y, Pow(a, e), h, p);
    CongMul(y, h, y, h, p);
    PowAdd(s, 2 * e, 2 * e);
    SquareFixed(s, p);
    CongTrans(y * y, h * h, s * s, p);
    CongTrans(y * y, s * s, a, p);
  }

  lemma SameParity(y: int, w: int)
    requires InRange(y) && InRange(w) && y % 2 == w % 2 && ((y - w) % P == 0 || (y + w) % P == 0)
    ensures y == w
  {
    PrimeValue();
  }

  /** Two roots of one number in [0, p) with the same parity are equal. */
  lemma EvenRootUnique(y: int, w: int, a: int)
    requires Prime(P) && InRange(y) && InRange(w) && y % 2 == w % 2
    requires Cong(y * y, a, P) && Cong(w * w, a, P)
    ensures y == w
  {
    hide Prime, Cong;
    CongSym(w * w, a, P);
    CongTrans(y * y, a, w * w, P);
    CongDiff(y * y, w * w, P);
    assert y * y - w * w == (y - w) * (y + w);
    Euclid(y - w, y + w, P);
    SameParity(y, w);
  }

  lemma NegatedSquare(y: int, m: int)
    ensures (m - y) * (m - y) == y * y + (m - 2 * y) * m
  {
  }

  // ---- point decompression ----

  /** The x coordinate that r and the recovery id select. */
  function RecoveredX(r: int, recid: int): int { if recid >= 2 then r + N else r }

  /** x is a field element and x^3 + 7 is a square. */
  ghost predicate Decompressible(x: int) { 0 < x < P && IsSquare(x * x * x + 7) }

  /** y squared is x^3 + 7. */
  ghost predicate IsRoot(x: int, y: int) { Cong(y * y, x * x * x + 7, P) }

  /** y is a root of x^3 + 7 with the given parity. */
  ghost predicate RootWithParity(x: int, y: int, odd: int) {
    0 <= y <= P && y % 2 == odd && IsRoot(x, y)
  }

  lemma NegatedIsRoot(x: int, y: int)
    requires IsRoot(x, y)
    ensures IsRoot(x, P - y)
  {
    NegatedSquare(y, P);
    ModMultiple(y * y, P - 2 * y, P);
  }

  lemma ParityFixed(x: int, y: int, odd: int)
    requires InRange(y) && 0 <= odd <= 1 && IsRoot(x, y)
    ensures RootWithParity(x, if y % 2 == odd then y else P - y, odd)
    ensures odd == 0 ==> InRange(if y % 2 == odd then y else P - y)
  {
    hide IsRoot;
    RootExponent();
    NegatedIsRoot(x, y);
  }

  /** a^((p+1)/4) and the check that it is a root: it passes exactly for squares. */
  method RootOf(x: int) returns (y: int, ok: bool)
    requires Prime(P)
    ensures ok <==> IsSquare(x * x * x + 7)
    ensures InRange(y) && (ok ==> IsRoot(x, y))
  {
    hide Pow, Prime, Cong, IsSquare;
    var y2 := Pow(x, 3) % P;
    y2 := y2 + 7;
    y2 := y2 % P;
    var exp := (P + 1) / 4;
    y := Pow(y2, exp) % P;
    var chk := y * y;
    chk := chk % P;
    RightHandSide(x, y2);
    SquareIffRoot(x, y2, y);
    ok := chk == y2;
  }

  /** Succeeds exactly when the selected x is the coordinate of a curve point; the y that comes back is
      a root with the parity of recid, and for even recid the only one. (An odd request for the root 0
      would give p itself; no point of the curve has y = 0.) */
  method RecoverRPoint(r: int, recid: int) returns (res: Result<Coords>)
    requires Prime(P)
    ensures res.Ok? <==> Decompressible(RecoveredX(r, recid))
    ensures res.Err? ==> res.error == if 0 < RecoveredX(r, recid) < P then NotACoordinate else OutOfField
    ensures res.Ok? ==> res.value.Xy? && res.value.x == RecoveredX(r, recid)
    ensures res.Ok? ==> RootWithParity(res.value.x, res.value.y, recid % 2)
    ensures res.Ok? && recid % 2 == 0 ==> InRange(res.value.y)
    ensures res.Ok? && recid % 2 == 0 ==> forall w :: w < P && RootWithParity(res.value.x, w, 0) ==> w == res.value.y
  {
    hide Prime, IsRoot, IsSquare, RootWithParity;
    var x := r;
    if recid >= 2 { x := x + N; }
    if x <= 0 || x >= P { return Err(OutOfField); }
    var y, ok := RootOf(x);
    if !ok { return Err(NotACoordinate); }
    ParityFixed(x, y, recid % 2);
    if (y % 2 == 1) != (recid % 2 == 1) {
      y := P - y;
    }
    if recid % 2 == 0 { OnlyEvenRoot(x, y); }
    res := Ok(Xy(x, y));
  }

  lemma RightHandSide(x: int, y2: int)
    requires y2 == (Pow(x, 3) % P + 7) % P
    ensures y2 == (x * x * x + 7) % P && Cong(y2, x * x * x + 7, P)
  {
    hide Cong;
    assert Pow(x, 3) == x * Pow(x, 2);
    PowTwo(x);
    assert x * (x * x) == x * x * x;
    InField(Pow(x, 3));
    CongSame(7, P);
    CongAdd(Pow(x, 3) % P, x * x * x, 7, 7, P);
    SameResidue(Pow(x, 3) % P + 7, x * x * x + 7, P);
    InField(x * x * x + 7);
  }

  /** The root check passes exactly for squares. */
  lemma SquareIffRoot(x: int, y2: int, y: int)
    requires Prime(P) && InRange(y2) && Cong(y2, x * x * x + 7, P) && y == Pow(y2, ROOT_EXPONENT) % P
    ensures (y * y) % P == y2 <==> IsSquare(x * x * x + 7)
    ensures (y * y) % P == y2 ==> Cong(y * y, x * x * x + 7, P)
  {
    hide Pow, Prime, Cong;
    var a := x * x * x + 7;
    InField(y * y);
    CongSym((y * y) % P, y * y, P);
    if (y * y) % P == y2 {
      CongTrans(y * y, y2, a, P);
    } else if IsSquare(a) {
      var s :| Cong(s * s, a, P);
      CongSym(y2, a, P);
      CongTrans(s * s, a, y2, P);
      RootExponent();
      RootOfSquare(s, y2, P, ROOT_EXPONENT);
      CongTrans((y * y) % P, y * y, y2, P);
      SmallEqual((y * y) % P, y2);
    }
  }

  lemma OnlyEvenRoot(x: int, y: int)
    requires Prime(P) && InRange(y) && RootWithParity(x, y, 0)
    ensures forall w :: w < P && RootWithParity(x, w, 0) ==> w == y
  {
    hide Prime, Cong;
    forall w | w < P && RootWithParity(x, w, 0)
      ensures w == y
    {
      EvenRootUnique(y, w, x * x * x + 7);
    }
  }

  // ---- recovery is linear in s ----

  /** The public key of SEC 1 version 2, section 4.1.6: r^-1 (s R - z G). */
  ghost function Recovered(R: Point, G: Point, r: int, s: nat, z: nat): Point {
    Times(ScalarInverse(r, N), Add(Times(s, R), Neg(Times(z, G))))
  }

  /** A scalar reduced modulo n. */
  function Scalar(x: int): (u: nat)
    ensures u < N
  {
    x % N
  }

  /** Minus a multiple is the multiple by the negated scalar modulo n. */
  lemma NegatedScalar(m: nat, A: Point)
    requires Secp256k1() && OnCurve(A)
    ensures Neg(Times(m, A)) == Times(Scalar(0 - m), A)
  {
    hide Times, OnCurve, Add, Neg, Associative, KilledBy, Prime;
    var c := Scalar(0 - m);
    TimesCloses(m, A); TimesCloses(c, A);
    TimesAdd(m, c, A);
    NegatedSum(m);
    TimesModOf(N, m + c, A);
    TimesZero(A);
    NegUnique(Times(m, A), Times(c, A));
  }

  lemma NegatedSum(m: int)
    ensures (m + Scalar(0 - m)) % N == 0
  {
    hide Cong;
    CongMod(0 - m, N);
    CongSame(m, N);
    CongAdd(m, m, Scalar(0 - m), 0 - m, N);
    ZeroIffCong(m + Scalar(0 - m), N);
  }

  /** The two scalars of section 4.1.6 distribute over the difference. */
  lemma RecoveredSplits(R: Point, G: Point, r: int, s: nat, z: nat)
    requires Secp256k1() && OnCurve(R) && OnCurve(G)
    ensures var j := ScalarInverse(r, N); 0 <= j * s && 0 <= j * z
    ensures var j := ScalarInverse(r, N);
      Recovered(R, G, r, s, z) == Add(Times(Scalar(0 - j * z), G), Times(Scalar(j * s), R))
  {
    hide Times, OnCurve, Add, Neg, Associative, KilledBy, Prime;
    var j := ScalarInverse(r, N);
    TimesCloses(s, R); TimesCloses(z, G);
    NegOnCurve(Times(z, G));
    TimesSum(j, Times(s, R), Neg(Times(z, G)));
    TimesTimes(j, s, R); TimesModOf(N, j * s, R);
    TimesNeg(j, Times(z, G)); TimesTimes(j, z, G);
    NegatedScalar(j * z, G);
    TimesCloses(Scalar(j * s), R); TimesCloses(Scalar(0 - j * z), G);
    Commutes(Times(Scalar(j * s), R), Times(Scalar(0 - j * z), G));
  }

  /** Q_base + k D is the recovered key for s = sBase + k, although both scalars of Q_base were
      reduced modulo n first. */
  lemma RecoveryIsLinear(R: Point, G: Point, r: int, sBase: int, z: nat, k: nat)
    requires Secp256k1() && OnCurve(R) && OnCurve(G) && sBase + k >= 0
    ensures var j := ScalarInverse(r, N);
      Add(Add(Times(Scalar(0 - z * j), G), Times(Scalar(sBase * j), R)), Times(k, Times(j, R)))
        == Recovered(R, G, r, sBase + k, z)
  {
    hide Times, OnCurve, Add, Neg, Associative, KilledBy, Prime, Recovered;
    var j, s := ScalarInverse(r, N), sBase + k;
    var u1, u2 := Scalar(0 - z * j), Scalar(sBase * j);
    RecoveredSplits(R, G, r, s, z);
    assert z * j == j * z;
    TimesCloses(u1, G); TimesCloses(u2, R);
    TimesTimes(k, j, R); TimesCloses(k * j, R);
    Regroup(Times(u1, G), Times(u2, R), Times(k * j, R));
    TimesAdd(u2, k * j, R);
    TimesModOf(N, u2 + k * j, R);
    ScalarsAdd(sBase, k, j);
  }

  lemma ScalarsAdd(a: int, b: int, j: int)
    ensures (Scalar(a * j) + b * j) % N == (j * (a + b)) % N
  {
    hide Cong;
    CongMod(a * j, N);
    CongSame(b * j, N);
    CongAdd(Scalar(a * j), a * j, b * j, b * j, N);
    assert a * j + b * j == j * (a + b);
    SameResidue(Scalar(a * j) + b * j, j * (a + b), N);
  }

  // ---- the run constants ----

  /** Everything derived once from the fixed sighash, r and base s. */
  class Precompute {
    const sBase: int
    const r: int
    const qBase: Coords
    const d: Coords
    const qBaseBytes: array<Byte>
    const dTable: array<Byte>

    constructor (sBase: int, r: int, qBase: Coords, d: Coords, qBaseBytes: array<Byte>, dTable: array<Byte>)
      ensures this.sBase == sBase && this.r == r && this.qBase == qBase && this.d == d
      ensures this.qBaseBytes == qBaseBytes && this.dTable == dTable
    {
      this.sBase, this.r, this.qBase, this.d := sBase, r, qBase, d;
      this.qBaseBytes, this.dTable := qBaseBytes, dTable;
    }

    /** The struct stands for the points Q_base and D. */
    ghost predicate Represents(Q: Point, D: Point)
      reads qBaseBytes, dTable
    {
      && OnCurve(Q) && OnCurve(D) && D.Affine? && qBase == FromPoint(Q) && d == FromPoint(D)
      && qBaseBytes.Length == 64 && CombTable(dTable[..], D)
      && PointAt(qBaseBytes[..], 0) == Affine(qBase.x, qBase.y)
    }
  }

  /** ModInverse: the inverse modulo the prime n, or nothing for multiples of n. */
  function ModInverse(r: int): (j: Result<int>)
  {
    if r % N == 0 then Err(NotInvertible) else Ok(ScalarInverse(r, N))
  }

  /** Q_base, D and the relation between a candidate's key and the recovery formula. */
  ghost predicate LinearRecovery(Q: Point, D: Point, R: Point, G: Point, r: int, sBase: int, z: nat) {
    forall k: nat :: sBase + k >= 0 ==> Add(Q, Times(k, D)) == Recovered(R, G, r, sBase + k, z)
  }

  lemma LinearFor(R: Point, G: Point, r: int, sBase: int, z: nat)
    requires Secp256k1() && OnCurve(R) && OnCurve(G)
    ensures var j := ScalarInverse(r, N);
      LinearRecovery(Add(Times(Scalar(0 - z * j), G), Times(Scalar(sBase * j), R)), Times(j, R), R, G, r, sBase, z)
  {
    hide Times, OnCurve, Add, Neg, Associative, KilledBy, Prime, Recovered, Scalar, ScalarInverse;
    var j := ScalarInverse(r, N);
    var Q, D := Add(Times(Scalar(0 - z * j), G), Times(Scalar(sBase * j), R)), Times(j, R);
    forall k: nat | sBase + k >= 0
      ensures Add(Q, Times(k, D)) == Recovered(R, G, r, sBase + k, z)
    {
      RecoveryIsLinear(R, G, r, sBase, z, k);
    }
  }

  lemma InvertibleScalar(r: int)
    requires Secp256k1() && 0 < r < N
    ensures r % N != 0 && ScalarInverse(r, N) % N != 0
  {
    hide Prime, Pow, ScalarInverse;
    ModUnique(r, N, 0, r);
    ScalarInverseProperty(r, N);
    var j := ScalarInverse(r, N);
    if j % N == 0 {
      ModUnique(j, N, 0, j);
      assert j * r == 0 * r;
      NotOne();
    }
  }

  lemma NotOne()
    ensures !Cong(0, 1, N)
  {
  }

  lemma EvenPointOnCurve(r: int, y: int)
    requires 0 < r < P && InRange(y) && RootWithParity(r, y, 0)
    ensures OnCurve(Affine(r, y))
  {
    hide Cong;
  }

  lemma {:induction false} FromBigSign(b: seq<Byte>)
    ensures FromBig(b) >= 0
  {
    if b != [] { FromBigSign(b[..|b| - 1]); }
  }

  /** Fails exactly on the inputs that the source rejects. On success the struct stands for Q_base and
      D, and Q_base + k D is the key that section 4.1.6 recovers for s = sBase + k, for every such s;
      R is the curve point with x = r and even y. */
  method NewPrecompute(sighash: seq<Byte>, r: int, sBase: int, G: Point)
    returns (res: Result<Precompute>, ghost Q: Point, ghost D: Point, ghost R: Point)
    requires Secp256k1() && OnCurve(G)
    ensures res.Ok? <==> |sighash| == 32 && 0 < r < N && Decompressible(r)
    ensures res.Err? ==> res.error == if |sighash| != 32 then BadSighash
                                      else if !(0 < r < N) then OutOfGroup else NotACoordinate
    ensures res.Ok? ==> res.value.sBase == sBase && res.value.r == r && res.value.Represents(Q, D)
    ensures res.Ok? ==> R.Affine? && R.x == r && R.y % 2 == 0 && OnCurve(R) && D == Times(ScalarInverse(r, N), R)
    ensures res.Ok? ==> FromBig(sighash) >= 0 && LinearRecovery(Q, D, R, G, r, sBase, FromBig(sighash))
  {
    hide Times, OnCurve, Add, Neg, Associative, KilledBy, Prime, Recovered, Scalar, ScalarInverse, FromBig, PointAt,
         CombTable, IsSquare, Cong, LinearRecovery;
    OrderBelowPrime();
    Q, D, R := Infinity, Infinity, Infinity;
    if |sighash| != 32 { return Err(BadSighash), Q, D, R; }
    if r <= 0 || r >= N { return Err(OutOfGroup), Q, D, R; }
    var point := RecoverRPoint(r, 0);
    if point.Err? { return Err(point.error), Q, D, R; }
    var rxy := point.value;
    R := Affine(rxy.x, rxy.y);
    EvenPointOnCurve(r, rxy.y);
    InvertibleScalar(r);
    var inverse := ModInverse(r); // never nil: n is prime and 0 < r < n
    var rInv := inverse.value;
    var z := FromBig(sighash);
    FromBigSign(sighash);
    var u1 := Scalar(0 - z * rInv);
    var u2 := Scalar(sBase * rInv);
    PairOf(R); PairOf(G);
    D := Times(rInv, R);
    Q := Add(Times(u1, G), Times(u2, R));
    QAndD(R, G, rInv, u1, u2);
    LinearFor(R, G, r, sBase, z);
    var p0 := ScalarMult(FromPoint(G), u1);
    var p1 := ScalarMult(rxy, u2);
    var q := CurveAdd(p0, p1);
    var d := ScalarMult(rxy, rInv);
    PairOf(Q); PairOf(D); PairOf(Times(u1, G)); PairOf(Times(u2, R));
    var qBytes := new Byte[64](_ => 0);
    WriteEntry(qBytes, 0, q);
    var table := BuildDTable(d, D);
    var p := new Precompute(sBase, r, q, d, qBytes, table);
    res := Ok(p);
  }

  lemma QAndD(R: Point, G: Point, j: nat, u1: nat, u2: nat)
    requires Secp256k1() && OnCurve(R) && OnCurve(G) && R.Affine? && j % N != 0
    ensures OnCurve(Times(u1, G)) && OnCurve(Times(u2, R)) && OnCurve(Add(Times(u1, G), Times(u2, R)))
    ensures Times(j, R).Affine? && OnCurve(Times(j, R))
  {
    hide Times, OnCurve, Add, Associative, KilledBy, Prime;
    TimesCloses(u1, G); TimesCloses(u2, R); TimesCloses(j, R);
    AddCloses(Times(u1, G), Times(u2, R));
    TimesIsInfinity(N, j, R);
  }
}

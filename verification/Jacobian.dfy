/** Jacobian points: doubling, mixed addition and conversion refine the affine group law. */
module Jacobian {
  import opened NumberTheory
  import opened Words
  import opened Field
  import opened FieldMul
  import opened FieldInverse
  import opened Curve
  import opened JacobianAlgebra

  /** The affine point of a triple; Z == 0 is the point at infinity. */
  ghost function JacPoint(X: int, Y: int, Z: int): Point {
    if Z == 0 then Infinity
    else
      var i := Inverse(Z);
      var ii := FMul(i, i);
      Affine(FMul(X, ii), FMul(Y, FMul(ii, i)))
  }

  // ---- triples and points ----

  lemma FMulCong(a: int, b: int)
    ensures Cong(FMul(a, b), a * b, P)
  {
    CongMod(a * b, P);
  }

  lemma FAddCong(a: int, b: int)
    ensures Cong(FAdd(a, b), a + b, P)
  {
    CongMod(a + b, P);
  }

  lemma FSubCong(a: int, b: int)
    ensures Cong(FSub(a, b), a - b, P)
  {
    CongMod(a - b, P);
  }

  lemma NonzeroInRange(Z: int)
    requires InRange(Z) && Z != 0
    ensures Z % P != 0
  {
    ModUnique(Z, P, 0, Z);
  }

  lemma InverseSquare(Z: int, i: int, ii: int, m: int)
    requires m > 0 && Cong(Z * i, 1, m) && Cong(ii, i * i, m)
    ensures Cong((Z * Z) * ii, 1, m)
  {
    hide Cong;
    CongMul(Z * i, 1, Z * i, 1, m);
    MulSwap(Z, i, Z, i);
    CongSame(Z * Z, m);
    CongMul(Z * Z, Z * Z, ii, i * i, m);
    CongTrans((Z * Z) * ii, (Z * Z) * (i * i), 1, m);
  }

  lemma InverseCube(Z: int, i: int, ii: int, iii: int, m: int)
    requires m > 0 && Cong(Z * i, 1, m) && Cong((Z * Z) * ii, 1, m) && Cong(iii, ii * i, m)
    ensures Cong((Z * (Z * Z)) * iii, 1, m)
  {
    hide Cong;
    CongSame(Z * (Z * Z), m);
    CongMul(Z * (Z * Z), Z * (Z * Z), iii, ii * i, m);
    CongMul((Z * Z) * ii, 1, Z * i, 1, m);
    MulSwap(Z * Z, ii, Z, i);
    assert (Z * Z) * Z == Z * (Z * Z);
    CongTrans((Z * (Z * Z)) * iii, (Z * (Z * Z)) * (ii * i), 1, m);
  }

  /** x times a times its inverse is x again. */
  lemma UndoScale(v: int, x: int, a: int, b: int)
    requires Cong(v, x * a, P) && Cong(a * b, 1, P)
    ensures Cong(FMul(v, b), x, P)
  {
    hide Cong, FMul;
    FMulCong(v, b);
    CongScale(v, x * a, b, P);
    CongTrans(FMul(v, b), v * b, (x * a) * b, P);
    CongSame(x, P);
    CongMul(x, x, a * b, 1, P);
    Assoc(x, a, b);
    CongTrans(FMul(v, b), (x * a) * b, x * 1, P);
  }

  /** A canonical triple stands for exactly one point, the one JacPoint names. */
  lemma StandsForPoint(X: int, Y: int, Z: int, x: int, y: int)
    requires Prime(P) && InRange(Z) && Z != 0 && InRange(x) && InRange(y)
    requires Stands(X, Y, Z, x, y, P)
    ensures JacPoint(X, Y, Z) == Affine(x, y)
  {
    hide Cong, Inverse, FMul, Prime;
    var i := Inverse(Z);
    var ii := FMul(i, i);
    NonzeroInRange(Z);
    InverseProperty(Z);
    FMulCong(i, i); FMulCong(ii, i);
    InverseSquare(Z, i, ii, P);
    InverseCube(Z, i, ii, FMul(ii, i), P);
    UndoScale(X, x, Z * Z, ii);
    UndoScale(Y, y, Z * (Z * Z), FMul(ii, i));
    FMulInRange(X, ii);
    FMulInRange(Y, FMul(ii, i));
    SmallEqual(FMul(X, ii), x);
    SmallEqual(FMul(Y, FMul(ii, i)), y);
  }

  lemma FMulInRange(a: int, b: int)
    ensures InRange(FMul(a, b))
  {
  }

  lemma PointStands(X: int, Y: int, Z: int)
    requires Prime(P) && InRange(Z) && Z != 0
    ensures var A := JacPoint(X, Y, Z); A.Affine? && Stands(X, Y, Z, A.x, A.y, P)
    ensures var A := JacPoint(X, Y, Z); InRange(A.x) && InRange(A.y)
  {
    hide Cong, Inverse, FMul, Prime;
    var i := Inverse(Z);
    var ii := FMul(i, i);
    NonzeroInRange(Z);
    InverseProperty(Z);
    FMulCong(i, i); FMulCong(ii, i);
    InverseSquare(Z, i, ii, P);
    InverseCube(Z, i, ii, FMul(ii, i), P);
    Rescale(X, ii, Z * Z);
    Rescale(Y, FMul(ii, i), Z * (Z * Z));
    FMulInRange(X, ii);
    FMulInRange(Y, FMul(ii, i));
  }

  lemma Rescale(v: int, b: int, a: int)
    requires Cong(a * b, 1, P)
    ensures Cong(v, FMul(v, b) * a, P)
  {
    hide Cong, FMul;
    FMulCong(v, b);
    CongScale(FMul(v, b), v * b, a, P);
    CongSame(v, P);
    CongMul(v, v, a * b, 1, P);
    assert (v * b) * a == v * (a * b);
    CongTrans(FMul(v, b) * a, (v * b) * a, v * 1, P);
    CongSym(FMul(v, b) * a, v, P);
  }

  // ---- mixed addition refines the affine law ----

  /** The two differences vanish exactly when the coordinates agree. */
  lemma DifferencesDecide(X: int, Y: int, Z: int, x2: int, y2: int, ZZ: int, U2: int, T: int, S2: int, H: int, R0: int)
    requires Prime(P) && InRange(Z) && Z != 0 && InRange(x2) && InRange(y2)
    requires ZZ == FMul(Z, Z) && U2 == FMul(x2, ZZ) && T == FMul(y2, Z) && S2 == FMul(T, ZZ)
    requires H == FSub(U2, X) && R0 == FSub(S2, Y)
    ensures var A := JacPoint(X, Y, Z); A.Affine? && (H == 0 <==> A.x == x2) && (R0 == 0 <==> A.y == y2)
  {
    hide Cong, FMul, FSub, JacPoint, Prime;
    PointStands(X, Y, Z);
    var A := JacPoint(X, Y, Z);
    FMulCong(Z, Z); FMulCong(x2, ZZ); FMulCong(y2, Z); FMulCong(T, ZZ);
    FSubCong(U2, X); FSubCong(S2, Y);
    MixedDifferences(P, X, Y, Z, A.x, A.y, x2, y2, ZZ, U2, T, S2, H, R0);
    OpsInRange(U2, X); OpsInRange(S2, Y);
    NonzeroInRange(Z);
    if (Z * Z) % P == 0 { Euclid(Z, Z, P); }
    if (Z * (Z * Z)) % P == 0 { Euclid(Z, Z * Z, P); }
    ScaledDifference(H, A.x, x2, Z * Z);
    ScaledDifference(R0, A.y, y2, Z * (Z * Z));
  }

  lemma ScaledDifference(H: int, a: int, b: int, s: int)
    requires Prime(P) && InRange(H) && InRange(a) && InRange(b) && s % P != 0
    requires Cong(H, (b - a) * s, P)
    ensures H == 0 <==> a == b
  {
    hide Cong, Prime;
    if a == b {
      assert (b - a) * s == 0;
      SmallEqual(H, 0);
    }
    if H == 0 {
      CongSym(H, (b - a) * s, P);
      ZeroIffCong((b - a) * s, P);
      Euclid(b - a, s, P);
      CongDiff(b, a, P);
      SmallEqual(b, a);
    }
  }

  lemma TwiceProductNonzero(Z3: int, a: int, b: int)
    requires Prime(P) && InRange(Z3) && a % P != 0 && b % P != 0
    requires Cong(Z3, 2 * Product(a, b), P)
    ensures Z3 != 0
  {
    hide Cong, Prime;
    if Z3 == 0 {
      CongSym(Z3, 2 * (a * b), P);
      ZeroIffCong(2 * (a * b), P);
      SmallNonzero(2);
      Euclid(2, a * b, P);
      Euclid(a, b, P);
      assert false;
    }
  }

  /** The affine third point is on the line of the given slope. */
  lemma MirrorIsChord(l: int, A: Point, x2: int)
    requires A.Affine?
    ensures var R := Mirror(l, A, (l * l - A.x - x2) % P);
      R.Affine? && Chord(l, A.x, A.y, x2, R.x, R.y, P) && InRange(R.x) && InRange(R.y)
  {
    InField(l * l - A.x - x2);
    InField(l * (A.x - (l * l - A.x - x2) % P) - A.y);
  }

  /** Every field operation of the generic branch, in order, gives a triple for the sum. */
  lemma MixedAddRefines(X: int, Y: int, Z: int, x2: int, y2: int,
                        ZZ: int, U2: int, T: int, S2: int, H: int, R0: int,
                        R: int, HH: int, I0: int, I: int, J: int, V: int,
                        A1: int, A2: int, T0: int, X3: int, T1: int, B1: int, T2: int, N: int, Y3: int,
                        C1: int, C2: int, C3: int, Z3: int)
    requires Prime(P) && InRange(Z) && Z != 0
    requires OnCurve(JacPoint(X, Y, Z)) && OnCurve(Affine(x2, y2))
    requires ZZ == FMul(Z, Z) && U2 == FMul(x2, ZZ) && T == FMul(y2, Z) && S2 == FMul(T, ZZ)
    requires H == FSub(U2, X) && R0 == FSub(S2, Y) && H != 0
    requires R == FAdd(R0, R0) && HH == FMul(H, H) && I0 == FAdd(HH, HH) && I == FAdd(I0, I0)
    requires J == FMul(H, I) && V == FMul(X, I)
    requires A1 == FMul(R, R) && A2 == FSub(A1, J) && T0 == FAdd(V, V) && X3 == FSub(A2, T0)
    requires T1 == FSub(V, X3) && B1 == FMul(R, T1) && T2 == FMul(Y, J) && N == FAdd(T2, T2)
    requires Y3 == FSub(B1, N)
    requires C1 == FAdd(Z, H) && C2 == FMul(C1, C1) && C3 == FSub(C2, ZZ) && Z3 == FSub(C3, HH)
    ensures JacPoint(X3, Y3, Z3) == Add(JacPoint(X, Y, Z), Affine(x2, y2))
  {
    hide Cong, FMul, FSub, FAdd, JacPoint, Prime, Slope, Mirror, Chord, Stands;
    var A, B := JacPoint(X, Y, Z), Affine(x2, y2);
    PointStands(X, Y, Z);
    CurveInRange(B);
    DifferencesDecide(X, Y, Z, x2, y2, ZZ, U2, T, S2, H, R0);
    var l := Slope(A, B);
    ChordSlope(A, B);
    var S := Mirror(l, A, (l * l - A.x - B.x) % P);
    MirrorIsChord(l, A, B.x);
    FMulCong(Z, Z); FMulCong(x2, ZZ); FMulCong(y2, Z); FMulCong(T, ZZ); FSubCong(U2, X); FSubCong(S2, Y);
    FAddCong(R0, R0); FMulCong(H, H); FAddCong(HH, HH); FAddCong(I0, I0); FMulCong(H, I); FMulCong(X, I);
    FMulCong(R, R); FSubCong(A1, J); FAddCong(V, V); FSubCong(A2, T0);
    FSubCong(V, X3); FMulCong(R, T1); FMulCong(Y, J); FAddCong(T2, T2); FSubCong(B1, N);
    FAddCong(Z, H); FMulCong(C1, C1); FSubCong(C2, ZZ); FSubCong(C3, HH);
    MixedAddStands(P, X, Y, Z, A.x, A.y, x2, y2, l, S.x, S.y, ZZ, U2, T, S2, H, R0, R, HH, I0, I, J, V,
                   A1, A2, T0, X3, T1, B1, T2, N, Y3, C1, C2, C3, Z3);
    OpsInRange(C3, HH); OpsInRange(U2, X);
    NonzeroInRange(Z); NonzeroInRange(H);
    TwiceProductNonzero(Z3, Z, H);
    StandsForPoint(X3, Y3, Z3, S.x, S.y);
  }

  // ---- doubling refines the affine law ----

  /** Y vanishes exactly when y does. */
  lemma YDecides(X: int, Y: int, Z: int)
    requires Prime(P) && InRange(Y) && InRange(Z) && Z != 0
    ensures var A := JacPoint(X, Y, Z); A.Affine? && (Y == 0 <==> A.y == 0)
  {
    hide Cong, FMul, JacPoint, Prime;
    PointStands(X, Y, Z);
    var A := JacPoint(X, Y, Z);
    NonzeroInRange(Z);
    if (Z * Z) % P == 0 { Euclid(Z, Z, P); }
    if (Z * (Z * Z)) % P == 0 { Euclid(Z, Z * Z, P); }
    ScaledDifference(Y, 0, A.y, Z * (Z * Z));
  }

  lemma DoubleRefines(X: int, Y: int, Z: int,
                      A: int, B: int, C: int, S0: int, S1: int, S2: int, S3: int, D: int, E0: int, E: int, F: int,
                      T0: int, X3: int, T1: int, B1: int, N0: int, N1: int, N: int, Y3: int, Z0: int, Z3: int)
    requires Prime(P) && InRange(Y) && InRange(Z) && Z != 0 && Y != 0
    requires OnCurve(JacPoint(X, Y, Z))
    requires A == FMul(X, X) && B == FMul(Y, Y) && C == FMul(B, B)
    requires S0 == FAdd(X, B) && S1 == FMul(S0, S0) && S2 == FSub(S1, A) && S3 == FSub(S2, C)
    requires D == FAdd(S3, S3) && E0 == FAdd(A, A) && E == FAdd(E0, A) && F == FMul(E, E)
    requires T0 == FAdd(D, D) && X3 == FSub(F, T0) && T1 == FSub(D, X3) && B1 == FMul(E, T1)
    requires N0 == FAdd(C, C) && N1 == FAdd(N0, N0) && N == FAdd(N1, N1) && Y3 == FSub(B1, N)
    requires Z0 == FMul(Y, Z) && Z3 == FAdd(Z0, Z0)
    ensures JacPoint(X3, Y3, Z3) == Add(JacPoint(X, Y, Z), JacPoint(X, Y, Z))
  {
    hide Cong, FMul, FSub, FAdd, JacPoint, Prime, Slope, Mirror, Chord, Stands;
    var Q := JacPoint(X, Y, Z);
    PointStands(X, Y, Z);
    YDecides(X, Y, Z);
    TwiceNonzero(Q.y);
    var l := Slope(Q, Q);
    TangentSlope(Q);
    var S := Mirror(l, Q, (l * l - Q.x - Q.x) % P);
    MirrorIsChord(l, Q, Q.x);
    FMulCong(X, X); FMulCong(Y, Y); FMulCong(B, B); FAddCong(X, B); FMulCong(S0, S0); FSubCong(S1, A); FSubCong(S2, C);
    FAddCong(S3, S3); FAddCong(A, A); FAddCong(E0, A); FMulCong(E, E); FAddCong(D, D); FSubCong(F, T0);
    FSubCong(D, X3); FMulCong(E, T1); FAddCong(C, C); FAddCong(N0, N0); FAddCong(N1, N1); FSubCong(B1, N);
    FMulCong(Y, Z); FAddCong(Z0, Z0);
    DoubleStands(P, X, Y, Z, Q.x, Q.y, l, S.x, S.y, A, B, C, S0, S1, S2, S3, D, E0, E, F,
                 T0, X3, T1, B1, N0, N1, N, Y3, Z0, Z3);
    OpsInRange(Z0, Z0);
    NonzeroInRange(Y); NonzeroInRange(Z);
    TwiceProductNonzero(Z3, Y, Z);
    StandsForPoint(X3, Y3, Z3, S.x, S.y);
  }

  lemma TwiceNonzero(y: int)
    requires InRange(y) && y != 0
    ensures (y + y) % P != 0
  {
    PrimeValue();
    assert y + y != P;
  }

  /** A triple with Y == 0 doubles to infinity; infinity doubles to infinity. */
  lemma DoubleDegenerate(X: int, Y: int, Z: int)
    requires Prime(P) && InRange(Y) && InRange(Z) && (Z == 0 || Y == 0)
    ensures Add(JacPoint(X, Y, Z), JacPoint(X, Y, Z)) == Infinity
  {
    hide OnCurve, Prime;
    if Z != 0 { YDecides(X, Y, Z); }
  }

  lemma UnitTriple(x: int, y: int)
    requires Prime(P) && InRange(x) && InRange(y)
    ensures JacPoint(x, y, 1) == Affine(x, y)
  {
    hide JacPoint, Prime;
    StandsForPoint(x, y, 1, x, y);
  }

  /** The triple satisfies the Jacobian curve equation exactly when its point is on the curve. */
  lemma JacobianEquation(X: int, Y: int, Z: int)
    requires Prime(P) && InRange(Z) && Z != 0
    ensures OnCurve(JacPoint(X, Y, Z)) <==>
            Cong(Y * Y, X * X * X + 7 * ((Z * (Z * Z)) * (Z * (Z * Z))), P)
  {
    hide Cong, JacPoint, Prime;
    PointStands(X, Y, Z);
    var A := JacPoint(X, Y, Z);
    var w, t := Z * Z, Z * (Z * Z);
    var u := t * t;
    NonzeroInRange(Z);
    if w % P == 0 { Euclid(Z, Z, P); }
    if t % P == 0 { Euclid(Z, w, P); }
    if u % P == 0 { Euclid(t, t, P); }
    CongMul(Y, A.y * t, Y, A.y * t, P);
    MulSwap(A.y, t, A.y, t);
    CongMul(X, A.x * w, X, A.x * w, P);
    CongMul(X * X, (A.x * w) * (A.x * w), X, A.x * w, P);
    CubeScale(A.x, Z);
    CongSame(7 * u, P);
    CongAdd(X * X * X, (A.x * A.x * A.x) * u, 7 * u, 7 * u, P);
    var a, b := A.y * A.y, A.x * A.x * A.x + 7;
    assert (A.x * A.x * A.x) * u + 7 * u == u * b by { var c := A.x * A.x * A.x; assert c * u + 7 * u == u * (c + 7); }
    assert a * u == u * a;
    // Y^2 = u y^2 and X^3 + 7 Z^6 = u (x^3 + 7)
    if OnCurve(A) {
      CongScale(a, b, u, P);
      assert b * u == u * b;
      CongTrans(Y * Y, u * a, u * b, P);
      CongSym(X * X * X + 7 * u, u * b, P);
      CongTrans(Y * Y, u * b, X * X * X + 7 * u, P);
    }
    if Cong(Y * Y, X * X * X + 7 * u, P) {
      CongTrans(Y * Y, X * X * X + 7 * u, u * b, P);
      CongSym(Y * Y, u * a, P);
      CongTrans(u * a, Y * Y, u * b, P);
      Cancel(a, b, u, P);
    }
  }

  /** What doubling and mixed addition leave is infinity or satisfies the Jacobian equation again. */
  lemma ResultOnCurve(X: int, Y: int, Z: int, A: Point, B: Point)
    requires Prime(P) && InRange(Z) && OnCurve(A) && OnCurve(B) && JacPoint(X, Y, Z) == Add(A, B)
    ensures Z == 0 || Cong(Y * Y, X * X * X + 7 * ((Z * (Z * Z)) * (Z * (Z * Z))), P)
  {
    hide Cong, JacPoint, Prime, OnCurve, Add, InRange;
    AddCloses(A, B);
    if Z != 0 { JacobianEquation(X, Y, Z); }
  }

  lemma CubeScale(x: int, Z: int)
    ensures ((x * (Z * Z)) * (x * (Z * Z))) * (x * (Z * Z)) == (x * x * x) * ((Z * (Z * Z)) * (Z * (Z * Z)))
  {
    var w := Z * Z;
    MulSwap(x, w, x, w);
    MulSwap(x * x, w * w, x, w);
    MulSwap(Z, w, Z, w);
    Assoc(w, w, w);
  }

  // ---- the in-place routines ----

  /** Three field elements; Z == 0 means the point at infinity. */
  class Jac {
    const X: array<Word>
    const Y: array<Word>
    const Z: array<Word>

    constructor ()
      ensures Valid() && fresh(X) && fresh(Y) && fresh(Z)
    {
      X, Y, Z := new Word[4], new Word[4], new Word[4];
    }

    ghost predicate Valid() {
      X.Length == 4 && Y.Length == 4 && Z.Length == 4 && X != Y && Y != Z && X != Z
    }

    ghost predicate Canonical()
      requires Valid()
      reads X, Y, Z
    {
      InRange(Val(X)) && InRange(Val(Y)) && InRange(Val(Z))
    }

    ghost function Pt(): Point
      requires Valid()
      reads X, Y, Z
    {
      JacPoint(Val(X), Val(Y), Val(Z))
    }
  }

  /** Two structs are the same or share no storage. */
  ghost predicate Apart(r: Jac, p: Jac) {
    r == p || {r.X, r.Y, r.Z} !! {p.X, p.Y, p.Z}
  }

  method JacIsInf(p: Jac) returns (b: bool)
    requires p.Valid()
    ensures b <==> Val(p.Z) == 0
  {
    b := FeIsZero(p.Z);
  }

  method JacSetInf(r: Jac)
    requires r.Valid()
    modifies r.X, r.Y, r.Z
    ensures r.Canonical() && r.Pt() == Infinity
  {
    hide Val, Inverse, FMul;
    ZeroInRange();
    FeSetZero(r.X); FeSetZero(r.Y); FeSetZero(r.Z);
  }

  lemma ZeroInRange()
    ensures InRange(0) && InRange(1)
  {
  }

  /** C = Y^4, D = 2 ((X + B)^2 - A - C) and E = 3 A for A = X^2, B = Y^2. */
  method DoubleTerms(X: array<Word>, Y: array<Word>, C: array<Word>, D: array<Word>, E: array<Word>)
    returns (ghost vA: int, ghost vB: int, ghost s0: int, ghost s1: int, ghost s2: int, ghost s3: int, ghost e0: int)
    requires X.Length == 4 && Y.Length == 4 && C.Length == 4 && D.Length == 4 && E.Length == 4
    requires C != D && D != E && C != E && {X, Y} !! {C, D, E}
    modifies C, D, E
    ensures vA == FMul(Val(X), Val(X)) && vB == FMul(Val(Y), Val(Y)) && Val(C) == FMul(vB, vB)
    ensures s0 == FAdd(Val(X), vB) && s1 == FMul(s0, s0) && s2 == FSub(s1, vA) && s3 == FSub(s2, Val(C))
    ensures Val(D) == FAdd(s3, s3) && e0 == FAdd(vA, vA) && Val(E) == FAdd(e0, vA)
    ensures InRange(Val(C)) && InRange(Val(D)) && InRange(Val(E))
  {
    hide Val, FMul, FSub, FAdd, InRange;
    var A, B, t0 := new Word[4], new Word[4], new Word[4];
    FeSqr(A, X); vA := Val(A);
    FeSqr(B, Y); vB := Val(B);
    FeSqr(C, B);
    FeAdd(t0, X, B); s0 := Val(t0);
    FeSqr(t0, t0); s1 := Val(t0);
    FeSub(t0, t0, A); s2 := Val(t0);
    FeSub(t0, t0, C); s3 := Val(t0);
    FeAdd(D, t0, t0);
    FeAdd(E, A, A); e0 := Val(E);
    FeAdd(E, E, A);
  }

  /** X3 = E^2 - 2D and Y3 = E (D - X3) - 8C. */
  method DoubleXY(X3: array<Word>, Y3: array<Word>, C: array<Word>, D: array<Word>, E: array<Word>)
    returns (ghost vF: int, ghost vT0: int, ghost vT1: int, ghost b1: int, ghost n0: int, ghost n1: int, ghost n: int)
    requires X3.Length == 4 && Y3.Length == 4 && C.Length == 4 && D.Length == 4 && E.Length == 4
    requires X3 != Y3 && {X3, Y3} !! {C, D, E}
    requires InRange(Val(C)) && InRange(Val(D)) && InRange(Val(E))
    modifies X3, Y3
    ensures vF == FMul(Val(E), Val(E)) && vT0 == FAdd(Val(D), Val(D)) && Val(X3) == FSub(vF, vT0)
    ensures vT1 == FSub(Val(D), Val(X3)) && b1 == FMul(Val(E), vT1)
    ensures n0 == FAdd(Val(C), Val(C)) && n1 == FAdd(n0, n0) && n == FAdd(n1, n1) && Val(Y3) == FSub(b1, n)
    ensures InRange(Val(X3)) && InRange(Val(Y3))
  {
    hide Val, FMul, FSub, FAdd, InRange;
    var F, t0, t1 := new Word[4], new Word[4], new Word[4];
    FeSqr(F, E); vF := Val(F);
    FeAdd(t0, D, D); vT0 := Val(t0);
    FeSub(X3, F, t0);
    FeSub(t1, D, X3); vT1 := Val(t1);
    FeMul(Y3, E, t1); b1 := Val(Y3);
    FeAdd(t0, C, C); n0 := Val(t0);
    FeAdd(t0, t0, t0); n1 := Val(t0);
    FeAdd(t0, t0, t0); n := Val(t0);
    FeSub(Y3, Y3, t0);
  }

  /** The copy of a computed triple into r. */
  method StoreTriple(r: Jac, X3: array<Word>, Y3: array<Word>, Z3: array<Word>)
    requires r.Valid() && X3.Length == 4 && Y3.Length == 4 && Z3.Length == 4
    requires Y3 != r.X && Z3 != r.X && Z3 != r.Y
    requires InRange(Val(X3)) && InRange(Val(Y3)) && InRange(Val(Z3))
    modifies r.X, r.Y, r.Z
    ensures r.Canonical() && r.Pt() == old(JacPoint(Val(X3), Val(Y3), Val(Z3)))
  {
    hide Val, JacPoint, InRange;
    FeCopy(r.X, X3); FeCopy(r.Y, Y3); FeCopy(r.Z, Z3);
  }

  /** Z3 = 2 Y Z. */
  method DoubleZ(Z3: array<Word>, Y: array<Word>, Z: array<Word>) returns (ghost z0: int)
    requires Z3.Length == 4 && Y.Length == 4 && Z.Length == 4 && Z3 != Y && Z3 != Z
    modifies Z3
    ensures z0 == FMul(Val(Y), Val(Z)) && Val(Z3) == FAdd(z0, z0) && InRange(Val(Z3))
  {
    hide Val, FMul, FAdd, InRange;
    FeMul(Z3, Y, Z); z0 := Val(Z3);
    FeAdd(Z3, Z3, Z3);
  }

  /** r = 2 p, also when r is p. */
  method PointDouble(r: Jac, p: Jac)
    requires r.Valid() && p.Valid() && Apart(r, p)
    requires Prime(P) && p.Canonical() && OnCurve(p.Pt())
    modifies r.X, r.Y, r.Z
    ensures r.Canonical() && r.Pt() == old(Add(p.Pt(), p.Pt()))
  {
    hide Val, FMul, FSub, FAdd, JacPoint, Add, OnCurve, Prime, InRange;
    ghost var X, Y, Z := Val(p.X), Val(p.Y), Val(p.Z);
    var inf := JacIsInf(p);
    var flat := FeIsZero(p.Y);
    if inf || flat {
      DoubleDegenerate(X, Y, Z);
      JacSetInf(r);
      return;
    }
    var C, D, E := new Word[4], new Word[4], new Word[4];
    var X3, Y3, Z3 := new Word[4], new Word[4], new Word[4];
    ghost var vA, vB, s0, s1, s2, s3, e0 := DoubleTerms(p.X, p.Y, C, D, E);
    ghost var vF, vT0, vT1, b1, n0, n1, n := DoubleXY(X3, Y3, C, D, E);
    ghost var z0 := DoubleZ(Z3, p.Y, p.Z);
    DoubleRefines(X, Y, Z, vA, vB, Val(C), s0, s1, s2, s3, Val(D), e0, Val(E), vF,
                  vT0, Val(X3), vT1, b1, n0, n1, n, Val(Y3), z0, Val(Z3));
    StoreTriple(r, X3, Y3, Z3);
  }

  /** ZZ = Z^2, H = x2 ZZ - X and R = y2 Z ZZ - Y. */
  method MixedTerms(X: array<Word>, Y: array<Word>, Z: array<Word>, x2: array<Word>, y2: array<Word>,
                    ZZ: array<Word>, H: array<Word>, R: array<Word>)
    returns (ghost vU2: int, ghost vT: int, ghost vS2: int)
    requires X.Length == 4 && Y.Length == 4 && Z.Length == 4 && x2.Length == 4 && y2.Length == 4
    requires ZZ.Length == 4 && H.Length == 4 && R.Length == 4
    requires ZZ != H && H != R && ZZ != R && {X, Y, Z, x2, y2} !! {ZZ, H, R}
    requires InRange(Val(X)) && InRange(Val(Y))
    modifies ZZ, H, R
    ensures Val(ZZ) == FMul(Val(Z), Val(Z)) && vU2 == FMul(Val(x2), Val(ZZ))
    ensures vT == FMul(Val(y2), Val(Z)) && vS2 == FMul(vT, Val(ZZ))
    ensures Val(H) == FSub(vU2, Val(X)) && Val(R) == FSub(vS2, Val(Y))
    ensures InRange(Val(ZZ)) && InRange(Val(H)) && InRange(Val(R))
  {
    hide Val, FMul, FSub, FAdd, InRange;
    var U2, S2, t0 := new Word[4], new Word[4], new Word[4];
    FeSqr(ZZ, Z);
    FeMul(U2, x2, ZZ); vU2 := Val(U2);
    FeMul(t0, y2, Z); vT := Val(t0);
    FeMul(S2, t0, ZZ); vS2 := Val(S2);
    FeSub(H, U2, X);
    FeSub(R, S2, Y);
  }

  /** R doubled; HH = H^2, J = 4 H HH and V = 4 X HH. */
  method MixedScale(X: array<Word>, H: array<Word>, R: array<Word>, HH: array<Word>, J: array<Word>, V: array<Word>)
    returns (ghost vI0: int, ghost vI: int)
    requires X.Length == 4 && H.Length == 4 && R.Length == 4 && HH.Length == 4 && J.Length == 4 && V.Length == 4
    requires X != R && H != R && {X, H, R} !! {HH, J, V} && HH != J && J != V && HH != V
    modifies R, HH, J, V
    ensures Val(R) == FAdd(old(Val(R)), old(Val(R))) && Val(HH) == FMul(Val(H), Val(H))
    ensures vI0 == FAdd(Val(HH), Val(HH)) && vI == FAdd(vI0, vI0)
    ensures Val(J) == FMul(Val(H), vI) && Val(V) == FMul(Val(X), vI)
    ensures InRange(Val(HH)) && InRange(Val(J)) && InRange(Val(V))
  {
    hide Val, FMul, FSub, FAdd, InRange;
    var I := new Word[4];
    FeAdd(R, R, R);
    FeSqr(HH, H);
    FeAdd(I, HH, HH); vI0 := Val(I);
    FeAdd(I, I, I); vI := Val(I);
    FeMul(J, H, I);
    FeMul(V, X, I);
  }

  /** X3 = R^2 - J - 2V and Y3 = R (V - X3) - 2 Y J. */
  method MixedXY(X3: array<Word>, Y3: array<Word>, Y: array<Word>, R: array<Word>, J: array<Word>, V: array<Word>)
    returns (ghost a1: int, ghost a2: int, ghost t0: int, ghost t1: int, ghost b1: int, ghost t2: int, ghost n: int)
    requires X3.Length == 4 && Y3.Length == 4 && Y.Length == 4 && R.Length == 4 && J.Length == 4 && V.Length == 4
    requires X3 != Y3 && {X3, Y3} !! {Y, R, J, V}
    requires InRange(Val(J)) && InRange(Val(V))
    modifies X3, Y3
    ensures a1 == FMul(Val(R), Val(R)) && a2 == FSub(a1, Val(J))
    ensures t0 == FAdd(Val(V), Val(V)) && Val(X3) == FSub(a2, t0)
    ensures t1 == FSub(Val(V), Val(X3)) && b1 == FMul(Val(R), t1)
    ensures t2 == FMul(Val(Y), Val(J)) && n == FAdd(t2, t2) && Val(Y3) == FSub(b1, n)
    ensures InRange(Val(X3)) && InRange(Val(Y3))
  {
    hide Val, FMul, FSub, FAdd, InRange;
    var tmp, dif := new Word[4], new Word[4];
    FeSqr(X3, R); a1 := Val(X3);
    FeSub(X3, X3, J); a2 := Val(X3);
    FeAdd(tmp, V, V); t0 := Val(tmp);
    FeSub(X3, X3, tmp);
    FeSub(dif, V, X3); t1 := Val(dif);
    FeMul(Y3, R, dif); b1 := Val(Y3);
    FeMul(tmp, Y, J); t2 := Val(tmp);
    FeAdd(tmp, tmp, tmp); n := Val(tmp);
    FeSub(Y3, Y3, tmp);
  }

  /** Z3 = (Z + H)^2 - ZZ - HH. */
  method MixedZ(Z3: array<Word>, Z: array<Word>, H: array<Word>, ZZ: array<Word>, HH: array<Word>)
    returns (ghost c1: int, ghost c2: int, ghost c3: int)
    requires Z3.Length == 4 && Z.Length == 4 && H.Length == 4 && ZZ.Length == 4 && HH.Length == 4
    requires Z3 !in {Z, H, ZZ, HH}
    requires InRange(Val(ZZ)) && InRange(Val(HH))
    modifies Z3
    ensures c1 == FAdd(Val(Z), Val(H)) && c2 == FMul(c1, c1) && c3 == FSub(c2, Val(ZZ))
    ensures Val(Z3) == FSub(c3, Val(HH)) && InRange(Val(Z3))
  {
    hide Val, FMul, FSub, FAdd, InRange;
    var t0 := new Word[4];
    FeAdd(t0, Z, H); c1 := Val(t0);
    FeSqr(t0, t0); c2 := Val(t0);
    FeSub(t0, t0, ZZ); c3 := Val(t0);
    FeSub(Z3, t0, HH);
  }

  /** The generic branch: the x coordinates differ. */
  method MixedGeneric(r: Jac, p: Jac, ZZ: array<Word>, H: array<Word>, R: array<Word>,
                      ghost x2: int, ghost y2: int, ghost vU2: int, ghost vT: int, ghost vS2: int)
    requires r.Valid() && p.Valid() && Apart(r, p) && Prime(P) && p.Canonical() && Val(p.Z) != 0
    requires ZZ.Length == 4 && H.Length == 4 && R.Length == 4
    requires ZZ != H && H != R && ZZ != R && {p.X, p.Y, p.Z, r.X, r.Y, r.Z} !! {ZZ, H, R}
    requires OnCurve(p.Pt()) && OnCurve(Affine(x2, y2))
    requires Val(ZZ) == FMul(Val(p.Z), Val(p.Z)) && vU2 == FMul(x2, Val(ZZ))
    requires vT == FMul(y2, Val(p.Z)) && vS2 == FMul(vT, Val(ZZ))
    requires Val(H) == FSub(vU2, Val(p.X)) && Val(R) == FSub(vS2, Val(p.Y)) && Val(H) != 0
    requires InRange(Val(ZZ)) && InRange(Val(H)) && InRange(Val(R))
    modifies r.X, r.Y, r.Z, R
    ensures r.Canonical() && r.Pt() == old(Add(p.Pt(), Affine(x2, y2)))
  {
    hide Val, FMul, FSub, FAdd, JacPoint, Add, OnCurve, Prime, InRange;
    ghost var X, Y, Z, r0 := Val(p.X), Val(p.Y), Val(p.Z), Val(R);
    var HH, J, V := new Word[4], new Word[4], new Word[4];
    var X3, Y3, Z3 := new Word[4], new Word[4], new Word[4];
    ghost var vI0, vI := MixedScale(p.X, H, R, HH, J, V);
    ghost var a1, a2, t0, t1, b1, t2, n := MixedXY(X3, Y3, p.Y, R, J, V);
    ghost var c1, c2, c3 := MixedZ(Z3, p.Z, H, ZZ, HH);
    MixedAddRefines(X, Y, Z, x2, y2, Val(ZZ), vU2, vT, vS2, Val(H), r0, Val(R), Val(HH), vI0, vI, Val(J), Val(V),
                    a1, a2, t0, Val(X3), t1, b1, t2, n, Val(Y3), c1, c2, c3, Val(Z3));
    StoreTriple(r, X3, Y3, Z3);
  }

  /** r = p + (x2, y2) in every case: p at infinity, equal points, opposite points, generic. r may be p
      and share elements with the operands. One aliasing spoils one branch: with p at infinity and y2
      stored in r.X, the copy of x2 overwrites y2 before it is read. */
  method PointAddMixed(r: Jac, p: Jac, x2: array<Word>, y2: array<Word>)
    requires r.Valid() && p.Valid() && Apart(r, p) && x2.Length == 4 && y2.Length == 4
    requires Prime(P) && p.Canonical() && OnCurve(p.Pt()) && OnCurve(Affine(Val(x2), Val(y2)))
    modifies r.X, r.Y, r.Z
    ensures r.Canonical()
    ensures y2 != r.X || old(Val(p.Z)) != 0 ==> r.Pt() == old(Add(p.Pt(), Affine(Val(x2), Val(y2))))
    ensures y2 == r.X && old(Val(p.Z)) == 0 ==> r.Pt() == Affine(old(Val(x2)), old(Val(x2)))
  {
    hide Val, FMul, FSub, FAdd, JacPoint, Add, OnCurve, Prime, InRange;
    ghost var X, Y, Z, vx2, vy2 := Val(p.X), Val(p.Y), Val(p.Z), Val(x2), Val(y2);
    CurveInRange(Affine(vx2, vy2));
    ZeroInRange();
    var inf := JacIsInf(p);
    if inf {
      UnitTriple(vx2, vy2); UnitTriple(vx2, vx2);
      InfinityPlus(X, Y, Affine(vx2, vy2));
      FeCopy(r.X, x2); FeCopy(r.Y, y2); FeSetOne(r.Z);
      return;
    }
    var ZZ, H, R := new Word[4], new Word[4], new Word[4];
    ghost var vU2, vT, vS2 := MixedTerms(p.X, p.Y, p.Z, x2, y2, ZZ, H, R);
    DifferencesDecide(X, Y, Z, vx2, vy2, Val(ZZ), vU2, vT, vS2, Val(H), Val(R));
    var sameX := FeIsZero(H);
    if sameX {
      var sameY := FeIsZero(R);
      if sameY {
        PointDouble(r, p);
        return;
      }
      OppositeSum(p.Pt(), Affine(vx2, vy2));
      JacSetInf(r);
      return;
    }
    MixedGeneric(r, p, ZZ, H, R, vx2, vy2, vU2, vT, vS2);
  }

  lemma InfinityPlus(X: int, Y: int, B: Point)
    ensures Add(JacPoint(X, Y, 0), B) == B
  {
  }

  /** Curve points with one x and different y add to infinity. */
  lemma OppositeSum(A: Point, B: Point)
    requires Prime(P) && A.Affine? && B.Affine? && OnCurve(A) && OnCurve(B) && A.x == B.x && A.y != B.y
    ensures Add(A, B) == Infinity
  {
    hide OnCurve, Slope, Mirror, Prime;
    SameX(A, B);
  }

  /** The affine coordinates of p, and (0, 0) for the point at infinity. When x is p's Y array the second
      product takes the new x for Y. */
  method JacToAffine(p: Jac, x: array<Word>, y: array<Word>)
    requires p.Valid() && x.Length == 4 && y.Length == 4 && x != y
    modifies x, y
    ensures InRange(Val(x)) && InRange(Val(y))
    ensures old(p.Pt()).Infinity? ==> Val(x) == 0 && Val(y) == 0
    ensures old(p.Pt()).Affine? && x != p.Y ==> Affine(Val(x), Val(y)) == old(p.Pt())
    ensures old(p.Pt()).Affine? && x == p.Y ==>
      Val(x) == old(p.Pt()).x && Affine(Val(x), Val(y)) == JacPoint(old(Val(p.X)), Val(x), old(Val(p.Z)))
  {
    hide Val, FMul, Inverse, InRange;
    ghost var X, Y, Z := Val(p.X), Val(p.Y), Val(p.Z);
    var zinv, zinv2, zinv3 := new Word[4], new Word[4], new Word[4];
    FeInv(zinv, p.Z);
    FeSqr(zinv2, zinv);
    FeMul(zinv3, zinv2, zinv);
    ghost var i, ii, iii := Val(zinv), Val(zinv2), Val(zinv3);
    InverseIs(Z);
    FeMul(x, p.X, zinv2);
    FeMul(y, p.Y, zinv3);
    if Z == 0 { ZeroCoordinates(X, if x == p.Y then Val(x) else Y, i); }
  }

  lemma InverseIs(Z: int)
    ensures Inverse(Z) == Pow(Z, P - 2) % P
  {
  }

  lemma ZeroCoordinates(X: int, Y: int, i: int)
    requires i == Inverse(0)
    ensures var ii := FMul(i, i); FMul(X, ii) == 0 && FMul(Y, FMul(ii, i)) == 0
  {
    PowZero(P - 2);
    assert i == 0;
  }
}

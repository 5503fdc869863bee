/** The curve points as a group. Closure, the neutral element, inverses and commutativity are
    proved from the chord-and-tangent law; associativity and the prime order of the points are
    facts of secp256k1 that callers pass in. */
module Group {
  import opened NumberTheory
  import opened Field
  import opened Curve

  ghost predicate Associates(A: Point, B: Point, C: Point) {
    OnCurve(A) && OnCurve(B) && OnCurve(C) ==> Add(Add(A, B), C) == Add(A, Add(B, C))
  }

  ghost predicate Associative() {
    forall A, B, C :: Associates(A, B, C)
  }

  /** What the search assumes of the curve: p is prime and addition is associative. */
  ghost predicate CurveGroup() {
    Prime(P) && Associative()
  }

  lemma Regroup(A: Point, B: Point, C: Point)
    requires CurveGroup() && OnCurve(A) && OnCurve(B) && OnCurve(C)
    ensures Add(Add(A, B), C) == Add(A, Add(B, C))
    ensures OnCurve(Add(A, B)) && OnCurve(Add(B, C))
  {
    hide OnCurve, Add, Prime;
    assert Associates(A, B, C);
    AddCloses(A, B);
    AddCloses(B, C);
  }

  // ---- commutativity ----

  lemma SlopeInField(A: Point, B: Point)
    requires A.Affine? && B.Affine?
    ensures 0 <= Slope(A, B) < P
  {
    hide Inverse;
  }

  lemma NegateBoth(k: int, d: int, e: int)
    requires Cong(k * -d, -e, P)
    ensures Cong(k * d, e, P)
  {
    hide Cong;
    assert k * -d == -(k * d);
    CongSame(0, P);
    CongSub(0, 0, -(k * d), -e, P);
  }

  lemma SlopeSymmetric(A: Point, B: Point)
    requires Prime(P) && A.Affine? && B.Affine? && OnCurve(A) && OnCurve(B) && A.x != B.x
    ensures Slope(A, B) == Slope(B, A)
  {
    hide Cong, Slope, Prime, OnCurve;
    var l, k, d, e := Slope(A, B), Slope(B, A), B.x - A.x, B.y - A.y;
    CurveInRange(A); CurveInRange(B);
    ChordSlope(A, B);
    ChordSlope(B, A);
    assert A.x - B.x == -d && A.y - B.y == -e;
    NegateBoth(k, d, e);
    SmallNonzero(d);
    SameSlope(l, k, d, e);
    SlopeInField(A, B);
    SlopeInField(B, A);
    SmallEqual(l, k);
  }

  lemma SameSlope(l: int, k: int, d: int, e: int)
    requires Prime(P) && d % P != 0 && Cong(l * d, e, P) && Cong(k * d, e, P)
    ensures Cong(l, k, P)
  {
    hide Cong, Prime;
    CongSym(k * d, e, P);
    CongTrans(l * d, e, k * d, P);
    assert l * d == d * l && k * d == d * k;
    Cancel(l, k, d, P);
  }

  /** Measured from either point of the chord, the mirrored third point is the same. */
  lemma MirrorSymmetric(l: int, A: Point, B: Point, x3: int)
    requires A.Affine? && B.Affine? && Cong(l * (B.x - A.x), B.y - A.y, P)
    ensures Mirror(l, A, x3) == Mirror(l, B, x3)
  {
    hide Cong;
    var u, v := l * (B.x - A.x), l * (A.x - x3);
    assert l * (B.x - x3) == u + v;
    ShiftBoth(u, v, A.y, B.y);
    SameResidue(u + v - B.y, v - A.y, P);
  }

  lemma ShiftBoth(u: int, v: int, ay: int, cy: int)
    requires Cong(u, cy - ay, P)
    ensures Cong(u + v - cy, v - ay, P)
  {
    hide Cong;
    CongSame(v - cy, P);
    CongAdd(u, cy - ay, v - cy, v - cy, P);
  }

  lemma Commutes(A: Point, B: Point)
    requires Prime(P) && OnCurve(A) && OnCurve(B)
    ensures Add(A, B) == Add(B, A)
  {
    hide Cong, Slope, Mirror, Prime;
    if A.Affine? && B.Affine? {
      if A.x == B.x {
        SameX(A, B);
      } else {
        SlopeSymmetric(A, B);
        ChordSlope(A, B);
        var l := Slope(A, B);
        MirrorSymmetric(l, A, B, (l * l - A.x - B.x) % P);
      }
    }
  }

  // ---- inverses ----

  lemma NegOnCurve(A: Point)
    requires OnCurve(A)
    ensures OnCurve(Neg(A)) && Add(A, Neg(A)) == Infinity && Add(Neg(A), A) == Infinity
  {
    hide Cong;
    if A.Affine? {
      var n := (-A.y) % P;
      NegatedY(A.y);
      InField(-A.y);
      CongMul(n, -A.y, n, -A.y, P);
      assert (-A.y) * (-A.y) == A.y * A.y;
      CongTrans(n * n, A.y * A.y, A.x * A.x * A.x + 7, P);
    }
  }

  lemma NegatedY(y: int)
    requires 0 <= y < P
    ensures var n := (-y) % P; 0 <= n < P && (y + n) % P == 0 && (n + y) % P == 0
  {
    ModUnique(0, P, 0, 0);
    ModUnique(P, P, 1, 0);
    if y > 0 { ModUnique(-y, P, -1, P - y); }
  }

  lemma NegUnique(A: Point, B: Point)
    requires CurveGroup() && OnCurve(A) && OnCurve(B) && Add(A, B) == Infinity
    ensures B == Neg(A)
  {
    hide OnCurve, Add, Neg, Associative;
    NegOnCurve(A);
    Regroup(Neg(A), A, B);
    AddInfinity(B);
    AddInfinity(Neg(A));
  }

  lemma AddInfinity(A: Point)
    ensures Add(A, Infinity) == A && Add(Infinity, A) == A && OnCurve(Infinity)
  {
  }

  // ---- multiples ----

  function Times(k: nat, A: Point): Point {
    if k == 0 then Infinity else Add(Times(k - 1, A), A)
  }

  lemma {:induction false} TimesCloses(k: nat, A: Point)
    requires Prime(P) && OnCurve(A)
    ensures OnCurve(Times(k, A))
  {
    hide OnCurve, Add, Prime;
    if k == 0 {
      AddInfinity(A);
    } else {
      TimesCloses(k - 1, A);
      AddCloses(Times(k - 1, A), A);
    }
  }

  lemma TimesOne(A: Point)
    ensures Times(1, A) == A
  {
    assert Times(0, A) == Infinity;
  }

  lemma {:induction false} TimesAdd(j: nat, k: nat, A: Point)
    requires CurveGroup() && OnCurve(A)
    ensures Add(Times(j, A), Times(k, A)) == Times(j + k, A)
  {
    hide OnCurve, Add, Associative, Prime;
    if k == 0 {
      AddInfinity(Times(j, A));
    } else {
      TimesAdd(j, k - 1, A);
      TimesCloses(j, A);
      TimesCloses(k - 1, A);
      Regroup(Times(j, A), Times(k - 1, A), A);
    }
  }

  lemma {:induction false} TimesTimes(j: nat, k: nat, A: Point)
    requires CurveGroup() && OnCurve(A)
    ensures 0 <= j * k && Times(j, Times(k, A)) == Times(j * k, A)
  {
    hide OnCurve, Add, Associative, Prime;
    if j == 0 {
      assert 0 * k == 0;
    } else {
      TimesTimes(j - 1, k, A);
      assert j * k == (j - 1) * k + k;
      TimesAdd((j - 1) * k, k, A);
    }
  }

  lemma {:induction false} TimesInfinity(k: nat)
    ensures Times(k, Infinity) == Infinity
  {
    if k > 0 { TimesInfinity(k - 1); }
  }

  /** (A + B) + (C + D) = (A + C) + (B + D). */
  lemma Exchange(A: Point, B: Point, C: Point, D: Point)
    requires CurveGroup() && OnCurve(A) && OnCurve(B) && OnCurve(C) && OnCurve(D)
    ensures Add(Add(A, B), Add(C, D)) == Add(Add(A, C), Add(B, D))
  {
    hide OnCurve, Add, Associative, Prime;
    AddCloses(C, D); AddCloses(B, D);
    Regroup(A, B, Add(C, D));
    Regroup(B, C, D);
    Commutes(B, C);
    Regroup(C, B, D);
    Regroup(A, C, Add(B, D));
  }

  lemma {:induction false} TimesSum(k: nat, A: Point, B: Point)
    requires CurveGroup() && OnCurve(A) && OnCurve(B)
    ensures Times(k, Add(A, B)) == Add(Times(k, A), Times(k, B))
  {
    hide OnCurve, Add, Associative, Prime;
    if k == 0 {
      AddInfinity(Infinity);
    } else {
      TimesSum(k - 1, A, B);
      TimesCloses(k - 1, A);
      TimesCloses(k - 1, B);
      Exchange(Times(k - 1, A), Times(k - 1, B), A, B);
    }
  }

  lemma TimesNeg(k: nat, A: Point)
    requires CurveGroup() && OnCurve(A)
    ensures Times(k, Neg(A)) == Neg(Times(k, A))
  {
    hide OnCurve, Add, Neg, Associative, Prime;
    NegOnCurve(A);
    TimesSum(k, A, Neg(A));
    TimesInfinity(k);
    TimesCloses(k, A);
    TimesCloses(k, Neg(A));
    NegUnique(Times(k, A), Times(k, Neg(A)));
  }
}

/** Scalars modulo the group order: what follows from n being prime and killing every point. */
module Order {
  import opened NumberTheory
  import opened Words
  import opened Field
  import opened Curve
  import opened Group

  const N0: Word := 0xBFD25E8CD0364141
  const N1: Word := 0xBAAEDCE6AF48A03B
  const N2: Word := 0xFFFFFFFFFFFFFFFE

  /** The group order. Its value plays a part only where OrderValue is called. */
  const N: Modulus := FromLimbs([N0, N1, N2, PF])

  lemma OrderValue()
    ensures N == 0xFFFFFFFFFFFFFFFF_FFFFFFFFFFFFFFFE_BAAEDCE6AF48A03B_BFD25E8CD0364141
  {
    var e := [N0, N1, N2, PF];
    assert e[1..] == [N1, N2, PF];
    assert e[1..][1..] == [N2, PF];
    assert e[1..][1..][1..] == [PF];
    assert e[1..][1..][1..][1..] == [];
    assert FromLimbs([]) == 0;
    assert FromLimbs([PF]) == PF;
    assert FromLimbs([N2, PF]) == N2 + B64 * PF;
    assert FromLimbs([N1, N2, PF]) == N1 + B64 * (N2 + B64 * PF);
  }

  lemma OrderBelowPrime()
    ensures N < P
  {
    OrderValue();
    PrimeValue();
  }

  lemma OrderIsLarge()
    ensures N > B64
  {
    OrderValue();
  }

  ghost predicate Kills(n: nat, A: Point) {
    OnCurve(A) ==> Times(n, A) == Infinity
  }

  /** n is prime, and n times every point is the point at infinity. */
  ghost predicate KilledBy(n: nat) {
    Prime(n) && forall A :: Kills(n, A)
  }

  /** What the search takes for granted about secp256k1. */
  ghost predicate Secp256k1() {
    CurveGroup() && KilledBy(N)
  }

  lemma TimesOrder(n: nat, A: Point)
    requires KilledBy(n) && OnCurve(A)
    ensures Times(n, A) == Infinity
  {
    hide Times, OnCurve, Prime;
    assert Kills(n, A);
  }

  /** Multiples only depend on the scalar modulo n. */
  lemma TimesModOf(n: nat, k: nat, A: Point)
    requires n > 0 && CurveGroup() && KilledBy(n) && OnCurve(A)
    ensures Times(k, A) == Times(k % n, A)
  {
    hide Times, OnCurve, Add, Associative, Prime, KilledBy;
    var q := k / n;
    ModSplit(k, n);
    TimesTimes(q, n, A);
    TimesOrder(n, A);
    TimesInfinity(q);
    TimesAdd(q * n, k % n, A);
    AddInfinity(Times(k % n, A));
  }

  /** Scalar j undoes scalar k when their product is 1 modulo n. */
  lemma TimesUndo(n: nat, j: nat, k: nat, A: Point)
    requires n > 1 && CurveGroup() && KilledBy(n) && OnCurve(A) && Cong(j * k, 1, n)
    ensures Times(j, Times(k, A)) == A
  {
    hide Times, OnCurve, Add, Associative, Prime, KilledBy;
    ModUnique(1, n, 0, 1);
    TimesTimes(j, k, A);
    TimesModOf(n, j * k, A);
    TimesOne(A);
  }

  /** The inverse of a scalar modulo n, by Fermat. */
  function ScalarInverse(k: int, n: int): (j: int)
    requires n > 2
    ensures 0 <= j < n
  {
    Pow(k, n - 2) % n
  }

  lemma ScalarInverseProperty(k: int, n: int)
    requires n > 2 && Prime(n) && k % n != 0
    ensures Cong(ScalarInverse(k, n) * k, 1, n)
  {
    hide Pow, Prime, Cong;
    PowInverse(k, n);
    var j := Pow(k, n - 2);
    CongMod(j, n);
    CongScale(j % n, j, k, n);
    assert j * k == k * j;
    CongTrans((j % n) * k, j * k, 1, n);
  }

  /** A multiple of a point other than infinity is infinity exactly for the multiples of n. */
  lemma TimesIsInfinity(n: nat, k: nat, A: Point)
    requires n > 2 && CurveGroup() && KilledBy(n) && OnCurve(A) && A != Infinity
    ensures Times(k, A) == Infinity <==> k % n == 0
  {
    hide Times, OnCurve, Add, Associative, Prime;
    if k % n == 0 {
      TimesModOf(n, k, A);
      TimesZero(A);
    } else if Times(k, A) == Infinity {
      var j := ScalarInverse(k, n);
      ScalarInverseProperty(k, n);
      TimesUndo(n, j, k, A);
      TimesInfinity(j);
      assert false;
    }
  }

  lemma TimesZero(A: Point)
    ensures Times(0, A) == Infinity
  {
  }

  /** 64-bit multiples of D other than the zeroth are proper points. */
  lemma SmallMultiple(k: nat, D: Point)
    requires Secp256k1() && OnCurve(D) && D != Infinity && 0 < k < B64
    ensures Times(k, D).Affine? && OnCurve(Times(k, D))
  {
    hide Times, OnCurve, Associative, Prime, KilledBy;
    OrderIsLarge();
    ModUnique(k, N, 0, k);
    TimesIsInfinity(N, k, D);
    TimesCloses(k, D);
  }

  /** No point is its own opposite: its y coordinate is not 0. */
  lemma NoTwoTorsion(A: Point)
    requires Secp256k1() && OnCurve(A) && A.Affine?
    ensures (A.y + A.y) % P != 0
  {
    hide Times, OnCurve, Associative, Prime, KilledBy;
    if (A.y + A.y) % P == 0 {
      TimesTwo(A);
      ModUnique(2, N, 0, 2);
      TimesIsInfinity(N, 2, A);
      assert false;
    }
  }

  lemma TimesTwo(A: Point)
    ensures Times(2, A) == Add(A, A)
  {
    TimesOne(A);
  }
}

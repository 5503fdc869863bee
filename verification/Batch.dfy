/** A run of N consecutive candidates that shares one field inversion (Montgomery's trick). */
module Batch {
  import opened NumberTheory
  import opened Words
  import opened Field
  import opened FieldMul
  import opened Curve
  import opened Group
  import opened Order
  import opened Jacobian
  import opened Wire
  import opened Comb

  // ---- the shared inversion, on numbers ----

  /** The product of the first j deltas. */
  ghost function Partial(ds: seq<int>, j: nat): int
    requires j <= |ds|
  {
    if j == 0 then 1 else FMul(Partial(ds, j - 1), ds[j - 1])
  }

  /** The running inverse once the deltas from j on are peeled off. */
  ghost function Peeled(ds: seq<int>, j: nat): int
    requires j <= |ds|
    decreases |ds| - j
  {
    if j == |ds| then Inverse(Partial(ds, |ds|)) else FMul(Peeled(ds, j + 1), ds[j])
  }

  /** What the backward pass uses as the inverse of delta j. */
  ghost function SharedInverse(ds: seq<int>, j: nat): int
    requires j < |ds|
  {
    FMul(Peeled(ds, j + 1), Partial(ds, j))
  }

  ghost predicate SomeZero(ds: seq<int>) {
    exists j :: 0 <= j < |ds| && ds[j] % P == 0
  }

  lemma {:induction false} PartialZero(ds: seq<int>, j: nat)
    requires Prime(P) && j <= |ds|
    ensures InRange(Partial(ds, j))
    ensures Partial(ds, j) == 0 <==> exists k :: 0 <= k < j && ds[k] % P == 0
  {
    hide Prime;
    if j > 0 {
      PartialZero(ds, j - 1);
      var a, d := Partial(ds, j - 1), ds[j - 1];
      if a != 0 && d % P != 0 && (a * d) % P == 0 {
        Euclid(a, d, P);
        SmallNonzero(a);
        assert false;
      }
      if d % P == 0 { ZeroFactor(a, d); }
    }
  }

  lemma ZeroFactor(a: int, d: int)
    requires d % P == 0
    ensures FMul(a, d) == 0 && FMul(d, a) == 0
  {
    var q := d / P;
    Assoc(a, q, P);
    MultipleDivides(a * d, a * q, P);
    assert d * a == a * d;
  }

  /** The running inverse is the inverse of the product of the deltas not yet peeled, or 0. */
  lemma {:induction false} PeeledIs(ds: seq<int>, j: nat)
    requires Prime(P) && j <= |ds|
    ensures !SomeZero(ds) ==> Cong(Peeled(ds, j) * Partial(ds, j), 1, P)
    ensures SomeZero(ds) ==> Peeled(ds, j) == 0
    decreases |ds| - j
  {
    hide Prime, Cong, Inverse, FMul, Partial;
    PartialZero(ds, |ds|);
    if j == |ds| {
      var a := Partial(ds, j);
      if a == 0 {
        InverseOfZero();
      } else {
        SmallNonzero(a);
        InverseProperty(a);
        assert Inverse(a) * a == a * Inverse(a);
      }
    } else {
      PeeledIs(ds, j + 1);
      PeelStep(ds, j, Peeled(ds, j + 1));
      if SomeZero(ds) { ZeroTimes(ds[j]); }
    }
  }

  lemma InverseOfZero()
    ensures Inverse(0) == 0
  {
    PowZero(P - 2);
  }

  lemma ZeroTimes(a: int)
    ensures FMul(0, a) == 0 && FMul(a, 0) == 0
  {
    ModUnique(0, P, 0, 0);
  }

  /** u * (c * d) is 1, so (u * d) * c and (u * c) * d are 1. */
  lemma PeelStep(ds: seq<int>, j: nat, u: int)
    requires j < |ds|
    ensures Cong(u * Partial(ds, j + 1), 1, P) ==> Cong(FMul(u, ds[j]) * Partial(ds, j), 1, P)
    ensures Cong(u * Partial(ds, j + 1), 1, P) ==> Cong(FMul(u, Partial(ds, j)) * ds[j], 1, P)
  {
    hide Cong, FMul;
    var c, d := Partial(ds, j), ds[j];
    if Cong(u * Partial(ds, j + 1), 1, P) {
      assert Partial(ds, j + 1) == FMul(c, d);
      FMulCong(c, d);
      CongSame(u, P);
      CongMul(u, u, FMul(c, d), c * d, P);
      CongSym(u * FMul(c, d), u * (c * d), P);
      CongTrans(u * (c * d), u * FMul(c, d), 1, P);
      Distribute(u, d, c);
      Distribute(u, c, d);
      assert d * c == c * d;
    }
  }

  lemma Distribute(u: int, a: int, b: int)
    requires Cong(u * (a * b), 1, P) || Cong(u * (b * a), 1, P)
    ensures Cong(FMul(u, a) * b, 1, P)
  {
    hide Cong, FMul;
    assert a * b == b * a;
    FMulCong(u, a);
    CongScale(FMul(u, a), u * a, b, P);
    Assoc(u, a, b);
    CongTrans(FMul(u, a) * b, (u * a) * b, 1, P);
  }

  /** Montgomery's trick: when every delta is nonzero each shared inverse is the inverse of its
      delta, and when any delta of the run is zero all of them are 0. */
  lemma BatchInverse(ds: seq<int>, j: nat)
    requires Prime(P) && j < |ds|
    ensures !SomeZero(ds) ==> Cong(SharedInverse(ds, j) * ds[j], 1, P) && SharedInverse(ds, j) == Inverse(ds[j])
    ensures SomeZero(ds) ==> SharedInverse(ds, j) == 0
  {
    hide Prime, Cong, Inverse, FMul, Partial, Peeled;
    PeeledIs(ds, j + 1);
    PeelStep(ds, j, Peeled(ds, j + 1));
    ZeroTimes(Partial(ds, j));
    if !SomeZero(ds) {
      var v, d := SharedInverse(ds, j), ds[j];
      FMulInRange(Peeled(ds, j + 1), Partial(ds, j));
      InverseUnique(v, d);
    }
  }

  lemma InverseUnique(v: int, d: int)
    requires Prime(P) && InRange(v) && d % P != 0 && Cong(v * d, 1, P)
    ensures v == Inverse(d)
  {
    hide Prime, Cong, Pow;
    InverseProperty(d);
    assert v * d == d * v;
    CongSym(d * Inverse(d), 1, P);
    CongTrans(d * v, 1, d * Inverse(d), P);
    Cancel(v, Inverse(d), d, P);
    InField(Pow(d, P - 2));
    SmallEqual(v, Inverse(d));
  }

  // ---- what a slot of the run holds ----

  /** The bytes of window 0, all that a run reads beyond P0. */
  const WINDOW_BYTES: nat := 16384

  /** The point i D of window 0, for 1 <= i < 256. */
  function Step(t: seq<Byte>, i: nat): (M: Point)
    requires |t| >= WINDOW_BYTES && i < 256
    ensures M.Affine?
  {
    PointAt(t, EntryAt(0, i))
  }

  /** The deltas (j+1)D.x - x of a run of n candidates. */
  ghost function Deltas(t: seq<Byte>, x: int, n: nat): (ds: seq<int>)
    requires |t| >= WINDOW_BYTES && 1 <= n <= 256
    ensures |ds| == n - 1
  {
    seq(n - 1, j requires 0 <= j < n - 1 => FSub(Step(t, j + 1).x, x))
  }

  predicate Collides(t: seq<Byte>, x: int, n: nat)
    requires |t| >= WINDOW_BYTES && 1 <= n <= 256
  {
    exists j :: 1 <= j < n && Step(t, j).x == x
  }

  /** The third point of the line of slope l through A, taken as the sum of A and B. */
  function AlongSlope(l: int, A: Point, B: Point): Point
    requires A.Affine? && B.Affine?
  {
    Mirror(l, A, (l * l - A.x - B.x) % P)
  }

  function ChordOf(A: Point, B: Point): int
    requires A.Affine? && B.Affine?
  {
    ((B.y - A.y) * Inverse(B.x - A.x)) % P
  }

  /** The coordinates in slot i: P0 itself, or one chord addition, with slope 0 when a delta of the
      run is zero. */
  function Slot(t: seq<Byte>, P0: Point, n: nat, i: nat): Point
    requires |t| >= WINDOW_BYTES && 1 <= n <= 256 && i < n && P0.Affine?
    ensures Slot(t, P0, n, i).Affine?
  {
    if i == 0 then P0
    else AlongSlope(if Collides(t, P0.x, n) then 0 else ChordOf(P0, Step(t, i)), P0, Step(t, i))
  }

  /** What the conversion to affine coordinates makes of a point. */
  function Held(A: Point): Point { if A.Infinity? then Affine(0, 0) else A }

  lemma StepIs(t: seq<Byte>, D: Point, i: nat)
    requires Secp256k1() && OnCurve(D) && D.Affine? && CombTable(t, D) && 1 <= i < 256
    ensures Step(t, i) == Times(i, D) && OnCurve(Step(t, i)) && InRange(Step(t, i).x) && InRange(Step(t, i).y)
  {
    hide Times, OnCurve, Associative, KilledBy, Prime, PointAt, Contribution, InRange;
    TableEntry(t, D, 0, i);
    FirstWindow(i);
    CurveInRange(Step(t, i));
  }

  lemma FirstWindow(i: nat)
    ensures Contribution(0, i) == i
  {
  }

  lemma TableLength(t: seq<Byte>, D: Point)
    requires CombTable(t, D)
    ensures |t| == TABLE_BYTES >= WINDOW_BYTES
  {
  }

  /** Candidate base + i is P0 plus the table's i D. */
  lemma CandidateStep(t: seq<Byte>, D: Point, Q: Point, base: nat, i: nat)
    requires Secp256k1() && OnCurve(D) && D.Affine? && OnCurve(Q) && CombTable(t, D) && 1 <= i < 256
    ensures var P0 := Add(Q, Times(base, D)); OnCurve(P0) && Add(P0, Step(t, i)) == Add(Q, Times(base + i, D))
  {
    hide Times, OnCurve, Add, Associative, KilledBy, Prime, CombTable, Step;
    TableLength(t, D);
    StepIs(t, D, i);
    TimesCloses(base, D);
    AddCloses(Q, Times(base, D));
    TimesAdd(base, i, D);
    Regroup(Q, Times(base, D), Times(i, D));
  }

  lemma AddIs(A: Point, B: Point)
    requires A.Affine? && B.Affine? && !Opposite(A, B)
    ensures Add(A, B) == AlongSlope(Slope(A, B), A, B) && InRange(Slope(A, B))
    ensures A.x != B.x ==> Slope(A, B) == ChordOf(A, B)
  {
    hide Inverse, Mirror;
  }

  /** Slope 0 gives the sum exactly when the slope is 0. */
  lemma ZeroSlope(A: Point, B: Point)
    requires Prime(P) && A.Affine? && B.Affine?
    ensures AlongSlope(0, A, B) == Add(A, B) <==> !Opposite(A, B) && Slope(A, B) == 0
  {
    hide Slope, Prime;
    if !Opposite(A, B) {
      AddIs(A, B);
      var l := Slope(A, B);
      if AlongSlope(0, A, B) == Add(A, B) {
        SquareVanishes(l, -A.x - B.x);
        SmallNonzeroIf(l);
      }
    }
  }

  lemma SmallNonzeroIf(l: int)
    requires InRange(l) && l % P == 0
    ensures l == 0
  {
  }

  lemma SquareVanishes(l: int, a: int)
    requires Prime(P) && (l * l + a) % P == a % P
    ensures l % P == 0
  {
    hide Prime;
    CongDiff(l * l + a, a, P);
    Euclid(l, l, P);
  }

  /** With P0 at infinity no slot is right: the kernel goes on from (0, 0), which is no curve point. */
  lemma InfinityIsWrong(t: seq<Byte>, D: Point, n: nat, i: nat)
    requires Secp256k1() && OnCurve(D) && D.Affine? && CombTable(t, D) && 1 <= i < n <= 256
    ensures Slot(t, Affine(0, 0), n, i) != Step(t, i)
  {
    hide Times, Associative, KilledBy, Prime, CombTable, Step, Inverse, Cong, OnCurve;
    TableLength(t, D);
    StepIs(t, D, i);
    var M := Step(t, i);
    NoTwoTorsion(M);
    var s := Slot(t, Affine(0, 0), n, i);
    if Collides(t, 0, n) {
      ZeroSlopeAtOrigin(M);
    } else {
      assert M.x != 0;
      ChordAtOrigin(M, ChordOf(Affine(0, 0), M));
    }
  }

  lemma ZeroSlopeAtOrigin(M: Point)
    requires M.Affine? && (M.y + M.y) % P != 0
    ensures AlongSlope(0, Affine(0, 0), M) != M
  {
    ModUnique(0, P, 0, 0);
    assert 0 * (0 - (0 * 0 - 0 - M.x) % P) - 0 == 0;
  }

  /** Through (0, 0) and M: a third point with M's x has the opposite y. */
  lemma ChordAtOrigin(M: Point, l: int)
    requires Prime(P) && M.Affine? && InRange(M.x) && M.x != 0 && l == ChordOf(Affine(0, 0), M)
    ensures var R := AlongSlope(l, Affine(0, 0), M); R.x == M.x ==> (R.y + M.y) % P == 0
  {
    hide Prime, Inverse, Cong;
    var R := AlongSlope(l, Affine(0, 0), M);
    SmallNonzero(M.x);
    QuotientTimes(M.y - 0, M.x - 0);
    if R.x == M.x {
      InField(l * (0 - M.x) - 0);
      assert l * (0 - M.x) - 0 == -(l * M.x);
      CongSame(M.y, P);
      CongSub(M.y, M.y, l * M.x, M.y, P);
      CongAdd(R.y, -(l * M.x), M.y, M.y, P);
      CongTrans(R.y + M.y, -(l * M.x) + M.y, 0, P);
      ZeroIffCong(R.y + M.y, P);
    }
  }

  /** Slope 0 between curve points means different x and equal y: no tangent is flat, because no point
      has x = 0. */
  lemma FlatLine(A: Point, B: Point)
    requires Prime(P) && A.Affine? && B.Affine? && OnCurve(A) && OnCurve(B)
    ensures !Opposite(A, B) && Slope(A, B) == 0 <==> A.x != B.x && A.y == B.y
  {
    hide Prime, OnCurve, Slope, Cong;
    CurveInRange(A); CurveInRange(B);
    if A.x != B.x {
      FlatChord(A, B);
    } else if !Opposite(A, B) {
      SameX(A, B);
      NoZeroX(A);
      TangentSlope(A);
      SteepTangent(Slope(A, A), A.x, A.y);
    }
  }

  lemma FlatChord(A: Point, B: Point)
    requires Prime(P) && A.Affine? && B.Affine? && OnCurve(A) && OnCurve(B) && A.x != B.x
    ensures Slope(A, B) == 0 <==> A.y == B.y
  {
    hide Prime, OnCurve, Slope, Cong;
    CurveInRange(A); CurveInRange(B);
    ChordSlope(A, B);
    SlopeInField(A, B);
    SmallNonzero(B.x - A.x);
    var l, d, e := Slope(A, B), B.x - A.x, B.y - A.y;
    ZeroIffCong(e, P);
    ZeroIffCong(l * d, P);
    if l == 0 {
      CongSym(0, e, P);
      if e != 0 { SmallNonzero(e); }
    }
    if e == 0 {
      Euclid(l, d, P);
      if l != 0 { SmallNonzero(l); }
    }
  }

  lemma SteepTangent(l: int, x: int, y: int)
    requires Prime(P) && InRange(x) && x != 0 && Cong(l * (2 * y), 3 * (x * x), P)
    ensures l != 0
  {
    hide Prime, Cong;
    if l == 0 {
      CongSym(0, 3 * (x * x), P);
      ZeroIffCong(3 * (x * x), P);
      PrimeShapes();
      Euclid(3, x * x, P);
      ModUnique(3, P, 0, 3);
      Euclid(x, x, P);
      SmallNonzero(x);
      assert false;
    }
  }

  lemma PrimeShapes()
    ensures P > 3
  {
    PrimeValue();
  }

  /** When slot i of a run holds candidate base + i: P0 must not be infinity, and in a run where some
      delta is zero only slot 0 survives and the slots whose step has another x than P0 but the same y. */
  lemma SlotIsCandidate(t: seq<Byte>, D: Point, Q: Point, base: nat, n: nat, i: nat)
    requires Secp256k1() && OnCurve(D) && D.Affine? && OnCurve(Q) && CombTable(t, D) && i < n <= 256
    ensures var P0 := Add(Q, Times(base, D));
      Slot(t, Held(P0), n, i) == Add(Q, Times(base + i, D)) <==>
        P0.Affine? && (i == 0 || !Collides(t, P0.x, n) || (P0.x != Step(t, i).x && P0.y == Step(t, i).y))
  {
    hide Times, OnCurve, Add, Associative, KilledBy, Prime, CombTable, Step, Slope, Opposite, AlongSlope, ChordOf;
    var P0 := Add(Q, Times(base, D));
    TableLength(t, D);
    if i > 0 {
      CandidateStep(t, D, Q, base, i);
      var M := Step(t, i);
      StepIs(t, D, i);
      if P0.Infinity? {
        AddInfinity(M);
        InfinityIsWrong(t, D, n, i);
      } else if Collides(t, P0.x, n) {
        ZeroSlope(P0, M);
        FlatLine(P0, M);
      } else {
        DifferentX(P0, M);
        AddIs(P0, M);
      }
    }
  }

  // ---- runs that fail ----

  /** -(A + B) + A = -B. */
  lemma NegOfSum(A: Point, B: Point)
    requires CurveGroup() && OnCurve(A) && OnCurve(B)
    ensures OnCurve(Neg(Add(A, B))) && Add(Neg(Add(A, B)), A) == Neg(B)
  {
    hide OnCurve, Add, Neg, Associative, Prime;
    AddCloses(A, B);
    var M := Neg(Add(A, B));
    NegOnCurve(Add(A, B));
    AddCloses(M, A);
    Regroup(M, A, B);
    Commutes(Add(M, A), B);
    NegUnique(B, Add(M, A));
  }

  /** For every base and every later slot j of the run there is a Q_base for which the run fails there:
      with Q_base = -(base + j) D the candidate is infinity, P0 is -j D, which collides with step j, and
      slot j holds coordinates all the same. */
  lemma CollidingRun(t: seq<Byte>, D: Point, base: nat, n: nat, j: nat)
    requires Secp256k1() && OnCurve(D) && D.Affine? && CombTable(t, D) && 1 <= j < n <= 256
    ensures |t| >= WINDOW_BYTES
    ensures var Q := Neg(Times(base + j, D)); var P0 := Add(Q, Times(base, D));
      && OnCurve(Q) && P0 == Neg(Times(j, D)) && P0.Affine? && Collides(t, P0.x, n)
      && Add(Q, Times(base + j, D)) == Infinity
      && Slot(t, Held(P0), n, j) != Add(Q, Times(base + j, D))
  {
    hide Times, OnCurve, Add, Associative, KilledBy, Prime, CombTable, Step, AlongSlope, ChordOf;
    TableLength(t, D);
    StepIs(t, D, j);
    TimesCloses(base, D); TimesCloses(j, D); TimesCloses(base + j, D);
    TimesAdd(base, j, D);
    NegOfSum(Times(base, D), Times(j, D));
    NegOnCurve(Times(base + j, D));
    Commutes(Times(base + j, D), Neg(Times(base + j, D)));
    assert Step(t, j).x == Neg(Times(j, D)).x;
  }

  /** For every base there is a Q_base for which no slot of the run is right: with Q_base = -base D the
      run starts at infinity. */
  lemma InfiniteRun(t: seq<Byte>, D: Point, base: nat, n: nat, i: nat)
    requires Secp256k1() && OnCurve(D) && D.Affine? && CombTable(t, D) && i < n <= 256
    ensures |t| >= WINDOW_BYTES
    ensures var Q := Neg(Times(base, D)); var P0 := Add(Q, Times(base, D));
      OnCurve(Q) && P0 == Infinity && Slot(t, Held(P0), n, i) != Add(Q, Times(base + i, D))
  {
    hide Times, OnCurve, Add, Neg, Associative, KilledBy, Prime, CombTable, Step, Slot, Collides;
    TableLength(t, D);
    TimesCloses(base, D);
    NegOnCurve(Times(base, D));
    SlotIsCandidate(t, D, Neg(Times(base, D)), base, n, i);
  }

  /** The two smallest instances: Q_base = -D with base 0, and with base 1. */
  lemma FailingInputs(t: seq<Byte>, D: Point, n: nat)
    requires Secp256k1() && OnCurve(D) && D.Affine? && CombTable(t, D) && 2 <= n <= 256
    ensures |t| >= WINDOW_BYTES && OnCurve(Neg(D))
    ensures var P0 := Add(Neg(D), Times(0, D));
      P0 == Neg(D) && Collides(t, P0.x, n) && Slot(t, Held(P0), n, 1) != Add(Neg(D), Times(1, D))
    ensures var P0 := Add(Neg(D), Times(1, D));
      P0 == Infinity && Slot(t, Held(P0), n, 1) != Add(Neg(D), Times(2, D))
  {
    hide Times, OnCurve, Add, Neg, Associative, KilledBy, Prime, CombTable, Step, Slot, Collides;
    TimesOne(D);
    CollidingRun(t, D, 0, n, 1);
    InfiniteRun(t, D, 1, n, 1);
  }

  lemma DifferentX(A: Point, B: Point)
    requires A.Affine? && B.Affine? && A.x != B.x
    ensures !Opposite(A, B)
  {
  }

  // ---- the two passes ----

  /** A field element by value, as the array of prefix products keeps them. */
  datatype Element = Element(n0: Word, n1: Word, n2: Word, n3: Word)

  ghost function ElementValue(e: Element): int { Val4(e.n0, e.n1, e.n2, e.n3) }

  method Save(a: array<Word>) returns (e: Element)
    requires a.Length == 4
    ensures ElementValue(e) == Val(a)
  {
    e := Element(a[0], a[1], a[2], a[3]);
  }

  method Restore(e: Element) returns (a: array<Word>)
    ensures fresh(a) && a.Length == 4 && Val(a) == ElementValue(e)
  {
    a := new Word[4];
    a[0], a[1], a[2], a[3] := e.n0, e.n1, e.n2, e.n3;
  }

  /** The steps of the run have canonical coordinates. */
  ghost predicate StepsCanonical(t: seq<Byte>, n: nat)
    requires |t| >= WINDOW_BYTES && 1 <= n <= 256
  {
    forall i :: 1 <= i < n ==> InRange(Step(t, i).x) && InRange(Step(t, i).y)
  }

  /** mx := (iD).x and delta := mx - px. */
  method LoadDelta(table: array<Byte>, i: nat, px: array<Word>, mx: array<Word>, delta: array<Word>)
    requires table.Length >= WINDOW_BYTES && 1 <= i < 256
    requires px.Length == 4 && mx.Length == 4 && delta.Length == 4 && mx != delta && px != mx && px != delta
    requires InRange(Val(px)) && InRange(Step(table[..], i).x)
    modifies mx, delta
    ensures Val(mx) == Step(table[..], i).x && Val(delta) == FSub(Val(mx), Val(px))
  {
    hide Val, Number, InRange, FSub;
    var buf := new Byte[64](_ => 0);
    var e := EntryAt(0, i);
    CopyBytes(table, e, buf, 32);
    FeFromLe32(buf, 0, mx);
    assert buf[0..32] == buf[..32] == table[e..e + 32] == table[..][e..e + 32];
    FeSub(delta, mx, px);
  }

  lemma PartialNone(ds: seq<int>)
    ensures Partial(ds, 0) == 1
  {
  }

  lemma PartialNext(t: seq<Byte>, x: int, n: nat, j: nat)
    requires |t| >= WINDOW_BYTES && 1 <= n <= 256 && j < n - 1
    ensures var ds := Deltas(t, x, n); Partial(ds, j + 1) == FMul(Partial(ds, j), FSub(Step(t, j + 1).x, x))
  {
    hide FMul, FSub, Step;
  }

  /** The forward pass: pref[j] is the product of the deltas before j, and acc the product of all. */
  method Forward(table: array<Byte>, px: array<Word>, n: nat) returns (pref: array<Element>, acc: array<Word>)
    requires table.Length >= WINDOW_BYTES && px.Length == 4 && 1 <= n <= 256
    requires InRange(Val(px)) && StepsCanonical(table[..], n)
    ensures fresh(pref) && pref.Length == n && fresh(acc) && acc.Length == 4
    ensures var ds := Deltas(table[..], Val(px), n);
      Val(acc) == Partial(ds, n - 1) && forall j :: 0 <= j < n - 1 ==> ElementValue(pref[j]) == Partial(ds, j)
  {
    hide Val, InRange, FSub, FMul, ElementValue, Step, Partial, Deltas;
    ghost var t, x := table[..], Val(px);
    ghost var ds := Deltas(t, x, n);
    PartialNone(ds);
    acc := new Word[4];
    FeSetOne(acc);
    var zero := Element(0, 0, 0, 0);
    pref := new Element[n](_ => zero);
    var mx, delta := new Word[4], new Word[4];
    for j := 0 to n - 1
      invariant Val(acc) == Partial(ds, j)
      invariant forall k :: 0 <= k < j ==> ElementValue(pref[k]) == Partial(ds, k)
    {
      PartialNext(t, x, n, j);
      LoadDelta(table, j + 1, px, mx, delta);
      var e := Save(acc);
      pref[j] := e;
      FeMul(acc, acc, delta);
    }
  }

  lemma FSubOfMod(a: int, b: int)
    ensures FSub(a % P, b) == (a - b) % P
  {
    hide Cong;
    InField(a);
    CongSame(b, P);
    CongSub(a % P, a, b, b, P);
    SameResidue(a % P - b, a - b, P);
  }

  lemma FMulOfMod(l: int, a: int)
    ensures FMul(l, a % P) == (l * a) % P && FMul(a % P, l) == (a * l) % P
  {
    hide Cong;
    InField(a);
    CongSame(l, P);
    CongMul(l, l, a % P, a, P);
    CongMul(a % P, a, l, l, P);
    SameResidue(l * (a % P), l * a, P);
    SameResidue((a % P) * l, a * l, P);
  }

  /** One affine addition with a given inverse of the difference of the x coordinates. */
  method AffineStep(px: array<Word>, py: array<Word>, mx: array<Word>, my: array<Word>, invj: array<Word>,
                    xi: array<Word>, yi: array<Word>)
    requires px.Length == 4 && py.Length == 4 && mx.Length == 4 && my.Length == 4 && invj.Length == 4
    requires xi.Length == 4 && yi.Length == 4 && xi != yi && {px, py, mx, my, invj} !! {xi, yi}
    requires InRange(Val(px)) && InRange(Val(py)) && InRange(Val(mx)) && InRange(Val(my))
    modifies xi, yi
    ensures var l := ((Val(my) - Val(py)) * Val(invj)) % P;
      Affine(Val(xi), Val(yi)) == AlongSlope(l, Affine(Val(px), Val(py)), Affine(Val(mx), Val(my)))
    ensures InRange(Val(xi)) && InRange(Val(yi))
  {
    hide Val, InRange, FSub, FMul;
    ghost var vx, vy, wx, wy, v := Val(px), Val(py), Val(mx), Val(my), Val(invj);
    var lam, tt := new Word[4], new Word[4];
    FeSub(tt, my, py);
    FeMul(lam, tt, invj); ghost var l := Val(lam);
    FeSqr(tt, lam); ghost var s0 := Val(tt);
    FeSub(xi, tt, px); ghost var s1 := Val(xi);
    FeSub(xi, xi, mx);
    FeSub(tt, px, xi); ghost var s2 := Val(tt);
    FeMul(yi, lam, tt); ghost var s3 := Val(yi);
    FeSub(yi, yi, py);
    AffineStepIs(vx, vy, wx, wy, v, FSub(wy, vy), l, s0, s1, Val(xi), s2, s3, Val(yi));
  }

  lemma AffineStepIs(px: int, py: int, mx: int, my: int, v: int, tt: int, l: int, s0: int, s1: int, xi: int,
                     s2: int, s3: int, yi: int)
    requires tt == FSub(my, py) && l == FMul(tt, v) && s0 == FMul(l, l) && s1 == FSub(s0, px) && xi == FSub(s1, mx)
    requires s2 == FSub(px, xi) && s3 == FMul(l, s2) && yi == FSub(s3, py)
    ensures l == ((my - py) * v) % P && Affine(xi, yi) == AlongSlope(l, Affine(px, py), Affine(mx, my))
  {
    FMulOfMod(v, my - py);
    FSubOfMod(l * l, px);
    FSubOfMod(l * l - px, mx);
    FMulOfMod(l, px - xi);
    FSubOfMod(l * (px - xi), py);
  }

  /** The slope that the shared inverse gives at step i. */
  lemma RunSlope(t: seq<Byte>, P0: Point, n: nat, i: nat)
    requires Prime(P) && |t| >= WINDOW_BYTES && 1 <= i < n <= 256 && P0.Affine? && InRange(P0.x) && StepsCanonical(t, n)
    ensures var ds, M := Deltas(t, P0.x, n), Step(t, i);
      ((M.y - P0.y) * SharedInverse(ds, i - 1)) % P == if Collides(t, P0.x, n) then 0 else ChordOf(P0, M)
  {
    hide Prime, Step, Inverse, FMul, Cong, SharedInverse, Deltas, Collides, SomeZero;
    var ds, M := Deltas(t, P0.x, n), Step(t, i);
    DeltaAt(t, P0.x, n, i - 1);
    ZeroDelta(t, P0.x, n);
    BatchInverse(ds, i - 1);
    InverseOfResidue(M.x - P0.x);
    ZeroProduct(M.y - P0.y);
  }

  lemma DeltaAt(t: seq<Byte>, x: int, n: nat, j: nat)
    requires |t| >= WINDOW_BYTES && 1 <= n <= 256 && j < n - 1
    ensures Deltas(t, x, n)[j] == (Step(t, j + 1).x - x) % P
  {
    hide Step;
  }

  lemma ZeroProduct(a: int)
    ensures (a * 0) % P == 0
  {
    ModUnique(0, P, 0, 0);
  }

  lemma ZeroDelta(t: seq<Byte>, x: int, n: nat)
    requires |t| >= WINDOW_BYTES && 1 <= n <= 256 && InRange(x) && StepsCanonical(t, n)
    ensures SomeZero(Deltas(t, x, n)) <==> Collides(t, x, n)
  {
    hide Step;
    var ds := Deltas(t, x, n);
    if SomeZero(ds) {
      var j :| 0 <= j < |ds| && ds[j] % P == 0;
      DeltaIsZero(Step(t, j + 1).x, x);
    }
    if Collides(t, x, n) {
      var i :| 1 <= i < n && Step(t, i).x == x;
      DeltaIsZero(Step(t, i).x, x);
      assert ds[i - 1] % P == 0;
    }
  }

  lemma DeltaIsZero(a: int, b: int)
    requires InRange(a) && InRange(b)
    ensures FSub(a, b) % P == 0 <==> a == b
  {
    CongMod(a - b, P);
    if a != b { SmallNonzero(a - b); } else { ModUnique(0, P, 0, 0); }
  }

  lemma InverseOfResidue(a: int)
    ensures Inverse(a % P) == Inverse(a)
  {
    hide Pow, Cong;
    InField(a);
    CongPow(a % P, a, P - 2, P);
    SameResidue(Pow(a % P, P - 2), Pow(a, P - 2), P);
  }
}

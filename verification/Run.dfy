/** The kernel's run: P0, the shared inversion, and every candidate hashed, matched and claimed. */
module Run {
  import opened NumberTheory
  import opened Words
  import opened Field
  import opened FieldMul
  import opened FieldInverse
  import opened Curve
  import opened Group
  import opened Order
  import opened Jacobian
  import opened Wire
  import opened Comb
  import opened Address
  import opened Batch

  // ---- the result slots ----

  datatype Outcome = Outcome(found: int, address: seq<bv8>, nonce: int)

  /** The memory a launch shares: the found flag and the winner's address and nonce. */
  class Results {
    const address: array<bv8>
    var nonce: Word
    var found: int

    constructor ()
      ensures Valid() && fresh(address) && found == 0
    {
      address := new bv8[20](_ => 0);
      nonce := 0;
      found := 0;
    }

    ghost predicate Valid() { address.Length == 20 }

    ghost function State(): Outcome
      reads this, address
    {
      Outcome(found, address[..], nonce)
    }
  }

  /** One candidate's effect: the first match of a launch takes the slots. */
  function Offer(o: Outcome, a: Addr, nonce: int, prefix: seq<bv8>, suffix: seq<bv8>): Outcome
    requires |prefix| <= 20 && |suffix| <= 20
  {
    if MatchesPattern(a, prefix, suffix) && o.found == 0 then Outcome(1, a, nonce) else o
  }

  /** The compare-and-swap of found from 0 to 1, and the writes of the thread that wins it. */
  method Claim(res: Results, addr: array<bv8>, nonce: Word)
    requires res.Valid() && addr.Length == 20 && addr != res.address
    modifies res, res.address
    ensures res.State() == if old(res.found) == 0 then Outcome(1, addr[..], nonce) else old(res.State())
  {
    if res.found == 0 {
      res.found := 1;
      for b := 0 to 20
        invariant res.found == 1
        invariant forall k :: 0 <= k < b ==> res.address[k] == addr[k]
      {
        res.address[b] := addr[b];
      }
      res.nonce := nonce;
      assert res.address[..] == addr[..];
    }
  }

  /** Hashes a candidate's key, tests the pattern and, on a match, tries to claim the slots. */
  method TryCandidate(x: array<Word>, y: array<Word>, nonce: Word, prefix: seq<bv8>, suffix: seq<bv8>, res: Results)
    requires x.Length == 4 && y.Length == 4 && |prefix| <= 20 && |suffix| <= 20 && res.Valid()
    modifies res, res.address
    ensures res.State() == Offer(old(res.State()), AddressOf(old(Val(x)), old(Val(y))), nonce, prefix, suffix)
  {
    hide Val, AddressOf, MatchesPattern;
    var addr := AffineToAddr(x, y);
    var hit := NickMatch(addr, prefix, suffix);
    if hit {
      Claim(res, addr, nonce);
    }
  }

  // ---- the whole run ----

  /** The address of an affine point with canonical coordinates. */
  function PointAddress(A: Point): Addr
    requires A.Affine?
  {
    AddressOf(A.x, A.y)
  }

  /** The addresses that the run computes for its slots. */
  function SlotAddresses(t: seq<Byte>, P0: Point, n: nat): (a: seq<Addr>)
    requires |t| >= WINDOW_BYTES && 1 <= n <= 256 && P0.Affine?
    ensures |a| == n
  {
    seq<Addr>(n, i requires 0 <= i < n => PointAddress(Slot(t, P0, n, i)))
  }

  /** The nonce that goes with slot i, in 64 bits. */
  function ReportedNonce(base: nat, i: nat): Word { (base + i) % B64 }

  /** The slots after the candidates 0 and n-1 down to k were offered, in the kernel's order. */
  ghost function Offered(o: Outcome, a: seq<Addr>, base: nat, k: nat, prefix: seq<bv8>, suffix: seq<bv8>): Outcome
    requires 1 <= k <= |a| && |prefix| <= 20 && |suffix| <= 20
    decreases |a| - k
  {
    if k == |a| then Offer(o, a[0], ReportedNonce(base, 0), prefix, suffix)
    else Offer(Offered(o, a, base, k + 1, prefix, suffix), a[k], ReportedNonce(base, k), prefix, suffix)
  }

  /** Candidate i is 0 or at least k, and matches. */
  predicate Hit(a: seq<Addr>, k: nat, i: nat, prefix: seq<bv8>, suffix: seq<bv8>)
    requires |prefix| <= 20 && |suffix| <= 20
  {
    i < |a| && (i == 0 || k <= i) && MatchesPattern(a[i], prefix, suffix)
  }

  /** Slot i was claimed, and nothing offered before it matched. */
  ghost predicate Wins(r: Outcome, a: seq<Addr>, base: nat, k: nat, i: nat, prefix: seq<bv8>, suffix: seq<bv8>)
    requires |prefix| <= 20 && |suffix| <= 20
  {
    && Hit(a, k, i, prefix, suffix) && r.nonce == ReportedNonce(base, i) && r.address == a[i]
    && forall j: nat :: Hit(a, k, j, prefix, suffix) ==> i == 0 || 0 < j <= i
  }

  /** A run claims exactly when nobody claimed before and some slot matches; the claimed slots hold the
      address computed for the claimed nonce; slot 0 goes first, then the highest slot. */
  lemma {:induction false} OfferedIs(o: Outcome, a: seq<Addr>, base: nat, k: nat, prefix: seq<bv8>, suffix: seq<bv8>)
    requires 1 <= k <= |a| && |prefix| <= 20 && |suffix| <= 20 && 0 <= o.found <= 1
    ensures var r := Offered(o, a, base, k, prefix, suffix);
      && (o.found == 1 ==> r == o)
      && (o.found == 0 && r.found == 0 ==> r == o)
      && (o.found == 0 && (forall i :: !Hit(a, k, i, prefix, suffix)) ==> r == o)
      && (o.found == 0 && r != o ==> r.found == 1 && exists i :: Wins(r, a, base, k, i, prefix, suffix))
      && (o.found == 0 && (exists i :: Hit(a, k, i, prefix, suffix)) ==> r.found == 1)
    decreases |a| - k
  {
    hide MatchesPattern;
    if k == |a| {
      if o.found == 0 && Hit(a, k, 0, prefix, suffix) {
        assert Wins(Offered(o, a, base, k, prefix, suffix), a, base, k, 0, prefix, suffix);
      }
    } else {
      OfferedIs(o, a, base, k + 1, prefix, suffix);
      var q, r := Offered(o, a, base, k + 1, prefix, suffix), Offered(o, a, base, k, prefix, suffix);
      assert forall i :: Hit(a, k, i, prefix, suffix) ==> i == k || Hit(a, k + 1, i, prefix, suffix);
      assert forall i :: Hit(a, k + 1, i, prefix, suffix) ==> Hit(a, k, i, prefix, suffix);
      if o.found == 0 && q != o {
        var i :| Wins(q, a, base, k + 1, i, prefix, suffix);
        assert Wins(r, a, base, k, i, prefix, suffix);
      } else if o.found == 0 && r != o {
        assert Wins(r, a, base, k, k, prefix, suffix);
      }
    }
  }

  /** Loads step j + 1 and its delta. */
  method LoadStep(table: array<Byte>, i: nat, px: array<Word>, mx: array<Word>, my: array<Word>, delta: array<Word>)
    requires table.Length >= WINDOW_BYTES && 1 <= i < 256
    requires px.Length == 4 && mx.Length == 4 && my.Length == 4 && delta.Length == 4
    requires mx != my && my != delta && mx != delta && px !in {mx, my, delta}
    requires InRange(Val(px)) && InRange(Step(table[..], i).x)
    modifies mx, my, delta
    ensures Affine(Val(mx), Val(my)) == Step(table[..], i) && Val(delta) == FSub(Val(mx), Val(px))
  {
    hide Val, InRange, FSub, PointAt;
    LoadPoint(table, EntryAt(0, i), mx, my);
    FeSub(delta, mx, px);
  }

  /** One backward step: slot j + 1 from the running inverse, which loses delta j. */
  method BackwardStep(table: array<Byte>, j: nat, n: nat, px: array<Word>, py: array<Word>, pref: array<Element>,
                      inv: array<Word>, xi: array<Word>, yi: array<Word>)
    requires table.Length >= WINDOW_BYTES && px.Length == 4 && py.Length == 4 && inv.Length == 4
    requires xi.Length == 4 && yi.Length == 4 && xi != yi && {px, py} !! {inv, xi, yi} && inv !in {xi, yi}
    requires j + 1 < n <= 256 && pref.Length == n && Prime(P)
    requires InRange(Val(px)) && InRange(Val(py)) && StepsCanonical(table[..], n)
    requires var ds := Deltas(table[..], Val(px), n);
      ElementValue(pref[j]) == Partial(ds, j) && Val(inv) == Peeled(ds, j + 1)
    modifies inv, xi, yi
    ensures Val(inv) == Peeled(Deltas(table[..], Val(px), n), j)
    ensures Affine(Val(xi), Val(yi)) == Slot(table[..], Affine(Val(px), Val(py)), n, j + 1)
    ensures InRange(Val(xi)) && InRange(Val(yi))
  {
    hide Val, InRange, FMul, FSub, Partial, Deltas, Collides, ChordOf, AlongSlope, Prime, SharedInverse,
         Peeled, ElementValue, PointAt, Step;
    ghost var t, P0 := table[..], Affine(Val(px), Val(py));
    PeeledNext(t, P0.x, n, j);
    RunSlope(t, P0, n, j + 1);
    var mx, my, delta, invj := new Word[4], new Word[4], new Word[4], new Word[4];
    LoadStep(table, j + 1, px, mx, my, delta);
    var p := Restore(pref[j]);
    FeMul(invj, inv, p);
    FeMul(inv, inv, delta);
    AffineStep(px, py, mx, my, invj, xi, yi);
  }

  lemma PeeledNext(t: seq<Byte>, x: int, n: nat, j: nat)
    requires |t| >= WINDOW_BYTES && j + 1 < n <= 256
    ensures var ds := Deltas(t, x, n);
      && Peeled(ds, j) == FMul(Peeled(ds, j + 1), FSub(Step(t, j + 1).x, x))
      && SharedInverse(ds, j) == FMul(Peeled(ds, j + 1), Partial(ds, j))
  {
    hide FMul, FSub, Step, Partial;
  }

  /** P0 = Q_base + base D in affine coordinates, with (0, 0) for infinity. */
  method StartPoint(table: array<Byte>, q: array<Byte>, base: Word, ghost D: Point)
    returns (px: array<Word>, py: array<Word>)
    requires Secp256k1() && OnCurve(D) && D.Affine? && CombTable(table[..], D)
    requires q.Length == 64 && OnCurve(PointAt(q[..], 0))
    ensures fresh(px) && fresh(py) && px != py && px.Length == 4 && py.Length == 4
    ensures Affine(Val(px), Val(py)) == Held(Add(PointAt(q[..], 0), Times(base, D)))
    ensures InRange(Val(px)) && InRange(Val(py))
  {
    hide Val, InRange, Times, OnCurve, Add, Associative, KilledBy, Prime, PointAt, CombTable, JacPoint;
    var p0 := new Jac();
    NickAccForK(table, q, base, p0, D);
    px, py := new Word[4], new Word[4];
    JacToAffine(p0, px, py);
  }

  lemma StepsAreCanonical(t: seq<Byte>, D: Point, n: nat)
    requires Secp256k1() && OnCurve(D) && D.Affine? && CombTable(t, D) && 1 <= n <= 256
    ensures |t| >= WINDOW_BYTES && StepsCanonical(t, n)
  {
    hide Times, OnCurve, Associative, KilledBy, Prime, CombTable, Step, InRange;
    TableLength(t, D);
    forall i | 1 <= i < n
      ensures InRange(Step(t, i).x) && InRange(Step(t, i).y)
    {
      StepIs(t, D, i);
    }
  }

  lemma SlotAddressIs(t: seq<Byte>, P0: Point, n: nat, i: nat, x: int, y: int)
    requires |t| >= WINDOW_BYTES && 1 <= n <= 256 && i < n && P0.Affine?
    requires Affine(x, y) == Slot(t, P0, n, i)
    ensures SlotAddresses(t, P0, n)[i] == AddressOf(x, y)
  {
    hide Slot, AddressOf;
  }

  /** Offers the candidates of a run from P0 on: slot 0, then slots n-1 down to 1. */
  method OfferAll(table: array<Byte>, px: array<Word>, py: array<Word>, base: Word, n: nat,
                  prefix: seq<bv8>, suffix: seq<bv8>, res: Results)
    requires table.Length >= WINDOW_BYTES && px.Length == 4 && py.Length == 4 && px != py && 1 <= n <= 256 && Prime(P)
    requires InRange(Val(px)) && InRange(Val(py)) && StepsCanonical(table[..], n)
    requires |prefix| <= 20 && |suffix| <= 20 && res.Valid()
    modifies res, res.address
    ensures var a := old(SlotAddresses(table[..], Affine(Val(px), Val(py)), n));
      res.State() == Offered(old(res.State()), a, base, 1, prefix, suffix)
  {
    hide Val, InRange, FMul, FSub, Partial, Deltas, Prime, Peeled, ElementValue, Slot, AddressOf, Step,
         SlotAddresses, Offer, Inverse;
    ghost var t, P0, o := table[..], Affine(Val(px), Val(py)), res.State();
    ghost var ds, a := Deltas(t, P0.x, n), SlotAddresses(t, P0, n);
    var pref, acc := Forward(table, px, n);
    ghost var saved := pref[..];
    assert forall j :: 0 <= j < n - 1 ==> ElementValue(saved[j]) == Partial(ds, j);
    var inv := new Word[4];
    FeInv(inv, acc);
    PeeledStart(ds);
    TryCandidate(px, py, base, prefix, suffix, res);
    SlotZero(t, P0, n);
    SlotAddressIs(t, P0, n, 0, P0.x, P0.y);
    var xi, yi := new Word[4], new Word[4];
    for j := n - 1 downto 0
      invariant Val(inv) == Peeled(ds, j) && pref[..] == saved
      invariant res.State() == Offered(o, a, base, j + 1, prefix, suffix)
    {
      assert pref[j] == saved[j];
      BackwardStep(table, j, n, px, py, pref, inv, xi, yi);
      SlotAddressIs(t, P0, n, j + 1, Val(xi), Val(yi));
      TryCandidate(xi, yi, ReportedNonce(base, j + 1), prefix, suffix, res);
    }
  }

  lemma PeeledStart(ds: seq<int>)
    ensures Peeled(ds, |ds|) == Pow(Partial(ds, |ds|), P - 2) % P
  {
    hide Pow, Partial;
  }

  lemma SlotZero(t: seq<Byte>, P0: Point, n: nat)
    requires |t| >= WINDOW_BYTES && 1 <= n <= 256 && P0.Affine?
    ensures Slot(t, P0, n, 0) == P0
  {
  }

  // ---- the run against the group ----

  /** The key of candidate k. */
  function Candidate(Q: Point, D: Point, k: nat): Point { Add(Q, Times(k, D)) }

  /** The deployment address of candidate k. */
  ghost function CandidateAddress(Q: Point, D: Point, k: nat): Addr {
    PointAddress(Held(Candidate(Q, D, k)))
  }

  lemma CandidateAddressIs(Q: Point, D: Point, k: nat)
    ensures CandidateAddress(Q, D, k) == PointAddress(Held(Candidate(Q, D, k)))
  {
    hide PointAddress, Candidate;
  }

  ghost function CandidateAddresses(Q: Point, D: Point, base: nat, n: nat): (a: seq<Addr>)
    ensures |a| == n
  {
    seq<Addr>(n, i requires 0 <= i < n => CandidateAddress(Q, D, base + i))
  }

  /** P0 is a proper point and no candidate's step shares its x coordinate. */
  ghost predicate CleanRun(t: seq<Byte>, Q: Point, D: Point, base: nat, n: nat)
    requires |t| >= WINDOW_BYTES && 1 <= n <= 256
  {
    var P0 := Candidate(Q, D, base); P0.Affine? && !Collides(t, P0.x, n)
  }

  /** In a clean run every slot's address is its candidate's. */
  lemma CleanAddresses(t: seq<Byte>, D: Point, Q: Point, base: nat, n: nat)
    requires Secp256k1() && OnCurve(D) && D.Affine? && OnCurve(Q) && CombTable(t, D) && 1 <= n <= 256
    requires |t| >= WINDOW_BYTES && CleanRun(t, Q, D, base, n)
    ensures SlotAddresses(t, Held(Candidate(Q, D, base)), n) == CandidateAddresses(Q, D, base, n)
  {
    hide Times, OnCurve, Add, Associative, KilledBy, Prime, CombTable, Slot, AddressOf, InRange, Step,
         Collides, Slope, CandidateAddress, PointAddress;
    var P0 := Candidate(Q, D, base);
    forall i | 0 <= i < n
      ensures SlotAddresses(t, P0, n)[i] == CandidateAddresses(Q, D, base, n)[i]
    {
      SlotIsCandidate(t, D, Q, base, n, i);
      CandidateAddressIs(Q, D, base + i);
    }
  }

  /** Q + k D is the point at infinity, for any integer k. */
  ghost predicate AtInfinity(Q: Point, D: Point, k: int) {
    if k >= 0 then Candidate(Q, D, k) == Infinity else Q == Times(-k, D)
  }

  lemma OppositeIff(A: Point, B: Point)
    requires CurveGroup() && OnCurve(A) && OnCurve(B)
    ensures Add(A, B) == Infinity <==> A == Neg(B)
  {
    hide OnCurve, Add, Neg, Associative, Prime;
    NegOnCurve(B);
    if Add(A, B) == Infinity {
      Commutes(A, B);
      NegUnique(B, A);
    }
  }

  lemma SameXIff(A: Point, B: Point)
    requires CurveGroup() && OnCurve(A) && OnCurve(B) && B.Affine?
    ensures A.Affine? && A.x == B.x <==> A == B || A == Neg(B)
  {
    hide Prime, OnCurve, Associative;
    if A.Affine? && A.x == B.x {
      SameX(A, B);
      if Opposite(A, B) { OppositeIff(A, B); }
    }
  }

  lemma CancelRight(X: Point, Y: Point, B: Point)
    requires CurveGroup() && OnCurve(X) && OnCurve(Y) && OnCurve(B)
    ensures Add(X, B) == Add(Y, B) <==> X == Y
  {
    hide OnCurve, Add, Neg, Associative, Prime;
    NegOnCurve(B);
    Regroup(X, B, Neg(B)); Regroup(Y, B, Neg(B));
    AddInfinity(X); AddInfinity(Y);
  }

  /** P0 = Q + base D is i D or -i D exactly when Q + (base - i) D or Q + (base + i) D is infinity. */
  lemma StartIsMultiple(Q: Point, D: Point, base: nat, i: nat)
    requires Secp256k1() && OnCurve(Q) && OnCurve(D)
    ensures Candidate(Q, D, base) == Neg(Times(i, D)) <==> AtInfinity(Q, D, base + i)
    ensures Candidate(Q, D, base) == Times(i, D) <==> AtInfinity(Q, D, base - i)
  {
    hide Times, OnCurve, Add, Neg, Associative, KilledBy, Prime;
    var B, T := Times(base, D), Times(i, D);
    TimesCloses(base, D); TimesCloses(i, D); AddCloses(Q, B);
    Regroup(Q, B, T);
    TimesAdd(base, i, D);
    OppositeIff(Add(Q, B), T);
    if i <= base {
      var S := Times(base - i, D);
      TimesCloses(base - i, D);
      TimesAdd(base - i, i, D);
      Regroup(Q, S, T);
      AddInfinity(T);
      CancelRight(Add(Q, S), Infinity, T);
    } else {
      TimesCloses(i - base, D);
      TimesAdd(i - base, base, D);
      CancelRight(Q, Times(i - base, D), B);
    }
  }

  /** A run is clean exactly when none of its candidates, nor one of the n - 1 before or after its base,
      is the point at infinity: Q_base avoids 2 n - 1 multiples of D. */
  lemma CleanRunIff(t: seq<Byte>, Q: Point, D: Point, base: nat, n: nat)
    requires Secp256k1() && OnCurve(D) && D.Affine? && OnCurve(Q) && CombTable(t, D) && 1 <= n <= 256
    ensures |t| >= WINDOW_BYTES
    ensures CleanRun(t, Q, D, base, n) <==> forall k :: base - n < k < base + n ==> !AtInfinity(Q, D, k)
  {
    hide Times, OnCurve, Add, Neg, Associative, KilledBy, Prime, CombTable, Step, AtInfinity, Candidate;
    TableLength(t, D);
    var P0 := Candidate(Q, D, base);
    CandidateOnCurve(Q, D, base);
    StartIsMultiple(Q, D, base, 0);
    StartAtInfinity(Q, D, base);
    forall j | 1 <= j < n
      ensures P0.Affine? && Step(t, j).x == P0.x <==> AtInfinity(Q, D, base + j) || AtInfinity(Q, D, base - j)
    {
      StepIs(t, D, j);
      SameXIff(P0, Step(t, j));
      StartIsMultiple(Q, D, base, j);
    }
    if CleanRun(t, Q, D, base, n) {
      forall k | base - n < k < base + n
        ensures !AtInfinity(Q, D, k)
      {
        var j := if k < base then base - k else k - base;
        assert j > 0 ==> 1 <= j < n && Step(t, j).x != P0.x;
      }
    }
  }

  lemma CandidateOnCurve(Q: Point, D: Point, k: nat)
    requires Secp256k1() && OnCurve(D) && OnCurve(Q)
    ensures OnCurve(Candidate(Q, D, k))
  {
    hide Times, OnCurve, Add, Associative, KilledBy, Prime;
    TimesCloses(k, D);
    AddCloses(Q, Times(k, D));
  }

  lemma StartAtInfinity(Q: Point, D: Point, k: nat)
    ensures AtInfinity(Q, D, k) <==> !Candidate(Q, D, k).Affine?
  {
    hide Candidate;
  }

  /** A run of n candidates from base on. In a clean run the result is what offering the candidates
      Q_base + base D to Q_base + (base + n - 1) D themselves would leave. */
  method NickMineRun(table: array<Byte>, q: array<Byte>, base: Word, n: nat, prefix: seq<bv8>, suffix: seq<bv8>,
                     res: Results, ghost D: Point)
    requires Secp256k1() && OnCurve(D) && D.Affine? && CombTable(table[..], D) && table.Length >= WINDOW_BYTES
    requires q.Length == 64 && OnCurve(PointAt(q[..], 0))
    requires 1 <= n <= 256 && |prefix| <= 20 && |suffix| <= 20 && res.Valid()
    modifies res, res.address
    ensures var Q, P0 := old(PointAt(q[..], 0)), old(Held(Candidate(PointAt(q[..], 0), D, base)));
      && res.State() == Offered(old(res.State()), old(SlotAddresses(table[..], P0, n)), base, 1, prefix, suffix)
      && (old(CleanRun(table[..], Q, D, base, n)) ==>
            res.State() == Offered(old(res.State()), CandidateAddresses(Q, D, base, n), base, 1, prefix, suffix))
  {
    hide Times, OnCurve, Add, Associative, KilledBy, Prime, CombTable, Val, InRange, PointAt, SlotAddresses, Offered,
         CandidateAddresses, CleanRun, StepsCanonical;
    ghost var t, Q := table[..], PointAt(q[..], 0);
    StepsAreCanonical(t, D, n);
    if CleanRun(t, Q, D, base, n) { CleanAddresses(t, D, Q, base, n); }
    var px, py := StartPoint(table, q, base, D);
    OfferAll(table, px, py, base, n, prefix, suffix, res);
  }

  /** The reported nonce is that of the slot's candidate unless base + i passes 2^64: the nonce wraps and
      the point does not. */
  lemma NonceIsCandidate(Q: Point, D: Point, base: Word, i: nat)
    requires Secp256k1() && OnCurve(Q) && OnCurve(D) && D.Affine? && i < 256
    ensures Candidate(Q, D, ReportedNonce(base, i)) == Candidate(Q, D, base + i) <==> base + i < B64
  {
    hide Times, OnCurve, Add, Associative, KilledBy, Prime;
    var k := ReportedNonce(base, i);
    if base + i < B64 {
      ModUnique(base + i, B64, 0, base + i);
    } else {
      ModUnique(base + i, B64, 1, base + i - B64);
      TimesAdd(k, B64, D);
      if Candidate(Q, D, k) == Candidate(Q, D, base + i) {
        FullTurn(Q, D, k);
      }
    }
  }

  /** 2^64 further on the key is another one. */
  lemma FullTurn(Q: Point, D: Point, k: nat)
    requires Secp256k1() && OnCurve(Q) && OnCurve(D) && D.Affine?
    ensures Candidate(Q, D, k) != Candidate(Q, D, k + B64)
  {
    hide Times, OnCurve, Add, Associative, KilledBy, Prime;
    var A, T := Candidate(Q, D, k), Times(B64, D);
    TimesCloses(k, D); TimesCloses(B64, D);
    AddCloses(Q, Times(k, D));
    TimesAdd(k, B64, D);
    Regroup(Q, Times(k, D), T);
    OrderIsLarge();
    ModUnique(B64, N, 0, B64);
    TimesIsInfinity(N, B64, D);
    if Add(A, T) == A { OnlyNeutral(A, T); }
  }

  lemma OnlyNeutral(A: Point, T: Point)
    requires CurveGroup() && OnCurve(A) && OnCurve(T) && Add(A, T) == A
    ensures T == Infinity
  {
    hide Times, OnCurve, Add, Neg, Associative, KilledBy, Prime;
    NegOnCurve(A);
    Regroup(Neg(A), A, T);
    AddInfinity(T);
  }

  /** Candidate k is in the run and its address matches. */
  ghost predicate RunHit(Q: Point, D: Point, base: nat, n: nat, k: nat, prefix: seq<bv8>, suffix: seq<bv8>)
    requires |prefix| <= 20 && |suffix| <= 20
  {
    base <= k < base + n && MatchesPattern(CandidateAddress(Q, D, k), prefix, suffix)
  }

  /** The slots hold candidate k's nonce, in 64 bits, and its address. */
  ghost predicate ReportsCandidate(r: Outcome, Q: Point, D: Point, k: nat) {
    r.nonce == k % B64 && r.address == CandidateAddress(Q, D, k)
  }

  /** A clean run on free slots claims exactly when one of its candidates matches; the nonce it stores
      is such a candidate and the address it stores is that candidate's. */
  lemma CleanRunReports(o: Outcome, Q: Point, D: Point, base: nat, n: nat, prefix: seq<bv8>, suffix: seq<bv8>)
    requires 1 <= n && |prefix| <= 20 && |suffix| <= 20 && o.found == 0
    ensures var r := Offered(o, CandidateAddresses(Q, D, base, n), base, 1, prefix, suffix);
      && (r.found == 1 <==> exists k: nat :: RunHit(Q, D, base, n, k, prefix, suffix))
      && (r.found == 1 ==> exists k: nat :: RunHit(Q, D, base, n, k, prefix, suffix) && ReportsCandidate(r, Q, D, k))
      && (r.found != 1 ==> r == o)
  {
    hide CandidateAddress, MatchesPattern, Offered;
    var a := CandidateAddresses(Q, D, base, n);
    OfferedIs(o, a, base, 1, prefix, suffix);
    var r := Offered(o, a, base, 1, prefix, suffix);
    if k: nat :| RunHit(Q, D, base, n, k, prefix, suffix) {
      assert Hit(a, 1, k - base, prefix, suffix);
    }
    if r != o {
      var i :| Wins(r, a, base, 1, i, prefix, suffix);
      assert RunHit(Q, D, base, n, base + i, prefix, suffix) && ReportsCandidate(r, Q, D, base + i);
    }
  }

  /** One thread of the kernel: it gives up at once when the flag is already set, and else runs the
      n candidates from start + gid * n on. */
  method MineNick(table: array<Byte>, q: array<Byte>, prefix: seq<bv8>, suffix: seq<bv8>, start: Word, gid: nat, n: nat,
                  res: Results, ghost D: Point)
    requires Secp256k1() && OnCurve(D) && D.Affine? && CombTable(table[..], D) && table.Length >= WINDOW_BYTES
    requires q.Length == 64 && OnCurve(PointAt(q[..], 0))
    requires 1 <= n <= 256 && |prefix| <= 20 && |suffix| <= 20 && res.Valid()
    requires 0 <= res.found <= 1
    modifies res, res.address
    ensures old(res.found) == 1 ==> res.State() == old(res.State())
    ensures var base := (start + gid * n) % B64;
      var P0 := old(Held(Candidate(PointAt(q[..], 0), D, (start + gid * n) % B64)));
      old(res.found) == 0 ==>
        res.State() == Offered(old(res.State()), old(SlotAddresses(table[..], P0, n)), base, 1, prefix, suffix)
    ensures var Q, base := old(PointAt(q[..], 0)), (start + gid * n) % B64;
      old(res.found) == 0 && old(CleanRun(table[..], Q, D, base, n)) ==>
        res.State() == Offered(old(res.State()), CandidateAddresses(Q, D, base, n), base, 1, prefix, suffix)
  {
    hide Times, OnCurve, Add, Associative, KilledBy, Prime, CombTable, InRange, PointAt, SlotAddresses, Offered,
         CandidateAddresses, CleanRun;
    if res.found != 0 { return; }
    var base: Word := (start + gid * n) % B64;
    NickMineRun(table, q, base, n, prefix, suffix, res, D);
  }
}

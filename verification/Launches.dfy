/** The search, put together: a launch on the precomputed table, and the whole GPU run, find exactly the
    signatures of their span. */
module Launches {
  import opened NumberTheory
  import opened Words
  import opened Curve
  import opened Group
  import opened Order
  import opened Wire
  import opened Comb
  import opened HostPrecompute
  import opened Address
  import opened Batch
  import opened Run
  import opened Race
  import opened Sweep
  import opened Kernel
  import opened Device
  import opened Search

  /** What one search works on: Q_base and D, and the signature data they came from. */
  datatype Job = Job(Q: Point, D: Point, R: Point, G: Point, r: int, sBase: nat, z: nat)
  {
    /** The points are on the curve, t is the comb table of D, and the candidates' keys are the recovered ones. */
    ghost predicate Prepared(t: seq<Byte>) {
      && Secp256k1() && OnCurve(Q) && OnCurve(D) && D.Affine? && |t| >= WINDOW_BYTES && CombTable(t, D)
      && LinearRecovery(Q, D, R, G, r, sBase, z)
    }

    /** The grid stays below 2^64, and none of its candidates, nor one of the n - 1 before it, is the point
        at infinity: Q_base avoids these multiples of D. */
    ghost predicate CleanGrid(start: nat, threads: nat, n: nat) {
      start + threads * n <= B64 && forall k :: start - n < k < start + threads * n ==> !AtInfinity(Q, D, k)
    }

    /** The run of thread g is clean. */
    ghost predicate RunIsClean(t: seq<Byte>, start: nat, n: nat, g: nat)
      requires |t| >= WINDOW_BYTES && 1 <= n <= 256
    {
      CleanRun(t, Q, D, start + g * n, n)
    }

    /** Nonce k signs for a matching address. */
    ghost predicate Hit(k: nat, prefix: seq<bv8>, suffix: seq<bv8>)
      requires |prefix| <= 20 && |suffix| <= 20
    {
      MatchesPattern(SignedAddress(R, G, r, sBase + k, z), prefix, suffix)
    }

    /** Some nonce from `start` up to `end` is a hit. */
    ghost predicate HitWithin(start: nat, end: nat, prefix: seq<bv8>, suffix: seq<bv8>)
      requires |prefix| <= 20 && |suffix| <= 20
    {
      exists k: nat :: start <= k < end && Hit(k, prefix, suffix)
    }

    /** The claimed nonce is a hit and the claimed address is its signature's. */
    ghost predicate ReportsAt(address: Addr, k: int, prefix: seq<bv8>, suffix: seq<bv8>)
      requires |prefix| <= 20 && |suffix| <= 20
    {
      k >= 0 && Hit(k, prefix, suffix) && address == SignedAddress(R, G, r, sBase + k, z)
    }

    /** The claimed nonce is a hit in that range and the claimed address is its signature's. */
    ghost predicate Reports(address: Addr, k: int, start: nat, end: nat, prefix: seq<bv8>, suffix: seq<bv8>)
      requires |prefix| <= 20 && |suffix| <= 20
    {
      start <= k < end && ReportsAt(address, k, prefix, suffix)
    }

    function Launched(t: seq<Byte>, start: Word, threads: nat, n: nat, prefix: seq<bv8>, suffix: seq<bv8>): Launch
      requires |t| >= WINDOW_BYTES && 1 <= n <= 256
    {
      KernelLaunch(t, Q, D, start, threads, n, prefix, suffix)
    }

    /** The run of thread g is clean, and its slot v is reported under its own nonce. */
    ghost predicate SafeVisit(start: Word, n: nat, g: nat, v: nat) {
      var base := BaseOf(start, n, g);
      base + v < B64 && forall k :: base - n < k < base + n ==> !AtInfinity(Q, D, k)
    }

    /** Wherever the grid assigns nonce k, the visit is safe. Nothing is asked of the runs that do not hold k. */
    ghost predicate Safe(start: Word, threads: nat, n: nat, k: int) {
      forall g: nat, v: nat :: g < threads && v < n && k == NonceAt(start, n, g, v) ==> SafeVisit(start, n, g, v)
    }

    /** Nonce k is assigned by the grid, safe there, and a hit. */
    ghost predicate SafeHit(start: Word, threads: nat, n: nat, k: nat, prefix: seq<bv8>, suffix: seq<bv8>)
      requires |prefix| <= 20 && |suffix| <= 20
    {
      Assigned(start, threads, n, k) && Safe(start, threads, n, k) && Hit(k, prefix, suffix)
    }

    /** Nonce k is safe in every grid of one call. */
    ghost predicate SafeInCall(start: Word, batches: seq<nat>, n: nat, k: int) {
      forall d :: 0 <= d < |batches| ==>
        Safe(DeviceFirst(start, batches, d, n), GridThreads(batches[d], NICK_BLOCK), n, k)
    }

    /** Nonce k is safe in every grid of m calls. */
    ghost predicate SafeInSweep(start: Word, batches: seq<nat>, n: nat, m: nat, k: int) {
      forall c :: 0 <= c < m ==> SafeInCall(StepNonce(start, Offset(batches, |batches|, n), c), batches, n, k)
    }

    /** The nonce x after start, in 64 bits, is a hit that is safe in the m calls from there on. */
    ghost predicate SafeHitAt(start: Word, batches: seq<nat>, n: nat, m: nat, x: nat,
                              prefix: seq<bv8>, suffix: seq<bv8>)
      requires |prefix| <= 20 && |suffix| <= 20
    {
      Hit((start + x) % B64, prefix, suffix) && SafeInSweep(start, batches, n, m, (start + x) % B64)
    }

    /** Step c of the m calls from `start` on sweeps over a safe hit. */
    ghost predicate SafeHitInStep(start: Word, batches: seq<nat>, n: nat, m: nat, c: nat,
                                  prefix: seq<bv8>, suffix: seq<bv8>)
      requires |prefix| <= 20 && |suffix| <= 20
    {
      var total := Offset(batches, |batches|, n);
      exists x: nat :: c * total <= x < (c + 1) * total && SafeHitAt(start, batches, n, m, x, prefix, suffix)
    }
  }

  // ---- clean grids ----

  lemma RunOfCleanGrid(j: Job, t: seq<Byte>, start: nat, threads: nat, n: nat, g: nat)
    requires j.Prepared(t) && 1 <= n <= 256 && g < threads && j.CleanGrid(start, threads, n)
    ensures j.RunIsClean(t, start, n, g)
  {
    hide OnCurve, Secp256k1, CombTable, LinearRecovery, CleanRun, AtInfinity;
    MulAtLeast(threads, g + 1, n);
    assert (g + 1) * n == g * n + n;
    CleanRunIff(t, j.Q, j.D, start + g * n, n);
  }

  /** The run of the grid that has k among its candidates, or the first one for k before the grid. */
  lemma RunAround(start: nat, threads: nat, n: nat, k: int) returns (g: nat)
    requires n >= 1 && threads >= 1 && start - n < k < start + threads * n
    ensures g < threads && start + g * n - n < k < start + g * n + n
  {
    if k < start {
      g := 0;
      assert g * n == 0;
    } else {
      g := (k - start) / n;
      ModSplit(k - start, n);
      if g >= threads { MulAtLeast(g, threads, n); assert false; }
    }
  }

  lemma CleanRunsCover(j: Job, t: seq<Byte>, start: nat, threads: nat, n: nat, k: int)
    requires j.Prepared(t) && 1 <= n <= 256 && threads >= 1 && start - n < k < start + threads * n
    requires forall g: nat :: g < threads ==> j.RunIsClean(t, start, n, g)
    ensures !AtInfinity(j.Q, j.D, k)
  {
    hide OnCurve, Secp256k1, CombTable, LinearRecovery, CleanRun, AtInfinity;
    var g := RunAround(start, threads, n, k);
    assert j.RunIsClean(t, start, n, g);
    CleanRunIff(t, j.Q, j.D, start + g * n, n);
  }

  /** Every run of a grid is clean exactly when Q_base avoids the multiples of D that CleanGrid names. */
  lemma CleanGridIff(j: Job, t: seq<Byte>, start: nat, threads: nat, n: nat)
    requires j.Prepared(t) && 1 <= n <= 256 && threads >= 1 && start + threads * n <= B64
    ensures j.CleanGrid(start, threads, n) <==> forall g: nat :: g < threads ==> j.RunIsClean(t, start, n, g)
  {
    hide Job.Prepared, Job.RunIsClean, AtInfinity;
    TableOf(j, t);
    if j.CleanGrid(start, threads, n) {
      forall g: nat | g < threads
        ensures j.RunIsClean(t, start, n, g)
      {
        RunOfCleanGrid(j, t, start, threads, n, g);
      }
    }
    if forall g: nat :: g < threads ==> j.RunIsClean(t, start, n, g) {
      forall k | start - n < k < start + threads * n
        ensures !AtInfinity(j.Q, j.D, k)
      {
        CleanRunsCover(j, t, start, threads, n, k);
      }
    }
  }

  // ---- one launch ----

  /** The precompute's output, with sBase not negative, is such a job. */
  lemma PrecomputeIsJob(p: Precompute, Q: Point, D: Point, R: Point, G: Point, z: nat)
    requires Secp256k1() && p.Represents(Q, D) && LinearRecovery(Q, D, R, G, p.r, p.sBase, z) && p.sBase >= 0
    ensures Job(Q, D, R, G, p.r, p.sBase, z).Prepared(p.dTable[..])
  {
    hide OnCurve, LinearRecovery, Secp256k1, CombEntry;
    TableLength(p.dTable[..], D);
  }

  /** A nonce from n on is safe in every grid when Q_base avoids the multiples of D around it. */
  lemma NearIsSafe(j: Job, start: Word, threads: nat, n: nat, k: nat)
    requires n <= k && forall i :: k - 2 * n < i < k + n ==> !AtInfinity(j.Q, j.D, i)
    ensures j.Safe(start, threads, n, k)
  {
    hide AtInfinity, BaseOf, NonceAt;
    forall g: nat, v: nat | g < threads && v < n && k == NonceAt(start, n, g, v)
      ensures j.SafeVisit(start, n, g, v)
    {
      NonceOfSlot(start, n, g, v);
    }
  }

  /** So it is in every call of every sweep. */
  lemma NearIsSafeInSweep(j: Job, start: Word, batches: seq<nat>, n: nat, m: nat, k: nat)
    requires n <= k && forall i :: k - 2 * n < i < k + n ==> !AtInfinity(j.Q, j.D, i)
    ensures j.SafeInSweep(start, batches, n, m, k)
  {
    hide AtInfinity, Job.Safe, StepNonce, Offset, DeviceFirst, GridThreads;
    forall c, d | 0 <= c < m && 0 <= d < |batches|
      ensures var at := StepNonce(start, Offset(batches, |batches|, n), c);
        j.Safe(DeviceFirst(at, batches, d, n), GridThreads(batches[d], NICK_BLOCK), n, k)
    {
      var at := StepNonce(start, Offset(batches, |batches|, n), c);
      NearIsSafe(j, DeviceFirst(at, batches, d, n), GridThreads(batches[d], NICK_BLOCK), n, k);
    }
  }

  /** The nonce of a slot is its distance from the run's base, unless it passes 2^64. */
  lemma NonceOfSlot(start: Word, n: nat, g: nat, v: nat)
    requires v < B64
    ensures var base := BaseOf(start, n, g);
      NonceAt(start, n, g, v) == if base + v < B64 then base + v else base + v - B64
  {
    var base := BaseOf(start, n, g);
    AddMod(start + g * n, v);
    if base + v < B64 { ModUnique(base + v, B64, 0, base + v); } else { ModUnique(base + v, B64, 1, base + v - B64); }
  }

  /** In a clean grid every nonce is safe, and those assigned are those of the span. */
  lemma CleanGridIsSafe(j: Job, start: Word, threads: nat, n: nat, k: int)
    requires n >= 1 && j.CleanGrid(start, threads, n)
    ensures j.Safe(start, threads, n, k)
    ensures Assigned(start, threads, n, k) <==> start <= k < start + threads * n
  {
    hide AtInfinity, BaseOf, NonceAt;
    forall g: nat, v: nat | g < threads && v < n
      ensures j.SafeVisit(start, n, g, v) && start <= NonceAt(start, n, g, v) < start + threads * n
    {
      SlotOfCleanGrid(j, start, threads, n, g, v);
    }
    if start <= k < start + threads * n {
      GridCovers(start, threads, threads, n, k - start);
      ModUnique(k, B64, 0, k);
    }
  }

  lemma SlotOfCleanGrid(j: Job, start: Word, threads: nat, n: nat, g: nat, v: nat)
    requires g < threads && v < n && j.CleanGrid(start, threads, n)
    ensures j.SafeVisit(start, n, g, v) && start <= NonceAt(start, n, g, v) < start + threads * n
  {
    hide AtInfinity;
    MulAtLeast(threads, g + 1, n);
    assert (g + 1) * n == g * n + n;
    ModUnique(start + g * n, B64, 0, start + g * n);
    ModUnique(start + g * n + v, B64, 0, start + g * n + v);
  }

  /** A safe visit has the nonce and the address of its candidate, and matches exactly when that is a hit. */
  lemma VisitIsHit(j: Job, t: seq<Byte>, start: Word, threads: nat, n: nat, g: nat, i: nat,
                   prefix: seq<bv8>, suffix: seq<bv8>)
    requires j.Prepared(t) && 1 <= n <= 256 && |prefix| <= 20 && |suffix| <= 20
    requires g < threads && i < n && j.SafeVisit(start, n, g, Visit(n, i))
    ensures var l, k := j.Launched(t, start, threads, n, prefix, suffix), BaseOf(start, n, g) + Visit(n, i);
      && l.Valid() && l.nonce(g, i) == NonceAt(start, n, g, Visit(n, i)) == k
      && l.address(g, i) == SignedAddress(j.R, j.G, j.r, j.sBase + k, j.z)
      && (l.Matches(g, i) <==> j.Hit(k, prefix, suffix))
  {
    hide OnCurve, Secp256k1, CombTable, LinearRecovery, SlotAddresses, CleanRun, CandidateAddress, SignedAddress,
         KernelLaunch, Held, Candidate, AtInfinity, MatchesPattern, BaseOf, NonceAt;
    var base, v := BaseOf(start, n, g), Visit(n, i);
    NonceOfSlot(start, n, g, v);
    CleanRunIff(t, j.Q, j.D, base, n);
    CleanAddresses(t, j.D, j.Q, base, n);
    LaunchShape(t, j.Q, j.D, start, threads, n, prefix, suffix);
    LaunchValues(t, j.Q, j.D, start, threads, n, g, i, prefix, suffix);
    CandidateIsSigned(j.Q, j.D, j.R, j.G, j.r, j.sBase, j.z, base + v);
  }

  lemma SafeSlot(j: Job, start: Word, threads: nat, n: nat, g: nat, v: nat)
    requires g < threads && v < n && j.Safe(start, threads, n, NonceAt(start, n, g, v))
    ensures j.SafeVisit(start, n, g, v)
  {
    hide Job.SafeVisit, NonceAt;
  }

  lemma Reporting(j: Job, address: Addr, k: nat, prefix: seq<bv8>, suffix: seq<bv8>)
    requires |prefix| <= 20 && |suffix| <= 20
    requires j.Hit(k, prefix, suffix) && address == SignedAddress(j.R, j.G, j.r, j.sBase + k, j.z)
    ensures j.ReportsAt(address, k, prefix, suffix)
  {
    hide Job.Hit, SignedAddress;
  }

  lemma LaunchedVisit(j: Job, t: seq<Byte>, start: Word, threads: nat, n: nat, g: nat, i: nat,
                      prefix: seq<bv8>, suffix: seq<bv8>)
    requires |t| >= WINDOW_BYTES && 1 <= n <= 256 && g < threads && i < n
    ensures var k := NonceAt(start, n, g, Visit(n, i));
      j.Launched(t, start, threads, n, prefix, suffix).nonce(g, i) == k && Assigned(start, threads, n, k)
  {
    hide KernelLaunch, NonceAt, Assigned;
    LaunchValues(t, j.Q, j.D, start, threads, n, g, i, prefix, suffix);
    AssignedBy(start, threads, n, g, Visit(n, i));
  }

  /** Whatever a launch claims is assigned by it, and if it is safe there it is a hit with the address of its
      signature. */
  lemma ClaimIsHit(j: Job, t: seq<Byte>, start: Word, threads: nat, n: nat, prefix: seq<bv8>, suffix: seq<bv8>,
                   address: Addr, nonce: int)
    requires j.Prepared(t) && 1 <= n <= 256 && |prefix| <= 20 && |suffix| <= 20
    ensures var l := j.Launched(t, start, threads, n, prefix, suffix);
      && l.Valid()
      && (Claimed(l, address, nonce) ==> Assigned(start, threads, n, nonce))
      && (Claimed(l, address, nonce) && j.Safe(start, threads, n, nonce) ==>
            j.ReportsAt(address, nonce, prefix, suffix))
  {
    hide *;
    TableOf(j, t);
    var l := j.Launched(t, start, threads, n, prefix, suffix);
    LaunchedShape(j, t, start, threads, n, prefix, suffix);
    if Claimed(l, address, nonce) {
      var g, i := ClaimedMatch(l, address, nonce);
      LaunchedVisit(j, t, start, threads, n, g, i, prefix, suffix);
      if j.Safe(start, threads, n, nonce) {
        SafeSlot(j, start, threads, n, g, Visit(n, i));
        VisitIsHit(j, t, start, threads, n, g, i, prefix, suffix);
        Reporting(j, address, nonce, prefix, suffix);
      }
    }
  }

  lemma LaunchedShape(j: Job, t: seq<Byte>, start: Word, threads: nat, n: nat, prefix: seq<bv8>, suffix: seq<bv8>)
    requires |t| >= WINDOW_BYTES && 1 <= n <= 256 && |prefix| <= 20 && |suffix| <= 20
    ensures var l := j.Launched(t, start, threads, n, prefix, suffix); l.Valid() && l.threads == threads && l.n == n
  {
    hide KernelLaunch;
    LaunchShape(t, j.Q, j.D, start, threads, n, prefix, suffix);
  }

  lemma TableOf(j: Job, t: seq<Byte>)
    requires j.Prepared(t)
    ensures |t| >= WINDOW_BYTES
  {
  }

  /** A safe hit is a match of the launch. */
  lemma HitIsMatch(j: Job, t: seq<Byte>, start: Word, threads: nat, n: nat, prefix: seq<bv8>, suffix: seq<bv8>, k: nat)
    requires j.Prepared(t) && 1 <= n <= 256 && |prefix| <= 20 && |suffix| <= 20
    requires j.SafeHit(start, threads, n, k, prefix, suffix)
    ensures var l := j.Launched(t, start, threads, n, prefix, suffix); l.Valid() && SomeMatch(l)
  {
    hide Job.SafeVisit, Job.Prepared, KernelLaunch, SignedAddress, MatchesPattern, NonceAt, BaseOf, Visit, Job.Hit;
    TableOf(j, t);
    LaunchedShape(j, t, start, threads, n, prefix, suffix);
    var g, i := VisitOf(start, threads, n, k);
    VisitIsHit(j, t, start, threads, n, g, i, prefix, suffix);
  }

  /** A launch of clean runs has a matching candidate exactly when its span has a hit. */
  lemma LaunchIsSearch(j: Job, t: seq<Byte>, start: Word, threads: nat, n: nat, prefix: seq<bv8>, suffix: seq<bv8>)
    requires j.Prepared(t) && 1 <= n <= 256 && |prefix| <= 20 && |suffix| <= 20 && j.CleanGrid(start, threads, n)
    ensures var l := j.Launched(t, start, threads, n, prefix, suffix);
      l.Valid() && (SomeMatch(l) <==> j.HitWithin(start, start + threads * n, prefix, suffix))
  {
    hide Job.Safe, Job.Prepared, Job.CleanGrid, KernelLaunch, SignedAddress, MatchesPattern, Assigned, Job.Hit;
    TableOf(j, t);
    var l := j.Launched(t, start, threads, n, prefix, suffix);
    LaunchShape(t, j.Q, j.D, start, threads, n, prefix, suffix);
    if SomeMatch(l) {
      var g: nat, i: nat :| l.Matches(g, i);
      var k := l.nonce(g, i);
      assert Claimed(l, l.address(g, i), k);
      CleanGridIsSafe(j, start, threads, n, k);
      ClaimIsHit(j, t, start, threads, n, prefix, suffix, l.address(g, i), k);
    }
    if k: nat :| start <= k < start + threads * n && j.Hit(k, prefix, suffix) {
      CleanGridIsSafe(j, start, threads, n, k);
      HitIsMatch(j, t, start, threads, n, prefix, suffix, k);
    }
  }

  /** Every fair interleaving of a launch ends with the flag set if it was assigned a safe hit; and what it
      claims is, if safe, a hit with the address that its signature deploys to. For clean grids this says
      that the flag is set exactly when the span has a hit. */
  lemma LaunchFindsSignature(j: Job, t: seq<Byte>, start: Word, threads: nat, n: nat, prefix: seq<bv8>,
                             suffix: seq<bv8>, address: Addr, nonce: int, moves: seq<Move>)
    requires j.Prepared(t) && 1 <= n <= 256 && |prefix| <= 20 && |suffix| <= 20 && Fair(threads, n, moves)
    ensures var l := j.Launched(t, start, threads, n, prefix, suffix);
      l.Valid() && Finished(Execute(l, Init(l, address, nonce), moves))
    ensures var l := j.Launched(t, start, threads, n, prefix, suffix);
      var s := Execute(l, Init(l, address, nonce), moves);
      && ((exists k: nat :: j.SafeHit(start, threads, n, k, prefix, suffix)) ==> s.found)
      && (s.found ==> Assigned(start, threads, n, s.nonce))
      && (s.found && j.Safe(start, threads, n, s.nonce) ==> j.ReportsAt(s.address, s.nonce, prefix, suffix))
      && (j.CleanGrid(start, threads, n) ==>
            && (s.found <==> j.HitWithin(start, start + threads * n, prefix, suffix))
            && (s.found ==> j.Reports(s.address, s.nonce, start, start + threads * n, prefix, suffix)))
  {
    hide Job.Prepared, Job.Safe, Job.SafeHit, Job.CleanGrid, Job.HitWithin, Job.ReportsAt, KernelLaunch, Execute, Init,
         Finished, Fair, SomeMatch, Claimed, Assigned;
    TableOf(j, t);
    var l := j.Launched(t, start, threads, n, prefix, suffix);
    LaunchShape(t, j.Q, j.D, start, threads, n, prefix, suffix);
    var s := Execute(l, Init(l, address, nonce), moves);
    FairFinishes(l, address, nonce, moves);
    FairFinds(l, address, nonce, moves);
    ClaimIsHit(j, t, start, threads, n, prefix, suffix, s.address, s.nonce);
    if k: nat :| j.SafeHit(start, threads, n, k, prefix, suffix) {
      HitIsMatch(j, t, start, threads, n, prefix, suffix, k);
    }
    if j.CleanGrid(start, threads, n) {
      LaunchIsSearch(j, t, start, threads, n, prefix, suffix);
      if s.found { CleanGridIsSafe(j, start, threads, n, s.nonce); }
    }
  }

  // ---- one call over the devices ----

  /** The uploaded bytes launch the job: D is read from the table. */
  lemma QueryRunsJob(j: Job, query: Query, threads: nat, start: Word)
    requires j.Prepared(query.table) && query.Valid() && PointAt(query.q, 0) == j.Q
    ensures query.On(threads, start) == j.Launched(query.table, start, threads, query.n, query.prefix, query.suffix)
  {
    hide KernelLaunch, PointAt, OnCurve, Secp256k1, LinearRecovery, CombTable, Step, Times;
    StepIs(query.table, j.D, 1);
    TimesOne(j.D);
  }

  /** What a call claims is a hit, if it is safe in the call. */
  lemma CallClaimsHits(j: Job, query: Query, batches: seq<nat>, start: Word, order: seq<nat>, address: Addr, nonce: int)
    requires j.Prepared(query.table) && query.Valid() && PointAt(query.q, 0) == j.Q
    requires query.CallClaims(batches, start, order, address, nonce) && j.SafeInCall(start, batches, query.n, nonce)
    ensures j.ReportsAt(address, nonce, query.prefix, query.suffix)
  {
    hide Job.Prepared, Job.Safe, Job.ReportsAt, PointAt, Claimed, GridThreads, DeviceFirst, Query.On, KernelLaunch,
         Assigned;
    TableOf(j, query.table);
    var e :| 0 <= e < |order| && query.FirstMatch(batches, start, order, e)
          && Claimed(query.OnDevice(batches, start, order[e]), address, nonce);
    var d := order[e];
    var first, threads := DeviceFirst(start, batches, d, query.n), GridThreads(batches[d], NICK_BLOCK);
    QueryRunsJob(j, query, threads, first);
    ClaimIsHit(j, query.table, first, threads, query.n, query.prefix, query.suffix, address, nonce);
  }

  /** A safe hit of the swept span is a match of the call whose step it belongs to. */
  lemma HitIsFound(j: Job, query: Query, start: Word, batches: seq<nat>, m: nat, x: nat) returns (step: nat)
    requires j.Prepared(query.table) && query.Valid() && PointAt(query.q, 0) == j.Q
    requires x < m * Offset(batches, |batches|, query.n)
    requires j.SafeHitAt(start, batches, query.n, m, x, query.prefix, query.suffix)
    ensures var total := Offset(batches, |batches|, query.n);
      && step < m && step * total <= x < (step + 1) * total
      && query.CallMatches(batches, StepNonce(start, total, step))
  {
    hide Job.Prepared, Job.Safe, Job.Hit, PointAt, SomeMatch, GridThreads, DeviceFirst, Query.On, KernelLaunch,
         Assigned, Offset, StepNonce;
    TableOf(j, query.table);
    var d;
    step, d := EveryNonceAssigned(start, batches, query.n, m, x);
    var first, threads := StepFirst(start, batches, query.n, step, d), GridThreads(batches[d], NICK_BLOCK);
    QueryRunsJob(j, query, threads, first);
    var k := (start + x) % B64;
    assert j.SafeInCall(StepNonce(start, Offset(batches, |batches|, query.n), step), batches, query.n, k);
    HitIsMatch(j, query.table, first, threads, query.n, query.prefix, query.suffix, k);
    assert SomeMatch(query.OnDevice(batches, StepNonce(start, Offset(batches, |batches|, query.n), step), d));
  }

  /** A call that takes its result and has no match swept over no safe hit. */
  lemma QuietStep(j: Job, query: Query, batches: seq<nat>, start: Word, m: nat, c: nat)
    requires j.Prepared(query.table) && query.Valid() && PointAt(query.q, 0) == j.Q && c < m
    requires !query.CallMatches(batches, StepNonce(start, Offset(batches, |batches|, query.n), c))
    ensures |query.prefix| <= 20 && |query.suffix| <= 20
    ensures !j.SafeHitInStep(start, batches, query.n, m, c, query.prefix, query.suffix)
  {
    hide PointAt, Query.CallMatches, Query.Valid, Job.Prepared, Job.SafeHitAt, Offset, StepNonce;
    PatternFits(query);
    var total, pre, suf := Offset(batches, |batches|, query.n), query.prefix, query.suffix;
    if x: nat :| c * total <= x < (c + 1) * total && j.SafeHitAt(start, batches, query.n, m, x, pre, suf) {
      MulAtLeast(m, c + 1, total);
      var step := HitIsFound(j, query, start, batches, m, x);
      SameStep(total, x, c, step);
    }
  }

  lemma SameStep(total: nat, x: nat, c: nat, d: nat)
    requires c * total <= x < (c + 1) * total && d * total <= x < (d + 1) * total
    ensures c == d
  {
    if c < d { MulAtLeast(d, c + 1, total); } else if d < c { MulAtLeast(c, d + 1, total); }
  }

  /** What a call claims, safe in the sweep, is a hit. */
  lemma StepClaimsHit(j: Job, query: Query, batches: seq<nat>, start: Word, m: nat, c: nat, order: seq<nat>,
                      address: Addr, nonce: int)
    requires j.Prepared(query.table) && query.Valid() && PointAt(query.q, 0) == j.Q && c < m
    requires query.CallClaims(batches, StepNonce(start, Offset(batches, |batches|, query.n), c), order, address, nonce)
    requires j.SafeInSweep(start, batches, query.n, m, nonce)
    ensures |query.prefix| <= 20 && |query.suffix| <= 20 && j.ReportsAt(address, nonce, query.prefix, query.suffix)
  {
    hide PointAt, Query.CallClaims, Query.Valid, Job.Prepared, Job.ReportsAt, Job.SafeInCall, Offset, StepNonce;
    PatternFits(query);
    CallClaimsHits(j, query, batches, StepNonce(start, Offset(batches, |batches|, query.n), c), order, address, nonce);
  }

  lemma PatternFits(query: Query)
    requires query.Valid()
    ensures |query.prefix| <= 20 && |query.suffix| <= 20
  {
  }

  // ---- the whole GPU run ----

  /** One miner per device, none of them sharing a context. */
  method NewMiners(batches: seq<nat>) returns (miners: seq<Miner>)
    ensures Separate(miners) && Batches(miners) == batches
    ensures forall d :: 0 <= d < |miners| ==> miners[d].Valid() && fresh(miners[d]) && fresh(miners[d].ctx)
  {
    miners := [];
    for d := 0 to |batches|
      invariant |miners| == d && Separate(miners)
      invariant forall e :: 0 <= e < d ==>
        miners[e].Valid() && fresh(miners[e]) && fresh(miners[e].ctx) && miners[e].ctx.batchSize == batches[e]
    {
      var ctx := new Context(batches[d]);
      var miner := new Miner(ctx);
      miners := miners + [miner];
    }
  }

  /** The bytes that a precompute uploads: a whole table, and Q_base unless it is infinite. */
  lemma UploadedBytes(p: Precompute, Q: Point, D: Point, prefix: seq<bv8>, suffix: seq<bv8>, n: nat)
    requires p.Represents(Q, D) && |prefix| <= 20 && |suffix| <= 20 && 1 <= n <= 256
    ensures QueryFor(p, prefix, suffix, n).Valid() && CombTable(p.dTable[..], D)
    ensures OnCurve(Q) && OnCurve(D) && D.Affine?
    ensures p.qBaseBytes.Length == 64 && p.dTable.Length == TABLE_BYTES
    ensures Q.Affine? ==> PointAt(p.qBaseBytes[..], 0) == Q
  {
    hide OnCurve, PointAt, CombEntry;
    TableLength(p.dTable[..], D);
  }

  /** How the GPU run ends: no pattern, a failed precompute, a result, or the cut-off. */
  datatype RunResult = NoPattern | BadPrecompute(error: Error) | Found(address: Addr, nonce: int) | Exhausted
  {
    /** The batch loop was entered. */
    ghost predicate Ran() { Found? || Exhausted? }
  }

  /** The GPU run, cut off after as many calls as there are schedules. It ends in the first call whose result
      is taken and which has a match, with the claim of the first device to finish with one; the nonce, if
      safe, is one whose signature deploys to the returned, matching address. No call before it swept over a
      safe hit without dropping it. */
  method RunGpu(sighash: seq<Byte>, r: int, sBase: nat, G: Point, prefix: seq<bv8>, suffix: seq<bv8>,
                batches: seq<nat>, startNonce: Word, n: nat, schedules: seq<Schedule>)
    returns (res: RunResult, ghost Q: Point, ghost D: Point, ghost R: Point, ghost query: Query, ghost steps: nat)
    requires Secp256k1() && OnCurve(G) && |prefix| <= 20 && |suffix| <= 20 && 1 <= n <= 256 && |batches| >= 1
    requires forall c :: 0 <= c < |schedules| ==> schedules[c].Proper(batches, n)
    ensures res.NoPattern? <==> prefix == [] && suffix == []
    ensures res.BadPrecompute? <==> !res.NoPattern? && !(|sighash| == 32 && 0 < r < N && Decompressible(r))
    ensures res.Ran() ==> R.Affine? && R.x == r && R.y % 2 == 0 && OnCurve(R) && OnCurve(Q)
    ensures res.Ran() ==> D == Times(ScalarInverse(r, N), R) && FromBig(sighash) >= 0
    ensures res.Ran() ==>
      && query.Valid() && query.prefix == prefix && query.suffix == suffix && query.n == n
      && CombTable(query.table, D) && (Q.Affine? ==> PointAt(query.q, 0) == Q)
    ensures res.Ran() ==> var total := Offset(batches, |batches|, n);
      && steps <= |schedules| && (res.Exhausted? ==> steps == |schedules|)
      && (res.Found? ==> steps < |schedules| && schedules[steps].taken)
      && (res.Found? ==> query.CallClaims(batches, StepNonce(startNonce, total, steps), schedules[steps].order,
                                          res.address, res.nonce))
      && forall c :: 0 <= c < steps ==>
           !(schedules[c].taken && query.CallMatches(batches, StepNonce(startNonce, total, c)))
    ensures res.Ran() && Q.Affine? ==>
      var j := Job(Q, D, R, G, r, sBase, FromBig(sighash));
      && (res.Found? && j.SafeInSweep(startNonce, batches, n, |schedules|, res.nonce) ==>
            j.ReportsAt(res.address, res.nonce, prefix, suffix))
      && forall c :: 0 <= c < steps && schedules[c].taken ==>
           !j.SafeHitInStep(startNonce, batches, n, |schedules|, c, prefix, suffix)
  {
    hide Secp256k1, OnCurve, Schedule.Proper, Decompressible, FromBig, LinearRecovery, Job.SafeInSweep, Job.ReportsAt,
         Job.SafeHitInStep, Job.Prepared, Precompute.Represents, Offset, StepNonce, Query.CallClaims,
         Query.CallMatches, Query.Valid, Times, ScalarInverse, Miner.Valid, Separate, CombTable, PointAt;
    Q, D, R := Infinity, Infinity, Infinity;
    query, steps := Query([], [], [], [], 0), 0;
    if |prefix| == 0 && |suffix| == 0 { return NoPattern, Q, D, R, query, steps; }
    var pre;
    pre, Q, D, R := NewPrecompute(sighash, r, sBase, G);
    if pre.Err? { return BadPrecompute(pre.error), Q, D, R, query, steps; }
    var p := pre.value;
    query := QueryFor(p, prefix, suffix, n);
    UploadedBytes(p, Q, D, prefix, suffix, n);
    var miners := NewMiners(batches);
    var found;
    found, steps := SearchLoop(miners, p, prefix, suffix, startNonce, n, schedules);
    ghost var j := Job(Q, D, R, G, r, sBase, FromBig(sighash));
    if Q.Affine? {
      PrecomputeIsJob(p, Q, D, R, G, FromBig(sighash));
      if found.Hit? && j.SafeInSweep(startNonce, batches, n, |schedules|, found.nonce) {
        StepClaimsHit(j, query, batches, startNonce, |schedules|, steps, schedules[steps].order,
                      found.address, found.nonce);
      }
      forall c | 0 <= c < steps && schedules[c].taken
        ensures !j.SafeHitInStep(startNonce, batches, n, |schedules|, c, prefix, suffix)
      {
        QuietStep(j, query, batches, startNonce, |schedules|, c);
      }
    }
    res := if found.Hit? then Found(found.address, found.nonce) else Exhausted;
  }
}

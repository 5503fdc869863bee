/** The kernel as a launch: a thread of the race does what the run does, on the bytes in device memory. */
module Kernel {
  import opened Words
  import opened Curve
  import opened Wire
  import opened Comb
  import opened Address
  import opened Batch
  import opened Run
  import opened Race
  import opened Sweep

  // ---- one thread of the race is one run ----

  function OutcomeOf(s: State): Outcome { Outcome(if s.found then 1 else 0, s.address, s.nonce) }

  /** c moves of thread g, with nobody in between. */
  function Alone(g: nat, c: nat): seq<Move> { seq(c, _ => Move(g, false)) }

  lemma {:induction false} ExecuteConcat(l: Launch, s: State, a: seq<Move>, b: seq<Move>)
    requires l.Valid()
    ensures Execute(l, s, a + b) == Execute(l, Execute(l, s, a), b)
    decreases |b|
  {
    hide Next;
    if b == [] {
      assert a + b == a;
    } else {
      var init := b[..|b| - 1];
      assert (a + b)[..|a + b| - 1] == a + init;
      ExecuteConcat(l, s, a, init);
    }
  }

  lemma AloneSplits(l: Launch, s: State, g: nat, c: nat, d: nat)
    requires l.Valid()
    ensures Execute(l, s, Alone(g, c + d)) == Execute(l, Execute(l, s, Alone(g, c)), Alone(g, d))
  {
    hide Next, Execute;
    assert Alone(g, c + d) == Alone(g, c) + Alone(g, d);
    ExecuteConcat(l, s, Alone(g, c), Alone(g, d));
  }

  lemma AloneOnce(l: Launch, s: State, g: nat)
    requires l.Valid()
    ensures Execute(l, s, Alone(g, 1)) == Next(l, s, Move(g, false)) && Execute(l, s, Alone(g, 0)) == s
  {
    hide Next;
    var m := Alone(g, 1);
    assert m[..0] == [] && m[0] == Move(g, false);
    assert Execute(l, s, m[..|m| - 1]) == s;
  }

  /** The winner's writes, left alone, complete the slots. */
  lemma {:induction false} WriteOut(l: Launch, s: State, g: nat, i: nat, b: nat)
    requires l.Valid() && g < |s.threads| && s.threads[g] == Writing(i, b) && b <= 20
    requires s.address[..b] == l.address(g, i)[..b]
    ensures var e := Execute(l, s, Alone(g, 21 - b));
      && e.threads == s.threads[g := At(i + 1)]
      && OutcomeOf(e) == Outcome(if s.found then 1 else 0, l.address(g, i), l.nonce(g, i))
    decreases 20 - b
  {
    hide Execute, MatchesPattern;
    AloneOnce(l, s, g);
    var s1, a := Next(l, s, Move(g, false)), l.address(g, i);
    if b == 20 {
      assert s.address == s.address[..20] == a[..20] == a;
    } else {
      assert s1.address[..b + 1] == s.address[..b] + [a[b]] == a[..b + 1];
      WriteOut(l, s1, g, i, b + 1);
      AloneSplits(l, s, g, 1, 20 - b);
      assert s1.threads[g := At(i + 1)] == s.threads[g := At(i + 1)];
    }
  }

  /** One candidate, left alone, has the effect of offering it. */
  lemma VisitOne(l: Launch, s: State, g: nat, i: nat) returns (c: nat)
    requires l.Valid() && |s.threads| == l.threads && g < l.threads && i < l.n && s.threads[g] == At(i)
    ensures var e := Execute(l, s, Alone(g, c));
      && e.threads == s.threads[g := At(i + 1)]
      && OutcomeOf(e) == Offer(OutcomeOf(s), l.address(g, i), l.nonce(g, i), l.prefix, l.suffix)
  {
    hide Execute, MatchesPattern;
    AloneOnce(l, s, g);
    var s1 := Next(l, s, Move(g, false));
    if l.Matches(g, i) && !s.found {
      WriteOut(l, s1, g, i, 0);
      AloneSplits(l, s, g, 1, 21);
      assert s1.threads[g := At(i + 1)] == s.threads[g := At(i + 1)];
      c := 22;
    } else {
      c := 1;
    }
  }

  /** The launch gives thread g the addresses a for the nonces from base on, in the order of its visits. */
  ghost predicate GivesRun(l: Launch, g: nat, a: seq<Addr>, base: nat) {
    && |a| == l.n
    && forall i: nat :: i < l.n ==>
         l.address(g, i) == a[Visit(l.n, i)] && l.nonce(g, i) == ReportedNonce(base, Visit(l.n, i))
  }

  /** After i + 1 visits the slots hold what the run offered so far. */
  lemma {:induction false} VisitMany(l: Launch, s: State, g: nat, a: seq<Addr>, base: nat, i: nat) returns (c: nat)
    requires l.Valid() && |s.threads| == l.threads && g < l.threads && i < l.n && s.threads[g] == At(0)
    requires GivesRun(l, g, a, base)
    ensures var e := Execute(l, s, Alone(g, c));
      && e.threads == s.threads[g := At(i + 1)]
      && OutcomeOf(e) == Offered(OutcomeOf(s), a, base, l.n - i, l.prefix, l.suffix)
  {
    hide Execute, MatchesPattern, Offer, ReportedNonce;
    if i == 0 {
      c := VisitOne(l, s, g, 0);
    } else {
      var c0 := VisitMany(l, s, g, a, base, i - 1);
      var e0 := Execute(l, s, Alone(g, c0));
      var c1 := VisitOne(l, e0, g, i);
      AloneSplits(l, s, g, c0, c1);
      assert e0.threads[g := At(i + 1)] == s.threads[g := At(i + 1)];
      c := c0 + c1;
    }
  }

  /** A thread that runs alone does what the kernel's run does to the slots: nothing if the flag is set
      when it looks, else the offers of its run in order. */
  lemma ThreadIsRun(l: Launch, s: State, g: nat, a: seq<Addr>, base: nat) returns (c: nat)
    requires l.Valid() && |s.threads| == l.threads && g < l.threads && l.n >= 1 && s.threads[g] == Fresh
    requires GivesRun(l, g, a, base)
    ensures var e := Execute(l, s, Alone(g, c));
      && e.threads == s.threads[g := Done]
      && OutcomeOf(e) == if s.found then OutcomeOf(s) else Offered(OutcomeOf(s), a, base, 1, l.prefix, l.suffix)
  {
    hide Execute, MatchesPattern, Offered, Offer, GivesRun;
    AloneOnce(l, s, g);
    if s.found { return 1; }
    var s1 := Next(l, s, Move(g, false));
    var c1 := VisitMany(l, s1, g, a, base, l.n - 1);
    var e1 := Execute(l, s1, Alone(g, c1));
    AloneOnce(l, e1, g);
    AloneSplits(l, s, g, 1, c1);
    AloneSplits(l, s, g, 1 + c1, 1);
    assert e1.threads[g := Done] == s.threads[g := Done];
    c := 1 + c1 + 1;
  }

  // ---- the launch on the precomputed table ----

  /** The first nonce of thread g. */
  function BaseOf(start: Word, n: nat, g: nat): Word { (start + g * n) % B64 }

  /** The address that thread g computes for slot v of its run. */
  function RunAddress(t: seq<Byte>, Q: Point, D: Point, start: Word, n: nat, g: nat, v: nat): Addr
    requires |t| >= WINDOW_BYTES && 1 <= n <= 256 && v < n
  {
    SlotAddresses(t, Held(Candidate(Q, D, BaseOf(start, n, g))), n)[v]
  }

  /** What the kernel launches: every thread visits the slots of its own run. */
  function KernelLaunch(t: seq<Byte>, Q: Point, D: Point, start: Word, threads: nat, n: nat,
                        prefix: seq<bv8>, suffix: seq<bv8>): Launch
    requires |t| >= WINDOW_BYTES && 1 <= n <= 256
  {
    Launch(threads, n,
           (g: nat, i: nat) => if i < n then NonceAt(start, n, g, Visit(n, i)) else 0,
           (g: nat, i: nat) => RunAddress(t, Q, D, start, n, g, if i < n then Visit(n, i) else 0),
           prefix, suffix)
  }

  lemma LaunchShape(t: seq<Byte>, Q: Point, D: Point, start: Word, threads: nat, n: nat, prefix: seq<bv8>,
                    suffix: seq<bv8>)
    requires |t| >= WINDOW_BYTES && 1 <= n <= 256
    ensures var l := KernelLaunch(t, Q, D, start, threads, n, prefix, suffix);
      l.threads == threads && l.n == n && l.prefix == prefix && l.suffix == suffix
  {
    hide RunAddress, NonceAt;
  }

  lemma LaunchValues(t: seq<Byte>, Q: Point, D: Point, start: Word, threads: nat, n: nat, g: nat, i: nat,
                     prefix: seq<bv8>, suffix: seq<bv8>)
    requires |t| >= WINDOW_BYTES && 1 <= n <= 256 && i < n
    ensures var l := KernelLaunch(t, Q, D, start, threads, n, prefix, suffix);
      && l.nonce(g, i) == NonceAt(start, n, g, Visit(n, i))
      && l.address(g, i) == RunAddress(t, Q, D, start, n, g, Visit(n, i))
  {
    hide RunAddress, NonceAt, Visit;
  }

  /** Each thread of the launch gets the addresses and nonces of the run that starts at its base. */
  lemma LaunchGivesRuns(t: seq<Byte>, Q: Point, D: Point, start: Word, threads: nat, n: nat, g: nat,
                        prefix: seq<bv8>, suffix: seq<bv8>)
    requires |t| >= WINDOW_BYTES && 1 <= n <= 256
    ensures var base := BaseOf(start, n, g);
      GivesRun(KernelLaunch(t, Q, D, start, threads, n, prefix, suffix), g,
               SlotAddresses(t, Held(Candidate(Q, D, base)), n), base)
  {
    hide SlotAddresses, Candidate, KernelLaunch;
    LaunchShape(t, Q, D, start, threads, n, prefix, suffix);
    var l := KernelLaunch(t, Q, D, start, threads, n, prefix, suffix);
    forall i: nat | i < n
      ensures l.address(g, i) == SlotAddresses(t, Held(Candidate(Q, D, BaseOf(start, n, g))), n)[Visit(n, i)]
      ensures l.nonce(g, i) == ReportedNonce(BaseOf(start, n, g), Visit(n, i))
    {
      LaunchValues(t, Q, D, start, threads, n, g, i, prefix, suffix);
      AddMod(start + g * n, Visit(n, i));
    }
  }

  // ---- what one search asks the devices ----

  /** The table and Q_base as the bytes that are uploaded, the pattern, and the run length of the build. */
  datatype Query = Query(table: seq<Byte>, q: seq<Byte>, prefix: seq<bv8>, suffix: seq<bv8>, n: nat)
  {
    predicate Valid() {
      |table| == TABLE_BYTES && |q| == 64 && |prefix| <= 20 && |suffix| <= 20 && 1 <= n <= 256
    }

    /** The launch of a grid from a start nonce: D is the first entry of the table. */
    function On(threads: nat, start: Word): (l: Launch)
      requires Valid()
      ensures l.Valid() && l.threads == threads && l.n == n
    {
      KernelLaunch(table, PointAt(q, 0), Step(table, 1), start, threads, n, prefix, suffix)
    }

    /** The launch of device d, when the call starts at `start`. */
    function OnDevice(batches: seq<nat>, start: Word, d: nat): (l: Launch)
      requires Valid() && d < |batches|
      ensures l.Valid() && l.threads == GridThreads(batches[d], NICK_BLOCK) && l.n == n
    {
      On(GridThreads(batches[d], NICK_BLOCK), DeviceFirst(start, batches, d, n))
    }

    /** A candidate of some device's launch matches. */
    ghost predicate CallMatches(batches: seq<nat>, start: Word)
      requires Valid()
    {
      exists d: nat :: d < |batches| && SomeMatch(OnDevice(batches, start, d))
    }

    /** The nonce and address are those of one matching candidate of the launch of the first device, in the
        order of finishing, that has one. */
    ghost predicate CallClaims(batches: seq<nat>, start: Word, order: seq<nat>, address: Addr, nonce: int)
      requires Valid()
    {
      exists e :: 0 <= e < |order| && FirstMatch(batches, start, order, e)
               && Claimed(OnDevice(batches, start, order[e]), address, nonce)
    }

    /** Device order[e] has a match, and none that finished before it. */
    ghost predicate FirstMatch(batches: seq<nat>, start: Word, order: seq<nat>, e: nat)
      requires Valid() && e < |order|
    {
      && order[e] < |batches| && SomeMatch(OnDevice(batches, start, order[e]))
      && forall f :: 0 <= f < e && order[f] < |batches| ==> !SomeMatch(OnDevice(batches, start, order[f]))
    }
  }
}

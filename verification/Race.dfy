/** The threads of one launch race for the result slots: every interleaving of the early look at the
    flag, the compare-and-swap, and the byte-by-byte writes of the winner. */
module Race {
  import opened Address

  /** What a launch computes: candidate i of thread t, in the order in which the thread visits them. */
  datatype Launch = Launch(threads: nat, n: nat, nonce: (nat, nat) -> int, address: (nat, nat) -> Addr,
                           prefix: seq<bv8>, suffix: seq<bv8>)
  {
    predicate Valid() { |prefix| <= 20 && |suffix| <= 20 }

    predicate Matches(t: nat, i: nat)
      requires Valid()
    {
      t < threads && i < n && MatchesPattern(address(t, i), prefix, suffix)
    }
  }

  /** Fresh: before the look at the flag. At(i): about to try candidate i. Writing(i, b): won the
      compare-and-swap for candidate i, b address bytes written. */
  datatype Thread = Fresh | At(i: nat) | Writing(i: nat, b: nat) | Done

  datatype Winner = Nobody | Won(t: nat, i: nat)

  /** The shared memory, the threads, and two history variables: who won, and who wrote the slots. */
  datatype State = State(found: bool, address: Addr, nonce: int, threads: seq<Thread>,
                         winner: Winner, writers: set<nat>)

  /** A scheduling choice: which thread moves, and whether a weak compare-and-swap fails for no reason. */
  datatype Move = Move(t: nat, spurious: bool)

  function Init(l: Launch, address: Addr, nonce: int): State {
    State(false, address, nonce, seq(l.threads, _ => Fresh), Nobody, {})
  }

  function Become(s: State, t: nat, th: Thread): State
    requires t < |s.threads|
  {
    s.(threads := s.threads[t := th])
  }

  /** One atomic step of thread t. */
  function Next(l: Launch, s: State, m: Move): State
    requires l.Valid()
  {
    if m.t >= |s.threads| then s
    else match s.threads[m.t]
      case Fresh => Become(s, m.t, if s.found then Done else At(0))
      case At(i) =>
        if i >= l.n then Become(s, m.t, Done)
        else if !l.Matches(m.t, i) || s.found || m.spurious then Become(s, m.t, At(i + 1))
        else Become(s, m.t, Writing(i, 0)).(found := true, winner := Won(m.t, i))
      case Writing(i, b) =>
        if b < 20 then
          Become(s, m.t, Writing(i, b + 1))
            .(address := s.address[b := l.address(m.t, i)[b]], writers := s.writers + {m.t})
        else
          Become(s, m.t, At(i + 1)).(nonce := l.nonce(m.t, i), writers := s.writers + {m.t})
      case Done => s
  }

  function Execute(l: Launch, s: State, moves: seq<Move>): State
    requires l.Valid()
    decreases |moves|
  {
    if moves == [] then s else Next(l, Execute(l, s, moves[..|moves| - 1]), moves[|moves| - 1])
  }

  // ---- what every step keeps ----

  ghost predicate ThreadOk(l: Launch, s: State, t: nat)
    requires t < |s.threads|
  {
    match s.threads[t]
    case Fresh => true
    case At(i) => i <= l.n
    case Writing(i, b) => i < l.n && b <= 20 && s.winner == Won(t, i)
    case Done => true
  }

  /** The winner is past the swap for its candidate, which matches; what it has written so far is that
      candidate's address, and once it has moved on the nonce as well. */
  ghost predicate WinnerOk(l: Launch, s: State)
    requires l.Valid()
  {
    s.winner.Won? ==>
      var t, i := s.winner.t, s.winner.i;
      && t < |s.threads| && l.Matches(t, i)
      && match s.threads[t] {
           case Fresh => false
           case At(j) => i < j && s.address == l.address(t, i) && s.nonce == l.nonce(t, i)
           case Writing(j, b) => i == j && b <= 20 && s.address[..b] == l.address(t, i)[..b]
           case Done => s.address == l.address(t, i) && s.nonce == l.nonce(t, i)
         }
  }

  ghost predicate Inv(l: Launch, s: State)
    requires l.Valid()
  {
    && |s.threads| == l.threads
    && (forall t :: 0 <= t < |s.threads| ==> ThreadOk(l, s, t))
    && (s.found <==> s.winner.Won?)
    && WinnerOk(l, s)
    && (forall t :: t in s.writers ==> s.winner.Won? && s.winner.t == t)
  }

  /** How many candidates a thread has behind it. */
  function Passed(l: Launch, th: Thread): nat {
    match th
    case Fresh => 0
    case At(i) => i
    case Writing(i, b) => i
    case Done => l.n
  }

  lemma InitInv(l: Launch, address: Addr, nonce: int)
    requires l.Valid()
    ensures Inv(l, Init(l, address, nonce))
  {
  }

  lemma NextThreads(l: Launch, s: State, m: Move)
    requires l.Valid() && Inv(l, s)
    ensures |Next(l, s, m).threads| == l.threads
    ensures forall t :: 0 <= t < l.threads ==> ThreadOk(l, Next(l, s, m), t)
  {
    hide MatchesPattern;
    var s2 := Next(l, s, m);
    forall t | 0 <= t < |s2.threads|
      ensures ThreadOk(l, s2, t)
    {
      assert ThreadOk(l, s, t);
      if m.t < |s.threads| { assert ThreadOk(l, s, m.t); }
    }
  }

  lemma NextWinner(l: Launch, s: State, m: Move)
    requires l.Valid() && Inv(l, s)
    ensures WinnerOk(l, Next(l, s, m))
  {
    hide MatchesPattern;
    var s2 := Next(l, s, m);
    if m.t < |s.threads| {
      assert ThreadOk(l, s, m.t);
      if s.threads[m.t].Writing? {
        var i, b := s.threads[m.t].i, s.threads[m.t].b;
        var a := l.address(m.t, i);
        if b < 20 {
          assert s2.address[..b + 1] == s.address[..b] + [a[b]] == a[..b + 1];
        } else {
          assert s.address == s.address[..20] == a[..20] == a;
        }
      }
    }
  }

  lemma NextInv(l: Launch, s: State, m: Move)
    requires l.Valid() && Inv(l, s)
    ensures Inv(l, Next(l, s, m))
  {
    hide MatchesPattern;
    NextThreads(l, s, m);
    NextWinner(l, s, m);
    if m.t < |s.threads| { assert ThreadOk(l, s, m.t); }
  }

  lemma {:induction false} ExecuteInv(l: Launch, s: State, moves: seq<Move>)
    requires l.Valid() && Inv(l, s)
    ensures Inv(l, Execute(l, s, moves))
    decreases |moves|
  {
    hide Inv, Next;
    if moves != [] {
      var init, last := moves[..|moves| - 1], moves[|moves| - 1];
      ExecuteInv(l, s, init);
      NextInv(l, Execute(l, s, init), last);
    }
  }

  // ---- the launch as a whole ----

  predicate Finished(s: State) { forall t :: 0 <= t < |s.threads| ==> s.threads[t].Done? }

  ghost predicate SomeMatch(l: Launch)
    requires l.Valid()
  {
    exists t: nat, i: nat :: l.Matches(t, i)
  }

  /** In every state of every interleaving, spurious failures or not, at most one thread has written
      the slots, and only after it won; and when all threads are done, a set flag means that the slots
      hold the nonce and the address of one and the same matching candidate. */
  lemma OneWriter(l: Launch, address: Addr, nonce: int, moves: seq<Move>)
    requires l.Valid()
    ensures var s := Execute(l, Init(l, address, nonce), moves);
      && (forall t, u :: t in s.writers && u in s.writers ==> t == u)
      && (!s.found ==> s.writers == {})
      && (s.found && Finished(s) ==> Claimed(l, s.address, s.nonce))
  {
    hide Init, Execute, MatchesPattern;
    InitInv(l, address, nonce);
    ExecuteInv(l, Init(l, address, nonce), moves);
  }

  /** The nonce and the address are those of one matching candidate of the launch. */
  ghost predicate Claimed(l: Launch, address: Addr, nonce: int)
    requires l.Valid()
  {
    exists t: nat, i: nat :: l.Matches(t, i) && address == l.address(t, i) && nonce == l.nonce(t, i)
  }

  lemma ClaimedMatch(l: Launch, address: Addr, nonce: int) returns (t: nat, i: nat)
    requires l.Valid() && Claimed(l, address, nonce)
    ensures t < l.threads && i < l.n && l.Matches(t, i) && address == l.address(t, i) && nonce == l.nonce(t, i)
  {
    hide MatchesPattern;
    t, i :| l.Matches(t, i) && address == l.address(t, i) && nonce == l.nonce(t, i);
  }

  // ---- what a run tries, and what it claims ----

  /** The move lets thread t try candidate i. */
  predicate Tries(s: State, m: Move, t: nat, i: nat) { m.t == t < |s.threads| && s.threads[t] == At(i) }

  /** Some move of the run tried candidate i of thread t. */
  ghost predicate Tried(l: Launch, s: State, moves: seq<Move>, t: nat, i: nat)
    requires l.Valid()
  {
    exists k :: 0 <= k < |moves| && Tries(Execute(l, s, moves[..k]), moves[k], t, i)
  }

  /** The move tries a match, and its compare-and-swap does (not) fail for no reason. */
  ghost predicate Swaps(l: Launch, s: State, m: Move, spurious: bool)
    requires l.Valid()
  {
    m.t < |s.threads| && s.threads[m.t].At? && l.Matches(m.t, s.threads[m.t].i) && m.spurious == spurious
  }

  /** Some move of the run is such a swap. */
  ghost predicate Attempted(l: Launch, s: State, moves: seq<Move>, spurious: bool)
    requires l.Valid()
  {
    exists k :: 0 <= k < |moves| && Swaps(l, Execute(l, s, moves[..k]), moves[k], spurious)
  }

  lemma TriedKept(l: Launch, s: State, moves: seq<Move>, m: Move, t: nat, i: nat)
    requires l.Valid()
    ensures Tried(l, s, moves + [m], t, i) <==> Tried(l, s, moves, t, i) || Tries(Execute(l, s, moves), m, t, i)
  {
    hide Execute, Tries;
    var all := moves + [m];
    assert forall k :: 0 <= k <= |moves| ==> all[..k] == moves[..k];
    assert moves[..|moves|] == moves && all[|moves|] == m;
  }

  lemma AttemptedKept(l: Launch, s: State, moves: seq<Move>, m: Move, spurious: bool)
    requires l.Valid()
    ensures Attempted(l, s, moves + [m], spurious) <==>
              Attempted(l, s, moves, spurious) || Swaps(l, Execute(l, s, moves), m, spurious)
  {
    hide Execute, Swaps;
    var all := moves + [m];
    assert forall k :: 0 <= k <= |moves| ==> all[..k] == moves[..k];
    assert moves[..|moves|] == moves && all[|moves|] == m;
  }

  /** A candidate is behind its thread only if it was tried, or the flag is set: the early exit is the
      one way around it. */
  lemma {:induction false} PassedWasTried(l: Launch, s: State, moves: seq<Move>, t: nat, i: nat)
    requires l.Valid() && Inv(l, s) && t < l.threads && i < l.n && s.threads[t].Fresh?
    ensures var e := Execute(l, s, moves);
      |e.threads| == l.threads && (!e.found && i < Passed(l, e.threads[t]) ==> Tried(l, s, moves, t, i))
    decreases |moves|
  {
    hide Tried, MatchesPattern;
    if moves != [] {
      var init, last := moves[..|moves| - 1], moves[|moves| - 1];
      assert moves == init + [last];
      PassedWasTried(l, s, init, t, i);
      ExecuteInv(l, s, init);
      TriedKept(l, s, init, last, t, i);
      assert ThreadOk(l, Execute(l, s, init), t);
    }
  }

  /** If all threads end with the flag unset, every candidate of the launch was tried. */
  lemma UnsetMeansAllTried(l: Launch, address: Addr, nonce: int, moves: seq<Move>, t: nat, i: nat)
    requires l.Valid() && t < l.threads && i < l.n
    ensures var s0 := Init(l, address, nonce); var s := Execute(l, s0, moves);
      Finished(s) && !s.found ==> Tried(l, s0, moves, t, i)
  {
    hide Execute, Tried, MatchesPattern;
    InitInv(l, address, nonce);
    PassedWasTried(l, Init(l, address, nonce), moves, t, i);
  }

  lemma NextFound(l: Launch, s: State, m: Move)
    requires l.Valid() && Inv(l, s)
    ensures Next(l, s, m).found <==> s.found || Swaps(l, s, m, false)
  {
    hide MatchesPattern;
    if m.t < |s.threads| { assert ThreadOk(l, s, m.t); }
  }

  lemma {:induction false} FoundIffAttempted(l: Launch, s: State, moves: seq<Move>)
    requires l.Valid() && Inv(l, s)
    ensures Execute(l, s, moves).found <==> s.found || Attempted(l, s, moves, false)
    decreases |moves|
  {
    hide Next, Swaps, Inv, Attempted;
    if moves == [] {
      assert !Attempted(l, s, [], false) by { NothingAttempted(l, s, false); }
    } else {
      var init, last := moves[..|moves| - 1], moves[|moves| - 1];
      assert moves == init + [last];
      FoundIffAttempted(l, s, init);
      ExecuteInv(l, s, init);
      NextFound(l, Execute(l, s, init), last);
      AttemptedKept(l, s, init, last, false);
    }
  }

  lemma NothingAttempted(l: Launch, s: State, spurious: bool)
    requires l.Valid()
    ensures !Attempted(l, s, [], spurious)
  {
  }

  /** For every compare-and-swap, weak or strong, and every interleaving: the flag says whether the launch
      has a match exactly when, if it has one, some swap for a match does not fail for no reason. Once
      all threads are done it can be wrong only after a swap that did. */
  lemma FlagIsRight(l: Launch, address: Addr, nonce: int, moves: seq<Move>)
    requires l.Valid()
    ensures var s0 := Init(l, address, nonce); var s := Execute(l, s0, moves);
      && ((s.found <==> SomeMatch(l)) <==> (SomeMatch(l) ==> Attempted(l, s0, moves, false)))
      && (Finished(s) && SomeMatch(l) && !s.found ==> Attempted(l, s0, moves, true))
  {
    hide Execute, MatchesPattern;
    var s0 := Init(l, address, nonce);
    InitInv(l, address, nonce);
    FoundIffAttempted(l, s0, moves);
    var s := Execute(l, s0, moves);
    if k :| 0 <= k < |moves| && Swaps(l, Execute(l, s0, moves[..k]), moves[k], false) {
      assert l.Matches(moves[k].t, Execute(l, s0, moves[..k]).threads[moves[k].t].i);
    }
    if Finished(s) && !s.found && SomeMatch(l) {
      var t: nat, i: nat :| l.Matches(t, i);
      UnsetMeansAllTried(l, address, nonce, moves, t, i);
      var k :| 0 <= k < |moves| && Tries(Execute(l, s0, moves[..k]), moves[k], t, i);
      assert Swaps(l, Execute(l, s0, moves[..k]), moves[k], moves[k].spurious);
    }
  }

  /** With the strong compare-and-swap, once all threads are done the flag is set exactly when some
      candidate of the launch matches, whatever the interleaving. */
  lemma FoundIffMatch(l: Launch, address: Addr, nonce: int, moves: seq<Move>)
    requires l.Valid() && forall k :: 0 <= k < |moves| ==> !moves[k].spurious
    ensures var s := Execute(l, Init(l, address, nonce), moves);
      Finished(s) ==> (s.found <==> SomeMatch(l))
  {
    hide Init, Execute, MatchesPattern;
    FlagIsRight(l, address, nonce, moves);
    InitInv(l, address, nonce);
    ExecuteInv(l, Init(l, address, nonce), moves);
  }

  // ---- every fair schedule finishes ----

  /** An upper bound on the steps that a thread has left. */
  function Work(l: Launch, th: Thread): int {
    match th
    case Fresh => 22 * l.n + 2
    case At(i) => 22 * (l.n - i) + 1
    case Writing(i, b) => 22 * (l.n - i) - b
    case Done => 0
  }

  /** How often thread t moves. */
  function Turns(moves: seq<Move>, t: nat): nat {
    if moves == [] then 0 else Turns(moves[..|moves| - 1], t) + if moves[|moves| - 1].t == t then 1 else 0
  }

  lemma NextWork(l: Launch, s: State, m: Move, t: nat)
    requires l.Valid() && Inv(l, s) && t < l.threads
    ensures |Next(l, s, m).threads| == l.threads
    ensures var before, after := Work(l, s.threads[t]), Work(l, Next(l, s, m).threads[t]);
      0 <= after && (m.t == t && before > 0 ==> after < before) && (m.t != t || before == 0 ==> after == before)
  {
    hide MatchesPattern;
    NextThreads(l, s, m);
    assert ThreadOk(l, s, t) && ThreadOk(l, Next(l, s, m), t);
  }

  lemma {:induction false} ExecuteWork(l: Launch, s: State, moves: seq<Move>, t: nat)
    requires l.Valid() && Inv(l, s) && t < l.threads
    ensures |Execute(l, s, moves).threads| == l.threads
    ensures var w := Work(l, Execute(l, s, moves).threads[t]);
      0 <= w && (w == 0 || w <= Work(l, s.threads[t]) - Turns(moves, t))
    decreases |moves|
  {
    hide Next, MatchesPattern;
    if moves == [] {
      assert ThreadOk(l, s, t);
    } else {
      var init, last := moves[..|moves| - 1], moves[|moves| - 1];
      ExecuteWork(l, s, init, t);
      ExecuteInv(l, s, init);
      NextWork(l, Execute(l, s, init), last, t);
    }
  }

  /** No spurious failures, and every thread gets its 22 n + 2 turns, interleaved in any way. */
  ghost predicate Fair(threads: nat, n: nat, moves: seq<Move>) {
    && (forall k :: 0 <= k < |moves| ==> !moves[k].spurious)
    && forall t: nat :: t < threads ==> Turns(moves, t) >= 22 * n + 2
  }

  lemma {:induction false} TurnsConcat(a: seq<Move>, b: seq<Move>, t: nat)
    ensures Turns(a + b, t) == Turns(a, t) + Turns(b, t)
    decreases |b|
  {
    if b == [] {
      assert a + b == a;
    } else {
      var init := b[..|b| - 1];
      assert (a + b)[..|a + b| - 1] == a + init;
      TurnsConcat(a, init, t);
    }
  }

  lemma {:induction false} TurnsAlone(u: nat, c: nat, t: nat)
    ensures Turns(seq(c, _ => Move(u, false)), t) == if t == u then c else 0
    decreases c
  {
    var m := seq(c, _ => Move(u, false));
    if c > 0 {
      assert m[..c - 1] == seq(c - 1, _ => Move(u, false));
      TurnsAlone(u, c - 1, t);
    }
  }

  /** Every launch has a fair schedule: one thread after the other. */
  lemma {:induction false} FairExists(threads: nat, n: nat) returns (moves: seq<Move>)
    ensures Fair(threads, n, moves) && forall k :: 0 <= k < |moves| ==> moves[k].t < threads
  {
    hide Turns;
    if threads == 0 {
      moves := [];
    } else {
      var before := FairExists(threads - 1, n);
      var last := seq(22 * n + 2, _ => Move(threads - 1, false));
      moves := before + last;
      forall t: nat | t < threads
        ensures Turns(moves, t) >= 22 * n + 2
      {
        TurnsConcat(before, last, t);
        TurnsAlone(threads - 1, 22 * n + 2, t);
      }
    }
  }

  /** Under a fair schedule every thread finishes. */
  lemma FairFinishes(l: Launch, address: Addr, nonce: int, moves: seq<Move>)
    requires l.Valid() && Fair(l.threads, l.n, moves)
    ensures Finished(Execute(l, Init(l, address, nonce), moves))
  {
    hide Execute, MatchesPattern, Turns;
    var s0 := Init(l, address, nonce);
    InitInv(l, address, nonce);
    ExecuteInv(l, s0, moves);
    var s := Execute(l, s0, moves);
    forall t: nat | t < |s.threads|
      ensures s.threads[t].Done?
    {
      ExecuteWork(l, s0, moves, t);
      assert ThreadOk(l, s, t);
    }
  }

  /** Under a fair schedule the flag ends up set exactly when some candidate of the launch matches, and then
      the slots hold the nonce and the address of one that does. */
  lemma FairFinds(l: Launch, address: Addr, nonce: int, moves: seq<Move>)
    requires l.Valid() && Fair(l.threads, l.n, moves)
    ensures var s := Execute(l, Init(l, address, nonce), moves);
      (s.found <==> SomeMatch(l)) && (s.found ==> Claimed(l, s.address, s.nonce))
  {
    hide Execute, Init, Turns, SomeMatch, Claimed;
    FairFinishes(l, address, nonce, moves);
    FoundIffMatch(l, address, nonce, moves);
    OneWriter(l, address, nonce, moves);
  }

  /** One thread with one candidate that every pattern of length 0 accepts. */
  function OneCandidate(address: Addr): Launch {
    Launch(1, 1, (t: nat, i: nat) => 0, (t: nat, i: nat) => address, [], [])
  }

  /** A weak compare-and-swap may miss: one thread, one matching candidate, one spurious failure. */
  lemma WeakMayMiss(address: Addr)
    ensures var l := OneCandidate(address);
      var s := Execute(l, Init(l, address, 0), [Move(0, false), Move(0, true), Move(0, false)]);
      Finished(s) && !s.found && SomeMatch(l)
  {
    var l := OneCandidate(address);
    assert l.Matches(0, 0);
    var m0, m1 := Move(0, false), Move(0, true);
    var s0 := Init(l, address, 0);
    assert Execute(l, s0, []) == s0;
    assert [m0][..0] == [] && [m0, m1][..1] == [m0] && [m0, m1, m0][..2] == [m0, m1];
    assert Execute(l, s0, [m0]) == Next(l, s0, m0);
    assert Execute(l, s0, [m0, m1]) == Next(l, Next(l, s0, m0), m1);
  }

  /** Two threads with one candidate each, both matching. */
  function TwoCandidates(address: Addr): Launch {
    Launch(2, 1, (t: nat, i: nat) => t, (t: nat, i: nat) => address, [], [])
  }

  /** The flag is set and thread t has not looked at it yet, or is done. */
  predicate LeftOut(s: State, t: nat) { s.found && t < |s.threads| && (s.threads[t].Fresh? || s.threads[t].Done?) }

  lemma LeftOutKept(l: Launch, s: State, m: Move, t: nat)
    requires l.Valid() && LeftOut(s, t)
    ensures LeftOut(Next(l, s, m), t)
  {
    hide MatchesPattern;
  }

  /** Once the flag is set, a thread that has not looked at it yet never tries anything, whatever the launch
      and the interleaving. */
  lemma {:induction false} EarlyExit(l: Launch, s: State, moves: seq<Move>, t: nat, i: nat)
    requires l.Valid() && LeftOut(s, t)
    ensures LeftOut(Execute(l, s, moves), t)
    ensures !Tried(l, s, moves, t, i)
    decreases |moves|
  {
    hide Tried, Next, MatchesPattern;
    if moves == [] {
      NothingTried(l, s, t, i);
    } else {
      var init, last := moves[..|moves| - 1], moves[|moves| - 1];
      assert moves == init + [last];
      EarlyExit(l, s, init, t, i);
      LeftOutKept(l, Execute(l, s, init), last, t);
      TriedKept(l, s, init, last, t, i);
    }
  }

  lemma NothingTried(l: Launch, s: State, t: nat, i: nat)
    requires l.Valid()
    ensures !Tried(l, s, [], t, i)
  {
  }

  /** It happens: the first thread sets the flag and the second one leaves. */
  lemma EarlyExitHappens(address: Addr)
    ensures var l := TwoCandidates(address);
      var s0, moves := Init(l, address, 0), [Move(0, false), Move(0, false), Move(1, false)];
      Execute(l, s0, moves).threads == [Writing(0, 0), Done] && !Tried(l, s0, moves, 1, 0)
  {
    var l := TwoCandidates(address);
    var m0, m1, s0 := Move(0, false), Move(1, false), Init(l, address, 0);
    assert l.Matches(0, 0);
    assert Execute(l, s0, []) == s0;
    assert [m0][..0] == [] && [m0, m0][..1] == [m0] && [m0, m0, m1][..2] == [m0, m0];
    assert Execute(l, s0, [m0]) == Next(l, s0, m0);
    assert Execute(l, s0, [m0, m0]) == Next(l, Next(l, s0, m0), m0);
    var moves := [m0, m0, m1];
    assert moves[..0] == [] && moves[..1] == [m0] && moves[..2] == [m0, m0];
    assert forall k :: 0 <= k < 3 ==> !Tries(Execute(l, s0, moves[..k]), moves[k], 1, 0);
  }
}

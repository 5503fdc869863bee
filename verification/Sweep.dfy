/** The ranges of nonces that the host sweeps: grid rounding, per-device offsets and the step loop. */
module Sweep {
  import opened Words
  import opened NumberTheory
  import opened Address
  import opened Race

  const NICK_BLOCK: nat := 256

  // ---- one launch ----

  /** The threads of a CUDA launch: whole blocks, rounded up. */
  function GridThreads(batch: nat, block: nat): nat
    requires block >= 1
  {
    (batch + block - 1) / block * block
  }

  /** The threads of an OpenCL launch, rounded by the other formula. */
  function GlobalSize(batch: nat, local: nat): nat
    requires local >= 1
  {
    if batch % local != 0 then (batch / local + 1) * local else batch
  }

  /** Rounding up adds less than a block, and nothing exactly for multiples; both formulas agree. */
  lemma RoundingUp(batch: nat, block: nat)
    requires block >= 1
    ensures batch <= GridThreads(batch, block) < batch + block
    ensures GridThreads(batch, block) == batch <==> batch % block == 0
    ensures GlobalSize(batch, block) == GridThreads(batch, block)
  {
    var q, r := batch / block, batch % block;
    ModSplit(batch, block);
    if r == 0 {
      ModUnique(batch + block - 1, block, q, block - 1);
    } else {
      assert (q + 1) * block == q * block + block;
      ModUnique(batch + block - 1, block, q + 1, r - 1);
    }
  }

  /** The thread index as the kernel computes it, in 32 bits: blockIdx * blockDim + threadIdx. */
  function ThreadIndex(b: nat, block: nat, t: nat): nat { (b * block + t) % B32 }

  /** While batch and block together stay below 2^31, the 32-bit index does not wrap: the threads of the
      grid have the indices 0 to GridThreads - 1, each once. */
  lemma IndicesAreTheGrid(batch: nat, block: nat, b: nat, t: nat)
    requires block >= 1 && batch + block <= B32 / 2 && b < (batch + block - 1) / block && t < block
    ensures ThreadIndex(b, block, t) == b * block + t < GridThreads(batch, block)
    ensures ThreadIndex(b, block, t) / block == b && ThreadIndex(b, block, t) % block == t
  {
    hide GridThreads;
    var blocks := (batch + block - 1) / block;
    RoundingUp(batch, block);
    MulAtLeast(blocks, b + 1, block);
    assert (b + 1) * block == b * block + block;
    BlocksTimesBlock(batch, block);
    ModUnique(b * block + t, B32, 0, b * block + t);
    ModUnique(b * block + t, block, b, t);
  }

  lemma BlocksTimesBlock(batch: nat, block: nat)
    requires block >= 1
    ensures (batch + block - 1) / block * block == GridThreads(batch, block)
  {
  }

  /** The order in which a thread visits its candidates: 0, n-1, n-2, ..., 1. */
  function Visit(n: nat, i: nat): (v: nat)
    requires i < n
    ensures v < n
  {
    if i == 0 then 0 else n - i
  }

  /** Candidate i of thread t: base = start + t * n, then base + offset, in 64 bits. */
  function NonceAt(start: Word, n: nat, t: nat, i: nat): Word {
    (start + t * n + i) % B64
  }

  function GridLaunch(start: Word, threads: nat, n: nat, address: nat -> Addr, prefix: seq<bv8>,
                      suffix: seq<bv8>): Launch
  {
    Launch(threads, n, (t: nat, i: nat) => if i < n then NonceAt(start, n, t, Visit(n, i)) else 0,
           (t: nat, i: nat) => if i < n then address(NonceAt(start, n, t, Visit(n, i))) else address(0), prefix, suffix)
  }

  /** Candidate k is assigned to some thread of the grid. A thread that finds the flag set tries none of its
      candidates, so an assigned candidate need not be tried. */
  ghost predicate Assigned(start: Word, threads: nat, n: nat, k: int) {
    exists t: nat, i: nat :: t < threads && i < n && k == NonceAt(start, n, t, i)
  }

  lemma AssignedBy(start: Word, threads: nat, n: nat, t: nat, i: nat)
    requires t < threads && i < n
    ensures Assigned(start, threads, n, NonceAt(start, n, t, i))
  {
    hide NonceAt;
  }

  /** Each of the batch * n nonces from start on, in 64 bits, is some thread's. */
  lemma GridCovers(start: Word, batch: nat, threads: nat, n: nat, x: nat)
    requires n >= 1 && batch <= threads && x < batch * n
    ensures Assigned(start, threads, n, (start + x) % B64)
  {
    var t, i := x / n, x % n;
    ModSplit(x, n);
    if t >= batch {
      MulAtLeast(t, batch, n);
      assert false;
    }
    assert (start + x) % B64 == NonceAt(start, n, t, i);
    AssignedBy(start, threads, n, t, i);
  }

  lemma MulAtLeast(a: nat, b: nat, c: nat)
    requires a >= b
    ensures a * c >= b * c
  {
  }

  /** The launch has a match exactly when a candidate assigned to one of its threads matches. */
  lemma LaunchMatches(start: Word, threads: nat, n: nat, address: nat -> Addr, prefix: seq<bv8>, suffix: seq<bv8>)
    requires |prefix| <= 20 && |suffix| <= 20
    ensures SomeMatch(GridLaunch(start, threads, n, address, prefix, suffix)) <==>
            exists k: nat :: Assigned(start, threads, n, k) && MatchesPattern(address(k), prefix, suffix)
  {
    hide NonceAt, MatchesPattern;
    var l := GridLaunch(start, threads, n, address, prefix, suffix);
    if SomeMatch(l) {
      var t: nat, i: nat :| l.Matches(t, i);
      AssignedBy(start, threads, n, t, Visit(n, i));
    }
    if k: nat :| Assigned(start, threads, n, k) && MatchesPattern(address(k), prefix, suffix) {
      var t: nat, i: nat :| t < threads && i < n && k == NonceAt(start, n, t, i);
      var j := if i == 0 then 0 else n - i;
      assert Visit(n, j) == i;
      assert l.Matches(t, j);
    }
  }

  // ---- several devices ----

  /** The candidates of the devices before d. */
  function Offset(batches: seq<nat>, d: nat, n: nat): nat
    requires d <= |batches|
  {
    if d == 0 then 0 else Offset(batches, d - 1, n) + batches[d - 1] * n
  }

  /** The nonce that device idx is given: the offsets are summed in 64 bits. */
  method DeviceStart(startNonce: Word, batches: seq<nat>, idx: nat, n: nat) returns (start: Word)
    requires idx < |batches|
    ensures start == (startNonce + Offset(batches, idx, n)) % B64
  {
    hide Offset;
    var gpuOffset: Word := 0;
    OffsetZero(batches, n);
    for j := 0 to idx
      invariant gpuOffset == Offset(batches, j, n) % B64
    {
      OffsetNext(batches, j, n);
      AddMod(Offset(batches, j, n), batches[j] * n);
      gpuOffset := (gpuOffset + batches[j] * n) % B64;
    }
    AddMod(Offset(batches, idx, n), startNonce);
    start := (startNonce + gpuOffset) % B64;
  }

  lemma OffsetZero(batches: seq<nat>, n: nat)
    ensures Offset(batches, 0, n) == 0
  {
  }

  lemma OffsetNext(batches: seq<nat>, j: nat, n: nat)
    requires j < |batches|
    ensures Offset(batches, j + 1, n) == Offset(batches, j, n) + batches[j] * n
  {
  }

  lemma AddMod(a: int, b: int)
    ensures (a % B64 + b) % B64 == (a + b) % B64
  {
  }

  lemma {:induction false} OffsetGrows(batches: seq<nat>, d: nat, e: nat, n: nat)
    requires d <= e <= |batches|
    ensures Offset(batches, d, n) <= Offset(batches, e, n)
    decreases e
  {
    if d < e { OffsetGrows(batches, d, e - 1, n); }
  }

  /** The device whose share of the span holds offset x. */
  lemma {:induction false} DeviceOf(batches: seq<nat>, m: nat, n: nat, x: nat) returns (d: nat)
    requires m <= |batches| && x < Offset(batches, m, n)
    ensures d < m && Offset(batches, d, n) <= x < Offset(batches, d + 1, n)
    decreases m
  {
    if x < Offset(batches, m - 1, n) {
      d := DeviceOf(batches, m - 1, n, x);
    } else {
      d := m - 1;
    }
  }

  /** The nonce that device d is given. */
  function DeviceFirst(startNonce: Word, batches: seq<nat>, d: nat, n: nat): Word
    requires d <= |batches|
  {
    (startNonce + Offset(batches, d, n)) % B64
  }

  /** One call of Mine assigns each of the total nonces from startNonce on, in 64 bits, to a thread of the
      device whose share it is. */
  lemma DevicesCover(startNonce: Word, batches: seq<nat>, n: nat, x: nat) returns (d: nat)
    requires n >= 1 && x < Offset(batches, |batches|, n)
    ensures d < |batches| && Offset(batches, d, n) <= x < Offset(batches, d + 1, n)
    ensures Assigned(DeviceFirst(startNonce, batches, d, n), GridThreads(batches[d], NICK_BLOCK), n,
                     (startNonce + x) % B64)
  {
    hide Assigned, GridThreads, Offset;
    d := DeviceOf(batches, |batches|, n, x);
    OffsetNext(batches, d, n);
    var o := Offset(batches, d, n);
    AddMod(startNonce + o, x - o);
    RoundingUp(batches[d], NICK_BLOCK);
    GridCovers((startNonce + o) % B64, batches[d], GridThreads(batches[d], NICK_BLOCK), n, x - o);
  }

  // ---- exact division of the span ----

  /** Candidate x, as an offset from the start, lies in the range of device d's grid. */
  ghost predicate InRangeOf(batches: seq<nat>, n: nat, block: nat, d: nat, x: nat)
    requires d < |batches| && block >= 1
  {
    Offset(batches, d, n) <= x < Offset(batches, d, n) + GridThreads(batches[d], block) * n
  }

  /** Candidate x is in some device's range. */
  ghost predicate InSomeRange(batches: seq<nat>, n: nat, block: nat, x: nat)
    requires block >= 1
  {
    exists d: nat :: d < |batches| && InRangeOf(batches, n, block, d, x)
  }

  /** The devices' ranges cover the span, stay inside it and do not overlap. */
  ghost predicate Partition(batches: seq<nat>, n: nat, block: nat)
    requires block >= 1
  {
    && (forall x: nat :: x < Offset(batches, |batches|, n) ==> InSomeRange(batches, n, block, x))
    && (forall d: nat, x: nat :: d < |batches| && InRangeOf(batches, n, block, d, x) ==>
          x < Offset(batches, |batches|, n))
    && (forall d: nat, e: nat, x: nat :: d < e < |batches| && InRangeOf(batches, n, block, d, x) ==>
          !InRangeOf(batches, n, block, e, x))
  }

  /** The ranges partition the span exactly when every batch fills its blocks. */
  lemma PartitionIffWholeBlocks(batches: seq<nat>, n: nat, block: nat)
    requires n >= 1 && block >= 1
    ensures Partition(batches, n, block) <==> forall d :: 0 <= d < |batches| ==> batches[d] % block == 0
  {
    hide Offset, GridThreads, InRangeOf;
    forall x: nat | x < Offset(batches, |batches|, n)
      ensures InSomeRange(batches, n, block, x)
    {
      var d := OwnerOf(batches, n, block, x);
    }
    if forall d :: 0 <= d < |batches| ==> batches[d] % block == 0 {
      forall d: nat, x: nat | d < |batches| && InRangeOf(batches, n, block, d, x)
        ensures x < Offset(batches, d + 1, n) <= Offset(batches, |batches|, n)
      {
        WholeRange(batches, n, block, d, x);
        OffsetGrows(batches, d + 1, |batches|, n);
      }
      forall d: nat, e: nat, x: nat | d < e < |batches| && InRangeOf(batches, n, block, d, x)
        ensures !InRangeOf(batches, n, block, e, x)
      {
        WholeRange(batches, n, block, d, x);
        OffsetGrows(batches, d + 1, e, n);
        RangeStart(batches, n, block, e, x);
      }
    } else {
      var d: nat :| d < |batches| && batches[d] % block != 0;
      var x := Offset(batches, d + 1, n);
      Overrun(batches, n, block, d);
      if x < Offset(batches, |batches|, n) {
        var e := OwnerOf(batches, n, block, x);
        if e <= d { OffsetGrows(batches, e + 1, d + 1, n); }
      }
    }
  }

  /** The device whose share holds x has x in its range. */
  lemma OwnerOf(batches: seq<nat>, n: nat, block: nat, x: nat) returns (d: nat)
    requires block >= 1 && x < Offset(batches, |batches|, n)
    ensures d < |batches|
    ensures Offset(batches, d, n) <= x < Offset(batches, d + 1, n) && InRangeOf(batches, n, block, d, x)
  {
    hide GridThreads, Offset;
    d := DeviceOf(batches, |batches|, n, x);
    OffsetNext(batches, d, n);
    RoundingUp(batches[d], block);
    MulAtLeast(GridThreads(batches[d], block), batches[d], n);
  }

  lemma WholeRange(batches: seq<nat>, n: nat, block: nat, d: nat, x: nat)
    requires block >= 1 && d < |batches| && batches[d] % block == 0 && InRangeOf(batches, n, block, d, x)
    ensures x < Offset(batches, d + 1, n)
  {
    hide GridThreads;
    RoundingUp(batches[d], block);
  }

  lemma RangeStart(batches: seq<nat>, n: nat, block: nat, e: nat, x: nat)
    requires block >= 1 && e < |batches|
    ensures InRangeOf(batches, n, block, e, x) ==> x >= Offset(batches, e, n)
  {
  }

  lemma Overrun(batches: seq<nat>, n: nat, block: nat, d: nat)
    requires n >= 1 && block >= 1 && d < |batches| && batches[d] % block != 0
    ensures InRangeOf(batches, n, block, d, Offset(batches, d + 1, n))
  {
    hide GridThreads, Offset;
    RoundingUp(batches[d], block);
    OffsetNext(batches, d, n);
    var g, b := GridThreads(batches[d], block), batches[d];
    MulAtLeast(g, b + 1, n);
    assert (b + 1) * n == b * n + n;
  }

  // ---- the step loop ----

  /** The nonce of host step j: `nonce += total` in 64 bits. */
  function StepNonce(start: Word, total: nat, j: nat): Word { (start + j * total) % B64 }

  lemma StepNonceNext(start: Word, total: nat, j: nat)
    ensures StepNonce(start, total, j + 1) == (StepNonce(start, total, j) + total) % B64
  {
    assert (j + 1) * total == j * total + total;
    AddMod(start + j * total, total);
  }

  /** No nonce is left out: in m steps each of the m * total nonces from start on, in 64 bits, is assigned to
      a thread of some device in the step it belongs to. */
  lemma EveryNonceAssigned(start: Word, batches: seq<nat>, n: nat, m: nat, x: nat) returns (j: nat, d: nat)
    requires n >= 1 && x < m * Offset(batches, |batches|, n)
    ensures j < m && j * Offset(batches, |batches|, n) <= x < (j + 1) * Offset(batches, |batches|, n)
    ensures d < |batches|
    ensures Assigned(StepFirst(start, batches, n, j, d), GridThreads(batches[d], NICK_BLOCK), n, (start + x) % B64)
  {
    hide Assigned, Offset, GridThreads, DeviceFirst, StepNonce;
    var total := Offset(batches, |batches|, n);
    var y;
    j, y := StepOf(start, total, m, x);
    d := DevicesCover(StepNonce(start, total, j), batches, n, y);
  }

  /** The step that x belongs to, and its place in that step. */
  lemma StepOf(start: Word, total: nat, m: nat, x: nat) returns (j: nat, y: nat)
    requires x < m * total
    ensures j < m && j * total <= x < (j + 1) * total
    ensures y < total && (StepNonce(start, total, j) + y) % B64 == (start + x) % B64
  {
    assert total == 0 ==> m * total == 0;
    j, y := x / total, x % total;
    ModSplit(x, total);
    if j >= m { MulAtLeast(j, m, total); assert false; }
    assert (j + 1) * total == j * total + total;
    AddMod(start + j * total, y);
  }

  /** The nonce that device d is given in step j. */
  function StepFirst(start: Word, batches: seq<nat>, n: nat, j: nat, d: nat): Word
    requires d < |batches|
  {
    DeviceFirst(StepNonce(start, Offset(batches, |batches|, n), j), batches, d, n)
  }

  /** What device d launches in step j, when candidate k has the address address(k). */
  function SweepLaunch(start: Word, batches: seq<nat>, n: nat, j: nat, d: nat,
                       address: nat -> Addr, prefix: seq<bv8>, suffix: seq<bv8>): Launch
    requires d < |batches|
  {
    GridLaunch(StepFirst(start, batches, n, j, d), GridThreads(batches[d], NICK_BLOCK), n, address, prefix, suffix)
  }

  /** If no launch of any device in m steps has a match, no nonce of the swept span matches. */
  lemma NothingSkipped(start: Word, batches: seq<nat>, n: nat, m: nat,
                       address: nat -> Addr, prefix: seq<bv8>, suffix: seq<bv8>, x: nat)
    requires n >= 1 && |prefix| <= 20 && |suffix| <= 20 && x < m * Offset(batches, |batches|, n)
    requires forall j: nat, d: nat :: j < m && d < |batches| ==>
      !SomeMatch(SweepLaunch(start, batches, n, j, d, address, prefix, suffix))
    ensures !MatchesPattern(address((start + x) % B64), prefix, suffix)
  {
    hide Assigned, Offset, GridThreads, StepFirst, SomeMatch, NonceAt, MatchesPattern;
    var j, d := EveryNonceAssigned(start, batches, n, m, x);
    assert !SomeMatch(SweepLaunch(start, batches, n, j, d, address, prefix, suffix));
    LaunchMatches(StepFirst(start, batches, n, j, d), GridThreads(batches[d], NICK_BLOCK), n, address, prefix, suffix);
  }

  /** Device d's launch of step j ends with the flag unset, on a fair schedule. */
  ghost predicate EndsUnset(l: Launch, a: Addr, nonce: int, moves: seq<Move>)
    requires l.Valid()
  {
    Fair(l.threads, l.n, moves) && !Execute(l, Init(l, a, nonce), moves).found
  }

  /** If every launch of m steps ends with the flag unset, every nonce of the swept span was tried by
      its thread, and it does not match. */
  lemma UnsetFlagsTryAll(start: Word, batches: seq<nat>, n: nat, m: nat, address: nat -> Addr, prefix: seq<bv8>,
                         suffix: seq<bv8>, a: Addr, nonce: int, moves: (nat, nat) -> seq<Move>, x: nat)
    returns (j: nat, d: nat, t: nat, i: nat)
    requires n >= 1 && |prefix| <= 20 && |suffix| <= 20 && x < m * Offset(batches, |batches|, n)
    requires forall j: nat, d: nat :: j < m && d < |batches| ==>
      EndsUnset(SweepLaunch(start, batches, n, j, d, address, prefix, suffix), a, nonce, moves(j, d))
    ensures j < m && d < |batches|
    ensures var l, k := SweepLaunch(start, batches, n, j, d, address, prefix, suffix), (start + x) % B64;
      && t < l.threads && i < n && l.nonce(t, i) == k && l.address(t, i) == address(k)
      && Tried(l, Init(l, a, nonce), moves(j, d), t, i) && !MatchesPattern(address(k), prefix, suffix)
  {
    hide Offset, GridThreads, StepFirst, NonceAt, Tried, Execute, Init, Fair, MatchesPattern;
    j, d := EveryNonceAssigned(start, batches, n, m, x);
    var l := SweepLaunch(start, batches, n, j, d, address, prefix, suffix);
    assert EndsUnset(l, a, nonce, moves(j, d));
    t, i := VisitOf(StepFirst(start, batches, n, j, d), l.threads, n, (start + x) % B64);
    FairFinishes(l, a, nonce, moves(j, d));
    UnsetMeansAllTried(l, a, nonce, moves(j, d), t, i);
    FairFinds(l, a, nonce, moves(j, d));
    assert !l.Matches(t, i);
  }

  /** The visit at which an assigned candidate is tried. */
  lemma VisitOf(start: Word, threads: nat, n: nat, k: int) returns (t: nat, i: nat)
    requires Assigned(start, threads, n, k)
    ensures t < threads && i < n && k == NonceAt(start, n, t, Visit(n, i))
  {
    hide NonceAt;
    var v: nat;
    t, v :| t < threads && v < n && k == NonceAt(start, n, t, v);
    i := if v == 0 then 0 else n - v;
    assert Visit(n, i) == v;
  }
}

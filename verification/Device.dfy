/** The CUDA context with its cached Q_base, the miner of one device, one call over several devices, and the
    host loop that steps them until one finds. */
module Device {
  import opened Words
  import opened Wire
  import opened Comb
  import opened HostPrecompute
  import opened Address
  import opened Race
  import opened Sweep
  import opened Kernel

  /** Device memory after a copy of `part` to its start. */
  function Copied(memory: seq<bv8>, part: seq<bv8>): (m: seq<bv8>)
    requires |part| <= |memory|
    ensures |m| == |memory| && m[..|part|] == part
  {
    part + memory[|part|..]
  }

  /** The launcher's state for one device: the fields with d are device memory. */
  class Context {
    const batchSize: nat
    var tableLoaded: bool
    var dTable: seq<Byte>
    var qbaseLoaded: bool
    var cachedQbase: seq<Byte>
    var dQbase: seq<Byte>
    var dPrefix: seq<bv8>
    var dSuffix: seq<bv8>
    var found: bool
    var resultAddress: Addr
    var resultNonce: int

    constructor (batchSize: nat)
      ensures Valid() && !tableLoaded && this.batchSize == batchSize
    {
      this.batchSize := batchSize;
      tableLoaded, dTable := false, [];
      qbaseLoaded, cachedQbase, dQbase := false, [], [];
      dPrefix, dSuffix := seq(20, _ => 0), seq(20, _ => 0);
      found, resultAddress, resultNonce := false, seq(20, _ => 0), 0;
    }

    /** The host's copy of Q_base is what the device holds, and a loaded table is a whole one. */
    ghost predicate Valid()
      reads this
    {
      && (tableLoaded ==> |dTable| == TABLE_BYTES) && (qbaseLoaded ==> cachedQbase == dQbase)
      && |dPrefix| == 20 && |dSuffix| == 20
    }

    /** Upload of the comb table: only one of the full length is accepted. */
    method SetTable(table: seq<Byte>) returns (ok: bool)
      requires Valid()
      modifies this`tableLoaded, this`dTable
      ensures Valid() && ok == (|table| == TABLE_BYTES) && tableLoaded == (old(tableLoaded) || ok)
      ensures dTable == if ok then table else old(dTable)
    {
      ok := |table| == TABLE_BYTES;
      if ok { dTable, tableLoaded := table, true; }
    }

    /** The copies before a launch. That of Q_base is skipped when the cached one is the same, and a pattern
        part of length 0 is not copied; still the device holds what was passed in. */
    method Upload(qbase: seq<Byte>, prefix: seq<bv8>, suffix: seq<bv8>)
      requires Valid() && |prefix| <= 20 && |suffix| <= 20
      modifies this`qbaseLoaded, this`cachedQbase, this`dQbase, this`dPrefix, this`dSuffix
      ensures Valid() && dQbase == qbase && dPrefix[..|prefix|] == prefix && dSuffix[..|suffix|] == suffix
      ensures qbaseLoaded && cachedQbase == qbase
    {
      hide Copied;
      if !qbaseLoaded || cachedQbase != qbase {
        dQbase := qbase;
        cachedQbase := qbase;
        qbaseLoaded := true;
      }
      if |prefix| > 0 { dPrefix := Copied(dPrefix, prefix); }
      if |suffix| > 0 { dSuffix := Copied(dSuffix, suffix); }
    }

    /** The kernel of a grid on what the device memory holds now. */
    method Launch(threads: nat, prefixLen: nat, suffixLen: nat, start: Word, n: nat, moves: seq<Move>)
      requires Valid() && tableLoaded && |dQbase| == 64 && prefixLen <= 20 && suffixLen <= 20 && 1 <= n <= 256 && !found
      requires Fair(threads, n, moves)
      modifies this`found, this`resultAddress, this`resultNonce
      ensures var l := Query(dTable, dQbase, dPrefix[..prefixLen], dSuffix[..suffixLen], n).On(threads, start);
        (found <==> SomeMatch(l)) && (found ==> Claimed(l, resultAddress, resultNonce))
    {
      hide Execute, Fair, SomeMatch, Claimed, Query.On;
      var l := Query(dTable, dQbase, dPrefix[..prefixLen], dSuffix[..suffixLen], n).On(threads, start);
      var s := Execute(l, Init(l, resultAddress, resultNonce), moves);
      FairFinds(l, resultAddress, resultNonce, moves);
      found, resultAddress, resultNonce := s.found, s.address, s.nonce;
    }

    /** One batch: despite the skipped copies the launch runs on what was passed in, with a grid of whole
        blocks. It returns 1 exactly when a candidate of that launch matches, with its nonce and address. */
    method Mine(qbase: seq<Byte>, prefix: seq<bv8>, suffix: seq<bv8>, start: Word, n: nat, moves: seq<Move>)
      returns (ret: int, address: Addr, nonce: int)
      requires Valid() && |qbase| == 64 && |prefix| <= 20 && |suffix| <= 20 && 1 <= n <= 256
      requires Fair(GridThreads(batchSize, NICK_BLOCK), n, moves)
      modifies this
      ensures Valid() && tableLoaded == old(tableLoaded) && dTable == old(dTable)
      ensures ret == -1 || ret == 0 || ret == 1
      ensures ret == -1 <==> !tableLoaded
      ensures ret >= 0 ==>
        var l := Query(dTable, qbase, prefix, suffix, n).On(GridThreads(batchSize, NICK_BLOCK), start);
        (ret == 1 <==> SomeMatch(l)) && (ret == 1 ==> Claimed(l, address, nonce))
    {
      hide Fair, SomeMatch, Claimed, Query.On;
      address, nonce := seq(20, _ => 0), 0;
      if !tableLoaded { return -1, address, nonce; }
      Upload(qbase, prefix, suffix);
      found := false;
      var threads := (batchSize + NICK_BLOCK - 1) / NICK_BLOCK * NICK_BLOCK;
      Launch(threads, |prefix|, |suffix|, start, n, moves);
      if found {
        return 1, resultAddress, resultNonce;
      }
      ret := 0;
    }
  }

  /** What a call to Mine returns: an error, no result, or a result. */
  datatype MineResult = Failed | Nothing | Hit(address: Addr, nonce: int)

  /** The query that a precompute and a pattern make up. */
  function QueryFor(p: Precompute, prefix: seq<bv8>, suffix: seq<bv8>, n: nat): Query
    reads p.dTable, p.qBaseBytes
  {
    Query(p.dTable[..], p.qBaseBytes[..], prefix, suffix, n)
  }

  /** The miner of one device: it uploads the table when it sees a new precompute. */
  class Miner {
    const ctx: Context
    var loadedFor: Precompute?

    constructor (ctx: Context)
      requires ctx.Valid()
      ensures Valid() && this.ctx == ctx
    {
      this.ctx := ctx;
      loadedFor := null;
    }

    /** The table on the device is that of the precompute it was loaded for. */
    ghost predicate Valid()
      reads this, ctx, if loadedFor == null then {} else {loadedFor.dTable}
    {
      ctx.Valid() && (loadedFor != null ==> ctx.tableLoaded && ctx.dTable == loadedFor.dTable[..])
    }

    /** One batch on one device: it fails exactly for a table of the wrong length. */
    method Mine(p: Precompute, prefix: seq<bv8>, suffix: seq<bv8>, start: Word, n: nat, moves: seq<Move>)
      returns (res: MineResult)
      requires Valid() && p.qBaseBytes.Length == 64 && |prefix| <= 20 && |suffix| <= 20 && 1 <= n <= 256
      requires Fair(GridThreads(ctx.batchSize, NICK_BLOCK), n, moves)
      modifies this, ctx
      ensures Valid()
      ensures res.Failed? <==> p.dTable.Length != TABLE_BYTES
      ensures !res.Failed? ==>
        var l := QueryFor(p, prefix, suffix, n).On(GridThreads(ctx.batchSize, NICK_BLOCK), start);
        (res.Hit? <==> SomeMatch(l)) && (res.Hit? ==> Claimed(l, res.address, res.nonce))
    {
      hide Fair, GridThreads, SomeMatch, Claimed, Query.On;
      if loadedFor != p {
        var ok := ctx.SetTable(p.dTable[..]);
        if !ok { return Failed; }
        loadedFor := p;
      }
      var ret, address, nonce := ctx.Mine(p.qBaseBytes[..], prefix, suffix, start, n, moves);
      res := if ret < 0 then Failed else if ret == 1 then Hit(address, nonce) else Nothing;
    }
  }

  // ---- several devices ----

  function Batches(miners: seq<Miner>): (b: seq<nat>)
    ensures |b| == |miners|
  {
    seq(|miners|, d requires 0 <= d < |miners| => miners[d].ctx.batchSize)
  }

  /** No two miners share a device. */
  ghost predicate Separate(miners: seq<Miner>) {
    forall d, e :: 0 <= d < e < |miners| ==> miners[d] != miners[e] && miners[d].ctx != miners[e].ctx
  }

  /** How one call goes: the order in which the devices finish, the interleaving of each device's threads,
      and whether the final select takes a result that is there. */
  datatype Schedule = Schedule(order: seq<nat>, moves: seq<seq<Move>>, taken: bool)
  {
    /** Every device finishes, its schedule is fair, and without a select nothing is dropped. */
    ghost predicate Proper(batches: seq<nat>, n: nat) {
      && |order| == |batches| && (forall c :: 0 <= c < |order| ==> order[c] < |batches|)
      && (forall d: nat :: d < |batches| ==> d in order)
      && |moves| == |batches|
      && (forall d :: 0 <= d < |batches| ==> Fair(GridThreads(batches[d], NICK_BLOCK), n, moves[d]))
      && (|batches| == 1 ==> taken)
    }
  }

  /** Every call has a proper schedule that drops nothing. */
  lemma ProperExists(batches: seq<nat>, n: nat) returns (schedule: Schedule)
    ensures schedule.Proper(batches, n) && schedule.taken
  {
    hide Fair, GridThreads;
    var order, moves := [], [];
    for d := 0 to |batches|
      invariant |order| == |moves| == d && forall e :: 0 <= e < d ==> order[e] == e
      invariant forall e :: 0 <= e < d ==> Fair(GridThreads(batches[e], NICK_BLOCK), n, moves[e])
    {
      var m := FairExists(GridThreads(batches[d], NICK_BLOCK), n);
      order, moves := order + [d], moves + [m];
    }
    forall d: nat | d < |batches|
      ensures d in order
    {
      assert order[d] == d;
    }
    schedule := Schedule(order, moves, true);
  }

  /** One of the first c devices to finish has a match. */
  ghost predicate MatchedBy(query: Query, batches: seq<nat>, start: Word, order: seq<nat>, c: nat)
    requires query.Valid() && c <= |order| && forall e :: 0 <= e < |order| ==> order[e] < |batches|
  {
    exists e :: 0 <= e < c && SomeMatch(query.OnDevice(batches, start, order[e]))
  }

  lemma MatchedNext(query: Query, batches: seq<nat>, start: Word, order: seq<nat>, c: nat)
    requires query.Valid() && c < |order| && forall e :: 0 <= e < |order| ==> order[e] < |batches|
    ensures !MatchedBy(query, batches, start, order, 0)
    ensures MatchedBy(query, batches, start, order, c + 1) <==>
              MatchedBy(query, batches, start, order, c) || SomeMatch(query.OnDevice(batches, start, order[c]))
  {
    hide SomeMatch, Query.OnDevice;
  }

  lemma IsFirstMatch(query: Query, batches: seq<nat>, start: Word, order: seq<nat>, c: nat)
    requires query.Valid() && c < |order| && forall e :: 0 <= e < |order| ==> order[e] < |batches|
    requires SomeMatch(query.OnDevice(batches, start, order[c])) && !MatchedBy(query, batches, start, order, c)
    ensures query.FirstMatch(batches, start, order, c)
  {
    hide SomeMatch, Query.OnDevice;
  }

  lemma MatchedAll(query: Query, batches: seq<nat>, start: Word, order: seq<nat>)
    requires query.Valid() && forall e :: 0 <= e < |order| ==> order[e] < |batches|
    requires forall d: nat :: d < |batches| ==> d in order
    ensures MatchedBy(query, batches, start, order, |order|) <==> query.CallMatches(batches, start)
    ensures !MatchedBy(query, batches, start, order, 0)
  {
    hide SomeMatch, Query.OnDevice;
    if d: nat :| d < |batches| && SomeMatch(query.OnDevice(batches, start, d)) {
      assert d in order;
      var e :| 0 <= e < |order| && order[e] == d;
    }
  }

  /** The batch of one device of a call, from its own offset. */
  method MineOne(miners: seq<Miner>, p: Precompute, prefix: seq<bv8>, suffix: seq<bv8>, startNonce: Word, n: nat,
                 idx: nat, moves: seq<Move>)
    returns (res: MineResult)
    requires idx < |miners| && Separate(miners) && forall d :: 0 <= d < |miners| ==> miners[d].Valid()
    requires QueryFor(p, prefix, suffix, n).Valid() && Fair(GridThreads(Batches(miners)[idx], NICK_BLOCK), n, moves)
    modifies miners[idx], miners[idx].ctx
    ensures forall d :: 0 <= d < |miners| ==> miners[d].Valid()
    ensures !res.Failed?
    ensures var l := QueryFor(p, prefix, suffix, n).OnDevice(Batches(miners), startNonce, idx);
      (res.Hit? <==> SomeMatch(l)) && (res.Hit? ==> Claimed(l, res.address, res.nonce))
  {
    hide Fair, GridThreads, SomeMatch, Claimed, Query.On, Offset;
    var start := DeviceStart(startNonce, Batches(miners), idx, n);
    res := miners[idx].Mine(p, prefix, suffix, start, n, moves);
  }

  /** One batch on every device, from its own offset. The first device to finish with a match is the result,
      and the call returns it unless the select takes the channel that says that all are done. */
  method MineAll(miners: seq<Miner>, p: Precompute, prefix: seq<bv8>, suffix: seq<bv8>, startNonce: Word, n: nat,
                 schedule: Schedule)
    returns (res: MineResult)
    requires Separate(miners) && forall d :: 0 <= d < |miners| ==> miners[d].Valid()
    requires QueryFor(p, prefix, suffix, n).Valid() && schedule.Proper(Batches(miners), n)
    modifies miners, set m | m in miners :: m.ctx
    ensures forall d :: 0 <= d < |miners| ==> miners[d].Valid()
    ensures !res.Failed?
    ensures res.Hit? <==> schedule.taken && QueryFor(p, prefix, suffix, n).CallMatches(Batches(miners), startNonce)
    ensures res.Hit? ==>
      QueryFor(p, prefix, suffix, n).CallClaims(Batches(miners), startNonce, schedule.order, res.address, res.nonce)
  {
    hide Fair, GridThreads, SomeMatch, Claimed, Query.OnDevice, Query.Valid, Query.FirstMatch, MatchedBy, Miner.Valid,
         Separate;
    var batches := Batches(miners);
    ghost var query := QueryFor(p, prefix, suffix, n);
    MatchedAll(query, batches, startNonce, schedule.order);
    res := Nothing;
    for c := 0 to |schedule.order|
      invariant forall d :: 0 <= d < |miners| ==> miners[d].Valid()
      invariant !res.Failed?
      invariant res.Hit? ==> query.CallClaims(batches, startNonce, schedule.order, res.address, res.nonce)
      invariant res.Hit? <==> MatchedBy(query, batches, startNonce, schedule.order, c)
    {
      var idx := schedule.order[c];
      MatchedNext(query, batches, startNonce, schedule.order, c);
      var r := MineOne(miners, p, prefix, suffix, startNonce, n, idx, schedule.moves[idx]);
      if r.Hit? && res.Nothing? {
        IsFirstMatch(query, batches, startNonce, schedule.order, c);
        res := r;
      }
    }
    if !schedule.taken { res := Nothing; }
  }

  /** One call of the runner: several devices go through MineAll, a single one is called directly. */
  method Call(miners: seq<Miner>, p: Precompute, prefix: seq<bv8>, suffix: seq<bv8>, startNonce: Word, n: nat,
              schedule: Schedule)
    returns (res: MineResult)
    requires |miners| >= 1 && Separate(miners) && forall d :: 0 <= d < |miners| ==> miners[d].Valid()
    requires QueryFor(p, prefix, suffix, n).Valid() && schedule.Proper(Batches(miners), n)
    modifies miners, set m | m in miners :: m.ctx
    ensures forall d :: 0 <= d < |miners| ==> miners[d].Valid()
    ensures !res.Failed?
    ensures res.Hit? <==> schedule.taken && QueryFor(p, prefix, suffix, n).CallMatches(Batches(miners), startNonce)
    ensures res.Hit? ==>
      QueryFor(p, prefix, suffix, n).CallClaims(Batches(miners), startNonce, schedule.order, res.address, res.nonce)
  {
    hide Fair, GridThreads, SomeMatch, Claimed, Query.On;
    if |miners| > 1 {
      res := MineAll(miners, p, prefix, suffix, startNonce, n, schedule);
    } else {
      ghost var query := QueryFor(p, prefix, suffix, n);
      assert query.OnDevice(Batches(miners), startNonce, 0)
          == query.On(GridThreads(miners[0].ctx.batchSize, NICK_BLOCK), startNonce);
      assert 0 in schedule.order && schedule.order[0] == 0;
      res := miners[0].Mine(p, prefix, suffix, startNonce, n, schedule.moves[0]);
      if res.Hit? { IsFirstMatch(query, Batches(miners), startNonce, schedule.order, 0); }
    }
  }

  // ---- the host loop ----

  /** The batch loop, cut off after as many calls as there are schedules. It stops at the first call that
      returns a result, and every call before it had no match, or dropped it. */
  method SearchLoop(miners: seq<Miner>, p: Precompute, prefix: seq<bv8>, suffix: seq<bv8>, startNonce: Word, n: nat,
                    schedules: seq<Schedule>)
    returns (res: MineResult, ghost steps: nat)
    requires |miners| >= 1 && Separate(miners) && forall d :: 0 <= d < |miners| ==> miners[d].Valid()
    requires QueryFor(p, prefix, suffix, n).Valid()
    requires forall j :: 0 <= j < |schedules| ==> schedules[j].Proper(Batches(miners), n)
    modifies miners, set m | m in miners :: m.ctx
    ensures !res.Failed? && steps <= |schedules|
    ensures var query, total := QueryFor(p, prefix, suffix, n), Offset(Batches(miners), |miners|, n);
      && (res.Nothing? ==> steps == |schedules|)
      && (res.Hit? ==> steps < |schedules| && schedules[steps].taken)
      && (res.Hit? ==> query.CallClaims(Batches(miners), StepNonce(startNonce, total, steps), schedules[steps].order,
                                        res.address, res.nonce))
      && forall j :: 0 <= j < steps ==>
           !(schedules[j].taken && query.CallMatches(Batches(miners), StepNonce(startNonce, total, j)))
  {
    hide Fair, GridThreads, StepNonce, Offset, Query.CallClaims, Query.CallMatches, Schedule.Proper, Query.Valid;
    ghost var query := QueryFor(p, prefix, suffix, n);
    var total := Offset(Batches(miners), |miners|, n);
    var nonce := startNonce;
    res, steps := Nothing, 0;
    FirstStep(startNonce, total);
    for step := 0 to |schedules|
      invariant forall d :: 0 <= d < |miners| ==> miners[d].Valid()
      invariant res.Nothing? && nonce == StepNonce(startNonce, total, step) && steps == step
      invariant forall j :: 0 <= j < step ==>
        !(schedules[j].taken && query.CallMatches(Batches(miners), StepNonce(startNonce, total, j)))
    {
      res := Call(miners, p, prefix, suffix, nonce, n, schedules[step]);
      if res.Hit? { return; }
      StepNonceNext(startNonce, total, step);
      nonce := (nonce + total) % B64;
      steps := steps + 1;
    }
  }

  lemma FirstStep(start: Word, total: nat)
    ensures StepNonce(start, total, 0) == start
  {
    assert 0 * total == 0;
    assert start + 0 * total == start;
  }
}

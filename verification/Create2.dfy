/** The CREATE2 search: the counter is OR-ed into a precomputed padded block. */
module Create2 {
  import opened Words
  import opened Wire
  import opened Address
  import opened KeccakSpec
  import opened Keccak
  import opened Sponge
  import opened KernelHash

  const FACTORY: seq<bv8> := [
    0x4e, 0x59, 0xb4, 0x48, 0x47, 0xb3, 0x79, 0x57, 0x85, 0x88,
    0x92, 0x0c, 0xA7, 0x8F, 0xbF, 0x26, 0xc0, 0xB4, 0x95, 0x6C]

  /** Byte j of a counter: (uint8_t)(counter >> (8 * j)). */
  function CounterByte(c: Word, j: nat): bv8 { AsU8(Digit(c, j)) }

  /** The eight bytes of a counter, most significant first. */
  function BigEndian(c: Word): (b: seq<bv8>)
    ensures |b| == 8
  {
    [CounterByte(c, 7), CounterByte(c, 6), CounterByte(c, 5), CounterByte(c, 4),
     CounterByte(c, 3), CounterByte(c, 2), CounterByte(c, 1), CounterByte(c, 0)]
  }

  /** The eight bytes denote the counter. */
  lemma CounterBytes(c: Word)
    ensures BigNumber(BigEndian(c)) == c
  {
    hide AsU8, Digit, BigNumber;
    var d := [Digit(c, 7), Digit(c, 6), Digit(c, 5), Digit(c, 4), Digit(c, 3), Digit(c, 2), Digit(c, 1), Digit(c, 0)];
    assert BigEndian(c) == U8s(d);
    BigNumberIs(d);
    EightDigits(c);
  }

  /** The digits of a 64-bit number, most significant first, denote it. */
  lemma EightDigits(c: Word)
    ensures FromBig([Digit(c, 7), Digit(c, 6), Digit(c, 5), Digit(c, 4),
                     Digit(c, 3), Digit(c, 2), Digit(c, 1), Digit(c, 0)]) == c
  {
    hide Digit, Number, Bytes, FromBig;
    var b := Bytes(c, 8);
    Pow256Is();
    BytesRoundTrip(c, 8);
    forall i: nat | i < 8
      ensures Digit(c, i) == b[i]
    {
      DigitIsByte(c, 8, i);
    }
    FromBigReversed(b);
    assert Reversed(b) == [b[7], b[6], b[5], b[4], b[3], b[2], b[1], b[0]];
  }

  /** 0xff ++ factory ++ salt ++ keccak256(init code), EIP-1014. */
  function Preimage(salt: seq<bv8>, codeHash: seq<bv8>): (p: seq<bv8>)
    requires |salt| == 32 && |codeHash| == 32
    ensures |p| == 85
  {
    [0xff] + FACTORY + salt + codeHash
  }

  function Salt(base24: seq<bv8>, c: Word): (s: seq<bv8>)
    requires |base24| == 24
    ensures |s| == 32
  {
    base24 + BigEndian(c)
  }

  /** The pattern on the 32-byte hash; the address is its last 20 bytes. */
  predicate Matches(d: seq<bv8>, b16low: bool, b17: bv8)
    requires |d| == 32
  {
    && d[12] == 0 && d[13] == 0
    && (!b16low || d[28] & 0x0f == 0)
    && d[29] == b17 && d[30] == 0x82 && d[31] == 0x82
  }

  predicate CounterMatches(base24: seq<bv8>, codeHash: seq<bv8>, c: Word, b16low: bool, b17: bv8)
    requires |base24| == 24 && |codeHash| == 32
  {
    Matches(Keccak256(Preimage(Salt(base24, c), codeHash)), b16low, b17)
  }

  /** The padded block with zeros where the counter goes. */
  ghost function BaseBlock(base24: seq<bv8>, codeHash: seq<bv8>): (b: seq<bv8>)
    requires |base24| == 24 && |codeHash| == 32
    ensures |b| == 136
  {
    Pad(Preimage(base24 + Zeros(8), codeHash))
  }

  // ---- the host side ----

  /** The 17 base lanes: the preimage without its counter, then the two ends of the padding. */
  method BuildBase(base24: seq<bv8>, codeHash: seq<bv8>) returns (fullBase: array<bv64>)
    requires |base24| == 24 && |codeHash| == 32
    ensures fresh(fullBase) && fullBase.Length == 25 && Holds(fullBase[..], BaseBlock(base24, codeHash))
  {
    hide Holds, Or, AtByte, LaneOf;
    var pre := Preimage(base24 + Zeros(8), codeHash);
    var block := pre + Zeros(51);
    fullBase := new bv64[25](_ => 0);
    for k := 0 to 17
      invariant forall i :: 0 <= i < 25 ==> fullBase[i] == if i < k then LaneOf(block, i) else 0
    {
      var l := BuildLane(block, k);
      fullBase[k] := l;
    }
    HoldsIs(fullBase[..], block);
    OrByte(fullBase, 85, 0x01, 0x01, block);
    OrByte(fullBase, 135, 0x80, 0x80, block[85 := 0x01]);
    PadShort(pre);
    assert block == pre + Zeros(136 - |pre|);
  }

  lemma HoldsIs(st: seq<bv64>, block: seq<bv8>)
    requires |st| == 25 && |block| == 136
    requires forall k :: 0 <= k < 25 ==> st[k] == if k < 17 then LaneOf(block, k) else 0
    ensures Holds(st, block)
  {
  }

  // ---- the kernel side ----

  /** OR-ing the counter bytes into lanes 5 and 6 gives the padded block of the whole preimage. */
  method PatchCounter(st: array<bv64>, counter: Word, ghost base24: seq<bv8>, ghost codeHash: seq<bv8>)
    requires st.Length == 25 && |base24| == 24 && |codeHash| == 32
    requires Holds(st[..], BaseBlock(base24, codeHash))
    modifies st
    ensures Holds(st[..], Pad(Preimage(Salt(base24, counter), codeHash)))
  {
    hide Holds, Or, AtByte, CounterByte, LaneOf;
    ghost var block := BaseBlock(base24, codeHash);
    CounterRegion(base24, codeHash, counter);
    var cb0, cb1, cb2 := CounterByte(counter, 7), CounterByte(counter, 6), CounterByte(counter, 5);
    var cb3, cb4, cb5 := CounterByte(counter, 4), CounterByte(counter, 3), CounterByte(counter, 2);
    var cb6, cb7 := CounterByte(counter, 1), CounterByte(counter, 0);
    OrThree(st, cb0, cb1, cb2, block);
    block := block[45 := cb0][46 := cb1][47 := cb2];
    OrFive(st, cb3, cb4, cb5, cb6, cb7, block);
  }

  /** One OR-ed byte, on sequences. */
  lemma Patched(s: seq<bv64>, block: seq<bv8>, i: int, v: bv8, lane: bv64)
    requires |s| == 25 && |block| == 136 && 0 <= i < 136 && Holds(s, block) && block[i] == 0
    requires lane == Or(s[i / 8], AtByte(v, i % 8))
    ensures Holds(s[i / 8 := lane], block[i := v])
  {
    hide Or, AtByte, LaneOf;
    var t := s[i / 8 := lane];
    forall k | 0 <= k < 25
      ensures t[k] == if k < 17 then LaneOf(block[i := v], k) else 0
    {
      if k < 17 { OrIntoBlock(block, i, v, v, k); }
    }
  }

  /** Lane 5: bytes 45, 46 and 47. */
  method OrThree(st: array<bv64>, c0: bv8, c1: bv8, c2: bv8, ghost block: seq<bv8>)
    requires st.Length == 25 && |block| == 136 && Holds(st[..], block)
    requires block[45] == 0 && block[46] == 0 && block[47] == 0
    modifies st
    ensures Holds(st[..], block[45 := c0][46 := c1][47 := c2])
  {
    hide Holds, Or, AtByte, LaneOf;
    ghost var s, v := st[..], st[5];
    var a0, a1, a2 := AtByte(c0, 5), AtByte(c1, 6), AtByte(c2, 7);
    st[5] := Or(st[5], Or(Or(a0, a1), a2));
    OrJoin(v, Or(a0, a1), a2);
    OrJoin(v, a0, a1);
    ghost var v0 := Or(v, a0);
    ghost var v1 := Or(v0, a1);
    Patched(s, block, 45, c0, v0);
    ghost var b := block[45 := c0];
    Patched(s[5 := v0], b, 46, c1, v1);
    assert s[5 := v0][5 := v1] == s[5 := v1];
    b := b[46 := c1];
    Patched(s[5 := v1], b, 47, c2, st[5]);
    assert s[5 := v1][5 := st[5]] == st[..];
  }

  /** Lane 6: bytes 48 to 52. */
  method OrFive(st: array<bv64>, c3: bv8, c4: bv8, c5: bv8, c6: bv8, c7: bv8, ghost block: seq<bv8>)
    requires st.Length == 25 && |block| == 136 && Holds(st[..], block)
    requires block[48] == 0 && block[49] == 0 && block[50] == 0 && block[51] == 0 && block[52] == 0
    modifies st
    ensures Holds(st[..], block[48 := c3][49 := c4][50 := c5][51 := c6][52 := c7])
  {
    hide Holds, Or, AtByte, LaneOf;
    ghost var s, v := st[..], st[6];
    var a3, a4, a5, a6, a7 := AtByte(c3, 0), AtByte(c4, 1), AtByte(c5, 2), AtByte(c6, 3), AtByte(c7, 4);
    st[6] := Or(st[6], Or(Or(Or(Or(a3, a4), a5), a6), a7));
    OrJoin(v, Or(Or(Or(a3, a4), a5), a6), a7);
    OrJoin(v, Or(Or(a3, a4), a5), a6);
    OrJoin(v, Or(a3, a4), a5);
    OrJoin(v, a3, a4);
    ghost var v3 := Or(v, a3);
    ghost var v4 := Or(v3, a4);
    ghost var v5 := Or(v4, a5);
    ghost var v6 := Or(v5, a6);
    Patched(s, block, 48, c3, v3);
    ghost var b := block[48 := c3];
    Patched(s[6 := v3], b, 49, c4, v4);
    assert s[6 := v3][6 := v4] == s[6 := v4];
    b := b[49 := c4];
    Patched(s[6 := v4], b, 50, c5, v5);
    assert s[6 := v4][6 := v5] == s[6 := v5];
    b := b[50 := c5];
    Patched(s[6 := v5], b, 51, c6, v6);
    assert s[6 := v5][6 := v6] == s[6 := v6];
    b := b[51 := c6];
    Patched(s[6 := v6], b, 52, c7, st[6]);
    assert s[6 := v6][6 := st[6]] == st[..];
  }

  lemma PadAt(m: seq<bv8>, i: int)
    requires |m| == 85 && 0 <= i < 136
    ensures |Pad(m)| == 136 && Pad(m)[i] == if i < 85 then m[i] else Padding(51)[i - 85]
  {
    hide Padding;
  }

  lemma PreimageAt(salt: seq<bv8>, codeHash: seq<bv8>, i: int)
    requires |salt| == 32 && |codeHash| == 32 && 0 <= i < 85
    ensures var p := Preimage(salt, codeHash);
      p[i] == if i < 1 then 0xff else if i < 21 then FACTORY[i - 1]
              else if i < 53 then salt[i - 21] else codeHash[i - 53]
  {
    hide FACTORY;
  }

  /** Two preimages that differ only in the last eight salt bytes. */
  lemma SaltBytes(base24: seq<bv8>, codeHash: seq<bv8>, tail: seq<bv8>, i: int)
    requires |base24| == 24 && |codeHash| == 32 && |tail| == 8 && 0 <= i < 136
    ensures |Pad(Preimage(base24 + tail, codeHash))| == |Pad(Preimage(base24 + Zeros(8), codeHash))| == 136
    ensures Pad(Preimage(base24 + tail, codeHash))[i]
         == if 45 <= i < 53 then tail[i - 45] else Pad(Preimage(base24 + Zeros(8), codeHash))[i]
  {
    hide Pad, Preimage, FACTORY, Padding;
    PadAt(Preimage(base24 + tail, codeHash), i);
    PadAt(Preimage(base24 + Zeros(8), codeHash), i);
    if i < 85 {
      PreimageAt(base24 + tail, codeHash, i);
      PreimageAt(base24 + Zeros(8), codeHash, i);
    }
  }

  /** Setting bytes 45 to 52 of the base block to the counter gives the block of the preimage. */
  lemma CounterRegion(base24: seq<bv8>, codeHash: seq<bv8>, c: Word)
    requires |base24| == 24 && |codeHash| == 32
    ensures var b, e := BaseBlock(base24, codeHash), BigEndian(c);
      && (forall i :: 45 <= i < 53 ==> b[i] == 0)
      && b[45 := e[0]][46 := e[1]][47 := e[2]][48 := e[3]][49 := e[4]][50 := e[5]][51 := e[6]][52 := e[7]]
         == Pad(Preimage(Salt(base24, c), codeHash))
  {
    hide CounterByte, Pad, Preimage;
    var b, e := BaseBlock(base24, codeHash), BigEndian(c);
    var p := Pad(Preimage(Salt(base24, c), codeHash));
    PadLength(base24, codeHash, e);
    forall i | 0 <= i < 136
      ensures p[i] == (if 45 <= i < 53 then e[i - 45] else b[i]) && (45 <= i < 53 ==> b[i] == 0)
    {
      SaltBytes(base24, codeHash, e, i);
      SaltBytes(base24, codeHash, Zeros(8), i);
    }
  }

  lemma PadLength(base24: seq<bv8>, codeHash: seq<bv8>, tail: seq<bv8>)
    requires |base24| == 24 && |codeHash| == 32 && |tail| == 8
    ensures |Pad(Preimage(base24 + tail, codeHash))| == 136
  {
  }

  /** The shared found flag and counter slot. */
  class Slot {
    var found: bool
    var counter: Word

    constructor ()
      ensures !found
    {
      found := false;
      counter := 0;
    }
  }

  /** The pattern test on the lanes that hold the hash. */
  method MatchState(st: array<bv64>, b16low: bool, b17: bv8) returns (ok: bool)
    requires st.Length == 25
    ensures ok <==> Matches(Squeeze(st[..]), b16low, b17)
  {
    hide ByteOf;
    var l1, l3 := st[1], st[3];
    var o12, o13 := ByteOf(l1, 4), ByteOf(l1, 5);
    var o28, o29, o30, o31 := ByteOf(l3, 4), ByteOf(l3, 5), ByteOf(l3, 6), ByteOf(l3, 7);
    var okB16 := !b16low || o28 & 0x0f == 0;
    ok := o12 == 0 && o13 == 0 && okB16 && o29 == b17 && o30 == 0x82 && o31 == 0x82;
  }

  /** Every thread of the launch is in the order. */
  ghost predicate Complete(order: seq<nat>, total: nat) { forall idx: nat :: idx < total ==> idx in order }

  lemma CompleteExists(total: nat) returns (order: seq<nat>)
    ensures Complete(order, total)
  {
    order := seq(total, i requires 0 <= i < total => i);
    forall idx: nat | idx < total
      ensures idx in order
    {
      assert order[idx] == idx;
    }
  }

  /** Thread idx of a launch is in range and its counter has the pattern. */
  predicate Hits(base24: seq<bv8>, codeHash: seq<bv8>, startCounter: Word, total: nat, idx: nat, b16low: bool,
                 b17: bv8)
    requires |base24| == 24 && |codeHash| == 32
  {
    idx < total && CounterMatches(base24, codeHash, (startCounter + idx) % B64, b16low, b17)
  }

  /** Some thread of the launch hits. */
  ghost predicate SomeHit(base24: seq<bv8>, codeHash: seq<bv8>, startCounter: Word, total: nat, b16low: bool, b17: bv8)
    requires |base24| == 24 && |codeHash| == 32
  {
    exists idx: nat :: Hits(base24, codeHash, startCounter, total, idx, b16low, b17)
  }

  /** One kernel thread: a claimed counter is this thread's, and it matches the pattern. */
  method MineThread(fullBase: array<bv64>, startCounter: Word, idx: nat, total: nat, b16low: bool, b17: bv8,
                    slot: Slot, ghost base24: seq<bv8>, ghost codeHash: seq<bv8>)
    requires fullBase.Length == 25 && |base24| == 24 && |codeHash| == 32
    requires Holds(fullBase[..], BaseBlock(base24, codeHash))
    modifies slot
    ensures var hit := Hits(base24, codeHash, startCounter, total, idx, b16low, b17);
      && slot.found == (old(slot.found) || hit)
      && slot.counter == if hit && !old(slot.found) then (startCounter + idx) % B64 else old(slot.counter)
  {
    hide Holds, KeccakF, XorBlock, Pad, CounterByte, Preimage, Salt, BaseBlock, Absorb, Matches, Squeeze;
    if idx >= total { return; }
    var counter := (startCounter + idx) % B64;
    var st := new bv64[25](i requires 0 <= i < 25 reads fullBase => fullBase[i]);
    assert st[..] == fullBase[..];
    PatchCounter(st, counter, base24, codeHash);
    ghost var pre := Preimage(Salt(base24, counter), codeHash);
    AbsorbLast(Start(), pre);
    HoldsIsAbsorbed(st[..], Pad(pre));
    KeccakForward(st);
    var ok := MatchState(st, b16low, b17);
    if ok {
      if !slot.found {
        slot.found := true;
        slot.counter := counter;
      }
    }
  }

  lemma HitMatches(base24: seq<bv8>, codeHash: seq<bv8>, startCounter: Word, total: nat, idx: nat, b16low: bool,
                   b17: bv8)
    requires |base24| == 24 && |codeHash| == 32 && Hits(base24, codeHash, startCounter, total, idx, b16low, b17)
    ensures idx < total
    ensures CounterMatches(base24, codeHash, (startCounter + idx) % B64, b16low, b17)
  {
    hide CounterMatches;
  }

  /** One of the first c threads to run hits. */
  ghost predicate HitBy(base24: seq<bv8>, codeHash: seq<bv8>, startCounter: Word, total: nat, order: seq<nat>, c: nat,
                        b16low: bool, b17: bv8)
    requires |base24| == 24 && |codeHash| == 32 && c <= |order|
  {
    exists e :: 0 <= e < c && Hits(base24, codeHash, startCounter, total, order[e], b16low, b17)
  }

  lemma HitByNext(base24: seq<bv8>, codeHash: seq<bv8>, startCounter: Word, total: nat, order: seq<nat>, c: nat,
                  b16low: bool, b17: bv8)
    requires |base24| == 24 && |codeHash| == 32 && c < |order|
    ensures HitBy(base24, codeHash, startCounter, total, order, c + 1, b16low, b17) <==>
              HitBy(base24, codeHash, startCounter, total, order, c, b16low, b17)
              || Hits(base24, codeHash, startCounter, total, order[c], b16low, b17)
  {
    hide Hits;
  }

  lemma HitByAll(base24: seq<bv8>, codeHash: seq<bv8>, startCounter: Word, total: nat, order: seq<nat>,
                 b16low: bool, b17: bv8)
    requires |base24| == 24 && |codeHash| == 32 && Complete(order, total)
    ensures !HitBy(base24, codeHash, startCounter, total, order, 0, b16low, b17)
    ensures HitBy(base24, codeHash, startCounter, total, order, |order|, b16low, b17) <==>
              SomeHit(base24, codeHash, startCounter, total, b16low, b17)
  {
    hide CounterMatches;
    if idx: nat :| Hits(base24, codeHash, startCounter, total, idx, b16low, b17) {
      assert idx in order;
      var e :| 0 <= e < |order| && order[e] == idx;
    }
  }

  /** All threads of a launch, in any order, on a free slot: the flag ends up set exactly when some thread
      hits, and then the slot holds the counter startCounter + idx of one that does. */
  method MineLaunch(fullBase: array<bv64>, startCounter: Word, total: nat, order: seq<nat>, b16low: bool, b17: bv8,
                    slot: Slot, ghost base24: seq<bv8>, ghost codeHash: seq<bv8>)
    returns (ghost idx: nat)
    requires fullBase.Length == 25 && |base24| == 24 && |codeHash| == 32
    requires Holds(fullBase[..], BaseBlock(base24, codeHash))
    requires !slot.found && Complete(order, total)
    modifies slot
    ensures slot.found <==> SomeHit(base24, codeHash, startCounter, total, b16low, b17)
    ensures slot.found ==> idx < total && slot.counter == (startCounter + idx) % B64
    ensures slot.found ==> CounterMatches(base24, codeHash, slot.counter, b16low, b17)
    ensures !slot.found ==> slot.counter == old(slot.counter)
  {
    hide Holds, BaseBlock, CounterMatches, Hits, SomeHit, HitBy, Complete;
    idx := 0;
    HitByAll(base24, codeHash, startCounter, total, order, b16low, b17);
    for c := 0 to |order|
      invariant slot.found <==> HitBy(base24, codeHash, startCounter, total, order, c, b16low, b17)
      invariant slot.found ==> idx < total && slot.counter == (startCounter + idx) % B64
      invariant slot.found ==> CounterMatches(base24, codeHash, slot.counter, b16low, b17)
      invariant !slot.found ==> slot.counter == old(slot.counter)
    {
      if !slot.found { idx := order[c]; }
      MineThread(fullBase, startCounter, order[c], total, b16low, b17, slot, base24, codeHash);
      HitByNext(base24, codeHash, startCounter, total, order, c, b16low, b17);
      if Hits(base24, codeHash, startCounter, total, order[c], b16low, b17) {
        HitMatches(base24, codeHash, startCounter, total, order[c], b16low, b17);
      }
    }
  }

  /** What the host prints for a claimed counter: the hash of the rebuilt preimage. */
  method HostVerify(base24: seq<bv8>, codeHash: seq<bv8>, fc: Word, ghost b16low: bool, ghost b17: bv8)
    returns (vout: array<bv8>)
    requires |base24| == 24 && |codeHash| == 32
    ensures vout[..] == Keccak256(Preimage(Salt(base24, fc), codeHash))
    ensures CounterMatches(base24, codeHash, fc, b16low, b17) <==> Matches(vout[..], b16low, b17)
  {
    hide Keccak256;
    var salt := base24 + BigEndian(fc);
    vout := HostKeccak256([0xff] + FACTORY + salt + codeHash);
  }

  /** The counter that thread idx of launch c tries has the pattern. */
  predicate HitAt(base24: seq<bv8>, codeHash: seq<bv8>, startCounter: Word, batch: nat, c: nat, idx: nat,
                  b16low: bool, b17: bv8)
    requires |base24| == 24 && |codeHash| == 32
  {
    CounterMatches(base24, codeHash, (startCounter + c * batch + idx) % B64, b16low, b17)
  }

  lemma LaunchHits(base24: seq<bv8>, codeHash: seq<bv8>, startCounter: Word, batch: nat, c: nat, at: Word, idx: nat,
                   b16low: bool, b17: bv8)
    requires |base24| == 24 && |codeHash| == 32 && at == (startCounter + c * batch) % B64
    ensures Hits(base24, codeHash, at, batch, idx, b16low, b17)
       <==> idx < batch && HitAt(base24, codeHash, startCounter, batch, c, idx, b16low, b17)
  {
    hide CounterMatches;
    AddMod64(startCounter + c * batch, idx);
  }

  lemma AddMod64(a: int, b: int)
    ensures (a % B64 + b) % B64 == (a + b) % B64
  {
  }

  lemma NextCounter(startCounter: Word, batch: nat, c: nat)
    ensures (startCounter + 0 * batch) % B64 == startCounter
    ensures ((startCounter + c * batch) % B64 + batch) % B64 == (startCounter + (c + 1) * batch) % B64
  {
    assert 0 * batch == 0 && (c + 1) * batch == c * batch + batch;
    AddMod64(startCounter + c * batch, batch);
  }

  lemma LaunchMissed(base24: seq<bv8>, codeHash: seq<bv8>, startCounter: Word, batch: nat, c: nat, at: Word,
                     b16low: bool, b17: bv8)
    requires |base24| == 24 && |codeHash| == 32 && at == (startCounter + c * batch) % B64
    requires !SomeHit(base24, codeHash, at, batch, b16low, b17)
    ensures forall idx: nat :: idx < batch ==> !HitAt(base24, codeHash, startCounter, batch, c, idx, b16low, b17)
  {
    hide Hits, HitAt;
    forall idx: nat | idx < batch
      ensures !HitAt(base24, codeHash, startCounter, batch, c, idx, b16low, b17)
    {
      LaunchHits(base24, codeHash, startCounter, batch, c, at, idx, b16low, b17);
    }
  }

  /** The search from a prefix and a code hash, cut off after as many launches as there are orders. Launch c
      tries the counters startCounter + c batch + idx in 64 bits. The search stops in the first launch that
      tries one with the pattern, and reports such a counter and the hash of its preimage. */
  method MineCounters(base24: seq<bv8>, codeHash: seq<bv8>, startCounter: Word, batch: nat, orders: seq<seq<nat>>,
                      b16low: bool, b17: bv8)
    returns (found: bool, fc: Word, vout: seq<bv8>, ghost launches: nat, ghost idx: nat)
    requires |base24| == 24 && |codeHash| == 32
    requires forall c :: 0 <= c < |orders| ==> Complete(orders[c], batch)
    ensures found ==> vout == Keccak256(Preimage(Salt(base24, fc), codeHash)) && Matches(vout, b16low, b17)
    ensures found ==> launches < |orders| && idx < batch && fc == (startCounter + launches * batch + idx) % B64
    ensures !found ==> launches == |orders|
    ensures forall c: nat, i: nat :: c < launches && i < batch ==>
      !HitAt(base24, codeHash, startCounter, batch, c, i, b16low, b17)
  {
    hide Holds, BaseBlock, CounterMatches, SomeHit, Complete, HitAt, Keccak256, Matches, Preimage, Salt;
    var fullBase := BuildBase(base24, codeHash);
    var slot := new Slot();
    var counter := startCounter;
    launches, idx := 0, 0;
    NextCounter(startCounter, batch, 0);
    for c := 0 to |orders|
      invariant !slot.found && launches == c && counter == (startCounter + c * batch) % B64
      invariant fullBase.Length == 25 && Holds(fullBase[..], BaseBlock(base24, codeHash))
      invariant forall e: nat, i: nat :: e < c && i < batch ==>
        !HitAt(base24, codeHash, startCounter, batch, e, i, b16low, b17)
    {
      idx := MineLaunch(fullBase, counter, batch, orders[c], b16low, b17, slot, base24, codeHash);
      if slot.found {
        AddMod64(startCounter + c * batch, idx);
        var hash := HostVerify(base24, codeHash, slot.counter, b16low, b17);
        return true, slot.counter, hash[..], launches, idx;
      }
      LaunchMissed(base24, codeHash, startCounter, batch, c, counter, b16low, b17);
      NextCounter(startCounter, batch, c);
      counter := (counter + batch) % B64;
      launches := launches + 1;
    }
    found, fc, vout := false, 0, [];
  }
}

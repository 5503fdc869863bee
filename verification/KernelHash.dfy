/** The kernels' single-block hash, which ORs the message straight into the state. */
module KernelHash {
  import opened KeccakSpec
  import opened Keccak
  import opened KeccakSplit
  import opened Sponge

  // ---- OR-ing a byte into a lane ----

  lemma OrIs(a: bv64, b: bv64)
    ensures Or(a, b) == a | b
  {
  }

  lemma SwapRaw(a: bv64, b: bv64, c: bv64)
    ensures Or(a | b, c) == Or(a | c, b)
  {
  }

  lemma OrSwap(a: bv64, b: bv64, c: bv64)
    ensures Or(Or(a, b), c) == Or(Or(a, c), b)
  {
    hide Or;
    OrIs(a, b);
    OrIs(a, c);
    SwapRaw(a, b, c);
  }

  lemma JoinRaw(a: bv64, b: bv64, c: bv64)
    ensures Or(a, b | c) == Or(a | b, c)
  {
  }

  lemma OrJoin(a: bv64, b: bv64, c: bv64)
    ensures Or(a, Or(b, c)) == Or(Or(a, b), c)
  {
    hide Or;
    OrIs(b, c);
    OrIs(a, b);
    JoinRaw(a, b, c);
  }

  lemma OrZero(a: bv64)
    ensures Or(0, a) == a && Or(a, 0) == a
  {
  }

  lemma ZeroAtByte(j: int)
    requires 0 <= j < 8
    ensures AtByte(0, j) == 0
  {
  }

  lemma LastPadByte()
    ensures AtByte(0x81, 7) == Or(AtByte(0x01, 7), AtByte(0x80, 7))
  {
  }

  /** The bytes that are ever OR-ed together: anything into zero, and the two ends of the padding. */
  predicate Joins(u: bv8, v: bv8, w: bv8, j: int) {
    (u == 0 && w == v) || (u == 0x01 && v == 0x80 && w == 0x81 && j == 7)
  }

  lemma ByteJoin(u: bv8, v: bv8, w: bv8, j: int)
    requires 0 <= j < 8 && Joins(u, v, w, j)
    ensures AtByte(w, j) == Or(AtByte(u, j), AtByte(v, j))
  {
    hide AtByte, Or;
    if u == 0 {
      ZeroAtByte(j);
      OrZero(AtByte(v, j));
    } else {
      LastPadByte();
    }
  }

  lemma {:induction false} OrIntoLane(b: seq<bv8>, j: int, v: bv8, w: bv8, n: nat)
    requires |b| == 8 && 0 <= j < 8 && n <= 8 && Joins(b[j], v, w, j)
    ensures LeLane(b[j := w], n) == if n <= j then LeLane(b, n) else Or(LeLane(b, n), AtByte(v, j))
  {
    hide Or, AtByte;
    if n > 0 {
      OrIntoLane(b, j, v, w, n - 1);
      if n - 1 == j {
        ByteJoin(b[j], v, w, j);
        OrJoin(LeLane(b, j), AtByte(b[j], j), AtByte(v, j));
      } else if n - 1 > j {
        OrSwap(LeLane(b, n - 1), AtByte(v, j), AtByte(b[n - 1], n - 1));
      }
    }
  }

  /** OR-ing v into byte i of the block is OR-ing it into byte i mod 8 of lane i / 8. */
  lemma OrIntoBlock(block: seq<bv8>, i: int, v: bv8, w: bv8, k: int)
    requires |block| == 136 && 0 <= i < 136 && 0 <= k < 17 && Joins(block[i], v, w, i % 8)
    ensures LaneOf(block[i := w], k)
         == if k == i / 8 then Or(LaneOf(block, k), AtByte(v, i % 8)) else LaneOf(block, k)
  {
    hide Or, AtByte, LeLane;
    var u := block[i := w];
    var b := block[8 * k..8 * k + 8];
    if k == i / 8 {
      assert u[8 * k..8 * k + 8] == b[i % 8 := w];
      OrIntoLane(b, i % 8, v, w, 8);
    } else {
      assert u[8 * k..8 * k + 8] == b;
    }
  }

  // ---- the single-block hash ----

  /** The state holds the lanes of a block and zeros beyond the rate. */
  ghost predicate Holds(st: seq<bv64>, block: seq<bv8>)
    requires |st| == 25 && |block| == 136
  {
    forall k :: 0 <= k < 25 ==> st[k] == if k < 17 then LaneOf(block, k) else 0
  }

  /** st[i >> 3] |= v << (8 * (i & 7)). */
  method OrByte(st: array<bv64>, i: int, v: bv8, w: bv8, ghost block: seq<bv8>)
    requires st.Length == 25 && |block| == 136 && 0 <= i < 136
    requires Holds(st[..], block) && Joins(block[i], v, w, i % 8)
    modifies st
    ensures Holds(st[..], block[i := w])
  {
    hide Or, AtByte, LaneOf;
    ghost var s := st[..];
    st[i / 8] := Or(st[i / 8], AtByte(v, i % 8));
    forall k | 0 <= k < 25
      ensures st[k] == if k < 17 then LaneOf(block[i := w], k) else 0
    {
      if k < 17 { OrIntoBlock(block, i, v, w, k); }
    }
  }

  lemma {:induction false} ZeroLane(b: seq<bv8>, n: nat)
    requires |b| == 8 && n <= 8 && forall j :: 0 <= j < 8 ==> b[j] == 0
    ensures LeLane(b, n) == 0
  {
    hide Or, AtByte;
    if n > 0 {
      ZeroLane(b, n - 1);
      ZeroAtByte(n - 1);
      OrZero(0);
    }
  }

  lemma ZeroHolds()
    ensures Holds(Start(), Zeros(136))
  {
    hide LeLane;
    forall k | 0 <= k < 17
      ensures LaneOf(Zeros(136), k) == 0
    {
      ZeroLane(Zeros(136)[8 * k..8 * k + 8], 8);
    }
  }

  lemma ZeroXor(a: bv64)
    ensures PlainXor(0, a) == a
  {
  }

  /** Absorbing a block into the zero state gives the state that holds it. */
  lemma HoldsIsAbsorbed(st: seq<bv64>, block: seq<bv8>)
    requires |st| == 25 && |block| == 136 && Holds(st, block)
    ensures st == XorBlock(Start(), block)
  {
    hide PlainXor, LaneOf;
    forall k | 0 <= k < 25
      ensures st[k] == XorBlock(Start(), block)[k]
    {
      if k < 17 { ZeroXor(LaneOf(block, k)); }
    }
  }

  lemma PadShort(m: seq<bv8>)
    requires |m| <= 135
    ensures var one := (m + Zeros(136 - |m|))[|m| := 0x01];
      Pad(m) == one[135 := if |m| == 135 then 0x81 else 0x80]
  {
  }

  /** ORs the message and its padding straight into a zero state. */
  method AbsorbShort(msg: seq<bv8>) returns (st: array<bv64>)
    requires |msg| <= 135
    ensures fresh(st) && st.Length == 25 && st[..] == XorBlock(Start(), Pad(msg))
  {
    hide Holds, KeccakF, Pad, XorBlock;
    st := new bv64[25](_ => 0);
    assert st[..] == Start();
    ZeroHolds();
    ghost var buf := Zeros(136);
    for i := 0 to |msg|
      invariant buf == msg[..i] + Zeros(136 - i)
      invariant Holds(st[..], buf)
    {
      OrByte(st, i, msg[i], msg[i], buf);
      buf := buf[i := msg[i]];
    }
    assert msg[..|msg|] == msg;
    OrByte(st, |msg|, 0x01, 0x01, buf);
    buf := buf[|msg| := 0x01];
    OrByte(st, 135, 0x80, if |msg| == 135 then 0x81 else 0x80, buf);
    PadShort(msg);
    HoldsIsAbsorbed(st[..], Pad(msg));
  }

  /** The single-block hash of the OpenCL and CUDA kernels: the hash of the multi-block sponge for
      every length up to 135. */
  method KernelKeccak256(msg: seq<bv8>) returns (out: array<bv8>)
    requires |msg| <= 135
    ensures fresh(out) && out[..] == Keccak256(msg)
  {
    hide KeccakF, Pad, Absorb, Squeeze, XorBlock;
    var st := AbsorbShort(msg);
    AbsorbLast(Start(), msg);
    KeccakBackward(Plain(), st);
    FRounds(XorBlock(Start(), Pad(msg)));
    out := SqueezeBytes(st);
  }

  /** The single-block hash of the Metal kernel, whose permutation runs on interleaved lanes. */
  method MetalKeccak256(msg: seq<bv8>) returns (out: array<bv8>)
    requires |msg| <= 135
    ensures fresh(out) && out[..] == Keccak256(msg)
  {
    hide KeccakF, Pad, Absorb, Squeeze, XorBlock;
    var st := AbsorbShort(msg);
    AbsorbLast(Start(), msg);
    KeccakInterleaved(st);
    out := SqueezeBytes(st);
  }

  lemma FRounds(s: seq<bv64>)
    requires |s| == 25
    ensures Rounds(Plain(), s, 24) == KeccakF(s)
  {
  }
}

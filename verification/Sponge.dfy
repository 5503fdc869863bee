/** Keccak-256 with the legacy padding: the sponge of FIPS 202 section 4 at a rate of 136 bytes with
    pad10*1 and no suffix bits, the multi-block host hash and the single-block kernel hash. */
module Sponge {
  import opened KeccakSpec
  import opened KeccakHost


  // ---- bytes and lanes ----

  /** A byte shifted to place j of a lane. */
  function AtByte(v: bv8, j: int): bv64
    requires 0 <= j < 8
  {
    (v as bv64) << (8 * j)
  }

  function Or(a: bv64, b: bv64): bv64 { a | b }

  /** The lane that the first n of eight bytes make up. */
  function LeLane(b: seq<bv8>, n: nat): bv64
    requires |b| == 8 && n <= 8
  {
    if n == 0 then 0 else Or(LeLane(b, n - 1), AtByte(b[n - 1], n - 1))
  }

  function LaneOf(block: seq<bv8>, k: int): bv64
    requires |block| == 136 && 0 <= k < 17
  {
    LeLane(block[8 * k..8 * k + 8], 8)
  }

  // ---- the specification ----

  function Zeros(n: nat): seq<bv8> { seq(n, _ => 0) }

  /** pad10*1 on whole bytes: q bytes, of which the first carries the 1 and the last the final 1. */
  function Padding(q: nat): (p: seq<bv8>)
    requires q >= 1
    ensures |p| == q
  {
    if q == 1 then [0x81] else [0x01] + Zeros(q - 2) + [0x80]
  }

  function Pad(m: seq<bv8>): (p: seq<bv8>)
    ensures |p| % 136 == 0 && |p| > |m|
  {
    m + Padding(136 - |m| % 136)
  }

  function XorBlock(s: seq<bv64>, block: seq<bv8>): (r: seq<bv64>)
    requires |s| == 25 && |block| == 136
    ensures |r| == 25
  {
    seq(25, k requires 0 <= k < 25 => if k < 17 then PlainXor(s[k], LaneOf(block, k)) else s[k])
  }

  lemma WholeBlocks(n: nat)
    requires n > 0 && n % 136 == 0
    ensures n >= 136 && (n - 136) % 136 == 0
  {
  }

  function Absorb(s: seq<bv64>, p: seq<bv8>): (r: seq<bv64>)
    requires |s| == 25 && |p| % 136 == 0
    ensures |r| == 25
    decreases |p|
  {
    if p == [] then s else (WholeBlocks(|p|); Absorb(KeccakF(XorBlock(s, p[..136])), p[136..]))
  }

  function Start(): (s: seq<bv64>)
    ensures |s| == 25
  {
    seq(25, _ => 0)
  }

  function ShiftRight(v: bv64, n: int): bv64
    requires 0 <= n < 64
  {
    v >> n
  }

  function Low8(v: bv64): bv8 { (v & 0xFF) as bv8 }

  /** Byte j of a lane, least significant first. */
  function ByteOf(v: bv64, j: int): bv8
    requires 0 <= j < 8
  {
    Low8(ShiftRight(v, 8 * j))
  }

  function Squeeze(s: seq<bv64>): (d: seq<bv8>)
    requires |s| == 25
    ensures |d| == 32
  {
    seq(32, i requires 0 <= i < 32 => ByteOf(s[i / 8], i % 8))
  }

  function Keccak256(m: seq<bv8>): (d: seq<bv8>)
    ensures |d| == 32
  {
    Squeeze(Absorb(Start(), Pad(m)))
  }

  // ---- absorbing block by block ----

  lemma PadSplits(m: seq<bv8>)
    requires |m| >= 136
    ensures Pad(m)[..136] == m[..136] && Pad(m)[136..] == Pad(m[136..])
  {
    assert (|m| - 136) % 136 == |m| % 136;
  }

  lemma AbsorbFull(s: seq<bv64>, m: seq<bv8>)
    requires |s| == 25 && |m| >= 136
    ensures Absorb(s, Pad(m)) == Absorb(KeccakF(XorBlock(s, m[..136])), Pad(m[136..]))
  {
    hide Pad, KeccakF, XorBlock;
    PadSplits(m);
  }

  lemma AbsorbLast(s: seq<bv64>, m: seq<bv8>)
    requires |s| == 25 && |m| < 136
    ensures |Pad(m)| == 136 && Absorb(s, Pad(m)) == KeccakF(XorBlock(s, Pad(m)))
  {
    hide KeccakF, XorBlock;
    var p := Pad(m);
    assert p[..136] == p && p[136..] == [];
  }

  // ---- the host hash ----

  method BuildLane(block: seq<bv8>, k: int) returns (l: bv64)
    requires |block| == 136 && 0 <= k < 17
    ensures l == LaneOf(block, k)
  {
    hide Or, AtByte;
    l := 0;
    ghost var b8 := block[8 * k..8 * k + 8];
    for b := 0 to 8
      invariant l == LeLane(b8, b)
    {
      l := Or(l, AtByte(block[k * 8 + b], b));
    }
  }

  method AbsorbBlock(st: array<bv64>, block: seq<bv8>)
    requires st.Length == 25 && |block| == 136
    modifies st
    ensures st[..] == KeccakF(XorBlock(old(st[..]), block))
  {
    hide KeccakF, LaneOf, PlainXor;
    ghost var s := st[..];
    for k := 0 to 17
      invariant forall i :: 0 <= i < 25 ==> st[i] == if i < k then PlainXor(s[i], LaneOf(block, i)) else s[i]
    {
      var l := BuildLane(block, k);
      st[k] := PlainXor(st[k], l);
    }
    assert st[..] == XorBlock(s, block);
    KeccakTables(st);
  }

  method SqueezeBytes(st: array<bv64>) returns (out: array<bv8>)
    requires st.Length == 25
    ensures fresh(out) && out[..] == Squeeze(st[..])
  {
    hide ByteOf;
    out := new bv8[32];
    for k := 0 to 4
      invariant forall i :: 0 <= i < 8 * k ==> out[i] == ByteOf(st[i / 8], i % 8)
    {
      for b := 0 to 8
        invariant forall i :: 0 <= i < 8 * k + b ==> out[i] == ByteOf(st[i / 8], i % 8)
      {
        out[k * 8 + b] := ByteOf(st[k], b);
      }
    }
  }

  /** The padded last block, built in a zeroed buffer. */
  method LastBlock(rest: seq<bv8>) returns (block: array<bv8>)
    requires |rest| < 136
    ensures fresh(block) && block[..] == Pad(rest)
  {
    block := new bv8[136](_ => 0);
    for i := 0 to |rest|
      invariant forall j :: 0 <= j < 136 ==> block[j] == if j < i then rest[j] else 0
    {
      block[i] := rest[i];
    }
    block[|rest|] := block[|rest|] ^ 0x01;
    block[135] := block[135] ^ 0x80;
    assert block[..] == Pad(rest);
  }

  /** Any length: full blocks are absorbed as they are, the rest is padded into the last block. */
  method HostKeccak256(msg: seq<bv8>) returns (out: array<bv8>)
    ensures out[..] == Keccak256(msg)
  {
    hide Pad, KeccakF, XorBlock, Absorb, Squeeze;
    var st := new bv64[25](_ => 0);
    assert st[..] == Start();
    var i := 0;
    while |msg| - i >= 136
      invariant 0 <= i <= |msg|
      invariant Absorb(st[..], Pad(msg[i..])) == Absorb(Start(), Pad(msg))
      decreases |msg| - i
    {
      AbsorbFull(st[..], msg[i..]);
      assert msg[i..][..136] == msg[i..i + 136] && msg[i..][136..] == msg[i + 136..];
      AbsorbBlock(st, msg[i..i + 136]);
      i := i + 136;
    }
    AbsorbLast(st[..], msg[i..]);
    var block := LastBlock(msg[i..]);
    AbsorbBlock(st, block[..]);
    out := SqueezeBytes(st);
  }
}

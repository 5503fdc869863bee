/** From a public key to the address of the first contract its account deploys. */
module Address {
  import opened NumberTheory
  import opened Words
  import opened Field
  import opened Wire
  import opened Sponge
  import opened KernelHash

  /** A byte as the hash reads it. */
  function AsU8(b: Byte): bv8 { b as bv8 }

  function U8s(b: seq<Byte>): (r: seq<bv8>)
    ensures |r| == |b|
  {
    seq(|b|, i requires 0 <= i < |b| => AsU8(b[i]))
  }

  /** The number that hash bytes denote, most significant first. */
  ghost function BigNumber(b: seq<bv8>): int {
    if b == [] then 0 else 256 * BigNumber(b[..|b| - 1]) + (b[|b| - 1] as int)
  }

  lemma EightBits(b: int)
    requires 0 <= b < 256
    ensures (b as bv8) as int == b
  {
    assert b % 256 == b;
  }

  lemma ByteAsInt(b: Byte)
    ensures AsU8(b) as int == b
  {
    EightBits(b);
  }

  /** Handing bytes to the hash keeps the number that they denote. */
  lemma {:induction false} BigNumberIs(b: seq<Byte>)
    ensures BigNumber(U8s(b)) == FromBig(b)
  {
    hide AsU8;
    if b != [] {
      var init := b[..|b| - 1];
      BigNumberIs(init);
      ByteAsInt(b[|b| - 1]);
      assert U8s(b)[..|b| - 1] == U8s(init);
    }
  }

  lemma SameByte(x: bv8, y: bv8)
    requires x as int == y as int
    ensures x == y
  {
  }

  lemma BigNumberLast(b: seq<bv8>)
    requires b != []
    ensures BigNumber(b) == BigNumber(b[..|b| - 1]) * 256 + (b[|b| - 1] as int)
  {
  }

  /** Bytes of one length that denote one number are the same. */
  lemma {:induction false} SameBytes(a: seq<bv8>, b: seq<bv8>)
    requires |a| == |b| && BigNumber(a) == BigNumber(b)
    ensures a == b
  {
    hide BigNumber;
    if a != [] {
      var n := |a| - 1;
      BigNumberLast(a); BigNumberLast(b);
      QuotientUnique(256, BigNumber(a[..n]), a[n] as int, BigNumber(b[..n]), b[n] as int);
      SameByte(a[n], b[n]);
      SameBytes(a[..n], b[..n]);
      assert a == a[..n] + [a[n]] && b == b[..n] + [b[n]];
    }
  }

  type Addr = a: seq<bv8> | |a| == 20 witness [0, 0, 0, 0, 0, 0, 0, 0, 0, 0, 0, 0, 0, 0, 0, 0, 0, 0, 0, 0]

  /** The last 20 of 32 bytes. */
  function Low20(h: seq<bv8>): Addr
    requires |h| == 32
  {
    h[12..]
  }

  /** The account of a public key: keccak256(X || Y)[12:]. */
  function Sender(x: int, y: int): Addr
  {
    Low20(Keccak256(U8s(BigEndian32(x) + BigEndian32(y))))
  }

  // ---- RLP, as the Ethereum yellow paper's appendix B defines it for short payloads ----

  function RlpString(b: seq<bv8>): seq<bv8>
    requires |b| <= 55
  {
    if |b| == 1 && b[0] < 0x80 then b else [AsU8(0x80 + |b|)] + b
  }

  function RlpList(payload: seq<bv8>): seq<bv8>
    requires |payload| <= 55
  {
    [AsU8(0xc0 + |payload|)] + payload
  }

  /** The first contract of an account: keccak256(rlp([sender, 0]))[12:], where 0 is the empty string. */
  function Created(sender: Addr): Addr
  {
    Low20(Keccak256(RlpList(RlpString(sender) + RlpString([]))))
  }

  /** The address that a candidate's public key deploys to. */
  function AddressOf(x: int, y: int): Addr
  {
    Created(Sender(x, y))
  }

  /** The 23 bytes the kernel hashes are the RLP of [sender, 0]. */
  lemma RlpOfSender(sender: Addr)
    ensures RlpList(RlpString(sender) + RlpString([])) == [0xd6, 0x94] + sender + [0x80]
  {
    assert AsU8(0x80 + 20) == 0x94;
    assert AsU8(0xc0 + 22) == 0xd6;
    assert AsU8(0x80) == 0x80;
  }

  /** The 32 bytes of a coordinate denote it. */
  lemma CoordinateBytes(v: int)
    requires 0 <= v < B256
    ensures BigNumber(U8s(BigEndian32(v))) == v
  {
    hide BigNumber, AsU8;
    Pow256Is();
    BytesRoundTrip(v, 32);
    FromBigReversed(Bytes(v, 32));
    BigNumberIs(BigEndian32(v));
  }

  lemma U8sConcat(a: seq<Byte>, b: seq<Byte>)
    ensures U8s(a + b) == U8s(a) + U8s(b)
  {
    hide AsU8;
  }

  /** The deployment address in terms of the 64 bytes of the key: the last 20 bytes of the hash of the RLP
      of [sender, 0], where the sender is the last 20 bytes of the hash of X and then Y. */
  lemma AddressIs(x: int, y: int, xb: seq<bv8>, yb: seq<bv8>)
    requires 0 <= x < B256 && 0 <= y < B256
    requires |xb| == |yb| == 32 && BigNumber(xb) == x && BigNumber(yb) == y
    ensures AddressOf(x, y) == Keccak256([0xd6, 0x94] + Keccak256(xb + yb)[12..] + [0x80])[12..]
  {
    hide Keccak256, BigEndian32, BigNumber, AsU8, RlpList, RlpString;
    CoordinateBytes(x); CoordinateBytes(y);
    SameBytes(xb, U8s(BigEndian32(x)));
    SameBytes(yb, U8s(BigEndian32(y)));
    U8sConcat(BigEndian32(x), BigEndian32(y));
    RlpOfSender(Sender(x, y));
  }

  method Last20(h: array<bv8>, out: array<bv8>, at: nat)
    requires h.Length == 32 && at + 20 <= out.Length && h != out
    modifies out
    ensures out[at..at + 20] == Low20(h[..])
    ensures forall k :: 0 <= k < out.Length && !(at <= k < at + 20) ==> out[k] == old(out[k])
  {
    for i := 0 to 20
      invariant forall k :: at <= k < at + i ==> out[k] == h[12 + (k - at)]
      invariant forall k :: 0 <= k < out.Length && !(at <= k < at + 20) ==> out[k] == old(out[k])
    {
      out[at + i] := h[12 + i];
    }
  }

  method RlpBytes(h: array<bv8>) returns (rlp: array<bv8>)
    requires h.Length == 32
    ensures fresh(rlp) && rlp.Length == 23
    ensures rlp[..] == RlpList(RlpString(Low20(h[..])) + RlpString([]))
  {
    hide RlpList, RlpString;
    rlp := new bv8[23](_ => 0);
    rlp[0] := 0xd6;
    rlp[1] := 0x94;
    Last20(h, rlp, 2);
    rlp[22] := 0x80;
    RlpOfSender(Low20(h[..]));
    assert rlp[2..22] == h[12..];
    assert rlp[..] == [0xd6, 0x94] + rlp[2..22] + [0x80];
  }

  /** The kernels' two hashes give the deployment address of the key in the two elements. */
  method AffineToAddr(ax: array<Word>, ay: array<Word>) returns (addr: array<bv8>)
    requires ax.Length == 4 && ay.Length == 4
    ensures fresh(addr) && addr[..] == AddressOf(Val(ax), Val(ay))
    ensures forall xb: seq<bv8>, yb: seq<bv8> ::
      |xb| == |yb| == 32 && BigNumber(xb) == Val(ax) && BigNumber(yb) == Val(ay) ==>
        addr[..] == Keccak256([0xd6, 0x94] + Keccak256(xb + yb)[12..] + [0x80])[12..]
  {
    hide Val, Keccak256, BigEndian32, AsU8, RlpList, RlpString, Low20, BigNumber;
    ValBound(ax); ValBound(ay);
    var pub := new Byte[64](_ => 0);
    FeToBe32(ax, pub, 0);
    FeToBe32(ay, pub, 32);
    assert pub[..] == BigEndian32(Val(ax)) + BigEndian32(Val(ay));
    var h := KernelKeccak256(U8s(pub[..]));
    var rlp := RlpBytes(h);
    var h2 := KernelKeccak256(rlp[..]);
    addr := new bv8[20](_ => 0);
    Last20(h2, addr, 0);
    assert addr[..] == addr[0..20];
    forall xb: seq<bv8>, yb: seq<bv8> | |xb| == |yb| == 32 && BigNumber(xb) == Val(ax) && BigNumber(yb) == Val(ay)
      ensures addr[..] == Keccak256([0xd6, 0x94] + Keccak256(xb + yb)[12..] + [0x80])[12..]
    {
      AddressIs(Val(ax), Val(ay), xb, yb);
    }
  }

  // ---- the pattern ----

  /** The first bytes are the prefix and the last bytes the suffix. */
  predicate MatchesPattern(addr: Addr, prefix: seq<bv8>, suffix: seq<bv8>)
    requires |prefix| <= 20 && |suffix| <= 20
  {
    addr[..|prefix|] == prefix && addr[20 - |suffix|..] == suffix
  }

  /** The address is the prefix with something after it, and the suffix with something before it. */
  lemma PatternMeans(addr: Addr, prefix: seq<bv8>, suffix: seq<bv8>)
    requires |prefix| <= 20 && |suffix| <= 20
    ensures MatchesPattern(addr, prefix, suffix) <==>
              (exists a: seq<bv8> :: addr == prefix + a) && (exists b: seq<bv8> :: addr == b + suffix)
  {
    if MatchesPattern(addr, prefix, suffix) {
      assert addr == prefix + addr[|prefix|..] && addr == addr[..20 - |suffix|] + suffix;
    }
  }

  method NickMatch(addr: array<bv8>, prefix: seq<bv8>, suffix: seq<bv8>) returns (ok: bool)
    requires addr.Length == 20 && |prefix| <= 20 && |suffix| <= 20
    ensures ok <==> MatchesPattern(addr[..], prefix, suffix)
  {
    ghost var s := addr[..];
    for i := 0 to |prefix|
      invariant s[..i] == prefix[..i]
    {
      if addr[i] != prefix[i] {
        assert s[..|prefix|][i] != prefix[i];
        return false;
      }
    }
    for i := 0 to |suffix|
      invariant forall k :: 0 <= k < i ==> s[20 - |suffix|..][k] == suffix[k]
    {
      if addr[20 - |suffix| + i] != suffix[i] {
        assert s[20 - |suffix|..][i] != suffix[i];
        return false;
      }
    }
    assert s[..|prefix|] == prefix && s[20 - |suffix|..] == suffix;
    ok := true;
  }
}

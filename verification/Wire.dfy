/** Field elements on the wire: 32 little-endian bytes in the comb table, 32 big-endian bytes for hashing. */
module Wire {
  import opened NumberTheory
  import opened Words
  import opened Field

  type Byte = x: int | 0 <= x < 256

  // ---- positional notation ----

  /** The number that bytes denote, least significant first. */
  function Number(b: seq<Byte>): (v: int)
    ensures v >= 0
  {
    if b == [] then 0 else b[0] + 256 * Number(b[1..])
  }

  /** The n low bytes of v, least significant first. */
  function Bytes(v: int, n: nat): (b: seq<Byte>)
    ensures |b| == n
    decreases n
  {
    if n == 0 then [] else [v % 256] + Bytes(v / 256, n - 1)
  }

  function Pow256(n: nat): (r: int)
    ensures r >= 1
  {
    if n == 0 then 1 else 256 * Pow256(n - 1)
  }

  lemma {:induction false} NumberBound(b: seq<Byte>)
    ensures 0 <= Number(b) < Pow256(|b|)
  {
    if b != [] { NumberBound(b[1..]); }
  }

  lemma {:induction false} BytesRoundTrip(v: int, n: nat)
    requires 0 <= v < Pow256(n)
    ensures Number(Bytes(v, n)) == v
    decreases n
  {
    if n > 0 {
      assert Bytes(v, n)[1..] == Bytes(v / 256, n - 1);
      BytesRoundTrip(v / 256, n - 1);
    }
  }

  lemma NumberNext(b: seq<Byte>)
    requires b != []
    ensures Number(b) == b[0] + 256 * Number(b[1..])
  {
  }

  lemma {:induction false} NumberRoundTrip(b: seq<Byte>)
    ensures Bytes(Number(b), |b|) == b
  {
    hide Number, Bytes;
    if b == [] {
      NoBytes(Number(b));
    } else {
      NumberRoundTrip(b[1..]);
      NumberNext(b);
      LowByte(b[0], Number(b[1..]), |b| - 1);
      assert b == [b[0]] + b[1..];
    }
  }

  lemma NoBytes(v: int)
    ensures Bytes(v, 0) == []
  {
  }

  lemma {:induction false} NumberConcat(a: seq<Byte>, b: seq<Byte>)
    ensures Number(a + b) == Number(a) + Pow256(|a|) * Number(b)
  {
    if a == [] {
      assert a + b == b;
    } else {
      NumberConcat(a[1..], b);
      assert (a + b)[1..] == a[1..] + b;
      Assoc(256, Pow256(|a| - 1), Number(b));
    }
  }

  lemma NumberLast(a: seq<Byte>, x: Byte)
    ensures Number(a + [x]) == Number(a) + Pow256(|a|) * x
  {
    NumberConcat(a, [x]);
    assert [x][1..] == [];
    assert Number([x]) == x;
  }

  lemma Pow256Is()
    ensures Pow256(8) == B64 && Pow256(32) == B256
  {
    assert Pow256(4) == B32;
    assert Pow256(8) == B64;
    assert Pow256(12) == B64 * B32;
    assert Pow256(16) == B128;
    assert Pow256(20) == B128 * B32;
    assert Pow256(24) == B192;
    assert Pow256(28) == B192 * B32;
  }

  // ---- loading limbs ----

  lemma {:induction false} Pow256IsPow2(j: nat)
    ensures Pow256(j) == Pow2(8 * j)
  {
    if j > 0 {
      Pow256IsPow2(j - 1);
      var k := 8 * (j - 1);
      assert Pow2(k + 2) == 4 * Pow2(k);
      assert Pow2(k + 4) == 16 * Pow2(k);
      assert Pow2(k + 6) == 64 * Pow2(k);
    }
  }

  /** Shifting byte j into place loses nothing, and OR-ing it into the bytes below adds it. */
  lemma ByteIntoWord(w: Word, b: Byte, j: nat)
    requires j < 8 && w < Pow256(j)
    ensures BitOr(w, Shl(b, 8 * j)) == w + Pow256(j) * b < B64
  {
    hide BitOr, Pow2, Pow256;
    Pow256IsPow2(j);
    OrOfDisjointBits(w, b, 8 * j);
    TopByte(w, b, j);
    ModUnique(b * Pow2(8 * j), B64, 0, b * Pow2(8 * j));
  }

  lemma TopByte(w: int, b: Byte, j: nat)
    requires j < 8 && 0 <= w < Pow256(j)
    ensures 0 <= b * Pow256(j) && w + b * Pow256(j) < B64
  {
    hide Pow256;
    MulMonotone(0, b, Pow256(j));
    MulMonotone(b, 255, Pow256(j));
    Pow256Next(j);
    Pow256Monotone(j + 1, 8);
    Pow256Is();
  }

  lemma {:induction false} Pow256Monotone(a: nat, b: nat)
    requires a <= b
    ensures Pow256(a) <= Pow256(b)
    decreases b
  {
    if a < b { Pow256Monotone(a, b - 1); }
  }

  /** Eight bytes, each shifted into place and OR-ed in. */
  method LimbFromLe(buf: array<Byte>, at: nat) returns (w: Word)
    requires at + 8 <= buf.Length
    ensures w == Number(buf[at..at + 8])
  {
    hide Number, Pow256, BitOr, Shl;
    NumberOfNone();
    ghost var b := buf[at..at + 8];
    w := 0;
    for j := 0 to 8
      invariant w == Number(b[..j])
    {
      assert b[..j + 1] == b[..j] + [b[j]];
      NumberBound(b[..j]);
      NumberLast(b[..j], b[j]);
      ByteIntoWord(w, b[j], j);
      w := BitOr(w, Shl(buf[at + j], 8 * j));
    }
    assert b[..8] == b;
  }

  lemma NumberOfNone()
    ensures Number([]) == 0
  {
  }

  lemma FourLimbs(b: seq<Byte>)
    requires |b| == 32
    ensures Val4(Number(b[..8]), Number(b[8..16]), Number(b[16..24]), Number(b[24..])) == Number(b)
  {
    hide Number, Pow256;
    Pow256Is();
    NumberConcat(b[..8], b[8..]);
    NumberConcat(b[8..16], b[16..]);
    NumberConcat(b[16..24], b[24..]);
    assert b == b[..8] + b[8..] && b[8..] == b[8..16] + b[16..] && b[16..] == b[16..24] + b[24..];
  }

  /** Loads a field element from 32 little-endian bytes. */
  method FeFromLe32(buf: array<Byte>, at: nat, r: array<Word>)
    requires at + 32 <= buf.Length && r.Length == 4
    modifies r
    ensures Val(r) == Number(buf[at..at + 32])
  {
    hide Number;
    ghost var b := buf[at..at + 32];
    for i := 0 to 4
      invariant forall k :: 0 <= k < i ==> r[k] == Number(buf[at + 8 * k..at + 8 * k + 8])
    {
      var w := LimbFromLe(buf, at + 8 * i);
      r[i] := w;
    }
    FourLimbs(b);
    Within(buf[..], at, 0); Within(buf[..], at, 8); Within(buf[..], at, 16); Within(buf[..], at, 24);
    assert b[24..] == b[24..32];
  }

  lemma Within(s: seq<Byte>, at: nat, i: nat)
    requires at + 32 <= |s| && i + 8 <= 32
    ensures s[at..at + 32][i..i + 8] == s[at + i..at + i + 8]
  {
    var b, w := s[at..at + 32], s[at + i..at + i + 8];
    assert |b[i..i + 8]| == |w| == 8;
    forall k | 0 <= k < 8
      ensures b[i..i + 8][k] == w[k]
    {
      assert b[i..i + 8][k] == b[i + k] == s[at + i + k];
    }
  }

  // ---- storing limbs ----

  /** Byte i of a number. */
  function Digit(v: int, i: nat): Byte {
    (v / Pow256(i)) % 256
  }

  lemma {:induction false} DigitIsByte(v: int, n: nat, i: nat)
    requires v >= 0 && i < n
    ensures Digit(v, i) == Bytes(v, n)[i]
    decreases i
  {
    if i > 0 {
      DigitIsByte(v / 256, n - 1, i - 1);
      DivTwice(v, 256, Pow256(i - 1));
    }
  }

  lemma DivTwice(v: int, a: int, b: int)
    requires v >= 0 && a > 0 && b > 0
    ensures a * b > 0 && v / (a * b) == (v / a) / b
  {
    ModSplit(v, a);
    ModSplit(v / a, b);
    NestedQuotient(v, a, b, v / a, v % a, (v / a) / b, (v / a) % b);
  }

  lemma NestedQuotient(v: int, a: int, b: int, q: int, r: int, h: int, s: int)
    requires v == q * a + r && q == h * b + s && 0 <= r < a && 0 <= s < b
    ensures a * b > 0 && v / (a * b) == h
  {
    MulPositive(a, b);
    Recombine(a, b, h, s);
    BelowProduct(a, b, r, s);
    ModUnique(v, a * b, h, s * a + r);
  }

  lemma Recombine(a: int, b: int, h: int, s: int)
    ensures (h * b + s) * a == h * (a * b) + s * a
  {
    assert (h * b) * a == h * (a * b);
  }

  lemma BelowProduct(a: int, b: int, r: int, s: int)
    requires 0 <= r < a && 0 <= s < b
    ensures 0 <= s * a + r < a * b
  {
    MulMonotone(0, s, a);
    MulMonotone(s, b - 1, a);
    Recombine(a, 1, b, -1);
  }

  lemma MulMonotone(a: int, b: int, c: int)
    requires a <= b && c >= 0
    ensures a * c <= b * c
  {
  }

  lemma MulPositive(a: int, b: int)
    requires a > 0 && b > 0
    ensures a * b > 0
  {
  }

  lemma {:induction false} BytesConcat(x: int, y: int, m: nat, n: nat)
    requires 0 <= x < Pow256(m)
    ensures Bytes(x + Pow256(m) * y, m + n) == Bytes(x, m) + Bytes(y, n)
    decreases m
  {
    hide Bytes, Pow256;
    if m == 0 {
      NothingBelow(x, y, n);
    } else {
      Pow256Next(m - 1);
      BytesConcat(x / 256, y, m - 1, n);
      var z := Pow256(m - 1) * y;
      Assoc(256, Pow256(m - 1), y);
      LowByte(x, z, m - 1 + n);
      LowByte(x, 0, m - 1);
      assert [x % 256] + (Bytes(x / 256, m - 1) + Bytes(y, n)) == [x % 256] + Bytes(x / 256, m - 1) + Bytes(y, n);
    }
  }

  lemma Pow256Next(m: nat)
    ensures Pow256(m + 1) == 256 * Pow256(m)
  {
  }

  lemma NothingBelow(x: int, y: int, n: nat)
    requires 0 <= x < Pow256(0)
    ensures Bytes(x + Pow256(0) * y, n) == Bytes(x, 0) + Bytes(y, n)
  {
    assert 1 * y == y && Bytes(x, 0) == [];
  }

  lemma LowByte(x: int, z: int, n: nat)
    ensures Bytes(x + 256 * z, n + 1) == [x % 256] + Bytes(x / 256 + z, n)
  {
    assert (x + 256 * z) % 256 == x % 256 && (x + 256 * z) / 256 == x / 256 + z;
  }

  lemma LimbBytes(n0: Word, n1: Word, n2: Word, n3: Word)
    ensures Bytes(Val4(n0, n1, n2, n3), 32) == Bytes(n0, 8) + Bytes(n1, 8) + Bytes(n2, 8) + Bytes(n3, 8)
  {
    hide Bytes, Pow256;
    Pow256Is();
    var t := n1 + B64 * (n2 + B64 * n3);
    BytesConcat(n0, t, 8, 24);
    BytesConcat(n1, n2 + B64 * n3, 8, 16);
    BytesConcat(n2, n3, 8, 8);
    assert n0 + B64 * t == Val4(n0, n1, n2, n3);
    var b0, b1, b2, b3 := Bytes(n0, 8), Bytes(n1, 8), Bytes(n2, 8), Bytes(n3, 8);
    assert b0 + (b1 + (b2 + b3)) == b0 + b1 + b2 + b3;
  }

  function Reversed(b: seq<Byte>): (r: seq<Byte>)
    ensures |r| == |b| && forall i :: 0 <= i < |b| ==> r[i] == b[|b| - 1 - i]
  {
    seq(|b|, i requires 0 <= i < |b| => b[|b| - 1 - i])
  }

  /** The 32 bytes of a coordinate, most significant first. */
  function BigEndian32(v: int): (b: seq<Byte>)
    ensures |b| == 32
  {
    Reversed(Bytes(v, 32))
  }

  lemma BigEndianByte(n0: Word, n1: Word, n2: Word, n3: Word, l: int, j: int)
    requires 0 <= l < 4 && 0 <= j < 8
    ensures BigEndian32(Val4(n0, n1, n2, n3))[8 * l + j] == Digit([n0, n1, n2, n3][3 - l], 7 - j)
  {
    hide Bytes, Val4, Digit;
    LimbBytes(n0, n1, n2, n3);
    var w := [n0, n1, n2, n3][3 - l];
    DigitIsByte(w, 8, 7 - j);
    assert 31 - (8 * l + j) == 8 * (3 - l) + (7 - j);
  }

  /** Serialises a field element to 32 big-endian bytes at out[at..at + 32]. */
  method FeToBe32(a: array<Word>, out: array<Byte>, at: nat)
    requires a.Length == 4 && at + 32 <= out.Length
    modifies out
    ensures out[at..at + 32] == BigEndian32(Val(a))
    ensures forall i :: 0 <= i < out.Length && !(at <= i < at + 32) ==> out[i] == old(out[i])
  {
    hide Val4, Digit, BigEndian32;
    ValBound(a);
    ghost var be := BigEndian32(Val(a));
    for l := 0 to 4
      invariant forall i :: 0 <= i < 8 * l ==> out[at + i] == be[i]
      invariant forall i :: 0 <= i < out.Length && !(at <= i < at + 32) ==> out[i] == old(out[i])
    {
      var w := a[3 - l];
      for j := 0 to 8
        invariant forall i :: 0 <= i < 8 * l + j ==> out[at + i] == be[i]
        invariant forall i :: 0 <= i < out.Length && !(at <= i < at + 32) ==> out[i] == old(out[i])
      {
        BigEndianByte(a[0], a[1], a[2], a[3], l, j);
        out[at + 8 * l + j] := Digit(w, 7 - j);
      }
    }
  }

  // ---- the host's wire format ----

  /** Big-endian bytes read as a number, as big.Int's SetBytes does. */
  function FromBig(b: seq<Byte>): int {
    if b == [] then 0 else 256 * FromBig(b[..|b| - 1]) + b[|b| - 1]
  }

  lemma {:induction false} FromBigReversed(b: seq<Byte>)
    ensures FromBig(Reversed(b)) == Number(b)
  {
    if b != [] {
      FromBigReversed(b[1..]);
      assert Reversed(b)[..|b| - 1] == Reversed(b[1..]);
    }
  }

  /** putFE: the big-endian fill of a number, reversed into dst[at..at + 32]. */
  method PutFE(dst: array<Byte>, at: nat, v: int)
    requires at + 32 <= dst.Length && 0 <= v < B256
    modifies dst
    ensures Number(dst[at..at + 32]) == v && dst[at..at + 32] == Bytes(v, 32)
    ensures forall i :: 0 <= i < dst.Length && !(at <= i < at + 32) ==> dst[i] == old(dst[i])
  {
    hide Number, Pow256, Bytes;
    var be := BigEndian32(v);
    for i := 0 to 32
      invariant forall k :: at <= k < at + i ==> dst[k] == be[31 - (k - at)]
      invariant forall k :: 0 <= k < dst.Length && !(at <= k < at + 32) ==> dst[k] == old(dst[k])
    {
      dst[at + i] := be[31 - i];
    }
    Pow256Is();
    BytesRoundTrip(v, 32);
    assert dst[at..at + 32] == Bytes(v, 32);
  }

  /** feFromBytes: reverses 32 bytes and reads them big-endian. */
  method FeFromBytes(src: array<Byte>, at: nat) returns (v: int)
    requires at + 32 <= src.Length
    ensures v == Number(src[at..at + 32])
  {
    hide Number, FromBig;
    var be := new Byte[32](_ => 0);
    for i := 0 to 32
      invariant forall k :: 0 <= k < i ==> be[k] == src[at + 31 - k]
    {
      be[i] := src[at + 31 - i];
    }
    ghost var b := src[at..at + 32];
    FromBigReversed(b);
    assert be[..] == Reversed(b);
    v := FromBig(be[..]);
  }
}

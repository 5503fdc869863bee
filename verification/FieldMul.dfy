/** Comba multiplication, the dedicated squaring and the reduction of a 512-bit product. */
module FieldMul {
  import opened NumberTheory
  import opened Words
  import opened Field

  const B320: int := B256 * B64
  const B384: int := B320 * B64
  const B448: int := B384 * B64

  /** 2^(64 i), the weight of limb i of a product. */
  ghost function Weight(i: int): int {
    if i <= 0 then 1 else if i == 1 then B64 else if i == 2 then B128 else if i == 3 then B192
    else if i == 4 then B256 else if i == 5 then B320 else if i == 6 then B384 else B448
  }

  /** The number that the first n limbs of a buffer denote. */
  ghost function Prefix(t: seq<Word>, n: nat): int
    requires n <= |t| <= 8
  {
    if n == 0 then 0 else Prefix(t, n - 1) + t[n - 1] * Weight(n - 1)
  }

  ghost function Val8(t: array<Word>): int
    requires t.Length == 8
    reads t
  {
    Prefix(t[..], 8)
  }

  // ---- multiplication by a small scalar ----

  lemma ScalarChain(a0: int, a1: int, a2: int, a3: int, c: int,
                    l0: int, h0: int, l1: int, h1: int, l2: int, h2: int, l3: int, h3: int,
                    o0: int, o1: int, o2: int, o3: int, o4: int, k1: int, k2: int, k3: int)
    requires h0 * B64 + l0 == Product(a0, c) && h1 * B64 + l1 == Product(a1, c)
    requires h2 * B64 + l2 == Product(a2, c) && h3 * B64 + l3 == Product(a3, c)
    requires o0 == l0
    requires o1 + k1 * B64 == l1 + h0
    requires o2 + k2 * B64 == l2 + h1 + k1
    requires o3 + k3 * B64 == l3 + h2 + k2
    requires o4 == h3 + k3
    ensures Val4(o0, o1, o2, o3) + o4 * B256 == Val4(a0, a1, a2, a3) * c
  {
    var p0, p1, p2, p3 := a0 * c, a1 * c, a2 * c, a3 * c;
    assert Val4(a0, a1, a2, a3) * c == p0 + p1 * B64 + p2 * B128 + p3 * B192 by {
      Distribute4(a0, a1, a2, a3, c);
    }
  }

  lemma Distribute4(a0: int, a1: int, a2: int, a3: int, c: int)
    ensures Val4(a0, a1, a2, a3) * c == Product(a0, c) + (a1 * c) * B64 + (a2 * c) * B128 + (a3 * c) * B192
  {
  }

  /** (a0..a3) * c in five limbs. The carry word hi + cc cannot wrap, for any c. */
  method MulScalar5(out: array<Word>, a0: Word, a1: Word, a2: Word, a3: Word, c: Word, backend: Backend := OpenCl)
    requires out.Length == 5
    modifies out
    ensures Val4(out[0], out[1], out[2], out[3]) + out[4] * B256 == Val4(a0, a1, a2, a3) * c
  {
    hide Val4, MulLo;
    var lo, hi, cc, carry;
    ghost var k1, k2, k3;
    lo := MulLo(a0, c); hi := HighHalf(backend, a0, c);
    out[0] := lo; carry := hi;
    lo := MulLo(a1, c); hi := HighHalf(backend, a1, c);
    out[1], cc := Addc(lo, carry, 0); carry := hi + cc; k1 := cc;
    lo := MulLo(a2, c); hi := HighHalf(backend, a2, c);
    out[2], cc := Addc(lo, carry, 0); carry := hi + cc; k2 := cc;
    lo := MulLo(a3, c); hi := HighHalf(backend, a3, c);
    out[3], cc := Addc(lo, carry, 0); carry := hi + cc; k3 := cc;
    out[4] := carry;
    ScalarChain(a0, a1, a2, a3, c, MulLo(a0, c), MulHi(a0, c), MulLo(a1, c), MulHi(a1, c),
                MulLo(a2, c), MulHi(a2, c), MulLo(a3, c), MulHi(a3, c),
                out[0], out[1], out[2], out[3], out[4], k1, k2, k3);
  }

  // ---- reduction of 512 bits ----

  lemma FirstFold(low: int, high: int, hv: int, h4: int, mv: int, c: int)
    requires 0 <= low < B256 && 0 <= high < B256 && 0 <= hv < B256 && 0 <= mv < B256
    requires hv + h4 * B256 == high * C
    requires mv + c * B256 == low + hv
    ensures mv + (h4 + c) * B256 == low + high * C
    ensures 0 <= h4 + c <= C
  {
  }

  lemma SecondFold(low: int, high: int, mv: int, m4: int, x: int, c: int)
    requires 0 <= mv < B256 && 0 <= m4 <= C && 0 <= x < B256 && 0 <= c <= 1
    requires mv + m4 * B256 == low + high * C
    requires x + c * B256 == mv + m4 * C
    ensures x + c * C < B256
    ensures low + high * B256 == (x + c * C) + (c + m4 + high) * P
  {
    PrimeValue();
  }

  lemma Reduced(v: int, f: int, k: int, r: int)
    requires v == f + k * P
    requires r == (if f < P then f else f - P) && 0 <= r < P
    ensures r == v % P
  {
    PrimeValue();
  }

  lemma Split8(t: array<Word>)
    requires t.Length == 8
    ensures Val8(t) == Val4(t[0], t[1], t[2], t[3]) + Val4(t[4], t[5], t[6], t[7]) * B256
  {
    var s := t[..];
    assert Prefix(s, 1) == s[0] * Weight(0);
    assert Prefix(s, 2) == s[0] + s[1] * B64;
    assert Prefix(s, 4) == Prefix(s, 2) + s[2] * B128 + s[3] * B192;
    assert Prefix(s, 6) == Prefix(s, 4) + s[4] * B256 + s[5] * B320;
    assert Prefix(s, 8) == Prefix(s, 6) + s[6] * B384 + s[7] * B448;
  }

  lemma Val4Bound(n0: Word, n1: Word, n2: Word, n3: Word)
    ensures 0 <= Val4(n0, n1, n2, n3) < B256
  {
  }

  /** r := m + m4 * C, the fold of the word above bit 256. */
  method AddTop(r: array<Word>, m0: Word, m1: Word, m2: Word, m3: Word, m4: Word,
                backend: Backend := OpenCl)
    returns (cc: Word)
    requires r.Length == 4
    modifies r
    ensures cc <= 1 && Val(r) + cc * B256 == Val4(m0, m1, m2, m3) + m4 * C
  {
    hide Val, Val4, MulLo;
    var lo := MulLo(m4, C);
    var hi := HighHalf(backend, m4, C);
    ghost var k1, k2, k3;
    r[0], cc := Addc(m0, lo, 0); k1 := cc;
    r[1], cc := Addc(m1, hi, cc); k2 := cc;
    r[2], cc := Addc(m2, 0, cc); k3 := cc;
    r[3], cc := Addc(m3, 0, cc);
    AddChain(m0, m1, m2, m3, lo, hi, 0, 0, r[0], r[1], r[2], r[3], k1, k2, k3, cc);
    ValIs(r);
    TwoWords(lo, hi);
  }

  /** m := t[0..3] + t[4..7] * C in five words; the top word is at most C, so it cannot wrap. */
  method FoldUpper(t: array<Word>, backend: Backend := OpenCl)
    returns (m0: Word, m1: Word, m2: Word, m3: Word, m4: Word)
    requires t.Length == 8
    ensures m4 <= C
    ensures Val4(m0, m1, m2, m3) + m4 * B256
         == Val4(t[0], t[1], t[2], t[3]) + Val4(t[4], t[5], t[6], t[7]) * C
  {
    hide Val4;
    var hiC := new Word[5];
    MulScalar5(hiC, t[4], t[5], t[6], t[7], C, backend);
    var cc;
    ghost var k1, k2, k3;
    m0, cc := Addc(t[0], hiC[0], 0); k1 := cc;
    m1, cc := Addc(t[1], hiC[1], cc); k2 := cc;
    m2, cc := Addc(t[2], hiC[2], cc); k3 := cc;
    m3, cc := Addc(t[3], hiC[3], cc);
    AddChain(t[0], t[1], t[2], t[3], hiC[0], hiC[1], hiC[2], hiC[3], m0, m1, m2, m3, k1, k2, k3, cc);
    Val4Bound(t[0], t[1], t[2], t[3]);
    Val4Bound(t[4], t[5], t[6], t[7]);
    Val4Bound(hiC[0], hiC[1], hiC[2], hiC[3]);
    Val4Bound(m0, m1, m2, m3);
    FirstFold(Val4(t[0], t[1], t[2], t[3]), Val4(t[4], t[5], t[6], t[7]),
              Val4(hiC[0], hiC[1], hiC[2], hiC[3]), hiC[4], Val4(m0, m1, m2, m3), cc);
    m4 := (hiC[4] + cc) % B64;
  }

  /** t mod p for every 512-bit t. The sum below 2^256 after the second fold means that the carry
      fold and the conditional subtraction each run at most once. */
  method FeReduce(r: array<Word>, t: array<Word>, backend: Backend := OpenCl)
    returns (ghost folds: nat, ghost rounds: nat)
    requires r.Length == 4 && t.Length == 8
    modifies r
    ensures Val(r) == old(Val8(t)) % P && InRange(Val(r))
    ensures folds <= 1 && rounds <= 1
  {
    hide Val, Val4, Val8, Folded;
    ghost var low, high := Val4(t[0], t[1], t[2], t[3]), Val4(t[4], t[5], t[6], t[7]);
    Split8(t);
    var m0, m1, m2, m3, m4 := FoldUpper(t, backend);
    ghost var mv := Val4(m0, m1, m2, m3);
    Val4Bound(m0, m1, m2, m3);
    var cc := AddTop(r, m0, m1, m2, m3, m4, backend);
    ghost var x := Val(r);
    ValBound(r);
    SecondFold(low, high, mv, m4, x, cc);
    FoldedBit(cc);
    folds := FoldCarry(r, cc);
    rounds := FeCondSubP(r);
    Reduced(low + high * B256, x + cc * C, cc + m4 + high, Val(r));
  }

  lemma ValIs(r: array<Word>)
    requires r.Length == 4
    ensures Val(r) == Val4(r[0], r[1], r[2], r[3])
  {
  }

  lemma TwoWords(lo: int, hi: int)
    ensures Val4(lo, hi, 0, 0) == lo + hi * B64
  {
  }

  // ---- the three-word column accumulator ----

  /** The number held by the three-word accumulator. */
  ghost function Acc3(c0: int, c1: int, c2: int): int {
    c0 + c1 * B64 + c2 * B128
  }

  /** Adds one product to the accumulator; with at most four carries counted the top word cannot wrap. */
  method Accumulate(c0: Word, c1: Word, c2: Word, hi: Word, lo: Word) returns (d0: Word, d1: Word, d2: Word)
    requires c2 <= 4
    ensures d2 <= c2 + 1
    ensures Acc3(d0, d1, d2) == Acc3(c0, c1, c2) + (hi * B64 + lo)
  {
    var cr: Word := 0;
    d0, cr := Addc(c0, lo, cr);
    d1, cr := Addc(c1, hi, cr);
    d2 := (c2 + cr) % B64;
  }

  // ---- Comba multiplication ----

  function ColLow(col: int): int { if col - 3 < 0 then 0 else col - 3 }
  function ColHigh(col: int): int { if col > 3 then 3 else col }

  /** The products Product(a[i'], b[col - i']) of one column, for i' below i. */
  ghost function ColSum(a: seq<Word>, b: seq<Word>, col: nat, i: int): int
    requires |a| == 4 && |b| == 4 && col <= 6
    requires ColLow(col) <= i <= ColHigh(col) + 1
    decreases i
  {
    if i == ColLow(col) then 0 else ColSum(a, b, col, i - 1) + Product(a[i - 1], b[col - (i - 1)])
  }

  /** The first n columns, each at its weight. */
  ghost function Columns(a: seq<Word>, b: seq<Word>, n: nat): int
    requires |a| == 4 && |b| == 4 && n <= 7
  {
    if n == 0 then 0 else Columns(a, b, n - 1) + ColSum(a, b, n - 1, ColHigh(n - 1) + 1) * Weight(n - 1)
  }

  ghost function SeqVal(a: seq<Word>): int
    requires |a| == 4
  {
    Val4(a[0], a[1], a[2], a[3])
  }

  lemma ColumnsUpTo3(a: seq<Word>, b: seq<Word>)
    requires |a| == 4 && |b| == 4
    ensures Columns(a, b, 4)
         == Product(a[0], b[0]) + (Product(a[0], b[1]) + Product(a[1], b[0])) * B64
          + (Product(a[0], b[2]) + Product(a[1], b[1]) + Product(a[2], b[0])) * B128
          + (Product(a[0], b[3]) + Product(a[1], b[2]) + Product(a[2], b[1]) + Product(a[3], b[0])) * B192
  {
    hide Product;
    assert ColSum(a, b, 0, 1) == Product(a[0], b[0]);
    assert Columns(a, b, 1) == Product(a[0], b[0]) * Weight(0);
    assert ColSum(a, b, 1, 1) == Product(a[0], b[1]);
    assert ColSum(a, b, 1, 2) == Product(a[0], b[1]) + Product(a[1], b[0]);
    assert ColSum(a, b, 2, 1) == Product(a[0], b[2]);
    assert ColSum(a, b, 2, 3) == Product(a[0], b[2]) + Product(a[1], b[1]) + Product(a[2], b[0]);
    assert ColSum(a, b, 3, 1) == Product(a[0], b[3]);
    assert ColSum(a, b, 3, 3) == Product(a[0], b[3]) + Product(a[1], b[2]) + Product(a[2], b[1]);
    assert Columns(a, b, 3) == Columns(a, b, 2) + ColSum(a, b, 2, 3) * B128;
  }

  lemma ColumnsFrom4(a: seq<Word>, b: seq<Word>)
    requires |a| == 4 && |b| == 4
    ensures Columns(a, b, 7) == Columns(a, b, 4)
          + (Product(a[1], b[3]) + Product(a[2], b[2]) + Product(a[3], b[1])) * B256
          + (Product(a[2], b[3]) + Product(a[3], b[2])) * B320 + (Product(a[3], b[3])) * B384
  {
    hide Product;
    assert ColSum(a, b, 4, 2) == Product(a[1], b[3]);
    assert ColSum(a, b, 4, 4) == Product(a[1], b[3]) + Product(a[2], b[2]) + Product(a[3], b[1]);
    assert ColSum(a, b, 5, 3) == Product(a[2], b[3]);
    assert ColSum(a, b, 5, 4) == Product(a[2], b[3]) + Product(a[3], b[2]);
    assert ColSum(a, b, 6, 4) == Product(a[3], b[3]);
    assert Columns(a, b, 5) == Columns(a, b, 4) + ColSum(a, b, 4, 4) * B256;
    assert Columns(a, b, 6) == Columns(a, b, 5) + ColSum(a, b, 5, 4) * B320;
  }

  lemma SchoolbookProduct(a0: int, a1: int, a2: int, a3: int, b0: int, b1: int, b2: int, b3: int)
    ensures Val4(a0, a1, a2, a3) * Val4(b0, b1, b2, b3)
         == Product(a0, b0) + (Product(a0, b1) + Product(a1, b0)) * B64
          + (Product(a0, b2) + Product(a1, b1) + Product(a2, b0)) * B128
          + (Product(a0, b3) + Product(a1, b2) + Product(a2, b1) + Product(a3, b0)) * B192
          + (Product(a1, b3) + Product(a2, b2) + Product(a3, b1)) * B256
          + (Product(a2, b3) + Product(a3, b2)) * B320 + (Product(a3, b3)) * B384
  {
    hide Val4;
    var y := Val4(b0, b1, b2, b3);
    Distribute4(a0, a1, a2, a3, y);
    Distribute4(b0, b1, b2, b3, a0);
    Distribute4(b0, b1, b2, b3, a1);
    Distribute4(b0, b1, b2, b3, a2);
    Distribute4(b0, b1, b2, b3, a3);
  }

  lemma ColumnsAreProduct(a: seq<Word>, b: seq<Word>)
    requires |a| == 4 && |b| == 4
    ensures Columns(a, b, 7) == SeqVal(a) * SeqVal(b)
    ensures 0 <= Columns(a, b, 7) < B256 * B256
  {
    hide Columns, Val4, Product;
    ColumnsUpTo3(a, b);
    ColumnsFrom4(a, b);
    SchoolbookProduct(a[0], a[1], a[2], a[3], b[0], b[1], b[2], b[3]);
    Val4Bound(a[0], a[1], a[2], a[3]);
    Val4Bound(b[0], b[1], b[2], b[3]);
    MulBounds(SeqVal(a), SeqVal(b), B256 - 1, B256 - 1);
  }

  /** The first n limbs are stored and rest is what the accumulator still holds. */
  ghost predicate Stored(t: seq<Word>, a: seq<Word>, b: seq<Word>, n: nat, rest: int)
    requires |t| == 8 && |a| == 4 && |b| == 4 && n <= 7
  {
    Prefix(t, n) + rest * Weight(n) == Columns(a, b, n)
  }

  lemma ColumnDone(before: int, t: int, c1: int, c2: int, acc: int, sum: int, w: int, next: int)
    requires Acc3(t, c1, c2) == acc + sum
    requires next == w * B64
    ensures before + acc * w + sum * w == before + t * w + Acc3(c1, c2, 0) * next
  {
    assert acc * w + sum * w == (acc + sum) * w;
    assert (t + c1 * B64 + c2 * B128) * w == t * w + (c1 + c2 * B64) * next;
  }

  lemma ColSumEmpty(a: seq<Word>, b: seq<Word>, col: nat)
    requires |a| == 4 && |b| == 4 && col <= 6
    ensures ColSum(a, b, col, ColLow(col)) == 0
  {
  }

  lemma ColSumNext(a: seq<Word>, b: seq<Word>, col: nat, i: int)
    requires |a| == 4 && |b| == 4 && col <= 6 && ColLow(col) <= i <= ColHigh(col)
    ensures ColSum(a, b, col, i + 1) == ColSum(a, b, col, i) + Product(a[i], b[col - i])
  {
  }

  /** One column: adds its products to the accumulator. c2 counts at most one carry a product. */
  method AddColumn(a: array<Word>, b: array<Word>, col: nat, c0In: Word, c1In: Word, backend: Backend := OpenCl)
    returns (c0: Word, c1: Word, c2: Word)
    requires a.Length == 4 && b.Length == 4 && col <= 6
    ensures c2 <= 4
    ensures Acc3(c0, c1, c2) == Acc3(c0In, c1In, 0) + ColSum(a[..], b[..], col, ColHigh(col) + 1)
  {
    hide Product, MulLo, ColSum, Acc3;
    ColSumEmpty(a[..], b[..], col);
    c0, c1, c2 := c0In, c1In, 0;
    var lo := col - 3;
    if lo < 0 { lo := 0; }
    var hi := col;
    if hi > 3 { hi := 3; }
    var i := lo;
    while i <= hi
      invariant lo <= i <= hi + 1
      invariant c2 <= i - lo
      invariant Acc3(c0, c1, c2) == Acc3(c0In, c1In, 0) + ColSum(a[..], b[..], col, i)
    {
      var j := col - i;
      var pl := MulLo(a[i], b[j]);
      var ph := HighHalf(backend, a[i], b[j]);
      c0, c1, c2 := Accumulate(c0, c1, c2, ph, pl);
      ColSumNext(a[..], b[..], col, i);
      i := i + 1;
    }
  }

  lemma PrefixSame(t: seq<Word>, u: seq<Word>, n: nat)
    requires n <= |t| <= 8 && n <= |u| <= 8 && t[..n] == u[..n]
    ensures Prefix(t, n) == Prefix(u, n)
  {
    if n > 0 {
      assert t[..n - 1] == t[..n][..n - 1] == u[..n - 1];
      assert t[n - 1] == t[..n][n - 1] == u[n - 1];
      PrefixSame(t, u, n - 1);
    }
  }

  /** Prefix(u, col + 1) when u is t with its limb col set. */
  lemma PrefixStore(t: seq<Word>, u: seq<Word>, col: nat)
    requires |t| == |u| == 8 && col < 8 && u == t[col := u[col]]
    ensures Prefix(u, col + 1) == Prefix(t, col) + u[col] * Weight(col)
  {
    PrefixSame(t, u, col);
  }

  lemma WeightStep(i: nat)
    requires i < 7
    ensures Weight(i + 1) == Weight(i) * B64
  {
  }

  lemma PrefixNonnegative(t: seq<Word>, n: nat)
    requires n <= |t| <= 8
    ensures 0 <= Prefix(t, n)
  {
    if n > 0 {
      PrefixNonnegative(t, n - 1);
      assert 0 <= t[n - 1] * Weight(n - 1);
    }
  }

  lemma {:induction false} PrefixBound(t: seq<Word>, n: nat)
    requires n <= |t| <= 8 && n < 8
    ensures 0 <= Prefix(t, n) < Weight(n)
  {
    hide Prefix, Weight;
    PrefixNonnegative(t, n);
    PrefixNext(t, n);
    if n > 0 {
      PrefixBound(t, n - 1);
      WeightStep(n - 1);
      LimbBelow(Prefix(t, n - 1), t[n - 1], Weight(n - 1));
    }
  }

  lemma PrefixNext(t: seq<Word>, n: nat)
    requires n <= |t| <= 8
    ensures Prefix(t, n) == if n == 0 then 0 else Prefix(t, n - 1) + t[n - 1] * Weight(n - 1)
    ensures Weight(0) == 1
  {
  }

  lemma LimbBelow(p: int, x: Word, w: int)
    requires 0 <= p < w
    ensures p + x * w < w * B64
  {
    assert x * w <= (B64 - 1) * w;
  }

  /** A number has one representation in n limbs. */
  lemma {:induction false} SameLimbs(t: seq<Word>, u: seq<Word>, n: nat)
    requires n <= |t| <= 8 && n <= |u| <= 8 && Prefix(t, n) == Prefix(u, n)
    ensures t[..n] == u[..n]
  {
    hide Prefix, Weight;
    if n > 0 {
      PrefixNext(t, n); PrefixNext(u, n);
      PrefixBound(t, n - 1); PrefixBound(u, n - 1);
      QuotientUnique(Weight(n - 1), t[n - 1], Prefix(t, n - 1), u[n - 1], Prefix(u, n - 1));
      SameLimbs(t, u, n - 1);
      assert t[..n] == t[..n - 1] + [t[n - 1]] && u[..n] == u[..n - 1] + [u[n - 1]];
    }
  }

  /** t is the one sequence of eight limbs with value v. */
  ghost predicate LimbsOf(t: seq<Word>, v: int) {
    |t| == 8 && Prefix(t, 8) == v && forall u: seq<Word> :: |u| == 8 && Prefix(u, 8) == v ==> u == t
  }

  lemma LimbsAreUnique(t: seq<Word>)
    requires |t| == 8
    ensures LimbsOf(t, Prefix(t, 8))
  {
    hide Prefix;
    forall u: seq<Word> | |u| == 8 && Prefix(u, 8) == Prefix(t, 8)
      ensures u == t
    {
      SameLimbs(u, t, 8);
      assert u[..8] == u && t[..8] == t;
    }
  }

  /** Stores the low word of the accumulator as limb k; the other two words move down. */
  lemma StoreColumn(t: seq<Word>, u: seq<Word>, a: seq<Word>, b: seq<Word>, k: nat, c0: Word, c1: Word, c2: Word,
                    acc: int)
    requires |t| == |u| == 8 && |a| == 4 && |b| == 4 && k < 7 && u == t[k := c0]
    requires Acc3(c0, c1, c2) == acc + ColSum(a, b, k, ColHigh(k) + 1)
    requires Stored(t, a, b, k, acc)
    ensures Stored(u, a, b, k + 1, Acc3(c1, c2, 0))
  {
    hide Prefix, Columns, ColSum;
    PrefixStore(t, u, k);
    WeightStep(k);
    NextColumn(a, b, k);
    ColumnDone(Prefix(t, k), c0, c1, c2, acc, ColSum(a, b, k, ColHigh(k) + 1), Weight(k), Weight(k + 1));
  }

  /** The eight product limbs: exact for all inputs, with nothing left in the accumulator. */
  method MulLimbs(t: array<Word>, a: array<Word>, b: array<Word>, backend: Backend := OpenCl)
    requires t.Length == 8 && a.Length == 4 && b.Length == 4
    modifies t
    ensures Val8(t) == old(Val(a)) * old(Val(b)) && LimbsOf(t[..], old(Val(a)) * old(Val(b)))
  {
    hide Val4, Product, Columns, Prefix, Weight, ColSum, Acc3, Stored, LimbsOf;
    ghost var sa, sb := a[..], b[..];
    var c0: Word, c1: Word, c2: Word := 0, 0, 0;
    FirstColumn(t[..], sa, sb);
    for col := 0 to 7
      invariant a[..] == sa && b[..] == sb
      invariant c1 <= 4 && c2 == 0
      invariant Stored(t[..], sa, sb, col, Acc3(c0, c1, 0))
    {
      ghost var before, acc := t[..], Acc3(c0, c1, 0);
      c0, c1, c2 := AddColumn(a, b, col, c0, c1, backend);
      t[col] := c0;
      StoreColumn(before, t[..], sa, sb, col, c0, c1, c2, acc);
      c0, c1, c2 := c1, c2, 0;
    }
    ghost var before := t[..];
    ColumnsAreProduct(sa, sb);
    t[7] := c0;
    LastLimb(before, t[..], sa, sb, c0, c1);
    LimbsAreUnique(t[..]);
  }

  lemma FirstColumn(t: seq<Word>, a: seq<Word>, b: seq<Word>)
    requires |t| == 8 && |a| == 4 && |b| == 4
    ensures Stored(t, a, b, 0, Acc3(0, 0, 0))
  {
  }

  /** After the seven columns the low word is the last limb and the high words are zero. */
  lemma LastLimb(t: seq<Word>, u: seq<Word>, a: seq<Word>, b: seq<Word>, c0: Word, c1: Word)
    requires |t| == |u| == 8 && |a| == 4 && |b| == 4 && u == t[7 := c0]
    requires Stored(t, a, b, 7, Acc3(c0, c1, 0)) && 0 <= Columns(a, b, 7) < B256 * B256
    ensures c1 == 0 && Prefix(u, 8) == Columns(a, b, 7)
  {
    hide Columns, Prefix;
    PrefixNonnegative(t, 7);
    PrefixStore(t, u, 7);
  }

  lemma NextColumn(a: seq<Word>, b: seq<Word>, col: nat)
    requires |a| == 4 && |b| == 4 && col < 7
    ensures Columns(a, b, col + 1) == Columns(a, b, col) + ColSum(a, b, col, ColHigh(col) + 1) * Weight(col)
  {
  }

  /** a * b mod p, canonical for every pair of 256-bit inputs, r aliased or not. */
  method FeMul(r: array<Word>, a: array<Word>, b: array<Word>, backend: Backend := OpenCl)
    requires r.Length == 4 && a.Length == 4 && b.Length == 4
    modifies r
    ensures Val(r) == FMul(old(Val(a)), old(Val(b))) && InRange(Val(r))
  {
    hide Val, Val8;
    var t := new Word[8];
    MulLimbs(t, a, b, backend);
    ghost var folds, rounds := FeReduce(r, t, backend);
  }

  // ---- dedicated squaring ----

  /** The products of column k of a square: off-diagonal ones twice, the diagonal once. */
  ghost function SquareColumn(a: seq<Word>, k: int): int
    requires |a| == 4
  {
    if k == 0 then Product(a[0], a[0])
    else if k == 1 then 2 * Product(a[0], a[1])
    else if k == 2 then 2 * Product(a[0], a[2]) + Product(a[1], a[1])
    else if k == 3 then 2 * Product(a[0], a[3]) + 2 * Product(a[1], a[2])
    else if k == 4 then 2 * Product(a[1], a[3]) + Product(a[2], a[2])
    else if k == 5 then 2 * Product(a[2], a[3])
    else Product(a[3], a[3])
  }

  lemma SquareColumnIsColumn(a: seq<Word>, k: nat)
    requires |a| == 4 && k <= 6
    ensures SquareColumn(a, k) == ColSum(a, a, k, ColHigh(k) + 1)
  {
    ColSumEmpty(a, a, k);
    var i := ColLow(k);
    ColSumNext(a, a, k, i);
    if i + 1 <= ColHigh(k) { ColSumNext(a, a, k, i + 1); }
    if i + 2 <= ColHigh(k) { ColSumNext(a, a, k, i + 2); }
    if i + 3 <= ColHigh(k) { ColSumNext(a, a, k, i + 3); }
  }

  /** Every column of the square, off-diagonal products added twice, equals the Comba column of
      a times itself, so the eight limbs are those of the generic multiplication. */
  method SqrLimbs(t: array<Word>, a: array<Word>, backend: Backend := OpenCl)
    requires t.Length == 8 && a.Length == 4
    modifies t
    ensures Val8(t) == old(Val(a)) * old(Val(a)) && LimbsOf(t[..], old(Val(a)) * old(Val(a)))
  {
    hide Val4, Product, MulLo, Columns, Prefix, Weight, ColSum, Acc3, Stored, LimbsOf;
    ghost var sa := a[..];
    var c0: Word, c1: Word, c2: Word := 0, 0, 0;
    var hi, lo;
    ghost var u, acc := t[..], Acc3(0, 0, 0);
    FirstColumn(u, sa, sa);

    lo := MulLo(a[0], a[0]); hi := HighHalf(backend, a[0], a[0]);
    c0, c1, c2 := Accumulate(c0, c1, c2, hi, lo);
    t[0] := c0;
    SquareColumnIsColumn(sa, 0); StoreColumn(u, t[..], sa, sa, 0, c0, c1, c2, acc);
    c0, c1, c2 := c1, c2, 0; u, acc := t[..], Acc3(c0, c1, 0);

    lo := MulLo(a[0], a[1]); hi := HighHalf(backend, a[0], a[1]);
    c0, c1, c2 := Accumulate(c0, c1, c2, hi, lo);
    c0, c1, c2 := Accumulate(c0, c1, c2, hi, lo);
    t[1] := c0;
    SquareColumnIsColumn(sa, 1); StoreColumn(u, t[..], sa, sa, 1, c0, c1, c2, acc);
    c0, c1, c2 := c1, c2, 0; u, acc := t[..], Acc3(c0, c1, 0);

    lo := MulLo(a[0], a[2]); hi := HighHalf(backend, a[0], a[2]);
    c0, c1, c2 := Accumulate(c0, c1, c2, hi, lo);
    c0, c1, c2 := Accumulate(c0, c1, c2, hi, lo);
    lo := MulLo(a[1], a[1]); hi := HighHalf(backend, a[1], a[1]);
    c0, c1, c2 := Accumulate(c0, c1, c2, hi, lo);
    t[2] := c0;
    SquareColumnIsColumn(sa, 2); StoreColumn(u, t[..], sa, sa, 2, c0, c1, c2, acc);
    c0, c1, c2 := c1, c2, 0; u, acc := t[..], Acc3(c0, c1, 0);

    lo := MulLo(a[0], a[3]); hi := HighHalf(backend, a[0], a[3]);
    c0, c1, c2 := Accumulate(c0, c1, c2, hi, lo);
    c0, c1, c2 := Accumulate(c0, c1, c2, hi, lo);
    lo := MulLo(a[1], a[2]); hi := HighHalf(backend, a[1], a[2]);
    c0, c1, c2 := Accumulate(c0, c1, c2, hi, lo);
    c0, c1, c2 := Accumulate(c0, c1, c2, hi, lo);
    t[3] := c0;
    SquareColumnIsColumn(sa, 3); StoreColumn(u, t[..], sa, sa, 3, c0, c1, c2, acc);
    c0, c1, c2 := c1, c2, 0; u, acc := t[..], Acc3(c0, c1, 0);

    lo := MulLo(a[1], a[3]); hi := HighHalf(backend, a[1], a[3]);
    c0, c1, c2 := Accumulate(c0, c1, c2, hi, lo);
    c0, c1, c2 := Accumulate(c0, c1, c2, hi, lo);
    lo := MulLo(a[2], a[2]); hi := HighHalf(backend, a[2], a[2]);
    c0, c1, c2 := Accumulate(c0, c1, c2, hi, lo);
    t[4] := c0;
    SquareColumnIsColumn(sa, 4); StoreColumn(u, t[..], sa, sa, 4, c0, c1, c2, acc);
    c0, c1, c2 := c1, c2, 0; u, acc := t[..], Acc3(c0, c1, 0);

    lo := MulLo(a[2], a[3]); hi := HighHalf(backend, a[2], a[3]);
    c0, c1, c2 := Accumulate(c0, c1, c2, hi, lo);
    c0, c1, c2 := Accumulate(c0, c1, c2, hi, lo);
    t[5] := c0;
    SquareColumnIsColumn(sa, 5); StoreColumn(u, t[..], sa, sa, 5, c0, c1, c2, acc);
    c0, c1, c2 := c1, c2, 0; u, acc := t[..], Acc3(c0, c1, 0);

    lo := MulLo(a[3], a[3]); hi := HighHalf(backend, a[3], a[3]);
    c0, c1, c2 := Accumulate(c0, c1, c2, hi, lo);
    t[6] := c0;
    SquareColumnIsColumn(sa, 6); StoreColumn(u, t[..], sa, sa, 6, c0, c1, c2, acc);
    u := t[..];
    ColumnsAreProduct(sa, sa);
    c0 := c1;
    t[7] := c0;
    LastLimb(u, t[..], sa, sa, c0, c2);
    LimbsAreUnique(t[..]);
  }

  /** The squaring and the generic multiplication fill the same eight limbs, on every build. */
  method SquareBothWays(a: array<Word>, backend: Backend) returns (t: array<Word>, u: array<Word>)
    requires a.Length == 4
    ensures t.Length == 8 && u.Length == 8 && t[..] == u[..] && Val8(t) == Val(a) * Val(a)
  {
    hide Val, Val8, Prefix;
    t, u := new Word[8], new Word[8];
    SqrLimbs(t, a, backend);
    ghost var v := t[..];
    MulLimbs(u, a, a, backend);
    assert t[..] == v;
  }

  /** a^2 mod p. */
  method FeSqr(r: array<Word>, a: array<Word>, backend: Backend := OpenCl)
    requires r.Length == 4 && a.Length == 4
    modifies r
    ensures Val(r) == FMul(old(Val(a)), old(Val(a))) && InRange(Val(r))
  {
    hide Val, Val8;
    var t := new Word[8];
    SqrLimbs(t, a, backend);
    ghost var folds, rounds := FeReduce(r, t, backend);
  }
}

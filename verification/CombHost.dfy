/** The host's comb table and its two ways to a candidate's public key. The curve library is
    foreign code; it appears as the group law on coordinate pairs, with (0, 0) for infinity. */
module CombHost {
  import opened NumberTheory
  import opened Words
  import opened Field
  import opened Curve
  import opened Group
  import opened Order
  import opened Wire
  import opened Comb

  /** A pair of coordinates, or Go's nil. */
  datatype Coords = Nil | Xy(x: int, y: int)

  function ToPoint(c: Coords): Point {
    if c.Nil? || (c.x == 0 && c.y == 0) then Infinity else Affine(c.x, c.y)
  }

  function FromPoint(A: Point): Coords {
    if A.Infinity? then Xy(0, 0) else Xy(A.x, A.y)
  }

  function CurveAdd(a: Coords, b: Coords): Coords { FromPoint(Add(ToPoint(a), ToPoint(b))) }

  function ScalarMult(a: Coords, k: nat): Coords { FromPoint(Times(k, ToPoint(a))) }

  lemma OriginIsOff()
    ensures !OnCurve(Affine(0, 0))
  {
    PrimeValue();
    assert 0 * 0 == 0;
    assert !Cong(0, 7, P);
  }

  lemma PrimeBelow256()
    ensures P < B256
  {
    PrimeValue();
  }

  /** (0, 0) is not on the curve, so pairs and points correspond. */
  lemma PairOf(A: Point)
    requires OnCurve(A)
    ensures ToPoint(FromPoint(A)) == A
    ensures A.Affine? ==> 0 <= A.x < B256 && 0 <= A.y < B256
  {
    hide OnCurve;
    if A.Affine? { CurveInRange(A); }
    OriginIsOff();
    PrimeBelow256();
  }

  // ---- building the table ----

  ghost predicate ZerosAt(t: seq<Byte>, at: nat)
    requires at + 64 <= |t|
  {
    forall i :: at <= i < at + 64 ==> t[i] == 0
  }

  /** Entry number e = 256 w + b of the table: zeros for digit 0, else (b * 256^w) * D. */
  ghost predicate EntryDone(t: seq<Byte>, D: Point, e: nat)
    requires |t| == TABLE_BYTES && e < 2048
  {
    if e % 256 == 0 then ZerosAt(t, 64 * e) else PointAt(t, 64 * e) == Times(Contribution(e / 256, e % 256), D)
  }

  /** The first n entries are done and the rest of the table is still zero. */
  ghost predicate Filled(t: seq<Byte>, D: Point, n: nat) {
    && |t| == TABLE_BYTES && n <= 2048
    && (forall e :: 0 <= e < n ==> EntryDone(t, D, e))
    && forall i :: 64 * n <= i < TABLE_BYTES ==> t[i] == 0
  }

  lemma EntryKept(t: seq<Byte>, u: seq<Byte>, D: Point, e: nat)
    requires |t| == |u| == TABLE_BYTES && e < 2048 && EntryDone(t, D, e)
    requires forall i :: 64 * e <= i < 64 * e + 64 ==> t[i] == u[i]
    ensures EntryDone(u, D, e)
  {
    hide Times, Number, Contribution;
    assert t[64 * e..64 * e + 32] == u[64 * e..64 * e + 32];
    assert t[64 * e + 32..64 * e + 64] == u[64 * e + 32..64 * e + 64];
  }

  lemma FillOne(t: seq<Byte>, u: seq<Byte>, D: Point, n: nat)
    requires Filled(t, D, n) && n < 2048 && |u| == TABLE_BYTES && EntryDone(u, D, n)
    requires forall i :: 0 <= i < TABLE_BYTES && !(64 * n <= i < 64 * n + 64) ==> u[i] == t[i]
    ensures Filled(u, D, n + 1)
  {
    hide EntryDone;
    forall e | 0 <= e < n
      ensures EntryDone(u, D, e)
    {
      EntryKept(t, u, D, e);
    }
  }

  lemma FillZero(t: seq<Byte>, D: Point, n: nat)
    requires Filled(t, D, n) && n < 2048 && n % 256 == 0
    ensures Filled(t, D, n + 1)
  {
    hide Times, PointAt, Contribution;
    assert EntryDone(t, D, n);
    FillOne(t, t, D, n);
  }

  lemma FilledIsComb(t: seq<Byte>, D: Point)
    requires Filled(t, D, 2048)
    ensures CombTable(t, D)
  {
    hide Times, PointAt, Contribution;
    forall w, b | 0 <= w < 8 && 1 <= b < 256
      ensures CombEntry(t, D, w, b)
    {
      var e := w * 256 + b;
      assert e / 256 == w && e % 256 == b;
      assert EntryDone(t, D, e);
    }
  }

  /** Writes one entry: both coordinates, and nothing else. */
  method WriteEntry(table: array<Byte>, off: nat, c: Coords)
    requires off + 64 <= table.Length && c.Xy? && 0 <= c.x < B256 && 0 <= c.y < B256
    modifies table
    ensures PointAt(table[..], off) == Affine(c.x, c.y)
    ensures forall i :: 0 <= i < table.Length && !(off <= i < off + 64) ==> table[i] == old(table[i])
  {
    hide Number, Bytes;
    PutFE(table, off, c.x);
    ghost var first := table[off..off + 32];
    PutFE(table, off + 32, c.y);
    assert table[off..off + 32] == first;
    assert table[..][off..off + 32] == table[off..off + 32];
    assert table[..][off + 32..off + 64] == table[off + 32..off + 64];
  }

  /** b * ((256^w) D) + (256^w) D is the next entry of the window. */
  lemma NextEntry(w: nat, b: nat, D: Point)
    requires Secp256k1() && OnCurve(D) && D.Affine? && w < 8 && b < 255
    ensures var B := Times(Pow256(w), D);
      && OnCurve(B) && OnCurve(Times(b, B)) && Times(1, B) == B
      && Add(Times(b, B), B) == Times(b + 1, B) == Times(Contribution(w, b + 1), D)
      && Times(b + 1, B).Affine? && OnCurve(Times(b + 1, B))
  {
    hide OnCurve, Add, Associative, KilledBy, Prime;
    var B := Times(Pow256(w), D);
    TimesCloses(Pow256(w), D);
    TimesCloses(b, B);
    TimesTimes(b + 1, Pow256(w), D);
    ContributionBound(w, b + 1);
    SmallMultiple(Contribution(w, b + 1), D);
    TimesOne(B);
  }

  /** One window: entries b = 1 to 255 by repeated addition of (256^w) D. */
  method FillWindow(table: array<Byte>, w: nat, ghost D: Point, bxy: Coords)
    requires Secp256k1() && OnCurve(D) && D.Affine? && w < 8
    requires bxy == FromPoint(Times(Pow256(w), D)) && Filled(table[..], D, 256 * w + 1)
    modifies table
    ensures Filled(table[..], D, 256 * w + 256)
  {
    hide OnCurve, Add, Times, Associative, KilledBy, Prime, Filled, PointAt, Contribution, Pow256;
    ghost var B := Times(Pow256(w), D);
    var acc := Nil;
    FilledLength(table[..], D, 256 * w + 1);
    TimesZero(B);
    NextEntry(w, 0, D);
    PairOf(B);
    for b := 1 to 256
      invariant table.Length == TABLE_BYTES && Filled(table[..], D, 256 * w + b)
      invariant acc.Nil? <==> b == 1
      invariant acc.Xy? ==> acc == FromPoint(Times(b - 1, B))
    {
      ghost var t := table[..];
      NextEntry(w, b - 1, D);
      PairOf(Times(b - 1, B));
      PairOf(Times(b, B));
      if acc.Nil? {
        acc := bxy;
      } else {
        acc := CurveAdd(acc, bxy);
      }
      var off := (w * 256 + b) * 64;
      WriteEntry(table, off, acc);
      assert EntryDone(table[..], D, 256 * w + b);
      FillOne(t, table[..], D, 256 * w + b);
    }
  }

  lemma FilledLength(t: seq<Byte>, D: Point, n: nat)
    requires Filled(t, D, n)
    ensures |t| == TABLE_BYTES
  {
  }

  /** The comb table of D: table[w][b] = (b * 256^w) D, and zeros for digit 0. */
  method BuildDTable(dxy: Coords, ghost D: Point) returns (table: array<Byte>)
    requires Secp256k1() && OnCurve(D) && D.Affine? && dxy == FromPoint(D)
    ensures fresh(table) && CombTable(table[..], D)
    ensures forall i :: 0 <= i < table.Length && i % 16384 < 64 ==> table[i] == 0
  {
    hide OnCurve, Add, Times, Associative, KilledBy, Prime, Filled, PointAt, Contribution, Pow256;
    table := new Byte[TABLE_BYTES](_ => 0);
    PairOf(D);
    NothingFilled(table[..], D);
    for w := 0 to 8
      invariant Filled(table[..], D, 256 * w)
    {
      var bxy := ScalarMult(dxy, Pow256(w));
      FillZero(table[..], D, 256 * w);
      FillWindow(table, w, D, bxy);
    }
    FilledIsComb(table[..], D);
    ZeroRows(table[..], D);
  }

  lemma NothingFilled(t: seq<Byte>, D: Point)
    requires |t| == TABLE_BYTES && forall i :: 0 <= i < |t| ==> t[i] == 0
    ensures Filled(t, D, 0)
  {
  }

  /** Where the entry of digit b in window w lies in the bytes, and what it holds. */
  lemma EntryIs(t: seq<Byte>, D: Point, w: nat, b: nat)
    requires CombTable(t, D) && w < 8 && 1 <= b < 256
    ensures var at := 16384 * w + 64 * b;
      at + 64 <= |t|
      && Affine(Number(t[at..at + 32]), Number(t[at + 32..at + 64])) == Times(b * Pow2(8 * w), D)
  {
    hide Times, Number, Pow2, Pow256;
    Pow256IsPow2(w);
    assert CombEntry(t, D, w, b);
  }

  /** The first entry of every window, 16384 bytes apart, is 64 zeros. */
  lemma ZeroRows(t: seq<Byte>, D: Point)
    requires Filled(t, D, 2048)
    ensures |t| == TABLE_BYTES && forall i :: 0 <= i < TABLE_BYTES && i % 16384 < 64 ==> t[i] == 0
  {
    hide Times, PointAt, Contribution;
    forall i | 0 <= i < TABLE_BYTES && i % 16384 < 64
      ensures t[i] == 0
    {
      assert EntryDone(t, D, 256 * (i / 16384));
    }
  }

  // ---- public keys on the host ----

  /** The key of candidate k: Q_base + k D. */
  function PubForK(qxy: Coords, dxy: Coords, k: Word): Coords {
    if k == 0 then qxy else CurveAdd(qxy, ScalarMult(dxy, k))
  }

  lemma PubForKIs(Q: Point, D: Point, k: Word)
    requires Secp256k1() && OnCurve(Q) && OnCurve(D)
    ensures PubForK(FromPoint(Q), FromPoint(D), k) == FromPoint(Add(Q, Times(k, D)))
  {
    hide OnCurve, Add, Times, Associative, KilledBy, Prime;
    PairOf(Q); PairOf(D);
    TimesCloses(k, D);
    PairOf(Times(k, D));
    TimesZero(D);
    AddInfinity(Q);
  }

  /** The same key from the table, as the kernel sums it. */
  method PubForKViaTable(table: array<Byte>, qxy: Coords, k: Word, ghost Q: Point, ghost D: Point) returns (c: Coords)
    requires Secp256k1() && OnCurve(Q) && OnCurve(D) && D.Affine?
    requires CombTable(table[..], D) && qxy == FromPoint(Q)
    ensures c == PubForK(FromPoint(Q), FromPoint(D), k)
  {
    hide OnCurve, Add, Times, Associative, KilledBy, Prime, CombTable, Contribution, Below, Number;
    var acc := Nil;
    BelowEnds(k);
    TimesZero(D);
    PairOf(Q);
    for w := 0 to 8
      invariant acc.Nil? ==> Below(k, w) == 0
      invariant ToPoint(acc) == Times(Below(k, w), D)
    {
      var b := WindowDigit(k, w);
      WindowStep(k, w, D);
      if b != 0 {
        acc := AddEntryOnHost(table, w, b, acc, D, Below(k, w));
        TimesCloses(Below(k, w + 1), D);
        PairOf(Times(Below(k, w + 1), D));
      }
    }
    PubForKIs(Q, D, k);
    if acc.Nil? { AddInfinity(Q); return qxy; }
    c := CurveAdd(qxy, acc);
  }

  method AddEntryOnHost(table: array<Byte>, w: nat, b: nat, acc: Coords, ghost D: Point, ghost k: nat)
    returns (r: Coords)
    requires Secp256k1() && OnCurve(D) && D.Affine? && CombTable(table[..], D) && w < 8 && 1 <= b < 256
    requires ToPoint(acc) == Times(k, D)
    ensures r == FromPoint(Add(Times(k, D), Times(Contribution(w, b), D)))
  {
    hide OnCurve, Add, Times, Associative, KilledBy, Prime, CombTable, Contribution, Number;
    ghost var t := table[..];
    TableEntry(t, D, w, b);
    var off := EntryAt(w, b);
    var ex := FeFromBytes(table, off);
    var ey := FeFromBytes(table, off + 32);
    assert t[off..off + 32] == table[off..off + 32] && t[off + 32..off + 64] == table[off + 32..off + 64];
    PairOf(PointAt(t, off));
    AddInfinity(PointAt(t, off));
    r := if acc.Nil? then Xy(ex, ey) else CurveAdd(acc, Xy(ex, ey));
  }
}

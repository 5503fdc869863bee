/** The comb table for 64-bit multiples of D: built on the host, summed on the host and in the kernel. */
module Comb {
  import opened NumberTheory
  import opened Words
  import opened Field
  import opened Curve
  import opened Group
  import opened Order
  import opened Jacobian
  import opened Wire

  const WINDOWS: nat := 8
  const TABLE_BYTES: nat := 131072

  /** The two coordinates stored in 64 bytes from `at`. */
  function PointAt(t: seq<Byte>, at: nat): Point
    requires at + 64 <= |t|
  {
    Affine(Number(t[at..at + 32]), Number(t[at + 32..at + 64]))
  }

  function EntryAt(w: nat, b: nat): nat { (w * 256 + b) * 64 }

  /** The scalar that digit b contributes in window w. */
  function Contribution(w: nat, b: nat): (s: nat) { b * Pow256(w) }

  lemma ContributionBound(w: nat, b: nat)
    requires w < 8 && 1 <= b < 256
    ensures 0 < Contribution(w, b) < B64
  {
    Pow256Monotone(w + 1, 8);
    Pow256Is();
    MulPositive(b, Pow256(w));
    MulMonotone(b, 255, Pow256(w));
  }

  /** table[w][b] is (b * 256^w) * D for every nonzero digit. */
  ghost predicate CombTable(t: seq<Byte>, D: Point) {
    |t| == TABLE_BYTES && forall w, b :: 0 <= w < 8 && 1 <= b < 256 ==> CombEntry(t, D, w, b)
  }

  ghost predicate CombEntry(t: seq<Byte>, D: Point, w: nat, b: nat)
    requires |t| == TABLE_BYTES && w < 8 && b < 256
  {
    PointAt(t, EntryAt(w, b)) == Times(Contribution(w, b), D)
  }

  /** Digit w of a 64-bit scalar: (k >> (8 * w)) & 0xff. */
  function WindowDigit(k: Word, w: nat): Byte
    requires w < 8
  {
    Digit(k, w)
  }

  /** The part of k below window w. */
  ghost function Below(k: Word, w: nat): nat { k % Pow256(w) }

  lemma BelowStep(k: Word, w: nat)
    requires w < 8
    ensures Below(k, w + 1) == Below(k, w) + Contribution(w, WindowDigit(k, w))
  {
    var m := Pow256(w);
    var q, d := k / m, (k / m) % 256;
    ModSplit(k, m); ModSplit(q, 256);
    var h := q / 256;
    assert k == h * (256 * m) + (d * m + k % m) by {
      assert (h * 256 + d) * m == h * (256 * m) + d * m;
    }
    MulMonotone(d, 255, m);
    assert 0 <= d * m;
    ModUnique(k, 256 * m, h, d * m + k % m);
  }

  lemma BelowEnds(k: Word)
    ensures Below(k, 0) == 0 && Below(k, 8) == k
  {
    Pow256Is();
    assert Pow256(0) == 1;
    ModUnique(k, B64, 0, k);
    ModUnique(k, 1, k, 0);
  }

  /** One window of the sum: the accumulated multiple of D grows by the digit's contribution. */
  lemma WindowStep(k: Word, w: nat, D: Point)
    requires Secp256k1() && OnCurve(D) && w < 8
    ensures Add(Times(Below(k, w), D), Times(Contribution(w, WindowDigit(k, w)), D)) == Times(Below(k, w + 1), D)
    ensures WindowDigit(k, w) == 0 ==> Below(k, w + 1) == Below(k, w)
    ensures OnCurve(Times(Below(k, w), D))
  {
    hide Times, OnCurve, Add, Associative, KilledBy, Prime, Below, WindowDigit;
    BelowStep(k, w);
    TimesAdd(Below(k, w), Contribution(w, WindowDigit(k, w)), D);
    TimesCloses(Below(k, w), D);
    ZeroContribution(w);
  }

  lemma ZeroContribution(w: nat)
    ensures Contribution(w, 0) == 0
  {
  }

  lemma TableEntry(t: seq<Byte>, D: Point, w: nat, b: nat)
    requires Secp256k1() && OnCurve(D) && D.Affine? && CombTable(t, D) && w < 8 && 1 <= b < 256
    ensures EntryAt(w, b) + 64 <= |t| && PointAt(t, EntryAt(w, b)) == Times(Contribution(w, b), D)
    ensures OnCurve(PointAt(t, EntryAt(w, b)))
  {
    hide Times, OnCurve, Associative, KilledBy, Prime, PointAt, Contribution;
    assert CombEntry(t, D, w, b);
    ContributionBound(w, b);
    SmallMultiple(Contribution(w, b), D);
  }

  // ---- the kernel's sum ----

  method CopyBytes(src: array<Byte>, at: nat, buf: array<Byte>, n: nat)
    requires at + n <= src.Length && n <= buf.Length && src != buf
    modifies buf
    ensures buf[..n] == src[at..at + n]
  {
    for i := 0 to n
      invariant forall k :: 0 <= k < i ==> buf[k] == src[at + k]
    {
      buf[i] := src[at + i];
    }
  }

  lemma SameHalves(buf: seq<Byte>, src: seq<Byte>, at: nat)
    requires |buf| == 64 && at + 64 <= |src| && buf == src[at..at + 64]
    ensures buf[0..32] == src[at..at + 32] && buf[32..64] == src[at + 32..at + 64]
  {
  }

  /** Loads the two coordinates at `at`. */
  method LoadPoint(src: array<Byte>, at: nat, x: array<Word>, y: array<Word>)
    requires at + 64 <= src.Length && x.Length == 4 && y.Length == 4 && x != y
    modifies x, y
    ensures Affine(Val(x), Val(y)) == PointAt(src[..], at)
  {
    hide Number, Val;
    var buf := new Byte[64](_ => 0);
    CopyBytes(src, at, buf, 64);
    assert buf[..] == buf[..64] && src[at..at + 64] == src[..][at..at + 64];
    FeFromLe32(buf, 0, x);
    FeFromLe32(buf, 32, y);
    SameHalves(buf[..], src[..], at);
    assert buf[0..32] == buf[..][0..32] && buf[32..64] == buf[..][32..64];
  }

  /** out := Q_base + k D, for every 64-bit k: one mixed addition per nonzero byte of k, then Q_base. */
  method NickAccForK(table: array<Byte>, q: array<Byte>, k: Word, out: Jac, ghost D: Point)
    requires Secp256k1() && OnCurve(D) && D.Affine? && CombTable(table[..], D)
    requires q.Length == 64 && OnCurve(PointAt(q[..], 0)) && out.Valid()
    modifies out.X, out.Y, out.Z
    ensures out.Canonical() && out.Pt() == Add(PointAt(q[..], 0), Times(k, D))
  {
    hide Times, OnCurve, Add, Associative, KilledBy, Prime, Val, InRange, PointAt, CombTable, JacPoint, Below,
         Contribution;
    ghost var t, Q := table[..], PointAt(q[..], 0);
    var acc := new Jac();
    BelowEnds(k);
    TimesZero(D);
    JacSetInf(acc);
    for w := 0 to 8
      invariant acc.Valid() && fresh(acc.X) && fresh(acc.Y) && fresh(acc.Z)
      invariant acc.Canonical() && acc.Pt() == Times(Below(k, w), D)
    {
      var b := WindowDigit(k, w);
      WindowStep(k, w, D);
      if b != 0 {
        AddEntry(table, w, b, acc, D);
      }
    }
    var qbx, qby := new Word[4], new Word[4];
    LoadPoint(q, 0, qbx, qby);
    TimesCloses(k, D);
    PointAddMixed(acc, acc, qbx, qby);
    Commutes(Times(k, D), Q);
    CopyJac(out, acc);
  }

  /** acc := acc + table[w][b]. */
  method AddEntry(table: array<Byte>, w: nat, b: nat, acc: Jac, ghost D: Point)
    requires Secp256k1() && OnCurve(D) && D.Affine? && CombTable(table[..], D)
    requires w < 8 && 1 <= b < 256 && acc.Valid() && acc.Canonical() && OnCurve(acc.Pt())
    modifies acc.X, acc.Y, acc.Z
    ensures acc.Canonical() && acc.Pt() == Add(old(acc.Pt()), Times(Contribution(w, b), D))
  {
    hide Times, OnCurve, Add, Associative, KilledBy, Prime, Val, InRange, PointAt, CombTable, JacPoint, Contribution;
    TableEntry(table[..], D, w, b);
    var tx, ty := new Word[4], new Word[4];
    LoadPoint(table, EntryAt(w, b), tx, ty);
    PointAddMixed(acc, acc, tx, ty);
  }

  method CopyJac(out: Jac, p: Jac)
    requires out.Valid() && p.Valid() && {out.X, out.Y, out.Z} !! {p.X, p.Y, p.Z} && p.Canonical()
    modifies out.X, out.Y, out.Z
    ensures out.Canonical() && out.Pt() == old(p.Pt())
  {
    hide Val, JacPoint, InRange;
    FeCopy(out.X, p.X); FeCopy(out.Y, p.Y); FeCopy(out.Z, p.Z);
  }
}

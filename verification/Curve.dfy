/** The affine group law of secp256k1, y^2 = x^3 + 7 over the integers modulo p, as SEC 1
    version 2, section 2.2.1 states it, together with the facts the search rests on. */
module Curve {
  import opened NumberTheory
  import opened Field

  datatype Point = Infinity | Affine(x: int, y: int)

  /** The inverse modulo p, by Fermat; 0 when a is 0 modulo p. */
  function Inverse(a: int): int {
    Pow(a, P - 2) % P
  }

  ghost predicate OnCurve(A: Point) {
    A.Infinity? || (InRange(A.x) && InRange(A.y) && Cong(A.y * A.y, A.x * A.x * A.x + 7, P))
  }

  predicate Opposite(A: Point, B: Point)
    requires A.Affine? && B.Affine?
  {
    A.x == B.x && (A.y + B.y) % P == 0
  }

  /** The slope of the chord, or of the tangent when the points have one x. */
  function Slope(A: Point, B: Point): int
    requires A.Affine? && B.Affine?
  {
    if A.x == B.x then (3 * (A.x * A.x) * Inverse(2 * A.y)) % P
    else ((B.y - A.y) * Inverse(B.x - A.x)) % P
  }

  function Mirror(l: int, A: Point, x3: int): Point
    requires A.Affine?
  {
    Affine(x3, (l * (A.x - x3) - A.y) % P)
  }

  function Add(A: Point, B: Point): Point {
    if A.Infinity? then B
    else if B.Infinity? then A
    else if Opposite(A, B) then Infinity
    else var l := Slope(A, B); Mirror(l, A, (l * l - A.x - B.x) % P)
  }

  function Neg(A: Point): Point {
    if A.Infinity? then A else Affine(A.x, (-A.y) % P)
  }

  // ---- residues ----

  lemma InField(a: int)
    ensures 0 <= a % P < P && Cong(a % P, a, P)
  {
    CongMod(a, P);
  }

  lemma SmallEqual(a: int, b: int)
    requires 0 <= a < P && 0 <= b < P && Cong(a, b, P)
    ensures a == b
  {
    ModUnique(a, P, 0, a);
    ModUnique(b, P, 0, b);
  }

  lemma SmallNonzero(a: int)
    requires 0 < a < P || 0 < -a < P
    ensures a % P != 0
  {
    if a > 0 { ModUnique(a, P, 0, a); } else { ModUnique(a, P, -1, a + P); }
  }

  lemma InverseProperty(a: int)
    requires Prime(P) && a % P != 0
    ensures Cong(a * Inverse(a), 1, P)
  {
    hide Pow, Prime, Cong;
    PowInverse(a, P);
    InField(Pow(a, P - 2));
    CongSame(a, P);
    CongMul(a, a, Inverse(a), Pow(a, P - 2), P);
    CongTrans(a * Inverse(a), a * Pow(a, P - 2), 1, P);
  }

  /** num / den times den is num. */
  lemma QuotientTimes(num: int, den: int)
    requires Prime(P) && den % P != 0
    ensures Cong(((num * Inverse(den)) % P) * den, num, P)
  {
    hide Cong, Inverse, Prime;
    var i := Inverse(den);
    InverseProperty(den);
    InField(num * i);
    CongScale((num * i) % P, num * i, den, P);
    CongSame(num, P);
    CongMul(num, num, den * i, 1, P);
    assert (num * i) * den == num * (den * i);
    CongTrans(((num * i) % P) * den, (num * i) * den, num * 1, P);
  }

  // ---- two points with one x ----

  /** On the curve, equal x means equal or opposite points. */
  lemma SameX(A: Point, B: Point)
    requires Prime(P) && A.Affine? && B.Affine? && OnCurve(A) && OnCurve(B) && A.x == B.x
    ensures A == B || Opposite(A, B)
  {
    hide Cong, Prime;
    CongSym(B.y * B.y, B.x * B.x * B.x + 7, P);
    CongTrans(A.y * A.y, A.x * A.x * A.x + 7, B.y * B.y, P);
    CongDiff(A.y * A.y, B.y * B.y, P);
    assert A.y * A.y - B.y * B.y == (A.y - B.y) * (A.y + B.y);
    Euclid(A.y - B.y, A.y + B.y, P);
    if (A.y - B.y) % P == 0 {
      CongDiff(A.y, B.y, P);
      SmallEqual(A.y, B.y);
    }
  }

  lemma CurveInRange(B: Point)
    requires B.Affine? && OnCurve(B)
    ensures InRange(B.x) && InRange(B.y)
  {
    hide Cong;
  }

  lemma ChordSlope(A: Point, B: Point)
    requires Prime(P) && A.Affine? && B.Affine? && OnCurve(A) && OnCurve(B) && A.x != B.x
    ensures Cong(Slope(A, B) * (B.x - A.x), B.y - A.y, P)
  {
    hide Cong, Inverse, Prime, OnCurve;
    CurveInRange(A); CurveInRange(B);
    SmallNonzero(B.x - A.x);
    QuotientTimes(B.y - A.y, B.x - A.x);
  }

  lemma TangentSlope(A: Point)
    requires Prime(P) && A.Affine? && (A.y + A.y) % P != 0
    ensures Cong(Slope(A, A) * (2 * A.y), 3 * (A.x * A.x), P)
  {
    hide Cong, Inverse, Prime;
    assert A.y + A.y == 2 * A.y;
    QuotientTimes(3 * (A.x * A.x), 2 * A.y);
  }

  // ---- closure ----

  /** The divided difference of the cubic along the line of slope l through (x1, y1). */
  ghost function Divided(l: int, x1: int, y1: int, x2: int): int {
    x2 * x2 + x2 * x1 + x1 * x1 - l * (l * (x2 - x1) + 2 * y1)
  }

  /** f(t) = f(x1) + (t - x1) g(t) for f(t) = t^3 + 7 - (y1 + l (t - x1))^2. */
  lemma AlongLine(l: int, x1: int, y1: int, t: int)
    ensures t * t * t + 7 - (y1 + l * (t - x1)) * (y1 + l * (t - x1))
         == x1 * x1 * x1 + 7 - y1 * y1 + (t - x1) * Divided(l, x1, y1, t)
  {
    var d, u := t - x1, l * (t - x1);
    assert (y1 + u) * (y1 + u) == y1 * y1 + u * (u + 2 * y1);
    assert u * (u + 2 * y1) == d * (l * (u + 2 * y1)) by {
      assert (l * d) * (u + 2 * y1) == d * (l * (u + 2 * y1));
    }
    assert t * t * t - x1 * x1 * x1 == d * (t * t + t * x1 + x1 * x1) by { CubeDifference(t, x1); }
    assert d * (t * t + t * x1 + x1 * x1) - d * (l * (u + 2 * y1)) == d * Divided(l, x1, y1, t);
  }

  lemma CubeDifference(t: int, x: int)
    ensures t * t * t - x * x * x == (t - x) * (t * t + t * x + x * x)
  {
    var a, b, c := t * t, t * x, x * x;
    assert (t - x) * (a + b + c) == t * a + t * b + t * c - x * a - x * b - x * c;
    assert t * b == x * a && t * c == x * b;
  }

  /** The third intersection has the same divided difference as the second. */
  lemma ThirdDivided(l: int, x1: int, y1: int, x2: int, t: int)
    requires t == l * l - x1 - x2
    ensures Divided(l, x1, y1, t) == Divided(l, x1, y1, x2)
  {
    var e := l * l;
    assert l * (l * (t - x1) + 2 * y1) == e * (t - x1) + 2 * (l * y1);
    assert l * (l * (x2 - x1) + 2 * y1) == e * (x2 - x1) + 2 * (l * y1);
    assert t * t + t * x1 - e * t == x2 * x2 + x2 * x1 - e * x2 by {
      assert (t - x2) * (t + x2 + x1 - e) == t * t + t * x1 - e * t - x2 * x2 - x2 * x1 + e * x2;
      assert t + x2 + x1 - e == 0;
    }
    assert e * (t - x1) == e * t - e * x1 && e * (x2 - x1) == e * x2 - e * x1;
  }

  /** The cubic minus the square of the line, at the third intersection. */
  lemma ThirdSquare(l: int, x1: int, y1: int, x2: int, t: int, s: int)
    requires t == l * l - x1 - x2 && s == l * (x1 - t) - y1
    ensures t * t * t + 7 - s * s == x1 * x1 * x1 + 7 - y1 * y1 + (t - x1) * Divided(l, x1, y1, x2)
  {
    hide Divided;
    AlongLine(l, x1, y1, t);
    ThirdDivided(l, x1, y1, x2, t);
    var r := y1 + l * (t - x1);
    assert l * (x1 - t) == -(l * (t - x1));
    assert s == -r && (-r) * (-r) == r * r;
  }

  lemma ThirdOnCurve(l: int, x1: int, y1: int, x2: int)
    requires Cong(y1 * y1, x1 * x1 * x1 + 7, P) && Cong(Divided(l, x1, y1, x2), 0, P)
    ensures var t := l * l - x1 - x2; var s := l * (x1 - t) - y1; Cong(s * s, t * t * t + 7, P)
  {
    hide Cong, Divided;
    var t := l * l - x1 - x2;
    var s := l * (x1 - t) - y1;
    var g := Divided(l, x1, y1, x2);
    ThirdSquare(l, x1, y1, x2, t, s);
    CongScale(g, 0, t - x1, P);
    assert g * (t - x1) == (t - x1) * g && 0 * (t - x1) == 0;
    var a, b, e, c := y1 * y1, x1 * x1 * x1 + 7, (t - x1) * g, s * s;
    CongSub(a, b, e, 0, P);
    CongSame(c - (a - e), P);
    CongAdd(a - e, b, c - (a - e), c - (a - e), P);
  }

  lemma ChordDivided(l: int, x1: int, y1: int, x2: int, y2: int)
    requires Prime(P) && (x2 - x1) % P != 0
    requires Cong(y1 * y1, x1 * x1 * x1 + 7, P) && Cong(y2 * y2, x2 * x2 * x2 + 7, P)
    requires Cong(l * (x2 - x1), y2 - y1, P)
    ensures Cong(Divided(l, x1, y1, x2), 0, P)
  {
    hide Cong, Divided, Prime;
    AlongLine(l, x1, y1, x2);
    var r := y1 + l * (x2 - x1);
    CongSame(y1, P);
    CongAdd(y1, y1, l * (x2 - x1), y2 - y1, P);
    CongMul(r, y2, r, y2, P);
    CongTrans(r * r, y2 * y2, x2 * x2 * x2 + 7, P);
    CongSym(r * r, x2 * x2 * x2 + 7, P);
    CongSub(x2 * x2 * x2 + 7, r * r, x1 * x1 * x1 + 7, y1 * y1, P) by { CongSym(y1 * y1, x1 * x1 * x1 + 7, P); }
    var g := Divided(l, x1, y1, x2);
    CongSame(y1 * y1 - r * r, P);
    CongAdd(x2 * x2 * x2 + 7 - (x1 * x1 * x1 + 7), r * r - y1 * y1, y1 * y1 - r * r, y1 * y1 - r * r, P);
    ZeroIffCong((x2 - x1) * g, P);
    Euclid(x2 - x1, g, P);
    ZeroIffCong(g, P);
  }

  lemma TangentDivided(l: int, x: int, y: int)
    requires Cong(l * (2 * y), 3 * (x * x), P)
    ensures Cong(Divided(l, x, y, x), 0, P)
  {
    hide Cong;
    CongSub(3 * (x * x), 3 * (x * x), l * (2 * y), 3 * (x * x), P) by { CongSame(3 * (x * x), P); }
    assert l * (l * (x - x) + 2 * y) == l * (2 * y);
  }

  lemma MirrorOnCurve(l: int, A: Point, x2: int)
    requires A.Affine? && OnCurve(A) && Cong(Divided(l, A.x, A.y, x2), 0, P)
    ensures OnCurve(Mirror(l, A, (l * l - A.x - x2) % P))
  {
    hide Cong, Divided;
    var t := l * l - A.x - x2;
    var x3 := t % P;
    var s, s3 := l * (A.x - t) - A.y, l * (A.x - x3) - A.y;
    ThirdOnCurve(l, A.x, A.y, x2);
    InField(t); InField(s3);
    CongSame(A.x, P); CongSame(A.y, P); CongSame(l, P);
    CongSub(A.x, A.x, x3, t, P);
    CongMul(l, l, A.x - x3, A.x - t, P);
    CongSub(l * (A.x - x3), l * (A.x - t), A.y, A.y, P);
    CongTrans(s3 % P, s3, s, P);
    CongMul(s3 % P, s, s3 % P, s, P);
    CongTrans((s3 % P) * (s3 % P), s * s, t * t * t + 7, P);
    CongMul(x3, t, x3, t, P);
    CongMul(x3 * x3, t * t, x3, t, P);
    CongAdd(x3 * x3 * x3, t * t * t, 7, 7, P) by { CongSame(7, P); }
    CongSym(x3 * x3 * x3 + 7, t * t * t + 7, P);
    CongTrans((s3 % P) * (s3 % P), t * t * t + 7, x3 * x3 * x3 + 7, P);
  }

  /** The sum of two curve points is a curve point. */
  lemma AddCloses(A: Point, B: Point)
    requires Prime(P) && OnCurve(A) && OnCurve(B)
    ensures OnCurve(Add(A, B))
  {
    hide Cong, Slope, Divided, Mirror, Prime;
    if A.Affine? && B.Affine? && !Opposite(A, B) {
      var l := Slope(A, B);
      if A.x == B.x {
        SameX(A, B);
        TangentSlope(A);
        TangentDivided(l, A.x, A.y);
      } else {
        ChordSlope(A, B);
        SmallNonzero(B.x - A.x);
        ChordDivided(l, A.x, A.y, B.x, B.y);
      }
      MirrorOnCurve(l, A, B.x);
    }
  }

  // ---- no curve point has x = 0 ----

  lemma {:induction false} PowMinusOne(k: nat)
    ensures Pow(-1, 2 * k + 1) == -1
  {
    if k == 0 {
      assert Pow(-1, 0) == 1;
    } else {
      PowMinusOne(k - 1);
      assert Pow(-1, 2 * k + 1) == -1 * Pow(-1, 2 * k);
      assert Pow(-1, 2 * k) == -1 * Pow(-1, 2 * k - 1);
    }
  }

  /** Modulo a prime m = 4k + 3 with -7 a square, 7 is none: else w^2 = -49 for a w that Fermat
      contradicts. */
  lemma SevenIsNoSquare(y: int, s: int, m: int, k: nat)
    requires Prime(m) && m == 4 * k + 3 && m > 49 && Cong(s * s, -7, m)
    ensures !Cong(y * y, 7, m)
  {
    hide Pow, Prime, Cong;
    if Cong(y * y, 7, m) {
      var w, h := y * s, 2 * k + 1;
      CongMul(y * y, 7, s * s, -7, m);
      MulSwap(y, y, s, s);
      CongPow(w * w, -49, h, m);
      PowSquare(w, h);
      MinusSquare(k, m);
      CongTrans(Pow(w * w, h), Pow(-49, h), -1, m);
      NonzeroRoot(w, m);
      Fermat(w, m);
      CongSym(Pow(w, m - 1), 1, m);
      CongTrans(1, Pow(w, m - 1), -1, m);
      CongDiff(1, -1, m);
      ModUnique(2, m, 0, 2);
    }
  }

  /** (-49)^h = -(7^2)^h = -1 for h = (m - 1) / 2. */
  lemma MinusSquare(k: nat, m: int)
    requires Prime(m) && m == 4 * k + 3 && m > 49
    ensures Cong(Pow(-49, 2 * k + 1), -1, m)
  {
    hide Pow, Prime, Cong;
    var h := 2 * k + 1;
    PowMulBase(-1, 49, h);
    PowMinusOne(k);
    PowSquare(7, h);
    ModUnique(7, m, 0, 7);
    Fermat(7, m);
    CongScale(Pow(7, m - 1), 1, -1, m);
    assert Pow(7, m - 1) * -1 == -1 * Pow(49, h);
  }

  lemma NonzeroRoot(w: int, m: int)
    requires m > 49 && Cong(w * w, -49, m)
    ensures w % m != 0
  {
    hide Cong;
    if w % m == 0 {
      ZeroIffCong(w, m);
      CongScale(w, 0, w, m);
      CongSym(w * w, -49, m);
      CongTrans(-49, w * w, 0, m);
      ZeroIffCong(-49, m);
      ModUnique(-49, m, -1, m - 49);
    }
  }

  /** A square root of -7 modulo p. */
  const ROOT_OF_MINUS_SEVEN: int :=
    0x70AC8110203E9F95_F8D832964B58CCC2_C712BB1C6CD58E86_1134B48F456C9B53

  lemma MinusSevenIsSquare()
    ensures Cong(ROOT_OF_MINUS_SEVEN * ROOT_OF_MINUS_SEVEN, -7, P)
  {
    hide Cong;
    PrimeValue();
    var q := 0x3197652BCAF3614C_D3FC5D87A83AF58C_BD69A9368DC6CF06_615CCF32F07F4610;
    assert ROOT_OF_MINUS_SEVEN * ROOT_OF_MINUS_SEVEN - -7 == q * P;
    MultipleDivides(ROOT_OF_MINUS_SEVEN * ROOT_OF_MINUS_SEVEN - -7, q, P);
    CongDiff(ROOT_OF_MINUS_SEVEN * ROOT_OF_MINUS_SEVEN, -7, P);
  }

  lemma PrimeShape() returns (k: nat)
    ensures P == 4 * k + 3 && P > 49
  {
    PrimeValue();
    k := P / 4;
  }

  lemma NoZeroX(A: Point)
    requires Prime(P) && OnCurve(A) && A.Affine?
    ensures A.x != 0
  {
    hide Prime, Cong, ROOT_OF_MINUS_SEVEN;
    var k := PrimeShape();
    MinusSevenIsSquare();
    SevenIsNoSquare(A.y, ROOT_OF_MINUS_SEVEN, P, k);
    assert 0 * 0 * 0 + 7 == 7;
  }
}

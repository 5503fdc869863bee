/** What the Jacobian formulas compute, as congruences modulo any m.

    A triple (X, Y, Z) stands for the affine point (x, y) when X = x Z^2 and Y = y Z^3. The lemmas
    follow the intermediate values of the two formulas and show that the result stands for the
    point that a line of slope l through (x1, y1) meets. */
module JacobianAlgebra {
  import opened NumberTheory

  ghost predicate Stands(X: int, Y: int, Z: int, x: int, y: int, m: int)
    requires m > 0
  {
    Cong(X, x * (Z * Z), m) && Cong(Y, y * (Z * (Z * Z)), m)
  }

  /** l * dx = dy, and (x3, y3) is the third intersection mirrored. */
  ghost predicate Chord(l: int, x1: int, y1: int, x2: int, x3: int, y3: int, m: int)
    requires m > 0
  {
    Cong(x3, l * l - x1 - x2, m) && Cong(y3, l * (x1 - x3) - y1, m)
  }

  lemma CongTwice(a: int, b: int, m: int)
    requires m > 0 && Cong(a, b, m)
    ensures Cong(a + a, 2 * b, m)
  {
    CongAdd(a, b, a, b, m);
  }

  lemma CongSquare(a: int, b: int, m: int)
    requires m > 0 && Cong(a, b, m)
    ensures Cong(a * a, b * b, m)
  {
    CongMul(a, b, a, b, m);
  }

  // ---- mixed addition ----

  /** H = (x2 - x1) Z^2 and S2 - Y = (y2 - y1) Z^3. */
  lemma MixedDifferences(m: int, X: int, Y: int, Z: int, x1: int, y1: int, x2: int, y2: int,
                         ZZ: int, U2: int, T: int, S2: int, H: int, R0: int)
    requires m > 0 && Stands(X, Y, Z, x1, y1, m)
    requires Cong(ZZ, Z * Z, m) && Cong(U2, x2 * ZZ, m) && Cong(T, y2 * Z, m) && Cong(S2, T * ZZ, m)
    requires Cong(H, U2 - X, m) && Cong(R0, S2 - Y, m)
    ensures Cong(H, (x2 - x1) * (Z * Z), m)
    ensures Cong(R0, (y2 - y1) * (Z * (Z * Z)), m)
  {
    hide Cong;
    var w := Z * Z;
    CongSame(x2, m); CongSame(y2, m);
    CongMul(x2, x2, ZZ, w, m);
    assert Cong(U2, x2 * w, m) by { CongTrans(U2, x2 * ZZ, x2 * w, m); }
    CongSub(U2, x2 * w, X, x1 * w, m);
    CongTrans(H, U2 - X, x2 * w - x1 * w, m);
    assert x2 * w - x1 * w == (x2 - x1) * w;
    CongMul(T, y2 * Z, ZZ, w, m);
    CongTrans(S2, T * ZZ, (y2 * Z) * w, m);
    Assoc(y2, Z, w);
    CongSub(S2, y2 * (Z * w), Y, y1 * (Z * w), m);
    CongTrans(R0, S2 - Y, y2 * (Z * w) - y1 * (Z * w), m);
    assert y2 * (Z * w) - y1 * (Z * w) == (y2 - y1) * (Z * w);
  }

  lemma ScaleBy2ZH(l: int, dx: int, dy: int, Z: int, w: int, z3: int, m: int)
    requires m > 0 && Cong(l * dx, dy, m) && z3 == 2 * (Z * (dx * w))
    ensures Cong(2 * (dy * (Z * w)), l * z3, m)
  {
    hide Cong;
    var t := Z * w;
    CongScale(l * dx, dy, 2 * t, m);
    assert (l * dx) * (2 * t) == l * z3 by {
      assert Z * (dx * w) == dx * t;
      assert l * (2 * (dx * t)) == (l * dx) * (2 * t);
    }
    assert dy * (2 * t) == 2 * (dy * t);
    CongSym(l * z3, 2 * (dy * t), m);
  }

  lemma FourSquares(Z: int, h: int, z3: int)
    requires z3 == 2 * (Z * h)
    ensures z3 * z3 == (Z * Z) * (4 * (h * h))
  {
    var u := Z * h;
    assert u * u == (Z * Z) * (h * h) by { MulSwap(Z, h, Z, h); }
    assert (2 * u) * (2 * u) == 4 * (u * u);
  }

  /** I = 4 H^2, J = H I, V = X I in terms of z3 = 2 Z H: V = x1 z3^2 and J = (x2 - x1) z3^2. */
  lemma MixedProducts(m: int, X: int, Z: int, x1: int, dx: int, H: int, HH: int, I0: int, I: int, J: int, V: int,
                      z3: int)
    requires m > 0 && Cong(X, x1 * (Z * Z), m) && Cong(H, dx * (Z * Z), m)
    requires Cong(HH, H * H, m) && Cong(I0, HH + HH, m) && Cong(I, I0 + I0, m)
    requires Cong(J, H * I, m) && Cong(V, X * I, m)
    requires z3 == 2 * (Z * (dx * (Z * Z)))
    ensures Cong(V, x1 * (z3 * z3), m)
    ensures Cong(J, dx * (z3 * z3), m)
  {
    hide Cong;
    var w := Z * Z;
    var h := dx * w;
    CongSquare(H, h, m);
    CongTrans(HH, H * H, h * h, m);
    CongTwice(HH, h * h, m);
    CongTrans(I0, HH + HH, 2 * (h * h), m);
    CongTwice(I0, 2 * (h * h), m);
    CongTrans(I, I0 + I0, 2 * (2 * (h * h)), m);
    var q := 4 * (h * h);
    FourSquares(Z, h, z3);
    CongMul(X, x1 * w, I, q, m);
    CongTrans(V, X * I, (x1 * w) * q, m);
    Assoc(x1, w, q);
    CongMul(H, h, I, q, m);
    CongTrans(J, H * I, h * q, m);
    Assoc(dx, w, q);
  }

  /** R = 2 (S2 - Y) = l z3. */
  lemma MixedSlope(m: int, Z: int, l: int, dx: int, dy: int, R0: int, R: int, z3: int)
    requires m > 0 && Cong(l * dx, dy, m) && z3 == 2 * (Z * (dx * (Z * Z)))
    requires Cong(R0, dy * (Z * (Z * Z)), m) && Cong(R, R0 + R0, m)
    ensures Cong(R, l * z3, m)
  {
    hide Cong;
    var w := Z * Z;
    CongTwice(R0, dy * (Z * w), m);
    CongTrans(R, R0 + R0, 2 * (dy * (Z * w)), m);
    ScaleBy2ZH(l, dx, dy, Z, w, z3, m);
    CongTrans(R, 2 * (dy * (Z * w)), l * z3, m);
  }

  /** X3 = R^2 - J - 2V for J = dx z3^2, V = x1 z3^2, R = l z3. */
  lemma ThirdX(m: int, l: int, x1: int, dx: int, x3: int, z3: int,
               R: int, J: int, V: int, A1: int, A2: int, T0: int, X3: int)
    requires m > 0 && Cong(R, l * z3, m) && Cong(J, dx * (z3 * z3), m) && Cong(V, x1 * (z3 * z3), m)
    requires Cong(A1, R * R, m) && Cong(A2, A1 - J, m) && Cong(T0, V + V, m) && Cong(X3, A2 - T0, m)
    requires Cong(x3, l * l - dx - 2 * x1, m)
    ensures Cong(X3, x3 * (z3 * z3), m)
  {
    hide Cong;
    var s := z3 * z3;
    CongSquare(R, l * z3, m);
    MulSwap(l, z3, l, z3);
    CongTrans(A1, R * R, (l * l) * s, m);
    CongSub(A1, (l * l) * s, J, dx * s, m);
    CongTrans(A2, A1 - J, (l * l) * s - dx * s, m);
    CongTwice(V, x1 * s, m);
    CongTrans(T0, V + V, 2 * (x1 * s), m);
    CongSub(A2, (l * l) * s - dx * s, T0, 2 * (x1 * s), m);
    CongTrans(X3, A2 - T0, (l * l) * s - dx * s - 2 * (x1 * s), m);
    assert (l * l) * s - dx * s - 2 * (x1 * s) == (l * l - dx - 2 * x1) * s by {
      var e := l * l;
      assert e * s - dx * s - 2 * (x1 * s) == (e - dx - 2 * x1) * s;
    }
    CongScale(x3, l * l - dx - 2 * x1, s, m);
    CongSym(x3 * s, (l * l - dx - 2 * x1) * s, m);
    CongTrans(X3, (l * l - dx - 2 * x1) * s, x3 * s, m);
  }

  /** Y3 = R (V - X3) - N for V = x1 z3^2, X3 = x3 z3^2, R = l z3 and N = y1 z3^3. */
  lemma ThirdY(m: int, l: int, x1: int, y1: int, x3: int, y3: int, z3: int,
               R: int, V: int, X3: int, T1: int, B1: int, N: int, Y3: int)
    requires m > 0 && Cong(R, l * z3, m) && Cong(V, x1 * (z3 * z3), m) && Cong(X3, x3 * (z3 * z3), m)
    requires Cong(T1, V - X3, m) && Cong(B1, R * T1, m) && Cong(Y3, B1 - N, m)
    requires Cong(N, y1 * (z3 * (z3 * z3)), m)
    requires Cong(y3, l * (x1 - x3) - y1, m)
    ensures Cong(Y3, y3 * (z3 * (z3 * z3)), m)
  {
    hide Cong;
    var s := z3 * z3;
    var c := z3 * s;
    var d := x1 - x3;
    CongSub(V, x1 * s, X3, x3 * s, m);
    assert x1 * s - x3 * s == d * s;
    CongTrans(T1, V - X3, d * s, m);
    CongMul(R, l * z3, T1, d * s, m);
    CongTrans(B1, R * T1, (l * z3) * (d * s), m);
    MulSwap(l, z3, d, s);
    CongSub(B1, (l * d) * c, N, y1 * c, m);
    CongTrans(Y3, B1 - N, (l * d) * c - y1 * c, m);
    assert (l * d) * c - y1 * c == (l * d - y1) * c by {
      var e := l * d;
      assert e * c - y1 * c == (e - y1) * c;
    }
    CongScale(y3, l * d - y1, c, m);
    CongSym(y3 * c, (l * d - y1) * c, m);
    CongTrans(Y3, (l * d - y1) * c, y3 * c, m);
  }

  /** 2 Y J = y1 z3^3. */
  lemma MixedTwiceYJ(m: int, Y: int, Z: int, y1: int, dx: int, J: int, T2: int, N: int, z3: int)
    requires m > 0 && Cong(Y, y1 * (Z * (Z * Z)), m) && Cong(J, dx * (z3 * z3), m)
    requires Cong(T2, Y * J, m) && Cong(N, T2 + T2, m)
    requires z3 == 2 * (Z * (dx * (Z * Z)))
    ensures Cong(N, y1 * (z3 * (z3 * z3)), m)
  {
    hide Cong;
    var w, s := Z * Z, z3 * z3;
    var t := Z * w;
    CongMul(Y, y1 * t, J, dx * s, m);
    CongTrans(T2, Y * J, (y1 * t) * (dx * s), m);
    CongTwice(T2, (y1 * t) * (dx * s), m);
    CongTrans(N, T2 + T2, 2 * ((y1 * t) * (dx * s)), m);
    assert 2 * ((y1 * t) * (dx * s)) == y1 * (z3 * s) by {
      assert (y1 * t) * (dx * s) == y1 * ((dx * t) * s) by {
        Assoc(y1, t, dx * s);
        assert t * (dx * s) == (dx * t) * s;
      }
      assert Z * (dx * w) == dx * t;
      assert z3 == 2 * (dx * t);
      assert (2 * (dx * t)) * s == 2 * ((dx * t) * s);
    }
  }

  /** (Z + H)^2 - Z^2 - H^2 = 2 Z H. */
  lemma MixedThirdZ(m: int, Z: int, h: int, H: int, ZZ: int, HH: int, C1: int, C2: int, C3: int, Z3: int)
    requires m > 0 && Cong(H, h, m) && Cong(ZZ, Z * Z, m) && Cong(HH, H * H, m)
    requires Cong(C1, Z + H, m) && Cong(C2, C1 * C1, m) && Cong(C3, C2 - ZZ, m) && Cong(Z3, C3 - HH, m)
    ensures Cong(Z3, 2 * (Z * h), m)
  {
    hide Cong;
    CongSame(Z, m);
    CongAdd(Z, Z, H, h, m);
    CongTrans(C1, Z + H, Z + h, m);
    CongSquare(C1, Z + h, m);
    CongTrans(C2, C1 * C1, (Z + h) * (Z + h), m);
    CongSub(C2, (Z + h) * (Z + h), ZZ, Z * Z, m);
    CongTrans(C3, C2 - ZZ, (Z + h) * (Z + h) - Z * Z, m);
    CongSquare(H, h, m);
    CongTrans(HH, H * H, h * h, m);
    CongSub(C3, (Z + h) * (Z + h) - Z * Z, HH, h * h, m);
    CongTrans(Z3, C3 - HH, (Z + h) * (Z + h) - Z * Z - h * h, m);
    assert (Z + h) * (Z + h) - Z * Z - h * h == 2 * (Z * h);
  }

  /** A triple relative to z3 stands for its point relative to any congruent Z3. */
  lemma StandsAt(X3: int, Y3: int, Z3: int, x3: int, y3: int, z3: int, m: int)
    requires m > 0 && Cong(Z3, z3, m)
    requires Cong(X3, x3 * (z3 * z3), m) && Cong(Y3, y3 * (z3 * (z3 * z3)), m)
    ensures Stands(X3, Y3, Z3, x3, y3, m)
  {
    hide Cong;
    CongSym(Z3, z3, m);
    CongSquare(z3, Z3, m);
    CongSame(x3, m); CongSame(y3, m);
    CongMul(x3, x3, z3 * z3, Z3 * Z3, m);
    CongTrans(X3, x3 * (z3 * z3), x3 * (Z3 * Z3), m);
    CongMul(z3, Z3, z3 * z3, Z3 * Z3, m);
    CongMul(y3, y3, z3 * (z3 * z3), Z3 * (Z3 * Z3), m);
    CongTrans(Y3, y3 * (z3 * (z3 * z3)), y3 * (Z3 * (Z3 * Z3)), m);
  }

  /** The generic branch of mixed addition, end to end. */
  lemma MixedAddStands(m: int, X: int, Y: int, Z: int, x1: int, y1: int, x2: int, y2: int, l: int, x3: int, y3: int,
                       ZZ: int, U2: int, T: int, S2: int, H: int, R0: int,
                       R: int, HH: int, I0: int, I: int, J: int, V: int,
                       A1: int, A2: int, T0: int, X3: int, T1: int, B1: int, T2: int, N: int, Y3: int,
                       C1: int, C2: int, C3: int, Z3: int)
    requires m > 0 && Stands(X, Y, Z, x1, y1, m)
    requires Cong(l * (x2 - x1), y2 - y1, m) && Chord(l, x1, y1, x2, x3, y3, m)
    requires Cong(ZZ, Z * Z, m) && Cong(U2, x2 * ZZ, m) && Cong(T, y2 * Z, m) && Cong(S2, T * ZZ, m)
    requires Cong(H, U2 - X, m) && Cong(R0, S2 - Y, m)
    requires Cong(R, R0 + R0, m) && Cong(HH, H * H, m) && Cong(I0, HH + HH, m) && Cong(I, I0 + I0, m)
    requires Cong(J, H * I, m) && Cong(V, X * I, m)
    requires Cong(A1, R * R, m) && Cong(A2, A1 - J, m) && Cong(T0, V + V, m) && Cong(X3, A2 - T0, m)
    requires Cong(T1, V - X3, m) && Cong(B1, R * T1, m) && Cong(T2, Y * J, m) && Cong(N, T2 + T2, m)
    requires Cong(Y3, B1 - N, m)
    requires Cong(C1, Z + H, m) && Cong(C2, C1 * C1, m) && Cong(C3, C2 - ZZ, m) && Cong(Z3, C3 - HH, m)
    ensures Stands(X3, Y3, Z3, x3, y3, m)
    ensures Cong(H, (x2 - x1) * (Z * Z), m) && Cong(Z3, 2 * (Z * H), m)
  {
    hide Cong;
    var dx, dy := x2 - x1, y2 - y1;
    var h := dx * (Z * Z);
    var z3 := 2 * (Z * h);
    MixedDifferences(m, X, Y, Z, x1, y1, x2, y2, ZZ, U2, T, S2, H, R0);
    MixedSlope(m, Z, l, dx, dy, R0, R, z3);
    MixedProducts(m, X, Z, x1, dx, H, HH, I0, I, J, V, z3);
    assert l * l - x1 - x2 == l * l - dx - 2 * x1;
    ThirdX(m, l, x1, dx, x3, z3, R, J, V, A1, A2, T0, X3);
    MixedTwiceYJ(m, Y, Z, y1, dx, J, T2, N, z3);
    ThirdY(m, l, x1, y1, x3, y3, z3, R, V, X3, T1, B1, N, Y3);
    MixedThirdZ(m, Z, h, H, ZZ, HH, C1, C2, C3, Z3);
    StandsAt(X3, Y3, Z3, x3, y3, z3, m);
    CongSym(H, h, m);
    CongSame(2 * Z, m);
    CongMul(2 * Z, 2 * Z, h, H, m);
    assert (2 * Z) * h == z3 && (2 * Z) * H == 2 * (Z * H);
    CongTrans(Z3, z3, 2 * (Z * H), m);
  }

  // ---- doubling ----

  lemma FourthPowers(y: int, w: int, k: int, z3: int)
    requires k == y * (w * w) && z3 == 2 * k
    ensures z3 * z3 == 4 * ((y * y) * ((w * w) * (w * w)))
  {
    MulSwap(y, w * w, y, w * w);
    assert (2 * k) * (2 * k) == 4 * (k * k);
  }

  /** B = Y^2 = y^2 w^3 with w = Z^2. */
  lemma DoubleB(m: int, Y: int, Z: int, y: int, B: int)
    requires m > 0 && Cong(Y, y * (Z * (Z * Z)), m) && Cong(B, Y * Y, m)
    ensures Cong(B, (y * y) * ((Z * Z) * ((Z * Z) * (Z * Z))), m)
  {
    hide Cong;
    var w := Z * Z;
    var t := Z * w;
    CongSquare(Y, y * t, m);
    CongTrans(B, Y * Y, (y * t) * (y * t), m);
    MulSwap(y, t, y, t);
    MulSwap(Z, w, Z, w);
  }

  /** D = 2 ((X + B)^2 - A - C) = 4 X B. */
  lemma DoubleCross(m: int, X: int, A: int, B: int, C: int, S0: int, S1: int, S2: int, S3: int, D: int)
    requires m > 0 && Cong(A, X * X, m) && Cong(C, B * B, m)
    requires Cong(S0, X + B, m) && Cong(S1, S0 * S0, m) && Cong(S2, S1 - A, m) && Cong(S3, S2 - C, m)
    requires Cong(D, S3 + S3, m)
    ensures Cong(D, (X * B) * 4, m)
  {
    hide Cong;
    var q := (X + B) * (X + B);
    CongSquare(S0, X + B, m);
    CongTrans(S1, S0 * S0, q, m);
    CongSub(S1, q, A, X * X, m);
    CongTrans(S2, S1 - A, q - X * X, m);
    CongSub(S2, q - X * X, C, B * B, m);
    CongTrans(S3, S2 - C, q - X * X - B * B, m);
    assert q - X * X - B * B == 2 * (X * B);
    CongTwice(S3, 2 * (X * B), m);
    CongTrans(D, S3 + S3, (X * B) * 4, m);
  }

  lemma CrossTerm(x: int, yy: int, w: int, u: int)
    requires u == w * w
    ensures (x * w) * (yy * (w * u)) == x * (yy * (u * u))
  {
    Assoc(x, w, yy * (w * u));
    assert w * (yy * (w * u)) == yy * (w * (w * u));
    Assoc(w, w, u);
  }

  /** D = x z3^2. */
  lemma DoubleD(m: int, X: int, Z: int, x: int, y: int, B: int, D: int, z3: int)
    requires m > 0 && Cong(X, x * (Z * Z), m)
    requires Cong(B, (y * y) * ((Z * Z) * ((Z * Z) * (Z * Z))), m)
    requires Cong(D, (X * B) * 4, m)
    requires z3 == 2 * (y * ((Z * Z) * (Z * Z)))
    ensures Cong(D, x * (z3 * z3), m)
  {
    hide Cong;
    var w := Z * Z;
    var u, yy := w * w, y * y;
    CongMul(X, x * w, B, yy * (w * u), m);
    CrossTerm(x, yy, w, u);
    CongScale(X * B, x * (yy * (u * u)), 4, m);
    FourthPowers(y, w, y * u, z3);
    assert (x * (yy * (u * u))) * 4 == x * (4 * (yy * (u * u)));
    CongTrans(D, (X * B) * 4, x * (z3 * z3), m);
  }

  /** E = 3 X^2 = l z3 when l is the tangent slope. */
  lemma DoubleE(m: int, X: int, Z: int, x: int, y: int, l: int, A: int, E0: int, E: int, z3: int)
    requires m > 0 && Cong(X, x * (Z * Z), m) && Cong(l * (2 * y), 3 * (x * x), m)
    requires Cong(A, X * X, m) && Cong(E0, A + A, m) && Cong(E, E0 + A, m)
    requires z3 == 2 * (y * ((Z * Z) * (Z * Z)))
    ensures Cong(E, l * z3, m)
  {
    hide Cong;
    var w := Z * Z;
    var u := w * w;
    CongSquare(X, x * w, m);
    MulSwap(x, w, x, w);
    CongTrans(A, X * X, (x * x) * u, m);
    CongTwice(A, (x * x) * u, m);
    CongTrans(E0, A + A, 2 * ((x * x) * u), m);
    CongAdd(E0, 2 * ((x * x) * u), A, (x * x) * u, m);
    CongTrans(E, E0 + A, 3 * ((x * x) * u), m);
    CongScale(l * (2 * y), 3 * (x * x), u, m);
    CongSym((l * (2 * y)) * u, (3 * (x * x)) * u, m);
    assert (3 * (x * x)) * u == 3 * ((x * x) * u);
    CongTrans(E, 3 * ((x * x) * u), (l * (2 * y)) * u, m);
    assert (l * (2 * y)) * u == l * z3 by {
      Assoc(l, 2 * y, u);
      Assoc(2, y, u);
    }
  }

  /** 8 C = y z3^3. */
  lemma DoubleN(m: int, Z: int, y: int, B: int, C: int, N0: int, N1: int, N: int, z3: int)
    requires m > 0 && Cong(B, (y * y) * ((Z * Z) * ((Z * Z) * (Z * Z))), m) && Cong(C, B * B, m)
    requires Cong(N0, C + C, m) && Cong(N1, N0 + N0, m) && Cong(N, N1 + N1, m)
    requires z3 == 2 * (y * ((Z * Z) * (Z * Z)))
    ensures Cong(N, y * (z3 * (z3 * z3)), m)
  {
    hide Cong;
    var w := Z * Z;
    var u, yy := w * w, y * y;
    var b := yy * (w * u);
    CongSquare(B, b, m);
    CongTrans(C, B * B, b * b, m);
    CongTwice(C, b * b, m);
    CongTrans(N0, C + C, 2 * (b * b), m);
    CongTwice(N0, 2 * (b * b), m);
    CongTrans(N1, N0 + N0, 2 * (2 * (b * b)), m);
    CongTwice(N1, 2 * (2 * (b * b)), m);
    CongTrans(N, N1 + N1, 2 * (2 * (2 * (b * b))), m);
    EighthPower(y, w, z3);
  }

  lemma EighthPower(y: int, w: int, z3: int)
    requires z3 == 2 * (y * (w * w))
    ensures 2 * (2 * (2 * (((y * y) * (w * (w * w))) * ((y * y) * (w * (w * w)))))) == y * (z3 * (z3 * z3))
  {
    var u, yy := w * w, y * y;
    var k := y * u;
    var b := yy * (w * u);
    assert b * b == y * (k * (k * k)) by {
      MulSwap(yy, w * u, yy, w * u);
      MulSwap(w, u, w, u);
      // b^2 = y^4 w^2 u^2 and y k^3 = y (y u)(y u)(y u)
      assert k * k == yy * (u * u) by { MulSwap(y, u, y, u); }
      assert k * (k * k) == (y * yy) * (u * (u * u)) by { MulSwap(y, u, yy, u * u); }
      assert y * ((y * yy) * (u * (u * u))) == (yy * yy) * (u * (u * u)) by {
        assert y * (y * yy) == yy * yy;
        Assoc(y, y * yy, u * (u * u));
      }
    }
    assert z3 * (z3 * z3) == 8 * (k * (k * k)) by {
      assert (2 * k) * (2 * k) == 4 * (k * k);
      assert (2 * k) * (4 * (k * k)) == 8 * (k * (k * k));
    }
    assert y * (8 * (k * (k * k))) == 8 * (y * (k * (k * k)));
  }

  /** Z3 = 2 Y Z = 2 y w^2. */
  lemma DoubleZ(m: int, Y: int, Z: int, y: int, Z0: int, Z3: int)
    requires m > 0 && Cong(Y, y * (Z * (Z * Z)), m) && Cong(Z0, Y * Z, m) && Cong(Z3, Z0 + Z0, m)
    ensures Cong(Z3, 2 * (y * ((Z * Z) * (Z * Z))), m) && Cong(Z3, 2 * (Y * Z), m)
  {
    hide Cong;
    var w := Z * Z;
    CongTwice(Z0, Y * Z, m);
    CongTrans(Z3, Z0 + Z0, 2 * (Y * Z), m);
    CongScale(Y, y * (Z * w), Z, m);
    assert (y * (Z * w)) * Z == y * (w * w) by {
      Assoc(y, Z * w, Z);
      assert (Z * w) * Z == w * w;
    }
    CongTrans(Z0, Y * Z, y * (w * w), m);
    CongTwice(Z0, y * (w * w), m);
    CongTrans(Z3, Z0 + Z0, 2 * (y * (w * w)), m);
  }

  /** Doubling, end to end. */
  lemma DoubleStands(m: int, X: int, Y: int, Z: int, x: int, y: int, l: int, x3: int, y3: int,
                     A: int, B: int, C: int, S0: int, S1: int, S2: int, S3: int, D: int, E0: int, E: int, F: int,
                     T0: int, X3: int, T1: int, B1: int, N0: int, N1: int, N: int, Y3: int, Z0: int, Z3: int)
    requires m > 0 && Stands(X, Y, Z, x, y, m)
    requires Cong(l * (2 * y), 3 * (x * x), m) && Chord(l, x, y, x, x3, y3, m)
    requires Cong(A, X * X, m) && Cong(B, Y * Y, m) && Cong(C, B * B, m)
    requires Cong(S0, X + B, m) && Cong(S1, S0 * S0, m) && Cong(S2, S1 - A, m) && Cong(S3, S2 - C, m)
    requires Cong(D, S3 + S3, m) && Cong(E0, A + A, m) && Cong(E, E0 + A, m) && Cong(F, E * E, m)
    requires Cong(T0, D + D, m) && Cong(X3, F - T0, m) && Cong(T1, D - X3, m) && Cong(B1, E * T1, m)
    requires Cong(N0, C + C, m) && Cong(N1, N0 + N0, m) && Cong(N, N1 + N1, m) && Cong(Y3, B1 - N, m)
    requires Cong(Z0, Y * Z, m) && Cong(Z3, Z0 + Z0, m)
    ensures Stands(X3, Y3, Z3, x3, y3, m)
    ensures Cong(Z3, 2 * (Y * Z), m)
  {
    hide Cong;
    var z3 := 2 * (y * ((Z * Z) * (Z * Z)));
    DoubleB(m, Y, Z, y, B);
    DoubleCross(m, X, A, B, C, S0, S1, S2, S3, D);
    DoubleD(m, X, Z, x, y, B, D, z3);
    DoubleE(m, X, Z, x, y, l, A, E0, E, z3);
    CongSame(F, m); CongSame(0, m);
    assert 0 * (z3 * z3) == 0 && F - 0 == F;
    ThirdX(m, l, x, 0, x3, z3, E, 0, D, F, F, T0, X3);
    DoubleN(m, Z, y, B, C, N0, N1, N, z3);
    ThirdY(m, l, x, y, x3, y3, z3, E, D, X3, T1, B1, N, Y3);
    DoubleZ(m, Y, Z, y, Z0, Z3);
    StandsAt(X3, Y3, Z3, x3, y3, z3, m);
  }
}

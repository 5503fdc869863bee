/** Arithmetic modulo m: congruences, powers, primes, Euclid's lemma, Fermat's little theorem. */
module NumberTheory {

  // ---- division with remainder ----

  lemma NonzeroMultiple(d: int, m: int)
    requires m > 0
    ensures d >= 1 ==> d * m >= m
    ensures d <= -1 ==> d * m <= -m
    ensures d <= 0 ==> d * m <= 0
  {
  }

  lemma QuotientUnique(m: int, q: int, r: int, q': int, r': int)
    requires 0 <= r < m && 0 <= r' < m && q * m + r == q' * m + r'
    ensures q == q' && r == r'
  {
    assert (q - q') * m == q * m - q' * m;
    NonzeroMultiple(q - q', m);
  }

  lemma ModUnique(x: int, m: int, q: int, r: int)
    requires 0 <= r < m && x == q * m + r
    ensures x % m == r && x / m == q
  {
    ModSplit(x, m);
    QuotientUnique(m, q, r, x / m, x % m);
  }

  lemma ModSplit(x: int, m: int)
    requires m > 0
    ensures x == (x / m) * m + x % m
  {
  }

  lemma ModMultiple(x: int, k: int, m: int)
    requires m > 0
    ensures (x + k * m) % m == x % m
  {
    ModSplit(x, m);
    assert x + k * m == (x / m + k) * m + x % m by {
      assert (x / m) * m + k * m == (x / m + k) * m;
    }
    ModUnique(x + k * m, m, x / m + k, x % m);
  }

  lemma MultipleDivides(m: int, k: int, d: int)
    requires d > 0 && m == k * d
    ensures m % d == 0
  {
    ModMultiple(0, k, d);
    ModUnique(0, d, 0, 0);
  }

  lemma Assoc(a: int, b: int, c: int)
    ensures (a * b) * c == a * (b * c)
  {
  }

  // ---- congruence ----

  ghost predicate Cong(a: int, b: int, m: int)
    requires m > 0
  {
    a % m == b % m
  }

  /** Congruent numbers differ by a multiple of m, and conversely. */
  lemma CongDiff(a: int, b: int, m: int)
    requires m > 0
    ensures Cong(a, b, m) <==> (a - b) % m == 0
  {
    ModSplit(a, m);
    ModSplit(b, m);
    var q := a / m - b / m;
    assert a - b == (a % m - b % m) + q * m by {
      assert (a / m) * m - (b / m) * m == (a / m - b / m) * m;
    }
    ModMultiple(a % m - b % m, q, m);
    var d := a % m - b % m;
    if 0 <= d { ModUnique(d, m, 0, d); } else { ModUnique(d, m, -1, d + m); }
  }

  lemma CongSame(a: int, m: int)
    requires m > 0
    ensures Cong(a, a, m)
  {
  }

  lemma CongSym(a: int, b: int, m: int)
    requires m > 0 && Cong(a, b, m)
    ensures Cong(b, a, m)
  {
  }

  lemma CongTrans(a: int, b: int, c: int, m: int)
    requires m > 0 && Cong(a, b, m) && Cong(b, c, m)
    ensures Cong(a, c, m)
  {
  }

  lemma SameResidue(a: int, b: int, m: int)
    requires m > 0 && Cong(a, b, m)
    ensures a % m == b % m
  {
  }

  lemma ZeroIffCong(a: int, m: int)
    requires m > 0
    ensures a % m == 0 <==> Cong(a, 0, m)
  {
    ModUnique(0, m, 0, 0);
  }

  lemma CongMod(a: int, m: int)
    requires m > 0
    ensures Cong(a % m, a, m)
  {
    ModUnique(a % m, m, 0, a % m);
  }

  lemma CongAdd(a: int, b: int, c: int, d: int, m: int)
    requires m > 0 && Cong(a, b, m) && Cong(c, d, m)
    ensures Cong(a + c, b + d, m)
  {
    ModSplit(a, m); ModSplit(b, m); ModSplit(c, m); ModSplit(d, m);
    var k := a / m - b / m + c / m - d / m;
    assert a + c == (b + d) + k * m by {
      assert (a / m) * m - (b / m) * m + (c / m) * m - (d / m) * m == k * m;
    }
    ModMultiple(b + d, k, m);
  }

  lemma CongSub(a: int, b: int, c: int, d: int, m: int)
    requires m > 0 && Cong(a, b, m) && Cong(c, d, m)
    ensures Cong(a - c, b - d, m)
  {
    ModSplit(a, m); ModSplit(b, m); ModSplit(c, m); ModSplit(d, m);
    var k := a / m - b / m - c / m + d / m;
    assert a - c == (b - d) + k * m by {
      assert (a / m) * m - (b / m) * m - (c / m) * m + (d / m) * m == k * m;
    }
    ModMultiple(b - d, k, m);
  }

  lemma CongScale(a: int, b: int, c: int, m: int)
    requires m > 0 && Cong(a, b, m)
    ensures Cong(a * c, b * c, m)
  {
    ModSplit(a, m); ModSplit(b, m);
    var q := a / m - b / m;
    assert a - b == q * m by {
      assert (a / m) * m - (b / m) * m == (a / m - b / m) * m;
    }
    assert a * c == b * c + (q * c) * m by {
      assert (a - b) * c == a * c - b * c;
      assert (q * m) * c == (q * c) * m;
    }
    ModMultiple(b * c, q * c, m);
  }

  lemma CongMul(a: int, b: int, c: int, d: int, m: int)
    requires m > 0 && Cong(a, b, m) && Cong(c, d, m)
    ensures Cong(a * c, b * d, m)
  {
    CongScale(a, b, c, m);
    CongScale(c, d, b, m);
    assert c * b == b * c && d * b == b * d;
  }

  lemma MulSwap(a: int, b: int, x: int, y: int)
    ensures (a * b) * (x * y) == (a * x) * (b * y)
  {
    var t := b * y;
    assert (a * b) * (x * y) == a * (b * (x * y));
    assert b * (x * y) == x * t;
    assert a * (x * t) == (a * x) * t;
  }

  // ---- powers ----

  function Pow(b: int, e: nat): int {
    if e == 0 then 1 else b * Pow(b, e - 1)
  }

  lemma {:induction false} PowAdd(b: int, e: nat, f: nat)
    ensures Pow(b, e + f) == Pow(b, e) * Pow(b, f)
  {
    if e == 0 {
    } else {
      PowAdd(b, e - 1, f);
      assert (b * Pow(b, e - 1)) * Pow(b, f) == b * (Pow(b, e - 1) * Pow(b, f));
    }
  }

  lemma {:induction false} PowMulBase(a: int, b: int, e: nat)
    ensures Pow(a * b, e) == Pow(a, e) * Pow(b, e)
  {
    if e == 0 {
    } else {
      PowMulBase(a, b, e - 1);
      var x, y := Pow(a, e - 1), Pow(b, e - 1);
      MulSwap(a, b, x, y);
    }
  }

  lemma PowSquare(b: int, e: nat)
    ensures Pow(b, 2 * e) == Pow(b * b, e)
  {
    PowAdd(b, e, e);
    PowMulBase(b, b, e);
  }

  lemma {:induction false} CongPow(a: int, b: int, e: nat, m: int)
    requires m > 0 && Cong(a, b, m)
    ensures Cong(Pow(a, e), Pow(b, e), m)
  {
    if e == 0 {
    } else {
      CongPow(a, b, e - 1, m);
      CongMul(a, b, Pow(a, e - 1), Pow(b, e - 1), m);
    }
  }

  lemma {:induction false} PowZero(e: nat)
    requires e > 0
    ensures Pow(0, e) == 0
  {
  }

  // ---- primes ----

  ghost predicate Prime(p: int) {
    p >= 2 && forall d :: 2 <= d < p ==> p % d != 0
  }

  /** Euclid's lemma by descent on a: some multiple of a leaves a smaller remainder. */
  lemma {:induction false} EuclidDescent(a: int, b: int, p: int)
    requires Prime(p) && 0 < a < p && (a * b) % p == 0
    ensures b % p == 0
    decreases a
  {
    if a == 1 {
    } else {
      // p == q * a + r with 0 < r < a, and r * b == p * b - q * (a * b)
      var q, r := p / a, p % a;
      ModSplit(p, a);
      assert 0 < r < a;
      var k := (a * b) / p;
      ModSplit(a * b, p);
      assert r * b == (b - q * k) * p by {
        assert r == p - q * a;
        assert r * b == p * b - q * (a * b);
        assert q * (k * p) == (q * k) * p;
      }
      ModMultiple(0, b - q * k, p);
      EuclidDescent(r, b, p);
    }
  }

  lemma Euclid(a: int, b: int, p: int)
    requires Prime(p) && (a * b) % p == 0
    ensures a % p == 0 || b % p == 0
  {
    if a % p != 0 {
      CongMod(a, p);
      CongScale(a % p, a, b, p);
      assert ((a % p) * b) % p == 0;
      EuclidDescent(a % p, b, p);
    }
  }

  lemma Cancel(a: int, b: int, c: int, p: int)
    requires Prime(p) && c % p != 0 && Cong(c * a, c * b, p)
    ensures Cong(a, b, p)
  {
    CongDiff(c * a, c * b, p);
    assert c * a - c * b == c * (a - b);
    Euclid(c, a - b, p);
    CongDiff(a, b, p);
  }

  // ---- Fermat's little theorem, through the product of all nonzero residues ----

  ghost function Factorial(n: nat): int {
    if n == 0 then 1 else n * Factorial(n - 1)
  }

  ghost function ProductOf(s: seq<int>): int {
    if s == [] then 1 else ProductOf(s[..|s| - 1]) * s[|s| - 1]
  }

  lemma {:induction false} ProductRemove(s: seq<int>, i: nat)
    requires i < |s|
    ensures ProductOf(s) == ProductOf(s[..i] + s[i + 1..]) * s[i]
    decreases |s|
  {
    var n := |s| - 1;
    var rest := s[..i] + s[i + 1..];
    if i == n {
      assert rest == s[..n];
    } else {
      ProductRemove(s[..n], i);
      assert s[..n][..i] + s[..n][i + 1..] == rest[..|rest| - 1];
      var x := ProductOf(rest[..|rest| - 1]);
      assert (x * s[i]) * s[n] == (x * s[n]) * s[i];
    }
  }

  ghost predicate Distinct(s: seq<int>) {
    forall i, j :: 0 <= i < j < |s| ==> s[i] != s[j]
  }

  ghost predicate Within(s: seq<int>, n: int) {
    forall i :: 0 <= i < |s| ==> 1 <= s[i] <= n
  }

  lemma {:induction false} Pigeonhole(s: seq<int>, n: nat)
    requires Distinct(s) && Within(s, n)
    ensures |s| <= n
    decreases n
  {
    if s == [] {
    } else if exists i :: 0 <= i < |s| && s[i] == n {
      var i: nat :| i < |s| && s[i] == n;
      LargestRemoved(s, i, n);
      Pigeonhole(s[..i] + s[i + 1..], n - 1);
    } else {
      assert 1 <= s[0] < n;
      Pigeonhole(s, n - 1);
    }
  }

  lemma LargestRemoved(s: seq<int>, i: nat, n: nat)
    requires i < |s| && s[i] == n && Distinct(s) && Within(s, n)
    ensures Distinct(s[..i] + s[i + 1..]) && Within(s[..i] + s[i + 1..], n - 1)
  {
  }

  /** n distinct numbers in 1..n include n. */
  lemma LargestOccurs(s: seq<int>, n: nat) returns (i: nat)
    requires |s| == n > 0 && Distinct(s) && Within(s, n)
    ensures i < |s| && s[i] == n
  {
    hide Distinct;
    if forall j :: 0 <= j < |s| ==> s[j] != n {
      Pigeonhole(s, n - 1);
      assert false;
    }
    i :| 0 <= i < |s| && s[i] == n;
  }

  /** n distinct numbers in 1..n multiply to n!. */
  lemma {:induction false} ProductOfAll(s: seq<int>, n: nat)
    requires |s| == n && Distinct(s) && Within(s, n)
    ensures ProductOf(s) == Factorial(n)
    decreases n
  {
    hide Distinct, Within, ProductOf;
    if n == 0 {
      EmptyProduct();
    } else {
      var i := LargestOccurs(s, n);
      ProductRemove(s, i);
      LargestRemoved(s, i, n);
      ProductOfAll(s[..i] + s[i + 1..], n - 1);
    }
  }

  lemma EmptyProduct()
    ensures ProductOf([]) == 1
  {
  }

  /** a * 1 mod p, ..., a * n mod p. */
  ghost function Residues(a: int, n: nat, p: int): (s: seq<int>)
    requires p > 0
    ensures |s| == n && forall i :: 0 <= i < n ==> s[i] == (a * (i + 1)) % p
  {
    if n == 0 then [] else Residues(a, n - 1, p) + [(a * n) % p]
  }

  lemma {:induction false} ResiduesProduct(a: int, n: nat, p: int)
    requires p > 0
    ensures Cong(ProductOf(Residues(a, n, p)), Pow(a, n) * Factorial(n), p)
  {
    if n == 0 {
    } else {
      var s := Residues(a, n, p);
      var u, v := Pow(a, n - 1), Factorial(n - 1);
      assert s[..n - 1] == Residues(a, n - 1, p);
      ResiduesProduct(a, n - 1, p);
      CongMod(a * n, p);
      CongMul(ProductOf(s[..n - 1]), u * v, s[n - 1], a * n, p);
      MulSwap(u, v, a, n);
      assert (u * a) * (v * n) == (a * u) * (n * v);
    }
  }

  lemma ResiduesDistinct(a: int, p: int)
    requires Prime(p) && a % p != 0
    ensures Distinct(Residues(a, p - 1, p)) && Within(Residues(a, p - 1, p), p - 1)
  {
    var s := Residues(a, p - 1, p);
    forall i | 0 <= i < p - 1
      ensures 1 <= s[i] <= p - 1
    {
      if s[i] == 0 {
        Euclid(a, i + 1, p);
        ModUnique(i + 1, p, 0, i + 1);
      }
    }
    forall i, j | 0 <= i < j < p - 1
      ensures s[i] != s[j]
    {
      if s[i] == s[j] {
        Cancel(i + 1, j + 1, a, p);
        ModUnique(i + 1, p, 0, i + 1);
        ModUnique(j + 1, p, 0, j + 1);
      }
    }
  }

  lemma {:induction false} FactorialNonzero(n: nat, p: int)
    requires Prime(p) && n < p
    ensures Factorial(n) % p != 0
  {
    if n == 0 {
      ModUnique(1, p, 0, 1);
    } else {
      FactorialNonzero(n - 1, p);
      ModUnique(n, p, 0, n);
      if Factorial(n) % p == 0 { Euclid(n, Factorial(n - 1), p); }
    }
  }

  lemma Fermat(a: int, p: int)
    requires Prime(p) && a % p != 0
    ensures Cong(Pow(a, p - 1), 1, p)
  {
    var n := p - 1;
    ResiduesDistinct(a, p);
    ProductOfAll(Residues(a, n, p), n);
    ResiduesProduct(a, n, p);
    var f := Factorial(n);
    FactorialNonzero(n, p);
    assert Cong(f * 1, f * Pow(a, n), p) by {
      assert Pow(a, n) * f == f * Pow(a, n);
    }
    Cancel(1, Pow(a, n), f, p);
  }

  /** a^(p-2) is the inverse of a modulo a prime p. */
  lemma PowInverse(a: int, p: int)
    requires Prime(p) && a % p != 0
    ensures Cong(a * Pow(a, p - 2), 1, p)
  {
    Fermat(a, p);
  }
}

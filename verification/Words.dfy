/** 64-bit machine words: the carry and borrow primitives, the two halves of a 64x64 product, and
    the software high half that the Metal port uses because the device has none. */
module Words {
  const B64: int := 0x1_0000000000000000
  const B128: int := 0x1_0000000000000000_0000000000000000
  const B192: int := 0x1_0000000000000000_0000000000000000_0000000000000000
  const B256: int := 0x1_0000000000000000_0000000000000000_0000000000000000_0000000000000000

  type Word = x: int | 0 <= x < 0x1_0000000000000000

  function Pow2(k: nat): (r: int)
    ensures r >= 1
  {
    if k == 0 then 1 else 2 * Pow2(k - 1)
  }

  /** a + b + carry as one word and a carry out; no carry is lost, whatever the carry in. */
  method Addc(a: Word, b: Word, carry: Word) returns (s2: Word, carryOut: Word)
    ensures s2 + carryOut * B64 == a + b + carry
    ensures carry <= 1 ==> carryOut <= 1
  {
    var s: Word := (a + b) % B64;
    var c1: Word := if s < a then 1 else 0;
    s2 := (s + carry) % B64;
    var c2: Word := if s2 < s then 1 else 0;
    carryOut := c1 + c2;
  }

  /** a - b - borrow as one word and a borrow out. */
  method Subb(a: Word, b: Word, borrow: Word) returns (d2: Word, borrowOut: Word)
    ensures d2 - borrowOut * B64 == a - b - borrow
    ensures borrow <= 1 ==> borrowOut <= 1
  {
    var d: Word := (a - b) % B64;
    var b1: Word := if a < b then 1 else 0;
    d2 := (d - borrow) % B64;
    var b2: Word := if d < borrow then 1 else 0;
    borrowOut := b1 + b2;
  }

  // ---- bitwise or ----

  /** x | y on the binary digits. */
  function BitOr(x: nat, y: nat): nat
    decreases x + y
  {
    if x == 0 && y == 0 then 0
    else (if x % 2 == 1 || y % 2 == 1 then 1 else 0) + 2 * BitOr(x / 2, y / 2)
  }

  /** The 64-bit shift x << n. */
  function Shl(x: nat, n: nat): Word { (x * Pow2(n)) % B64 }

  lemma {:induction false} OrZeroLeft(y: nat)
    ensures BitOr(0, y) == y
  {
    if y > 0 { OrZeroLeft(y / 2); }
  }

  lemma OrStep(x: nat, y: nat)
    ensures BitOr(x, 2 * y) == x % 2 + 2 * BitOr(x / 2, y)
  {
    if x == 0 && y == 0 {
      assert BitOr(0, 0) == 0;
    } else {
      assert (2 * y) % 2 == 0 && (2 * y) / 2 == y;
    }
  }

  /** Bits shifted past all the bits of x never meet them, so OR-ing them in adds them. */
  lemma {:induction false} OrOfDisjointBits(x: nat, b: nat, k: nat)
    requires x < Pow2(k)
    ensures b * Pow2(k) >= 0 && BitOr(x, b * Pow2(k)) == x + b * Pow2(k)
    decreases k
  {
    hide BitOr;
    if k == 0 {
      OrZeroLeft(b);
    } else {
      OrOfDisjointBits(x / 2, b, k - 1);
      OrStep(x, b * Pow2(k - 1));
      assert b * Pow2(k) == 2 * (b * Pow2(k - 1));
    }
  }

  // ---- the double-word product ----

  lemma MulBounds(x: int, y: int, n: int, m: int)
    requires 0 <= x <= n && 0 <= y <= m
    ensures 0 <= x * y <= n * m
  {
    assert 0 <= x * y;
    assert x * y <= n * y;
    assert n * y <= n * m;
  }

  /** The exact product of two words, as a number. */
  function Product(x: int, y: int): int { x * y }

  /** The low half of a product: what the wrapping `*` gives. */
  function MulLo(a: Word, b: Word): (r: Word) {
    (a * b) % B64
  }

  /** The high half of a product: floor(a * b / 2^64). */
  function MulHi(a: Word, b: Word): (r: Word)
    ensures r * B64 + MulLo(a, b) == Product(a, b)
    ensures r <= B64 - 2
  {
    MulBounds(a, b, B64 - 1, B64 - 1);
    (a * b) / B64
  }

  const B32: int := 0x1_00000000

  lemma HalvesProduct(a0: int, a1: int, b0: int, b1: int)
    ensures (a1 * B32 + a0) * (b1 * B32 + b0)
         == (a1 * b1) * B64 + (a0 * b1 + a1 * b0) * B32 + a0 * b0
  {
    var x, y := a1 * B32, b1 * B32;
    assert (x + a0) * (y + b0) == x * y + x * b0 + a0 * y + a0 * b0;
    assert x * y == (a1 * b1) * B64;
    assert x * b0 == (a1 * b0) * B32;
    assert a0 * y == (a0 * b1) * B32;
  }

  /** The high word is pinned down by the three partial sums, none of which can overflow. */
  lemma HighWord(prod: int, ll: int, lh: int, hl: int, hh: int, mid: int, high: int)
    requires prod == hh * B64 + (lh + hl) * B32 + ll
    requires 0 <= ll <= (B32 - 1) * (B32 - 1) && 0 <= lh <= (B32 - 1) * (B32 - 1)
    requires 0 <= hl <= (B32 - 1) * (B32 - 1)
    requires mid == ll / B32 + lh % B32 + hl % B32
    requires high == hh + lh / B32 + hl / B32 + mid / B32
    ensures mid < B64
    ensures high == prod / B64
  {
    var l1, l0, x1, x0, y1, y0, m1, m0 :=
      ll / B32, ll % B32, lh / B32, lh % B32, hl / B32, hl % B32, mid / B32, mid % B32;
    assert ll == l1 * B32 + l0 && lh == x1 * B32 + x0 && hl == y1 * B32 + y0 && mid == m1 * B32 + m0;
    assert prod == high * B64 + (m0 * B32 + l0);
    assert 0 <= m0 * B32 + l0 < B64;
  }

  function Low32(x: Word): (r: Word)
    ensures r < B32
  {
    x % B32
  }

  function High32(x: Word): (r: Word)
    ensures r < B32
  {
    x / B32
  }

  /** What a 64-bit operation keeps of its exact result. */
  function Wrap(x: int): Word { x % B64 }

  lemma Halves(x: Word)
    ensures x == High32(x) * B32 + Low32(x)
  {
  }

  lemma WrapIs(x: int)
    requires 0 <= x < B64
    ensures Wrap(x) == x
  {
  }

  /** A product of halves fits 64 bits. */
  lemma HalfProduct(x: int, y: int)
    requires 0 <= x < B32 && 0 <= y < B32
    ensures 0 <= Product(x, y) <= (B32 - 1) * (B32 - 1) && Wrap(Product(x, y)) == Product(x, y)
  {
    hide Wrap;
    MulBounds(x, y, B32 - 1, B32 - 1);
    WrapIs(x * y);
  }

  /** The high half from the four half products, as numbers. */
  lemma HighFromHalves(a: Word, b: Word, ll: Word, lh: Word, hl: Word, hh: Word, mid: Word)
    requires ll == Product(Low32(a), Low32(b)) && lh == Product(Low32(a), High32(b))
    requires hl == Product(High32(a), Low32(b)) && hh == Product(High32(a), High32(b))
    requires mid == High32(ll) + Low32(lh) + Low32(hl)
    ensures hh + High32(lh) + High32(hl) + High32(mid) == MulHi(a, b)
  {
    hide Low32, High32;
    var a0, a1, b0, b1 := Low32(a), High32(a), Low32(b), High32(b);
    Halves(a); Halves(b);
    HalfProduct(a0, b0); HalfProduct(a0, b1); HalfProduct(a1, b0);
    HalvesProduct(a0, a1, b0, b1);
    HighOf(a * b, ll, lh, hl, hh, mid);
  }

  lemma HighOf(prod: int, ll: Word, lh: Word, hl: Word, hh: Word, mid: Word)
    requires prod == hh * B64 + (lh + hl) * B32 + ll
    requires ll <= (B32 - 1) * (B32 - 1) && lh <= (B32 - 1) * (B32 - 1) && hl <= (B32 - 1) * (B32 - 1)
    requires mid == High32(ll) + Low32(lh) + Low32(hl)
    ensures hh + High32(lh) + High32(hl) + High32(mid) == prod / B64
  {
    HighWord(prod, ll, lh, hl, hh, mid, hh + lh / B32 + hl / B32 + mid / B32);
  }

  /** None of the 64-bit operations of the software product wraps. */
  lemma NothingWraps(a: Word, b: Word, ll: Word, lh: Word, hl: Word, hh: Word, mid: Word)
    requires ll == Wrap(Product(Low32(a), Low32(b))) && lh == Wrap(Product(Low32(a), High32(b)))
    requires hl == Wrap(Product(High32(a), Low32(b))) && hh == Wrap(Product(High32(a), High32(b)))
    requires mid == Wrap(High32(ll) + Low32(lh) + Low32(hl))
    ensures ll == Product(Low32(a), Low32(b)) && lh == Product(Low32(a), High32(b))
    ensures hl == Product(High32(a), Low32(b)) && hh == Product(High32(a), High32(b))
    ensures mid == High32(ll) + Low32(lh) + Low32(hl)
    ensures var sum := hh + High32(lh) + High32(hl) + High32(mid); Wrap(sum) == sum == MulHi(a, b)
  {
    hide MulHi, Product, Wrap, Low32, High32;
    HalfProduct(Low32(a), Low32(b)); HalfProduct(Low32(a), High32(b));
    HalfProduct(High32(a), Low32(b)); HalfProduct(High32(a), High32(b));
    WrapIs(High32(ll) + Low32(lh) + Low32(hl));
    HighFromHalves(a, b, ll, lh, hl, hh, mid);
    WrapIs(MulHi(a, b));
  }

  /** Software 64x64 -> high 64 from four 32-bit products. Every 64-bit operation of the source wraps
      here too, so the equality also says that none of them loses a bit. */
  method MulHi64(a: Word, b: Word) returns (r: Word)
    ensures r == MulHi(a, b)
  {
    hide MulHi, Product, Low32, High32, Wrap;
    var a0, a1 := Low32(a), High32(a);
    var b0, b1 := Low32(b), High32(b);
    var ll := Wrap(Product(a0, b0));
    var lh := Wrap(Product(a0, b1));
    var hl := Wrap(Product(a1, b0));
    var hh := Wrap(Product(a1, b1));
    var mid := Wrap(High32(ll) + Low32(lh) + Low32(hl));
    NothingWraps(a, b, ll, lh, hl, hh, mid);
    r := Wrap(hh + High32(lh) + High32(hl) + High32(mid));
  }

  // ---- the high half per build ----

  /** What MULHI expands to: a device intrinsic, or the software product of the Metal kernel. */
  datatype Backend = OpenCl | Cuda | Metal

  method HighHalf(backend: Backend, a: Word, b: Word) returns (r: Word)
    ensures r == MulHi(a, b)
  {
    hide MulHi;
    if backend.Metal? {
      r := MulHi64(a, b);
    } else {
      r := MulHi(a, b);
    }
  }
}

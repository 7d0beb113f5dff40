/** Congruence of integers modulo a positive p, and the 64-bit machine word. */
module Modular {

  const W64 := 0x1_0000_0000_0000_0000

  /** uint64_t. */
  type u64 = x: int | 0 <= x < W64

  function Max(x: nat, y: nat): nat { if x >= y then x else y }

  function Min(x: nat, y: nat): nat { if x <= y then x else y }

  /** 64-bit arithmetic keeps the low 64 bits. */
  function Add64(x: int, y: int): u64 { (x + y) % W64 }

  function Sub64(x: int, y: int): u64 { (x - y) % W64 }

  function Mul64(x: int, y: int): u64 { (x * y) % W64 }

  ghost predicate Cong(a: int, b: int, p: int)
    requires p > 0
  {
    a % p == b % p
  }

  lemma MultipleIsLarge(d: int, p: int)
    requires p > 0
    ensures d >= 1 ==> d * p >= p
    ensures d <= -1 ==> d * p <= -p
  {
    if d >= 1 {
      assert (d - 1) * p >= 0;
    } else if d <= -1 {
      assert (-d - 1) * p >= 0;
    }
  }

  /** Multiplying by c >= 0 keeps an inequality. */
  lemma Scaled(c: int, a: int, b: int)
    requires c >= 0 && a <= b
    ensures c * a <= c * b
  {
    assert c * (b - a) >= 0;
    assert c * b == c * a + c * (b - a);
  }

  /** Row i of `rows` rows of the given width, stored one after another. */
  lemma BlockInside(i: nat, rows: nat, width: nat)
    requires i < rows
    ensures 0 <= i * width <= i * width + width <= rows * width && (i + 1) * width == i * width + width
  {
    Scaled(width, i + 1, rows);
  }

  lemma DivNonneg(a: int, b: int)
    requires a >= 0 && b > 0
    ensures a / b >= 0
  {
    MultipleIsLarge(a / b, b);
  }

  lemma DivMod(a: int, q: int)
    requires q >= 1
    ensures a == (a / q) * q + a % q && 0 <= a % q < q
  {
  }

  lemma CancelLe(p: int, x: int, y: int)
    requires p >= 1 && p * x <= p * y
    ensures x <= y
  {
    MultipleIsLarge(x - y, p);
    assert (x - y) * p == p * x - p * y;
  }

  lemma QuotientAtLeast(n: int, c: int, k: int)
    requires c >= 1 && k * c <= n
    ensures n / c >= k
  {
    var d := n / c + 1 - k;
    assert d * c == (n / c) * c + c - k * c;
    MultipleIsLarge(d, c);
  }

  /** Euclidean division has one answer. */
  lemma QuotientUnique(q: int, r: int, k: int, m: int, p: int)
    requires 0 <= r < p && 0 <= m < p && q * p + r == k * p + m
    ensures q == k && r == m
  {
    var d := q - k;
    assert d * p == m - r;
    MultipleIsLarge(d, p);
  }

  lemma ModMultiple(r: int, k: int, p: int)
    requires 0 <= r < p
    ensures (r + k * p) % p == r && (r + k * p) / p == k
  {
    var s := r + k * p;
    QuotientUnique(s / p, s % p, k, r, p);
  }

  lemma Intro(a: int, b: int, k: int, p: int)
    requires p > 0 && a == b + k * p
    ensures Cong(a, b, p)
  {
    var q, m := b / p, b % p;
    assert a == m + (q + k) * p by {
      assert (q + k) * p == q * p + k * p;
    }
    ModMultiple(m, q + k, p);
  }

  lemma Elim(a: int, b: int, p: int) returns (k: int)
    requires p > 0 && Cong(a, b, p)
    ensures a == b + k * p
  {
    k := a / p - b / p;
    assert (a / p - b / p) * p == (a / p) * p - (b / p) * p;
  }

  lemma ModIdempotent(x: int, p: int)
    requires p > 0
    ensures Cong(x % p, x, p)
  {
    Intro(x % p, x, -(x / p), p);
  }

  lemma CongIs(a: int, b: int, m: int)
    requires m >= 1 && Cong(a, b, m)
    ensures a % m == b % m
  {
  }

  lemma SameResidue(a: int, b: int, p: int)
    requires p > 0 && a % p == b % p
    ensures Cong(a, b, p)
  {
  }

  lemma Refl(a: int, b: int, p: int)
    requires p > 0 && a == b
    ensures Cong(a, b, p)
  {
  }

  lemma Trans(a: int, b: int, c: int, p: int)
    requires p > 0 && Cong(a, b, p) && Cong(b, c, p)
    ensures Cong(a, c, p) && Cong(b, a, p)
  {
  }

  lemma Add(a: int, a': int, b: int, b': int, p: int)
    requires p > 0 && Cong(a, a', p) && Cong(b, b', p)
    ensures Cong(a + b, a' + b', p)
  {
    var j := Elim(a, a', p);
    var k := Elim(b, b', p);
    assert (j + k) * p == j * p + k * p;
    Intro(a + b, a' + b', j + k, p);
  }

  lemma Sub(a: int, a': int, b: int, b': int, p: int)
    requires p > 0 && Cong(a, a', p) && Cong(b, b', p)
    ensures Cong(a - b, a' - b', p)
  {
    var j := Elim(a, a', p);
    var k := Elim(b, b', p);
    assert (j - k) * p == j * p - k * p;
    Intro(a - b, a' - b', j - k, p);
  }

  lemma Mul(a: int, a': int, b: int, b': int, p: int)
    requires p > 0 && Cong(a, a', p) && Cong(b, b', p)
    ensures Cong(a * b, a' * b', p)
  {
    var j := Elim(a, a', p);
    var k := Elim(b, b', p);
    var q := a' * k + j * b' + j * k * p;
    calc {
      a * b;
      (a' + j * p) * (b' + k * p);
      a' * b' + a' * (k * p) + (j * p) * b' + (j * p) * (k * p);
      { assert a' * (k * p) == (a' * k) * p; assert (j * p) * b' == (j * b') * p;
        assert (j * p) * (k * p) == (j * k * p) * p; }
      a' * b' + (a' * k) * p + (j * b') * p + (j * k * p) * p;
      a' * b' + q * p;
    }
    Intro(a * b, a' * b', q, p);
  }

  /** A factor with an inverse can be cancelled. */
  lemma Cancel(a: int, b: int, c: int, cInv: int, p: int)
    requires p > 0 && Cong(c * cInv, 1, p) && Cong(c * a, c * b, p)
    ensures Cong(a, b, p)
  {
    Mul(c * a, c * b, cInv, cInv, p);
    Mul(c * cInv, 1, a, a, p);
    Mul(c * cInv, 1, b, b, p);
    assert (c * cInv) * a == (c * a) * cInv;
    assert (c * cInv) * b == (c * b) * cInv;
  }
}

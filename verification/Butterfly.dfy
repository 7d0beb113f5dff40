/** The lazy butterflies on 64-bit words: Shoup multiplication and unreduced sums. */
module Butterfly {
  import opened Modular
  import opened Layers

  const MAX_MODULUS := 0x800_0000_0000_0000  // 2^59

  /** seal::util::MultiplyUIntModOperand: a factor with its Shoup quotient. */
  datatype Operand = Operand(operand: u64, quotient: u64) {
    predicate ValidFor(p: u64) {
      0 < p && operand < p && quotient == operand * W64 / p
    }
  }

  /** x * y mod p up to one extra p, with every intermediate truncated to 64 bits. */
  function MulmodLazy(x: u64, y: Operand, p: u64): u64 {
    var q := x * y.quotient / W64;
    Sub64(Mul64(x, y.operand), Mul64(q, p))
  }

  lemma WrapDifference(a: int, b: int)
    requires 0 <= a - b < W64
    ensures Sub64(a % W64, b % W64) == a - b
  {
    assert a % W64 - b % W64 == (a - b) + (b / W64 - a / W64) * W64;
    ModMultiple(a - b, b / W64 - a / W64, W64);
  }

  /** Shoup's trick: the result is congruent to the product and below 2p for every 64-bit x. */
  lemma ShoupBound(x: u64, y: Operand, p: u64)
    requires y.ValidFor(p) && p < MAX_MODULUS
    ensures MulmodLazy(x, y, p) < 2 * p
    ensures Cong(MulmodLazy(x, y, p), y.operand * x, p)
  {
    var q := x * y.quotient / W64;
    var d := x * y.operand - q * p;
    assert 0 <= d < 2 * p by {
      ShoupRemainder(x, y.operand, y.quotient, q, p);
    }
    WrapDifference(x * y.operand, q * p);
    Intro(d, y.operand * x, -q, p);
  }

  lemma ShoupRemainder(x: u64, y: u64, quotient: u64, q: int, p: u64)
    requires 0 < p && quotient * p <= y * W64 < quotient * p + p
    requires q * W64 <= x * quotient < q * W64 + W64
    ensures 0 <= x * y - q * p < 2 * p
  {
    var d := x * y - q * p;
    calc {
      d * W64;
      (x * y) * W64 - (q * p) * W64;
      x * (y * W64) - (q * W64) * p;
    }
    Scaled(x, quotient * p, y * W64);
    Scaled(x, y * W64, quotient * p + p - 1);
    Scaled(p, q * W64, x * quotient);
    Scaled(p, x * quotient, q * W64 + W64 - 1);
    assert x * (quotient * p) == p * (x * quotient);
    assert x * (quotient * p + p - 1) == p * (x * quotient) + x * p - x;
    assert p * (q * W64 + W64 - 1) == (q * W64) * p + p * W64 - p;
    Scaled(p, x, W64 - 1);
    assert x * p == p * x;
  }

  /** seal::util::barrett_reduce_64, taken as exact reduction. */
  function BarrettReduce(x: u64, p: u64): (r: u64)
    requires p > 0
    ensures r < p && Cong(r, x, p)
  {
    ModIdempotent(x, p);
    x % p
  }

  /** b & -(uint64_t)cond ^ b: 0 when cond holds, b otherwise. */
  function Select(b: u64, cond: bool): u64 {
    if cond then 0 else b
  }

  class SlothfulNtt {
    const p: u64
    const lp: u64  // L * p

    constructor (p: u64, l: u64)
      requires 0 < p < MAX_MODULUS
      ensures this.p == p && this.lp == Mul64(l, p)
    {
      this.p := p;
      this.lp := Mul64(l, p);
    }

    ghost predicate Valid(l: nat) {
      0 < p < MAX_MODULUS && l >= 2 && lp == l * p && 2 * lp <= W64
    }

    method ForwardLazy(a: array<u64>, x0: nat, x1: nat, w: Operand)
      requires Valid(2) && w.ValidFor(p) && x0 < x1 < a.Length
      requires a[x0] + 2 * p < W64
      modifies a
      ensures forall x | 0 <= x < a.Length && x != x0 && x != x1 :: a[x] == old(a[x])
      ensures a[x0] <= old(a[x0]) + 2 * p && a[x1] <= old(a[x0]) + 2 * p
      ensures ForwardPair(old(a[..]), a[..], x0, x1 - x0, w.operand, p)
    {
      hide MulmodLazy, Add64, Sub64, Cong;
      var u := a[x0];
      var v := MulmodLazy(a[x1], w, p);
      Refl(u, u, p);
      ForwardArithmetic(u, u, a[x1], w, p);
      a[x0] := Add64(u, v);
      a[x1] := Add64(Sub64(u, v), lp);
      assert x0 + (x1 - x0) == x1;
    }

    method ForwardLastLazy(a: array<u64>, x0: nat, x1: nat, w: Operand)
      requires Valid(2) && w.ValidFor(p) && x0 < x1 < a.Length
      modifies a
      ensures forall x | 0 <= x < a.Length && x != x0 && x != x1 :: a[x] == old(a[x])
      ensures a[x0] < 3 * p && a[x1] < 3 * p
      ensures ForwardPair(old(a[..]), a[..], x0, x1 - x0, w.operand, p)
    {
      hide MulmodLazy, Add64, Sub64, Cong, BarrettReduce;
      var u := BarrettReduce(a[x0], p);
      var v := MulmodLazy(a[x1], w, p);
      ForwardArithmetic(u, a[x0], a[x1], w, p);
      a[x0] := Add64(u, v);
      a[x1] := Add64(Sub64(u, v), lp);
      assert x0 + (x1 - x0) == x1;
    }

    method BackwardCorrLazy(a: array<u64>, x0: nat, x1: nat, w: Operand, ghost l: nat)
      requires Valid(l) && w.ValidFor(p) && x0 < x1 < a.Length
      modifies a
      ensures forall x | 0 <= x < a.Length && x != x0 && x != x1 :: a[x] == old(a[x])
      ensures a[x0] < lp && a[x1] < lp
      ensures BackwardPair(old(a[..]), a[..], x0, x1 - x0, 1, w.operand, p)
    {
      hide MulmodLazy, Add64, Sub64, Cong, BarrettReduce;
      var u := BarrettReduce(a[x0], p);
      var v := BarrettReduce(a[x1], p);
      LpAtLeast2P(l);
      BackwardArithmetic(u, a[x0], v, a[x1], l, lp, w, p);
      a[x0] := Add64(u, v);
      a[x1] := MulmodLazy(Sub64(Add64(u, lp), v), w, p);
      assert x0 + (x1 - x0) == x1;
    }

    method BackwardLazy(a: array<u64>, x0: nat, x1: nat, w: Operand, ghost l: nat)
      requires Valid(l) && w.ValidFor(p) && x0 < x1 < a.Length
      requires a[x0] < lp && a[x1] < lp
      modifies a
      ensures forall x | 0 <= x < a.Length && x != x0 && x != x1 :: a[x] == old(a[x])
      ensures a[x0] < lp && a[x1] < lp
      ensures BackwardPair(old(a[..]), a[..], x0, x1 - x0, 1, w.operand, p)
    {
      hide MulmodLazy, Add64, Sub64, Cong;
      var u := a[x0];
      var v := a[x1];
      Refl(u, u, p);
      Refl(v, v, p);
      LpAtLeast2P(l);
      BackwardArithmetic(u, u, v, v, l, lp, w, p);
      var t := Add64(u, v);
      t := Sub64(t, Select(lp, t < lp));
      a[x0] := t;
      a[x1] := MulmodLazy(Add64(Sub64(u, v), lp), w, p);
      assert x0 + (x1 - x0) == x1;
    }

    method BackwardLastLazy(a: array<u64>, x0: nat, x1: nat, invN: Operand, invNW: Operand, ghost l: nat)
      requires Valid(l) && invN.ValidFor(p) && invNW.ValidFor(p) && x0 < x1 < a.Length
      requires a[x0] < lp && a[x1] < lp
      modifies a
      ensures forall x | 0 <= x < a.Length && x != x0 && x != x1 :: a[x] == old(a[x])
      ensures a[x0] < 2 * p && a[x1] < 2 * p
      ensures BackwardPair(old(a[..]), a[..], x0, x1 - x0, invN.operand, invNW.operand, p)
    {
      hide MulmodLazy, Add64, Sub64, Cong;
      var u := a[x0];
      var v := a[x1];
      Refl(u, u, p);
      Refl(v, v, p);
      BackwardArithmetic(u, u, v, v, l, lp, invNW, p);
      var t := Add64(u, v);
      t := Sub64(t, Select(lp, t < lp));
      ScaledSum(t, u + 1 * v, invN, p);
      a[x0] := MulmodLazy(t, invN, p);
      a[x1] := MulmodLazy(Add64(Sub64(u, v), lp), invNW, p);
      assert x0 + (x1 - x0) == x1;
    }

    lemma LpAtLeast2P(l: nat)
      requires Valid(l)
      ensures 2 * p <= lp
    {
      Scaled(p, 2, l);
    }
  }

  /**
   The inverse butterfly, for inputs below L*p: the conditional subtraction keeps
   the sum below L*p, u - v + L*p does not wrap, and both are right modulo p.
   */
  lemma BackwardArithmetic(u: u64, x: int, v: u64, y: int, l: nat, lp: u64, w: Operand, p: u64)
    requires 0 < p < MAX_MODULUS && w.ValidFor(p) && l >= 2 && lp == l * p && 2 * lp <= W64
    requires u < lp && v < lp && Cong(u, x, p) && Cong(v, y, p)
    ensures var t := Add64(u, v);
      var diff := MulmodLazy(Add64(Sub64(u, v), lp), w, p);
      var c: int := w.operand;
      && t == u + v && Sub64(Add64(u, lp), v) == Add64(Sub64(u, v), lp)
      && Sub64(t, Select(lp, t < lp)) < lp && diff < 2 * p
      && Cong(t, 1 * (x + 1 * y), p)
      && Cong(Sub64(t, Select(lp, t < lp)), 1 * (x + 1 * y), p)
      && Cong(diff, c * (x + -1 * y), p)
  {
    hide MulmodLazy, Cong, Add64, Sub64, Select;
    var d: int := u - v + lp;
    LazySum(u, v);
    SubtractOnce(u + v, lp);
    LazyDifference(u, v, lp);
    AddThenSub(u, lp, v);
    ShoupBound(d, w, p);
    LazyCong(u, x, v, y, l, w.operand, p);
    Trans(MulmodLazy(d, w, p), w.operand * d, w.operand * (x + -1 * y), p);
  }

  /** t - select(lp, t < lp), for t below 2 * lp. */
  lemma SubtractOnce(t: int, lp: int)
    requires 0 <= t < 2 * lp <= W64 && 0 <= lp < W64
    ensures Sub64(t, Select(lp, t < lp)) == (if t < lp then t else t - lp)
  {
  }

  lemma AddThenSub(u: int, c: int, v: int)
    requires 0 <= u + c < W64 && 0 <= u + c - v < W64
    ensures Sub64(Add64(u, c), v) == u + c - v
  {
  }

  lemma LazyCong(u: int, x: int, v: int, y: int, l: int, c: int, p: int)
    requires p > 0 && Cong(u, x, p) && Cong(v, y, p)
    ensures Cong(u + v, 1 * (x + 1 * y), p)
    ensures Cong(u + v - l * p, 1 * (x + 1 * y), p)
    ensures Cong(c * (u - v + l * p), c * (x + -1 * y), p)
  {
    Modular.Add(u, x, v, y, p);
    Modular.Sub(u, x, v, y, p);
    Intro(u + v, u + v - l * p, l, p);
    Intro(u - v + l * p, u - v, l, p);
    Mul(c, c, u - v + l * p, x + -1 * y, p);
  }

  lemma ScaledSum(t: u64, s: int, w: Operand, p: u64)
    requires 0 < p < MAX_MODULUS && w.ValidFor(p) && Cong(t, 1 * s, p)
    ensures MulmodLazy(t, w, p) < 2 * p
    ensures Cong(MulmodLazy(t, w, p), w.operand * s, p)
  {
    ShoupBound(t, w, p);
    Mul(w.operand, w.operand, t, s, p);
  }

  /** No sum or difference of a forward butterfly wraps while u + 2p fits in a word. */
  lemma ForwardArithmetic(u: u64, x: int, y: u64, w: Operand, p: u64)
    requires 0 < p < MAX_MODULUS && w.ValidFor(p) && u + 2 * p < W64 && Cong(u, x, p)
    ensures var v := MulmodLazy(y, w, p);
      var c: int := w.operand;
      var sum, diff := Add64(u, v), Add64(Sub64(u, v), 2 * p);
      && v < 2 * p && sum == u + v && diff == u - v + 2 * p
      && Cong(sum, x + c * y, p) && Cong(diff, x + -c * y, p)
  {
    hide MulmodLazy, Add64, Sub64, Cong;
    var v := MulmodLazy(y, w, p);
    var c: int := w.operand;
    ShoupBound(y, w, p);
    LazySum(u, v);
    LazyDifference(u, v, 2 * p);
    SumAndDifference(u, x, v, c * y, 2, p);
    NegatedProduct(c, y);
  }

  lemma NegatedProduct(c: int, y: int)
    ensures -c * y == -(c * y)
  {
  }

  lemma LazySum(u: int, v: int)
    requires 0 <= u + v < W64
    ensures Add64(u, v) == u + v
  {
  }

  lemma LazyDifference(u: int, v: int, c: int)
    requires 0 <= u - v + c < W64 && 0 <= c < W64
    ensures Add64(Sub64(u, v), c) == u - v + c
  {
    assert Sub64(u, v) + c == (u - v + c) + (-((u - v) / W64)) * W64;
    ModMultiple(u - v + c, -((u - v) / W64), W64);
  }

  lemma SumAndDifference(u: int, x: int, v: int, wy: int, l: int, p: int)
    requires p > 0 && Cong(u, x, p) && Cong(v, wy, p)
    ensures Cong(u + v, x + wy, p) && Cong(u - v + l * p, x - wy, p)
  {
    Modular.Add(u, x, v, wy, p);
    Modular.Sub(u, x, v, wy, p);
    Intro(u - v + l * p, u - v, l, p);
  }
}

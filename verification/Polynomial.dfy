/** Polynomials as coefficient sequences: evaluation, and the ring Z[X]/(X^n + 1). */
module Polynomial {
  import opened Modular

  function Pow(z: int, k: nat): int {
    if k == 0 then 1 else z * Pow(z, k - 1)
  }

  lemma {:induction false} PowAdd(z: int, j: nat, k: nat)
    ensures Pow(z, j + k) == Pow(z, j) * Pow(z, k)
  {
    if j == 0 {
    } else {
      PowAdd(z, j - 1, k);
      assert z * (Pow(z, j - 1) * Pow(z, k)) == (z * Pow(z, j - 1)) * Pow(z, k);
    }
  }

  /** The value at z of the polynomial with coefficients s, lowest first. */
  function Eval(s: seq<int>, z: int): int {
    if s == [] then 0 else s[0] + z * Eval(s[1..], z)
  }

  lemma {:induction false} EvalConcat(s: seq<int>, t: seq<int>, z: int)
    ensures Eval(s + t, z) == Eval(s, z) + Pow(z, |s|) * Eval(t, z)
  {
    if s == [] {
      assert s + t == t;
    } else {
      var rest := s[1..];
      assert (s + t)[1..] == rest + t;
      EvalConcat(rest, t, z);
      assert Pow(z, |s|) == z * Pow(z, |rest|);
      Distribute(s[0], z, Eval(rest, z), Pow(z, |rest|), Eval(t, z));
    }
  }

  lemma Distribute(a: int, z: int, x: int, pw: int, y: int)
    ensures a + z * (x + pw * y) == (a + z * x) + (z * pw) * y
  {
    assert z * (x + pw * y) == z * x + z * (pw * y);
    assert z * (pw * y) == (z * pw) * y;
  }

  /** Coefficientwise congruence. */
  ghost predicate CongSeq(s: seq<int>, t: seq<int>, p: int)
    requires p > 0
  {
    |s| == |t| && forall i | 0 <= i < |s| :: Cong(s[i], t[i], p)
  }

  /** u is s + c * t, coefficient by coefficient, modulo p. */
  ghost predicate IsCombination(u: seq<int>, s: seq<int>, c: int, t: seq<int>, p: int)
    requires p > 0
  {
    |u| == |s| == |t| && forall i | 0 <= i < |u| :: Cong(u[i], s[i] + c * t[i], p)
  }

  lemma HornerCombination(a: int, b: int, c: int, z: int, x: int, y: int)
    ensures (a + c * b) + z * (x + c * y) == (a + z * x) + c * (b + z * y)
  {
    assert z * (c * y) == c * (z * y);
  }

  lemma EvalSteps(s: seq<int>, z: int)
    ensures Eval(s, z) == if s == [] then 0 else s[0] + z * Eval(s[1..], z)
  {
  }

  lemma {:induction false} EvalCombination(u: seq<int>, s: seq<int>, c: int, t: seq<int>, z: int, p: int)
    requires p > 0 && IsCombination(u, s, c, t, p)
    ensures Cong(Eval(u, z), Eval(s, z) + c * Eval(t, z), p)
  {
    hide Cong, Eval;
    EvalSteps(u, z);
    EvalSteps(s, z);
    EvalSteps(t, z);
    if u == [] {
      Refl(Eval(u, z), Eval(s, z) + c * Eval(t, z), p);
    } else {
      EvalCombination(u[1..], s[1..], c, t[1..], z, p);
      var es, et := Eval(s[1..], z), Eval(t[1..], z);
      CongHorner(u[0], s[0] + c * t[0], z, Eval(u[1..], z), es + c * et, p);
      HornerCombination(s[0], t[0], c, z, es, et);
    }
  }

  lemma CongHorner(a: int, a': int, z: int, x: int, x': int, p: int)
    requires p > 0 && Cong(a, a', p) && Cong(x, x', p)
    ensures Cong(a + z * x, a' + z * x', p)
  {
    Mul(z, z, x, x', p);
    Modular.Add(a, a', z * x, z * x', p);
  }

  lemma EvalCong(s: seq<int>, t: seq<int>, z: int, p: int)
    requires p > 0 && CongSeq(s, t, p)
    ensures Cong(Eval(s, z), Eval(t, z), p)
  {
    EvalCombination(s, t, 0, t, z, p);
  }

  // ---------------------------------------------------------------------------
  // Multiplication modulo X^n + 1

  /** The k-th coefficient of X^i * b in Z[X]/(X^n + 1), for i, k < n = |b|. */
  function Shifted(b: seq<int>, i: nat, k: nat): int
    requires i < |b| && k < |b|
  {
    if i <= k then b[k - i] else -b[|b| + k - i]
  }

  /** Sum over i < m of a[i] * (k-th coefficient of X^i * b). */
  function PartialCoeff(a: seq<int>, b: seq<int>, k: nat, m: nat): int
    requires |a| == |b| && k < |b| && m <= |a|
  {
    if m == 0 then 0 else PartialCoeff(a, b, k, m - 1) + a[m - 1] * Shifted(b, m - 1, k)
  }

  /** The product a * b in Z[X]/(X^n + 1): what wraps past X^n comes back negated. */
  function NegacyclicMul(a: seq<int>, b: seq<int>): (c: seq<int>)
    requires |a| == |b|
    ensures |c| == |a|
  {
    seq(|a|, k requires 0 <= k < |a| => PartialCoeff(a, b, k, |a|))
  }

  function ShiftedSeq(b: seq<int>, i: nat): (c: seq<int>)
    requires i < |b|
    ensures |c| == |b|
  {
    seq(|b|, k requires 0 <= k < |b| => Shifted(b, i, k))
  }

  lemma ShiftArithmetic(zi: int, w: int, lo: int, hi: int, neg: int, p: int)
    requires p > 0 && Cong(zi * w, -1, p) && Cong(neg, -hi, p)
    ensures Cong(neg + zi * lo, zi * (lo + w * hi), p)
  {
    Mul(zi * w, -1, hi, hi, p);
    Modular.Add(zi * lo, zi * lo, neg, (zi * w) * hi, p);
    assert zi * (w * hi) == (zi * w) * hi;
  }

  /** At a point with z^n = -1, multiplying by X^i multiplies the value by z^i. */
  lemma EvalShifted(b: seq<int>, i: nat, z: int, p: int)
    requires p > 0 && i < |b| && Cong(Pow(z, |b|), -1, p)
    ensures Cong(Eval(ShiftedSeq(b, i), z), Pow(z, i) * Eval(b, z), p)
  {
    var n := |b|;
    var lo, hi := b[..n - i], b[n - i..];
    var neg := seq(i, j requires 0 <= j < i => -hi[j]);
    assert ShiftedSeq(b, i) == neg + lo;
    EvalConcat(neg, lo, z);
    assert b == lo + hi;
    EvalConcat(lo, hi, z);
    EvalNegated(neg, hi, z);
    PowAdd(z, i, n - i);
    Intro(Eval(neg, z), -Eval(hi, z), 0, p);
    ShiftArithmetic(Pow(z, i), Pow(z, n - i), Eval(lo, z), Eval(hi, z), Eval(neg, z), p);
  }

  lemma {:induction false} EvalNegated(neg: seq<int>, s: seq<int>, z: int)
    requires |neg| == |s| && forall i | 0 <= i < |s| :: neg[i] == -s[i]
    ensures Eval(neg, z) == -Eval(s, z)
  {
    if s != [] {
      EvalNegated(neg[1..], s[1..], z);
      assert z * -Eval(s[1..], z) == -(z * Eval(s[1..], z));
    }
  }

  lemma {:induction false} EvalZero(i: nat, z: int)
    ensures Eval(seq(i, j => 0), z) == 0
  {
    if i > 0 {
      assert seq(i, j => 0)[1..] == seq(i - 1, j => 0);
      EvalZero(i - 1, z);
    }
  }

  /** Evaluation at a root of X^n + 1 is multiplicative on Z[X]/(X^n + 1). */
  lemma EvalNegacyclicMul(a: seq<int>, b: seq<int>, z: int, p: int)
    requires p > 0 && |a| == |b| && Cong(Pow(z, |b|), -1, p)
    ensures Cong(Eval(NegacyclicMul(a, b), z), Eval(a, z) * Eval(b, z), p)
  {
    EvalPartial(a, b, z, p, |a|);
    assert a[..|a|] == a;
    assert NegacyclicMul(a, b) == PartialSeq(a, b, |a|);
  }

  function PartialSeq(a: seq<int>, b: seq<int>, m: nat): (c: seq<int>)
    requires |a| == |b| && m <= |a|
    ensures |c| == |a|
  {
    seq(|a|, k requires 0 <= k < |a| => PartialCoeff(a, b, k, m))
  }

  lemma PartialArithmetic(ea: int, pw: int, x: int, eb: int, es: int, e: int, p: int)
    requires p > 0 && Cong(e, ea * eb, p) && Cong(es, pw * eb, p)
    ensures Cong(e + x * es, (ea + pw * x) * eb, p)
  {
    CongHorner(e, ea * eb, x, es, pw * eb, p);
    assert x * (pw * eb) == (pw * x) * eb;
  }

  lemma {:induction false} EvalPartial(a: seq<int>, b: seq<int>, z: int, p: int, m: nat)
    requires p > 0 && |a| == |b| && m <= |a| && Cong(Pow(z, |b|), -1, p)
    ensures Cong(Eval(PartialSeq(a, b, m), z), Eval(a[..m], z) * Eval(b, z), p)
  {
    if m == 0 {
      assert PartialSeq(a, b, 0) == seq(|a|, j => 0);
      EvalZero(|a|, z);
      Intro(0, 0, 0, p);
    } else {
      var x, prev, shifted := a[m - 1], PartialSeq(a, b, m - 1), ShiftedSeq(b, m - 1);
      EvalPartial(a, b, z, p, m - 1);
      forall k | 0 <= k < |a|
        ensures Cong(PartialSeq(a, b, m)[k], prev[k] + x * shifted[k], p)
      {
        Intro(PartialSeq(a, b, m)[k], prev[k] + x * shifted[k], 0, p);
      }
      EvalCombination(PartialSeq(a, b, m), prev, x, shifted, z, p);
      EvalShifted(b, m - 1, z, p);
      PartialArithmetic(Eval(a[..m - 1], z), Pow(z, m - 1), x, Eval(b, z), Eval(shifted, z), Eval(prev, z), p);
      assert a[..m] == a[..m - 1] + [x];
      EvalConcat(a[..m - 1], [x], z);
      assert Eval([x], z) == x;
      Trans(Eval(PartialSeq(a, b, m), z), Eval(prev, z) + x * Eval(shifted, z), Eval(a[..m], z) * Eval(b, z), p);
    }
  }
}

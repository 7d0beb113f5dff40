/** The fully reduced transforms, and what the pair of transforms is for. */
module Convolution {
  import opened Modular
  import opened Polynomial
  import opened Powers
  import opened Twiddle
  import opened Butterfly
  import opened Ntt
  import opened InverseNtt

  /** A conditional subtraction of c. */
  function ReduceOnce(v: u64, c: u64): u64 {
    v - (if v < c then 0 else c)
  }

  method SubtractWhereAtLeast(a: array<u64>, c: u64)
    modifies a
    ensures forall i | 0 <= i < a.Length :: a[i] == ReduceOnce(old(a[i]), c)
  {
    for i := 0 to a.Length
      invariant forall j | 0 <= j < a.Length :: a[j] == if j < i then ReduceOnce(old(a[j]), c) else old(a[j])
    {
      a[i] := ReduceOnce(a[i], c);
    }
  }

  /** ntt_forward: the values at the leaves, fully reduced. */
  method NttForward(a: array<u64>, t: Tables, ghost bound: nat)
    requires t.Valid() && a.Length == t.n && t.p < MAX_MODULUS
    requires AllBelow(a[..], 0, a.Length, bound) && bound + Growth(t.p, t.k - 1) <= W64
    modifies a
    ensures forall j | 0 <= j < a.Length :: a[j] == Values(t.root, old(a[..]))[j] % t.p
  {
    ghost var s := a[..];
    var _ := SlotfulNttLazy(a, t, bound);
    ghost var lazy := a[..];
    SubtractWhereAtLeast(a, 2 * t.p);
    SubtractWhereAtLeast(a, t.p);
    forall j | 0 <= j < a.Length
      ensures a[j] == Values(t.root, s)[j] % t.p
    {
      assert Cong(lazy[j], Values(t.root, s)[j], t.p);
      FullyReduced(lazy[j], t.p);
    }
  }

  lemma FullyReduced(v: u64, p: u64)
    requires p > 0 && v < 4 * p && 2 * p < W64
    ensures ReduceOnce(ReduceOnce(v, 2 * p), p) == v % p
    ensures v < 2 * p ==> ReduceOnce(v, p) == v % p
  {
    var r := ReduceOnce(ReduceOnce(v, 2 * p), p);
    ModMultiple(r, if v < 2 * p then (if v < p then 0 else 1) else if v < 3 * p then 2 else 3, p);
  }

  /** ntt_backward: the coefficients below p whose values at the leaves are the input. */
  method NttBackward(a: array<u64>, t: Tables)
    requires t.Valid() && a.Length == t.n && t.p < MAX_MODULUS
    modifies a
    ensures CongSeq(Values(t.root, a[..]), old(a[..]), t.p)
    ensures AllBelow(a[..], 0, a.Length, t.p)
  {
    var _ := SlotfulInttLazy(a, t);
    ghost var lazy := a[..];
    SubtractWhereAtLeast(a, t.p);
    forall j | 0 <= j < a.Length
      ensures Cong(a[j], lazy[j], t.p) && a[j] < t.p
    {
      FullyReduced(lazy[j], t.p);
      ModIdempotent(lazy[j], t.p);
    }
    ValuesCong(t.root, a[..], lazy, t.p);
  }

  lemma ValuesCong(root: seq<int>, s: seq<int>, r: seq<int>, p: int)
    requires p > 0 && CongSeq(s, r, p)
    ensures CongSeq(Values(root, s), Values(root, r), p)
  {
    forall j | 0 <= j < |root|
      ensures Cong(Values(root, s)[j], Values(root, r)[j], p)
    {
      EvalCong(s, r, Leaf(root, j), p);
    }
  }

  /** Two polynomials with the same values at the n leaves have the same coefficients. */
  lemma ValuesAreInjective(t: Tables, s: seq<int>, r: seq<int>)
    requires t.Valid() && |s| == |r| == t.n
    requires CongSeq(Values(t.root, s), Values(t.root, r), t.p)
    ensures CongSeq(s, r, t.p)
  {
    hide ForwardTable, InverseTable, Cong;
    LeftmostOfOne(t.k);
    TwoInvertible(t);
    forall v | 1 <= v < t.n
      ensures Invertible(t.root[v], t.p)
    {
      RootInvertible(t, v);
    }
    forall j | 0 <= j < t.n
      ensures Cong(Eval(s, Leaf(t.root, j)), Eval(r, Leaf(t.root, j)), t.p)
    {
      assert Cong(Values(t.root, s)[j], Values(t.root, r)[j], t.p);
    }
    ValuesDetermine(t.root, t.p, t.k, 1, 0, s, r);
  }

  lemma TwoInvertible(t: Tables)
    requires t.Valid()
    ensures Invertible(2, t.p)
  {
    var d := t.invN.operand * Pow2(t.k - 1);
    assert 2 * d == t.invN.operand * t.n;
    assert Cong(2 * d, 1, t.p);
  }

  lemma RootInvertible(t: Tables, v: nat)
    requires t.Valid() && 1 <= v < t.n
    ensures Invertible(t.root[v], t.p)
  {
    hide Cong, Tables.Valid, Operand.ValidFor, Invertible;
    TableSize(t);
    var l := Level(v, t.k);
    var r := v - Pow2(l);
    InverseTwiddle(t, l, r);
    HasInverse(t.root[v], t.inverse[t.n - 2 * Pow2(l) + 1 + r].operand, t.p);
  }

  lemma HasInverse(c: int, d: int, p: int)
    requires p > 0 && Cong(c * d, 1, p)
    ensures Invertible(c, p)
  {
  }

  /** The depth of node v. */
  lemma {:induction false} Level(v: nat, k: nat) returns (l: nat)
    requires 1 <= v < Pow2(k)
    ensures l < k && Pow2(l) <= v < 2 * Pow2(l)
  {
    if v == 1 {
      l := 0;
      assert k != 0;
    } else {
      l := Level(v / 2, k - 1);
      l := l + 1;
    }
  }

  /** Forward then inverse gives the polynomial back, modulo p. */
  lemma RoundTrip(t: Tables, x: seq<int>, fx: seq<int>, y: seq<int>)
    requires t.Valid() && |x| == |fx| == |y| == t.n
    requires CongSeq(fx, Values(t.root, x), t.p)
    requires CongSeq(Values(t.root, y), fx, t.p)
    ensures CongSeq(y, x, t.p)
  {
    ValuesAreInjective(t, y, x);
  }

  /** Transforming, multiplying index by index and transforming back multiplies modulo X^n + 1. */
  lemma ConvolutionTheorem(t: Tables, a: seq<int>, b: seq<int>,
                           fa: seq<int>, fb: seq<int>, product: seq<int>, c: seq<int>)
    requires t.Valid() && |a| == |b| == |c| == |fa| == |fb| == |product| == t.n
    requires CongSeq(fa, Values(t.root, a), t.p) && CongSeq(fb, Values(t.root, b), t.p)
    requires forall j | 0 <= j < t.n :: Cong(product[j], fa[j] * fb[j], t.p)
    requires CongSeq(Values(t.root, c), product, t.p)
    ensures CongSeq(c, NegacyclicMul(a, b), t.p)
  {
    var d := NegacyclicMul(a, b);
    forall j | 0 <= j < t.n
      ensures Cong(Values(t.root, c)[j], Values(t.root, d)[j], t.p)
    {
      var z := Leaf(t.root, j);
      RootOfMinusOne(t.root, t.p, t.k, j);
      EvalNegacyclicMul(a, b, z, t.p);
      Mul(fa[j], Eval(a, z), fb[j], Eval(b, z), t.p);
      assert Cong(Values(t.root, c)[j], product[j], t.p);
    }
    ValuesAreInjective(t, c, d);
  }
}

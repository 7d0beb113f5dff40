/**
 What one pass of butterflies does to an array that holds, block by block, the
 residues of a polynomial at the nodes of one level of the twiddle tree.
 */
module Layers {
  import opened Modular
  import opened Polynomial
  import opened Powers
  import opened Twiddle

  /** The block starting at base takes the value target[j] at every leaf j below it. */
  ghost predicate BlockHolds(root: seq<int>, p: int, block: seq<int>, target: seq<int>, base: nat)
    requires p > 0 && |target| == |root| && base + |block| <= |root|
  {
    forall j | base <= j < base + |block| :: Cong(Eval(block, Leaf(root, j)), target[j], p)
  }

  /** BlockHolds for each of the consecutive blocks of len coefficients in s[from..to]. */
  ghost predicate Blocks(root: seq<int>, p: int, s: seq<int>, target: seq<int>, from: nat, to: nat, len: nat)
    requires p > 0 && |target| == |root| == |s| && to <= |s| && len >= 1
    decreases if from < to then to - from else 0
  {
    from >= to ||
    (from + len <= to && BlockHolds(root, p, s[from..from + len], target, from) &&
     Blocks(root, p, s, target, from + len, to, len))
  }

  lemma {:induction false} BlocksFrame(
    root: seq<int>, p: int, s: seq<int>, t: seq<int>, target: seq<int>, from: nat, to: nat, len: nat)
    requires p > 0 && |target| == |root| == |s| == |t| && from <= to <= |s| && len >= 1
    requires Blocks(root, p, s, target, from, to, len) && s[from..to] == t[from..to]
    ensures Blocks(root, p, t, target, from, to, len)
    decreases if from < to then to - from else 0
  {
    if from < to {
      assert from + len <= to;
      assert s[from..from + len] == s[from..to][..len];
      assert t[from..from + len] == t[from..to][..len];
      assert s[from + len..to] == s[from..to][len..];
      assert t[from + len..to] == t[from..to][len..];
      BlocksFrame(root, p, s, t, target, from + len, to, len);
    }
  }

  lemma {:induction false} BlocksAppend(
    root: seq<int>, p: int, s: seq<int>, target: seq<int>, from: nat, to: nat, len: nat)
    requires p > 0 && |target| == |root| == |s| && from <= to && to + len <= |s| && len >= 1
    requires Blocks(root, p, s, target, from, to, len)
    requires BlockHolds(root, p, s[to..to + len], target, to)
    ensures Blocks(root, p, s, target, from, to + len, len)
    decreases if from < to then to - from else 0
  {
    if from == to {
      assert Blocks(root, p, s, target, to + len, to + len, len);
    } else {
      BlocksAppend(root, p, s, target, from + len, to, len);
    }
  }

  lemma NoBlocks(root: seq<int>, p: int, s: seq<int>, target: seq<int>, at: nat, len: nat)
    requires p > 0 && |target| == |root| == |s| && at <= |s| && len >= 1
    ensures Blocks(root, p, s, target, at, at, len)
  {
  }

  /** Blocks of one coefficient: the array holds the values themselves. */
  lemma {:induction false} SingletonBlocks(root: seq<int>, p: int, s: seq<int>, target: seq<int>, from: nat)
    requires p > 0 && |target| == |root| == |s| && from <= |s|
    ensures Blocks(root, p, s, target, from, |s|, 1) <==>
            forall j | from <= j < |s| :: Cong(s[j], target[j], p)
    decreases |s| - from
  {
    if from < |s| {
      SingletonBlocks(root, p, s, target, from + 1);
      assert Eval(s[from..from + 1], Leaf(root, from)) == s[from] by {
        assert s[from..from + 1] == [s[from]];
      }
    }
  }

  // ---------------------------------------------------------------------------
  // Forward: a block of 2h splits into its residues modulo X^h - w and X^h + w

  /** One butterfly: entries x and x + h of s became those of t. */
  ghost predicate ForwardPair(s: seq<int>, t: seq<int>, x: nat, h: nat, w: int, p: int)
    requires p > 0 && x + h < |s| && |s| == |t|
  {
    Cong(t[x], s[x] + w * s[x + h], p) && Cong(t[x + h], s[x] + -w * s[x + h], p)
  }

  /** t is s with the butterflies of twiddle w applied to the first d pairs at base. */
  ghost predicate ForwardPairs(s: seq<int>, t: seq<int>, base: nat, h: nat, d: nat, w: int, p: int)
    requires p > 0 && d <= h && base + 2 * h <= |s| && |s| == |t|
  {
    (forall x | base <= x < base + d :: ForwardPair(s, t, x, h, w, p)) && SameOutside(s, t, base, h, d)
  }

  ghost predicate SameOutside(s: seq<int>, t: seq<int>, base: nat, h: nat, d: nat)
    requires |s| == |t|
  {
    forall x | 0 <= x < |s| && !(base <= x < base + d) && !(base + h <= x < base + h + d) :: t[x] == s[x]
  }

  lemma PairEntries(s: seq<int>, t: seq<int>, x: nat, h: nat, w: int, p: int)
    requires p > 0 && x + h < |s| && |s| == |t| && ForwardPair(s, t, x, h, w, p)
    ensures Cong(t[x], s[x] + w * s[x + h], p) && Cong(t[x + h], s[x] + -w * s[x + h], p)
  {
    hide Cong;
  }

  lemma ForwardSlices(s: seq<int>, t: seq<int>, base: nat, h: nat, w: int, p: int)
    requires p > 0 && base + 2 * h <= |s| && |s| == |t|
    requires ForwardPairs(s, t, base, h, h, w, p)
    ensures IsCombination(t[base..base + h], s[base..base + h], w, s[base + h..base + 2 * h], p)
    ensures IsCombination(t[base + h..base + 2 * h], s[base..base + h], -w, s[base + h..base + 2 * h], p)
  {
    hide Cong, ForwardPair;
    var lo, hi := s[base..base + h], s[base + h..base + 2 * h];
    var lo', hi' := t[base..base + h], t[base + h..base + 2 * h];
    forall i | 0 <= i < h
      ensures Cong(lo'[i], lo[i] + w * hi[i], p) && Cong(hi'[i], lo[i] + -w * hi[i], p)
    {
      assert lo'[i] == t[base + i] && hi'[i] == t[base + h + i] && lo[i] == s[base + i] && hi[i] == s[base + i + h];
      PairEntries(s, t, base + i, h, w, p);
    }
  }

  lemma ForwardBlock(root: seq<int>, p: int, s: seq<int>, t: seq<int>, target: seq<int>, v: nat, k: nat, base: nat)
    requires p > 0 && ForwardTable(root, p) && |target| == |root| == |s| == |t|
    requires Under(|root|, v, k + 1, base) && v < |root|
    requires ForwardPairs(s, t, base, Pow2(k), Pow2(k), root[v], p)
    requires BlockHolds(root, p, s[base..base + Pow2(k + 1)], target, base)
    ensures BlockHolds(root, p, t[base..base + Pow2(k)], target, base)
    ensures BlockHolds(root, p, t[base + Pow2(k)..base + Pow2(k + 1)], target, base + Pow2(k))
  {
    hide BlockHolds, ForwardTable, ForwardPairs, IsCombination;
    UnderChildren(|root|, v, k + 1, base);
    ForwardSlices(s, t, base, Pow2(k), root[v], p);
    ForwardHalf(root, p, s, t, target, 2 * v, k, base, base, root[v]);
    ForwardHalf(root, p, s, t, target, 2 * v + 1, k, base, base + Pow2(k), -root[v]);
  }

  lemma ForwardHalf(root: seq<int>, p: int, s: seq<int>, t: seq<int>, target: seq<int>,
                    child: nat, k: nat, base: nat, start: nat, c: int)
    requires p > 0 && ForwardTable(root, p) && |target| == |root| == |s| == |t|
    requires Under(|root|, child, k, start) && child < 2 * |root| && c == NodeRoot(root, child)
    requires base + 2 * Pow2(k) <= |s| && base <= start && start + Pow2(k) <= base + 2 * Pow2(k)
    requires BlockHolds(root, p, s[base..base + 2 * Pow2(k)], target, base)
    requires IsCombination(t[start..start + Pow2(k)], s[base..base + Pow2(k)], c,
                           s[base + Pow2(k)..base + 2 * Pow2(k)], p)
    ensures BlockHolds(root, p, t[start..start + Pow2(k)], target, start)
  {
    hide Cong, Eval, Pow, ForwardTable, IsCombination, Under, Pow2, Leaf, NodeRoot;
    UnderInside(|root|, child, k, start);
    var h := Pow2(k);
    var lo, hi, part := s[base..base + h], s[base + h..base + 2 * h], t[start..start + h];
    assert s[base..base + 2 * h] == lo + hi;
    forall j | start <= j < start + h
      ensures Cong(Eval(part, Leaf(root, j)), target[j], p)
    {
      HalfValue(root, p, part, lo, hi, target[j], child, k, start, j, c);
    }
  }

  lemma HalfValue(root: seq<int>, p: int, part: seq<int>, lo: seq<int>, hi: seq<int>, y: int,
                  child: nat, k: nat, start: nat, j: nat, c: int)
    requires p > 0 && ForwardTable(root, p) && j < |root|
    requires Under(|root|, child, k, start) && child < 2 * |root| && c == NodeRoot(root, child)
    requires start <= j < start + Pow2(k) && |lo| == Pow2(k) && IsCombination(part, lo, c, hi, p)
    requires Cong(Eval(lo + hi, Leaf(root, j)), y, p)
    ensures Cong(Eval(part, Leaf(root, j)), y, p)
  {
    hide Cong, Eval, Pow, ForwardTable, IsCombination, Under, Pow2, Leaf, NodeRoot;
    var z := Leaf(root, j);
    LeafPower(root, p, k, child, start, j);
    EvalCombination(part, lo, c, hi, z, p);
    EvalConcat(lo, hi, z);
    ResidueValue(Eval(part, z), Eval(lo, z), Eval(hi, z), Pow(z, |lo|), c, y, p);
  }

  lemma ResidueValue(e: int, lo: int, hi: int, zh: int, c: int, y: int, p: int)
    requires p > 0 && Cong(e, lo + c * hi, p) && Cong(zh, c, p) && Cong(lo + zh * hi, y, p)
    ensures Cong(e, y, p)
  {
    Mul(zh, c, hi, hi, p);
    Modular.Add(lo, lo, zh * hi, c * hi, p);
  }

  // ---------------------------------------------------------------------------
  // Inverse: two blocks of h merge into the block of their parent, times 2 * c0

  ghost predicate BackwardPair(s: seq<int>, t: seq<int>, x: nat, h: nat, c0: int, c1: int, p: int)
    requires p > 0 && x + h < |s| && |s| == |t|
  {
    Cong(t[x], c0 * (s[x] + 1 * s[x + h]), p) && Cong(t[x + h], c1 * (s[x] + -1 * s[x + h]), p)
  }

  /** t is s with the inverse butterflies applied to the first d pairs at base. */
  ghost predicate BackwardPairs(s: seq<int>, t: seq<int>, base: nat, h: nat, d: nat, c0: int, c1: int, p: int)
    requires p > 0 && d <= h && base + 2 * h <= |s| && |s| == |t|
  {
    (forall x | base <= x < base + d :: BackwardPair(s, t, x, h, c0, c1, p)) && SameOutside(s, t, base, h, d)
  }

  /** Every entry of s times c. */
  function Scale(c: int, s: seq<int>): (r: seq<int>)
    ensures |r| == |s|
  {
    seq(|s|, i requires 0 <= i < |s| => c * s[i])
  }

  /** r is c * (s + sign * t), coefficient by coefficient, modulo p. */
  ghost predicate IsScaledSum(r: seq<int>, c: int, s: seq<int>, sign: int, t: seq<int>, p: int)
    requires p > 0
  {
    |r| == |s| == |t| && forall i | 0 <= i < |r| :: Cong(r[i], c * (s[i] + sign * t[i]), p)
  }

  lemma BackwardSlices(s: seq<int>, t: seq<int>, base: nat, h: nat, c0: int, c1: int, p: int)
    requires p > 0 && base + 2 * h <= |s| && |s| == |t|
    requires BackwardPairs(s, t, base, h, h, c0, c1, p)
    ensures IsScaledSum(t[base..base + h], c0, s[base..base + h], 1, s[base + h..base + 2 * h], p)
    ensures IsScaledSum(t[base + h..base + 2 * h], c1, s[base..base + h], -1, s[base + h..base + 2 * h], p)
  {
    hide Cong;
    var u, x := s[base..base + h], s[base + h..base + 2 * h];
    var lo, hi := t[base..base + h], t[base + h..base + 2 * h];
    forall i | 0 <= i < h
      ensures Cong(lo[i], c0 * (u[i] + 1 * x[i]), p) && Cong(hi[i], c1 * (u[i] + -1 * x[i]), p)
    {
      assert BackwardPair(s, t, base + i, h, c0, c1, p);
    }
  }

  lemma BackwardBlock(root: seq<int>, p: int, s: seq<int>, t: seq<int>, target: seq<int>,
                      v: nat, k: nat, base: nat, c0: int, c1: int)
    requires p > 0 && ForwardTable(root, p) && |target| == |root| == |s| == |t|
    requires Under(|root|, v, k + 1, base) && v < |root| && Cong(root[v] * c1, c0, p)
    requires base + 2 * Pow2(k) <= |s| && BackwardPairs(s, t, base, Pow2(k), Pow2(k), c0, c1, p)
    requires BlockHolds(root, p, s[base..base + Pow2(k)], target, base)
    requires BlockHolds(root, p, s[base + Pow2(k)..base + Pow2(k + 1)], target, base + Pow2(k))
    ensures BlockHolds(root, p, t[base..base + Pow2(k + 1)], Scale(2 * c0, target), base)
  {
    hide Cong, Eval, Pow, ForwardTable, BackwardPairs, IsScaledSum, Under;
    var h := Pow2(k);
    var u, x := s[base..base + h], s[base + h..base + 2 * h];
    var lo, hi := t[base..base + h], t[base + h..base + 2 * h];
    BackwardSlices(s, t, base, h, c0, c1, p);
    assert t[base..base + 2 * h] == lo + hi;
    forall j | base <= j < base + 2 * h
      ensures Cong(Eval(lo + hi, Leaf(root, j)), Scale(2 * c0, target)[j], p)
    {
      BackwardLeaf(root, p, lo, hi, u, x, target, v, k, base, c0, c1, j);
    }
  }

  lemma BackwardLeaf(root: seq<int>, p: int, lo: seq<int>, hi: seq<int>, u: seq<int>, x: seq<int>, target: seq<int>,
                     v: nat, k: nat, base: nat, c0: int, c1: int, j: nat)
    requires p > 0 && ForwardTable(root, p) && |target| == |root| && |lo| == |hi| == |u| == |x| == Pow2(k)
    requires Under(|root|, v, k + 1, base) && v < |root| && Cong(root[v] * c1, c0, p)
    requires IsScaledSum(lo, c0, u, 1, x, p) && IsScaledSum(hi, c1, u, -1, x, p)
    requires BlockHolds(root, p, u, target, base) && BlockHolds(root, p, x, target, base + Pow2(k))
    requires base <= j < base + 2 * Pow2(k)
    ensures Cong(Eval(lo + hi, Leaf(root, j)), 2 * c0 * target[j], p)
  {
    hide Cong, Eval, Pow, ForwardTable, IsScaledSum, NodeRoot;
    var z := Leaf(root, j);
    ChildRoots(root, v);
    UnderChildren(|root|, v, k + 1, base);
    if j < base + Pow2(k) {
      LeafPower(root, p, k, 2 * v, base, j);
      MergedValue(lo, hi, u, x, z, root[v], c0, c1, 1, target[j], p);
    } else {
      LeafPower(root, p, k, 2 * v + 1, base + Pow2(k), j);
      MergedValue(lo, hi, u, x, z, root[v], c0, c1, -1, target[j], p);
    }
  }

  lemma MergedValue(lo: seq<int>, hi: seq<int>, u: seq<int>, x: seq<int>, z: int,
                    w: int, c0: int, c1: int, sign: int, y: int, p: int)
    requires p > 0 && |lo| == |hi| == |u| == |x| && Cong(w * c1, c0, p) && (sign == 1 || sign == -1)
    requires IsScaledSum(lo, c0, u, 1, x, p) && IsScaledSum(hi, c1, u, -1, x, p)
    requires Cong(Pow(z, |lo|), if sign == 1 then w else -w, p)
    requires Cong(Eval(if sign == 1 then u else x, z), y, p)
    ensures Cong(Eval(lo + hi, z), 2 * c0 * y, p)
  {
    hide Cong, Eval, Pow, IsScaledSum;
    EvalConcat(lo, hi, z);
    EvalScaledSum(lo, c0, u, 1, x, z, p);
    EvalScaledSum(hi, c1, u, -1, x, z, p);
    var zh := Pow(z, |lo|);
    if sign == 1 {
      MergeLeft(zh, w, c0, c1, Eval(lo, z), Eval(hi, z), Eval(u, z), Eval(x, z), y, p);
    } else {
      MergeRight(zh, w, c0, c1, Eval(lo, z), Eval(hi, z), Eval(u, z), Eval(x, z), y, p);
    }
  }

  function SignedSum(s: seq<int>, sign: int, t: seq<int>): (d: seq<int>)
    requires |s| == |t|
    ensures |d| == |s|
  {
    seq(|s|, i requires 0 <= i < |s| => s[i] + sign * t[i])
  }

  lemma SignedSumIsCombination(r: seq<int>, c: int, s: seq<int>, sign: int, t: seq<int>, p: int)
    requires p > 0 && IsScaledSum(r, c, s, sign, t, p)
    ensures IsCombination(SignedSum(s, sign, t), s, sign, t, p)
    ensures IsCombination(r, seq(|s|, i => 0), c, SignedSum(s, sign, t), p)
  {
    hide Cong;
    var d := SignedSum(s, sign, t);
    forall i | 0 <= i < |s|
      ensures Cong(d[i], s[i] + sign * t[i], p) && Cong(r[i], 0 + c * d[i], p)
    {
      Refl(d[i], s[i] + sign * t[i], p);
      assert d[i] == s[i] + sign * t[i];
    }
  }

  lemma EvalScaledSum(r: seq<int>, c: int, s: seq<int>, sign: int, t: seq<int>, z: int, p: int)
    requires p > 0 && |r| == |s| == |t| && IsScaledSum(r, c, s, sign, t, p)
    ensures Cong(Eval(r, z), c * (Eval(s, z) + sign * Eval(t, z)), p)
  {
    hide Cong, Eval, IsCombination, IsScaledSum;
    SignedSumIsCombination(r, c, s, sign, t, p);
    var d := SignedSum(s, sign, t);
    EvalCombination(d, s, sign, t, z, p);
    EvalCombination(r, seq(|s|, i => 0), c, d, z, p);
    EvalZero(|s|, z);
    ScaleCong(Eval(r, z), c, Eval(d, z), Eval(s, z) + sign * Eval(t, z), p);
  }

  lemma ScaleCong(a: int, c: int, d: int, e: int, p: int)
    requires p > 0 && Cong(a, 0 + c * d, p) && Cong(d, e, p)
    ensures Cong(a, c * e, p)
  {
    Mul(c, c, d, e, p);
  }

  lemma MergeLeft(zh: int, w: int, c0: int, c1: int, lo: int, hi: int, u: int, x: int, y: int, p: int)
    requires p > 0 && Cong(zh, w, p) && Cong(w * c1, c0, p) && Cong(u, y, p)
    requires Cong(lo, c0 * (u + 1 * x), p) && Cong(hi, c1 * (u + -1 * x), p)
    ensures Cong(lo + zh * hi, 2 * c0 * y, p)
  {
    Mul(zh, w, hi, c1 * (u + -1 * x), p);
    Mul(w * c1, c0, u - x, u - x, p);
    assert w * (c1 * (u + -1 * x)) == (w * c1) * (u - x);
    Modular.Add(lo, c0 * (u + 1 * x), zh * hi, c0 * (u - x), p);
    assert c0 * (u + 1 * x) + c0 * (u - x) == 2 * c0 * u;
    Mul(2 * c0, 2 * c0, u, y, p);
  }

  lemma MergeRight(zh: int, w: int, c0: int, c1: int, lo: int, hi: int, u: int, x: int, y: int, p: int)
    requires p > 0 && Cong(zh, -w, p) && Cong(w * c1, c0, p) && Cong(x, y, p)
    requires Cong(lo, c0 * (u + 1 * x), p) && Cong(hi, c1 * (u + -1 * x), p)
    ensures Cong(lo + zh * hi, 2 * c0 * y, p)
  {
    Mul(zh, -w, hi, c1 * (u + -1 * x), p);
    Mul(w * c1, c0, x - u, x - u, p);
    assert -w * (c1 * (u + -1 * x)) == (w * c1) * (x - u);
    Modular.Add(lo, c0 * (u + 1 * x), zh * hi, c0 * (x - u), p);
    assert c0 * (u + 1 * x) + c0 * (x - u) == 2 * c0 * x;
    Mul(2 * c0, 2 * c0, x, y, p);
  }
}

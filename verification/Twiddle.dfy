/**
 The twiddle tree of the negacyclic transform. Node 1 stands for X^n + 1; a node
 v over blocks of 2h coefficients stands for X^(2h) - NodeRoot(v), which splits
 into X^h - root[v] (node 2v) and X^h + root[v] (node 2v + 1). The leaves are the
 nodes n .. 2n - 1, and leaf n + j is the point whose value lands at index j.
 */
module Twiddle {
  import opened Modular
  import opened Polynomial
  import opened Powers

  /** The constant c for which node v stands for X^len - c. */
  function NodeRoot(root: seq<int>, v: nat): int
    requires 1 <= v < 2 * |root|
  {
    if v == 1 then -1 else if v % 2 == 0 then root[v / 2] else -root[v / 2]
  }

  lemma ChildRoots(root: seq<int>, v: nat)
    requires 1 <= v < |root|
    ensures NodeRoot(root, 2 * v) == root[v] && NodeRoot(root, 2 * v + 1) == -root[v]
  {
  }

  /** The point evaluated into index j of a transformed array. */
  function Leaf(root: seq<int>, j: nat): int
    requires j < |root|
  {
    NodeRoot(root, |root| + j)
  }

  /** root[1]^2 = -1, root[2i]^2 = root[i], root[2i+1]^2 = -root[i]. */
  ghost predicate ForwardTable(root: seq<int>, p: int)
    requires p > 0
  {
    forall v | 1 <= v < |root| :: Cong(root[v] * root[v], NodeRoot(root, v), p)
  }

  /** inv holds the inverses of root in the order the inverse transform walks them. */
  ghost predicate InverseTable(root: seq<int>, inv: seq<int>, k: nat, p: int)
    requires p > 0
  {
    |root| == |inv| == Pow2(k) &&
    forall l, r | 0 <= l < k && 0 <= r < Pow2(l) ::
      InversePair(root, inv, Pow2(l), r, p)
  }

  /** In the layer of m groups, group r uses entry n - 2m + 1 + r of the inverse table. */
  ghost predicate InversePair(root: seq<int>, inv: seq<int>, m: int, r: int, p: int)
    requires p > 0
  {
    0 <= m + r < |root| && 0 <= |root| - 2 * m + 1 + r < |inv| &&
    Cong(root[m + r] * inv[|root| - 2 * m + 1 + r], 1, p)
  }

  /** The leftmost node k levels below v. */
  ghost function Leftmost(v: nat, k: nat): nat
    decreases k
  {
    if k == 0 then v else Leftmost(2 * v, k - 1)
  }

  lemma {:induction false} LeftmostNext(v: nat, k: nat)
    ensures Leftmost(v + 1, k) == Leftmost(v, k) + Pow2(k)
    ensures Leftmost(v, k) >= v
    decreases k
  {
    if k > 0 {
      LeftmostNext(2 * v, k - 1);
      LeftmostNext(2 * v + 1, k - 1);
    }
  }

  lemma {:induction false} LeftmostMonotone(u: nat, v: nat, k: nat)
    requires u <= v
    ensures Leftmost(u, k) <= Leftmost(v, k)
    ensures Leftmost(2 * v, k) == 2 * Leftmost(v, k)
    decreases k
  {
    if k > 0 {
      LeftmostMonotone(2 * u, 2 * v, k - 1);
    }
  }

  /**
   The leaves below node v, 2^k of them, are those of the block starting at base:
   node v is the one that block of 2^k coefficients belongs to.
   */
  ghost predicate Under(n: int, v: nat, k: nat, base: int) {
    v >= 1 && 0 <= base && base + Pow2(k) <= n && Leftmost(v, k) == n + base
  }

  /** The two halves of a block are the blocks of the two children. */
  lemma UnderChildren(n: int, v: nat, k: nat, base: int)
    requires k >= 1 && Under(n, v, k, base)
    ensures Under(n, 2 * v, k - 1, base) && Under(n, 2 * v + 1, k - 1, base + Pow2(k - 1))
    ensures v < n
  {
    LeftmostNext(2 * v, k - 1);
  }

  /** In the layer whose first node is m, group r at base belongs to node m + r. */
  lemma LayerNode(n: nat, m: nat, r: nat, k: nat, base: nat)
    requires m >= 1 && r < m && Leftmost(m, k + 1) == n && Leftmost(m + r, k + 1) == n + base
    ensures Under(n, m + r, k + 1, base) && m + r < n && base + Pow2(k + 1) <= n
    ensures Leftmost(m + r + 1, k + 1) == n + base + Pow2(k + 1)
  {
    LeftmostNext(m + r, k + 1);
    LeftmostMonotone(m + r + 1, 2 * m, k + 1);
    LeftmostMonotone(m, m, k + 1);
    UnderChildren(n, m + r, k + 1, base);
  }

  /** Every leaf under a node satisfies the node's equation z^len = NodeRoot(v). */
  lemma {:induction false} LeafPower(root: seq<int>, p: int, k: nat, v: nat, base: nat, j: nat)
    requires p > 0 && ForwardTable(root, p)
    requires Under(|root|, v, k, base) && base <= j < base + Pow2(k)
    requires v < 2 * |root|
    ensures Cong(Pow(Leaf(root, j), Pow2(k)), NodeRoot(root, v), p)
  {
    hide ForwardTable, Cong, Pow, Under, Leaf, NodeRoot;
    UnderInside(|root|, v, k, base);
    var z := Leaf(root, j);
    if k == 0 {
      PowOne(z, p);
      LeafItself(root, v, base);
    } else {
      UnderChildren(|root|, v, k, base);
      if j < base + Pow2(k - 1) {
        LeafPower(root, p, k - 1, 2 * v, base, j);
        ParentPower(root, p, Pow2(k - 1), 2 * v, z);
      } else {
        LeafPower(root, p, k - 1, 2 * v + 1, base + Pow2(k - 1), j);
        ParentPower(root, p, Pow2(k - 1), 2 * v + 1, z);
      }
    }
  }

  lemma UnderInside(n: int, v: nat, k: nat, base: int)
    requires Under(n, v, k, base)
    ensures 1 <= v && 0 <= base && base + Pow2(k) <= n
  {
  }

  lemma LeafItself(root: seq<int>, v: nat, base: nat)
    requires Under(|root|, v, 0, base) && v < 2 * |root|
    ensures Leaf(root, base) == NodeRoot(root, v) && Pow2(0) == 1
  {
  }

  lemma PowOne(z: int, p: int)
    requires p > 0
    ensures Cong(Pow(z, 1), z, p)
  {
    assert Pow(z, 1) == z * Pow(z, 0);
  }

  lemma ParentPower(root: seq<int>, p: int, h: nat, child: nat, z: int)
    requires p > 0 && ForwardTable(root, p) && 2 <= child < 2 * |root|
    requires Cong(Pow(z, h), NodeRoot(root, child), p)
    ensures Cong(Pow(z, 2 * h), NodeRoot(root, child / 2), p)
  {
    PowAdd(z, h, h);
    var v := child / 2;
    assert Cong(root[v] * root[v], NodeRoot(root, v), p);
    SquareStep(Pow(z, h), NodeRoot(root, child), root[v], NodeRoot(root, v), p);
  }

  lemma SquareStep(zh: int, c: int, w: int, d: int, p: int)
    requires p > 0 && Cong(zh, c, p) && (c == w || c == -w) && Cong(w * w, d, p)
    ensures Cong(zh * zh, d, p)
  {
    Mul(zh, c, zh, c, p);
    assert c * c == w * w;
  }

  lemma {:induction false} LeftmostOfPow2(e: nat, k: nat)
    ensures Leftmost(Pow2(e), k) == Pow2(e + k)
    decreases k
  {
    if k > 0 {
      LeftmostOfPow2(e + 1, k - 1);
    }
  }

  lemma LeftmostOfOne(k: nat)
    ensures Leftmost(1, k) == Pow2(k)
  {
    LeftmostOfPow2(0, k);
  }

  lemma RootOfMinusOne(root: seq<int>, p: int, k: nat, j: nat)
    requires p > 0 && ForwardTable(root, p) && |root| == Pow2(k) && j < |root|
    ensures Cong(Pow(Leaf(root, j), |root|), -1, p)
  {
    LeftmostOfOne(k);
    LeafPower(root, p, k, 1, 0, j);
  }

  /** Twiddles under a node and the number 2 have inverses. */
  ghost predicate Invertible(c: int, p: int)
    requires p > 0
  {
    exists d :: Cong(c * d, 1, p)
  }

  /** A block is determined, modulo p, by its values at the leaves below its node. */
  lemma {:induction false} ValuesDetermine(
    root: seq<int>, p: int, k: nat, v: nat, base: nat, s: seq<int>, t: seq<int>)
    requires p > 0 && ForwardTable(root, p) && Invertible(2, p)
    requires forall u | 1 <= u < |root| :: Invertible(root[u], p)
    requires Under(|root|, v, k, base) && v < 2 * |root|
    requires |s| == |t| == Pow2(k)
    requires forall j | base <= j < base + Pow2(k) ::
      Cong(Eval(s, Leaf(root, j)), Eval(t, Leaf(root, j)), p)
    ensures CongSeq(s, t, p)
  {
    hide ForwardTable, Invertible;
    if k == 0 {
      var z := Leaf(root, base);
      assert Eval(s, z) == s[0] && Eval(t, z) == t[0] by {
        assert s[1..] == [] && t[1..] == [];
      }
    } else {
      var h := Pow2(k - 1);
      UnderChildren(|root|, v, k, base);
      var w := root[v];
      ChildValues(root, p, k - 1, 2 * v, base, s, t, w);
      ChildValues(root, p, k - 1, 2 * v + 1, base + h, s, t, -w);
      ValuesDetermine(root, p, k - 1, 2 * v, base, Folded(s, h, w), Folded(t, h, w));
      ValuesDetermine(root, p, k - 1, 2 * v + 1, base + h, Folded(s, h, -w), Folded(t, h, -w));
      assert Invertible(w, p);
      UnfoldSeq(s, t, h, w, p);
    }
  }

  lemma ChildValues(root: seq<int>, p: int, k: nat, v: nat, base: nat, s: seq<int>, t: seq<int>, c: int)
    requires p > 0 && ForwardTable(root, p)
    requires Under(|root|, v, k, base) && v < 2 * |root| && c == NodeRoot(root, v)
    requires |s| == |t| == 2 * Pow2(k)
    requires forall j | base <= j < base + Pow2(k) ::
      Cong(Eval(s, Leaf(root, j)), Eval(t, Leaf(root, j)), p)
    ensures forall j | base <= j < base + Pow2(k) ::
      Cong(Eval(Folded(s, Pow2(k), c), Leaf(root, j)), Eval(Folded(t, Pow2(k), c), Leaf(root, j)), p)
  {
    forall j | base <= j < base + Pow2(k)
      ensures Cong(Eval(Folded(s, Pow2(k), c), Leaf(root, j)), Eval(Folded(t, Pow2(k), c), Leaf(root, j)), p)
    {
      LeafPower(root, p, k, v, base, j);
      EvalFolded(s, Pow2(k), c, Leaf(root, j), p);
      EvalFolded(t, Pow2(k), c, Leaf(root, j), p);
    }
  }

  lemma UnfoldSeq(s: seq<int>, t: seq<int>, h: nat, w: int, p: int)
    requires p > 0 && Invertible(2, p) && Invertible(w, p) && |s| == |t| == 2 * h
    requires CongSeq(Folded(s, h, w), Folded(t, h, w), p)
    requires CongSeq(Folded(s, h, -w), Folded(t, h, -w), p)
    ensures CongSeq(s, t, p)
  {
    forall i | 0 <= i < |s|
      ensures Cong(s[i], t[i], p)
    {
      var j := if i < h then i else i - h;
      assert Cong(Folded(s, h, w)[j], Folded(t, h, w)[j], p);
      assert Cong(Folded(s, h, -w)[j], Folded(t, h, -w)[j], p);
      Unfold(s[j], s[h + j], t[j], t[h + j], w, p);
    }
  }

  /** The block s reduced modulo X^h - c: low half plus c times high half. */
  function Folded(s: seq<int>, h: nat, c: int): (r: seq<int>)
    requires |s| == 2 * h
    ensures |r| == h
  {
    seq(h, i requires 0 <= i < h => s[i] + c * s[h + i])
  }

  lemma EvalFolded(s: seq<int>, h: nat, c: int, z: int, p: int)
    requires p > 0 && |s| == 2 * h && Cong(Pow(z, h), c, p)
    ensures Cong(Eval(s, z), Eval(Folded(s, h, c), z), p)
  {
    assert s == s[..h] + s[h..];
    EvalConcat(s[..h], s[h..], z);
    EvalCombination(Folded(s, h, c), s[..h], c, s[h..], z, p);
    Mul(Pow(z, h), c, Eval(s[h..], z), Eval(s[h..], z), p);
    Modular.Add(Eval(s[..h], z), Eval(s[..h], z), Pow(z, h) * Eval(s[h..], z), c * Eval(s[h..], z), p);
  }

  lemma Unfold(a: int, b: int, a': int, b': int, w: int, p: int)
    requires p > 0 && Invertible(2, p) && Invertible(w, p)
    requires Cong(a + w * b, a' + w * b', p) && Cong(a + (-w) * b, a' + (-w) * b', p)
    ensures Cong(a, a', p) && Cong(b, b', p)
  {
    var half :| Cong(2 * half, 1, p);
    var wInv :| Cong(w * wInv, 1, p);
    Modular.Add(a + w * b, a' + w * b', a + (-w) * b, a' + (-w) * b', p);
    Cancel(a, a', 2, half, p);
    Modular.Sub(a + w * b, a' + w * b', a, a', p);
    Cancel(b, b', w, wInv, p);
  }
}

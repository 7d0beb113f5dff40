/**
 The lazy negacyclic transforms of slotful_ntt.cc, in place on an array of 64-bit
 words. Inner loops that slotful_ntt.cc unrolls by four make one step per butterfly.
 */
module Ntt {
  import opened Modular
  import opened Polynomial
  import opened Powers
  import opened Twiddle
  import opened Layers
  import opened Butterfly

  datatype Status = Done | SizeMismatch | ModulusTooLarge

  /** The operands of a table of twiddle factors. */
  function Factors(ws: seq<Operand>): (r: seq<int>)
    ensures |r| == |ws|
  {
    seq(|ws|, i requires 0 <= i < |ws| => ws[i].operand)
  }

  /** seal::util::NTTTables: the twiddles with their Shoup quotients, and 1/n. */
  datatype Tables = Tables(k: nat, p: u64, forward: seq<Operand>, inverse: seq<Operand>, invN: Operand) {
    const n := Pow2(k)
    const root := Factors(forward)
    const inv := Factors(inverse)

    /** What SEAL promises of a table for degree n = 2^k, k >= 3, and modulus p. */
    ghost predicate Valid() {
      && k >= 3 && p > 0 && |forward| == |inverse| == n
      && (forall v | 0 <= v < n :: forward[v].ValidFor(p) && inverse[v].ValidFor(p))
      && invN.ValidFor(p)
      && ForwardTable(root, p) && InverseTable(root, inv, k, p)
      && Cong(invN.operand * n, 1, p)
    }
  }

  ghost predicate AllBelow(s: seq<int>, from: nat, to: nat, bound: int)
    requires to <= |s|
  {
    forall x | from <= x < to :: s[x] < bound
  }

  // ---------------------------------------------------------------------------
  // Forward transform

  /** A butterfly's result stays one while its entries stay put, before it or after it. */
  lemma PairMoves(s: seq<int>, before: seq<int>, after: seq<int>, x: nat, h: nat, w: int, p: int)
    requires p > 0 && |s| == |before| == |after| && x + h < |s|
    requires
      || (ForwardPair(s, before, x, h, w, p) && after[x] == before[x] && after[x + h] == before[x + h])
      || (ForwardPair(before, after, x, h, w, p) && before[x] == s[x] && before[x + h] == s[x + h])
    ensures ForwardPair(s, after, x, h, w, p)
  {
    hide Cong;
  }

  method ForwardGroup(a: array<u64>, ntt: SlothfulNtt, base: nat, h: nat, w: Operand, last: bool, ghost bound: nat)
    requires ntt.Valid(2) && w.ValidFor(ntt.p) && h >= 1 && base + 2 * h <= a.Length
    requires AllBelow(a[..], base, base + 2 * h, bound) && (last || bound + 2 * ntt.p <= W64)
    modifies a
    ensures ForwardPairs(old(a[..]), a[..], base, h, h, w.operand, ntt.p)
    ensures AllBelow(a[..], base, base + 2 * h, if last then 3 * ntt.p else bound + 2 * ntt.p)
  {
    hide Cong, Operand.ValidFor, ForwardPair;
    ghost var s := a[..];
    ghost var out := if last then 3 * ntt.p else bound + 2 * ntt.p;
    var x0, x1 := base, base + h;
    var i := 0;
    while i < h
      invariant 0 <= i <= h && x0 == base + i && x1 == base + h + i
      invariant ForwardPairs(s, a[..], base, h, i, w.operand, ntt.p)
      invariant AllBelow(a[..], base, base + i, out) && AllBelow(a[..], base + h, base + h + i, out)
    {
      ghost var before := a[..];
      if last {
        ntt.ForwardLastLazy(a, x0, x1, w);
      } else {
        ntt.ForwardLazy(a, x0, x1, w);
      }
      forall x | base <= x < base + i + 1
        ensures ForwardPair(s, a[..], x, h, w.operand, ntt.p)
      {
        if x < base + i {
          assert ForwardPair(s, before, x, h, w.operand, ntt.p);
        }
        PairMoves(s, before, a[..], x, h, w.operand, ntt.p);
      }
      i, x0, x1 := i + 1, x0 + 1, x1 + 1;
    }
  }

  /** Group r of a layer: the blocks done so far, the block at base split, the rest untouched. */
  lemma ForwardStep(t: Tables, s0: seq<int>, s1: seq<int>, target: seq<int>, v: nat, k: nat, base: nat)
    requires t.Valid() && v < t.n && |target| == |s0| == |s1| == t.n
    requires Under(t.n, v, k + 1, base)
    requires ForwardPairs(s0, s1, base, Pow2(k), Pow2(k), t.root[v], t.p)
    requires Blocks(t.root, t.p, s0, target, 0, base, Pow2(k))
    requires Blocks(t.root, t.p, s0, target, base, t.n, Pow2(k + 1))
    ensures Blocks(t.root, t.p, s1, target, 0, base + Pow2(k + 1), Pow2(k))
    ensures Blocks(t.root, t.p, s1, target, base + Pow2(k + 1), t.n, Pow2(k + 1))
  {
    hide Cong, ForwardTable, InverseTable, ForwardPair, BlockHolds;
    var h := Pow2(k);
    ForwardBlock(t.root, t.p, s0, s1, target, v, k, base);
    assert s0[..base] == s1[..base];
    BlocksFrame(t.root, t.p, s0, s1, target, 0, base, h);
    assert s0[base + 2 * h..] == s1[base + 2 * h..];
    BlocksFrame(t.root, t.p, s0, s1, target, base + 2 * h, t.n, 2 * h);
    BlocksAppend(t.root, t.p, s1, target, 0, base, h);
    BlocksAppend(t.root, t.p, s1, target, 0, base + h, h);
  }

  lemma TableSize(t: Tables)
    requires t.Valid()
    ensures t.p > 0 && |t.root| == |t.inv| == |t.forward| == |t.inverse| == t.n
  {
  }

  lemma PartBelow(s: seq<int>, from: nat, to: nat, end: nat, bound: int)
    requires from <= to <= end <= |s| && AllBelow(s, from, end, bound)
    ensures AllBelow(s, from, to, bound)
  {
  }

  lemma NoneBelow(s: seq<int>, at: nat, bound: int)
    requires at <= |s|
    ensures AllBelow(s, at, at, bound)
  {
  }

  /** A group leaves the bounds of the rest of the layer alone. */
  lemma LayerBounds(s: seq<int>, t: seq<int>, base: nat, h: nat, n: nat, done: int, todo: int)
    requires base + 2 * h <= n <= |s| == |t| && SameOutside(s, t, base, h, h)
    requires AllBelow(s, 0, base, done) && AllBelow(t, base, base + 2 * h, done)
    ensures AllBelow(t, 0, base + 2 * h, done)
    ensures AllBelow(s, base, n, todo) ==> AllBelow(t, base + 2 * h, n, todo)
  {
  }

  lemma PairsOutside(s: seq<int>, t: seq<int>, base: nat, h: nat, w: int, p: int)
    requires p > 0 && base + 2 * h <= |s| && |s| == |t| && ForwardPairs(s, t, base, h, h, w, p)
    ensures SameOutside(s, t, base, h, h)
  {
  }

  lemma ForwardTwiddle(t: Tables, w: nat)
    requires t.Valid() && w < t.n
    ensures |t.forward| == |t.root| == t.n && t.forward[w].ValidFor(t.p) && t.forward[w].operand == t.root[w]
  {
  }

  /** What e layers of unreduced sums can add to a coefficient: 2p each. */
  ghost function Growth(p: nat, e: nat): nat {
    if e == 0 then 0 else Growth(p, e - 1) + 2 * p
  }

  /** From one layer to the next: twice the groups, half the distance, 2p more. */
  lemma NextLayer(m: nat, h: nat, e: nat, p: nat)
    requires e >= 1 && h == Pow2(e)
    ensures h / 2 == Pow2(e - 1) && 2 * (h / 2) == h >= 2 && (h > 2 <==> e >= 2) && Pow2(0) == 1
    ensures Leftmost(m, e + 1) == Leftmost(m * 2, e)
    ensures Growth(p, e) == Growth(p, e - 1) + 2 * p
  {
    assert m * 2 == 2 * m;
  }

  method ForwardLayer(a: array<u64>, ntt: SlothfulNtt, t: Tables, m: nat, h: nat, w0: nat, last: bool,
                      ghost k: nat, ghost target: seq<int>, ghost bound: nat)
    returns (w: nat)
    requires t.Valid() && ntt.Valid(2) && ntt.p == t.p && a.Length == t.n == |target|
    requires m >= 1 && h == Pow2(k) && Leftmost(m, k + 1) == t.n && w0 == m
    requires Blocks(t.root, t.p, a[..], target, 0, t.n, 2 * h)
    requires AllBelow(a[..], 0, t.n, bound) && (last || bound + 2 * t.p <= W64)
    modifies a
    ensures w == 2 * m
    ensures Blocks(t.root, t.p, a[..], target, 0, t.n, h)
    ensures AllBelow(a[..], 0, t.n, if last then 3 * t.p else bound + 2 * t.p)
  {
    hide Cong, ForwardTable, InverseTable, ForwardPairs, Blocks, Under, BlockHolds, AllBelow, Tables.Valid,
      SameOutside, Operand.ValidFor, Leftmost, SlothfulNtt.Valid;
    ghost var out := if last then 3 * t.p else bound + 2 * t.p;
    TableSize(t);
    NoneBelow(a[..], 0, out);
    w := w0;
    var base := 0;
    var r := 0;
    LeftmostMonotone(m, m, k + 1);
    NoBlocks(t.root, t.p, a[..], target, 0, h);
    while r < m
      invariant 0 <= r <= m && w == m + r && Leftmost(w, k + 1) == t.n + base
      invariant 0 <= base <= t.n
      invariant Blocks(t.root, t.p, a[..], target, 0, base, h)
      invariant Blocks(t.root, t.p, a[..], target, base, t.n, 2 * h)
      invariant AllBelow(a[..], 0, base, out) && AllBelow(a[..], base, t.n, bound)
    {
      LayerNode(t.n, m, r, k, base);
      NextLayer(m, Pow2(k + 1), k + 1, t.p);
      ForwardTwiddle(t, w);
      PartBelow(a[..], base, base + 2 * h, t.n, bound);
      ghost var before := a[..];
      ForwardGroup(a, ntt, base, h, t.forward[w], last, bound);
      PairsOutside(before, a[..], base, h, t.root[w], t.p);
      LayerBounds(before, a[..], base, h, t.n, out, bound);
      ForwardStep(t, before, a[..], target, w, k, base);
      base := base + 2 * h;
      r, w := r + 1, w + 1;
    }
  }

  /** The polynomial s evaluated at every leaf: what the forward transform promises. */
  ghost function Values(root: seq<int>, s: seq<int>): (r: seq<int>)
    ensures |r| == |root|
  {
    seq(|root|, j requires 0 <= j < |root| => Eval(s, Leaf(root, j)))
  }

  lemma WholeBlock(root: seq<int>, p: int, s: seq<int>)
    requires p > 0 && |root| == |s| >= 1
    ensures Blocks(root, p, s, Values(root, s), 0, |s|, |s|)
  {
    assert s[0..|s|] == s;
    NoBlocks(root, p, s, Values(root, s), |s|, |s|);
  }

  lemma ValuesReached(root: seq<int>, p: int, s: seq<int>, target: seq<int>)
    requires p > 0 && |root| == |s| == |target|
    requires Blocks(root, p, s, target, 0, |s|, 1)
    ensures CongSeq(s, target, p)
  {
    SingletonBlocks(root, p, s, target, 0);
  }

  lemma AllBelowMore(s: seq<int>, to: nat, bound: int, more: int)
    requires to <= |s| && bound <= more && AllBelow(s, 0, to, bound)
    ensures AllBelow(s, 0, to, more)
  {
  }

  lemma ReadyForForward(ntt: SlothfulNtt)
    requires 0 < ntt.p < MAX_MODULUS && ntt.lp == Mul64(2, ntt.p)
    ensures ntt.Valid(2)
  {
  }

  /** slotful_ntt_lazy */
  method SlotfulNttLazy(a: array<u64>, t: Tables, ghost bound: nat) returns (status: Status)
    requires t.Valid()
    requires AllBelow(a[..], 0, a.Length, bound) && bound + Growth(t.p, t.k - 1) <= W64
    modifies a
    ensures status == if a.Length != t.n then SizeMismatch
                      else if t.p >= MAX_MODULUS then ModulusTooLarge else Done
    ensures status != Done ==> a[..] == old(a[..])
    ensures status == Done ==> CongSeq(a[..], Values(t.root, old(a[..])), t.p)
    ensures status == Done ==> AllBelow(a[..], 0, a.Length, 4 * t.p)
  {
    hide ForwardTable, InverseTable, Blocks, Cong, CongSeq, Leftmost, Growth, Pow2, Values, AllBelow,
         Operand.ValidFor, SlothfulNtt.Valid;
    if a.Length != t.n {
      return SizeMismatch;
    }
    if t.p >= MAX_MODULUS {
      return ModulusTooLarge;
    }
    var ntt := new SlothfulNtt(t.p, 2);
    ReadyForForward(ntt);
    ghost var s := a[..];
    ghost var target := Values(t.root, s);
    WholeBlock(t.root, t.p, s);
    LeftmostOfOne(t.k);
    NextLayer(1, t.n, t.k, t.p);
    var m, h, w := 1, t.n / 2, 1;
    ghost var e: nat := t.k - 1;
    ghost var b: nat := bound;
    while h > 2
      invariant 1 <= e < t.k && h == Pow2(e) && m == w >= 1 && Leftmost(m, e + 1) == t.n
      invariant Blocks(t.root, t.p, a[..], target, 0, t.n, 2 * h)
      invariant AllBelow(a[..], 0, t.n, b) && b + Growth(t.p, e) <= W64
    {
      NextLayer(m, h, e, t.p);
      w := ForwardLayer(a, ntt, t, m, h, w, false, e, target, b);
      m, h := m * 2, h / 2;
      e, b := e - 1, b + 2 * t.p;
    }
    NextLayer(m, h, e, t.p);
    w := ForwardLayer(a, ntt, t, m, h, w, false, e, target, b);
    m := m * 2;
    w := ForwardLayer(a, ntt, t, m, 1, w, true, 0, target, b + 2 * t.p);
    ValuesReached(t.root, t.p, a[..], target);
    AllBelowMore(a[..], t.n, 3 * t.p, 4 * t.p);
    return Done;
  }
}

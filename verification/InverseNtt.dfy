/** The lazy inverse transform of slotful_ntt.cc, in place on an array of 64-bit words. */
module InverseNtt {
  import opened Modular
  import opened Polynomial
  import opened Powers
  import opened Shape
  import opened Twiddle
  import opened Layers
  import opened Butterfly
  import opened Ntt

  lemma ModulusPositive(ntt: SlothfulNtt, l: nat)
    requires ntt.Valid(l)
    ensures 0 < ntt.p && ntt.p < MAX_MODULUS
  {
  }

  /** A butterfly's result stays one while its entries stay put, before it or after it. */
  lemma BackwardMoves(s: seq<int>, before: seq<int>, after: seq<int>, x: nat, h: nat, c0: int, c1: int, p: int)
    requires p > 0 && |s| == |before| == |after| && x + h < |s|
    requires
      || (BackwardPair(s, before, x, h, c0, c1, p) && after[x] == before[x] && after[x + h] == before[x + h])
      || (BackwardPair(before, after, x, h, c0, c1, p) && before[x] == s[x] && before[x + h] == s[x + h])
    ensures BackwardPair(s, after, x, h, c0, c1, p)
  {
    hide Cong;
  }

  /**
   One group of the inverse. The first corrected butterflies, rounded up to a whole
   unrolled batch of four, reduce their inputs first.
   */
  method BackwardGroup(a: array<u64>, ntt: SlothfulNtt, base: nat, h: nat, w: Operand, corrected: nat, ghost l: nat)
    requires ntt.Valid(l) && w.ValidFor(ntt.p) && h >= 1 && base + 2 * h <= a.Length
    requires corrected >= h || AllBelow(a[..], base, base + 2 * h, ntt.lp)
    modifies a
    ensures BackwardPairs(old(a[..]), a[..], base, h, h, 1, w.operand, ntt.p)
    ensures AllBelow(a[..], base, base + 2 * h, ntt.lp)
  {
    hide Cong, Operand.ValidFor, BackwardPair, SlothfulNtt.Valid;
    ModulusPositive(ntt, l);
    ghost var s := a[..];
    var x0, x1 := base, base + h;
    var i := 0;
    while i < h
      invariant 0 <= i <= h && x0 == base + i && x1 == base + h + i
      invariant BackwardPairs(s, a[..], base, h, i, 1, w.operand, ntt.p)
      invariant AllBelow(a[..], base, base + i, ntt.lp) && AllBelow(a[..], base + h, base + h + i, ntt.lp)
    {
      ghost var before := a[..];
      if i - i % 4 < corrected {
        ntt.BackwardCorrLazy(a, x0, x1, w, l);
      } else {
        ntt.BackwardLazy(a, x0, x1, w, l);
      }
      forall x | base <= x < base + i + 1
        ensures BackwardPair(s, a[..], x, h, 1, w.operand, ntt.p)
      {
        if x < base + i {
          assert BackwardPair(s, before, x, h, 1, w.operand, ntt.p);
        }
        BackwardMoves(s, before, a[..], x, h, 1, w.operand, ntt.p);
      }
      i, x0, x1 := i + 1, x0 + 1, x1 + 1;
    }
  }

  lemma BackwardStep(t: Tables, s0: seq<int>, s1: seq<int>, target: seq<int>, v: nat, k: nat, base: nat, c0: int,
                     c1: int)
    requires t.Valid() && v < t.n && |target| == |s0| == |s1| == t.n
    requires Under(t.n, v, k + 1, base) && Cong(t.root[v] * c1, c0, t.p)
    requires BackwardPairs(s0, s1, base, Pow2(k), Pow2(k), c0, c1, t.p)
    requires Blocks(t.root, t.p, s0, Scale(2 * c0, target), 0, base, Pow2(k + 1))
    requires Blocks(t.root, t.p, s0, target, base, t.n, Pow2(k))
    ensures Blocks(t.root, t.p, s1, Scale(2 * c0, target), 0, base + Pow2(k + 1), Pow2(k + 1))
    ensures Blocks(t.root, t.p, s1, target, base + Pow2(k + 1), t.n, Pow2(k))
  {
    hide Cong, ForwardTable, InverseTable, BackwardPair, BlockHolds;
    var h := Pow2(k);
    BackwardBlock(t.root, t.p, s0, s1, target, v, k, base, c0, c1);
    assert s0[..base] == s1[..base];
    BlocksFrame(t.root, t.p, s0, s1, Scale(2 * c0, target), 0, base, 2 * h);
    assert s0[base + 2 * h..] == s1[base + 2 * h..];
    BlocksFrame(t.root, t.p, s0, s1, target, base + 2 * h, t.n, h);
    BlocksAppend(t.root, t.p, s1, Scale(2 * c0, target), 0, base, 2 * h);
  }

  /** The inverse walks its table so that group r of m meets the inverse of root[m + r]. */
  lemma InverseTwiddle(t: Tables, l: nat, r: nat)
    requires t.Valid() && l < t.k && r < Pow2(l)
    ensures 0 <= t.n - 2 * Pow2(l) + 1 + r < t.n && Pow2(l) + r < t.n
    ensures var w := t.n - 2 * Pow2(l) + 1 + r;
      && |t.inverse| == |t.root| == t.n && t.inverse[w].ValidFor(t.p)
      && Cong(t.root[Pow2(l) + r] * t.inverse[w].operand, 1, t.p)
  {
    hide Cong, ForwardTable, Operand.ValidFor;
    assert InversePair(t.root, t.inv, Pow2(l), r, t.p);
  }

  lemma BackwardOutside(s: seq<int>, t: seq<int>, base: nat, h: nat, c0: int, c1: int, p: int)
    requires p > 0 && base + 2 * h <= |s| && |s| == |t| && BackwardPairs(s, t, base, h, h, c0, c1, p)
    ensures SameOutside(s, t, base, h, h)
  {
  }

  method BackwardLayer(a: array<u64>, ntt: SlothfulNtt, t: Tables, m: nat, h: nat, w0: nat, corrected: nat,
                       ghost l: nat, ghost k: nat, ghost e: nat, ghost target: seq<int>)
    returns (w: nat)
    requires t.Valid() && ntt.Valid(l) && ntt.p == t.p && a.Length == t.n == |target|
    requires h == Pow2(k) && m == Pow2(e) && k + e + 1 == t.k && w0 == t.n - 2 * m + 1
    requires Leftmost(m, k + 1) == t.n
    requires Blocks(t.root, t.p, a[..], target, 0, t.n, h)
    requires corrected >= h || AllBelow(a[..], 0, t.n, ntt.lp)
    modifies a
    ensures w == w0 + m
    ensures Blocks(t.root, t.p, a[..], Scale(2, target), 0, t.n, 2 * h)
    ensures AllBelow(a[..], 0, t.n, ntt.lp)
  {
    hide Cong, ForwardTable, InverseTable, BackwardPairs, Blocks, Scale, Under, BlockHolds, AllBelow, Tables.Valid,
      SameOutside, Operand.ValidFor, Leftmost, SlothfulNtt.Valid;
    TableSize(t);
    NoneBelow(a[..], 0, ntt.lp);
    w := w0;
    var base := 0;
    var r := 0;
    LeftmostMonotone(m, m, k + 1);
    NoBlocks(t.root, t.p, a[..], Scale(2, target), 0, 2 * h);
    while r < m
      invariant 0 <= r <= m && w == w0 + r && Leftmost(m + r, k + 1) == t.n + base
      invariant 0 <= base <= t.n
      invariant Blocks(t.root, t.p, a[..], Scale(2, target), 0, base, 2 * h)
      invariant Blocks(t.root, t.p, a[..], target, base, t.n, h)
      invariant AllBelow(a[..], 0, base, ntt.lp)
      invariant corrected >= h || AllBelow(a[..], base, t.n, ntt.lp)
    {
      LayerNode(t.n, m, r, k, base);
      NextLayer(m, Pow2(k + 1), k + 1, t.p);
      InverseTwiddle(t, e, r);
      if corrected < h {
        PartBelow(a[..], base, base + 2 * h, t.n, ntt.lp);
      }
      ghost var before := a[..];
      BackwardGroup(a, ntt, base, h, t.inverse[w], corrected, l);
      BackwardOutside(before, a[..], base, h, 1, t.inverse[w].operand, t.p);
      LayerBounds(before, a[..], base, h, t.n, ntt.lp, ntt.lp);
      BackwardStep(t, before, a[..], target, m + r, k, base, 1, t.inverse[w].operand);
      base := base + 2 * h;
      r, w := r + 1, w + 1;
    }
  }

  function BitCount(p: nat): nat {
    if p == 0 then 0 else 1 + BitCount(p / 2)
  }

  lemma {:induction false} BitCountBounds(p: nat, j: nat)
    ensures p < Pow2(BitCount(p)) && (p < Pow2(j) ==> BitCount(p) <= j)
  {
    if p > 0 {
      BitCountBounds(p / 2, if j == 0 then 0 else j - 1);
    }
  }

  /** How many copies of p the unreduced values of the inverse may reach. */
  function Laziness(n: nat, p: nat): nat
    requires 0 < p < MAX_MODULUS && BitCount(p) <= 63
  {
    Min(n / 2, Pow2(64 - BitCount(p) - 1))
  }

  lemma HalvesAtLeastTwice(n: nat, l: nat)
    requires 1 <= l <= n / 2
    ensures n / l >= 2
  {
    assert n == (n / l) * l + n % l;
  }

  lemma PowersBelowWord(l: nat, e: nat, p: nat, b: nat)
    requires l <= Pow2(e) && p <= Pow2(b) && e + b == 63
    ensures 2 * (l * p) <= W64
  {
    Pow2Values();
    Pow2Add(e, b);
    Scaled(l, p, Pow2(b));
    Scaled(Pow2(b), l, Pow2(e));
  }

  /** L*p never needs more than 63 bits, so a sum of two values below it fits a word. */
  lemma LazinessFits(n: nat, p: nat)
    requires 0 < p < MAX_MODULUS && n >= 8
    ensures BitCount(p) <= 59
    ensures 2 <= Laziness(n, p) <= n / 2 && n / Laziness(n, p) >= 2
    ensures 2 * (Laziness(n, p) * p) <= W64
  {
    Pow2Values();
    BitCountBounds(p, 59);
    var e := 64 - BitCount(p) - 1;
    Pow2Monotone(4, e);
    var l := Laziness(n, p);
    HalvesAtLeastTwice(n, l);
    PowersBelowWord(l, e, p, BitCount(p));
  }

  /** L is a power of two, and no larger one up to n / 2 leaves 2 * L * 2^BitCount within a word. */
  lemma LazinessIsLargest(k: nat, p: nat, e: nat)
    requires 0 < p < MAX_MODULUS && k >= 3
    ensures BitCount(p) <= 59 && IsTwoPower(Laziness(Pow2(k), p))
    ensures Pow2(e) <= Pow2(k) / 2 && Pow2(e + BitCount(p) + 1) <= W64 ==> Pow2(e) <= Laziness(Pow2(k), p)
  {
    hide Pow2, IsTwoPower, BitCount;
    Pow2Values();
    BitCountBounds(p, 59);
    Pow2Doubled(k - 1);
    var top := 64 - BitCount(p) - 1;
    Pow2IsTwoPower(k - 1);
    Pow2IsTwoPower(top);
    if e > top {
      Pow2Doubled(63);
      Pow2Doubled(64);
      Pow2Monotone(65, e + BitCount(p) + 1);
    } else {
      Pow2Monotone(e, top);
    }
  }

  lemma ScaleTwice(h: nat, y: seq<int>)
    ensures Scale(2, Scale(h, y)) == Scale(2 * h, y)
  {
    forall j | 0 <= j < |y|
      ensures 2 * (h * y[j]) == (2 * h) * y[j]
    {
    }
  }

  method BackwardLastLayer(a: array<u64>, ntt: SlothfulNtt, h: nat, invN: Operand, invNW: Operand, ghost l: nat)
    requires ntt.Valid(l) && invN.ValidFor(ntt.p) && invNW.ValidFor(ntt.p) && h >= 1 && a.Length == 2 * h
    requires AllBelow(a[..], 0, a.Length, ntt.lp)
    modifies a
    ensures BackwardPairs(old(a[..]), a[..], 0, h, h, invN.operand, invNW.operand, ntt.p)
    ensures AllBelow(a[..], 0, a.Length, 2 * ntt.p)
  {
    hide Cong;
    ghost var s := a[..];
    var x0, x1 := 0, h;
    for i := h to 2 * h
      invariant x0 == i - h && x1 == i
      invariant BackwardPairs(s, a[..], 0, h, i - h, invN.operand, invNW.operand, ntt.p)
      invariant AllBelow(a[..], 0, i - h, 2 * ntt.p) && AllBelow(a[..], h, i, 2 * ntt.p)
    {
      ghost var before := a[..];
      ntt.BackwardLastLazy(a, x0, x1, invN, invNW, l);
      forall x | 0 <= x < i - h + 1
        ensures BackwardPair(s, a[..], x, h, invN.operand, invNW.operand, ntt.p)
      {
        if x < i - h {
          assert BackwardPair(s, before, x, h, invN.operand, invNW.operand, ntt.p);
        }
      }
      x0, x1 := x0 + 1, x1 + 1;
    }
  }

  /** MultiplyUIntModOperand::set */
  function MakeOperand(x: u64, p: u64): (r: Operand)
    requires 0 < p && x < p
    ensures r.ValidFor(p) && r.operand == x
  {
    QuotientFits(x, p);
    Operand(x, x * W64 / p)
  }

  lemma QuotientFits(x: nat, p: nat)
    requires x < p
    ensures 0 <= x * W64 / p < W64
  {
    if x * W64 / p >= W64 {
      Scaled(p, W64, x * W64 / p);
    }
  }

  /** The last twiddle, scaled by 1/n, is still the one that undoes root[1]. */
  lemma ScaledTwiddle(root1: int, inv: int, invN: int, p: int)
    requires p > 0 && Cong(root1 * inv, 1, p)
    ensures Cong(root1 * (invN * inv % p), invN, p)
  {
    ModIdempotent(invN * inv, p);
    Mul(root1, root1, invN * inv % p, invN * inv, p);
    Mul(root1 * inv, 1, invN, invN, p);
    assert root1 * (invN * inv) == (root1 * inv) * invN;
  }

  /** After the last layer 2h * (1/n) = 1, so the values below the root are y itself. */
  lemma ScaledBack(t: Tables, s: seq<int>, y: seq<int>, h: nat)
    requires t.Valid() && |s| == |y| == t.n == 2 * h
    requires Blocks(t.root, t.p, s, Scale(2 * t.invN.operand, Scale(h, y)), 0, t.n, t.n)
    ensures forall j | 0 <= j < t.n :: Cong(Eval(s, Leaf(t.root, j)), y[j], t.p)
  {
    hide ForwardTable, InverseTable;
    var c: int := t.invN.operand;
    assert s[0..t.n] == s;
    forall j | 0 <= j < t.n
      ensures Cong(Eval(s, Leaf(t.root, j)), y[j], t.p)
    {
      UndoScale(c, h, y[j], t.p);
      assert Scale(2 * c, Scale(h, y))[j] == 2 * c * (h * y[j]);
    }
  }

  lemma UndoScale(c: int, h: int, y: int, p: int)
    requires p > 0 && Cong(c * (2 * h), 1, p)
    ensures Cong(2 * c * (h * y), y, p)
  {
    Mul(c * (2 * h), 1, y, y, p);
    assert (c * (2 * h)) * y == 2 * c * (h * y);
  }

  /** How many butterflies of each group reduce their inputs once m has dropped below n / L. */
  function Corrected(nL: nat, m: nat): nat
    requires m >= 1
  {
    DivNonneg(nL, 2 * m);
    nL / (2 * m)
  }

  /** The main loop, from m = n / 8 down to 2: plain butterflies first, then partly corrected ones. */
  method BackwardMiddle(a: array<u64>, ntt: SlothfulNtt, t: Tables, w0: nat, nL: nat, ghost l: nat, ghost y: seq<int>)
    returns (w: nat)
    requires t.Valid() && ntt.Valid(l) && ntt.p == t.p && a.Length == t.n == |y|
    requires nL >= 2 && w0 == t.n - 2 * (t.n / 8) + 1
    requires Blocks(t.root, t.p, a[..], Scale(4, y), 0, t.n, 4) && AllBelow(a[..], 0, t.n, ntt.lp)
    modifies a
    ensures w == t.n - 1
    ensures Blocks(t.root, t.p, a[..], Scale(t.n / 2, y), 0, t.n, t.n / 2) && AllBelow(a[..], 0, t.n, ntt.lp)
  {
    hide ForwardTable, InverseTable, Blocks, Cong, AllBelow, Corrected;
    TopLevels(t.k);
    w := w0;
    var m, h := t.n / 8, 4;
    ghost var k: nat := 2;
    ghost var e: nat := t.k - 3;
    while m >= nL
      invariant h == Pow2(k) && m == Pow2(e) && k + e + 1 == t.k && w == t.n - 2 * m + 1
      invariant Leftmost(m, k + 1) == t.n
      invariant Blocks(t.root, t.p, a[..], Scale(h, y), 0, t.n, h) && AllBelow(a[..], 0, t.n, ntt.lp)
    {
      w := BackwardLayer(a, ntt, t, m, h, w, 0, l, k, e, Scale(h, y));
      ScaleTwice(h, y);
      m, h := m / 2, h * 2;
      k, e := k + 1, e - 1;
    }
    while m > 1
      invariant h == Pow2(k) && m == Pow2(e) && k + e + 1 == t.k && w == t.n - 2 * m + 1
      invariant Leftmost(m, k + 1) == t.n
      invariant Blocks(t.root, t.p, a[..], Scale(h, y), 0, t.n, h) && AllBelow(a[..], 0, t.n, ntt.lp)
    {
      w := BackwardLayer(a, ntt, t, m, h, w, Corrected(nL, m), l, k, e, Scale(h, y));
      ScaleTwice(h, y);
      m, h := m / 2, h * 2;
      k, e := k + 1, e - 1;
    }
  }

  /** slotful_intt_lazy: no bound on the input is needed. */
  method SlotfulInttLazy(a: array<u64>, t: Tables) returns (status: Status)
    requires t.Valid()
    modifies a
    ensures status == if a.Length != t.n then SizeMismatch
                      else if t.p >= MAX_MODULUS then ModulusTooLarge else Done
    ensures status != Done ==> a[..] == old(a[..])
    ensures status == Done ==> CongSeq(Values(t.root, a[..]), old(a[..]), t.p)
    ensures status == Done ==> AllBelow(a[..], 0, a.Length, 2 * t.p)
  {
    hide ForwardTable, InverseTable, Blocks, Cong, Laziness, BackwardPairs, CongSeq, Mul64;
    if a.Length != t.n {
      return SizeMismatch;
    }
    if t.p >= MAX_MODULUS {
      return ModulusTooLarge;
    }
    TopLevels(t.k);
    LazinessFits(t.n, t.p);
    var l := Laziness(t.n, t.p);
    NoWrap(l, t.p);
    var ntt := new SlothfulNtt(t.p, l);
    ghost var y := a[..];
    StartInverse(t.root, t.p, y);
    // m = n / 2, h = 1: every input is reduced first
    var w := BackwardLayer(a, ntt, t, t.n / 2, 1, 1, 1, l, 0, t.k - 1, Scale(1, y));
    ScaleTwice(1, y);
    // m = n / 4, h = 2
    w := BackwardLayer(a, ntt, t, t.n / 4, 2, w, 0, l, 1, t.k - 2, Scale(2, y));
    ScaleTwice(2, y);
    w := BackwardMiddle(a, ntt, t, w, t.n / l, l, y);
    // the last layer, merged with the multiplication by 1/n
    var invNW := MakeOperand(t.invN.operand * t.inverse[w].operand % t.p, t.p);
    ghost var before := a[..];
    BackwardLastLayer(a, ntt, t.n / 2, t.invN, invNW, l);
    FinishInverse(t, before, a[..], y, invNW, t.k - 1);
    return Done;
  }

  lemma NoWrap(l: nat, p: nat)
    requires l * p < W64
    ensures Mul64(l, p) == l * p
  {
  }

  lemma TopLevels(k: nat)
    requires k >= 3
    ensures var n := Pow2(k);
      && n >= 8 && n / 2 == Pow2(k - 1) && n / 4 == Pow2(k - 2) && n / 8 == Pow2(k - 3)
      && Leftmost(n / 2, 1) == Leftmost(n / 4, 2) == Leftmost(n / 8, 3) == n
  {
    LeftmostOfPow2(k - 1, 1);
    LeftmostOfPow2(k - 2, 2);
    LeftmostOfPow2(k - 3, 3);
  }

  lemma StartInverse(root: seq<int>, p: int, y: seq<int>)
    requires p > 0 && |root| == |y|
    ensures Blocks(root, p, y, Scale(1, y), 0, |y|, 1)
  {
    assert Scale(1, y) == y;
    SingletonBlocks(root, p, y, y, 0);
  }

  lemma FinishInverse(t: Tables, s0: seq<int>, s1: seq<int>, y: seq<int>, invNW: Operand, k: nat)
    requires t.Valid() && k + 1 == t.k && |s0| == |s1| == |y| == t.n
    requires invNW.operand == t.invN.operand * t.inverse[t.n - 1].operand % t.p
    requires Blocks(t.root, t.p, s0, Scale(Pow2(k), y), 0, t.n, Pow2(k))
    requires BackwardPairs(s0, s1, 0, Pow2(k), Pow2(k), t.invN.operand, invNW.operand, t.p)
    ensures CongSeq(Values(t.root, s1), y, t.p)
  {
    hide ForwardTable, InverseTable, Cong, BackwardPairs, Blocks;
    InverseTwiddle(t, 0, 0);
    ScaledTwiddle(t.root[1], t.inverse[t.n - 1].operand, t.invN.operand, t.p);
    MergeWhole(t, s0, s1, Scale(Pow2(k), y), k, t.invN.operand, invNW.operand);
    ScaledBack(t, s1, y, Pow2(k));
  }

  lemma MergeWhole(t: Tables, s0: seq<int>, s1: seq<int>, target: seq<int>, k: nat, c0: int, c1: int)
    requires t.Valid() && k + 1 == t.k && |s0| == |s1| == |target| == t.n
    requires Cong(t.root[1] * c1, c0, t.p)
    requires Blocks(t.root, t.p, s0, target, 0, t.n, Pow2(k))
    requires BackwardPairs(s0, s1, 0, Pow2(k), Pow2(k), c0, c1, t.p)
    ensures Blocks(t.root, t.p, s1, Scale(2 * c0, target), 0, t.n, t.n)
  {
    hide ForwardTable, InverseTable, Cong, BackwardPairs, Blocks;
    LeftmostOfOne(t.k);
    NoBlocks(t.root, t.p, s0, Scale(2 * c0, target), 0, t.n);
    BackwardStep(t, s0, s1, target, 1, k, 0, c0, c1);
  }
}

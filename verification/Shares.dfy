/**
 Masking the result of a product into two shares: where the mask goes, which
 coefficients survive, which ones decryption reads, and what the shares add up to.
 */
module Shares {
  import opened Modular
  import opened Powers
  import opened Shape
  import opened Rns
  import opened ModSwitch
  import Packing

  // ---------------------------------------------------------------------------
  // Error bounds

  /** Rounding a sum differs from the sum of the rounded values by at most one. */
  lemma RoundedSum(y: int, z: int, bigQ: nat, t: nat) returns (d: int)
    requires bigQ >= 1
    ensures Rounded(y + z, bigQ, t) == Rounded(y, bigQ, t) + Rounded(z, bigQ, t) + d && -1 <= d <= 1
  {
    hide Rounded;
    var h := (bigQ + 1) / 2;
    assert (y + z) * t == y * t + z * t;
    var a, b := y * t + h, z * t + h;
    RoundedAs(y, a, bigQ, t);
    RoundedAs(z, b, bigQ, t);
    RoundedAs(y + z, a + b - h, bigQ, t);
    d := SumOfQuotients(a, b, h, bigQ);
  }

  lemma RoundedAs(y: int, a: int, bigQ: nat, t: nat)
    requires bigQ >= 1 && a == y * t + (bigQ + 1) / 2
    ensures Rounded(y, bigQ, t) == a / bigQ
  {
  }

  lemma SumOfQuotients(a: int, b: int, h: int, q: int) returns (d: int)
    requires q >= 1 && 0 <= h <= q
    ensures (a + b - h) / q == a / q + b / q + d && -1 <= d <= 1
  {
    var k, r, l, u := a / q, a % q, b / q, b % q;
    DivMod(a, q);
    DivMod(b, q);
    d := SumOfParts(k, r, l, u, h, q);
    assert a + b - h == k * q + r + (l * q + u) - h;
  }

  lemma SumOfParts(k: int, r: int, l: int, u: int, h: int, q: int) returns (d: int)
    requires q >= 1 && 0 <= h <= q && 0 <= r < q && 0 <= u < q
    ensures (k * q + r + (l * q + u) - h) / q == k + l + d && -1 <= d <= 1
  {
    var s := r + u - h;
    d := if s < 0 then -1 else if s < q then 0 else 1;
    assert (k + l + d) * q == k * q + l * q + d * q;
    assert d * q == if s < 0 then -q else if s < q then 0 else q;
    ModMultiple(s - d * q, k + l + d, q);
  }

  /** (-u) & mask, the mask having the low `bits` bits. */
  function Negated(u: u64, bits: nat): int {
    ((W64 - u) % W64) % Pow2(bits)
  }

  lemma NegatedIs(u: u64, bits: nat)
    requires bits <= 64
    ensures Cong(Negated(u, bits), 0 - u, Pow2(bits))
  {
    hide Pow2, Cong;
    var t := Pow2(bits);
    Pow2Add(bits, 64 - bits);
    Word();
    ModIdempotent((W64 - u) % W64, t);
    var k := if u == 0 then 0 else Pow2(64 - bits);
    assert (W64 - u) % W64 == 0 - u + k * t;
    Intro((W64 - u) % W64, 0 - u, k, t);
    Trans(Negated(u, bits), (W64 - u) % W64, 0 - u, t);
  }

  /** What holds modulo 2^base holds modulo any smaller power. */
  lemma CongBelow(a: int, b: int, base: nat, bits: nat)
    requires bits <= base && Cong(a, b, Pow2(base))
    ensures Cong(a, b, Pow2(bits))
  {
    hide Pow2, Cong;
    var k := Elim(a, b, Pow2(base));
    Pow2Add(base - bits, bits);
    assert k * (Pow2(base - bits) * Pow2(bits)) == (k * Pow2(base - bits)) * Pow2(bits);
    Intro(a, b, k * Pow2(base - bits), Pow2(bits));
  }

  /**
   The decrypted masked value and the mask's share add up to the unmasked one, within 1 modulo
   2^bits: values are rounded to base bits, the share is cut to bits of them.
   */
  lemma SharesReconstruct(z: nat, r: nat, bigQ: nat, base: nat, bits: nat) returns (d: int)
    requires z < bigQ && r < bigQ && bits <= base <= 64
    ensures -1 <= d <= 1 && (z + r) % bigQ >= 0
    ensures Cong(Down((z + r) % bigQ, bigQ, Pow2(base)) + Negated(Down(r, bigQ, Pow2(base)), bits),
                 Down(z, bigQ, Pow2(base)) + d, Pow2(bits))
  {
    hide Cong, Pow2, Rounded, Negated, Down;
    var t, w := Pow2(bits), Pow2(base);
    d := RoundedSum(z, r, bigQ, w);
    DownOfMod(z + r, bigQ, base);
    DownIs(z, bigQ, base);
    DownIs(r, bigQ, base);
    var y, u := Rounded(z, bigQ, w), Rounded(r, bigQ, w);
    CongBelow(Down((z + r) % bigQ, bigQ, w), y + u + d, base, bits);
    CongBelow(Down(z, bigQ, w), y, base, bits);
    CongBelow(Down(r, bigQ, w), u, base, bits);
    NegatedIs(Down(r, bigQ, w), bits);
    Sub(0, 0, Down(r, bigQ, w), u, t);
    Trans(Negated(Down(r, bigQ, w), bits), 0 - Down(r, bigQ, w), 0 - u, t);
    Add(Down((z + r) % bigQ, bigQ, w), y + u + d, Negated(Down(r, bigQ, w), bits), 0 - u, t);
    Add(Down(z, bigQ, w), y, d, d, t);
    Trans(Down((z + r) % bigQ, bigQ, w) + Negated(Down(r, bigQ, w), bits), y + d, Down(z, bigQ, w) + d, t);
  }

  lemma DownIs(z: nat, bigQ: nat, bits: nat)
    requires z < bigQ && bits <= 64
    ensures Cong(Down(z, bigQ, Pow2(bits)), Rounded(z, bigQ, Pow2(bits)), Pow2(bits))
  {
    DownOfMod(z, bigQ, bits);
    ModMultiple(z, 0, bigQ);
  }

  /** Adding any word's scaled-up value to a result adds the word to what decryption gives, within 1 modulo t. */
  lemma UpdateAdds(z: nat, v: nat, bigQ: nat, bits: nat) returns (d: int)
    requires z < bigQ && bits <= 64 && Pow2(bits) + 1 < bigQ
    ensures -1 <= d <= 1 && (z + Up(v, bigQ, Pow2(bits))) % bigQ >= 0
    ensures Cong(Down((z + Up(v, bigQ, Pow2(bits))) % bigQ, bigQ, Pow2(bits)),
                 Down(z, bigQ, Pow2(bits)) + v + d, Pow2(bits))
  {
    hide Cong, Pow2, Rounded, Down, Up;
    var t := Pow2(bits);
    var r := Up(v, bigQ, t);
    d := RoundedSum(z, r, bigQ, t);
    RoundedUp(v, 0, bigQ, bits);
    DownOfMod(z + r, bigQ, bits);
    DownIs(z, bigQ, bits);
    Add(Down(z, bigQ, t), Rounded(z, bigQ, t), v + d, v + d, t);
    Trans(Down((z + r) % bigQ, bigQ, t), Rounded(z, bigQ, t) + v + d, Down(z, bigQ, t) + v + d, t);
  }

  function SumAbs(m: seq<int>, lo: nat): nat
    requires lo <= |m|
    decreases |m| - lo
  {
    if lo == |m| then 0 else Abs(m[lo]) + SumAbs(m, lo + 1)
  }

  function Ups(v: seq<nat>, bigQ: nat, t: nat): (r: seq<nat>)
    requires t >= 1
    ensures |r| == |v|
  {
    seq(|v|, i requires 0 <= i < |v| => Up(v[i], bigQ, t))
  }

  /** Scaling every entry up scales the inner product, with half of t lost per unit of coefficient. */
  lemma {:induction false} DotOfUps(m: seq<int>, v: seq<nat>, bigQ: nat, t: nat, lo: nat)
    requires t >= 1 && |m| == |v| && lo <= |m|
    ensures var delta := t * Packing.Dot(m, Ups(v, bigQ, t), lo, |m|) - bigQ * Packing.Dot(m, v, lo, |m|);
      0 <= 2 * delta + t * SumAbs(m, lo) <= 2 * (t * SumAbs(m, lo))
    decreases |m| - lo
  {
    hide Up;
    if lo < |m| {
      DotOfUps(m, v, bigQ, t, lo + 1);
      UpError(v[lo], bigQ, t);
      var up := Up(v[lo], bigQ, t);
      var rest, restUp := Packing.Dot(m, v, lo + 1, |m|), Packing.Dot(m, Ups(v, bigQ, t), lo + 1, |m|);
      OneTerm(m[lo], t * up - bigQ * v[lo], t);
      DotStep(t, bigQ, m[lo], up, v[lo], rest, restUp);
      assert t * (Abs(m[lo]) + SumAbs(m, lo + 1)) == t * Abs(m[lo]) + t * SumAbs(m, lo + 1);
    }
  }

  lemma DotStep(t: int, q: int, c: int, up: int, x: int, rest: int, restUp: int)
    ensures t * (c * up + restUp) - q * (c * x + rest) == c * (t * up - q * x) + (t * restUp - q * rest)
  {
    assert t * (c * up + restUp) == c * (t * up) + t * restUp;
    assert q * (c * x + rest) == c * (q * x) + q * rest;
    assert c * (t * up - q * x) == c * (t * up) - c * (q * x);
  }

  lemma OneTerm(c: int, e: int, t: nat)
    requires 0 < 2 * e + t <= 2 * t
    ensures 0 <= 2 * (c * e) + t * Abs(c) <= 2 * (t * Abs(c))
  {
    Scaled(Abs(c), 2 * e, t);
    Scaled(Abs(c), 0 - t, 2 * e);
    assert c * e == Abs(c) * e || c * e == -(Abs(c) * e);
    assert Abs(c) * t == t * Abs(c) && Abs(c) * (2 * e) == 2 * (Abs(c) * e) && Abs(c) * (0 - t) == -(t * Abs(c));
  }

  /** The error of a whole inner product computed on scaled-up entries: 2Q|e| <= t * sum|m| + Q + 1. */
  lemma MatVecError(m: seq<int>, v: seq<nat>, bigQ: nat, bits: nat) returns (e: int)
    requires |m| == |v| && bigQ >= 1 && bits <= 64
    ensures var t, y := Pow2(bits), Packing.Dot(m, Ups(v, bigQ, Pow2(bits)), 0, |m|) % bigQ;
      && y >= 0 && Cong(Down(y, bigQ, t), Packing.Dot(m, v, 0, |m|) + e, t)
      && 2 * bigQ * Abs(e) <= t * SumAbs(m, 0) + bigQ + 1
  {
    hide Pow2, Cong, Rounded, Down, Packing.Dot, Ups, SumAbs;
    var t := Pow2(bits);
    var y, w := Packing.Dot(m, Ups(v, bigQ, t), 0, |m|), Packing.Dot(m, v, 0, |m|);
    DotOfUps(m, v, bigQ, t, 0);
    var delta := t * y - bigQ * w;
    RoundedNear(y, w, delta, bigQ, t);
    e := (delta + (bigQ + 1) / 2) / bigQ;
    ErrorBound(delta, bigQ, t * SumAbs(m, 0), e);
    DownOfMod(y, bigQ, bits);
  }

  lemma ErrorBound(delta: int, bigQ: nat, s: nat, e: int)
    requires bigQ >= 1 && 0 <= 2 * delta + s <= 2 * s && e == (delta + (bigQ + 1) / 2) / bigQ
    ensures 2 * bigQ * Abs(e) <= s + bigQ + 1
  {
    var a := delta + (bigQ + 1) / 2;
    assert a == bigQ * e + a % bigQ;
    assert 2 * bigQ * e == 2 * (bigQ * e) && 2 * bigQ * -e == -(2 * (bigQ * e));
  }

  // ---------------------------------------------------------------------------
  // Where the mask goes and which coefficients are read

  /** Word p of a limb into which n words of src, from `from` on, are spread with the given gap. */
  function SpreadWord(src: seq<u64>, from: int, gap: nat, p: int): u64
    requires gap >= 1
  {
    if p % gap == 0 then WordAt(src, from + p / gap) else 0
  }

  /** The same while only the first i words have been written. */
  function PartlySpread(src: seq<u64>, from: int, gap: nat, i: int, p: int): u64
    requires gap >= 1
  {
    if p % gap == 0 && p / gap < i then WordAt(src, from + p / gap) else 0
  }

  lemma SpreadStep(src: seq<u64>, from: int, gap: nat, i: nat, p: nat)
    requires gap >= 1
    ensures PartlySpread(src, from, gap, i + 1, p)
         == if p == i * gap then WordAt(src, from + i) else PartlySpread(src, from, gap, i, p)
  {
    ModMultiple(0, i, gap);
    DivMod(p, gap);
  }

  /** One limb of RandomVector's placement: coefficient i * (N / n) is the i-th sampled word. */
  method SpreadLimb(src: seq<u64>, from: nat, n: nat, dst: array<u64>, to: nat, bigN: nat)
    requires n >= 1 && bigN >= 1 && bigN % n == 0 && from + n <= |src| && to + bigN <= dst.Length
    modifies dst
    ensures bigN / n >= 1
    ensures forall x | 0 <= x < dst.Length ::
      dst[x] == if to <= x < to + bigN then SpreadWord(src, from, bigN / n, x - to) else old(dst[x])
  {
    hide SpreadWord, PartlySpread, WordAt;
    var gap := bigN / n;
    GapTimes(bigN, n);
    if bigN == n {
      for p := 0 to bigN
        invariant forall x | 0 <= x < dst.Length ::
          dst[x] == if to <= x < to + p then SpreadWord(src, from, gap, x - to) else old(dst[x])
      {
        NoGap(src, from, p);
        dst[to + p] := src[from + p];
      }
      return;
    }
    SpreadWithGap(src, from, n, dst, to, bigN, gap);
  }

  /** Zeros first, then every gap-th word. */
  method SpreadWithGap(src: seq<u64>, from: nat, n: nat, dst: array<u64>, to: nat, bigN: nat, gap: nat)
    requires gap >= 1 && n * gap == bigN && from + n <= |src| && to + bigN <= dst.Length
    modifies dst
    ensures forall x | 0 <= x < dst.Length ::
      dst[x] == if to <= x < to + bigN then SpreadWord(src, from, gap, x - to) else old(dst[x])
  {
    hide SpreadWord, PartlySpread, WordAt;
    for p := 0 to bigN
      invariant forall x | 0 <= x < dst.Length :: dst[x] == if to <= x < to + p then 0 else old(dst[x])
    {
      dst[to + p] := 0;
    }
    var j := 0;
    NoneSpread(src, from, gap, bigN);
    for i := 0 to n
      invariant j == i * gap
      invariant forall x | 0 <= x < dst.Length ::
        dst[x] == if to <= x < to + bigN then PartlySpread(src, from, gap, i, x - to) else old(dst[x])
    {
      StrideInside(i, n, gap);
      OneSpread(src, from, gap, i, i + 1);
      WordIs(src, from + i);
      dst[to + j] := src[from + i];
      forall x | to <= x < to + bigN
        ensures dst[x] == PartlySpread(src, from, gap, i + 1, x - to)
      {
        assert SpreadMoves(src, from, gap, i, i + 1, x - to);
      }
      j := j + gap;
    }
    AllSpread(src, from, gap, n);
  }

  lemma NoGap(src: seq<u64>, from: nat, p: nat)
    requires from + p < |src|
    ensures SpreadWord(src, from, 1, p) == src[from + p]
  {
  }

  lemma NoneSpread(src: seq<u64>, from: int, gap: nat, bigN: nat)
    requires gap >= 1
    ensures forall p: nat | p < bigN :: PartlySpread(src, from, gap, 0, p) == 0
  {
    forall p: nat | p < bigN
      ensures PartlySpread(src, from, gap, 0, p) == 0
    {
      DivNonneg(p, gap);
    }
  }

  predicate SpreadMoves(src: seq<u64>, from: int, gap: nat, i: nat, next: nat, p: nat)
    requires gap >= 1
  {
    PartlySpread(src, from, gap, next, p) ==
    if p == i * gap then WordAt(src, from + i) else PartlySpread(src, from, gap, i, p)
  }

  lemma OneSpread(src: seq<u64>, from: int, gap: nat, i: nat, next: nat)
    requires gap >= 1 && next == i + 1
    ensures forall p: nat :: SpreadMoves(src, from, gap, i, next, p)
  {
    forall p: nat
      ensures SpreadMoves(src, from, gap, i, next, p)
    {
      SpreadStep(src, from, gap, i, p);
    }
  }

  lemma AllSpread(src: seq<u64>, from: int, gap: nat, n: nat)
    requires gap >= 1
    ensures forall p: nat | p < n * gap :: PartlySpread(src, from, gap, n, p) == SpreadWord(src, from, gap, p)
  {
    forall p: nat | p < n * gap
      ensures PartlySpread(src, from, gap, n, p) == SpreadWord(src, from, gap, p)
    {
      DivMod(p, gap);
      if p / gap >= n {
        Scaled(gap, n, p / gap);
      }
    }
  }

  lemma WordIs(src: seq<u64>, k: int)
    requires 0 <= k < |src|
    ensures WordAt(src, k) == src[k]
  {
  }

  lemma GapTimes(bigN: nat, n: nat)
    requires n >= 1 && bigN >= 1 && bigN % n == 0
    ensures bigN / n >= 1 && n * (bigN / n) == bigN
  {
    DivMod(bigN, n);
    DivNonneg(bigN, n);
  }

  lemma StrideInside(i: nat, n: nat, gap: nat)
    requires i < n && gap >= 1
    ensures 0 <= i * gap < n * gap && (i + 1) * gap == i * gap + gap
  {
    Scaled(gap, i + 1, n);
  }

  /** Coefficient i of the short polynomial sits at i * gap in the long one, in every limb. */
  ghost predicate SpreadOut(short: seq<u64>, long: seq<u64>, num: nat, n: nat, bigN: nat)
    requires n >= 1
  {
    forall i | 0 <= i < n :: Limbs(long, num, bigN, i * (bigN / n)) == Limbs(short, num, n, i)
  }

  ghost predicate LimbDone(long: seq<u64>, short: seq<u64>, l: nat, n: nat, bigN: nat, gap: nat)
    requires gap >= 1
  {
    forall x | l * bigN <= x < l * bigN + bigN :: WordAt(long, x) == SpreadWord(short, l * n, gap, x - l * bigN)
  }

  lemma LimbStays(long0: seq<u64>, long1: seq<u64>, short: seq<u64>, l: nat, k: nat, n: nat, bigN: nat, gap: nat)
    requires gap >= 1 && k < l && |long0| == |long1|
    requires forall x | 0 <= x < |long0| && !(l * bigN <= x < l * bigN + bigN) :: long1[x] == long0[x]
    requires LimbDone(long0, short, k, n, bigN, gap)
    ensures LimbDone(long1, short, k, n, bigN, gap)
  {
    hide SpreadWord;
    Scaled(bigN, k + 1, l);
    assert bigN * (k + 1) == k * bigN + bigN && bigN * l == l * bigN && k * bigN >= 0;
    forall x | k * bigN <= x < k * bigN + bigN
      ensures WordAt(long1, x) == SpreadWord(short, k * n, gap, x - k * bigN)
    {
      assert WordAt(long0, x) == SpreadWord(short, k * n, gap, x - k * bigN);
    }
  }

  lemma LimbsSpread(short: seq<u64>, long: seq<u64>, num: nat, n: nat, bigN: nat)
    requires n >= 1 && bigN >= 1 && bigN % n == 0 && bigN / n >= 1
    requires forall l | 0 <= l < num :: LimbDone(long, short, l, n, bigN, bigN / n)
    ensures SpreadOut(short, long, num, n, bigN)
  {
    hide WordAt, SpreadWord, LimbDone;
    var gap := bigN / n;
    GapTimes(bigN, n);
    forall i, l | 0 <= i < n && 0 <= l < num
      ensures WordAt(long, l * bigN + i * gap) == WordAt(short, l * n + i)
    {
      StrideInside(i, n, gap);
      CoefficientAt(short, long, l, i, n, bigN, gap);
    }
  }

  lemma CoefficientAt(short: seq<u64>, long: seq<u64>, l: nat, i: nat, n: nat, bigN: nat, gap: nat)
    requires gap >= 1 && LimbDone(long, short, l, n, bigN, gap) && 0 <= i * gap < bigN
    ensures WordAt(long, l * bigN + i * gap) == WordAt(short, l * n + i)
  {
    hide WordAt;
    ModMultiple(0, i, gap);
    assert WordAt(long, l * bigN + i * gap) == SpreadWord(short, l * n, gap, l * bigN + i * gap - l * bigN);
  }

  /** What ModulusDownRNS gives for coefficient i of n. */
  function DownAt(q: seq<nat>, words: seq<u64>, n: nat, i: nat, bits: nat): u64
    requires Positive(q) && Product(q) >= 1
  {
    Down(Compose(Limbs(words, |q|, n, i), q), Product(q), Pow2(bits))
  }

  /** The share kept by whoever sampled the mask. */
  function MaskShare(q: seq<nat>, random: seq<u64>, n: nat, i: nat, base: nat, bits: nat): int
    requires Positive(q) && Product(q) >= 1
  {
    Negated(DownAt(q, random, n, i, base), bits)
  }

  /**
   RandomVector, the sampled words being a parameter: the mask polynomial adds the
   sampled numbers at the stride of the results, and out gets their negated share.
   The helper rounds to its own number of bits; the share keeps the configuration's.
   */
  method RandomVector(helper: ModulusSwitchHelper, bits: nat, random: seq<u64>, bigN: nat, out: array<u64>)
    returns (mask: Result<array<u64>>)
    requires helper.Valid() && bigN >= 1 && |random| == |helper.moduli| * out.Length
    modifies out
    ensures mask.Ok? <==> out.Length > 0 && bigN % out.Length == 0
    ensures mask.Ok? ==> fresh(mask.value) && mask.value.Length == |helper.moduli| * bigN
    ensures mask.Ok? ==> SpreadOut(random, mask.value[..], |helper.moduli|, out.Length, bigN)
    ensures mask.Ok? ==> forall i | 0 <= i < out.Length ::
      out[i] == MaskShare(helper.moduli, random, out.Length, i, helper.baseModBitlen, bits)
  {
    hide IsBase, Limbs, Down, SpreadWord, Negated, Compose, Product, LimbDone;
    BaseFacts(helper.moduli);
    if !(out.Length > 0 && bigN % out.Length == 0) {
      return InvalidArgument;
    }
    var num, n := |helper.moduli|, out.Length;
    var poly := SpreadLimbs(random, num, n, bigN);
    LimbsSpread(random, poly[..], num, n, bigN);
    var ok := helper.ModulusDownRNS(random, out);
    FlipSigns(out, bits);
    return Ok(poly);
  }

  method SpreadLimbs(random: seq<u64>, num: nat, n: nat, bigN: nat) returns (mask: array<u64>)
    requires n >= 1 && bigN >= 1 && bigN % n == 0 && |random| == num * n
    ensures fresh(mask) && mask.Length == num * bigN && bigN / n >= 1
    ensures forall l | 0 <= l < num :: LimbDone(mask[..], random, l, n, bigN, bigN / n)
  {
    hide SpreadWord, LimbDone;
    GapTimes(bigN, n);
    mask := new u64[num * bigN];
    for l := 0 to num
      invariant forall k | 0 <= k < l :: LimbDone(mask[..], random, k, n, bigN, bigN / n)
    {
      BlockInside(l, num, n);
      BlockInside(l, num, bigN);
      ghost var before := mask[..];
      SpreadLimb(random, l * n, n, mask, l * bigN, bigN);
      LimbWritten(mask[..], random, l, n, bigN, bigN / n);
      forall k | 0 <= k < l
        ensures LimbDone(mask[..], random, k, n, bigN, bigN / n)
      {
        LimbStays(before, mask[..], random, l, k, n, bigN, bigN / n);
      }
    }
  }

  lemma LimbWritten(long: seq<u64>, short: seq<u64>, l: nat, n: nat, bigN: nat, gap: nat)
    requires gap >= 1 && l * bigN + bigN <= |long|
    requires forall x | 0 <= x < |long| && l * bigN <= x < l * bigN + bigN ::
      long[x] == SpreadWord(short, l * n, gap, x - l * bigN)
    ensures LimbDone(long, short, l, n, bigN, gap)
  {
    hide SpreadWord;
  }

  method FlipSigns(out: array<u64>, bits: nat)
    modifies out
    ensures forall i | 0 <= i < out.Length :: out[i] == Negated(old(out[i]), bits)
  {
    hide Pow2;
    for i := 0 to out.Length
      invariant forall k | 0 <= k < out.Length :: out[k] == if k < i then Negated(old(out[k]), bits) else old(out[k])
    {
      RemainderFits((W64 - out[i]) % W64, Pow2(bits));
      out[i] := ((W64 - out[i]) % W64) % Pow2(bits);
    }
  }

  lemma RemainderFits(x: u64, p: nat)
    requires p >= 1
    ensures 0 <= x % p <= x
  {
    DivMod(x, p);
    DivNonneg(x, p);
    if x / p > 0 {
      Scaled(p, 1, x / p);
    }
  }

  /** SampleMask of MatVec: the mask's length is the padded number of rows, whichever branch is taken. */
  method SampleMask(helper: ModulusSwitchHelper, bits: nat, random: seq<u64>, lgN: nat, outMask: array<u64>)
    returns (mask: Result<array<u64>>)
    requires helper.Valid() && 1 <= outMask.Length <= Pow2(lgN)
    requires |random| == |helper.moduli| * NextPow2(outMask.Length)
    modifies outMask
    ensures NextPow2(outMask.Length) >= outMask.Length
    ensures mask.Ok? && fresh(mask.value) && mask.value.Length == |helper.moduli| * Pow2(lgN)
    ensures SpreadOut(random, mask.value[..], |helper.moduli|, NextPow2(outMask.Length), Pow2(lgN))
    ensures Positive(helper.moduli) && Product(helper.moduli) >= 1
    ensures forall i | 0 <= i < outMask.Length ::
      outMask[i] == MaskShare(helper.moduli, random, NextPow2(outMask.Length), i, helper.baseModBitlen, bits)
  {
    hide Pow2, NextPow2, DownAt, Negated, SpreadOut, IsBase, Product;
    BaseFacts(helper.moduli);
    NextPow2IsLeast(outMask.Length);
    var bigN := Pow2(lgN);
    if bigN % outMask.Length == 0 {
      DividesPow2(outMask.Length, lgN);
      mask := RandomVector(helper, bits, random, bigN, outMask);
    } else {
      PaddedDivides(outMask.Length, lgN);
      var tmp := new u64[NextPow2(outMask.Length)];
      mask := RandomVector(helper, bits, random, bigN, tmp);
      for i := 0 to outMask.Length
        invariant forall k | 0 <= k < i :: outMask[k] == tmp[k]
        invariant mask.Ok? && mask.value != outMask
        invariant SpreadOut(random, mask.value[..], |helper.moduli|, tmp.Length, bigN)
        invariant forall k | 0 <= k < tmp.Length ::
          tmp[k] == MaskShare(helper.moduli, random, tmp.Length, k, helper.baseModBitlen, bits)
      {
        outMask[i] := tmp[i];
      }
    }
  }

  /** A divisor of a power of two is one. */
  lemma {:induction false} DividesPow2(n: nat, k: nat)
    requires n >= 1 && Pow2(k) % n == 0
    ensures NextPow2(n) == n
  {
    if n >= 3 {
      DivisorIsPow2(n, k);
    }
  }

  lemma {:induction false} DivisorIsPow2(n: nat, k: nat)
    requires n >= 1 && Pow2(k) % n == 0
    ensures IsTwoPower(n)
  {
    var m := Factor(Pow2(k), n);
    if k == 0 {
      if n >= 2 {
        MultipleIsLarge(m, n);
      }
    } else if n % 2 == 0 {
      assert Pow2(k - 1) == m * (n / 2);
      ModMultiple(0, m, n / 2);
      DivisorIsPow2(n / 2, k - 1);
    } else {
      OddFactor(m, n, Pow2(k - 1));
      ModMultiple(0, m / 2, n);
      DivisorIsPow2(n, k - 1);
    }
  }

  lemma OddFactor(m: int, n: nat, half: nat)
    requires n % 2 == 1 && 2 * half == m * n
    ensures half == (m / 2) * n
  {
    var h := n / 2;
    assert m * n == 2 * (m * h) + m;
    assert m == 2 * (m / 2);
    assert m * n == 2 * ((m / 2) * n);
  }

  lemma PaddedDivides(n: nat, lgN: nat)
    requires 1 <= n <= Pow2(lgN)
    ensures 1 <= NextPow2(n) <= Pow2(lgN) && Pow2(lgN) % NextPow2(n) == 0
  {
    NextPow2IsLeast(n);
    var k := Log2(NextPow2(n));
    SmallerExponent(k, lgN);
    Pow2Add(lgN - k, k);
    ModMultiple(0, Pow2(lgN - k), Pow2(k));
  }

  /** One limb of DropUnusedCoeffs. */
  method DropLimb(ct0: array<u64>, off: nat, degree: nat, gap: nat)
    requires off + degree <= ct0.Length
    modifies ct0
    ensures forall x | 0 <= x < ct0.Length ::
      ct0[x] == if off <= x < off + degree && (x - off) % (gap + 1) != 0 then 0 else old(ct0[x])
  {
    for pos := 0 to degree
      invariant forall x | 0 <= x < ct0.Length ::
        ct0[x] == if off <= x < off + pos && (x - off) % (gap + 1) != 0 then 0 else old(ct0[x])
    {
      if pos % (gap + 1) == 0 {  // pos & gap, gap being one less than a power of two
        continue;
      }
      ct0[off + pos] := 0;
    }
  }

  /** Every stride-th coefficient holds a result. */
  function Stride(nrows: nat, lgN: nat): (g: nat)
    requires 1 <= nrows <= Pow2(lgN)
    ensures g >= 1
  {
    PaddedDivides(nrows, lgN);
    GapTimes(Pow2(lgN), NextPow2(nrows));
    Pow2(lgN) / NextPow2(nrows)
  }

  ghost predicate LimbDropped(s0: seq<u64>, s1: seq<u64>, l: nat, degree: nat, stride: nat)
    requires stride >= 1
  {
    forall x | l * degree <= x < l * degree + degree ::
      WordAt(s1, x) == if (x - l * degree) % stride == 0 then WordAt(s0, x) else 0
  }

  /** DropUnusedCoeffs: in every limb the multiples of the stride survive, and nothing else. */
  method DropUnusedCoeffs(ct0: array<u64>, num: nat, lgN: nat, nrows: nat)
    requires 1 <= nrows <= Pow2(lgN) && ct0.Length == num * Pow2(lgN)
    modifies ct0
    ensures forall l | 0 <= l < num :: LimbDropped(old(ct0[..]), ct0[..], l, Pow2(lgN), Stride(nrows, lgN))
  {
    hide Pow2, Stride, LimbDropped;
    var degree, stride := Pow2(lgN), Stride(nrows, lgN);
    var gap := stride - 1;
    for l := 0 to num
      invariant forall k | 0 <= k < l :: LimbDropped(old(ct0[..]), ct0[..], k, degree, stride)
      invariant forall x | 0 <= x < ct0.Length && l * degree <= x :: ct0[x] == old(ct0[x])
    {
      BlockInside(l, num, degree);
      ghost var before := ct0[..];
      DropLimb(ct0, l * degree, degree, gap);
      DroppedSoFar(old(ct0[..]), before, ct0[..], l, degree, stride);
    }
  }

  lemma DroppedSoFar(s: seq<u64>, s0: seq<u64>, s1: seq<u64>, l: nat, degree: nat, stride: nat)
    requires stride >= 1 && |s| == |s0| == |s1| && l * degree + degree <= |s| && l * degree >= 0
    requires forall k | 0 <= k < l :: LimbDropped(s, s0, k, degree, stride)
    requires forall x | l * degree <= x < |s| :: s0[x] == s[x]
    requires forall x | 0 <= x < |s| ::
      s1[x] == if l * degree <= x < l * degree + degree && (x - l * degree) % stride != 0 then 0 else s0[x]
    ensures forall k | 0 <= k < l + 1 :: LimbDropped(s, s1, k, degree, stride)
  {
    forall k | 0 <= k < l
      ensures LimbDropped(s, s1, k, degree, stride)
    {
      BlockInside(k, l, degree);
      forall x | k * degree <= x < k * degree + degree
        ensures WordAt(s1, x) == if (x - k * degree) % stride == 0 then WordAt(s, x) else 0
      {
        assert LimbDropped(s, s0, k, degree, stride);
        assert WordAt(s0, x) == if (x - k * degree) % stride == 0 then WordAt(s, x) else 0;
        assert WordAt(s1, x) == WordAt(s0, x);
      }
    }
    assert LimbDropped(s, s1, l, degree, stride);
  }

  lemma StrideKept(s0: seq<u64>, s1: seq<u64>, num: nat, lgN: nat, nrows: nat, i: nat)
    requires 1 <= nrows <= Pow2(lgN) && i < NextPow2(nrows)
    requires forall l | 0 <= l < num :: LimbDropped(s0, s1, l, Pow2(lgN), Stride(nrows, lgN))
    ensures var pos := i * Stride(nrows, lgN);
      0 <= pos && Limbs(s1, num, Pow2(lgN), pos) == Limbs(s0, num, Pow2(lgN), pos)
  {
    hide Pow2, NextPow2, WordAt;
    var degree, stride := Pow2(lgN), Stride(nrows, lgN);
    PaddedDivides(nrows, lgN);
    GapTimes(degree, NextPow2(nrows));
    StrideInside(i, NextPow2(nrows), stride);
    ModMultiple(0, i, stride);
    forall l | 0 <= l < num
      ensures WordAt(s1, l * degree + i * stride) == WordAt(s0, l * degree + i * stride)
    {
      assert LimbDropped(s0, s1, l, degree, stride);
      assert l * degree + i * stride - l * degree == 0 + i * stride;
    }
  }

  /** The coefficients Decrypt reads: num limbs of nrows words, stride by stride. */
  method ExtractRows(pt: seq<u64>, num: nat, lgN: nat, nrows: nat) returns (coeffs: array<u64>)
    requires 1 <= nrows <= Pow2(lgN) && |pt| == num * Pow2(lgN)
    ensures coeffs.Length == num * nrows
    ensures forall i | 0 <= i < nrows :: RowRead(coeffs[..], pt, num, lgN, nrows, i)
  {
    hide Pow2, Stride, NextPow2;
    var stride := Stride(nrows, lgN);
    coeffs := new u64[num * nrows];
    for l := 0 to num
      invariant forall k, i | 0 <= k < l && 0 <= i < nrows :: WordRead(coeffs[..], pt, k, lgN, nrows, i, stride)
    {
      BlockInside(l, num, nrows);
      BlockInside(l, num, Pow2(lgN));
      for i := 0 to nrows
        invariant forall k, x | 0 <= k < l && 0 <= x < nrows :: WordRead(coeffs[..], pt, k, lgN, nrows, x, stride)
        invariant forall x | 0 <= x < i :: WordRead(coeffs[..], pt, l, lgN, nrows, x, stride)
      {
        ghost var before := coeffs[..];
        RowStrideInside(nrows, lgN, i);
        coeffs[l * nrows + i] := pt[l * Pow2(lgN) + i * stride];
        EarlierWordsKept(before, coeffs[..], pt, l, i, lgN, nrows, stride);
      }
    }
    forall i | 0 <= i < nrows
      ensures RowRead(coeffs[..], pt, num, lgN, nrows, i)
    {
      RowOfWords(coeffs[..], pt, num, lgN, nrows, i, stride);
    }
  }

  ghost predicate RowRead(coeffs: seq<u64>, pt: seq<u64>, num: nat, lgN: nat, nrows: nat, i: nat)
    requires 1 <= nrows <= Pow2(lgN)
  {
    Limbs(coeffs, num, nrows, i) == Limbs(pt, num, Pow2(lgN), i * Stride(nrows, lgN))
  }

  ghost predicate WordRead(coeffs: seq<u64>, pt: seq<u64>, l: nat, lgN: nat, nrows: nat, i: nat, stride: nat) {
    WordAt(coeffs, l * nrows + i) == WordAt(pt, l * Pow2(lgN) + i * stride)
  }

  lemma RowStrideInside(nrows: nat, lgN: nat, i: nat)
    requires 1 <= nrows <= Pow2(lgN) && i < nrows
    ensures 0 <= i * Stride(nrows, lgN) < Pow2(lgN) && i < NextPow2(nrows)
  {
    hide Pow2, NextPow2;
    PaddedDivides(nrows, lgN);
    NextPow2IsLeast(nrows);
    GapTimes(Pow2(lgN), NextPow2(nrows));
    StrideInside(i, NextPow2(nrows), Stride(nrows, lgN));
  }

  lemma EarlierWordsKept(c0: seq<u64>, c1: seq<u64>, pt: seq<u64>, l: nat, i: nat, lgN: nat, nrows: nat, stride: nat)
    requires i < nrows && |c0| == |c1| && 0 <= l * nrows && l * nrows + nrows <= |c0|
    requires 0 <= l * Pow2(lgN) + i * stride < |pt|
    requires c1 == c0[l * nrows + i := pt[l * Pow2(lgN) + i * stride]]
    requires forall k, x | 0 <= k < l && 0 <= x < nrows :: WordRead(c0, pt, k, lgN, nrows, x, stride)
    requires forall x | 0 <= x < i :: WordRead(c0, pt, l, lgN, nrows, x, stride)
    ensures forall k, x | 0 <= k < l && 0 <= x < nrows :: WordRead(c1, pt, k, lgN, nrows, x, stride)
    ensures forall x | 0 <= x < i + 1 :: WordRead(c1, pt, l, lgN, nrows, x, stride)
  {
    hide Pow2;
    forall k, x | 0 <= k < l && 0 <= x < nrows
      ensures WordRead(c1, pt, k, lgN, nrows, x, stride)
    {
      BlockInside(k, l, nrows);
      assert WordRead(c0, pt, k, lgN, nrows, x, stride);
    }
    forall x | 0 <= x < i
      ensures WordRead(c1, pt, l, lgN, nrows, x, stride)
    {
      assert WordRead(c0, pt, l, lgN, nrows, x, stride);
    }
    assert WordRead(c1, pt, l, lgN, nrows, i, stride);
  }

  lemma RowOfWords(coeffs: seq<u64>, pt: seq<u64>, num: nat, lgN: nat, nrows: nat, i: nat, stride: nat)
    requires 1 <= nrows <= Pow2(lgN) && stride == Stride(nrows, lgN)
    requires forall k | 0 <= k < num :: WordRead(coeffs, pt, k, lgN, nrows, i, stride)
    ensures RowRead(coeffs, pt, num, lgN, nrows, i)
  {
    hide Pow2, WordAt;
    assert i * stride >= 0;
    forall k | 0 <= k < num
      ensures WordAt(coeffs, k * nrows + i) == WordAt(pt, k * Pow2(lgN) + i * stride)
    {
      assert WordRead(coeffs, pt, k, lgN, nrows, i, stride);
    }
  }

  /** Decrypt from the decrypted polynomial on: result i is the rounded value of coefficient i * stride. */
  method DecryptRows(helper: ModulusSwitchHelper, pt: seq<u64>, lgN: nat, out: array<u64>)
    requires helper.Valid() && 1 <= out.Length <= Pow2(lgN) && |pt| == |helper.moduli| * Pow2(lgN)
    modifies out
    ensures Positive(helper.moduli) && Product(helper.moduli) >= 1
    ensures forall i | 0 <= i < out.Length ::
      0 <= i * Stride(out.Length, lgN) &&
      out[i] == DownAt(helper.moduli, pt, Pow2(lgN), i * Stride(out.Length, lgN), helper.baseModBitlen)
  {
    hide Pow2, Stride, NextPow2, IsBase, Product, Limbs, Compose, Down;
    BaseFacts(helper.moduli);
    ghost var stride := Stride(out.Length, lgN);
    if out.Length < Pow2(lgN) {
      var coeffs := ExtractRows(pt, |helper.moduli|, lgN, out.Length);
      var ok := helper.ModulusDownRNS(coeffs[..], out);
      forall i | 0 <= i < out.Length
        ensures 0 <= i * stride && out[i] == DownAt(helper.moduli, pt, Pow2(lgN), i * stride, helper.baseModBitlen)
      {
        RowStrideInside(out.Length, lgN, i);
        assert RowRead(coeffs[..], pt, |helper.moduli|, lgN, out.Length, i);
      }
    } else {
      var ok := helper.ModulusDownRNS(pt, out);
      FullStride(lgN);
    }
  }

  lemma FullStride(lgN: nat)
    ensures Stride(Pow2(lgN), lgN) == 1
  {
    Pow2IsTwoPower(lgN);
    ModMultiple(0, 1, Pow2(lgN));
  }

  lemma StrideIs(nrows: nat, lgN: nat)
    requires 1 <= nrows <= Pow2(lgN)
    ensures NextPow2(nrows) >= 1 && Stride(nrows, lgN) == Pow2(lgN) / NextPow2(nrows)
  {
    PaddedDivides(nrows, lgN);
  }

  // ---------------------------------------------------------------------------
  // Masking, thinning and decrypting together

  /** Limb l of s is the sum of those of a and b modulo m. */
  ghost predicate LimbAdded(a: seq<u64>, b: seq<u64>, s: seq<u64>, l: nat, degree: nat, m: nat)
    requires m >= 1
  {
    forall x | l * degree <= x < l * degree + degree :: WordAt(s, x) == (WordAt(a, x) + WordAt(b, x)) % m
  }

  ghost predicate LimbsAdded(a: seq<u64>, b: seq<u64>, s: seq<u64>, q: seq<nat>, degree: nat)
    requires Positive(q)
  {
    forall l | 0 <= l < |q| :: LimbAdded(a, b, s, l, degree, q[l])
  }

  method AddLimb(ct: array<u64>, pt: seq<u64>, off: nat, degree: nat, m: nat)
    requires 1 <= m < W64 && off + degree <= ct.Length == |pt|
    modifies ct
    ensures forall x | 0 <= x < ct.Length ::
      ct[x] == if off <= x < off + degree then (old(ct[x]) + pt[x]) % m else old(ct[x])
  {
    for pos := 0 to degree
      invariant forall x | 0 <= x < ct.Length ::
        ct[x] == if off <= x < off + pos then (old(ct[x]) + pt[x]) % m else old(ct[x])
    {
      ct[off + pos] := (ct[off + pos] + pt[off + pos]) % m;
    }
  }

  /** add_plain_inplace: part 0 of a ciphertext becomes its sum with pt, limb by limb; a wrong size changes nothing. */
  method AddPlain(ct: array<u64>, pt: seq<u64>, moduli: seq<nat>, degree: nat) returns (ok: bool)
    requires Positive(moduli) && (forall j | 0 <= j < |moduli| :: moduli[j] < W64)
    requires ct.Length == |moduli| * degree
    modifies ct
    ensures ok <==> |pt| == |moduli| * degree
    ensures ok ==> LimbsAdded(old(ct[..]), pt, ct[..], moduli, degree)
    ensures !ok ==> ct[..] == old(ct[..])
  {
    hide LimbAdded;
    if |pt| != |moduli| * degree {
      return false;
    }
    for l := 0 to |moduli|
      invariant forall k | 0 <= k < l :: LimbAdded(old(ct[..]), pt, ct[..], k, degree, moduli[k])
      invariant forall x | 0 <= x < ct.Length && l * degree <= x :: ct[x] == old(ct[x])
    {
      BlockInside(l, |moduli|, degree);
      ghost var before := ct[..];
      AddLimb(ct, pt, l * degree, degree, moduli[l]);
      AddedSoFar(old(ct[..]), pt, before, ct[..], l, degree, moduli, moduli[l]);
    }
    return true;
  }

  lemma AddedSoFar(s: seq<u64>, pt: seq<u64>, s0: seq<u64>, s1: seq<u64>, l: nat, degree: nat, q: seq<nat>,
                   m: nat)
    requires Positive(q) && l < |q| && m == q[l] && 1 <= m < W64
    requires |s| == |pt| == |s0| == |s1| && l * degree + degree <= |s| && l * degree >= 0
    requires forall k | 0 <= k < l :: LimbAdded(s, pt, s0, k, degree, q[k])
    requires forall x | l * degree <= x < |s| :: s0[x] == s[x]
    requires forall x | 0 <= x < |s| ::
      s1[x] == if l * degree <= x < l * degree + degree then (s0[x] + pt[x]) % m else s0[x]
    ensures forall k | 0 <= k < l + 1 :: LimbAdded(s, pt, s1, k, degree, q[k])
  {
    forall k | 0 <= k < l
      ensures LimbAdded(s, pt, s1, k, degree, q[k])
    {
      BlockInside(k, l, degree);
      forall x | k * degree <= x < k * degree + degree
        ensures WordAt(s1, x) == (WordAt(s, x) + WordAt(pt, x)) % q[k]
      {
        assert LimbAdded(s, pt, s0, k, degree, q[k]);
        assert WordAt(s0, x) == (WordAt(s, x) + WordAt(pt, x)) % q[k];
        assert WordAt(s1, x) == WordAt(s0, x);
      }
    }
    assert LimbAdded(s, pt, s1, l, degree, q[l]);
  }

  lemma SumAt(a: seq<u64>, b: seq<u64>, s: seq<u64>, q: seq<nat>, degree: nat, pos: nat, j: nat)
    requires Positive(q) && LimbsAdded(a, b, s, q, degree) && j < |q| && pos < degree
    ensures Limbs(s, |q|, degree, pos)[j] ==
      (Limbs(a, |q|, degree, pos)[j] + Limbs(b, |q|, degree, pos)[j]) % q[j]
  {
    hide WordAt;
    assert LimbAdded(a, b, s, j, degree, q[j]);
  }

  /** Which of two summands comes first does not matter modulo q. */
  lemma SwapSum(a: int, m: int, r: int, q: nat)
    requires q >= 1
    ensures ((a + m) % q + r) % q == ((a + r) % q + m) % q
  {
    hide Cong;
    ModIdempotent(a + m, q);
    Add((a + m) % q, a + m, r, r, q);
    ModIdempotent(a + r, q);
    Add((a + r) % q, a + r, m, m, q);
    CongIs((a + m) % q + r, a + m + r, q);
    CongIs((a + r) % q + m, a + r + m, q);
  }

  /**
   Thinning part 0 after the mask went in is harmless: at every row the
   decrypted sum is the plain one plus the mask.
   */
  lemma ThinnedSum(q: seq<nat>, lgN: nat, nrows: nat, i: nat, ct0: seq<u64>, mask: seq<u64>, masked: seq<u64>,
                   thinned: seq<u64>, rest: seq<u64>, decrypted: seq<u64>, plain: seq<u64>, j: nat)
    requires Positive(q) && i < nrows <= Pow2(lgN) && j < |q|
    requires LimbsAdded(ct0, mask, masked, q, Pow2(lgN))
    requires forall l | 0 <= l < |q| :: LimbDropped(masked, thinned, l, Pow2(lgN), Stride(nrows, lgN))
    requires LimbsAdded(thinned, rest, decrypted, q, Pow2(lgN)) && LimbsAdded(ct0, rest, plain, q, Pow2(lgN))
    ensures var bigN, pos := Pow2(lgN), i * Stride(nrows, lgN);
      pos >= 0 && Limbs(decrypted, |q|, bigN, pos)[j] ==
      (Limbs(plain, |q|, bigN, pos)[j] + Limbs(mask, |q|, bigN, pos)[j]) % q[j]
  {
    hide Pow2, NextPow2, Stride, LimbsAdded, LimbDropped, Limbs;
    var bigN, pos := Pow2(lgN), i * Stride(nrows, lgN);
    RowStrideInside(nrows, lgN, i);
    StrideKept(masked, thinned, |q|, lgN, nrows, i);
    SumAt(ct0, mask, masked, q, bigN, pos, j);
    SumAt(thinned, rest, decrypted, q, bigN, pos, j);
    SumAt(ct0, rest, plain, q, bigN, pos, j);
    SwapSum(Limbs(ct0, |q|, bigN, pos)[j], Limbs(mask, |q|, bigN, pos)[j], Limbs(rest, |q|, bigN, pos)[j], q[j]);
  }

  /** Where a polynomial differs from plain by the mask, its decryption and the mask's share add up to plain's. */
  lemma MaskedRow(q: seq<nat>, base: nat, bits: nat, lgN: nat, nrows: nat, i: nat,
                  plain: seq<u64>, mask: seq<u64>, masked: seq<u64>, random: seq<u64>) returns (d: int)
    requires IsBase(q) && Positive(q) && Product(q) >= 1 && bits <= base <= 64
    requires 1 <= i + 1 <= nrows <= Pow2(lgN) && NextPow2(nrows) >= 1 && 0 <= i * Stride(nrows, lgN)
    requires SpreadOut(random, mask, |q|, NextPow2(nrows), Pow2(lgN))
    requires Reduced(Limbs(plain, |q|, Pow2(lgN), i * Stride(nrows, lgN)), q)
    requires Reduced(Limbs(random, |q|, NextPow2(nrows), i), q)
    requires forall j | 0 <= j < |q| ::
      Limbs(masked, |q|, Pow2(lgN), i * Stride(nrows, lgN))[j] ==
      (Limbs(plain, |q|, Pow2(lgN), i * Stride(nrows, lgN))[j] +
       Limbs(mask, |q|, Pow2(lgN), i * Stride(nrows, lgN))[j]) % q[j]
    ensures -1 <= d <= 1
    ensures Cong(DownAt(q, masked, Pow2(lgN), i * Stride(nrows, lgN), base) +
                 MaskShare(q, random, NextPow2(nrows), i, base, bits),
                 DownAt(q, plain, Pow2(lgN), i * Stride(nrows, lgN), base) + d, Pow2(bits))
  {
    hide IsBase, Reduced, Compose, Product, Pow2, NextPow2, Stride, Limbs, Down, Negated, Cong;
    var bigN, n, pos := Pow2(lgN), NextPow2(nrows), i * Stride(nrows, lgN);
    RowStrideInside(nrows, lgN, i);
    StrideIs(nrows, lgN);
    var a, r := Limbs(plain, |q|, bigN, pos), Limbs(random, |q|, n, i);
    assert Limbs(mask, |q|, bigN, pos) == r;
    LimbSum(a, r, Limbs(masked, |q|, bigN, pos), q);
    ComposeIsValue(a, q);
    ComposeIsValue(r, q);
    d := SharesReconstruct(Compose(a, q), Compose(r, q), Product(q), base, bits);
  }

  /** The two shares add up to z modulo 2^bits, up to one. */
  ghost predicate SharesOf(share0: int, share1: int, z: int, bits: nat) {
    || Cong(share0 + share1, z - 1, Pow2(bits))
    || Cong(share0 + share1, z, Pow2(bits))
    || Cong(share0 + share1, z + 1, Pow2(bits))
  }

  ghost predicate ReducedAt(words: seq<u64>, q: seq<nat>, n: nat) {
    forall i: nat | i < n :: Reduced(Limbs(words, |q|, n, i), q)
  }

  lemma SumReduced(a: seq<u64>, b: seq<u64>, s: seq<u64>, q: seq<nat>, degree: nat, pos: nat)
    requires Positive(q) && LimbsAdded(a, b, s, q, degree) && pos < degree
    ensures Reduced(Limbs(s, |q|, degree, pos), q)
  {
    hide LimbsAdded, Limbs;
    forall j | 0 <= j < |q|
      ensures Limbs(s, |q|, degree, pos)[j] < q[j]
    {
      SumAt(a, b, s, q, degree, pos, j);
    }
  }

  /**
   For every row: the decryption of the masked, thinned-out ciphertext and the mask's share
   are shares of the decryption of the unmasked ciphertext. Part 0 of the ciphertext is ct0,
   the product of part 1 with the key is rest.
   */
  lemma ThinnedShares(q: seq<nat>, base: nat, bits: nat, lgN: nat, nrows: nat, i: nat, ct0: seq<u64>, mask: seq<u64>,
                      masked: seq<u64>, thinned: seq<u64>, rest: seq<u64>, decrypted: seq<u64>, plain: seq<u64>,
                      random: seq<u64>)
    requires IsBase(q) && Positive(q) && Product(q) >= 1 && bits <= base <= 64
    requires i < nrows <= Pow2(lgN) && NextPow2(nrows) >= 1
    requires SpreadOut(random, mask, |q|, NextPow2(nrows), Pow2(lgN)) && ReducedAt(random, q, NextPow2(nrows))
    requires LimbsAdded(ct0, mask, masked, q, Pow2(lgN))
    requires forall l | 0 <= l < |q| :: LimbDropped(masked, thinned, l, Pow2(lgN), Stride(nrows, lgN))
    requires LimbsAdded(thinned, rest, decrypted, q, Pow2(lgN)) && LimbsAdded(ct0, rest, plain, q, Pow2(lgN))
    ensures 0 <= i * Stride(nrows, lgN)
    ensures SharesOf(DownAt(q, decrypted, Pow2(lgN), i * Stride(nrows, lgN), base),
                     MaskShare(q, random, NextPow2(nrows), i, base, bits),
                     DownAt(q, plain, Pow2(lgN), i * Stride(nrows, lgN), base), bits)
  {
    hide IsBase, Reduced, Product, Pow2, NextPow2, Stride, LimbsAdded, LimbDropped, SpreadOut, Limbs, DownAt, MaskShare,
         Cong;
    RowStrideInside(nrows, lgN, i);
    SumReduced(ct0, rest, plain, q, Pow2(lgN), i * Stride(nrows, lgN));
    forall j | 0 <= j < |q|
      ensures Limbs(decrypted, |q|, Pow2(lgN), i * Stride(nrows, lgN))[j] ==
        (Limbs(plain, |q|, Pow2(lgN), i * Stride(nrows, lgN))[j] +
         Limbs(mask, |q|, Pow2(lgN), i * Stride(nrows, lgN))[j]) % q[j]
    {
      ThinnedSum(q, lgN, nrows, i, ct0, mask, masked, thinned, rest, decrypted, plain, j);
    }
    var d := MaskedRow(q, base, bits, lgN, nrows, i, plain, mask, decrypted, random);
  }

  /** MatVec after the product: sample the mask, add it to part 0, drop the coefficients nobody reads. */
  method MaskResult(helper: ModulusSwitchHelper, bits: nat, random: seq<u64>, lgN: nat, ct0: array<u64>,
                    outMask: array<u64>)
    returns (ghost mask: seq<u64>, ghost masked: seq<u64>)
    requires helper.Valid() && 1 <= outMask.Length <= Pow2(lgN) && ct0 != outMask
    requires |random| == |helper.moduli| * NextPow2(outMask.Length) && ct0.Length == |helper.moduli| * Pow2(lgN)
    modifies ct0, outMask
    ensures Positive(helper.moduli) && Product(helper.moduli) >= 1 && NextPow2(outMask.Length) >= 1
    ensures SpreadOut(random, mask, |helper.moduli|, NextPow2(outMask.Length), Pow2(lgN))
    ensures LimbsAdded(old(ct0[..]), mask, masked, helper.moduli, Pow2(lgN))
    ensures forall l | 0 <= l < |helper.moduli| ::
      LimbDropped(masked, ct0[..], l, Pow2(lgN), Stride(outMask.Length, lgN))
    ensures forall i | 0 <= i < outMask.Length ::
      outMask[i] == MaskShare(helper.moduli, random, NextPow2(outMask.Length), i, helper.baseModBitlen, bits)
  {
    hide Pow2, NextPow2, Stride, IsBase, Product, SpreadOut, LimbsAdded, LimbDropped, MaskShare;
    BaseFacts(helper.moduli);
    var maskPoly := SampleMask(helper, bits, random, lgN, outMask);
    mask := maskPoly.value[..];
    var ok := AddPlain(ct0, maskPoly.value[..], helper.moduli, Pow2(lgN));
    masked := ct0[..];
    DropUnusedCoeffs(ct0, |helper.moduli|, lgN, outMask.Length);
  }

  /** Decrypt: part 0 plus rest, the product of part 1 with the key, then the rounded rows. */
  method Decrypt(helper: ModulusSwitchHelper, ct0: array<u64>, rest: seq<u64>, lgN: nat, out: array<u64>)
    returns (ghost decrypted: seq<u64>)
    requires helper.Valid() && 1 <= out.Length <= Pow2(lgN) && ct0 != out
    requires ct0.Length == |rest| == |helper.moduli| * Pow2(lgN)
    modifies ct0, out
    ensures Positive(helper.moduli) && Product(helper.moduli) >= 1
    ensures LimbsAdded(old(ct0[..]), rest, decrypted, helper.moduli, Pow2(lgN))
    ensures forall i | 0 <= i < out.Length ::
      0 <= i * Stride(out.Length, lgN) &&
      out[i] == DownAt(helper.moduli, decrypted, Pow2(lgN), i * Stride(out.Length, lgN), helper.baseModBitlen)
  {
    hide Pow2, NextPow2, Stride, IsBase, Product, LimbsAdded, DownAt;
    BaseFacts(helper.moduli);
    var ok := AddPlain(ct0, rest, helper.moduli, Pow2(lgN));
    decrypted := ct0[..];
    DecryptRows(helper, ct0[..], lgN, out);
  }

  /**
   The whole way of a masked result: sampled, added to part 0, thinned out, decrypted. For every
   row, what Decrypt returns and what the sampler keeps are shares, modulo 2^bits, of the
   decryption without a mask, whatever the ciphertext, the key and the mask are.
   */
  method MaskAndDecrypt(helper: ModulusSwitchHelper, bits: nat, random: seq<u64>, lgN: nat, ct0: array<u64>,
                        rest: seq<u64>, outMask: array<u64>, out: array<u64>, ghost plain: seq<u64>)
    requires helper.Valid() && bits <= helper.baseModBitlen && 1 <= out.Length == outMask.Length <= Pow2(lgN)
    requires ct0 != outMask && ct0 != out && out != outMask
    requires |random| == |helper.moduli| * NextPow2(out.Length)
    requires ReducedAt(random, helper.moduli, NextPow2(out.Length))
    requires ct0.Length == |rest| == |helper.moduli| * Pow2(lgN) && Positive(helper.moduli)
    requires LimbsAdded(ct0[..], rest, plain, helper.moduli, Pow2(lgN))
    modifies ct0, outMask, out
    ensures Product(helper.moduli) >= 1
    ensures forall i | 0 <= i < out.Length ::
      0 <= i * Stride(out.Length, lgN) &&
      SharesOf(out[i], outMask[i],
               DownAt(helper.moduli, plain, Pow2(lgN), i * Stride(out.Length, lgN), helper.baseModBitlen), bits)
  {
    hide Pow2, NextPow2, Stride, IsBase, Product, SpreadOut, LimbsAdded, LimbDropped, MaskShare, DownAt, SharesOf,
         ReducedAt;
    ghost var before := ct0[..];
    ghost var mask, masked := MaskResult(helper, bits, random, lgN, ct0, outMask);
    ghost var thinned := ct0[..];
    ghost var decrypted := Decrypt(helper, ct0, rest, lgN, out);
    forall i | 0 <= i < out.Length
      ensures 0 <= i * Stride(out.Length, lgN) &&
        SharesOf(out[i], outMask[i],
                 DownAt(helper.moduli, plain, Pow2(lgN), i * Stride(out.Length, lgN), helper.baseModBitlen), bits)
    {
      ThinnedShares(helper.moduli, helper.baseModBitlen, bits, lgN, out.Length, i, before, mask, masked, thinned, rest,
                    decrypted, plain, random);
    }
  }

  /** UpdateMatVec's embedding of a short vector: the same stride, zeros in between. */
  method AlignVector(plain: seq<u64>, lgN: nat) returns (aligned: array<u64>)
    requires 1 <= |plain| <= Pow2(lgN)
    ensures aligned.Length == Pow2(lgN)
    ensures forall p | 0 <= p < Pow2(lgN) :: aligned[p] == SpreadWord(plain, 0, Stride(|plain|, lgN), p)
    ensures forall i | 0 <= i < |plain| ::
      0 <= i * Stride(|plain|, lgN) < Pow2(lgN) && aligned[i * Stride(|plain|, lgN)] == plain[i]
  {
    hide Pow2, NextPow2, Stride, SpreadWord, PartlySpread, WordAt;
    var bigN, gap := Pow2(lgN), Stride(|plain|, lgN);
    aligned := new u64[bigN](_ => 0);
    var j := 0;
    NoneSpread(plain, 0, gap, bigN);
    for i := 0 to |plain|
      invariant j == i * gap
      invariant forall p | 0 <= p < bigN :: aligned[p] == PartlySpread(plain, 0, gap, i, p)
    {
      RowStrideInside(|plain|, lgN, i);
      OneSpread(plain, 0, gap, i, i + 1);
      WordIs(plain, i);
      aligned[j] := plain[i];
      forall p | 0 <= p < bigN
        ensures aligned[p] == PartlySpread(plain, 0, gap, i + 1, p)
      {
        assert SpreadMoves(plain, 0, gap, i, i + 1, p);
      }
      assert (i + 1) * gap == i * gap + gap;
      j := j + gap;
    }
    forall p | 0 <= p < bigN
      ensures PartlySpread(plain, 0, gap, |plain|, p) == SpreadWord(plain, 0, gap, p)
    {
      ShortSpread(plain, gap, p);
    }
    forall i | 0 <= i < |plain|
      ensures 0 <= i * gap < bigN && aligned[i * gap] == plain[i]
    {
      RowStrideInside(|plain|, lgN, i);
      SpreadAtStride(plain, gap, i);
    }
  }

  /** Past the last word of a short vector there is nothing to spread. */
  lemma ShortSpread(plain: seq<u64>, gap: nat, p: nat)
    requires gap >= 1
    ensures PartlySpread(plain, 0, gap, |plain|, p) == SpreadWord(plain, 0, gap, p)
  {
    DivNonneg(p, gap);
  }

  lemma SpreadAtStride(plain: seq<u64>, gap: nat, i: nat)
    requires gap >= 1 && i < |plain|
    ensures SpreadWord(plain, 0, gap, i * gap) == plain[i]
  {
    ModMultiple(0, i, gap);
  }

  /** With the columns set to the degree, as UpdateMatVec does, the aligned vector is a single chunk. */
  lemma OneChunk(nrows: nat, lgN: nat)
    requires 1 <= nrows <= Pow2(lgN)
    ensures TileShape(nrows, Pow2(lgN), Pow2(lgN)).cols == Pow2(lgN)
    ensures CeilDiv(Pow2(lgN), TileShape(nrows, Pow2(lgN), Pow2(lgN)).cols) == 1
  {
    var s, k := ShapeFits(nrows, Pow2(lgN), lgN);
    CeilDivIs(Pow2(lgN), Pow2(lgN), 1);
  }
}

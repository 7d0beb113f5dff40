/** Dropping the last modulus q_k of a ciphertext in transformed form, with rounding. */
module DivideRound {
  import opened Modular
  import opened Polynomial
  import opened Twiddle
  import opened Butterfly
  import opened Ntt
  import Convolution

  /** Each coefficient divided by qk, rounded to nearest. */
  function RoundedQuotients(x: seq<int>, qk: nat): (r: seq<int>)
    requires qk >= 1
    ensures |r| == |x|
  {
    seq(|x|, c requires 0 <= c < |x| => (x[c] + qk / 2) / qk)
  }

  /** The last limb: every coefficient modulo qk. */
  function LastLimb(x: seq<int>, qk: nat): (r: seq<int>)
    requires qk >= 1
    ensures |r| == |x|
  {
    seq(|x|, c requires 0 <= c < |x| => x[c] % qk)
  }

  /** Multiplying by qk, as encoding does with the extra prime, leaves a zero last limb; dropping qk undoes it. */
  lemma DropUndoesScaling(v: seq<int>, scaled: seq<int>, qk: nat)
    requires qk >= 1 && |scaled| == |v| && forall c | 0 <= c < |v| :: scaled[c] == qk * v[c]
    ensures RoundedQuotients(scaled, qk) == v
    ensures forall c | 0 <= c < |v| :: LastLimb(scaled, qk)[c] == 0
  {
    forall c | 0 <= c < |v|
      ensures (scaled[c] + qk / 2) / qk == v[c] && scaled[c] % qk == 0
    {
      ModMultiple(qk / 2, v[c], qk);
      ModMultiple(0, v[c], qk);
    }
  }

  /** add_poly_scalar_coeffmod on the last limb: flooring becomes rounding. */
  method AddHalf(last: array<u64>, qk: nat, ghost x: seq<int>)
    requires 2 <= qk < MAX_MODULUS && last[..] == LastLimb(x, qk)
    modifies last
    ensures forall c | 0 <= c < last.Length :: last[c] == (x[c] + qk / 2) % qk
  {
    hide LastLimb;
    var half := qk / 2;
    for c := 0 to last.Length
      invariant forall k | 0 <= k < last.Length :: last[k] == if k < c then (x[k] + half) % qk else old(last[k])
    {
      LimbAt(last[c], x, c, half, qk);
      last[c] := (last[c] + half) % qk;
    }
  }

  lemma LimbAt(word: int, x: seq<int>, c: nat, half: int, qk: nat)
    requires qk >= 1 && c < |x| && word == LastLimb(x, qk)[c]
    ensures 0 <= (word + half) % qk < qk && (word + half) % qk == (x[c] + half) % qk
  {
    ModIdempotent(x[c], qk);
    Add(word, x[c], half, half, qk);
  }

  /** temp of the loop: the last limb modulo q_i, less half modulo q_i, below 2 * q_i. */
  method SubtractHalf(last: seq<u64>, qk: nat, qi: nat) returns (temp: array<u64>)
    requires 2 <= qk < MAX_MODULUS && 2 <= qi < MAX_MODULUS && forall c | 0 <= c < |last| :: last[c] < qk
    ensures fresh(temp) && temp.Length == |last|
    ensures forall c | 0 <= c < |last| :: temp[c] < 2 * qi && Cong(temp[c], last[c] - qk / 2, qi)
  {
    hide Cong;
    temp := new u64[|last|];
    var negHalfMod := Sub64(qi, qk / 2 % qi);
    for c := 0 to |last|
      invariant forall x | 0 <= x < c :: temp[x] < 2 * qi && Cong(temp[x], last[x] - qk / 2, qi)
    {
      var reduced := if qi < qk then last[c] % qi else last[c];
      LazyDifference(last[c], reduced, qk, qi);
      temp[c] := Add64(reduced, negHalfMod);
    }
  }

  /** The first lazy subtraction does not wrap. */
  lemma LazyDifference(m: u64, reduced: int, qk: nat, qi: nat)
    requires 2 <= qk < MAX_MODULUS && 2 <= qi < MAX_MODULUS && m < qk
    requires reduced == if qi < qk then m % qi else m
    ensures 0 <= reduced < qi
    ensures var s := Add64(reduced, Sub64(qi, qk / 2 % qi)); s < 2 * qi && Cong(s, m - qk / 2, qi)
  {
    hide Cong, Add64, Sub64;
    var h := qk / 2;
    if qi >= qk {
      ModMultiple(m, 0, qi);
    }
    DifferenceFits(qi, h % qi);
    LazySum(reduced, qi - h % qi);
    DivMod(m, qi);
    DivMod(h, qi);
    SumOfParts(m / qi, m % qi, h / qi, h % qi, qi);
  }

  lemma DifferenceFits(a: int, b: int)
    requires 0 <= a - b < W64
    ensures Sub64(a, b) == a - b
  {
  }

  lemma SumOfParts(j: int, m: int, k: int, h: int, q: int)
    requires q >= 1
    ensures Cong(m + (q - h), (j * q + m) - (k * q + h), q)
  {
    hide Cong;
    assert (1 - j + k) * q == q - j * q + k * q;
    Intro(m + (q - h), (j * q + m) - (k * q + h), 1 - j + k, q);
  }

  /**
   One step of the loop: limb i, transformed, of a polynomial x becomes limb i,
   transformed, of x divided by qk and rounded. The transform of temp is lazy, below 4 * q_i.
   */
  method DropFrom(input: array<u64>, last: seq<u64>, t: Tables, qk: nat, qkInv: nat, ghost x: seq<int>)
    requires t.Valid() && 2 <= t.p < MAX_MODULUS && 2 <= qk < MAX_MODULUS && 2 * t.p + Growth(t.p, t.k - 1) <= W64
    requires input.Length == |last| == |x| == t.n && qkInv < t.p && Cong(qk * qkInv, 1, t.p)
    requires forall c | 0 <= c < t.n :: last[c] == (x[c] + qk / 2) % qk && last[c] < qk
    requires AllBelow(input[..], 0, t.n, t.p) && CongSeq(input[..], Values(t.root, x), t.p)
    modifies input
    ensures AllBelow(input[..], 0, t.n, t.p)
    ensures CongSeq(input[..], Values(t.root, RoundedQuotients(x, qk)), t.p)
  {
    hide ForwardTable, InverseTable, Cong, Growth, CongSeq, AllBelow, Values, RoundedQuotients;
    var temp := SubtractHalf(last, qk, t.p);
    ghost var small, s := temp[..], input[..];
    TempBelow(small, t.p);
    var status := SlotfulNttLazy(temp, t, 2 * t.p);
    SubtractAndScale(input, temp[..], t.p, qkInv);
    QuotientValues(s, temp[..], input[..], small, x, t.root, t.p, qk, qkInv);
  }

  lemma TempBelow(s: seq<int>, p: int)
    requires forall c | 0 <= c < |s| :: s[c] < 2 * p
    ensures AllBelow(s, 0, |s|, 2 * p)
  {
  }

  /** The rest of the step: input + (4 * q_i - temp), times the inverse of qk. */
  method SubtractAndScale(input: array<u64>, temp: seq<u64>, qi: nat, qkInv: nat)
    requires 2 <= qi < MAX_MODULUS && qkInv < qi && |temp| == input.Length
    requires AllBelow(input[..], 0, input.Length, qi) && AllBelow(temp, 0, |temp|, 4 * qi)
    modifies input
    ensures AllBelow(input[..], 0, input.Length, qi)
    ensures forall j | 0 <= j < input.Length :: Cong(input[j], (old(input[j]) - temp[j]) * qkInv, qi)
  {
    hide Cong;
    var qiLazy := 4 * qi;
    for j := 0 to input.Length
      invariant forall k | j <= k < input.Length :: input[k] == old(input[k])
      invariant forall k | 0 <= k < j :: input[k] < qi && Cong(input[k], (old(input[k]) - temp[k]) * qkInv, qi)
    {
      SecondDifference(input[j], temp[j], qi, qkInv);
      input[j] := Add64(input[j], Sub64(qiLazy, temp[j])) * qkInv % qi;
    }
  }

  /** The second lazy subtraction does not wrap either: the sum stays below 5 * q_i. */
  lemma SecondDifference(a: u64, lazy: u64, qi: nat, qkInv: nat)
    requires 2 <= qi < MAX_MODULUS && a < qi && lazy < 4 * qi
    ensures var d := Add64(a, Sub64(4 * qi, lazy)); d == a + 4 * qi - lazy && 0 <= d * qkInv % qi < qi
    ensures Cong(Add64(a, Sub64(4 * qi, lazy)) * qkInv % qi, (a - lazy) * qkInv, qi)
  {
    hide Cong;
    var d := Add64(a, Sub64(4 * qi, lazy));
    ModIdempotent(d * qkInv, qi);
    Intro(d, a - lazy, 4, qi);
    Refl(qkInv, qkInv, qi);
    Mul(d, a - lazy, qkInv, qkInv, qi);
    Trans(d * qkInv % qi, d * qkInv, (a - lazy) * qkInv, qi);
  }

  /** x is temp plus qk times the rounded quotient. */
  lemma Splits(x: int, last: int, temp: int, qk: nat, p: int)
    requires qk >= 1 && p > 0 && last == (x + qk / 2) % qk && Cong(temp, last - qk / 2, p)
    ensures Cong(x, temp + qk * ((x + qk / 2) / qk), p)
  {
    hide Cong;
    var h, r := qk / 2, (x + qk / 2) / qk;
    assert x + h == qk * r + last;
    Refl(qk * r, qk * r, p);
    Add(temp, last - h, qk * r, qk * r, p);
    Trans(temp + qk * r, last - h + qk * r, last - h + qk * r, p);
  }

  lemma QuotientValues(input: seq<u64>, lazy: seq<u64>, output: seq<u64>, temp: seq<int>, x: seq<int>, root: seq<int>,
                       p: int, qk: nat, qkInv: nat)
    requires p > 0 && qk >= 1 && Cong(qk * qkInv, 1, p)
    requires |input| == |lazy| == |output| == |temp| == |x| == |root|
    requires CongSeq(input, Values(root, x), p) && CongSeq(lazy, Values(root, temp), p)
    requires forall c | 0 <= c < |x| :: Cong(temp[c], (x[c] + qk / 2) % qk - qk / 2, p)
    requires forall j | 0 <= j < |x| :: Cong(output[j], (input[j] - lazy[j]) * qkInv, p)
    ensures CongSeq(output, Values(root, RoundedQuotients(x, qk)), p)
  {
    hide Cong, Eval;
    var r := RoundedQuotients(x, qk);
    forall c | 0 <= c < |x|
      ensures Cong(x[c], temp[c] + qk * r[c], p)
    {
      Splits(x[c], (x[c] + qk / 2) % qk, temp[c], qk, p);
    }
    forall j | 0 <= j < |x|
      ensures Cong(output[j], Values(root, r)[j], p)
    {
      var z := Leaf(root, j);
      EvalCombination(x, temp, qk, r, z, p);
      OneValue(input[j], lazy[j], output[j], Eval(x, z), Eval(temp, z), Eval(r, z), qk, qkInv, p);
    }
  }

  lemma OneValue(a: int, lazy: int, out: int, ex: int, et: int, er: int, qk: int, qkInv: int, p: int)
    requires p > 0 && Cong(a, ex, p) && Cong(lazy, et, p) && Cong(ex, et + qk * er, p)
    requires Cong(out, (a - lazy) * qkInv, p) && Cong(qk * qkInv, 1, p)
    ensures Cong(out, er, p)
  {
    hide Cong;
    Sub(a, ex, lazy, et, p);
    Refl(et, et, p);
    Sub(ex, et + qk * er, et, et, p);
    Trans(a - lazy, ex - et, qk * er, p);
    Refl(qkInv, qkInv, p);
    Mul(a - lazy, qk * er, qkInv, qkInv, p);
    Refl(er, er, p);
    Mul(qk * qkInv, 1, er, er, p);
    assert (qk * er) * qkInv == (qk * qkInv) * er;
    Trans((a - lazy) * qkInv, (qk * er) * qkInv, er, p);
    Trans(out, (a - lazy) * qkInv, er, p);
  }

  datatype Code = Ok | InvalidArg

  /** Tables of the full base, of one degree and of moduli the lazy sums leave room for. */
  ghost predicate IsTableBase(tables: seq<Tables>, n: nat) {
    forall i | 0 <= i < |tables| :: TableFits(tables[i], n)
  }

  ghost predicate TableFits(t: Tables, n: nat) {
    t.Valid() && t.n == n && 2 <= t.p < MAX_MODULUS && 2 * t.p + Growth(t.p, t.k - 1) <= W64
  }

  /** Limb a holds the polynomial x modulo the table's modulus, in transformed form. */
  ghost predicate HoldsLimb(a: seq<u64>, t: Tables, x: seq<int>)
    requires t.p > 0
  {
    |a| == |x| && AllBelow(a, 0, |a|, t.p) && CongSeq(a, Values(t.root, x), t.p)
  }

  /** The inverse transform of the last limb gives x modulo the last modulus. */
  method LastCoefficients(last: array<u64>, t: Tables, ghost x: seq<int>)
    requires TableFits(t, |x|) && last.Length == |x| && HoldsLimb(last[..], t, x)
    modifies last
    ensures last[..] == LastLimb(x, t.p)
  {
    hide Tables.Valid, Cong, Growth;
    TableSize(t);
    ghost var values := last[..];
    Convolution.NttBackward(last, t);
    SameCoefficients(last[..], values, x, t);
  }

  lemma SameCoefficients(a: seq<u64>, values: seq<int>, x: seq<int>, t: Tables)
    requires t.Valid() && |a| == |values| == |x| == t.n && AllBelow(a, 0, |a|, t.p)
    requires CongSeq(Values(t.root, a), values, t.p) && CongSeq(values, Values(t.root, x), t.p)
    ensures a == LastLimb(x, t.p)
  {
    hide Tables.Valid, Values;
    TableSize(t);
    Convolution.ValuesAreInjective(t, a, x);
    forall c | 0 <= c < |x|
      ensures a[c] == x[c] % t.p
    {
      ModMultiple(a[c], 0, t.p);
    }
  }

  /** divide_and_round_q_last_ntt_inplace: every limb but the last divided by the last modulus. */
  method DivideAndRound(input: seq<array<u64>>, inputBaseSize: nat, tables: seq<Tables>, invQLast: seq<nat>,
                        ghost x: seq<int>)
    returns (code: Code)
    requires |tables| >= 1 && |invQLast| == |tables| && IsTableBase(tables, |x|)
    requires inputBaseSize < |tables| ==> inputBaseSize < |input|
    requires forall i, j | 0 <= i < j < |input| :: input[i] != input[j]
    requires forall i | 0 <= i < |input| :: input[i].Length == |x|
    requires inputBaseSize < |tables| ==> HoldsLimb(input[inputBaseSize][..], tables[|tables| - 1], x)
    requires forall i | 0 <= i < inputBaseSize && i < |input| && i < |tables| ::
      HoldsLimb(input[i][..], tables[i], x) && invQLast[i] < tables[i].p &&
      Cong(tables[|tables| - 1].p * invQLast[i], 1, tables[i].p)
    modifies set i | 0 <= i < |input| :: input[i]
    ensures code == if inputBaseSize >= |tables| || inputBaseSize < 1 then InvalidArg else Ok
    ensures code.Ok? ==> forall i | 0 <= i < inputBaseSize ::
      HoldsLimb(input[i][..], tables[i], RoundedQuotients(x, tables[|tables| - 1].p))
  {
    hide Tables.Valid, Growth, Cong, AllBelow, CongSeq, Values, RoundedQuotients, LastLimb;
    if inputBaseSize >= |tables| || inputBaseSize < 1 {
      return InvalidArg;
    }
    var last, qk := input[inputBaseSize], tables[|tables| - 1].p;
    LastCoefficients(last, tables[|tables| - 1], x);
    AddHalf(last, qk, x);
    for i := 0 to inputBaseSize
      invariant forall c | 0 <= c < |x| :: last[c] == (x[c] + qk / 2) % qk
      invariant forall j | i <= j < inputBaseSize :: HoldsLimb(input[j][..], tables[j], x)
      invariant forall j | 0 <= j < i :: HoldsLimb(input[j][..], tables[j], RoundedQuotients(x, qk))
    {
      DropFrom(input[i], last[..], tables[i], qk, invQLast[i], x);
    }
    return Ok;
  }
}

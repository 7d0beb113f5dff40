/** Switching between [0, t), t a power of two, and [0, Q) in residue form. */
module ModSwitch {
  import opened Modular
  import opened Powers
  import opened Shape
  import opened Rns

  const W128 := 0x1_0000_0000_0000_0000_0000_0000_0000_0000

  /** Two 64-bit limbs; the arithmetic is that of __uint128_t, which keeps the low 128 bits. */
  datatype UInt128 = UInt128(lo: u64, hi: u64) {
    function Value(): nat { lo + hi * W64 }

    static function Of(v: int): UInt128 { UInt128(v % W64, (v / W64) % W64) }

    function Rshift(offset: nat): UInt128
      requires offset < 128
    {
      Of(Value() / Pow2(offset))
    }

    function Mul(v: u64): UInt128 { Of(Value() * v) }

    function Add(v: UInt128): UInt128 { Of(Value() + v.Value()) }

    function AddWord(v: u64): UInt128 { Of(Value() + v) }

    function Div(v: UInt128): UInt128
      requires v.Value() > 0
    {
      Of(Value() / v.Value())
    }

    /** SEAL's Barrett reductions of one or two words, as exact remainders. */
    function BarrettRdc(p: nat): nat
      requires p >= 1
    {
      if hi == 0 then lo % p else Value() % p
    }
  }

  lemma OfValue(v: int)
    requires 0 <= v < W128
    ensures UInt128.Of(v).Value() == v
  {
  }

  /** round(Q * x / t), as ModulusUpAt means it. */
  function Up(x: nat, bigQ: nat, t: nat): nat
    requires t >= 1
  {
    DivNonneg(bigQ * x + t / 2, t);
    (bigQ * x + t / 2) / t
  }

  /** round(y * t / Q), halves upwards, for any integer y. */
  function Rounded(y: int, bigQ: nat, t: nat): int
    requires bigQ >= 1
  {
    (y * t + (bigQ + 1) / 2) / bigQ
  }

  /** The word ModulusDownRNS stores for y in [0, Q). */
  function Down(y: nat, bigQ: nat, t: nat): u64
    requires bigQ >= 1
  {
    Rounded(y, bigQ, t) % W64
  }

  // ---------------------------------------------------------------------------
  // One word of ModulusUpAt

  /** r * x + t / 2 stays below 2^128 and its quotient by t below 2^64, for every 64-bit x. */
  lemma ScaledRemainderFits(r: nat, x: u64, t: nat)
    requires r < t <= W64
    ensures 0 <= r * x + t / 2 < W128 && 0 <= (r * x + t / 2) / t < W64
  {
    ProductBound(r, x, t);
    DivNonneg(r * x + t / 2, t);
    QuotientBelow(r * x + t / 2, t);
  }

  lemma ProductBound(r: nat, x: u64, t: nat)
    requires r < t <= W64
    ensures 0 <= r * x <= (t - 1) * (W64 - 1) && r * x + t / 2 < W128 && r * x + t / 2 < W64 * t
  {
    Scaled(x, r, t - 1);
    Scaled(x, 0, r);
    Scaled(t - 1, x, W64 - 1);
    assert x * r == r * x && x * (t - 1) == (t - 1) * x && x * 0 == 0;
  }

  lemma QuotientBelow(a: nat, t: nat)
    requires t >= 1 && a < W64 * t
    ensures a / t < W64
  {
    var q := a / t;
    assert a == q * t + a % t;
    CancelLe(t, q, W64 - 1);
  }

  /** The low part of Q scales exactly; the quotient part multiplies exactly. */
  lemma UpSplits(x: nat, bigQ: nat, t: nat)
    requires t >= 1
    ensures Up(x, bigQ, t) == (bigQ / t) * x + ((bigQ % t) * x + t / 2) / t
  {
    var d, r := bigQ / t, bigQ % t;
    var low := r * x + t / 2;
    Distribute(bigQ, d, r, x, t);
    Quotient(bigQ * x + t / 2, low, d * x, t);
  }

  lemma Distribute(bigQ: int, d: int, r: int, x: int, t: int)
    requires bigQ == d * t + r
    ensures bigQ * x == (d * x) * t + r * x
  {
    assert (d * t + r) * x == (d * t) * x + r * x;
    assert (d * t) * x == (d * x) * t;
  }

  lemma Quotient(a: int, low: int, k: int, t: int)
    requires t >= 1 && a == k * t + low
    ensures a / t == k + low / t
  {
    assert low == (low / t) * t + low % t;
    assert (k + low / t) * t == k * t + (low / t) * t;
    ModMultiple(low % t, k + low / t, t);
  }

  /** What the transform in ModulusUpAt computes for one word. */
  lemma UpWordExact(x: u64, bigQ: nat, t: nat, qj: nat, word: UInt128, half: UInt128, qModT: UInt128, qDiv: nat)
    requires 1 <= t <= W64 && 2 <= qj < W64 && word.Value() == t && half.Value() == t / 2
    requires qModT.Value() == bigQ % t && qDiv == (bigQ / t) % qj
    ensures qModT.Mul(x).Add(half).Div(word).AddWord((x * qDiv) % qj).BarrettRdc(qj) == Up(x, bigQ, t) % qj
  {
    hide UInt128.Mul, UInt128.Add, UInt128.Div, UInt128.AddWord, UInt128.BarrettRdc, UInt128.Value, Up, Cong;
    var r, d, u := bigQ % t, bigQ / t, (x * qDiv) % qj;
    DivNonneg(bigQ, t);
    ScaledRemainderFits(r, x, t);
    var low := r * x + t / 2;
    SumFits(qModT, x, half, r, t);
    DivFits(qModT.Mul(x).Add(half), word);
    AddFits(qModT.Mul(x).Add(half).Div(word), u, qj);
    UpSplits(x, bigQ, t);
    QuotientPart(x, d, qj);
    ReducedSum(d * x, low / t, u, qj);
  }

  lemma DivFits(a: UInt128, b: UInt128)
    requires b.Value() >= 1
    ensures a.Div(b).Value() == a.Value() / b.Value()
  {
    hide UInt128.Value, UInt128.Of;
    var n, d := a.Value(), b.Value();
    ValueBound(a);
    DivNonneg(n, d);
    if n / d > n {
      Scaled(d, n + 1, n / d);
      Scaled(n + 1, 1, d);
    }
    OfValue(n / d);
  }

  lemma ValueBound(a: UInt128)
    ensures 0 <= a.Value() < W128
  {
  }

  lemma AddFits(a: UInt128, u: u64, p: nat)
    requires a.Value() < W64 && p >= 1
    ensures a.AddWord(u).BarrettRdc(p) == (a.Value() + u) % p
  {
    OfValue(a.Value() + u);
  }

  lemma SumFits(qModT: UInt128, x: u64, half: UInt128, r: nat, t: nat)
    requires qModT.Value() == r && half.Value() == t / 2 && 0 <= r * x + t / 2 < W128 && 0 <= r * x
    ensures qModT.Mul(x).Add(half).Value() == r * x + t / 2
  {
    OfValue(r * x);
    OfValue(r * x + t / 2);
  }

  lemma QuotientPart(x: u64, d: nat, qj: nat)
    requires qj >= 1
    ensures Cong((x * (d % qj)) % qj, d * x, qj)
  {
    ModIdempotent(d, qj);
    Modular.Mul(x, x, d % qj, d, qj);
    assert x * d == d * x;
    ModIdempotent(x * (d % qj), qj);
  }

  lemma ReducedSum(dx: int, v: int, u: int, qj: nat)
    requires qj >= 1 && Cong(u, dx, qj)
    ensures (v + u) % qj == (dx + v) % qj
  {
    Modular.Add(v, v, u, dx, qj);
  }

  // ---------------------------------------------------------------------------
  // The helper

  function WordAt(src: seq<u64>, k: int): u64 { if 0 <= k < |src| then src[k] else 0 }

  /** Word j * n + i of src is limb j of coefficient i. */
  function Limbs(src: seq<u64>, num: nat, n: nat, i: nat): (r: seq<nat>)
    ensures |r| == num
  {
    seq(num, j requires 0 <= j < num => WordAt(src, j * n + i))
  }

  /** Every product of n words fits n words. */
  lemma {:induction false} ProductFits(q: seq<nat>)
    requires forall i | 0 <= i < |q| :: 1 <= q[i] < W64
    ensures Product(q) <= Pow2(64 * |q|) && Product(q) >= 1
  {
    ProductPositive(q);
    if q != [] {
      var p := q[..|q| - 1];
      ProductFits(p);
      Pow2Add(64 * |p|, 64);
      Word();
      Scaled(Product(p), q[|q| - 1], W64);
      Scaled(W64, Product(p), Pow2(64 * |p|));
    }
  }

  lemma Word()
    ensures Pow2(64) == W64
  {
    Pow2Values();
    Pow2Add(63, 1);
  }

  /** x * t + (Q + 1) / 2 fits two words more than Q: the multi-word arithmetic loses nothing. */
  lemma WideEnough(x: nat, bigQ: nat, t: nat, num: nat)
    requires x < bigQ <= Pow2(64 * num) && t <= W64
    ensures 0 <= x * t <= x * t + (bigQ + 1) / 2 < Pow2(64 * (num + 2))
  {
    Scaled(x, t, W64);
    Scaled(x, 0, t);
    Pow2Add(64 * num, 64);
    Pow2Add(64 * num + 64, 64);
    Word();
    Scaled(W64, x, Pow2(64 * num));
  }

  class ModulusSwitchHelper {
    const moduli: seq<nat>  // the coefficient modulus of the first context data
    var baseModBitlen: nat
    var t: UInt128
    var tHalf: UInt128
    var qModT: UInt128
    var qDivTModQi: seq<nat>

    ghost predicate Valid()
      reads this
    {
      && IsBase(moduli) && |moduli| >= 2 && Product(moduli) >= 1
      && 2 <= baseModBitlen <= 64 && t.Value() == Pow2(baseModBitlen) && 4 <= t.Value() <= W64
      && tHalf.Value() == t.Value() / 2
      && qModT.Value() == Product(moduli) % t.Value()
      && qDivTModQi == Residues(Product(moduli) / t.Value(), moduli)
    }

    constructor (moduli: seq<nat>, baseModBitlen: nat)
      requires IsBase(moduli) && |moduli| >= 2 && 2 <= baseModBitlen <= 64
      ensures Valid() && this.moduli == moduli && this.baseModBitlen == baseModBitlen
    {
      hide IsBase, Residues, Product;
      var bigQ := Product(moduli);
      var t := if baseModBitlen < 64 then UInt128(Pow2(baseModBitlen) % W64, 0) else UInt128.Of(Pow2(baseModBitlen));
      BaseBounds(baseModBitlen);
      OfValue(Pow2(baseModBitlen));
      HalfValue(t);
      BaseFacts(moduli);
      DivNonneg(bigQ, t.Value());
      OfValue(bigQ % t.Value());
      this.moduli, this.baseModBitlen := moduli, baseModBitlen;
      this.t, tHalf := t, t.Rshift(1);
      qModT := UInt128.Of(bigQ % t.Value());
      qDivTModQi := Residues(bigQ / t.Value(), moduli);
    }

    /** The constructor as callers see it: it throws for a bit length out of bounds. */
    static method Make(moduli: seq<nat>, baseModBitlen: nat) returns (r: Result<ModulusSwitchHelper>)
      requires IsBase(moduli) && |moduli| >= 2
      ensures r.Ok? <==> 2 <= baseModBitlen <= 64
      ensures r.Ok? ==> fresh(r.value) && r.value.Valid() && r.value.moduli == moduli &&
                        r.value.baseModBitlen == baseModBitlen
    {
      if !(baseModBitlen <= 64 && baseModBitlen >= 2) {
        return InvalidArgument;
      }
      var helper := new ModulusSwitchHelper(moduli, baseModBitlen);
      return Ok(helper);
    }

    /** out[i] = round(Q * src[i] / t) mod q_j. */
    method ModulusUpAt(src: seq<u64>, modIdx: nat, out: array<u64>) returns (ok: bool)
      requires Valid()
      modifies out
      ensures ok <==> modIdx < |moduli| && |src| == out.Length
      ensures ok ==> forall i | 0 <= i < |src| ::
        out[i] == Up(src[i], Product(moduli), t.Value()) % moduli[modIdx]
      ensures !ok ==> out[..] == old(out[..])
    {
      hide IsBase, Product, Up, UInt128.Mul, UInt128.Add, UInt128.Div, UInt128.AddWord, UInt128.BarrettRdc,
           UInt128.Value;
      BaseFacts(moduli);
      if !(modIdx < |moduli|) {
        return false;
      }
      if |src| != out.Length {
        return false;
      }
      var qj := moduli[modIdx];
      for i := 0 to |src|
        invariant forall k | 0 <= k < i :: out[k] == Up(src[k], Product(moduli), t.Value()) % qj
      {
        UpWordExact(src[i], Product(moduli), t.Value(), qj, t, tHalf, qModT, qDivTModQi[modIdx]);
        var u := (src[i] * qDivTModQi[modIdx]) % qj;
        var v := qModT.Mul(src[i]).Add(tHalf).Div(t);
        out[i] := v.AddWord(u).BarrettRdc(qj);
      }
      return true;
    }

    /** out[i] = round(x * t / Q), the low word, for the number x that the limbs of coefficient i compose to. */
    method ModulusDownRNS(src: seq<u64>, out: array<u64>) returns (ok: bool)
      requires Valid()
      modifies out
      ensures ok <==> |src| == |moduli| * out.Length
      ensures ok ==> forall i | 0 <= i < out.Length ::
        out[i] == Down(Compose(Limbs(src, |moduli|, out.Length, i), moduli), Product(moduli), t.Value())
      ensures !ok ==> out[..] == old(out[..])
    {
      hide IsBase, Product, Compose, Limbs, Rounded, UInt128.Value;
      BaseFacts(moduli);
      if |src| != |moduli| * out.Length {
        return false;
      }
      var bigQ, num := Product(moduli), |moduli|;
      var qHalf := (bigQ + 1) / 2;
      for i := 0 to out.Length
        invariant forall k | 0 <= k < i ::
          out[k] == Down(Compose(Limbs(src, num, out.Length, k), moduli), bigQ, t.Value())
      {
        var x := Compose(Limbs(src, num, out.Length, i), moduli);
        ComposeBelow(Limbs(src, num, out.Length, i), moduli);
        out[i] := DivideThenRound(x, bigQ, qHalf, t.Value(), num);
      }
      return true;
    }
  }

  /** One coefficient of ModulusDownRNS, on num + 2 words. */
  method DivideThenRound(x: nat, bigQ: nat, qHalf: nat, t: nat, num: nat) returns (w: u64)
    requires x < bigQ <= Pow2(64 * num) && t <= W64 && qHalf == (bigQ + 1) / 2
    ensures w == Down(x, bigQ, t)
  {
    hide Pow2, Rounded;
    WideEnough(x, bigQ, t, num);
    RoundedIs(x, bigQ, t);
    var prod, range := x * t, Pow2(64 * (num + 2));
    ModMultiple(prod, 0, range);
    ModMultiple(prod + qHalf, 0, range);
    var add := (prod % range + qHalf) % range;
    w := (add / bigQ) % W64;
  }

  lemma RoundedIs(x: int, bigQ: nat, t: nat)
    requires bigQ >= 1
    ensures Rounded(x, bigQ, t) == (x * t + (bigQ + 1) / 2) / bigQ
  {
  }

  lemma ComposeBelow(r: seq<nat>, q: seq<nat>)
    requires Positive(q) && Product(q) >= 1
    ensures Compose(r, q) < Product(q)
  {
    SearchBelow(r, q, 0);
  }

  lemma {:induction false} SearchBelow(r: seq<nat>, q: seq<nat>, from: nat)
    requires Positive(q) && Product(q) >= 1
    ensures Search(r, q, from) < Product(q)
    decreases Product(q) - from
  {
    hide Residues;
    if from < Product(q) && Residues(from, q) != r {
      SearchBelow(r, q, from + 1);
    }
  }

  lemma BaseBounds(bits: nat)
    requires 2 <= bits <= 64
    ensures 4 <= Pow2(bits) <= W64 && (bits < 64 ==> Pow2(bits) < W64)
  {
    Word();
    Pow2Monotone(2, bits);
    Pow2Monotone(bits, 64);
    if bits < 64 {
      Pow2Monotone(bits + 1, 64);
    }
  }

  lemma HalfValue(t: UInt128)
    ensures t.Rshift(1).Value() == t.Value() / 2
  {
    OfValue(t.Value() / 2);
  }

  lemma BaseFacts(moduli: seq<nat>)
    requires IsBase(moduli)
    ensures Positive(moduli) && 1 <= Product(moduli) <= Pow2(64 * |moduli|)
    ensures forall j | 0 <= j < |moduli| :: 2 <= moduli[j] < W64
  {
    ProductFits(moduli);
  }

  // ---------------------------------------------------------------------------
  // What the rounding means

  /** t * Up(x) is Q * x up to half of t. */
  lemma UpError(x: nat, bigQ: nat, t: nat)
    requires t >= 1
    ensures 0 < 2 * (t * Up(x, bigQ, t) - bigQ * x) + t <= 2 * t
  {
    var a := bigQ * x + t / 2;
    assert a == (a / t) * t + a % t;
  }

  /** Rounding finds w back from a multiple of Q and a small remainder. */
  lemma RoundedNear(y: int, w: int, delta: int, bigQ: nat, t: nat)
    requires bigQ >= 1 && y * t == bigQ * w + delta
    ensures Rounded(y, bigQ, t) == w + (delta + (bigQ + 1) / 2) / bigQ
  {
    var s := delta + (bigQ + 1) / 2;
    assert y * t + (bigQ + 1) / 2 == s % bigQ + (w + s / bigQ) * bigQ;
    ModMultiple(s % bigQ, w + s / bigQ, bigQ);
  }

  lemma RoundedShift(y: int, k: int, bigQ: nat, t: nat)
    requires bigQ >= 1
    ensures Rounded(y + k * bigQ, bigQ, t) == Rounded(y, bigQ, t) + k * t
  {
    assert (y + k * bigQ) * t == bigQ * (k * t) + y * t;
    RoundedNear(y + k * bigQ, k * t, y * t, bigQ, t);
  }

  /** t divides 2^64, so the low word of a rounded value is right modulo t, and so is reducing y modulo Q first. */
  lemma DownOfMod(y: int, bigQ: nat, bits: nat)
    requires bigQ >= 1 && bits <= 64
    ensures y % bigQ >= 0 && Cong(Down(y % bigQ, bigQ, Pow2(bits)), Rounded(y, bigQ, Pow2(bits)), Pow2(bits))
  {
    hide Rounded, Pow2;
    var t, z := Pow2(bits), y % bigQ;
    var k := y / bigQ;
    RoundedShift(z, k, bigQ, t);
    assert y == z + k * bigQ;
    var r := Rounded(z, bigQ, t);
    Pow2Add(bits, 64 - bits);
    Word();
    var up := -(r / W64) * Pow2(64 - bits);
    assert r % W64 == r + up * t by {
      assert (r / W64) * W64 == ((r / W64) * Pow2(64 - bits)) * t;
    }
    assert r % W64 == (r + k * t) + (up - k) * t by {
      assert (up - k) * t == up * t - k * t;
    }
    Intro(r % W64, r + k * t, up - k, t);
  }

  function Abs(x: int): nat { if x < 0 then -x else x }

  /** Rounding finds x back from its scaled-up value under noise e. */
  lemma RoundedUp(x: nat, e: int, bigQ: nat, bits: nat)
    requires (2 * Abs(e) + 1) * Pow2(bits) + 1 < bigQ
    ensures Rounded(Up(x, bigQ, Pow2(bits)) + e, bigQ, Pow2(bits)) == x
  {
    hide Up, Rounded, Pow2;
    var t := Pow2(bits);
    var y := Up(x, bigQ, t) + e;
    UpError(x, bigQ, t);
    var delta := t * Up(x, bigQ, t) - bigQ * x + e * t;
    assert y * t == bigQ * x + delta;
    NoiseBound(e, t, delta, t * Up(x, bigQ, t) - bigQ * x, bigQ);
    RoundedNear(y, x, delta, bigQ, t);
  }

  /** Scaling up and down again is exact, modulo t, under noise E with (2|E| + 1) * t + 1 < Q, for every word. */
  lemma NoisyRoundTrip(x: nat, e: int, bigQ: nat, bits: nat)
    requires 1 <= bits <= 64 && (2 * Abs(e) + 1) * Pow2(bits) + 1 < bigQ
    ensures var y := (Up(x, bigQ, Pow2(bits)) + e) % bigQ;
      y >= 0 && Down(y, bigQ, Pow2(bits)) % Pow2(bits) == x % Pow2(bits)
  {
    hide Up, Rounded, Pow2, Down, Cong;
    var y := Up(x, bigQ, Pow2(bits)) + e;
    Scaled(Pow2(bits), 1, 2 * Abs(e) + 1);
    RoundedUp(x, e, bigQ, bits);
    DownOfMod(y, bigQ, bits);
    CongIs(Down(y % bigQ, bigQ, Pow2(bits)), x, Pow2(bits));
  }

  lemma NoiseBound(e: int, t: nat, delta: int, d: int, bigQ: nat)
    requires delta == d + e * t && 0 < 2 * d + t <= 2 * t && (2 * Abs(e) + 1) * t + 1 < bigQ
    ensures (delta + (bigQ + 1) / 2) / bigQ == 0
  {
    assert (2 * Abs(e) + 1) * t == 2 * (Abs(e) * t) + t;
    SignedProduct(e, t);
    ModMultiple(delta + (bigQ + 1) / 2, 0, bigQ);
  }

  lemma SignedProduct(e: int, t: nat)
    ensures e * t == Abs(e) * t || e * t == 0 - Abs(e) * t
    ensures Abs(e) * t >= 0
  {
  }

  /** The residues ModulusUpAt writes, modulus by modulus, compose to the rounded value modulo Q, for every word. */
  lemma UpComposes(x: nat, q: seq<nat>, t: nat)
    requires IsBase(q) && Product(q) >= 1 && t >= 1
    ensures Compose(Residues(Up(x, Product(q), t), q), q) == Up(x, Product(q), t) % Product(q)
  {
    hide IsBase, Product, Compose, Residues, Up;
    BaseFacts(q);
    ResiduesOfMod(Up(x, Product(q), t), q);
    ComposeResidues(Up(x, Product(q), t) % Product(q), q);
  }
}

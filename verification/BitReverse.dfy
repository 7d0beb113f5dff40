/** seal::util::reverse_bits on the low bits of a word, as an exact function. */
module BitReverse {
  import opened Powers

  /** The low b bits of x in reverse order; higher bits are dropped. */
  function RevBits(x: nat, b: nat): nat {
    if b == 0 then 0 else (x % 2) * Pow2(b - 1) + RevBits(x / 2, b - 1)
  }

  lemma {:induction false} RevBelow(x: nat, b: nat)
    ensures RevBits(x, b) < Pow2(b)
  {
    hide RevBits, Pow2;
    if b > 0 {
      RevBelow(x / 2, b - 1);
      RevStep(x, b);
      Pow2Doubled(b - 1);
      TopBit(x % 2, Pow2(b - 1));
    } else {
      NoBits(x);
    }
  }

  /** lo in the low s bits, hi above it: reversal swaps the two parts and reverses each. */
  lemma {:induction false} RevSplit(lo: nat, s: nat, hi: nat, t: nat)
    requires lo < Pow2(s)
    ensures RevBits(lo + Pow2(s) * hi, s + t) == RevBits(lo, s) * Pow2(t) + RevBits(hi, t)
    decreases s, 1
  {
    if s > 0 {
      SplitStep(lo, s, hi, t);
    } else {
      assert RevBits(lo, 0) == 0 && lo + Pow2(0) * hi == hi;
    }
  }

  lemma {:induction false} SplitStep(lo: nat, s: nat, hi: nat, t: nat)
    requires s >= 1 && lo < Pow2(s)
    ensures RevBits(lo + Pow2(s) * hi, s + t) == RevBits(lo, s) * Pow2(t) + RevBits(hi, t)
    decreases s, 0
  {
    hide Pow2, RevBits;
    var p, pt, x := Pow2(s - 1), Pow2(t), lo + Pow2(s) * hi;
    Pow2Doubled(s - 1);
    Halves(lo, p * hi, x) by {
      assert (2 * p) * hi == 2 * (p * hi);
    }
    RevSplit(lo / 2, s - 1, hi, t);
    Pow2Add(s - 1, t);
    RevStep(x, s + t);
    RevStep(lo, s);
    Collect(lo % 2, p, pt, RevBits(lo / 2, s - 1), RevBits(hi, t));
  }

  lemma Halves(lo: nat, q: int, x: int)
    requires x == lo + 2 * q && q >= 0
    ensures x >= 0 && x % 2 == lo % 2 && x / 2 == lo / 2 + q
  {
  }

  lemma RevStep(x: nat, b: nat)
    requires b >= 1
    ensures RevBits(x, b) == (x % 2) * Pow2(b - 1) + RevBits(x / 2, b - 1)
  {
  }

  lemma Collect(bit: int, p: int, pt: int, r: int, h: int)
    ensures bit * (p * pt) + (r * pt + h) == (bit * p + r) * pt + h
  {
    assert bit * (p * pt) == (bit * p) * pt;
    assert (bit * p + r) * pt == (bit * p) * pt + r * pt;
  }

  /** Reversing twice gives the number back: reversal permutes 0 .. 2^b - 1. */
  lemma {:induction false} RevTwice(x: nat, b: nat)
    requires x < Pow2(b)
    ensures RevBits(RevBits(x, b), b) == x
  {
    hide RevBits, Pow2;
    if b > 0 {
      Pow2Doubled(b - 1);
      RevTwice(x / 2, b - 1);
      RevBelow(x / 2, b - 1);
      RevStep(x, b);
      OneBit(x % 2);
      TopBit(x % 2, Pow2(b - 1));
      RevSplit(RevBits(x / 2, b - 1), b - 1, x % 2, 1);
    } else {
      NoBits(x);
      NoBits(RevBits(x, 0));
    }
  }

  lemma NoBits(x: nat)
    ensures RevBits(x, 0) == 0 && Pow2(0) == 1
  {
  }

  lemma TopBit(bit: nat, p: nat)
    requires bit < 2
    ensures bit * p == p * bit && p * bit == if bit == 1 then p else 0
  {
  }

  lemma OneBit(bit: nat)
    requires bit < 2
    ensures RevBits(bit, 1) == bit && Pow2(1) == 2
  {
    assert RevBits(bit / 2, 0) == 0;
  }
}

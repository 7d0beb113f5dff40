/** Encoding matrix words as residues of their centred values, and exactly when that works. */
module Centralize {
  import opened Modular
  import opened Powers
  import opened ModSwitch

  /** SEAL's negate_uint_mod without its debug check: exact for operands below the modulus, wrapping above. */
  function NegateUintMod(operand: u64, q: nat): u64 {
    if operand == 0 then 0 else Sub64(q, operand)
  }

  /** x & 2^b. */
  function BitOf(x: u64, b: nat): int {
    (x / Pow2(b) % 2) * Pow2(b)
  }

  /** What the mask keeps of -x: all of it at 64 bits, and a single bit below, the mask lacking its "- 1". */
  function MaskedNegation(x: u64, bits: nat): int {
    if bits == 64 then Sub64(0, x) else BitOf(Sub64(0, x), bits)
  }

  /** The word a share stands for, in [-2^(bits-1), 2^(bits-1)). */
  function Centred(x: int, bits: nat): int
    requires bits >= 1
  {
    if Pow2(bits - 1) <= x then x - Pow2(bits) else x
  }

  /** How many multiples of 2^bits lie at or below x, not counting x itself. */
  function BlocksBelow(x: nat, bits: nat): nat
    requires x >= 1
  {
    DivNonneg(x - 1, Pow2(bits));
    (x - 1) / Pow2(bits)
  }

  /** The word the transform writes for x. */
  function EncodedWord(x: u64, bits: nat, q: nat): int
    requires 1 <= bits <= 64 && q >= 1
  {
    MaskFits(x, bits);
    if Pow2(bits - 1) <= x then NegateUintMod(MaskedNegation(x, bits), q) else x % q
  }

  lemma MaskFits(x: u64, bits: nat)
    requires bits <= 64
    ensures 0 <= MaskedNegation(x, bits) < W64
  {
    hide Pow2, Sub64, BitOf;
    Word();
    if bits < 64 {
      Pow2Monotone(bits + 1, 64);
      Pow2Doubled(bits);
      BitIs(Sub64(0, x), bits);
    }
  }

  /** The integer that word stands for modulo q. */
  function Meaning(x: u64, bits: nat, q: nat): int
    requires bits >= 1
  {
    if x < Pow2(bits - 1) then x
    else if bits == 64 then (if W64 - x <= q then x - W64 else x)
    else if x >= 1 && BlocksBelow(x, bits) % 2 == 1 then 0
    else if Pow2(bits) <= q then 0 - Pow2(bits)
    else W64 - Pow2(bits)
  }

  method CenteralizeAt(src: seq<u64>, modIdx: nat, moduli: seq<nat>, bits: nat, out: array<u64>) returns (ok: bool)
    requires bits >= 1 && forall j | 0 <= j < |moduli| :: 2 <= moduli[j] < Pow2(61)
    modifies out
    ensures ok <==> modIdx < |moduli| && |src| == out.Length && bits <= 64
    ensures !ok ==> out[..] == old(out[..])
    ensures ok ==> forall i | 0 <= i < |src| ::
      out[i] == EncodedWord(src[i], bits, moduli[modIdx]) &&
      Cong(out[i], Meaning(src[i], bits, moduli[modIdx]), moduli[modIdx])
    ensures ok ==> forall i | 0 <= i < |src| && src[i] < Pow2(bits) ::
      out[i] == Centred(src[i], bits) % moduli[modIdx] <==>
        src[i] < Pow2(bits - 1) || (bits == 64 && W64 - src[i] <= moduli[modIdx])
    ensures ok ==> forall i | 0 <= i < |src| && Pow2(bits) <= src[i] ::
      out[i] == if BlocksBelow(src[i], bits) % 2 == 1 then 0 else Sub64(moduli[modIdx], Pow2(bits))
  {
    hide Pow2, Centred, BlocksBelow, Sub64, EncodedWord, Meaning, Cong;
    if !(modIdx < |moduli|) || |src| != out.Length || !(bits <= 64) {
      return false;
    }
    var q, half := moduli[modIdx], Pow2(bits - 1);
    for i := 0 to |src|
      invariant forall k | 0 <= k < i ::
        out[k] == EncodedWord(src[k], bits, q) && Cong(out[k], Meaning(src[k], bits, q), q)
      invariant forall k | 0 <= k < i && src[k] < Pow2(bits) :: out[k] == Centred(src[k], bits) % q <==>
        src[k] < half || (bits == 64 && W64 - src[k] <= q)
      invariant forall k | 0 <= k < i && Pow2(bits) <= src[k] ::
        out[k] == if BlocksBelow(src[k], bits) % 2 == 1 then 0 else Sub64(q, Pow2(bits))
    {
      WordWritten(src[i], bits, q);
      EncodedMeaning(src[i], bits, q);
      if src[i] < Pow2(bits) {
        CentredExactly(src[i], bits, q);
      } else {
        WideWord(src[i], bits, q);
      }
      if half <= src[i] {
        out[i] := NegateUintMod(MaskedNegation(src[i], bits), q);
      } else {
        out[i] := src[i] % q;
      }
    }
    return true;
  }

  lemma WordWritten(x: u64, bits: nat, q: nat)
    requires 1 <= bits <= 64 && 2 <= q < Pow2(61)
    ensures 0 <= MaskedNegation(x, bits) < W64 && 0 <= x % q < W64
    ensures EncodedWord(x, bits, q) ==
      if Pow2(bits - 1) <= x then NegateUintMod(MaskedNegation(x, bits), q) else x % q
  {
    hide Pow2, Sub64, MaskedNegation;
    MaskFits(x, bits);
    BelowModulus(x, q);
  }

  lemma BelowModulus(x: u64, q: nat)
    requires 2 <= q < Pow2(61)
    ensures 0 <= x % q < W64
  {
    SmallModulus(q);
  }

  lemma SmallModulus(q: nat)
    requires q < Pow2(61)
    ensures q < 0x4000_0000_0000_0000
  {
    Pow2Values();
    Pow2Add(59, 2);
    assert Pow2(2) == 4;
  }

  lemma BitIs(y: u64, b: nat)
    ensures y / Pow2(b) % 2 == 1 ==> BitOf(y, b) == Pow2(b)
    ensures y / Pow2(b) % 2 == 0 ==> BitOf(y, b) == 0
  {
  }

  /** For a word the base does not have, only bit `bits` of its negation decides what is written. */
  lemma WideWord(x: u64, bits: nat, q: nat)
    requires 1 <= bits <= 64 && Pow2(bits) <= x && 2 <= q < Pow2(61)
    ensures x >= 1 && EncodedWord(x, bits, q) ==
      if BlocksBelow(x, bits) % 2 == 1 then 0 else Sub64(q, Pow2(bits))
  {
    hide Pow2, Sub64, BlocksBelow, MaskedNegation, EncodedWord;
    Word();
    WordWritten(x, bits, q);
    Pow2Doubled(bits - 1);
    MaskedAs(x, bits);
  }

  lemma WideBit(x: u64, p: nat, m: nat)
    requires p * m == W64 && m % 2 == 0 && p >= 1 && x >= 1
    ensures (x - 1) / p >= 0 && Sub64(0, x) / p % 2 == 1 - (x - 1) / p % 2
  {
    var a, r := (x - 1) / p, (x - 1) % p;
    DivMod(x - 1, p);
    DivNonneg(x - 1, p);
    Complement(x, a, r, p, m);
    ModMultiple(p - 1 - r, m - 1 - a, p);
    OddComplement(m, a);
  }

  lemma Complement(x: u64, a: int, r: int, p: nat, m: nat)
    requires p * m == W64 && x >= 1 && x - 1 == a * p + r
    ensures Sub64(0, x) == (p - 1 - r) + (m - 1 - a) * p
  {
    assert (m - 1 - a) * p == p * m - p - a * p;
  }

  lemma OddComplement(m: int, a: int)
    requires m % 2 == 0
    ensures (m - 1 - a) % 2 == 1 - a % 2
  {
  }

  /**
   The word written for x is the residue of its centred value exactly
   when no negation is needed or 64 bits hold it.
   */
  lemma CentredExactly(x: u64, bits: nat, q: nat)
    requires 1 <= bits <= 64 && x < Pow2(bits) && 2 <= q < Pow2(61)
    ensures EncodedWord(x, bits, q) == Centred(x, bits) % q <==>
      x < Pow2(bits - 1) || (bits == 64 && W64 - x <= q)
  {
    hide Pow2, MaskedNegation, NegateUintMod, EncodedWord;
    SmallModulus(q);
    Word();
    WordWritten(x, bits, q);
    Pow2Doubled(bits - 1);
    if Pow2(bits - 1) <= x {
      if bits == 64 {
        FullNegation(x);
        Negated(W64 - x, W64 - x, q);
      } else {
        MaskedAs(x, bits);
        FirstBlock(x, bits);
        Pow2Monotone(bits, 63);
        Pow2Doubled(63);
        Negated(Pow2(bits), Pow2(bits) - x, q);
      }
    }
  }

  /** Whatever the word, what is written for it has that meaning. */
  lemma EncodedMeaning(x: u64, bits: nat, q: nat)
    requires 1 <= bits <= 64 && 2 <= q < Pow2(61)
    ensures Cong(EncodedWord(x, bits, q), Meaning(x, bits, q), q)
  {
    hide Pow2, MaskedNegation, NegateUintMod, EncodedWord, BlocksBelow, Cong;
    SmallModulus(q);
    Word();
    WordWritten(x, bits, q);
    Pow2Doubled(bits - 1);
    if x < Pow2(bits - 1) {
      ModIdempotent(x, q);
    } else if bits == 64 {
      FullNegation(x);
      NegatedMeaning(W64 - x, q);
    } else {
      MaskedAs(x, bits);
      Pow2Monotone(bits, 63);
      Pow2Doubled(63);
      NegatedMeaning(Pow2(bits), q);
      Refl(0, 0, q);
      NegatedZero(q);
    }
  }

  lemma NegatedZero(q: nat)
    ensures NegateUintMod(0, q) == 0
  {
  }

  lemma NegatedMeaning(op: u64, q: nat)
    requires 0 < op <= W64 / 2 && 2 <= q < 0x4000_0000_0000_0000
    ensures Cong(NegateUintMod(op, q), if op <= q then 0 - op else W64 - op, q)
  {
    hide Cong;
    if op <= q {
      Intro(q - op, 0 - op, 1, q);
    } else {
      ModMultiple(W64 + q - op, -1, W64);
      Intro(W64 + q - op, W64 - op, 1, q);
    }
  }

  /** Below 64 bits the mask keeps 2^bits or nothing. */
  lemma MaskedAs(x: u64, bits: nat)
    requires 1 <= bits < 64 && Pow2(bits - 1) <= x
    ensures x >= 1 && MaskedNegation(x, bits) == if BlocksBelow(x, bits) % 2 == 1 then 0 else Pow2(bits)
  {
    hide Pow2, Sub64, BitOf;
    var p, m := Pow2(bits), Pow2(64 - bits);
    Word();
    Pow2Add(bits, 64 - bits);
    Pow2Doubled(63 - bits);
    WideBit(x, p, m);
    BitIs(Sub64(0, x), bits);
  }

  lemma FirstBlock(x: nat, bits: nat)
    requires 1 <= x <= Pow2(bits)
    ensures BlocksBelow(x, bits) == 0
  {
    hide Pow2;
    ModMultiple(x - 1, 0, Pow2(bits));
  }

  lemma FullNegation(x: u64)
    requires x > 0
    ensures MaskedNegation(x, 64) == W64 - x
  {
  }

  /** Negating the operand op when the number to negate is n. */
  lemma Negated(op: u64, n: nat, q: nat)
    requires 0 < n <= op <= W64 / 2 && 2 <= q < 0x4000_0000_0000_0000
    ensures NegateUintMod(op, q) == (0 - n) % q <==> op == n && op <= q
  {
    if op <= q {
      ModMultiple(q - n, -1, q);
      if n == q {
        ModMultiple(0, -1, q);
      }
    }
  }
}

/**
 Vec2Poly: from words to residue limbs. Matrix words are centred; vector words are scaled up
 and, with the extra modulus in the base, multiplied by it, its own limb left zero.
 */
module Encoding {
  import opened Modular
  import opened Powers
  import opened Shape
  import opened Packing
  import opened Rns
  import opened ModSwitch
  import opened Centralize

  datatype Role = EncodeWeight | EncodeInput

  /** The key's base: the moduli of the ciphertexts and the extra one behind them. */
  function KeyModulus(q: seq<nat>, qk: nat, j: nat): nat
    requires j <= |q|
  {
    if j < |q| then q[j] else qk
  }

  /** What a base with an extra modulus has to satisfy; SEAL's moduli are below 2^61. */
  ghost predicate IsKeyBase(q: seq<nat>, qk: nat) {
    && IsBase(q) && IsBase(q + [qk]) && Positive(q) && Positive(q + [qk]) && Product(q) >= 1
    && 2 <= qk && forall j | 0 <= j <= |q| :: 2 <= KeyModulus(q, qk, j) < Pow2(61)
  }

  /** The word limb j gets for x. */
  function LimbWord(role: Role, x: u64, j: nat, q: seq<nat>, qk: nat, base: nat, bits: nat): int
    requires j <= |q| && KeyModulus(q, qk, j) >= 1 && 1 <= bits && (role.EncodeInput? || bits <= 64)
  {
    if role.EncodeWeight? then EncodedWord(x, bits, KeyModulus(q, qk, j))
    else if j == |q| then 0
    else (Up(x, Product(q), Pow2(base)) % q[j] * qk) % q[j]
  }

  /** Vec2Poly into positional form, for either role; weights are refused for more than 64 bits. */
  method Vec2Poly(helper: ModulusSwitchHelper, role: Role, vec: seq<u64>, qk: nat, bits: nat, bigN: nat)
    returns (pt: Result<array<u64>>)
    requires helper.Valid() && IsKeyBase(helper.moduli, qk) && 1 <= bits && |vec| <= bigN
    ensures pt.Ok? <==> role.EncodeInput? || bits <= 64
    ensures pt.Ok? ==> fresh(pt.value) && pt.value.Length == (|helper.moduli| + 1) * bigN
    ensures pt.Ok? ==> forall j | 0 <= j <= |helper.moduli| ::
      LimbEncoded(pt.value[..], role, vec, j, helper.moduli, qk, helper.baseModBitlen, bits, bigN)
  {
    hide IsBase, Product, Pow2, LimbEncoded, Up, EncodedWord, Meaning, Centred, BlocksBelow;
    var q, num := helper.moduli, |helper.moduli| + 1;
    if role.EncodeWeight? && bits > 64 {
      return InvalidArgument;
    }
    var poly := new u64[num * bigN];
    for j := 0 to num
      invariant forall k | 0 <= k < j ::
        LimbEncoded(poly[..], role, vec, k, q, qk, helper.baseModBitlen, bits, bigN)
    {
      BlockInside(j, num, bigN);
      ghost var before := poly[..];
      var limb := EncodeLimb(helper, role, vec, j, qk, bits);
      WriteLimb(poly, limb, j * bigN, bigN);
      LimbsSoFar(before, poly[..], limb, role, vec, j, q, qk, helper.baseModBitlen, bits, bigN);
    }
    return Ok(poly);
  }

  /** The first |vec| words of a limb are the encoded ones, the others zero. */
  ghost predicate LimbEncoded(pt: seq<u64>, role: Role, vec: seq<u64>, j: nat, q: seq<nat>, qk: nat, base: nat,
                              bits: nat, bigN: nat)
    requires j <= |q| && KeyModulus(q, qk, j) >= 1 && 1 <= bits && (role.EncodeInput? || bits <= 64)
  {
    forall x | j * bigN <= x < j * bigN + bigN ::
      WordAt(pt, x) == if x - j * bigN < |vec| then LimbWord(role, vec[x - j * bigN], j, q, qk, base, bits) else 0
  }

  /** One limb, by the role. */
  method EncodeLimb(helper: ModulusSwitchHelper, role: Role, vec: seq<u64>, j: nat, qk: nat, bits: nat)
    returns (limb: seq<u64>)
    requires helper.Valid() && IsKeyBase(helper.moduli, qk) && j <= |helper.moduli| && 1 <= bits
    requires role.EncodeInput? || bits <= 64
    ensures |limb| == |vec|
    ensures forall i | 0 <= i < |vec| ::
      limb[i] == LimbWord(role, vec[i], j, helper.moduli, qk, helper.baseModBitlen, bits)
  {
    hide IsBase, Product, Pow2, Up, EncodedWord, Meaning, Centred, BlocksBelow;
    var out := new u64[|vec|];
    if role.EncodeWeight? {
      assert forall i | 0 <= i <= |helper.moduli| :: (helper.moduli + [qk])[i] == KeyModulus(helper.moduli, qk, i);
      var ok := CenteralizeAt(vec, j, helper.moduli + [qk], bits, out);
    } else if j == |helper.moduli| {
      for i := 0 to |vec|
        invariant forall k | 0 <= k < i :: out[k] == 0
      {
        out[i] := 0;
      }
    } else {
      var ok := helper.ModulusUpAt(vec, j, out);
      BaseFacts(helper.moduli);
      MultiplyScalar(out, qk, helper.moduli[j]);
    }
    limb := out[..];
  }

  /** multiply_poly_scalar_coeffmod. */
  method MultiplyScalar(poly: array<u64>, scalar: nat, m: nat)
    requires 1 <= m < W64
    modifies poly
    ensures forall i | 0 <= i < poly.Length :: poly[i] == (old(poly[i]) * scalar) % m
  {
    for i := 0 to poly.Length
      invariant forall k | 0 <= k < poly.Length ::
        poly[k] == if k < i then (old(poly[k]) * scalar) % m else old(poly[k])
    {
      poly[i] := (poly[i] * scalar) % m;
    }
  }

  method WriteLimb(poly: array<u64>, limb: seq<u64>, off: nat, bigN: nat)
    requires |limb| <= bigN && off + bigN <= poly.Length
    modifies poly
    ensures forall x | 0 <= x < poly.Length ::
      poly[x] == if off <= x < off + |limb| then limb[x - off] else if off <= x < off + bigN then 0 else old(poly[x])
  {
    for i := 0 to |limb|
      invariant forall x | 0 <= x < poly.Length ::
        poly[x] == if off <= x < off + i then limb[x - off] else old(poly[x])
    {
      poly[off + i] := limb[i];
    }
    for i := |limb| to bigN
      invariant forall x | 0 <= x < poly.Length ::
        poly[x] == if off <= x < off + |limb| then limb[x - off] else if off <= x < off + i then 0 else old(poly[x])
    {
      poly[off + i] := 0;
    }
  }

  lemma LimbsSoFar(s0: seq<u64>, s1: seq<u64>, limb: seq<u64>, role: Role, vec: seq<u64>, j: nat, q: seq<nat>,
                   qk: nat, base: nat, bits: nat, bigN: nat)
    requires IsKeyBase(q, qk) && j <= |q| && bits >= 1 && (role.EncodeInput? || bits <= 64)
    requires |limb| == |vec| <= bigN && |s0| == |s1| && 0 <= j * bigN && j * bigN + bigN <= |s1|
    requires forall i | 0 <= i < |vec| :: limb[i] == LimbWord(role, vec[i], j, q, qk, base, bits)
    requires forall k | 0 <= k < j :: LimbEncoded(s0, role, vec, k, q, qk, base, bits, bigN)
    requires forall x | 0 <= x < |s1| ::
      s1[x] == if j * bigN <= x < j * bigN + |limb| then limb[x - j * bigN]
               else if j * bigN <= x < j * bigN + bigN then 0 else s0[x]
    ensures forall k | 0 <= k < j + 1 :: LimbEncoded(s1, role, vec, k, q, qk, base, bits, bigN)
  {
    hide IsBase, Product, Pow2, LimbWord;
    forall k | 0 <= k < j
      ensures LimbEncoded(s1, role, vec, k, q, qk, base, bits, bigN)
    {
      BlockInside(k, j, bigN);
      assert LimbEncoded(s0, role, vec, k, q, qk, base, bits, bigN);
      forall x | k * bigN <= x < k * bigN + bigN
        ensures WordAt(s1, x) == WordAt(s0, x)
      {
      }
    }
    assert LimbEncoded(s1, role, vec, j, q, qk, base, bits, bigN);
  }

  // ---------------------------------------------------------------------------
  // What the limbs stand for

  /** The integers m stand, modulo every ciphertext modulus, for the words encoding writes for row. */
  ghost predicate Represents(m: seq<int>, row: seq<u64>, q: seq<nat>, bits: nat)
    requires Positive(q) && 1 <= bits <= 64
  {
    |m| == |row| && forall c, j | 0 <= c < |row| && 0 <= j < |q| :: Cong(m[c], EncodedWord(row[c], bits, q[j]), q[j])
  }

  /** A word every modulus encodes as its centred value: not negative, or 64 bits and no larger than the moduli. */
  predicate WellEncoded(x: u64, q: seq<nat>, bits: nat)
    requires 1 <= bits
  {
    x < Pow2(bits - 1) || (bits == 64 && forall j | 0 <= j < |q| :: W64 - x <= q[j])
  }

  /** Every limb is the residue of the centred value exactly then. */
  lemma WellEncodedExactlyWhen(x: u64, q: seq<nat>, bits: nat)
    requires 1 <= bits <= 64 && x < Pow2(bits) && |q| >= 1
    requires forall j | 0 <= j < |q| :: 2 <= q[j] < Pow2(61)
    ensures (forall j | 0 <= j < |q| :: EncodedWord(x, bits, q[j]) == Centred(x, bits) % q[j]) <==>
            WellEncoded(x, q, bits)
  {
    hide Pow2, EncodedWord, Centred;
    forall j | 0 <= j < |q|
      ensures EncodedWord(x, bits, q[j]) == Centred(x, bits) % q[j] <==>
              x < Pow2(bits - 1) || (bits == 64 && W64 - x <= q[j])
    {
      CentredExactly(x, bits, q[j]);
    }
    if !WellEncoded(x, q, bits) && bits != 64 {
      assert EncodedWord(x, bits, q[0]) != Centred(x, bits) % q[0];
    }
  }

  /** Some integers represent any row, rightly encoded or not. */
  lemma {:induction false} SomeRepresentation(row: seq<u64>, q: seq<nat>, bits: nat) returns (m: seq<int>)
    requires IsBase(q) && Positive(q) && 1 <= bits <= 64
    ensures Represents(m, row, q, bits)
  {
    hide EncodedWord, Coprime, Cong;
    if row == [] {
      m := [];
    } else {
      var rest := SomeRepresentation(row[1..], q, bits);
      var r := seq(|q|, j requires 0 <= j < |q| => EncodedWord(row[0], bits, q[j]) % q[j]);
      var x := LimbsHaveValue(r, q);
      m := [x] + rest;
      forall c, j | 0 <= c < |row| && 0 <= j < |q|
        ensures Cong(m[c], EncodedWord(row[c], bits, q[j]), q[j])
      {
        if c == 0 {
          assert Residues(x, q)[j] == r[j];
          SameResidue(x, EncodedWord(row[0], bits, q[j]), q[j]);
        } else {
          assert row[1..][c - 1] == row[c];
          assert Cong(rest[c - 1], EncodedWord(row[1..][c - 1], bits, q[j]), q[j]);
        }
      }
    }
  }

  /** Matrix words are meant as their centred values. */
  function CentredWord(bits: nat): u64 -> int
    requires bits >= 1
  {
    (x: u64) => Centred(x, bits)
  }

  /** The centred values represent a row of well encoded words. */
  lemma CentredRepresents(row: seq<u64>, q: seq<nat>, bits: nat)
    requires 1 <= bits <= 64 && Positive(q) && forall j | 0 <= j < |q| :: 2 <= q[j] < Pow2(61)
    requires forall c | 0 <= c < |row| :: row[c] < Pow2(bits) && WellEncoded(row[c], q, bits)
    ensures Represents(Lift(CentredWord(bits), row), row, q, bits)
  {
    hide Pow2, EncodedWord, Centred, Cong;
    forall c, j | 0 <= c < |row| && 0 <= j < |q|
      ensures Cong(Centred(row[c], bits), EncodedWord(row[c], bits, q[j]), q[j])
    {
      CentredExactly(row[c], bits, q[j]);
      ModIdempotent(Centred(row[c], bits), q[j]);
      CongIs(Centred(row[c], bits) % q[j], Centred(row[c], bits), q[j]);
      SameResidue(Centred(row[c], bits), EncodedWord(row[c], bits, q[j]), q[j]);
    }
  }

  /** All moduli encode the word as residues of the same integer. */
  predicate ModuliAgree(x: u64, q: seq<nat>, bits: nat)
    requires |q| >= 1 && bits >= 1
  {
    forall j | 0 <= j < |q| :: Meaning(x, bits, q[j]) == Meaning(x, bits, q[0])
  }

  /**
   * The moduli agree on a word exactly if all of them reach what its negation leaves,
   * or none does, or it leaves nothing.
   */
  lemma AgreeExactlyWhen(x: u64, q: seq<nat>, bits: nat)
    requires |q| >= 1 && 1 <= bits <= 64
    ensures var op := if bits == 64 then W64 - x else Pow2(bits);
      ModuliAgree(x, q, bits) <==>
        || x < Pow2(bits - 1)
        || (bits < 64 && BlocksBelow(x, bits) % 2 == 1)
        || (forall j | 0 <= j < |q| :: op <= q[j])
        || (forall j | 0 <= j < |q| :: q[j] < op)
  {
    hide BlocksBelow, Pow2;
    Word();
    forall j | 0 <= j < |q|
      ensures Meaning(x, bits, q[j]) == Meaning(x, bits, q[0]) <==>
        || x < Pow2(bits - 1)
        || (bits < 64 && BlocksBelow(x, bits) % 2 == 1)
        || (ReachedBy(x, bits, q[j]) <==> ReachedBy(x, bits, q[0]))
    {
    }
  }

  predicate ReachedBy(x: u64, bits: nat, q: nat) { (if bits == 64 then W64 - x else Pow2(bits)) <= q }

  function MeaningWord(q: seq<nat>, bits: nat): u64 -> int
    requires |q| >= 1 && bits >= 1
  {
    (x: u64) => Meaning(x, bits, q[0])
  }

  /** Where all moduli agree, what they agree on represents the row, whatever it is. */
  lemma MeaningRepresents(row: seq<u64>, q: seq<nat>, bits: nat)
    requires 1 <= bits <= 64 && Positive(q) && |q| >= 1 && forall j | 0 <= j < |q| :: 2 <= q[j] < Pow2(61)
    requires forall c | 0 <= c < |row| :: ModuliAgree(row[c], q, bits)
    ensures Represents(Lift(MeaningWord(q, bits), row), row, q, bits)
  {
    hide Pow2, EncodedWord, Meaning, Cong;
    forall c, j | 0 <= c < |row| && 0 <= j < |q|
      ensures Cong(Meaning(row[c], bits, q[0]), EncodedWord(row[c], bits, q[j]), q[j])
    {
      assert ModuliAgree(row[c], q, bits);
      EncodedMeaning(row[c], bits, q[j]);
      CongIs(EncodedWord(row[c], bits, q[j]), Meaning(row[c], bits, q[j]), q[j]);
      SameResidue(Meaning(row[c], bits, q[0]), EncodedWord(row[c], bits, q[j]), q[j]);
    }
  }

  /** Modulo 2^bits a word keeps its value at 64 bits; below, a word that is negative becomes zero. */
  lemma MeaningOf(x: u64, bits: nat, q: nat)
    requires 1 <= bits <= 64
    ensures Cong(Meaning(x, bits, q), if x < Pow2(bits - 1) || bits == 64 then x else 0, Pow2(bits))
  {
    hide Pow2, Cong, BlocksBelow;
    var t: int := Pow2(bits);
    Word();
    Refl(x, x, t);
    Refl(0, 0, t);
    Pow2Add(64 - bits, bits);
    Intro(x - t, x, -1, t);
    Intro(0 - t, 0, -1, t);
    assert W64 - t == (Pow2(64 - bits) - 1) * t;
    Intro(W64 - t, 0, Pow2(64 - bits) - 1, t);
  }

  /**
   Two words of the code's own configuration that are not encoded as their centred values: one of
   32 bits, and at 64 bits one further below zero than the first modulus.
   */
  lemma MisencodedWords()
    ensures var q := 0x4_0800_0001;
      && EncodedWord(0xffff_ffff, 32, q) != Centred(0xffff_ffff, 32) % q
      && EncodedWord(0xffff_fff8_0000_0000, 64, q) != Centred(0xffff_fff8_0000_0000, 64) % q
  {
    hide EncodedWord, Centred, Pow2;
    var q := 0x4_0800_0001;
    PowersUsed();
    CentredExactly(0xffff_ffff, 32, q);
    CentredExactly(0xffff_fff8_0000_0000, 64, q);
  }

  lemma PowersUsed()
    ensures Pow2(31) == 0x8000_0000 && Pow2(32) == 0x1_0000_0000 && Pow2(61) == 0x2000_0000_0000_0000
    ensures Pow2(63) == 0x8000_0000_0000_0000 && Pow2(64) == W64
  {
    hide Pow2;
    Pow2Values();
    Pow2Add(59, 2);
    Pow2Add(4, 4);
    Pow2Add(8, 8);
    Pow2Add(16, 16);
    Pow2Doubled(31);
    Pow2Doubled(63);
    SmallPowers();
    Word();
  }

  lemma SmallPowers()
    ensures Pow2(2) == 4
  {
  }
}

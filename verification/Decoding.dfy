/** From the residue limbs of a product to the integer they decode to. */
module Decoding {
  import opened Modular
  import opened Powers
  import opened Polynomial
  import opened Rns
  import opened ModSwitch
  import opened Packing
  import opened Centralize
  import opened Encoding
  import opened Shares

  /** What limb j of an encoded word is, as an integer. */
  function Limb(role: Role, j: nat, q: seq<nat>, qk: nat, base: nat, bits: nat): u64 -> int
    requires j <= |q| && KeyModulus(q, qk, j) >= 1 && 1 <= bits <= 64
  {
    (x: u64) => LimbWord(role, x, j, q, qk, base, bits)
  }

  lemma LimbOfZero(j: nat, q: seq<nat>, qk: nat, base: nat, bits: nat)
    requires j <= |q| && KeyModulus(q, qk, j) >= 1 && 1 <= bits <= 64
    ensures Limb(EncodeInput, j, q, qk, base, bits)(0) == 0
  {
    if j < |q| {
      ModMultiple(Pow2(base) / 2, 0, Pow2(base));
      ModMultiple(0, 0, q[j]);
    }
  }

  /** Encoding the part of the vector that is there and filling up with zeros is encoding the padded chunk. */
  lemma ChunkLimb(pt: seq<u64>, vec: seq<u64>, bgn: nat, cols: nat, j: nat, q: seq<nat>, qk: nat, base: nat, bits: nat,
                  bigN: nat, x: nat)
    requires j <= |q| && KeyModulus(q, qk, j) >= 1 && 1 <= bits <= 64 && bgn <= |vec| && cols <= bigN
    requires LimbEncoded(pt, EncodeInput, vec[bgn..Min(bgn + cols, |vec|)], j, q, qk, base, bits, bigN)
    requires j * bigN <= x < j * bigN + bigN
    ensures WordAt(pt, x) == Limb(EncodeInput, j, q, qk, base, bits)(ChunkPoly(vec, bgn, cols, bigN)[x - j * bigN])
  {
    hide Up, Product, Pow2, EncodedWord;
    LimbOfZero(j, q, qk, base, bits);
  }

  /** One term's factors congruent, the second up to a constant. */
  lemma TermCong(a: int, a': int, b: int, b': int, k: int, p: int)
    requires p > 0 && Cong(a, a', p) && Cong(b, k * b', p)
    ensures Cong(a * b, k * (a' * b'), p)
  {
    hide Cong;
    Mul(a, a', b, k * b', p);
    assert a' * (k * b') == k * (a' * b');
  }

  /** b is k * b' word by word, modulo p. */
  ghost predicate ScaledSeq(b: seq<int>, k: int, b': seq<int>, p: int)
    requires p > 0
  {
    |b| == |b'| && forall i | 0 <= i < |b| :: Cong(b[i], k * b'[i], p)
  }

  lemma {:induction false} DotCong(a: seq<int>, a': seq<int>, b: seq<int>, b': seq<int>, k: int, p: int, lo: nat)
    requires p > 0 && CongSeq(a, a', p) && ScaledSeq(b, k, b', p) && lo <= |a| == |b|
    ensures Cong(Dot(a, b, lo, |b|), k * Dot(a', b', lo, |b|), p)
    decreases |b| - lo
  {
    hide Cong, Dot;
    if lo == |b| {
      EmptyDot(a, b, lo);
      EmptyDot(a', b', lo);
      Refl(0, k * 0, p);
    } else {
      DotCong(a, a', b, b', k, p, lo + 1);
      TermCong(a[lo], a'[lo], b[lo], b'[lo], k, p);
      var r, r' := Dot(a, b, lo + 1, |b|), Dot(a', b', lo + 1, |b|);
      Modular.Add(a[lo] * b[lo], k * (a'[lo] * b'[lo]), r, k * r', p);
      DotFrom(a, b, lo);
      DotFrom(a', b', lo);
      assert k * (a'[lo] * b'[lo] + r') == k * (a'[lo] * b'[lo]) + k * r';
    }
  }

  lemma DotFrom(a: seq<int>, b: seq<int>, lo: nat)
    requires lo < |a| == |b|
    ensures Dot(a, b, lo, |b|) == a[lo] * b[lo] + Dot(a, b, lo + 1, |b|)
  {
  }

  lemma {:induction false} DotOfZeros(a: seq<int>, b: seq<int>, lo: nat)
    requires lo <= |a| == |b| && forall i | 0 <= i < |b| :: b[i] == 0
    ensures Dot(a, b, lo, |b|) == 0
    decreases |b| - lo
  {
    if lo < |b| {
      DotOfZeros(a, b, lo + 1);
    }
  }

  /** Modulo a ciphertext modulus a row's limbs give qk times the scaled product of what the row represents. */
  lemma LimbProduct(m: seq<int>, row: seq<u64>, vec: seq<u64>, j: nat, q: seq<nat>, qk: nat, base: nat, bits: nat)
    requires IsKeyBase(q, qk) && 1 <= bits <= 64 && |row| == |vec| && Represents(m, row, q, bits) && j < |q|
    ensures Cong(Dot(Lift(Limb(EncodeWeight, j, q, qk, base, bits), row),
                     Lift(Limb(EncodeInput, j, q, qk, base, bits), vec), 0, |vec|),
                 qk * Dot(m, Ups(vec, Product(q), Pow2(base)), 0, |vec|), q[j])
  {
    hide Cong, Dot, IsKeyBase, Product, Pow2, Up, EncodedWord;
    KeyFacts(q, qk, j);
    var a, b, u := Lift(Limb(EncodeWeight, j, q, qk, base, bits), row),
      Lift(Limb(EncodeInput, j, q, qk, base, bits), vec), Ups(vec, Product(q), Pow2(base));
    forall c | 0 <= c < |row|
      ensures Cong(a[c], m[c], q[j])
    {
      Trans(m[c], a[c], a[c], q[j]);
    }
    forall c | 0 <= c < |vec|
      ensures Cong(b[c], qk * u[c], q[j])
    {
      ScaledLimb(u[c], qk, q[j]);
    }
    DotCong(a, m, b, u, qk, q[j], 0);
  }

  lemma KeyFacts(q: seq<nat>, qk: nat, j: nat)
    requires IsKeyBase(q, qk) && j <= |q|
    ensures KeyModulus(q, qk, j) >= 2 && qk >= 2 && Positive(q) && Product(q) >= 1 && (j < |q| ==> q[j] >= 2)
    ensures Positive(q + [qk]) && (q + [qk])[j] == KeyModulus(q, qk, j)
  {
  }

  lemma ScaledLimb(u: nat, qk: nat, p: nat)
    requires p >= 1
    ensures Cong((u % p * qk) % p, qk * u, p)
  {
    hide Cong;
    ModIdempotent(u, p);
    Refl(qk, qk, p);
    Mul(u % p, u, qk, qk, p);
    ModIdempotent(u % p * qk, p);
    Trans((u % p * qk) % p, u % p * qk, u * qk, p);
    assert u * qk == qk * u;
  }

  /** The number the limbs compose to, divided by the extra modulus and rounded. */
  ghost function Dropped(r: seq<nat>, q: seq<nat>, qk: nat): nat
    requires IsKeyBase(q, qk)
  {
    DivNonneg(Compose(r, q + [qk]) + qk / 2, qk);
    (Compose(r, q + [qk]) + qk / 2) / qk
  }

  /** Limbs of qk * y, the last one zero, compose to qk times y modulo Q, and dropping qk leaves that. */
  lemma DropsExtraModulus(y: int, r: seq<nat>, q: seq<nat>, qk: nat)
    requires IsKeyBase(q, qk) && |r| == |q| + 1 && r[|q|] == 0
    requires forall j | 0 <= j < |q| :: r[j] == (qk * y) % q[j]
    ensures y % Product(q) >= 0 && Compose(r, q + [qk]) == qk * (y % Product(q))
    ensures Dropped(r, q, qk) == y % Product(q)
  {
    hide IsBase, Compose, Product, Residues;
    var bigQ, key, w := Product(q), q + [qk], y % Product(q);
    ProductOfKey(q, qk);
    MultipleBelow(w, bigQ, qk);
    var x := qk * w;
    ResiduesOfMultiple(y, w, x, r, q, qk);
    ComposeResidues(x, key);
  }

  lemma MultipleBelow(w: nat, bigQ: nat, qk: nat)
    requires w < bigQ && qk >= 1
    ensures 0 <= qk * w < bigQ * qk && (qk * w) % qk == 0 && (qk * w + qk / 2) / qk == w
  {
    Scaled(qk, w + 1, bigQ);
    ModMultiple(0, w, qk);
    ModMultiple(qk / 2, w, qk);
    assert w * qk == qk * w && qk * (w + 1) == qk * w + qk;
  }

  lemma ResiduesOfMultiple(y: int, w: nat, x: nat, r: seq<nat>, q: seq<nat>, qk: nat)
    requires Positive(q) && Product(q) >= 1 && qk >= 1 && w == y % Product(q) && x == qk * w && x % qk == 0
    requires |r| == |q| + 1 && r[|q|] == 0 && forall j | 0 <= j < |q| :: r[j] == (qk * y) % q[j]
    ensures Positive(q + [qk]) && r == Residues(x, q + [qk])
  {
    hide Product;
    var key := q + [qk];
    forall j | 0 <= j < |key|
      ensures key[j] >= 1 && r[j] == x % key[j]
    {
      if j < |q| {
        ReducedMultiple(y, q, j, qk);
      }
    }
  }

  lemma ProductOfKey(q: seq<nat>, qk: nat)
    ensures Product(q + [qk]) == Product(q) * qk
  {
    assert (q + [qk])[..|q|] == q;
  }

  lemma ReducedMultiple(y: int, q: seq<nat>, j: nat, k: int)
    requires Positive(q) && Product(q) >= 1 && j < |q|
    ensures (k * y) % q[j] == (k * (y % Product(q))) % q[j]
  {
    hide Cong, Product;
    ResiduesOfMod(y, q);
    assert Residues(y, q)[j] == Residues(y % Product(q), q)[j];
    SameResidue(y, y % Product(q), q[j]);
    Refl(k, k, q[j]);
    Mul(k, k, y, y % Product(q), q[j]);
    CongIs(k * y, k * (y % Product(q)), q[j]);
  }

  // ---------------------------------------------------------------------------
  // What it decodes to

  /** y decodes to exact + err modulo 2^bits, err being no more than rounding allows for a row of that weight. */
  ghost predicate DecodedWith(err: int, y: nat, exact: int, weight: nat, bigQ: nat, base: nat, bits: nat)
    requires bigQ >= 1
  {
    var t := Pow2(base);
    Cong(Down(y, bigQ, t), exact + err, Pow2(bits)) && 2 * bigQ * Abs(err) <= t * weight + bigQ + 1
  }

  ghost predicate DecodesTo(y: nat, exact: int, weight: nat, bigQ: nat, base: nat, bits: nat)
    requires bigQ >= 1
  {
    exists err :: DecodedWith(err, y, exact, weight, bigQ, base, bits)
  }

  /** The scaled product, rounded down again, is the product of the integers themselves. */
  lemma ProductDecodes(m: seq<int>, vec: seq<u64>, bigQ: nat, base: nat)
    requires |m| == |vec| && bigQ >= 1 && base <= 64
    ensures var y := Dot(m, Ups(vec, bigQ, Pow2(base)), 0, |vec|) % bigQ;
      y >= 0 && DecodesTo(y, Dot(m, vec, 0, |vec|), SumAbs(m, 0), bigQ, base, base)
  {
    hide Cong, Pow2, Down, Dot, Ups, SumAbs;
    var err := MatVecError(m, vec, bigQ, base);
    assert DecodedWith(err, Dot(m, Ups(vec, bigQ, Pow2(base)), 0, |vec|) % bigQ, Dot(m, vec, 0, |vec|), SumAbs(m, 0),
                       bigQ, base, base);
  }

  /** Integers congruent modulo 2^bits have the same product modulo 2^bits. */
  lemma DecodesSame(y: nat, m: seq<int>, row: seq<int>, vec: seq<u64>, bigQ: nat, base: nat, bits: nat)
    requires |m| == |row| == |vec| && bigQ >= 1 && bits <= base && CongSeq(m, row, Pow2(bits))
    requires DecodesTo(y, Dot(m, vec, 0, |vec|), SumAbs(m, 0), bigQ, base, base)
    ensures DecodesTo(y, Dot(row, vec, 0, |vec|), SumAbs(m, 0), bigQ, base, bits)
  {
    hide Cong, Pow2, Down, Dot, SumAbs;
    var t, exact := Pow2(bits), Dot(m, vec, 0, |vec|);
    var err :| DecodedWith(err, y, exact, SumAbs(m, 0), bigQ, base, base);
    forall i | 0 <= i < |vec|
      ensures Cong(vec[i], 1 * vec[i], t)
    {
      Refl(vec[i], 1 * vec[i], t);
    }
    DotCong(m, row, vec, vec, 1, t, 0);
    CongBelow(Down(y, bigQ, Pow2(base)), exact + err, base, bits);
    Refl(err, err, t);
    Modular.Add(exact, 1 * Dot(row, vec, 0, |vec|), err, err, t);
    Trans(Down(y, bigQ, Pow2(base)), exact + err, Dot(row, vec, 0, |vec|) + err, t);
    assert DecodedWith(err, y, Dot(row, vec, 0, |vec|), SumAbs(m, 0), bigQ, base, bits);
  }

  lemma CentredCong(x: u64, bits: nat)
    requires bits >= 1
    ensures Cong(Centred(x, bits), x, Pow2(bits))
  {
    hide Cong, Pow2;
    Intro(Centred(x, bits), x, if Pow2(bits - 1) <= x then -1 else 0, Pow2(bits));
  }

  ghost predicate ProductOf(y: nat, m: seq<int>, vec: seq<u64>, q: seq<nat>, base: nat)
    requires Product(q) >= 1
  {
    && |m| == |vec| && y == Dot(m, Ups(vec, Product(q), Pow2(base)), 0, |vec|) % Product(q)
    && DecodesTo(y, Dot(m, vec, 0, |vec|), SumAbs(m, 0), Product(q), base, base)
  }

  /** Every word of the row is one of the base's and is encoded as its centred value. */
  predicate RowWellEncoded(row: seq<u64>, q: seq<nat>, bits: nat)
    requires 1 <= bits
  {
    forall c | 0 <= c < |row| :: row[c] < Pow2(bits) && WellEncoded(row[c], q, bits)
  }

  ghost predicate RowIsProduct(y: nat, row: seq<u64>, vec: seq<u64>, q: seq<nat>, base: nat, bits: nat)
    requires Product(q) >= 1 && |row| == |vec| && 1 <= bits
  {
    DecodesTo(y, Dot(row, vec, 0, |vec|), SumAbs(Lift(CentredWord(bits), row), 0), Product(q), base, bits)
  }

  /** The limbs of a row's own products are qk times one number, the last one zero. */
  ghost predicate RowLimbs(r: seq<nat>, row: seq<u64>, vec: seq<u64>, q: seq<nat>, qk: nat, base: nat, bits: nat)
    requires IsKeyBase(q, qk) && 1 <= bits <= 64 && |row| == |vec|
  {
    |r| == |q| + 1 && forall j | 0 <= j <= |q| :: r[j] == LimbOfProduct(row, vec, j, q, qk, base, bits)
  }

  function LimbOfProduct(row: seq<u64>, vec: seq<u64>, j: nat, q: seq<nat>, qk: nat, base: nat, bits: nat): int
    requires j <= |q| && KeyModulus(q, qk, j) >= 1 && 1 <= bits <= 64 && |row| == |vec|
  {
    Dot(Lift(Limb(EncodeWeight, j, q, qk, base, bits), row), Lift(Limb(EncodeInput, j, q, qk, base, bits), vec),
        0, |vec|) % KeyModulus(q, qk, j)
  }

  /** With the extra modulus dropped they are those of the scaled product of what the row represents. */
  lemma LimbsDropTo(r: seq<nat>, m: seq<int>, row: seq<u64>, vec: seq<u64>, q: seq<nat>, qk: nat, base: nat, bits: nat)
    requires IsKeyBase(q, qk) && 1 <= bits <= base <= 64 && |row| == |vec| && Represents(m, row, q, bits)
    requires RowLimbs(r, row, vec, q, qk, base, bits)
    ensures ProductOf(Dropped(r, q, qk), m, vec, q, base)
  {
    hide Dot, IsKeyBase, Product, Pow2, Ups, SumAbs, Compose, DecodesTo, Dropped, LimbOfProduct;
    var y := Dot(m, Ups(vec, Product(q), Pow2(base)), 0, |vec|);
    KeyFacts(q, qk, 0);
    LimbsOfMultiple(r, m, row, vec, q, qk, base, bits, y);
    DropsExtraModulus(y, r, q, qk);
    ProductDecodes(m, vec, Product(q), base);
  }

  lemma LimbsOfMultiple(r: seq<nat>, m: seq<int>, row: seq<u64>, vec: seq<u64>, q: seq<nat>, qk: nat, base: nat,
                        bits: nat, y: int)
    requires IsKeyBase(q, qk) && 1 <= bits <= 64 && |row| == |vec| && Represents(m, row, q, bits)
    requires RowLimbs(r, row, vec, q, qk, base, bits)
    requires y == Dot(m, Ups(vec, Product(q), Pow2(base)), 0, |vec|)
    ensures Positive(q) && |r| == |q| + 1 && r[|q|] == 0 && forall j | 0 <= j < |q| :: r[j] == (qk * y) % q[j]
  {
    hide Dot, IsKeyBase, Product, Pow2, Ups, LimbOfProduct, Represents;
    KeyFacts(q, qk, |q|);
    LastLimbZero(row, vec, q, qk, base, bits);
    forall j | 0 <= j < |q|
      ensures q[j] >= 1 && r[j] == (qk * y) % q[j]
    {
      KeyFacts(q, qk, j);
      LimbResidue(m, row, vec, j, q, qk, base, bits, y);
    }
  }

  lemma LimbResidue(m: seq<int>, row: seq<u64>, vec: seq<u64>, j: nat, q: seq<nat>, qk: nat, base: nat, bits: nat,
                    y: int)
    requires IsKeyBase(q, qk) && 1 <= bits <= 64 && |row| == |vec| && Represents(m, row, q, bits) && j < |q|
    requires y == Dot(m, Ups(vec, Product(q), Pow2(base)), 0, |vec|)
    ensures KeyModulus(q, qk, j) >= 1 && q[j] >= 1
    ensures LimbOfProduct(row, vec, j, q, qk, base, bits) == (qk * y) % q[j]
  {
    hide Cong, Dot, IsKeyBase, Product, Pow2, Ups, Limb, Lift;
    KeyFacts(q, qk, j);
    LimbProduct(m, row, vec, j, q, qk, base, bits);
    CongIs(Dot(Lift(Limb(EncodeWeight, j, q, qk, base, bits), row),
               Lift(Limb(EncodeInput, j, q, qk, base, bits), vec), 0, |vec|), qk * y, q[j]);
  }

  lemma LastLimbZero(row: seq<u64>, vec: seq<u64>, q: seq<nat>, qk: nat, base: nat, bits: nat)
    requires qk >= 1 && 1 <= bits <= 64 && |row| == |vec|
    ensures LimbOfProduct(row, vec, |q|, q, qk, base, bits) == 0
  {
    hide EncodedWord, Dot;
    DotOfZeros(Lift(Limb(EncodeWeight, |q|, q, qk, base, bits), row),
               Lift(Limb(EncodeInput, |q|, q, qk, base, bits), vec), 0);
    ModMultiple(0, 0, qk);
  }

  /** A row of well encoded words is its centred values. */
  lemma WellEncodedRow(y: nat, row: seq<u64>, vec: seq<u64>, q: seq<nat>, qk: nat, base: nat, bits: nat)
    requires IsKeyBase(q, qk) && 1 <= bits <= base <= 64 && |row| == |vec| && RowWellEncoded(row, q, bits)
    requires forall m | Represents(m, row, q, bits) :: ProductOf(y, m, vec, q, base)
    ensures RowIsProduct(y, row, vec, q, base, bits)
  {
    hide Cong, Dot, Pow2, Ups, SumAbs, DecodesTo, Centred, EncodedWord, Product, Represents;
    var m := Lift(CentredWord(bits), row);
    BelowLimit(q, qk);
    CentredRepresents(row, q, bits);
    assert ProductOf(y, m, vec, q, base);
    forall c | 0 <= c < |row|
      ensures Cong(m[c], row[c], Pow2(bits))
    {
      CentredCong(row[c], bits);
    }
    DecodesSame(y, m, row, vec, Product(q), base, bits);
  }

  /** What a word counts for modulo 2^bits: itself at 64 bits, and below, nothing if it is negative. */
  function KeptWord(bits: nat): u64 -> int
    requires bits >= 1
  {
    (x: u64) => if x < Pow2(bits - 1) || bits == 64 then x else 0
  }

  /**
   Whatever the words, as long as the moduli agree on each: the row decodes to the product of the
   words at 64 bits, and below 64 bits to the product without the negative ones.
   */
  lemma AgreeingRow(y: nat, row: seq<u64>, vec: seq<u64>, q: seq<nat>, qk: nat, base: nat, bits: nat)
    requires IsKeyBase(q, qk) && 1 <= bits <= base <= 64 && |row| == |vec| && |q| >= 1
    requires forall c | 0 <= c < |row| :: ModuliAgree(row[c], q, bits)
    requires forall m | Represents(m, row, q, bits) :: ProductOf(y, m, vec, q, base)
    ensures DecodesTo(y, Dot(Lift(KeptWord(bits), row), vec, 0, |vec|), SumAbs(Lift(MeaningWord(q, bits), row), 0),
                      Product(q), base, bits)
  {
    hide Cong, Dot, Pow2, Ups, SumAbs, DecodesTo, Meaning, EncodedWord, Product, Represents, ModuliAgree;
    var m := Lift(MeaningWord(q, bits), row);
    BelowLimit(q, qk);
    MeaningRepresents(row, q, bits);
    assert ProductOf(y, m, vec, q, base);
    forall c | 0 <= c < |row|
      ensures Cong(m[c], Lift(KeptWord(bits), row)[c], Pow2(bits))
    {
      MeaningOf(row[c], bits, q[0]);
    }
    DecodesSame(y, m, Lift(KeptWord(bits), row), vec, Product(q), base, bits);
  }

  lemma BelowLimit(q: seq<nat>, qk: nat)
    requires IsKeyBase(q, qk)
    ensures forall j | 0 <= j < |q| :: 2 <= q[j] < Pow2(61)
  {
    forall j | 0 <= j < |q|
      ensures 2 <= q[j] < Pow2(61)
    {
      assert KeyModulus(q, qk, j) == q[j];
    }
  }
}

/** Residue number systems: SEAL's decompose and compose as exact functions. */
module Rns {
  import opened Modular

  ghost predicate Bezout(a: int, b: int, u: int, v: int) { u * a + v * b == 1 }

  ghost predicate Coprime(a: int, b: int) { exists u, v :: Bezout(a, b, u, v) }

  /** Pairwise coprime moduli of at most 64 bits. */
  ghost predicate IsBase(q: seq<nat>) {
    && |q| >= 1 && (forall i | 0 <= i < |q| :: 2 <= q[i] < W64)
    && (forall i, j | 0 <= i < j < |q| :: Coprime(q[i], q[j]))
  }

  predicate Positive(q: seq<nat>) { forall i | 0 <= i < |q| :: q[i] >= 1 }

  function Product(q: seq<nat>): nat {
    if q == [] then 1 else Product(q[..|q| - 1]) * q[|q| - 1]
  }

  function Residues(x: int, q: seq<nat>): (r: seq<nat>)
    requires Positive(q)
    ensures |r| == |q|
  {
    seq(|q|, j requires 0 <= j < |q| => x % q[j])
  }

  /** The first x from `from` on, below the product, with residues r; 0 when there is none. */
  function Search(r: seq<nat>, q: seq<nat>, from: nat): nat
    requires Positive(q)
    decreases Product(q) - from
  {
    if from >= Product(q) then 0 else if Residues(from, q) == r then from else Search(r, q, from + 1)
  }

  /** The number below the product of the moduli that has residues r. */
  function Compose(r: seq<nat>, q: seq<nat>): nat
    requires Positive(q)
  {
    Search(r, q, 0)
  }

  lemma {:induction false} SearchFinds(x: nat, q: seq<nat>, from: nat)
    requires Positive(q) && from <= x < Product(q)
    ensures var y := Search(Residues(x, q), q, from); from <= y <= x && Residues(y, q) == Residues(x, q)
    decreases x - from
  {
    hide Residues;
    if Residues(from, q) != Residues(x, q) {
      SearchFinds(x, q, from + 1);
    }
  }

  lemma Factor(d: int, a: int) returns (k: int)
    requires a >= 1 && d % a == 0
    ensures d == k * a
  {
    k := d / a;
  }

  lemma CoprimeProductDivides(d: int, a: int, b: int)
    requires a >= 1 && b >= 1 && Coprime(a, b) && d % a == 0 && d % b == 0
    ensures a * b >= 1 && d % (a * b) == 0
  {
    var u, v :| Bezout(a, b, u, v);
    var k := Factor(d, b);
    var l := Factor(d, a);
    calc {
      d;
      d * (u * a + v * b);
      d * (u * a) + d * (v * b);
      { assert d * (u * a) == (k * b) * (u * a); assert d * (v * b) == (l * a) * (v * b); }
      (k * b) * (u * a) + (l * a) * (v * b);
      { assert (k * b) * (u * a) == (k * u) * (a * b); assert (l * a) * (v * b) == (l * v) * (a * b); }
      (k * u) * (a * b) + (l * v) * (a * b);
      (k * u + l * v) * (a * b);
    }
    Scaled(a, 1, b);
    ModMultiple(0, k * u + l * v, a * b);
  }

  lemma CoprimeProduct(a: int, b: int, c: int)
    requires Coprime(a, c) && Coprime(b, c)
    ensures Coprime(a * b, c)
  {
    var u, v :| Bezout(a, c, u, v);
    var w, z :| Bezout(b, c, w, z);
    var s := (u * a) * z + v * (w * b) + v * z * c;
    calc {
      1;
      (u * a + v * c) * (w * b + z * c);
      (u * a) * (w * b) + (u * a) * (z * c) + (v * c) * (w * b) + (v * c) * (z * c);
      { assert (u * a) * (w * b) == (u * w) * (a * b); assert (u * a) * (z * c) == ((u * a) * z) * c;
        assert (v * c) * (w * b) == (v * (w * b)) * c; assert (v * c) * (z * c) == (v * z * c) * c; }
      (u * w) * (a * b) + s * c;
    }
    assert Bezout(a * b, c, u * w, s);
  }

  lemma CoprimeOne(c: int)
    ensures Coprime(1, c)
  {
    assert Bezout(1, c, 1, 0);
  }

  /** The product of the first moduli is coprime to a modulus that each of them is coprime to. */
  lemma {:induction false} CoprimePrefix(q: seq<nat>, m: nat)
    requires Positive(q) && forall i | 0 <= i < |q| :: Coprime(q[i], m)
    ensures Coprime(Product(q), m)
  {
    hide Coprime;
    if q == [] {
      CoprimeOne(m);
    } else {
      CoprimePrefix(q[..|q| - 1], m);
      CoprimeProduct(Product(q[..|q| - 1]), q[|q| - 1], m);
    }
  }

  lemma {:induction false} ProductPositive(q: seq<nat>)
    requires Positive(q)
    ensures Product(q) >= 1
  {
    if q != [] {
      ProductPositive(q[..|q| - 1]);
      Scaled(Product(q[..|q| - 1]), 1, q[|q| - 1]);
    }
  }

  lemma {:induction false} ProductDivides(d: int, q: seq<nat>)
    requires Positive(q) && forall i | 0 <= i < |q| :: d % q[i] == 0
    requires forall i, j | 0 <= i < j < |q| :: Coprime(q[i], q[j])
    ensures Product(q) >= 1 && d % Product(q) == 0
  {
    hide Coprime;
    ProductPositive(q);
    if q != [] {
      var p, m := q[..|q| - 1], q[|q| - 1];
      ProductPositive(p);
      forall i | 0 <= i < |p|
        ensures d % p[i] == 0
      {
        assert p[i] == q[i];
      }
      ProductDivides(d, p);
      CoprimePrefix(p, m);
      CoprimeProductDivides(d, Product(p), m);
    }
  }

  lemma EqualResidues(x: int, y: int, m: nat)
    requires m >= 1 && x % m == y % m
    ensures (x - y) % m == 0
  {
    var k := Elim(x, y, m);
    ModMultiple(0, k, m);
  }

  /** Composing inverts taking residues: the Chinese remainder theorem's uniqueness. */
  lemma ComposeResidues(x: nat, q: seq<nat>)
    requires IsBase(q) && x < Product(q)
    ensures Compose(Residues(x, q), q) == x
  {
    hide Coprime;
    SearchFinds(x, q, 0);
    var y := Compose(Residues(x, q), q);
    forall i | 0 <= i < |q|
      ensures (x - y) % q[i] == 0
    {
      assert Residues(x, q)[i] == Residues(y, q)[i];
      EqualResidues(x, y, q[i]);
    }
    ProductDivides(x - y, q);
    var k := Factor(x - y, Product(q));
    MultipleIsLarge(k, Product(q));
  }

  /** Each modulus divides the product. */
  lemma {:induction false} ModulusDivides(q: seq<nat>, j: nat)
    requires Positive(q) && j < |q|
    ensures Product(q) % q[j] == 0
  {
    var p := q[..|q| - 1];
    if j == |q| - 1 {
      ModMultiple(0, Product(p), q[j]);
    } else {
      ModulusDivides(p, j);
      var k := Factor(Product(p), q[j]);
      assert Product(q) == (k * q[|q| - 1]) * q[j];
      ModMultiple(0, k * q[|q| - 1], q[j]);
    }
  }

  /** Reducing modulo the product keeps the residues. */
  lemma ResiduesOfMod(x: int, q: seq<nat>)
    requires Positive(q) && Product(q) >= 1
    ensures Residues(x % Product(q), q) == Residues(x, q)
  {
    var m := Product(q);
    forall j | 0 <= j < |q|
      ensures (x % m) % q[j] == x % q[j]
    {
      ModulusDivides(q, j);
      assert x % m == x + -(x / m) * m;
      MultipleKept(x % m, x, -(x / m), m, q[j]);
    }
  }

  /** Limbs as a residue number system stores them. */
  ghost predicate Reduced(r: seq<nat>, q: seq<nat>) {
    |r| == |q| && forall j | 0 <= j < |q| :: r[j] < q[j]
  }

  /** One more modulus: x is adjusted by a multiple of the product so far. */
  lemma Garner(x: nat, p: nat, m: nat, r: nat) returns (y: nat, k: nat)
    requires p >= 1 && m >= 1 && Coprime(p, m) && x < p && r < m
    ensures y == x + k * p && y < p * m && y % m == r
  {
    hide Cong;
    var u, v :| Bezout(p, m, u, v);
    var d := r - x;
    k := (d * u) % m;
    y := x + k * p;
    BezoutStep(d, p, m, u, v);
    ModIdempotent(d * u, m);
    Mul(k, d * u, p, p, m);
    Trans(k * p, (d * u) * p, d, m);
    Refl(x, x, m);
    Add(x, x, k * p, d, m);
    RemainderIs(y, r, m);
    Scaled(p, k + 1, m);
    assert p * (k + 1) == k * p + p;
  }

  lemma BezoutStep(d: int, p: int, m: int, u: int, v: int)
    requires m >= 1 && Bezout(p, m, u, v)
    ensures Cong((d * u) * p, d, m)
  {
    hide Cong;
    assert d * (u * p + v * m) == (d * u) * p + (d * v) * m;
    assert -(d * v) * m == -((d * v) * m);
    Intro((d * u) * p, d, -(d * v), m);
  }

  lemma RemainderIs(y: int, r: int, m: int)
    requires m >= 1 && Cong(y, r, m) && 0 <= r < m
    ensures y % m == r
  {
    ModMultiple(r, 0, m);
  }

  /** Every reduced list of limbs stands for a number: the Chinese remainder theorem's existence. */
  lemma {:induction false} LimbsHaveValue(r: seq<nat>, q: seq<nat>) returns (x: nat)
    requires Positive(q) && Reduced(r, q)
    requires forall i, j | 0 <= i < j < |q| :: Coprime(q[i], q[j])
    ensures x < Product(q) && Residues(x, q) == r
  {
    hide Coprime;
    if q == [] {
      x := 0;
    } else {
      var n := |q| - 1;
      var p, m := q[..n], q[n];
      ProductPositive(p);
      var low := LimbsHaveValue(r[..n], p);
      CoprimePrefix(p, m);
      var k;
      x, k := Garner(low, Product(p), m, r[n]);
      forall j | 0 <= j < n
        ensures x % q[j] == r[j]
      {
        assert Residues(low, p)[j] == r[..n][j];
        LowResidueKept(x, low, k, p, j);
      }
    }
  }

  lemma LowResidueKept(x: int, low: int, k: int, p: seq<nat>, j: nat)
    requires Positive(p) && j < |p| && x == low + k * Product(p)
    ensures x % p[j] == low % p[j]
  {
    ModulusDivides(p, j);
    MultipleKept(x, low, k, Product(p), p[j]);
  }

  lemma MultipleKept(x: int, low: int, k: int, p: int, m: int)
    requires m >= 1 && p % m == 0 && x == low + k * p
    ensures x % m == low % m
  {
    hide Cong;
    var f := Factor(p, m);
    assert k * (f * m) == (k * f) * m;
    Intro(x, low, k * f, m);
    CongIs(x, low, m);
  }

  lemma ComposeIsValue(r: seq<nat>, q: seq<nat>)
    requires IsBase(q) && Reduced(r, q)
    ensures Compose(r, q) < Product(q) && Residues(Compose(r, q), q) == r
  {
    hide Coprime, Residues;
    var x := LimbsHaveValue(r, q);
    ComposeResidues(x, q);
  }

  lemma SumOfResidues(x: int, y: int, m: nat)
    requires m >= 1
    ensures (x % m + y % m) % m == (x + y) % m
  {
    hide Cong;
    ModIdempotent(x, m);
    ModIdempotent(y, m);
    Add(x % m, x, y % m, y, m);
    CongIs(x % m + y % m, x + y, m);
  }

  lemma PositiveBase(q: seq<nat>)
    requires IsBase(q)
    ensures Positive(q)
  {
  }

  /** Adding limb by limb adds the composed numbers modulo the product. */
  lemma ComposeSum(x: nat, y: nat, r: seq<nat>, q: seq<nat>)
    requires IsBase(q) && Product(q) >= 1 && |r| == |q|
    requires forall j | 0 <= j < |q| :: r[j] == (x % q[j] + y % q[j]) % q[j]
    ensures Compose(r, q) == (x + y) % Product(q)
  {
    hide IsBase, Product, Compose;
    PositiveBase(q);
    forall j | 0 <= j < |q|
      ensures r[j] == (x + y) % q[j]
    {
      SumOfResidues(x, y, q[j]);
    }
    assert r == Residues(x + y, q);
    ResiduesOfMod(x + y, q);
    ComposeResidues((x + y) % Product(q), q);
  }

  /** The same for limbs: reduced limbs add modulo the product. */
  lemma LimbSum(a: seq<nat>, b: seq<nat>, r: seq<nat>, q: seq<nat>)
    requires IsBase(q) && Reduced(a, q) && Reduced(b, q) && |r| == |q|
    requires forall j | 0 <= j < |q| :: r[j] == (a[j] + b[j]) % q[j]
    ensures Product(q) >= 1 && Compose(r, q) == (Compose(a, q) + Compose(b, q)) % Product(q)
  {
    hide Coprime, Compose;
    ComposeIsValue(a, q);
    ComposeIsValue(b, q);
    var x, y := Compose(a, q), Compose(b, q);
    forall j | 0 <= j < |q|
      ensures r[j] == (x % q[j] + y % q[j]) % q[j]
    {
      assert Residues(x, q)[j] == a[j] && Residues(y, q)[j] == b[j];
    }
    ComposeSum(x, y, r, q);
  }
}

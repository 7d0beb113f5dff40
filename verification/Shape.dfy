/** The tile shape chosen for a matrix, and the small integer helpers behind it. */
module Shape {
  import opened Modular
  import opened Powers

  /** (a + b - 1) / b */
  function CeilDiv(a: nat, b: nat): nat
    requires b >= 1
  {
    DivNonneg(a + b - 1, b);
    (a + b - 1) / b
  }

  lemma CeilDivBounds(a: nat, b: nat)
    requires b >= 1
    ensures CeilDiv(a, b) * b >= a && (a >= 1 ==> (CeilDiv(a, b) - 1) * b < a && CeilDiv(a, b) >= 1)
  {
    var q := CeilDiv(a, b);
    assert a + b - 1 == q * b + (a + b - 1) % b;
    assert (q - 1) * b == q * b - b;
  }

  lemma CeilDivIs(a: nat, b: nat, q: nat)
    requires b >= 1 && q >= 1 && (q - 1) * b < a <= q * b
    ensures CeilDiv(a, b) == q
  {
    assert (q - 1) * b == q * b - b;
    ModMultiple(a + b - 1 - q * b, q, b);
  }

  /** v && !(v & (v - 1)), taken as: v is a power of two. */
  predicate IsTwoPower(v: nat) {
    v == 1 || (v >= 2 && v % 2 == 0 && IsTwoPower(v / 2))
  }

  lemma {:induction false} Pow2IsTwoPower(k: nat)
    ensures IsTwoPower(Pow2(k))
  {
    if k > 0 {
      Pow2IsTwoPower(k - 1);
    }
  }

  /** Log2 of math.h throws for 0. */
  function Log2(x: nat): nat
    requires x >= 1
  {
    if x == 1 then 0 else 1 + Log2(x / 2)
  }

  lemma {:induction false} Log2Bounds(x: nat)
    requires x >= 1
    ensures Pow2(Log2(x)) <= x < 2 * Pow2(Log2(x))
    ensures IsTwoPower(x) ==> x == Pow2(Log2(x))
  {
    if x > 1 {
      Log2Bounds(x / 2);
    }
  }

  lemma {:induction false} Log2OfPow2(k: nat)
    ensures Log2(Pow2(k)) == k
  {
    if k > 0 {
      Log2OfPow2(k - 1);
    }
  }

  function NextPow2(a: nat): nat {
    if a <= 2 || IsTwoPower(a) then a else Pow2(Log2(a) + 1)
  }

  /** NextPow2 is the least power of two at or above a. */
  lemma NextPow2IsLeast(a: nat)
    requires a >= 1
    ensures NextPow2(a) == Pow2(Log2(NextPow2(a))) && a <= NextPow2(a)
    ensures forall k: nat | a <= Pow2(k) :: NextPow2(a) <= Pow2(k)
  {
    Log2Bounds(a);
    if a == 2 {
      assert Pow2(1) == 2;
    }
    Log2OfPow2(Log2(a) + 1);
    Log2OfPow2(Log2(a));
    forall k: nat | a <= Pow2(k)
      ensures NextPow2(a) <= Pow2(k)
    {
      Pow2IsTwoPower(k);
      if k <= Log2(a) {
        Pow2Monotone(k, Log2(a));
      } else {
        Pow2Monotone(Log2(a) + 1, k);
      }
    }
  }

  datatype MetaInfo = MetaInfo(isTransposed: bool, nrows: nat, ncols: nat)

  datatype Result<T> = Ok(value: T) | InvalidArgument

  /** Rows and columns of the tiles. */
  datatype Tile = Tile(rows: nat, cols: nat)

  /** The shape GetSubmatrixShape computes from the matrix's rows and columns. */
  function TileShape(nrows: nat, ncols: nat, n: nat): Tile
    requires 1 <= nrows <= n && ncols >= 1
  {
    var c := Min(n, ncols);
    Log2Arg(n, c);
    var sub := Min(NextPow2(nrows), Pow2(Log2(n / c)));
    if sub * c <= n then
      var half := Max(1, sub / 2);
      NextPow2Positive(half);
      DivNonneg(n, NextPow2(half));
      Tile(half, n / NextPow2(half))
    else Tile(sub, c)
  }

  lemma Log2Arg(n: nat, c: nat)
    requires 1 <= c <= n
    ensures n / c >= 1
  {
    QuotientAtLeast(n, c, 1);
  }

  lemma NextPow2Positive(a: nat)
    requires a >= 1
    ensures NextPow2(a) >= 1
  {
  }

  method GetSubmatrixShape(meta: MetaInfo, n: nat) returns (r: Result<Tile>)
    ensures var rows := if meta.isTransposed then meta.ncols else meta.nrows;
      var cols := if meta.isTransposed then meta.nrows else meta.ncols;
      && (r == if cols < 1 || rows < 1 || rows > n then InvalidArgument else Ok(TileShape(rows, cols, n)))
      && (r.Ok? ==> forall j: nat :: TallEnough(r.value.rows, rows, cols, n, j))
  {
    var ncols := if meta.isTransposed then meta.nrows else meta.ncols;
    var nrows := if meta.isTransposed then meta.ncols else meta.nrows;
    if ncols < 1 {
      return InvalidArgument;
    }
    if nrows < 1 || nrows > n {
      return InvalidArgument;
    }
    ncols := Min(n, ncols);
    nrows := NextPow2(nrows);
    Log2Arg(n, ncols);
    var subnrows := Min(nrows, Pow2(Log2(n / ncols)));
    if subnrows * ncols <= n {
      subnrows := Max(1, subnrows / 2);
      NextPow2Positive(subnrows);
      DivNonneg(n, NextPow2(subnrows));
      ncols := n / NextPow2(subnrows);
    }
    ghost var rows, cols := if meta.isTransposed then meta.ncols else meta.nrows,
      if meta.isTransposed then meta.nrows else meta.ncols;
    forall j: nat
      ensures TallEnough(subnrows, rows, cols, n, j)
    {
      TallestTile(rows, cols, n, j);
    }
    return Ok(Tile(subnrows, ncols));
  }

  /** The tile is at least 2^j rows tall if twice that fits both the padded rows and the degree. */
  predicate TallEnough(rows: nat, nrows: nat, ncols: nat, n: nat, j: nat)
    requires nrows >= 1
  {
    Pow2(j + 1) <= NextPow2(nrows) && Pow2(j + 1) * Min(n, ncols) <= n ==> Pow2(j) <= rows
  }

  lemma TallestTile(nrows: nat, ncols: nat, n: nat, j: nat)
    requires 1 <= nrows <= n && ncols >= 1
    ensures TallEnough(TileShape(nrows, ncols, n).rows, nrows, ncols, n, j)
  {
    hide NextPow2, Log2;
    var c := Min(n, ncols);
    Log2Arg(n, c);
    Pow2Doubled(j);
    if Pow2(j + 1) <= NextPow2(nrows) && Pow2(j + 1) * c <= n {
      QuotientAtLeast(n, c, Pow2(j + 1));
      Log2Bounds(n / c);
      if Log2(n / c) < j + 1 {
        Pow2Monotone(Log2(n / c) + 1, j + 1);
      }
      Pow2Monotone(j + 1, Log2(n / c));
    }
  }

  /**
   The tiles fill a polynomial of degree n = 2^lgN: rows = 2^s and cols = n / rows,
   at most half the padded rows, wide enough for the matrix unless it is wider than n.
   */
  lemma ShapeFits(nrows: nat, ncols: nat, lgN: nat) returns (s: nat, k: nat)
    requires 1 <= nrows <= Pow2(lgN) && ncols >= 1
    ensures var t := TileShape(nrows, ncols, Pow2(lgN));
      && s <= lgN && t.rows == Pow2(s) && t.cols == Pow2(lgN - s) && t.rows * t.cols == Pow2(lgN)
      && NextPow2(nrows) == Pow2(k) && k <= lgN
      && (nrows >= 2 ==> s + 1 <= k)
      && (ncols <= Pow2(lgN) ==> ncols <= t.cols)
      && (ncols >= Pow2(lgN) ==> s == 0)
      && (s == 0 || Pow2(s + 1) * Min(Pow2(lgN), ncols) <= Pow2(lgN))
      && forall j: nat :: TallEnough(t.rows, nrows, ncols, Pow2(lgN), j)
  {
    forall j: nat
      ensures TallEnough(TileShape(nrows, ncols, Pow2(lgN)).rows, nrows, ncols, Pow2(lgN), j)
    {
      TallestTile(nrows, ncols, Pow2(lgN), j);
    }
    var n := Pow2(lgN);
    var c := Min(n, ncols);
    NextPow2IsLeast(nrows);
    k := Log2(NextPow2(nrows));
    SmallerExponent(k, lgN);
    Log2Arg(n, c);
    var j := SubRows(n, c, k);
    Log2OfPow2(j);
    s := if j == 0 then 0 else j - 1;
    SplitPower(lgN, s, j, c, Pow2(j));
    Pow2IsTwoPower(s);
    OneRow(nrows, k);
  }

  lemma OneRow(nrows: nat, k: nat)
    requires nrows >= 1 && nrows <= Pow2(k)
    ensures nrows >= 2 ==> k >= 1
  {
  }

  lemma SmallerExponent(i: nat, j: nat)
    requires Pow2(i) <= Pow2(j)
    ensures i <= j
  {
    if i > j {
      Pow2Monotone(j + 1, i);
    }
  }

  /** min(2^k, 2^floor(log2(n / c))) is a power of two, and that many rows of c columns fit n. */
  lemma SubRows(n: nat, c: nat, k: nat) returns (j: nat)
    requires 1 <= c <= n && n / c >= 1
    ensures Min(Pow2(k), Pow2(Log2(n / c))) == Pow2(j) && j <= k && Pow2(j) * c <= n
  {
    var q := n / c;
    var e := Log2(q);
    Log2Bounds(q);
    j := if k <= e then k else e;
    if k <= e {
      Pow2Monotone(k, e);
    } else {
      Pow2Monotone(e, k);
    }
    FloorTimes(n, c, Pow2(j));
  }

  lemma FloorTimes(n: nat, c: nat, rows: nat)
    requires c >= 1 && rows <= n / c
    ensures rows * c <= n
  {
    Scaled(c, rows, n / c);
    assert n == (n / c) * c + n % c;
  }

  lemma SplitPower(lgN: nat, s: nat, j: nat, c: nat, sub: nat)
    requires sub == Pow2(j) && s == (if j == 0 then 0 else j - 1) && c >= 1 && sub * c <= Pow2(lgN)
    ensures s <= lgN && Pow2(lgN) / Pow2(s) == Pow2(lgN - s) && Pow2(s) * Pow2(lgN - s) == Pow2(lgN)
    ensures c <= Pow2(lgN - s) && (c == Pow2(lgN) ==> s == 0)
  {
    Scaled(sub, 1, c);
    SmallerExponent(j, lgN);
    Pow2Add(s, lgN - s);
    ModMultiple(0, Pow2(lgN - s), Pow2(s));
    Scaled(c, Pow2(s), sub);
    CancelLe(Pow2(s), c, Pow2(lgN - s));
    if c == Pow2(lgN) {
      CancelLe(c, sub, 1);
      SmallerExponent(j, 0);
    }
  }
}

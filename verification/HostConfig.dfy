/** The parameters KernelRun programs into the accelerator, and the checks the accelerator makes. */
module HostConfig {
  import opened Modular
  import opened Powers
  import opened Shape
  import opened ControlRegisters
  import opened ControlRuns
  import ControlSlots
  import FrontEnd

  const DEGREE := 4096  // kPolyDegree and kMaxNumRows
  const LOG_DEGREE := 12
  const MAX_COLS := 16384  // kMaxNumCols

  /** check_config: the shapes the host accepts. */
  predicate AcceptedShape(nrows: nat, ncols: nat) {
    && ncols != 0 && 2 <= nrows <= DEGREE && ncols <= MAX_COLS && nrows * ncols < 50331648
  }

  /** For every number of rows the widths accepted are those up to a bound. */
  lemma AcceptedWidths(nrows: nat, ncols: nat)
    requires 2 <= nrows <= DEGREE
    ensures AcceptedShape(nrows, ncols) <==> 1 <= ncols <= Min(16384, 50331647 / nrows)
  {
    DivMod(50331647, nrows);
    if nrows * ncols < 50331648 {
      QuotientAtLeast(50331647, nrows, ncols);
    } else if ncols <= 50331647 / nrows {
      Scaled(nrows, ncols, 50331647 / nrows);
    }
  }

  datatype Params = Params(level: nat, colSize: nat, split: nat, index: nat, matLen: nat)

  /** log2 and pow on doubles are exact here: their arguments are integers below 2^53. */
  function KernelParams(n: nat, m: nat): Params
    requires n >= 1 && m >= 1
  {
    var tmp := if m < DEGREE then (QuotientAtLeast(DEGREE, m, 1); Log2(DEGREE / m)) else 0;
    var split := if m < DEGREE then 1 else CeilDiv(m, DEGREE);
    var index := if m < DEGREE then Pow2(tmp) else 1;
    DivNonneg(n * split, index);
    Params(Log2(n), m, split, index, n * split / index)
  }

  /** The parameter derivation of KernelRun: n_split and n_index are assigned, then overwritten. */
  method DeriveParams(n: nat, m: nat) returns (p: Params)
    requires n >= 1 && m >= 1
    ensures p == KernelParams(n, m)
  {
    var level := Log2(n);
    var split := CeilDiv(m, DEGREE);
    var index := 1;
    if m < DEGREE {
      split := 1;
      QuotientAtLeast(DEGREE, m, 1);
      var tmp := Log2(DEGREE / m);
      index := Pow2(tmp);
    }
    DivNonneg(n * split, index);
    p := Params(level, m, split, index, n * split / index);
  }

  /** The arguments MatVecCore passes to KernelRun for a matrix tiled as t. */
  function HostParams(nrows: nat, ncols: nat, t: Tile): Params
    requires nrows >= 1 && ncols >= 1 && NextPow2(Max(nrows, t.rows)) >= 1
  {
    KernelParams(NextPow2(Max(nrows, t.rows)), Max(ncols, t.cols))
  }

  // The five bits of config_error, in the registers' widths

  function RowSize(p: Params): nat { Pow2(p.level % 16) % 0x2000 }

  predicate LevelError(p: Params) { p.level == 0 || p.level > 12 }

  predicate ColSizeError(p: Params) {
    p.colSize == 0 || p.colSize > 16384 || RowSize(p) * (p.colSize % 0x8000) < 8192
  }

  predicate SplitError(p: Params) { p.split == 0 || p.split > 4 }

  /** Exactly one of the 13 low bits, and no other, is set. */
  predicate IndexError(p: Params) { p.index >= 0x2000 || !IsTwoPower(p.index) }

  /** The two products are compared on 15 bits. */
  predicate MatLenError(p: Params) {
    p.matLen >= 0x8000 ||
    (p.matLen % 0x8000 * (p.index % 0x2000)) % 0x8000 != (p.split % 8 * RowSize(p)) % 0x8000
  }

  predicate ConfigError(p: Params) {
    LevelError(p) || ColSizeError(p) || SplitError(p) || IndexError(p) || MatLenError(p)
  }

  /**
   What the five checks exclude: parameters that pass them are in the controller's ranges, and
   where the compared products do not wrap and the tiles come in pairs of whole rows, they feed
   exactly 2^(level-1) extractions.
   */
  lemma ChecksExclude(p: Params)
    requires !ConfigError(p)
    ensures 1 <= p.level <= 12 && 1 <= p.split <= 4 && IsTwoPower(p.index) && 1 <= p.index <= 4096
    ensures 1 <= p.colSize <= 16384 && Pow2(p.level) * p.colSize >= 8192
    ensures ControlSlots.ValidConfig(ToConfig(p))
    ensures p.matLen * p.index < 0x8000 && p.matLen % (2 * p.split) == 0 ==>
      p.matLen * p.index == p.split * Pow2(p.level) && FeedMatches(ToConfig(p), RowsPerRun(p))
  {
    hide IsTwoPower, Pow2, RowSize;
    Pow2Twelve();
    RowSizeIs(p.level, p);
    ModMultiple(p.colSize, 0, 0x8000);
    IndexInRange(p.index);
    if p.matLen * p.index < 0x8000 && p.matLen % (2 * p.split) == 0 {
      ProductCompared(p.matLen, p.index, p.split, Pow2(p.level));
      Pow2Doubled(p.level - 1);
      PairsOfRows(p.matLen, p.index, p.split, Pow2(p.level - 1));
    }
  }

  /** A power of two of 13 bits is at most 2^12. */
  lemma IndexInRange(index: nat)
    requires index < 0x2000 && IsTwoPower(index)
    ensures 1 <= index <= 4096
  {
    hide Pow2, Log2, IsTwoPower;
    SomePower(index);
    Log2Bounds(index);
    Pow2Twelve();
    Pow2Doubled(12);
    SmallerThan(Log2(index), 13);
    Pow2Monotone(Log2(index), 12);
  }

  lemma SomePower(x: nat)
    requires IsTwoPower(x)
    ensures x >= 1
  {
  }

  lemma SmallerThan(i: nat, j: nat)
    requires Pow2(i) < Pow2(j)
    ensures i < j
  {
    if i >= j {
      Pow2Monotone(j, i);
    }
  }

  lemma ProductCompared(matLen: nat, index: nat, split: nat, rows: nat)
    requires matLen < 0x8000 && index < 0x2000 && split <= 4 && rows <= 4096 && 0 <= matLen * index < 0x8000
    requires (matLen % 0x8000 * (index % 0x2000)) % 0x8000 == (split % 8 * rows) % 0x8000
    ensures matLen * index == split * rows
  {
    ModMultiple(matLen, 0, 0x8000);
    ModMultiple(index, 0, 0x2000);
    ModMultiple(split, 0, 8);
    Scaled(split, rows, 4096);
    assert split * rows >= 0;
    ModMultiple(matLen * index, 0, 0x8000);
    ModMultiple(split * rows, 0, 0x8000);
  }

  lemma PairsOfRows(matLen: nat, index: nat, split: nat, half: nat)
    requires 1 <= split && matLen % (2 * split) == 0 && matLen * index == split * (2 * half)
    ensures matLen / 2 / split * index == half
  {
    var rows := matLen / (2 * split);
    DivMod(matLen, 2 * split);
    assert matLen == (rows * split) * 2;
    ModMultiple(0, rows * split, 2);
    ModMultiple(0, rows, split);
    assert (2 * split) * (rows * index) == (2 * split) * half;
    CancelLe(2 * split, rows * index, half);
    CancelLe(2 * split, half, rows * index);
  }

  /** Rows of tiles the accelerator accumulates in a run: it works on two tiles at a time. */
  function RowsPerRun(p: Params): nat
    requires p.split >= 1
  {
    DivNonneg(p.matLen / 2, p.split);
    p.matLen / 2 / p.split
  }

  function ToConfig(p: Params): Config { Config(p.level, p.colSize, p.split, p.index, false) }

  /**
   For every shape the host accepts the accelerator accepts the parameters; they
   count the tiles and vector chunks the host encoded; and they give the controller
   a feed of exactly 2^(level-1) extractions.
   */
  lemma HostAndHardwareAgree(nrows: nat, ncols: nat)
    requires AcceptedShape(nrows, ncols)
    ensures var t := TileShape(nrows, ncols, DEGREE);
      && t.rows >= 1 && t.cols >= 1 && NextPow2(Max(nrows, t.rows)) >= 1
      && var p := HostParams(nrows, ncols, t);
      && !ConfigError(p)
      && p.matLen == CeilDiv(NextPow2(nrows), t.rows) * CeilDiv(ncols, t.cols)
      && p.split == CeilDiv(ncols, t.cols) && p.index == t.rows && Pow2(p.level) == NextPow2(nrows)
      && p.split >= 1 && FeedMatches(ToConfig(p), RowsPerRun(p))
      && (forall i | 0 <= i < t.rows :: (i + 1) * t.cols - 1 == FrontEndCoeff(p, i))
  {
    Pow2Twelve();
    var s, k := ShapeFits(nrows, ncols, LOG_DEGREE);
    var t := TileShape(nrows, ncols, DEGREE);
    assert t.rows == Pow2(s) && t.cols == Pow2(12 - s);
    AgreeAt(nrows, ncols, t, s, k);
  }

  function FrontEndCoeff(p: Params, i: nat): nat { FrontEnd.Coeff(ToConfig(p), i) }

  lemma AgreeAt(nrows: nat, ncols: nat, t: Tile, s: nat, k: nat)
    requires AcceptedShape(nrows, ncols) && s + 1 <= k <= 12 && NextPow2(nrows) == Pow2(k)
    requires t == Tile(Pow2(s), Pow2(12 - s))
    requires ncols <= DEGREE ==> ncols <= t.cols
    requires ncols >= DEGREE ==> s == 0
    ensures NextPow2(Max(nrows, t.rows)) >= 1
    ensures var p := HostParams(nrows, ncols, t);
      && !ConfigError(p)
      && p.matLen == CeilDiv(NextPow2(nrows), t.rows) * CeilDiv(ncols, t.cols)
      && p.split == CeilDiv(ncols, t.cols) && p.index == t.rows && Pow2(p.level) == NextPow2(nrows)
      && p.split >= 1 && FeedMatches(ToConfig(p), RowsPerRun(p))
      && (forall i | 0 <= i < t.rows :: (i + 1) * t.cols - 1 == FrontEndCoeff(p, i))
  {
    hide IsTwoPower, ConfigError, FeedMatches, FrontEndCoeff;
    PaddedRows(nrows, s, k);
    var split := if s == 0 then CeilDiv(Max(ncols, DEGREE), DEGREE) else 1;
    ChunkCount(ncols, s);
    ParamsAt(ncols, s, k, split);
    TileCount(s, k);
    Accepted(s, k, HostParams(nrows, ncols, t));
  }

  lemma PaddedRows(nrows: nat, s: nat, k: nat)
    requires nrows >= 2 && s < k && NextPow2(nrows) == Pow2(k)
    ensures Max(nrows, Pow2(s)) == nrows
  {
    NextPow2IsLeast(nrows);
    Pow2Strict(s, k);
  }

  /** How many vector chunks there are: one unless the matrix is wider than the degree. */
  lemma ChunkCount(ncols: nat, s: nat)
    requires 1 <= ncols <= MAX_COLS && s <= 11
    requires ncols <= DEGREE ==> ncols <= Pow2(12 - s)
    requires ncols >= DEGREE ==> s == 0
    ensures Pow2(12 - s) <= DEGREE && (s == 0 ==> Pow2(12 - s) == DEGREE) && (s >= 1 ==> Pow2(12 - s) < DEGREE)
    ensures var split := if s == 0 then CeilDiv(Max(ncols, DEGREE), DEGREE) else 1;
      CeilDiv(ncols, Pow2(12 - s)) == split && 1 <= split <= 4
  {
    Pow2Twelve();
    Pow2Monotone(12 - s, 12);
    if s >= 1 {
      Pow2Strict(12 - s, 12);
    }
    if ncols <= DEGREE {
      CeilDivIs(ncols, Pow2(12 - s), 1);
    } else {
      CeilDivBounds(ncols, DEGREE);
    }
  }

  lemma ParamsAt(ncols: nat, s: nat, k: nat, split: nat)
    requires 1 <= ncols <= MAX_COLS && s < k <= 12
    requires ncols <= DEGREE ==> ncols <= Pow2(12 - s)
    requires ncols >= DEGREE ==> s == 0
    requires split == if s == 0 then CeilDiv(Max(ncols, DEGREE), DEGREE) else 1
    ensures var m := Max(ncols, Pow2(12 - s));
      m >= 1 && KernelParams(Pow2(k), m) == Params(k, m, split, Pow2(s), Pow2(k - s) * split)
      && (s >= 1 ==> m == Pow2(12 - s)) && m <= MAX_COLS
  {
    hide Pow2, Log2, CeilDiv, KernelParams;
    Pow2Twelve();
    ChunkCount(ncols, s);
    Log2OfPow2(k);
    if s == 0 {
      WideParams(Pow2(k), Max(ncols, DEGREE));
    } else {
      Pow2Add(12 - s, s);
      ModMultiple(0, Pow2(s), Pow2(12 - s));
      assert Pow2(12 - s) * Pow2(s) == Pow2(s) * Pow2(12 - s);
      Log2OfPow2(s);
      Pow2Add(k - s, s);
      ModMultiple(0, Pow2(k - s), Pow2(s));
      NarrowParams(Pow2(k), Pow2(12 - s), s, Pow2(k - s));
    }
  }

  lemma WideParams(n: nat, m: nat)
    requires n >= 1 && m >= DEGREE
    ensures KernelParams(n, m) == Params(Log2(n), m, CeilDiv(m, DEGREE), 1, n * CeilDiv(m, DEGREE))
  {
  }

  lemma NarrowParams(n: nat, m: nat, s: nat, tiles: nat)
    requires n >= 1 && 1 <= m < DEGREE && DEGREE / m == Pow2(s) && Log2(Pow2(s)) == s && n / Pow2(s) == tiles
    ensures KernelParams(n, m) == Params(Log2(n), m, 1, Pow2(s), tiles)
  {
    hide Log2, Pow2;
  }

  lemma TileCount(s: nat, k: nat)
    requires s < k
    ensures CeilDiv(Pow2(k), Pow2(s)) == Pow2(k - s)
  {
    Pow2Add(k - s, s);
    assert (Pow2(k - s) - 1) * Pow2(s) == Pow2(k) - Pow2(s);
    CeilDivIs(Pow2(k), Pow2(s), Pow2(k - s));
  }

  lemma Accepted(s: nat, k: nat, p: Params)
    requires s < k <= 12 && 1 <= p.split <= 4 && (p.split == 1 || s == 0)
    requires p == Params(k, p.colSize, p.split, Pow2(s), Pow2(k - s) * p.split)
    requires Pow2(12 - s) <= p.colSize <= MAX_COLS && (s >= 1 ==> p.colSize == Pow2(12 - s))
    requires p.split == CeilDiv(p.colSize, DEGREE) || s >= 1
    ensures !ConfigError(p) && FeedMatches(ToConfig(p), RowsPerRun(p))
    ensures forall i | 0 <= i < Pow2(s) :: (i + 1) * Pow2(12 - s) - 1 == FrontEndCoeff(p, i)
  {
    hide IsTwoPower, ColSizeError, MatLenError, IndexError, FrontEndCoeff, CeilDiv;
    Pow2Twelve();
    Pow2Monotone(s, 11);
    ColSizeAccepted(s, k, p);
    IndexAccepted(s, p);
    MatLenAccepted(s, k, p);
    HalvedRows(s, k, p.split);
    forall i | 0 <= i < Pow2(s)
      ensures (i + 1) * Pow2(12 - s) - 1 == FrontEndCoeff(p, i)
    {
      WideTile(s, p);
      CoefficientAt(s, p, i);
    }
  }

  lemma WideTile(s: nat, p: Params)
    requires s <= 11 && Pow2(12 - s) <= p.colSize
    ensures s == 0 ==> p.colSize >= DEGREE
  {
    Pow2Twelve();
  }

  lemma RowSizeIs(k: nat, p: Params)
    requires p.level == k <= 12
    ensures RowSize(p) == Pow2(k) <= 4096
  {
    Pow2Twelve();
    Pow2Monotone(k, 12);
  }

  lemma ColSizeAccepted(s: nat, k: nat, p: Params)
    requires s < k <= 12 && p.level == k && Pow2(12 - s) <= p.colSize <= MAX_COLS
    ensures !ColSizeError(p)
  {
    hide RowSize, Pow2;
    RowSizeIs(k, p);
    Pow2Twelve();
    Pow2Monotone(0, 12 - s);
    Pow2Monotone(s + 1, k);
    Pow2Add(s + 1, 12 - s);
    Pow2Doubled(12);
    LargeEnough(RowSize(p), p.colSize, Pow2(s + 1), Pow2(12 - s));
  }

  lemma LargeEnough(rows: nat, col: nat, x: nat, y: nat)
    requires x <= rows && 1 <= y <= col < 0x8000 && x * y == 8192
    ensures rows * (col % 0x8000) >= 8192
  {
    ModMultiple(col, 0, 0x8000);
    Scaled(y, x, rows);
    Scaled(rows, y, col);
  }

  lemma IndexAccepted(s: nat, p: Params)
    requires s <= 11 && p.index == Pow2(s)
    ensures !IndexError(p)
  {
    Pow2Twelve();
    Pow2Monotone(s, 11);
    Pow2IsTwoPower(s);
  }

  lemma MatLenAccepted(s: nat, k: nat, p: Params)
    requires s < k <= 12 && p.level == k && 1 <= p.split <= 4 && p.index == Pow2(s)
    requires p.matLen == Pow2(k - s) * p.split
    ensures !MatLenError(p)
  {
    hide RowSize, Pow2;
    RowSizeIs(k, p);
    Pow2Twelve();
    Pow2Monotone(s, 11);
    Pow2Monotone(k - s, 12);
    Scaled(Pow2(k - s), p.split, 4);
    Pow2Add(k - s, s);
    TilesTimesIndex(Pow2(k - s), p.split, Pow2(s));
    ProductsAgree(p.matLen, p.index, p.split, RowSize(p));
  }

  lemma ProductsAgree(matLen: nat, index: nat, split: nat, rows: nat)
    requires matLen < 0x8000 && index < 0x2000 && split < 8 && matLen * index == split * rows
    ensures (matLen % 0x8000 * (index % 0x2000)) % 0x8000 == (split % 8 * rows) % 0x8000
  {
    ModMultiple(matLen, 0, 0x8000);
    ModMultiple(index, 0, 0x2000);
    ModMultiple(split, 0, 8);
  }

  lemma TilesTimesIndex(tiles: nat, split: nat, index: nat)
    ensures (tiles * split) * index == split * (tiles * index)
  {
  }

  lemma HalvedRows(s: nat, k: nat, split: nat)
    requires s < k <= 12 && 1 <= split <= 4 && (split == 1 || s == 0)
    ensures (Pow2(k - s) * split / 2 / split) * Pow2(s) == Pow2(k - 1)
  {
    var half := Pow2(k - s - 1);
    assert Pow2(k - s) * split == (half * split) * 2;
    ModMultiple(0, half * split, 2);
    ModMultiple(0, half, split);
    Pow2Add(k - s - 1, s);
  }

  /** Extraction i of a tile takes the last coefficient of its i-th block of columns. */
  lemma CoefficientAt(s: nat, p: Params, i: nat)
    requires s <= 11 && i < Pow2(s) && p.index == Pow2(s)
    requires (s >= 1 ==> p.split == 1 && p.colSize == Pow2(12 - s))
    requires s == 0 ==> 1 <= p.split <= 4 && p.split == CeilDiv(p.colSize, DEGREE) && p.colSize >= DEGREE
    ensures (i + 1) * Pow2(12 - s) - 1 == FrontEndCoeff(p, i)
  {
    Pow2Twelve();
    Pow2Add(s, 12 - s);
    Scaled(Pow2(12 - s), i + 1, Pow2(s));
    Scaled(Pow2(12 - s), 1, i + 1);
    if s == 0 {
      CeilDivBounds(p.colSize, DEGREE);
    }
  }

  lemma Pow2Twelve()
    ensures Pow2(0) == 1 && Pow2(1) == 2 && Pow2(2) == 4 && Pow2(3) == 8 && Pow2(4) == 16 && Pow2(5) == 32
    ensures Pow2(6) == 64 && Pow2(7) == 128 && Pow2(8) == 256 && Pow2(9) == 512 && Pow2(10) == 1024
    ensures Pow2(11) == 2048 && Pow2(12) == 4096
  {
    assert Pow2(6) == 64;
  }
}

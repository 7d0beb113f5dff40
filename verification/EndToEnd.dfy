/**
 From a matrix and a vector to the results in the order the accelerator delivers
 them and to what they decode to: packing, tile order, the controller's schedule
 and the scaling of words, put together.
 */
module EndToEnd {
  import opened Modular
  import opened Powers
  import opened Polynomial
  import opened Shape
  import opened BitReverse
  import opened Packing
  import opened TileOrder
  import opened ControlRegisters
  import opened ControlSlots
  import opened FrontEnd
  import opened ControlRuns
  import opened ControlProgress
  import opened ControlDeadlock
  import opened HostConfig
  import opened ModSwitch
  import opened Encoding
  import opened Decoding

  /** The grid the host cuts a matrix into. */
  function GridFor(nrows: nat, ncols: nat): Grid
    requires AcceptedShape(nrows, ncols)
  {
    var t := TileShape(nrows, ncols, DEGREE);
    HostAndHardwareAgree(nrows, ncols);
    NextPow2IsLeast(nrows);
    Grid(t, Log2(NextPow2(nrows)), CeilDiv(NextPow2(nrows), t.rows), CeilDiv(ncols, t.cols))
  }

  /** The grid in powers of two. */
  lemma GridFacts(nrows: nat, ncols: nat) returns (s: nat)
    requires AcceptedShape(nrows, ncols)
    ensures var g := GridFor(nrows, ncols);
      && IsGrid(g, nrows, ncols) && s < g.k <= 12 && g.t == Tile(Pow2(s), Pow2(12 - s))
      && g.blks == Pow2(g.k - s) && 1 <= g.chunks <= 4 && g.t.rows * g.t.cols == DEGREE
      && g.chunks == CeilDiv(ncols, g.t.cols) && 1 <= g.t.cols <= DEGREE && ncols >= 1
  {
    hide TileShape;
    var k;
    Pow2Twelve();
    s, k := ShapeFits(nrows, ncols, LOG_DEGREE);
    NextPow2IsLeast(nrows);
    Log2OfPow2(k);
    TileCount(s, k);
    ChunkCount(ncols, s);
    Pow2Monotone(12 - s, 12);
  }

  /** Tile x of lane `lane` of row pair q holds, in its i-th block, the row of bit-reversed number. */
  ghost predicate LaneTile(h: seq<seq<u64>>, mat: seq<seq<u64>>, g: Grid, q: nat, x: nat, lane: nat) {
    && PairSlot(q, g.chunks, x, lane) < |h|
    && |h[PairSlot(q, g.chunks, x, lane)]| == g.t.rows * g.t.cols
    && forall i | 0 <= i < g.t.rows :: LaneRow(h, mat, g, q, x, lane, i)
  }

  ghost predicate LaneRow(h: seq<seq<u64>>, mat: seq<seq<u64>>, g: Grid, q: nat, x: nat, lane: nat, i: nat) {
    SlotRow(h, mat, g.t, PairSlot(q, g.chunks, x, lane), x * g.t.cols, i, RevBits(2 * (q * g.t.rows + i) + lane, g.k))
  }

  ghost predicate SlotRow(h: seq<seq<u64>>, mat: seq<seq<u64>>, t: Tile, slot: nat, bgn: nat, i: nat, row: nat) {
    slot < |h| && RowPacked(h[slot], mat, t, bgn, i, row)
  }

  /** What the accelerator is handed: the tiles in the order it reads them, and the vector's chunks. */
  ghost predicate OperandsReady(h: seq<seq<u64>>, chunks: seq<seq<u64>>, mat: seq<seq<u64>>, vec: seq<u64>, g: Grid) {
    && (forall q, x, lane | 0 <= q < g.blks / 2 && 0 <= x < g.chunks && 0 <= lane < 2 ::
          LaneTile(h, mat, g, q, x, lane))
    && |chunks| == g.chunks
    && (forall x | 0 <= x < g.chunks :: chunks[x] == ChunkPoly(vec, x * g.t.cols, g.t.cols, g.t.rows * g.t.cols))
  }

  /** MatVec and MatVecCore up to the call of the accelerator, on plain words. */
  method PrepareOperands(mat: seq<seq<u64>>, vec: seq<u64>, workers: nat)
    returns (h: array<seq<u64>>, chunks: seq<seq<u64>>)
    requires AcceptedShape(|mat|, |vec|) && IsMatrix(mat, |mat|, |vec|) && workers >= 1
    ensures OperandsReady(h[..], chunks, mat, vec, GridFor(|mat|, |vec|))
  {
    hide IsMatrix, TileEncoded, PairPlaced, GridFor, OperandsReady, AcceptedShape, CeilDiv, NextPow2, ChunkPoly,
      IsGrid, Pow2, Log2;
    var g := GridFor(|mat|, |vec|);
    ghost var s := GridFacts(|mat|, |vec|);
    var pt := EncodeMatrix(mat, |vec|, g, workers);
    Log2OfPow2(g.k - s);
    h := ArrangeTiles(pt[..], g.blks, g.chunks);
    chunks := EncodeVector(vec, g.t.cols, DEGREE);
    OperandsInOrder(h[..], pt[..], chunks, mat, vec, g, s, g.k - s);
  }

  lemma OperandsInOrder(h: seq<seq<u64>>, pt: seq<seq<u64>>, chunks: seq<seq<u64>>, mat: seq<seq<u64>>, vec: seq<u64>,
                        g: Grid, s: nat, b: nat)
    requires s < g.k && b == g.k - s && g.blks == Pow2(b) && g.t.rows == Pow2(s)
    requires forall r, c | 0 <= r < g.blks && 0 <= c < g.chunks :: TileEncoded(pt, mat, g, r, c)
    requires forall q | 0 <= q < g.blks / 2 :: PairPlaced(h, pt, b, g.chunks, q)
    requires |chunks| == g.chunks
    requires forall x | 0 <= x < g.chunks :: chunks[x] == ChunkPoly(vec, x * g.t.cols, g.t.cols, g.t.rows * g.t.cols)
    ensures OperandsReady(h, chunks, mat, vec, g)
  {
    hide TileEncoded, PairPlaced, LaneTile, ChunkPoly, RevBits;
    forall q, x, lane | 0 <= q < g.blks / 2 && 0 <= x < g.chunks && 0 <= lane < 2
      ensures LaneTile(h, mat, g, q, x, lane)
    {
      LaneHolds(h, pt, mat, g, s, q, x, lane);
    }
  }

  lemma LaneHolds(h: seq<seq<u64>>, pt: seq<seq<u64>>, mat: seq<seq<u64>>, g: Grid, s: nat, q: nat, x: nat, lane: nat)
    requires s < g.k && g.blks == Pow2(g.k - s) && g.t.rows == Pow2(s)
    requires q < g.blks / 2 && x < g.chunks && lane < 2
    requires forall r, c | 0 <= r < g.blks && 0 <= c < g.chunks :: TileEncoded(pt, mat, g, r, c)
    requires PairPlaced(h, pt, g.k - s, g.chunks, q)
    ensures LaneTile(h, mat, g, q, x, lane)
  {
    hide RowPacked, RowOf, RevBits, Pow2;
    RevBelow(2 * q + lane, g.k - s);
    var r := RevBits(2 * q + lane, g.k - s);
    assert TileEncoded(pt, mat, g, r, x);
    assert SlotHolds(h, pt, g.k - s, g.chunks, q, x, lane);
    forall i | 0 <= i < g.t.rows
      ensures LaneRow(h, mat, g, q, x, lane, i)
    {
      RowOfLane(g.k, s, q, i, lane);
    }
  }

  // ---------------------------------------------------------------------------
  // What an extraction delivers

  /** The tile a ciphertext of the stream stands for: the first c.split are the vector. */
  ghost predicate PieceFits(c: Config, h: seq<seq<u64>>, chunks: seq<seq<u64>>, p: Piece, lane: nat, coeff: nat) {
    && c.split <= p.item && 2 * (p.item - c.split) + lane < |h| && p.split < |chunks|
    && coeff < |chunks[p.split]| == |h[2 * (p.item - c.split) + lane]|
  }

  /** One coefficient of the first m accumulated products, in one lane, the words standing for f and g of them. */
  ghost function Delivered(c: Config, f: u64 -> int, g: u64 -> int, h: seq<seq<u64>>, chunks: seq<seq<u64>>,
                           row: seq<Piece>, lane: nat, coeff: nat, m: nat): int
    requires m <= |row| && forall x | 0 <= x < m :: PieceFits(c, h, chunks, row[x], lane, coeff)
  {
    if m == 0 then 0
    else
      assert PieceFits(c, h, chunks, row[m - 1], lane, coeff);
      Delivered(c, f, g, h, chunks, row, lane, coeff, m - 1) +
      NegacyclicMul(Lift(f, h[2 * (row[m - 1].item - c.split) + lane]), Lift(g, chunks[row[m - 1].split]))[coeff]
  }

  /** The tiles of one lane of a row pair. */
  function LaneTiles(h: seq<seq<u64>>, q: nat, chunks: nat, lane: nat): seq<seq<u64>>
    requires forall x | 0 <= x < chunks :: PairSlot(q, chunks, x, lane) < |h|
  {
    seq(chunks, x requires 0 <= x < chunks => h[PairSlot(q, chunks, x, lane)])
  }

  lemma PieceOf(c: Config, q: nat, x: nat, lane: nat)
    requires x < c.split
    ensures var p := Row(c, q)[x];
      c.split <= p.item && 2 * (p.item - c.split) + lane == PairSlot(q, c.split, x, lane) && p.split == x
  {
  }

  lemma {:induction false} DeliveredIsChunkSum(c: Config, f: u64 -> int, g: u64 -> int, h: seq<seq<u64>>,
                                               chunks: seq<seq<u64>>, q: nat, lane: nat, coeff: nat, m: nat)
    requires c.split >= 1 && m <= c.split == |chunks|
    requires forall x | 0 <= x < c.split :: PairSlot(q, c.split, x, lane) < |h| &&
               coeff < |chunks[x]| == |h[PairSlot(q, c.split, x, lane)]|
    ensures forall x | 0 <= x < m :: PieceFits(c, h, chunks, Row(c, q)[x], lane, coeff)
    ensures Delivered(c, f, g, h, chunks, Row(c, q), lane, coeff, m)
         == ChunkSum(f, g, LaneTiles(h, q, c.split, lane), chunks, coeff, m)
  {
    hide NegacyclicMul, PairSlot, Row;
    forall x | 0 <= x < m
      ensures PieceFits(c, h, chunks, Row(c, q)[x], lane, coeff)
    {
      PieceOf(c, q, x, lane);
    }
    if m > 0 {
      PieceOf(c, q, m - 1, lane);
      DeliveredIsChunkSum(c, f, g, h, chunks, q, lane, coeff, m - 1);
    }
  }

  /** Extraction i of row pair q, in either lane, is the inner product of the row of bit-reversed number. */
  lemma ExtractionValue(c: Config, fm: u64 -> int, fv: u64 -> int, h: seq<seq<u64>>, chunks: seq<seq<u64>>,
                        mat: seq<seq<u64>>, vec: seq<u64>, g: Grid, q: nat, i: nat, lane: nat)
    requires fv(0) == 0
    requires IsMatrix(mat, |mat|, |vec|) && IsGrid(g, |mat|, |vec|) && OperandsReady(h, chunks, mat, vec, g)
    requires c.split == g.chunks >= 1 && q < g.blks / 2 && i < g.t.rows && lane < 2
    requires RevBits(2 * (q * g.t.rows + i) + lane, g.k) < |mat|
    ensures var k := (i + 1) * g.t.cols - 1;
      && 0 <= k
      && (forall x | 0 <= x < c.split :: PieceFits(c, h, chunks, Row(c, q)[x], lane, k))
      && Delivered(c, fm, fv, h, chunks, Row(c, q), lane, k, c.split)
      == Dot(Lift(fm, mat[RevBits(2 * (q * g.t.rows + i) + lane, g.k)]), Lift(fv, vec), 0, |vec|)
  {
    hide IsMatrix, OperandsReady, Delivered, ChunkSum, Dot, NegacyclicMul, RevBits, CeilDiv, Row, NextPow2, PairSlot,
      PieceFits, RowAcross;
    var row, k := RevBits(2 * (q * g.t.rows + i) + lane, g.k), (i + 1) * g.t.cols - 1;
    LaneAcross(h, chunks, mat, vec, g, q, i, lane, row, k);
    DeliveredIsChunkSum(c, fm, fv, h, chunks, q, lane, k, c.split);
    WholeRow(mat, |vec|, row);
    RowProduct(fm, fv, LaneTiles(h, q, c.split, lane), chunks, mat, vec, g.t, i, row, k, c.split);
    CeilDivBounds(|vec|, g.t.cols);
  }

  lemma WholeRow(mat: seq<seq<u64>>, ncols: nat, row: nat)
    requires IsMatrix(mat, |mat|, ncols) && row < |mat|
    ensures |mat[row]| == ncols
  {
  }

  lemma LaneAcross(h: seq<seq<u64>>, chunks: seq<seq<u64>>, mat: seq<seq<u64>>, vec: seq<u64>,
                   g: Grid, q: nat, i: nat, lane: nat, row: nat, k: int)
    requires IsGrid(g, |mat|, |vec|) && OperandsReady(h, chunks, mat, vec, g)
    requires q < g.blks / 2 && i < g.t.rows && lane < 2
    requires row == RevBits(2 * (q * g.t.rows + i) + lane, g.k) && k == (i + 1) * g.t.cols - 1
    ensures forall x | 0 <= x < g.chunks :: PairSlot(q, g.chunks, x, lane) < |h| &&
              0 <= k < |chunks[x]| == |h[PairSlot(q, g.chunks, x, lane)]|
    ensures RowAcross(LaneTiles(h, q, g.chunks, lane), chunks, mat, vec, g.t, i, row, g.chunks)
    ensures 0 <= k < g.t.rows * g.t.cols && |chunks| == g.chunks
  {
    hide RowPacked, RevBits, CeilDiv, NextPow2, PairSlot, ChunkPoly, SlotRow;
    BlockInside(i, g.t.rows, g.t.cols);
    Scaled(g.t.cols, 1, i + 1);
    forall x | 0 <= x < g.chunks
      ensures LaneTile(h, mat, g, q, x, lane) && PairSlot(q, g.chunks, x, lane) < |h|
      ensures x * g.t.cols < |vec| && LaneRow(h, mat, g, q, x, lane, i)
    {
      ChunkBegins(|vec|, g.t.cols, x);
    }
    var tiles := LaneTiles(h, q, g.chunks, lane);
    forall x | 0 <= x < g.chunks
      ensures |tiles[x]| == |chunks[x]| == g.t.rows * g.t.cols && RowPacked(tiles[x], mat, g.t, x * g.t.cols, i, row)
    {
      SlotRowPacked(h, mat, g.t, PairSlot(q, g.chunks, x, lane), x * g.t.cols, i, row);
    }
  }

  lemma SlotRowPacked(h: seq<seq<u64>>, mat: seq<seq<u64>>, t: Tile, slot: nat, bgn: nat, i: nat, row: nat)
    requires SlotRow(h, mat, t, slot, bgn, i, row)
    ensures slot < |h| && RowPacked(h[slot], mat, t, bgn, i, row)
  {
  }

  function ParamsFor(nrows: nat, ncols: nat): Params
    requires AcceptedShape(nrows, ncols)
  {
    HostAndHardwareAgree(nrows, ncols);
    HostParams(nrows, ncols, TileShape(nrows, ncols, DEGREE))
  }

  function ConfigFor(nrows: nat, ncols: nat): Config
    requires AcceptedShape(nrows, ncols)
  {
    ToConfig(ParamsFor(nrows, ncols))
  }

  /** The controller has finished the job the host gave it. */
  ghost predicate JobDone(nrows: nat, ncols: nat, hist: History)
    requires AcceptedShape(nrows, ncols)
  {
    var p := ParamsFor(nrows, ncols);
    p.split >= 1 && FeedMatches(ToConfig(p), RowsPerRun(p)) && Complete(ToConfig(p), RowsPerRun(p), hist)
  }

  /** The controller's parameters as the grid has them. */
  lemma ConfigFacts(nrows: nat, ncols: nat)
    requires AcceptedShape(nrows, ncols)
    ensures var g, p := GridFor(nrows, ncols), ParamsFor(nrows, ncols);
      && g.t.rows >= 1 && g.k >= 1 && p.split == g.chunks >= 1 && p.index == g.t.rows && p.level == g.k
      && FeedMatches(ToConfig(p), RowsPerRun(p)) && RowsPerRun(p) == g.blks / 2
      && (forall i | 0 <= i < g.t.rows :: (i + 1) * g.t.cols - 1 == FrontEndCoeff(p, i))
  {
    hide FrontEndCoeff, HostParams, TileShape, ConfigError, FeedMatches, RowsPerRun, Pow2, IsGrid;
    var g, p := GridFor(nrows, ncols), ParamsFor(nrows, ncols);
    HostAndHardwareAgree(nrows, ncols);
    var s := GridFacts(nrows, ncols);
    PaddedExponent(nrows, g.k);
    SameExponent(p.level, g.k);
    Pow2Add(g.k - 1 - s, s);
    Pow2Doubled(g.k - 1 - s);
    FeedRows(ToConfig(p), RowsPerRun(p));
    SameFactor(RowsPerRun(p), Pow2(g.k - 1 - s), Pow2(s));
  }

  lemma PaddedExponent(nrows: nat, k: nat)
    requires nrows >= 1 && k == Log2(NextPow2(nrows)) && NextPow2(nrows) >= 1
    ensures NextPow2(nrows) == Pow2(k)
  {
    NextPow2IsLeast(nrows);
  }

  lemma FeedRows(c: Config, rows: nat)
    requires FeedMatches(c, rows)
    ensures c.level >= 1 && rows * c.index == Pow2(c.level - 1)
  {
  }

  lemma SameExponent(i: nat, j: nat)
    requires Pow2(i) == Pow2(j)
    ensures i == j
  {
    SmallerExponent(i, j);
    SmallerExponent(j, i);
  }

  lemma SameFactor(x: nat, y: nat, p: nat)
    requires p >= 1 && x * p == y * p
    ensures x == y
  {
    CancelLe(p, x, y);
    CancelLe(p, y, x);
  }

  /** Extraction e is extraction i of row pair q, for e == q * index + i. */
  lemma ExtractionOf(nrows: nat, ncols: nat, hist: History, e: nat) returns (q: nat, i: nat)
    requires AcceptedShape(nrows, ncols) && JobDone(nrows, ncols, hist) && e < |hist.front.extracted|
    ensures var g, c := GridFor(nrows, ncols), ConfigFor(nrows, ncols);
      && c.split == g.chunks >= 1 && g.k >= 1 && |hist.front.extracted| * 2 == Pow2(g.k)
      && q < g.blks / 2 && i < g.t.rows && e == q * g.t.rows + i
      && hist.front.extracted[e].row == Row(c, q) && hist.front.extracted[e].coeff == (i + 1) * g.t.cols - 1
  {
    hide GridFor, ParamsFor, Row, Coeff, ValidConfig;
    ConfigFacts(nrows, ncols);
    var g, p := GridFor(nrows, ncols), ParamsFor(nrows, ncols);
    QuotientBound(e, RowsPerRun(p), g.t.rows);
    DivNonneg(e, g.t.rows);
    q, i := e / g.t.rows, e % g.t.rows;
    assert ExtractionAt(ToConfig(p), hist.front.rows, hist.front.extracted, e);
    assert FrontEndCoeff(p, i) == Coeff(ToConfig(p), i);
  }

  /**
   In a finished run, extraction e of lane `lane` delivers, at the coefficient the controller
   asks for, the inner product of the vector with the matrix row whose number is 2e + lane in
   reverse bit order, for every accepted shape and whatever the words stand for.
   */
  lemma DeliveredInOrder(fm: u64 -> int, fv: u64 -> int, mat: seq<seq<u64>>, vec: seq<u64>, h: seq<seq<u64>>,
                         chunks: seq<seq<u64>>, hist: History, e: nat, lane: nat)
    requires AcceptedShape(|mat|, |vec|) && IsMatrix(mat, |mat|, |vec|) && fv(0) == 0
    requires OperandsReady(h, chunks, mat, vec, GridFor(|mat|, |vec|))
    requires JobDone(|mat|, |vec|, hist)
    requires e < |hist.front.extracted| && lane < 2
    ensures var g, c, x := GridFor(|mat|, |vec|), ConfigFor(|mat|, |vec|), hist.front.extracted[e];
      && |hist.front.extracted| * 2 == Pow2(g.k)
      && |x.row| == c.split
      && (RevBits(2 * e + lane, g.k) < |mat| ==>
            && (forall t | 0 <= t < c.split :: PieceFits(c, h, chunks, x.row[t], lane, x.coeff))
            && Delivered(c, fm, fv, h, chunks, x.row, lane, x.coeff, c.split)
               == Dot(Lift(fm, mat[RevBits(2 * e + lane, g.k)]), Lift(fv, vec), 0, |vec|))
  {
    hide OperandsReady, IsMatrix, GridFor, ConfigFor, PieceFits, Delivered, Dot, RevBits, IsGrid, JobDone;
    var g, c := GridFor(|mat|, |vec|), ConfigFor(|mat|, |vec|);
    var s := GridFacts(|mat|, |vec|);
    var q, i := ExtractionOf(|mat|, |vec|, hist, e);
    if RevBits(2 * e + lane, g.k) < |mat| {
      ExtractionValue(c, fm, fv, h, chunks, mat, vec, g, q, i, lane);
    }
  }

  /** Every padded row is delivered exactly once. */
  lemma EveryRowOnce(k: nat, row: nat)
    requires k >= 1 && row < Pow2(k)
    ensures var j := RevBits(row, k);
      && j < Pow2(k) && RevBits(j, k) == row && j / 2 < Pow2(k - 1)
      && (forall i: nat | i < Pow2(k) && RevBits(i, k) == row :: i == j)
  {
    RevBelow(row, k);
    RevTwice(row, k);
    forall i: nat | i < Pow2(k) && RevBits(i, k) == row
      ensures i == RevBits(row, k)
    {
      RevTwice(i, k);
    }
  }

  // ---------------------------------------------------------------------------
  // From the shape to the result

  function RowsFor(nrows: nat, ncols: nat): nat
    requires AcceptedShape(nrows, ncols)
  {
    HostAndHardwareAgree(nrows, ncols);
    RowsPerRun(ParamsFor(nrows, ncols))
  }

  /**
   The host never asks for the kind of run that blocks: several tiles a row
   and several extractions exclude each other.
   */
  lemma HostUnblocked(nrows: nat, ncols: nat)
    requires AcceptedShape(nrows, ncols)
    ensures var c := ConfigFor(nrows, ncols); c.split == 1 || c.index == 1
    ensures FeedMatches(ConfigFor(nrows, ncols), RowsFor(nrows, ncols))
    ensures Unblocked(ConfigFor(nrows, ncols), RowsFor(nrows, ncols))
  {
    hide TileShape, RowsPerRun, FeedMatches, ConfigError;
    HostAndHardwareAgree(nrows, ncols);
    SplitOrIndex(NextPow2(Max(nrows, TileShape(nrows, ncols, DEGREE).rows)),
                 Max(ncols, TileShape(nrows, ncols, DEGREE).cols));
  }

  lemma SplitOrIndex(n: nat, m: nat)
    requires n >= 1 && m >= 1
    ensures KernelParams(n, m).split == 1 || KernelParams(n, m).index == 1
  {
  }

  /** The limbs, over the key's base, of the coefficient x asks for in one lane. */
  ghost function DeliveredLimbs(c: Config, h: seq<seq<u64>>, chunks: seq<seq<u64>>, x: Extraction, lane: nat,
                                q: seq<nat>, qk: nat, base: nat, bits: nat): (r: seq<nat>)
    requires IsKeyBase(q, qk) && 1 <= bits <= 64 && |x.row| == c.split
    requires forall t | 0 <= t < c.split :: PieceFits(c, h, chunks, x.row[t], lane, x.coeff)
    ensures |r| == |q| + 1
  {
    seq(|q| + 1, j requires 0 <= j <= |q| =>
      Delivered(c, Limb(EncodeWeight, j, q, qk, base, bits), Limb(EncodeInput, j, q, qk, base, bits),
                h, chunks, x.row, lane, x.coeff, c.split) % KeyModulus(q, qk, j))
  }

  /**
   Row i comes out as one lane of the extraction of its reversed number. With the extra modulus
   dropped its limbs are those of the product of the scaled vector with any integers that
   represent the row's encoded words, and they decode to the product of those integers.
   */
  ghost predicate RowDecoded(mat: seq<seq<u64>>, vec: seq<u64>, h: seq<seq<u64>>, chunks: seq<seq<u64>>, hist: History,
                             i: nat, q: seq<nat>, qk: nat, base: nat, bits: nat)
    requires AcceptedShape(|mat|, |vec|) && IsMatrix(mat, |mat|, |vec|) && i < |mat|
    requires IsKeyBase(q, qk) && 1 <= bits <= base <= 64
  {
    var c, j := ConfigFor(|mat|, |vec|), RevBits(i, GridFor(|mat|, |vec|).k);
    && j / 2 < |hist.front.extracted|
    && var x := hist.front.extracted[j / 2];
    && |x.row| == c.split && (forall t | 0 <= t < c.split :: PieceFits(c, h, chunks, x.row[t], j % 2, x.coeff))
    && var y := Dropped(DeliveredLimbs(c, h, chunks, x, j % 2, q, qk, base, bits), q, qk);
    && (forall m | Represents(m, mat[i], q, bits) :: ProductOf(y, m, vec, q, base))
    && (RowWellEncoded(mat[i], q, bits) ==> RowIsProduct(y, mat[i], vec, q, base, bits))
  }

  /** Limb j of what is delivered, against the row. */
  lemma LimbDelivered(mat: seq<seq<u64>>, vec: seq<u64>, h: seq<seq<u64>>, chunks: seq<seq<u64>>, hist: History,
                      i: nat, j: nat, q: seq<nat>, qk: nat, base: nat, bits: nat)
    requires AcceptedShape(|mat|, |vec|) && IsMatrix(mat, |mat|, |vec|) && i < |mat|
    requires OperandsReady(h, chunks, mat, vec, GridFor(|mat|, |vec|)) && JobDone(|mat|, |vec|, hist)
    requires IsKeyBase(q, qk) && 1 <= bits <= 64 && j <= |q|
    ensures var c, n := ConfigFor(|mat|, |vec|), RevBits(i, GridFor(|mat|, |vec|).k);
      && n / 2 < |hist.front.extracted|
      && var x := hist.front.extracted[n / 2];
      && |x.row| == c.split && (forall t | 0 <= t < c.split :: PieceFits(c, h, chunks, x.row[t], n % 2, x.coeff))
      && Delivered(c, Limb(EncodeWeight, j, q, qk, base, bits), Limb(EncodeInput, j, q, qk, base, bits),
                   h, chunks, x.row, n % 2, x.coeff, c.split)
         == Dot(Lift(Limb(EncodeWeight, j, q, qk, base, bits), mat[i]),
                Lift(Limb(EncodeInput, j, q, qk, base, bits), vec), 0, |vec|)
  {
    hide OperandsReady, GridFor, ConfigFor, PieceFits, Delivered, Dot, RevBits, JobDone, Lift, Limb, IsKeyBase;
    var k := GridFor(|mat|, |vec|).k;
    var n := RevBits(i, k);
    KeyFacts(q, qk, j);
    RowInRange(|mat|, |vec|, i);
    EveryRowOnce(k, i);
    ExtractionCount(|mat|, |vec|, hist);
    LimbOfZero(j, q, qk, base, bits);
    DeliveredInOrder(Limb(EncodeWeight, j, q, qk, base, bits), Limb(EncodeInput, j, q, qk, base, bits),
                     mat, vec, h, chunks, hist, n / 2, n % 2);
  }

  lemma RowDecodes(mat: seq<seq<u64>>, vec: seq<u64>, h: seq<seq<u64>>, chunks: seq<seq<u64>>, hist: History,
                   i: nat, q: seq<nat>, qk: nat, base: nat, bits: nat)
    requires AcceptedShape(|mat|, |vec|) && IsMatrix(mat, |mat|, |vec|) && i < |mat|
    requires OperandsReady(h, chunks, mat, vec, GridFor(|mat|, |vec|)) && JobDone(|mat|, |vec|, hist)
    requires IsKeyBase(q, qk) && 1 <= bits <= base <= 64
    ensures RowDecoded(mat, vec, h, chunks, hist, i, q, qk, base, bits)
  {
    hide OperandsReady, GridFor, ConfigFor, PieceFits, Delivered, Dot, RevBits, JobDone, Lift, Limb, IsKeyBase, Dropped,
         Represents, ProductOf, RowWellEncoded, RowIsProduct;
    var c, n := ConfigFor(|mat|, |vec|), RevBits(i, GridFor(|mat|, |vec|).k);
    LimbDelivered(mat, vec, h, chunks, hist, i, 0, q, qk, base, bits);
    var x := hist.front.extracted[n / 2];
    var r := DeliveredLimbs(c, h, chunks, x, n % 2, q, qk, base, bits);
    forall j | 0 <= j <= |q|
      ensures KeyModulus(q, qk, j) >= 1 && r[j] == LimbOfProduct(mat[i], vec, j, q, qk, base, bits)
    {
      KeyFacts(q, qk, j);
      LimbDelivered(mat, vec, h, chunks, hist, i, j, q, qk, base, bits);
    }
    KeyFacts(q, qk, 0);
    forall m | Represents(m, mat[i], q, bits)
      ensures ProductOf(Dropped(r, q, qk), m, vec, q, base)
    {
      LimbsDropTo(r, m, mat[i], vec, q, qk, base, bits);
    }
    if RowWellEncoded(mat[i], q, bits) {
      WellEncodedRow(Dropped(r, q, qk), mat[i], vec, q, qk, base, bits);
    }
  }

  lemma RowInRange(nrows: nat, ncols: nat, i: nat)
    requires AcceptedShape(nrows, ncols) && i < nrows
    ensures GridFor(nrows, ncols).k >= 1 && i < Pow2(GridFor(nrows, ncols).k)
  {
    hide Log2;
    var s := GridFacts(nrows, ncols);
    NextPow2IsLeast(nrows);
    PaddedExponent(nrows, GridFor(nrows, ncols).k);
  }

  lemma ExtractionCount(nrows: nat, ncols: nat, hist: History)
    requires AcceptedShape(nrows, ncols) && JobDone(nrows, ncols, hist)
    ensures GridFor(nrows, ncols).k >= 1
    ensures |hist.front.extracted| == Pow2(GridFor(nrows, ncols).k - 1)
  {
    hide GridFor, ParamsFor, ExtractionAt;
    ConfigFacts(nrows, ncols);
  }

  /**
   The whole way, for every accepted shape. Started in any state, the run of the configuration
   the host programs raises done after a bounded number of slot boundaries, whatever the stages'
   timing, and then every row has been delivered: the limbs of the coefficient its extraction asks
   for compose to the scaled vector's product with what its encoded words represent, and decode to
   the product of those integers up to the rounding of the vector's words. For a row of words that
   encoding centres rightly that is the row's own product, modulo 2^bits.
   */
  lemma HostRun(mat: seq<seq<u64>>, vec: seq<u64>, h: seq<seq<u64>>, chunks: seq<seq<u64>>, r: Regs, start: Inputs,
                q: seq<nat>, qk: nat, base: nat, bits: nat) returns (k: nat)
    requires AcceptedShape(|mat|, |vec|) && IsMatrix(mat, |mat|, |vec|)
    requires OperandsReady(h, chunks, mat, vec, GridFor(|mat|, |vec|))
    requires Sane(ConfigFor(|mat|, |vec|), r) && start.start
    requires IsKeyBase(q, qk) && 1 <= bits <= base <= 64
    ensures var c, rows := ConfigFor(|mat|, |vec|), RowsFor(|mat|, |vec|);
      forall ins | GapFree(c, rows, Started(c, r, start), ins) && Boundaries(c, Started(c, r, start), ins) > k ::
        && RunToDone(c, Started(c, r, start), ins).r.idle
        && forall i | 0 <= i < |mat| ::
             RowDecoded(mat, vec, h, chunks, RunToDone(c, Started(c, r, start), ins).h, i, q, qk, base, bits)
  {
    hide AcceptedShape, IsMatrix, OperandsReady, GridFor, ConfigFor, RowsFor, Sane, Started, GapFree, Boundaries,
         RunToDone, RowDecoded, IsKeyBase, Complete, FeedMatches, JobDone, Unblocked;
    var c, rows := ConfigFor(|mat|, |vec|), RowsFor(|mat|, |vec|);
    HostUnblocked(|mat|, |vec|);
    k := ClockFinishes(c, rows, r, start);
    forall ins | GapFree(c, rows, Started(c, r, start), ins) && Boundaries(c, Started(c, r, start), ins) > k
      ensures RunToDone(c, Started(c, r, start), ins).r.idle
      ensures forall i | 0 <= i < |mat| ::
                RowDecoded(mat, vec, h, chunks, RunToDone(c, Started(c, r, start), ins).h, i, q, qk, base, bits)
    {
      var hist := RunToDone(c, Started(c, r, start), ins).h;
      CompleteIsDone(|mat|, |vec|, hist);
      forall i | 0 <= i < |mat|
        ensures RowDecoded(mat, vec, h, chunks, hist, i, q, qk, base, bits)
      {
        RowDecodes(mat, vec, h, chunks, hist, i, q, qk, base, bits);
      }
    }
  }

  lemma CompleteIsDone(nrows: nat, ncols: nat, hist: History)
    requires AcceptedShape(nrows, ncols) && FeedMatches(ConfigFor(nrows, ncols), RowsFor(nrows, ncols))
    requires Complete(ConfigFor(nrows, ncols), RowsFor(nrows, ncols), hist)
    ensures JobDone(nrows, ncols, hist)
  {
    hide Complete, FeedMatches;
    HostAndHardwareAgree(nrows, ncols);
  }
}

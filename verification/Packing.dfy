/**
 Packing a matrix into tile polynomials and a vector into chunk polynomials, and
 why a product of the two carries inner products at known coefficients.
 */
module Packing {
  import opened Modular
  import opened Powers
  import opened Polynomial
  import opened Shape
  import opened BitReverse

  /** A matrix of 64-bit words, by rows. */
  ghost predicate IsMatrix(mat: seq<seq<u64>>, nrows: nat, ncols: nat) {
    |mat| == nrows && forall r | 0 <= r < nrows :: |mat[r]| == ncols
  }

  /** The matrix row that tile row i of row block rblk holds, out of 2^k padded rows in blks blocks. */
  function RowOf(k: nat, blks: nat, rblk: nat, i: nat): nat
    requires k >= 1
  {
    (if rblk < blks / 2 then rblk else Pow2(k) / 2 + rblk - blks / 2) + RevBits(i, k - 1)
  }

  /** Columns bgn .. bgn + cols - 1 of a row, padded with zeros on the right. */
  function Window(row: seq<u64>, bgn: nat, cols: nat): (w: seq<u64>)
    ensures |w| == cols
  {
    seq(cols, j requires 0 <= j < cols => if bgn + j < |row| then row[bgn + j] else 0)
  }

  function Reverse(s: seq<u64>): (r: seq<u64>)
    ensures |r| == |s|
  {
    seq(|s|, u requires 0 <= u < |s| => s[|s| - 1 - u])
  }

  /** Block i of the tile is matrix row `row`, reversed, unless it is a padding row. */
  ghost predicate RowPacked(tile: seq<u64>, mat: seq<seq<u64>>, t: Tile, bgn: nat, i: nat, row: nat) {
    i * t.cols + t.cols <= |tile| &&
    (row < |mat| ==> tile[i * t.cols..i * t.cols + t.cols] == Reverse(Window(mat[row], bgn, t.cols)))
  }

  /** One block: zeros on the right of the row, then the row itself, in reverse order. */
  method PackRow(coeffs: array<u64>, row: seq<u64>, ncols: nat, cols: nat, bgn: nat, skip: bool, dst: nat)
    requires |row| == ncols && bgn < ncols && dst + cols <= coeffs.Length
    modifies coeffs
    ensures !skip ==> coeffs[dst..dst + cols] == Reverse(Window(row, bgn, cols))
    ensures forall y | 0 <= y < coeffs.Length && !(dst <= y < dst + cols) :: coeffs[y] == old(coeffs[y])
  {
    var colEnd := Min(bgn + cols, ncols);
    var numCols := colEnd - bgn;
    for x := dst to dst + cols - numCols
      invariant forall y | 0 <= y < coeffs.Length :: coeffs[y] == if dst <= y < x then 0 else old(coeffs[y])
    {
      coeffs[x] := 0;
    }
    if skip {
      return;
    }
    CopyReversed(coeffs, row, bgn, numCols, dst + cols);
    assert coeffs[dst..dst + cols] == Reverse(Window(row, bgn, cols));
  }

  lemma BlocksKept(s0: seq<u64>, s1: seq<u64>, mat: seq<seq<u64>>, t: Tile, rows: seq<nat>, bgn: nat, r: nat)
    requires |s0| == |s1| && r < |rows| && (r + 1) * t.cols <= |s0|
    requires forall i | 0 <= i < r :: RowPacked(s0, mat, t, bgn, i, rows[i])
    requires forall y | 0 <= y < r * t.cols :: s1[y] == s0[y]
    ensures forall i | 0 <= i < r :: RowPacked(s1, mat, t, bgn, i, rows[i])
  {
    forall i | 0 <= i < r
      ensures RowPacked(s1, mat, t, bgn, i, rows[i])
    {
      BlockInside(i, r, t.cols);
      assert RowPacked(s0, mat, t, bgn, i, rows[i]);
      assert s1[i * t.cols..i * t.cols + t.cols] == s0[i * t.cols..i * t.cols + t.cols];
    }
  }

  /** One tile: rows reversed into consecutive blocks; padding rows are skipped, not cleared. */
  method FillTile(coeffs: array<u64>, mat: seq<seq<u64>>, ncols: nat, t: Tile, rows: seq<nat>, bgn: nat)
    requires IsMatrix(mat, |mat|, ncols) && |rows| == t.rows && t.rows * t.cols == coeffs.Length && bgn < ncols
    modifies coeffs
    ensures forall i | 0 <= i < t.rows :: RowPacked(coeffs[..], mat, t, bgn, i, rows[i])
  {
    hide RowPacked, Reverse, Window;
    var dst := 0;
    for r := 0 to t.rows
      invariant dst == r * t.cols
      invariant forall i | 0 <= i < r :: RowPacked(coeffs[..], mat, t, bgn, i, rows[i])
    {
      BlockInside(r, t.rows, t.cols);
      ghost var before := coeffs[..];
      var padding := rows[r] >= |mat|;
      PackRow(coeffs, if padding then seq(ncols, _ => 0) else mat[rows[r]], ncols, t.cols, bgn, padding, dst);
      BlocksKept(before, coeffs[..], mat, t, rows, bgn, r);
      BlockPacked(coeffs[..], mat, t, bgn, r, rows[r]);
      dst := dst + t.cols;
    }
  }

  lemma BlockPacked(s: seq<u64>, mat: seq<seq<u64>>, t: Tile, bgn: nat, r: nat, row: nat)
    requires r * t.cols + t.cols <= |s|
    requires row < |mat| ==> s[r * t.cols..r * t.cols + t.cols] == Reverse(Window(mat[row], bgn, t.cols))
    ensures RowPacked(s, mat, t, bgn, r, row)
  {
  }

  /** std::copy_n into a reverse iterator at dst. */
  method CopyReversed(coeffs: array<u64>, row: seq<u64>, bgn: nat, n: nat, dst: nat)
    requires bgn + n <= |row| && n <= dst <= coeffs.Length
    modifies coeffs
    ensures forall y | 0 <= y < coeffs.Length ::
      coeffs[y] == if dst - n <= y < dst then row[bgn + dst - 1 - y] else old(coeffs[y])
  {
    for j := 0 to n
      invariant forall y | 0 <= y < coeffs.Length ::
        coeffs[y] == if dst - j <= y < dst then row[bgn + dst - 1 - y] else old(coeffs[y])
    {
      coeffs[dst - 1 - j] := row[bgn + j];
    }
  }

  /** How a matrix of |mat| rows, padded to 2^k, is cut: blks row blocks by chunks column chunks. */
  datatype Grid = Grid(t: Tile, k: nat, blks: nat, chunks: nat)

  ghost predicate IsGrid(g: Grid, nrows: nat, ncols: nat) {
    && nrows >= 1 && ncols >= 1 && g.t.rows >= 1 && g.t.cols >= 1 && g.k >= 1 && NextPow2(nrows) == Pow2(g.k)
    && g.blks == CeilDiv(Pow2(g.k), g.t.rows) && g.chunks == CeilDiv(ncols, g.t.cols)
  }

  /** Tile (rblk, cblk) of the list pt packs its rows of the matrix. */
  ghost predicate TileEncoded(pt: seq<seq<u64>>, mat: seq<seq<u64>>, g: Grid, rblk: nat, cblk: nat)
    requires g.k >= 1
  {
    && rblk * g.chunks + cblk < |pt|
    && |pt[rblk * g.chunks + cblk]| == g.t.rows * g.t.cols
    && forall i | 0 <= i < g.t.rows ::
         RowPacked(pt[rblk * g.chunks + cblk], mat, g.t, cblk * g.t.cols, i, RowOf(g.k, g.blks, rblk, i))
  }

  lemma Log2OfAllOnes(k: nat)
    requires k >= 1
    ensures Log2(Pow2(k) - 1) == k - 1
  {
    Log2Bounds(Pow2(k) - 1);
    var l := Log2(Pow2(k) - 1);
    if l >= k {
      Pow2Monotone(k, l);
    } else if l < k - 1 {
      Pow2Monotone(l + 1, k - 1);
    }
  }

  lemma ChunkBegins(ncols: nat, cols: nat, cblk: nat)
    requires ncols >= 1 && cols >= 1 && cblk < CeilDiv(ncols, cols)
    ensures cblk * cols < ncols
  {
    CeilDivBounds(ncols, cols);
    Scaled(cols, cblk, CeilDiv(ncols, cols) - 1);
  }

  /** ecd_program: encodes row blocks bgn .. end - 1, with one buffer reused for every tile. */
  method EncodeBlocks(pt: array<seq<u64>>, mat: seq<seq<u64>>, ncols: nat, g: Grid, bgn: nat, end: nat)
    requires IsMatrix(mat, |mat|, ncols) && IsGrid(g, |mat|, ncols) && end <= g.blks
    requires pt.Length == g.blks * g.chunks
    modifies pt
    ensures forall x | 0 <= x < pt.Length && x < bgn * g.chunks :: pt[x] == old(pt[x])
    ensures forall rblk, cblk | bgn <= rblk < end && 0 <= cblk < g.chunks :: TileEncoded(pt[..], mat, g, rblk, cblk)
  {
    hide RowPacked, IsMatrix, RowOf;
    var coeffs := new u64[g.t.rows * g.t.cols](_ => 0);
    Log2OfAllOnes(g.k);
    var log2Rows := Log2(NextPow2(|mat|) - 1);
    for rblk := bgn to Max(bgn, end)
      invariant forall x | 0 <= x < pt.Length && x < bgn * g.chunks :: pt[x] == old(pt[x])
      invariant forall r, c | bgn <= r < rblk && 0 <= c < g.chunks :: TileEncoded(pt[..], mat, g, r, c)
    {
      var rows := BitReversedRows(g, rblk, log2Rows);
      EncodeRowBlock(pt, mat, ncols, g, rblk, rows, coeffs, bgn);
    }
  }

  method BitReversedRows(g: Grid, rblk: nat, log2Rows: nat) returns (rows: seq<nat>)
    requires g.k >= 1 && log2Rows == g.k - 1 && rblk < g.blks
    ensures |rows| == g.t.rows && forall i | 0 <= i < g.t.rows :: rows[i] == RowOf(g.k, g.blks, rblk, i)
  {
    var rowBase := if rblk < g.blks / 2 then rblk else Pow2(g.k) / 2 + rblk - g.blks / 2;
    rows := [];
    for i := 0 to g.t.rows
      invariant |rows| == i && forall x | 0 <= x < i :: rows[x] == RowOf(g.k, g.blks, rblk, x)
    {
      rows := rows + [rowBase + RevBits(i, log2Rows)];
    }
  }

  method EncodeRowBlock(pt: array<seq<u64>>, mat: seq<seq<u64>>, ncols: nat, g: Grid, rblk: nat,
                        rows: seq<nat>, coeffs: array<u64>, ghost bgn: nat)
    requires IsMatrix(mat, |mat|, ncols) && IsGrid(g, |mat|, ncols) && bgn <= rblk < g.blks
    requires pt.Length == g.blks * g.chunks && coeffs.Length == g.t.rows * g.t.cols && |rows| == g.t.rows
    requires forall i | 0 <= i < g.t.rows :: rows[i] == RowOf(g.k, g.blks, rblk, i)
    requires forall r, c | bgn <= r < rblk && 0 <= c < g.chunks :: TileEncoded(pt[..], mat, g, r, c)
    modifies pt, coeffs
    ensures forall x | 0 <= x < pt.Length && x < bgn * g.chunks :: pt[x] == old(pt[x])
    ensures forall r, c | bgn <= r < rblk + 1 && 0 <= c < g.chunks :: TileEncoded(pt[..], mat, g, r, c)
  {
    hide RowPacked, RowOf;
    for cblk := 0 to g.chunks
      invariant forall x | 0 <= x < pt.Length && x < bgn * g.chunks :: pt[x] == old(pt[x])
      invariant forall r, c | bgn <= r < rblk && 0 <= c < g.chunks :: TileEncoded(pt[..], mat, g, r, c)
      invariant forall c | 0 <= c < cblk :: TileEncoded(pt[..], mat, g, rblk, c)
    {
      ghost var before := pt[..];
      ChunkBegins(ncols, g.t.cols, cblk);
      BlockInside(rblk, g.blks, g.chunks);
      Scaled(g.chunks, bgn, rblk);
      FillTile(coeffs, mat, ncols, g.t, rows, cblk * g.t.cols);
      pt[rblk * g.chunks + cblk] := coeffs[..];
      EarlierTilesKept(before, pt[..], mat, g, bgn, rblk, cblk);
    }
  }

  lemma EarlierTilesKept(p0: seq<seq<u64>>, p1: seq<seq<u64>>, mat: seq<seq<u64>>, g: Grid, bgn: nat, rblk: nat,
                         cblk: nat)
    requires g.k >= 1 && |p0| == |p1| && rblk * g.chunks + cblk < |p0| && cblk < g.chunks
    requires forall x | 0 <= x < |p0| && x != rblk * g.chunks + cblk :: p1[x] == p0[x]
    requires forall r, c | bgn <= r < rblk && 0 <= c < g.chunks :: TileEncoded(p0, mat, g, r, c)
    requires forall c | 0 <= c < cblk :: TileEncoded(p0, mat, g, rblk, c)
    ensures forall r, c | bgn <= r < rblk && 0 <= c < g.chunks :: TileEncoded(p1, mat, g, r, c)
    ensures forall c | 0 <= c < cblk :: TileEncoded(p1, mat, g, rblk, c)
  {
    hide RowPacked, RowOf;
    forall r, c | bgn <= r < rblk && 0 <= c < g.chunks
      ensures TileEncoded(p1, mat, g, r, c)
    {
      BlockInside(r, rblk, g.chunks);
      assert TileEncoded(p0, mat, g, r, c);
    }
    forall c | 0 <= c < cblk
      ensures TileEncoded(p1, mat, g, rblk, c)
    {
      assert TileEncoded(p0, mat, g, rblk, c);
    }
  }

  lemma GridPositive(g: Grid, nrows: nat, ncols: nat)
    requires IsGrid(g, nrows, ncols)
    ensures g.k >= 1 && g.t.rows >= 1 && g.t.cols >= 1
  {
  }

  /** MatVec's encoding step: the row blocks are shared out among the workers in consecutive runs. */
  method EncodeMatrix(mat: seq<seq<u64>>, ncols: nat, g: Grid, workers: nat) returns (pt: array<seq<u64>>)
    requires IsMatrix(mat, |mat|, ncols) && IsGrid(g, |mat|, ncols) && workers >= 1
    ensures fresh(pt) && pt.Length == g.blks * g.chunks
    ensures forall r, c | 0 <= r < g.blks && 0 <= c < g.chunks :: TileEncoded(pt[..], mat, g, r, c)
  {
    hide IsMatrix, IsGrid, TileEncoded, CeilDiv, NextPow2;
    GridPositive(g, |mat|, ncols);
    pt := new seq<u64>[g.blks * g.chunks](_ => []);
    var load := CeilDiv(g.blks, workers);
    for j := 0 to workers
      invariant fresh(pt) && pt.Length == g.blks * g.chunks
      invariant forall r, c | 0 <= r < Min(j * load, g.blks) && 0 <= c < g.chunks :: TileEncoded(pt[..], mat, g, r, c)
    {
      BlockInside(j, workers, load);
      var bgn := j * load;
      var end := Min(bgn + load, g.blks);
      ghost var before := pt[..];
      EncodeBlocks(pt, mat, ncols, g, bgn, end);
      TilesKept(before, pt[..], mat, g, Min(bgn, g.blks), bgn);
    }
    CeilDivBounds(g.blks, workers);
    assert workers * load == load * workers;
  }

  lemma TilesKept(p0: seq<seq<u64>>, p1: seq<seq<u64>>, mat: seq<seq<u64>>, g: Grid, done: nat, bgn: nat)
    requires g.k >= 1 && |p0| == |p1| && done <= bgn
    requires forall x | 0 <= x < |p0| && x < bgn * g.chunks :: p1[x] == p0[x]
    requires forall r, c | 0 <= r < done && 0 <= c < g.chunks :: TileEncoded(p0, mat, g, r, c)
    ensures forall r, c | 0 <= r < done && 0 <= c < g.chunks :: TileEncoded(p1, mat, g, r, c)
  {
    hide RowPacked, RowOf;
    forall r, c | 0 <= r < done && 0 <= c < g.chunks
      ensures TileEncoded(p1, mat, g, r, c)
    {
      BlockInside(r, bgn, g.chunks);
      assert TileEncoded(p0, mat, g, r, c);
    }
  }

  // ---------------------------------------------------------------------------
  // The vector side

  /** The polynomial of one vector chunk: its entries from coefficient 0 on, zeros behind. */
  function ChunkPoly(vec: seq<u64>, bgn: nat, cols: nat, n: nat): (p: seq<u64>)
    ensures |p| == n
  {
    seq(n, j requires 0 <= j < n => if j < cols && bgn + j < |vec| then vec[bgn + j] else 0)
  }

  /** EncodeVector with the filling part of Vec2Poly: one polynomial a chunk. */
  method EncodeVector(vec: seq<u64>, cols: nat, n: nat) returns (chunks: seq<seq<u64>>)
    requires |vec| >= 1 && 1 <= cols <= n
    ensures |chunks| == CeilDiv(|vec|, cols)
    ensures forall sv | 0 <= sv < |chunks| :: chunks[sv] == ChunkPoly(vec, sv * cols, cols, n)
  {
    var num := CeilDiv(|vec|, cols);
    chunks := [];
    for sv := 0 to num
      invariant |chunks| == sv && forall x | 0 <= x < sv :: chunks[x] == ChunkPoly(vec, x * cols, cols, n)
    {
      ChunkBegins(|vec|, cols, sv);
      var bgn := sv * cols;
      var end := Min(bgn + cols, |vec|);
      var poly := new u64[n];
      for j := 0 to end - bgn
        invariant forall x | 0 <= x < j :: poly[x] == vec[bgn + x]
      {
        poly[j] := vec[bgn + j];
      }
      for j := end - bgn to n
        invariant forall x | 0 <= x < j :: poly[x] == if x < end - bgn then vec[bgn + x] else 0
      {
        poly[j] := 0;
      }
      assert poly[..] == ChunkPoly(vec, bgn, cols, n);
      chunks := chunks + [poly[..]];
    }
  }

  /** A vector is cut into the same chunks whatever the number of rows it is encoded for. */
  lemma SameChunks(vec: seq<u64>, rows0: nat, rows1: nat, lgN: nat)
    requires |vec| >= 1 && 1 <= rows0 <= Pow2(lgN) && 1 <= rows1 <= Pow2(lgN)
    ensures var c0, c1 := TileShape(rows0, |vec|, Pow2(lgN)).cols, TileShape(rows1, |vec|, Pow2(lgN)).cols;
      && 1 <= c0 && 1 <= c1 && CeilDiv(|vec|, c0) == CeilDiv(|vec|, c1)
      && forall sv | 0 <= sv < CeilDiv(|vec|, c0) ::
           SameChunk(vec, sv, c0, c1, Pow2(lgN))
  {
    hide Pow2, TileShape, CeilDiv, ChunkPoly, TallEnough, NextPow2;
    var s0, k0 := ShapeFits(rows0, |vec|, lgN);
    var s1, k1 := ShapeFits(rows1, |vec|, lgN);
    var c0, c1 := TileShape(rows0, |vec|, Pow2(lgN)).cols, TileShape(rows1, |vec|, Pow2(lgN)).cols;
    if |vec| <= Pow2(lgN) {
      CeilDivIs(|vec|, c0, 1);
      CeilDivIs(|vec|, c1, 1);
      OnlyChunk(vec, c0, c1, Pow2(lgN));
    } else {
      forall sv | 0 <= sv < CeilDiv(|vec|, c0)
        ensures SameChunk(vec, sv, c0, c1, Pow2(lgN))
      {
        assert sv * c0 >= 0;
      }
    }
  }

  ghost predicate SameChunk(vec: seq<u64>, sv: nat, c0: nat, c1: nat, n: nat) {
    0 <= sv * c0 && 0 <= sv * c1 && ChunkPoly(vec, sv * c0, c0, n) == ChunkPoly(vec, sv * c1, c1, n)
  }

  lemma OnlyChunk(vec: seq<u64>, c0: nat, c1: nat, n: nat)
    requires |vec| <= c0 && |vec| <= c1
    ensures SameChunk(vec, 0, c0, c1, n)
  {
    assert 0 * c0 == 0 && 0 * c1 == 0;
    assert ChunkPoly(vec, 0, c0, n) == ChunkPoly(vec, 0, c1, n);
  }

  // ---------------------------------------------------------------------------
  // Inner products

  /** Sum of a[j] * b[j] for lo <= j < hi. */
  function Dot(a: seq<int>, b: seq<int>, lo: nat, hi: nat): int
    requires lo <= hi <= |a| && hi <= |b|
    decreases hi - lo
  {
    if lo == hi then 0 else a[lo] * b[lo] + Dot(a, b, lo + 1, hi)
  }

  /**
   Up to the start of block i the terms of coefficient (i + 1) * S - 1
   vanish: they pair with entries past the chunk.
   */
  lemma {:induction false} TermsBefore(tile: seq<int>, v: seq<int>, k: nat, start: nat, s: nat, m: nat)
    requires |tile| == |v| && k == start + s - 1 < |v| && s >= 1 && m <= start
    requires forall j | s <= j < |v| :: v[j] == 0
    ensures PartialCoeff(tile, v, k, m) == 0
  {
    if m > 0 {
      TermsBefore(tile, v, k, start, s, m - 1);
    }
  }

  /** Within the block, coefficient k collects the reversed row against the chunk. */
  lemma {:induction false} TermsWithin(tile: seq<int>, v: seq<int>, row: seq<int>, k: nat, start: nat, s: nat, m: nat)
    requires |tile| == |v| && k == start + s - 1 < |v| && s >= 1 && m <= s == |row|
    requires forall j | s <= j < |v| :: v[j] == 0
    requires forall j | 0 <= j < s :: tile[start + s - 1 - j] == row[j]
    ensures PartialCoeff(tile, v, k, start + m) == Dot(row, v, s - m, s)
  {
    if m == 0 {
      TermsBefore(tile, v, k, start, s, start);
    } else {
      TermsWithin(tile, v, row, k, start, s, m - 1);
      assert tile[start + m - 1] == row[s - m];
      assert Shifted(v, start + m - 1, k) == v[s - m];
    }
  }

  /** Past the block everything has wrapped around, against entries that are zero: no negative term survives. */
  lemma {:induction false} TermsAfter(tile: seq<int>, v: seq<int>, k: nat, s: nat, m: nat)
    requires |tile| == |v| && s - 1 <= k < |v| && s >= 1 && k + 1 <= m <= |tile|
    requires forall j | s <= j < |v| :: v[j] == 0
    ensures PartialCoeff(tile, v, k, m) == PartialCoeff(tile, v, k, k + 1)
  {
    if m > k + 1 {
      TermsAfter(tile, v, k, s, m - 1);
    }
  }

  /**
   The coefficient at the end of a block of tile * chunk in Z[X]/(X^n + 1) is the inner
   product of the row in that block with the chunk, whatever the other blocks hold.
   */
  lemma InnerProductFrom(tile: seq<int>, v: seq<int>, row: seq<int>, start: nat, s: nat)
    requires |tile| == |v| && s == |row| >= 1 && start + s <= |tile|
    requires forall j | s <= j < |v| :: v[j] == 0
    requires forall j | 0 <= j < s :: tile[start + s - 1 - j] == row[j]
    ensures NegacyclicMul(tile, v)[start + s - 1] == Dot(row, v, 0, s)
  {
    TermsWithin(tile, v, row, start + s - 1, start, s, s);
    TermsAfter(tile, v, start + s - 1, s, |tile|);
  }

  /** For block i that is coefficient (i + 1) * S - 1. */
  lemma InnerProductAt(tile: seq<int>, v: seq<int>, row: seq<int>, i: nat, s: nat)
    requires |tile| == |v| && s == |row| >= 1 && i * s + s <= |tile|
    requires forall j | s <= j < |v| :: v[j] == 0
    requires forall j | 0 <= j < s :: tile[i * s + s - 1 - j] == row[j]
    ensures (i + 1) * s - 1 < |tile|
    ensures NegacyclicMul(tile, v)[(i + 1) * s - 1] == Dot(row, v, 0, s)
  {
    assert (i + 1) * s == i * s + s;
    InnerProductFrom(tile, v, row, i * s, s);
  }

  /** What a list of words stands for, word by word. */
  function Lift(f: u64 -> int, s: seq<u64>): (r: seq<int>)
    ensures |r| == |s| && forall i | 0 <= i < |s| :: r[i] == f(s[i])
  {
    seq(|s|, i requires 0 <= i < |s| => f(s[i]))
  }

  /** Sum over the column chunks c of coefficient k of tile c times chunk c, the words standing for f and g of them. */
  function ChunkSum(f: u64 -> int, g: u64 -> int, tiles: seq<seq<u64>>, chunks: seq<seq<u64>>, k: nat, c: nat): int
    requires c <= |tiles| && c <= |chunks|
    requires forall x | 0 <= x < c :: |tiles[x]| == |chunks[x]| && k < |chunks[x]|
  {
    if c == 0 then 0
    else ChunkSum(f, g, tiles, chunks, k, c - 1) + NegacyclicMul(Lift(f, tiles[c - 1]), Lift(g, chunks[c - 1]))[k]
  }

  lemma {:induction false} DotConcat(a: seq<int>, b: seq<int>, lo: nat, mid: nat, hi: nat)
    requires lo <= mid <= hi <= |a| && hi <= |b|
    ensures Dot(a, b, lo, hi) == Dot(a, b, lo, mid) + Dot(a, b, mid, hi)
    decreases mid - lo
  {
    if lo < mid {
      DotConcat(a, b, lo + 1, mid, hi);
    }
  }

  /** A chunk's inner product, padding included, is the part of the whole one in its columns. */
  lemma {:induction false} DotWindow(f: u64 -> int, g: u64 -> int, row: seq<u64>, vec: seq<u64>, bgn: nat, cols: nat,
                                     n: nat, j: nat)
    requires |row| == |vec| && j <= cols <= n && bgn <= |row| && g(0) == 0
    ensures Dot(Lift(f, Window(row, bgn, cols)), Lift(g, ChunkPoly(vec, bgn, cols, n)), j, cols)
         == Dot(Lift(f, row), Lift(g, vec), Min(bgn + j, |row|), Min(bgn + cols, |row|))
    decreases cols - j
  {
    if j < cols {
      DotWindow(f, g, row, vec, bgn, cols, n, j + 1);
    }
  }

  lemma ChunkProduct(f: u64 -> int, g: u64 -> int, tile: seq<u64>, chunk: seq<u64>, mat: seq<seq<u64>>, vec: seq<u64>,
                     t: Tile, i: nat, row: nat, x: nat)
    requires g(0) == 0
    requires row < |mat| && |mat[row]| == |vec| && t.cols >= 1 && i < t.rows && x * t.cols <= |vec|
    requires |tile| == t.rows * t.cols && RowPacked(tile, mat, t, x * t.cols, i, row)
    requires chunk == ChunkPoly(vec, x * t.cols, t.cols, t.rows * t.cols)
    ensures 0 <= (i + 1) * t.cols - 1 < |tile|
    ensures NegacyclicMul(Lift(f, tile), Lift(g, chunk))[(i + 1) * t.cols - 1]
         == Dot(Lift(f, mat[row]), Lift(g, vec), x * t.cols, Min(x * t.cols + t.cols, |vec|))
  {
    hide NegacyclicMul, Dot, Window, Reverse, ChunkPoly, RowPacked;
    BlockInside(i, t.rows, t.cols);
    Scaled(t.cols, 1, t.rows);
    PackedBlock(tile, mat, t, x * t.cols, i, row);
    var start, k := i * t.cols, (i + 1) * t.cols - 1;
    assert k == start + t.cols - 1;
    ChunkProductFrom(f, g, tile, chunk, mat[row], vec, x * t.cols, t.cols, start);
  }

  lemma PackedBlock(tile: seq<u64>, mat: seq<seq<u64>>, t: Tile, bgn: nat, i: nat, row: nat)
    requires row < |mat| && RowPacked(tile, mat, t, bgn, i, row)
    ensures i * t.cols + t.cols <= |tile| && 0 <= i * t.cols
    ensures tile[i * t.cols..i * t.cols + t.cols] == Reverse(Window(mat[row], bgn, t.cols))
  {
  }

  lemma ChunkProductFrom(f: u64 -> int, g: u64 -> int, tile: seq<u64>, chunk: seq<u64>, row: seq<u64>, vec: seq<u64>,
                         bgn: nat, cols: nat, start: nat)
    requires g(0) == 0
    requires |row| == |vec| && bgn <= |vec| && cols >= 1 && start + cols <= |tile|
    requires tile[start..start + cols] == Reverse(Window(row, bgn, cols))
    requires chunk == ChunkPoly(vec, bgn, cols, |tile|)
    ensures NegacyclicMul(Lift(f, tile), Lift(g, chunk))[start + cols - 1]
         == Dot(Lift(f, row), Lift(g, vec), bgn, Min(bgn + cols, |vec|))
  {
    hide NegacyclicMul, Dot, Window;
    var w := Window(row, bgn, cols);
    ReversedBlock(tile, w, start, cols);
    InnerProductFrom(Lift(f, tile), Lift(g, chunk), Lift(f, w), start, cols);
    DotWindow(f, g, row, vec, bgn, cols, |tile|, 0);
  }

  lemma ReversedBlock(tile: seq<u64>, w: seq<u64>, start: nat, s: nat)
    requires |w| == s && start + s <= |tile| && tile[start..start + s] == Reverse(w)
    ensures forall j | 0 <= j < s :: tile[start + s - 1 - j] == w[j]
  {
    forall j | 0 <= j < s
      ensures tile[start + s - 1 - j] == w[j]
    {
      assert tile[start..start + s][s - 1 - j] == Reverse(w)[s - 1 - j];
    }
  }

  /** Adding chunk x to the columns before it. */
  lemma OneMoreChunk(row: seq<int>, vec: seq<int>, cols: nat, x: nat)
    requires |row| == |vec| && x * cols <= |vec|
    ensures (x + 1) * cols == x * cols + cols
    ensures Dot(row, vec, 0, Min((x + 1) * cols, |vec|))
         == Dot(row, vec, 0, x * cols) + Dot(row, vec, x * cols, Min(x * cols + cols, |vec|))
  {
    DotConcat(row, vec, 0, x * cols, Min(x * cols + cols, |vec|));
  }

  /** Tiles of one row block whose block i packs the given matrix row, and the chunks they meet. */
  ghost predicate RowAcross(tiles: seq<seq<u64>>, chunks: seq<seq<u64>>, mat: seq<seq<u64>>, vec: seq<u64>,
                            t: Tile, i: nat, row: nat, c: nat)
  {
    && c <= |tiles| && c <= |chunks|
    && forall x | 0 <= x < c ::
         && |tiles[x]| == |chunks[x]| == t.rows * t.cols
         && x * t.cols <= |vec|
         && RowPacked(tiles[x], mat, t, x * t.cols, i, row)
         && chunks[x] == ChunkPoly(vec, x * t.cols, t.cols, t.rows * t.cols)
  }

  /** The chunks' products add up to the whole row's inner product, whatever the words stand for. */
  lemma {:induction false} RowProduct(f: u64 -> int, g: u64 -> int, tiles: seq<seq<u64>>, chunks: seq<seq<u64>>,
                                      mat: seq<seq<u64>>, vec: seq<u64>, t: Tile, i: nat, row: nat, k: nat, c: nat)
    requires g(0) == 0
    requires row < |mat| && |mat[row]| == |vec| && t.cols >= 1 && i < t.rows
    requires RowAcross(tiles, chunks, mat, vec, t, i, row, c)
    requires k == (i + 1) * t.cols - 1 < t.rows * t.cols
    ensures ChunkSum(f, g, tiles, chunks, k, c) == Dot(Lift(f, mat[row]), Lift(g, vec), 0, Min(c * t.cols, |vec|))
  {
    hide RowPacked, ChunkPoly, NegacyclicMul, Dot;
    if c > 0 {
      RowProduct(f, g, tiles, chunks, mat, vec, t, i, row, k, c - 1);
      ChunkProduct(f, g, tiles[c - 1], chunks[c - 1], mat, vec, t, i, row, c - 1);
      OneMoreChunk(Lift(f, mat[row]), Lift(g, vec), t.cols, c - 1);
    } else {
      EmptyDot(Lift(f, mat[row]), Lift(g, vec), 0);
    }
  }

  lemma EmptyDot(a: seq<int>, b: seq<int>, x: nat)
    requires x <= |a| && x <= |b|
    ensures Dot(a, b, x, x) == 0
  {
  }
}

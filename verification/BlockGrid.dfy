/**
 The Python wrapper's grid of blocks over matrices larger than one job. A result is the number
 below Q that its limbs compose to; it is rounded once, when it is decrypted.
 */
module BlockGrid {
  import opened Modular
  import opened Powers
  import opened Shape
  import opened Packing
  import opened Rns
  import opened ModSwitch
  import opened Shares
  import opened Decoding
  import HostConfig

  type pos = x: int | 1 <= x witness 1

  const ROWS := 4096  // BLK_NROWS
  const COLS := 8192  // BLK_NCOLS

  /** Rows of the block that starts at row: a block is cut one row short rather than leave a single row over. */
  function BlockRows(row: nat, nrows: nat): nat
    requires row < nrows
  {
    if row + ROWS > nrows then nrows - row
    else if row + ROWS == nrows - 1 then ROWS - 1
    else ROWS
  }

  function BlockCols(col: nat, ncols: nat): nat
    requires col < ncols
  {
    if col + COLS > ncols then ncols - col else COLS
  }

  /** Every block the schedule can cut is a job the host accepts, a lone row being padded to two. */
  ghost predicate BlocksAccepted(nrows: nat, ncols: nat) {
    forall row, col | 0 <= row < nrows && 0 <= col < ncols ::
      HostConfig.AcceptedShape(Max(BlockRows(row, nrows), 2), BlockCols(col, ncols))
  }

  lemma EveryBlockAccepted(nrows: nat, ncols: nat)
    ensures BlocksAccepted(nrows, ncols)
  {
    forall row, col | 0 <= row < nrows && 0 <= col < ncols
      ensures HostConfig.AcceptedShape(Max(BlockRows(row, nrows), 2), BlockCols(col, ncols))
    {
      Scaled(BlockCols(col, ncols), Max(BlockRows(row, nrows), 2), ROWS);
      assert BlockCols(col, ncols) * ROWS <= COLS * ROWS;
    }
  }

  /**
   The blocks are no smaller than they need be: no job of more rows is accepted, and of full
   blocks of rows none of a wider power of two of columns is.
   */
  lemma BlocksAreLargest(rows: nat, k: nat)
    ensures rows > ROWS ==> !HostConfig.AcceptedShape(rows, 1)
    ensures HostConfig.AcceptedShape(ROWS, Pow2(k)) <==> Pow2(k) <= COLS
    ensures COLS == Pow2(13)
  {
    hide Pow2;
    HostConfig.Pow2Twelve();
    Pow2Doubled(12);
    Pow2Doubled(13);
    if k <= 13 {
      Pow2Monotone(k, 13);
    } else {
      Pow2Monotone(14, k);
    }
  }

  /** The first row of block k, and past the last block the number of rows. */
  function Start(k: nat, nrows: nat): nat {
    if k * ROWS >= nrows then nrows
    else if k > 0 && k * ROWS == nrows - 1 then k * ROWS - 1
    else k * ROWS
  }

  /** The schedule visits the blocks in order, block k at index k, and none but a lone row has one row. */
  lemma BlockStep(k: nat, nrows: nat)
    requires Start(k, nrows) < nrows && k * ROWS < nrows
    ensures var row := Start(k, nrows);
      && row + BlockRows(row, nrows) == Start(k + 1, nrows)
      && (row + ROWS - 1) / ROWS == k && k < CeilDiv(nrows, ROWS)
      && BlockRows(row, nrows) >= 1 && (BlockRows(row, nrows) == 1 <==> nrows == 1)
      && (row + BlockRows(row, nrows) < nrows ==> (k + 1) * ROWS < nrows)
  {
  }

  /** The blocks partition the rows: exactly one holds a given row. */
  lemma BlockHolding(row: nat, nrows: nat) returns (k: nat)
    requires row < nrows
    ensures k < CeilDiv(nrows, ROWS) && k * ROWS < nrows && Start(k, nrows) <= row < Start(k + 1, nrows)
    ensures forall j: nat | Start(j, nrows) <= row < Start(j + 1, nrows) :: j == k
  {
    k := if row > 0 && (row + 1) % ROWS == 0 && row + 2 == nrows then (row + 1) / ROWS else row / ROWS;
  }

  ghost predicate IsIntMatrix(mat: seq<seq<int>>, nrows: nat, ncols: nat) {
    |mat| == nrows && forall r | 0 <= r < nrows :: |mat[r]| == ncols
  }

  /**
   One job: for every row of the block, the product modulo Q of the integers its encoded words
   represent with its part of the scaled vector; padded to two rows.
   */
  function BlockProduct(mat: seq<seq<int>>, vec: seq<int>, bigQ: pos, row: nat, rows: nat, col: nat, cols: nat)
    : (p: seq<nat>)
    requires IsIntMatrix(mat, |mat|, |vec|) && row + rows <= |mat| && col + cols <= |vec|
    ensures |p| == Max(rows, 2)
  {
    seq(Max(rows, 2), r requires 0 <= r < Max(rows, 2) => Entry(mat, vec, bigQ, row, rows, col, cols, r))
  }

  function Entry(mat: seq<seq<int>>, vec: seq<int>, bigQ: pos, row: nat, rows: nat, col: nat, cols: nat, r: nat): nat
    requires IsIntMatrix(mat, |mat|, |vec|) && row + rows <= |mat| && col + cols <= |vec|
  {
    if r < rows then Reduced(Dot(mat[row + r], vec, col, col + cols), bigQ) else 0
  }

  function Reduced(x: int, bigQ: pos): (r: nat)
    ensures r < bigQ
  {
    x % bigQ
  }

  /** AddMatVec on the numbers the ciphertexts stand for. */
  function AddResults(a: seq<nat>, b: seq<nat>, bigQ: pos): (c: seq<nat>)
    requires |a| == |b|
    ensures |c| == |a|
  {
    seq(|a|, r requires 0 <= r < |a| => Reduced(a[r] + b[r], bigQ))
  }

  /** The product of block (k, c). */
  function BlockAt(mat: seq<seq<int>>, vec: seq<int>, bigQ: pos, k: nat, c: nat): seq<nat>
    requires IsIntMatrix(mat, |mat|, |vec|) && k * ROWS < |mat| && c * COLS < |vec|
  {
    BlockStep(k, |mat|);
    BlockProduct(mat, vec, bigQ, Start(k, |mat|), BlockRows(Start(k, |mat|), |mat|), c * COLS,
                 BlockCols(c * COLS, |vec|))
  }

  /** All columns of row block k up to col. */
  function RowsUpTo(mat: seq<seq<int>>, vec: seq<int>, bigQ: pos, k: nat, col: nat): seq<nat>
    requires IsIntMatrix(mat, |mat|, |vec|) && k * ROWS < |mat| && col <= |vec|
  {
    BlockStep(k, |mat|);
    BlockProduct(mat, vec, bigQ, Start(k, |mat|), BlockRows(Start(k, |mat|), |mat|), 0, col)
  }

  /** Adding the next column block's product extends the columns covered. */
  lemma NextColumns(mat: seq<seq<int>>, vec: seq<int>, bigQ: pos, k: nat, c: nat)
    requires IsIntMatrix(mat, |mat|, |vec|) && k * ROWS < |mat| && c * COLS < |vec|
    ensures |RowsUpTo(mat, vec, bigQ, k, c * COLS)| == |BlockAt(mat, vec, bigQ, k, c)|
    ensures AddResults(RowsUpTo(mat, vec, bigQ, k, c * COLS), BlockAt(mat, vec, bigQ, k, c), bigQ)
         == RowsUpTo(mat, vec, bigQ, k, Min((c + 1) * COLS, |vec|))
  {
    hide Entry, Reduced;
    BlockStep(k, |mat|);
    var row, rows, lo, hi := Start(k, |mat|), BlockRows(Start(k, |mat|), |mat|), c * COLS, Min((c + 1) * COLS, |vec|);
    forall r | 0 <= r < Max(rows, 2)
      ensures Reduced(Entry(mat, vec, bigQ, row, rows, 0, lo, r) + Entry(mat, vec, bigQ, row, rows, lo, hi - lo, r),
                      bigQ) == Entry(mat, vec, bigQ, row, rows, 0, hi, r)
    {
      EntriesAdd(mat, vec, bigQ, row, rows, lo, hi, r);
    }
  }

  lemma EntriesAdd(mat: seq<seq<int>>, vec: seq<int>, bigQ: pos, row: nat, rows: nat, lo: nat, hi: nat, r: nat)
    requires IsIntMatrix(mat, |mat|, |vec|) && row + rows <= |mat| && lo <= hi <= |vec|
    ensures Reduced(Entry(mat, vec, bigQ, row, rows, 0, lo, r) + Entry(mat, vec, bigQ, row, rows, lo, hi - lo, r), bigQ)
         == Entry(mat, vec, bigQ, row, rows, 0, hi, r)
  {
    hide Dot;
    if r < rows {
      ColumnsSum(mat[row + r], vec, bigQ, lo, hi);
    } else {
      ModMultiple(0, 0, bigQ);
    }
  }

  lemma ColumnsSum(row: seq<int>, vec: seq<int>, bigQ: pos, lo: nat, hi: nat)
    requires lo <= hi <= |vec| == |row|
    ensures Reduced(Reduced(Dot(row, vec, 0, lo), bigQ) + Reduced(Dot(row, vec, lo, hi), bigQ), bigQ)
         == Reduced(Dot(row, vec, 0, hi), bigQ)
  {
    hide Dot;
    DotConcat(row, vec, 0, lo, hi);
    SumOfResidues(Dot(row, vec, 0, lo), Dot(row, vec, lo, hi), bigQ);
  }

  lemma FirstColumns(mat: seq<seq<int>>, vec: seq<int>, bigQ: pos, k: nat)
    requires IsIntMatrix(mat, |mat|, |vec|) && k * ROWS < |mat| && |vec| > 0
    ensures BlockAt(mat, vec, bigQ, k, 0) == RowsUpTo(mat, vec, bigQ, k, Min(COLS, |vec|))
  {
  }

  /** MatVec of the wrapper: a table of block products, then each row of the table summed. */
  method MatVec(mat: seq<seq<int>>, vec: seq<int>, bigQ: pos) returns (merged: seq<seq<nat>>)
    requires |mat| > 0 && |vec| > 0 && IsIntMatrix(mat, |mat|, |vec|)
    ensures BlocksAccepted(|mat|, |vec|)
    ensures |merged| == CeilDiv(|mat|, ROWS)
    ensures forall k | 0 <= k < |merged| :: k * ROWS < |mat| && merged[k] == RowsUpTo(mat, vec, bigQ, k, |vec|)
  {
    EveryBlockAccepted(|mat|, |vec|);
    var table := FillTable(mat, vec, bigQ);
    merged := [];
    for rowIndex := 0 to table.Length0
      invariant |merged| == rowIndex
      invariant forall k | 0 <= k < table.Length0 :: Filled(table, mat, vec, bigQ, k)
      invariant forall k | 0 <= k < rowIndex :: k * ROWS < |mat| && merged[k] == RowsUpTo(mat, vec, bigQ, k, |vec|)
    {
      var tmp := SumRow(table, mat, vec, bigQ, rowIndex);
      merged := merged + [tmp];
    }
  }

  ghost predicate Filled(table: array2<seq<nat>>, mat: seq<seq<int>>, vec: seq<int>, bigQ: pos, k: nat)
    requires IsIntMatrix(mat, |mat|, |vec|)
    reads table
  {
    && k < table.Length0 && k * ROWS < |mat|
    && forall c | 0 <= c < table.Length1 :: c * COLS < |vec| && table[k, c] == BlockAt(mat, vec, bigQ, k, c)
  }

  method FillTable(mat: seq<seq<int>>, vec: seq<int>, bigQ: pos) returns (table: array2<seq<nat>>)
    requires |mat| > 0 && |vec| > 0 && IsIntMatrix(mat, |mat|, |vec|)
    ensures fresh(table) && table.Length0 == CeilDiv(|mat|, ROWS) && table.Length1 == CeilDiv(|vec|, COLS)
    ensures forall k | 0 <= k < table.Length0 :: Filled(table, mat, vec, bigQ, k)
  {
    hide BlockProduct;
    var nrows, ncols := |mat|, |vec|;
    table := new seq<nat>[CeilDiv(nrows, ROWS), CeilDiv(ncols, COLS)]((_, _) => []);
    var rowIte := 0;
    ghost var k := 0;
    while rowIte < nrows
      invariant rowIte == Start(k, nrows) <= nrows && k <= table.Length0
      invariant if rowIte < nrows then k * ROWS < nrows else k == table.Length0
      invariant forall j | 0 <= j < k :: Filled(table, mat, vec, bigQ, j)
    {
      BlockStep(k, nrows);
      var rows := BlockRows(rowIte, nrows);
      label Before:
      FillRow(table, mat, vec, bigQ, rowIte, rows, k);
      forall j | 0 <= j < k
        ensures Filled(table, mat, vec, bigQ, j)
      {
        assert old@Before(Filled(table, mat, vec, bigQ, j));
      }
      rowIte := rowIte + rows;
      k := k + 1;
    }
  }

  /** One job of the host, which refuses any other shape. */
  method RunJob(mat: seq<seq<int>>, vec: seq<int>, bigQ: pos, row: nat, rows: nat, col: nat, cols: nat)
    returns (p: seq<nat>)
    requires IsIntMatrix(mat, |mat|, |vec|) && row + rows <= |mat| && col + cols <= |vec|
    requires HostConfig.AcceptedShape(Max(rows, 2), cols)
    ensures p == BlockProduct(mat, vec, bigQ, row, rows, col, cols)
  {
    p := BlockProduct(mat, vec, bigQ, row, rows, col, cols);
  }

  method FillRow(table: array2<seq<nat>>, mat: seq<seq<int>>, vec: seq<int>, bigQ: pos, rowIte: nat, rows: nat,
                 ghost k: nat)
    requires |vec| > 0 && IsIntMatrix(mat, |mat|, |vec|) && k * ROWS < |mat| && k < table.Length0
    requires rowIte == Start(k, |mat|) < |mat| && rows == BlockRows(rowIte, |mat|)
    requires table.Length1 == CeilDiv(|vec|, COLS)
    modifies table
    ensures Filled(table, mat, vec, bigQ, k)
    ensures forall j, c | 0 <= j < table.Length0 && j != k && 0 <= c < table.Length1 :: table[j, c] == old(table[j, c])
  {
    hide BlockProduct;
    BlockStep(k, |mat|);
    var colIte := 0;
    ghost var c := 0;
    while colIte < |vec|
      invariant colIte == c * COLS && (c > 0 ==> (c - 1) * COLS < |vec|)
      invariant forall x | 0 <= x < c :: x * COLS < |vec| && table[k, x] == BlockAt(mat, vec, bigQ, k, x)
      invariant forall j, x | 0 <= j < table.Length0 && j != k && 0 <= x < table.Length1 ::
        table[j, x] == old(table[j, x])
    {
      var cols := BlockCols(colIte, |vec|);
      var rowIndex, ctIndex := (rowIte + ROWS - 1) / ROWS, (colIte + COLS - 1) / COLS;
      EveryBlockAccepted(|mat|, |vec|);
      table[rowIndex, ctIndex] := RunJob(mat, vec, bigQ, rowIte, rows, colIte, cols);
      colIte := colIte + COLS;
      c := c + 1;
    }
  }

  method SumRow(table: array2<seq<nat>>, mat: seq<seq<int>>, vec: seq<int>, bigQ: pos, rowIndex: nat)
    returns (sum: seq<nat>)
    requires |vec| > 0 && IsIntMatrix(mat, |mat|, |vec|) && Filled(table, mat, vec, bigQ, rowIndex)
    requires table.Length1 == CeilDiv(|vec|, COLS)
    ensures sum == RowsUpTo(mat, vec, bigQ, rowIndex, |vec|)
  {
    hide BlockProduct, AddResults, BlockAt, RowsUpTo;
    FirstColumns(mat, vec, bigQ, rowIndex);
    sum := table[rowIndex, 0];
    for c := 1 to table.Length1
      invariant sum == RowsUpTo(mat, vec, bigQ, rowIndex, Min(c * COLS, |vec|))
    {
      NextColumns(mat, vec, bigQ, rowIndex, c);
      sum := AddResults(sum, table[rowIndex, c], bigQ);
    }
  }

  /** Decrypt of the wrapper replays the row schedule over the merged results, rounding each to a word. */
  method Decrypt(merged: seq<seq<nat>>, nrows: nat, bigQ: pos, base: nat) returns (out: seq<u64>)
    requires |merged| == CeilDiv(nrows, ROWS)
    requires forall k | 0 <= k < |merged| && k * ROWS < nrows ::
      Start(k, nrows) < nrows && |merged[k]| >= BlockRows(Start(k, nrows), nrows)
    ensures |out| == nrows
    ensures forall k | 0 <= k < |merged| && k * ROWS < nrows :: Unpacked(out, merged, nrows, k, bigQ, base)
  {
    hide Unpacked;
    out := [];
    var rowIte, k := 0, 0;
    while rowIte < nrows
      invariant rowIte == Start(k, nrows) <= nrows && |out| == rowIte && k <= |merged|
      invariant if rowIte < nrows then k * ROWS < nrows else k == |merged|
      invariant forall j | 0 <= j < k :: Unpacked(out, merged, nrows, j, bigQ, base)
    {
      BlockStep(k, nrows);
      var rows := BlockRows(rowIte, nrows);
      var words := RoundAll(merged[k][..rows], bigQ, base);
      forall j | 0 <= j < k
        ensures Unpacked(out + words, merged, nrows, j, bigQ, base)
      {
        UnpackedKept(out, merged, nrows, j, words, bigQ, base);
      }
      UnpackedNext(out, merged, nrows, k, rows, bigQ, base);
      out := out + words;
      rowIte := rowIte + rows;
      k := k + 1;
    }
  }

  function RoundAll(y: seq<nat>, bigQ: pos, base: nat): (w: seq<u64>)
    ensures |w| == |y|
  {
    seq(|y|, r requires 0 <= r < |y| => Down(y[r], bigQ, Pow2(base)))
  }

  /** The rows of block k have been rounded from its result. */
  ghost predicate Unpacked(out: seq<u64>, merged: seq<seq<nat>>, nrows: nat, k: nat, bigQ: pos, base: nat) {
    && k < |merged| && Start(k + 1, nrows) <= |out|
    && forall r | Start(k, nrows) <= r < Start(k + 1, nrows) ::
         RoundedFrom(out, merged[k], Start(k, nrows), r, bigQ, base)
  }

  ghost predicate RoundedFrom(out: seq<u64>, y: seq<nat>, start: nat, r: int, bigQ: pos, base: nat) {
    start <= r < |out| && r - start < |y| && out[r] == Down(y[r - start], bigQ, Pow2(base))
  }

  lemma UnpackedKept(out: seq<u64>, merged: seq<seq<nat>>, nrows: nat, k: nat, more: seq<u64>, bigQ: pos, base: nat)
    requires Unpacked(out, merged, nrows, k, bigQ, base)
    ensures Unpacked(out + more, merged, nrows, k, bigQ, base)
  {
    hide Down;
    forall r | Start(k, nrows) <= r < Start(k + 1, nrows)
      ensures RoundedFrom(out + more, merged[k], Start(k, nrows), r, bigQ, base)
    {
      assert RoundedFrom(out, merged[k], Start(k, nrows), r, bigQ, base);
    }
  }

  lemma UnpackedNext(out: seq<u64>, merged: seq<seq<nat>>, nrows: nat, k: nat, rows: nat, bigQ: pos, base: nat)
    requires k < |merged| && rows <= |merged[k]| && |out| == Start(k, nrows) && |out| + rows == Start(k + 1, nrows)
    ensures Unpacked(out + RoundAll(merged[k][..rows], bigQ, base), merged, nrows, k, bigQ, base)
  {
    hide Down, Pow2;
  }

  /**
   The grid gives the flat product, in place, for every size: whatever the blocks, each row's result
   is rounded once and decodes to its own inner product up to the rounding of the vector's words.
   */
  method MultiplyAndDecrypt(mat: seq<seq<int>>, vec: seq<u64>, bigQ: pos, base: nat) returns (out: seq<u64>)
    requires |mat| > 0 && |vec| > 0 && IsIntMatrix(mat, |mat|, |vec|) && base <= 64
    ensures BlocksAccepted(|mat|, |vec|)
    ensures |out| == |mat|
    ensures forall r | 0 <= r < |mat| :: Decoded(out[r], mat[r], vec, bigQ, base)
  {
    hide Dot, Down, Pow2, Ups, DecodesTo, SumAbs;
    var u := Ups(vec, bigQ, Pow2(base));
    var merged := MatVec(mat, u, bigQ);
    forall k | 0 <= k < |merged|
      ensures Start(k, |mat|) < |mat| && |merged[k]| >= BlockRows(Start(k, |mat|), |mat|)
    {
      BlockStep(k, |mat|);
    }
    out := Decrypt(merged, |mat|, bigQ, base);
    forall r | 0 <= r < |mat|
      ensures Decoded(out[r], mat[r], vec, bigQ, base)
    {
      var k := BlockHolding(r, |mat|);
      BlockStep(k, |mat|);
      assert Unpacked(out, merged, |mat|, k, bigQ, base);
      assert RoundedFrom(out, merged[k], Start(k, |mat|), r, bigQ, base);
      ProductDecodes(mat[r], vec, bigQ, base);
    }
  }

  /** w is the rounded value of a number that decodes to the inner product. */
  ghost predicate Decoded(w: u64, row: seq<int>, vec: seq<u64>, bigQ: pos, base: nat)
    requires |row| == |vec|
  {
    var y := Reduced(Dot(row, Ups(vec, bigQ, Pow2(base)), 0, |vec|), bigQ);
    w == Down(y, bigQ, Pow2(base)) && DecodesTo(y, Dot(row, vec, 0, |vec|), SumAbs(row, 0), bigQ, base, base)
  }
}

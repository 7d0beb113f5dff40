/** The order in which MatVecCore hands the tiles to the accelerator, two at a time. */
module TileOrder {
  import opened Modular
  import opened Powers
  import opened Shape
  import opened BitReverse
  import opened Packing
  import Transpose

  /** Position of the tile that lane `lane` of row pair q reads for chunk x. */
  function PairSlot(q: nat, chunks: nat, x: nat, lane: nat): nat {
    2 * (q * chunks + x) + lane
  }

  /** Row block rblk still stands row by row. */
  ghost predicate RowPlaced<T>(h: seq<T>, pt: seq<T>, b: nat, chunks: nat, rblk: nat) {
    forall x | 0 <= x < chunks :: TileHolds(h, pt, b, chunks, rblk, x)
  }

  ghost predicate TileHolds<T>(h: seq<T>, pt: seq<T>, b: nat, chunks: nat, rblk: nat, x: nat) {
    && rblk * chunks + x < |h| && RevBits(rblk, b) * chunks + x < |pt|
    && h[rblk * chunks + x] == pt[RevBits(rblk, b) * chunks + x]
  }

  /** Row blocks 2q and 2q + 1 are interleaved, each read through the block bit reversal. */
  ghost predicate PairPlaced<T>(h: seq<T>, pt: seq<T>, b: nat, chunks: nat, q: nat) {
    forall x, lane | 0 <= x < chunks && 0 <= lane < 2 :: SlotHolds(h, pt, b, chunks, q, x, lane)
  }

  ghost predicate SlotHolds<T>(h: seq<T>, pt: seq<T>, b: nat, chunks: nat, q: nat, x: nat, lane: nat) {
    && PairSlot(q, chunks, x, lane) < |h| && RevBits(2 * q + lane, b) * chunks + x < |pt|
    && h[PairSlot(q, chunks, x, lane)] == pt[RevBits(2 * q + lane, b) * chunks + x]
  }

  /** MatVecCore's pointer arrangement. */
  method ArrangeTiles<T(0)>(pt: seq<T>, blks: nat, chunks: nat) returns (h: array<T>)
    requires blks >= 1 && blks == Pow2(Log2(blks)) && chunks >= 1 && |pt| == blks * chunks
    requires 4 * chunks <= W64
    ensures fresh(h) && h.Length == |pt|
    ensures forall q | 0 <= q < blks / 2 :: PairPlaced(h[..], pt, Log2(blks), chunks, q)
  {
    hide RevBits, PairPlaced, RowPlaced, PairTransposed, Log2, Pow2;
    var log2Blks := Log2(blks);
    h := new T[|pt|];
    for rblk := 0 to blks
      invariant fresh(h) && h.Length == |pt|
      invariant forall q | 0 <= q < rblk / 2 :: PairPlaced(h[..], pt, log2Blks, chunks, q)
      invariant rblk % 2 == 1 ==> RowPlaced(h[..], pt, log2Blks, chunks, rblk - 1)
    {
      ghost var before := h[..];
      PlaceRow(h, pt, log2Blks, blks, chunks, rblk);
      EarlierPairsKept(before, h[..], pt, log2Blks, chunks, rblk);
      if rblk % 2 == 1 {
        RowKept(before, h[..], pt, log2Blks, chunks, rblk - 1);
        ghost var filled := h[..];
        BlockInside(rblk, blks, chunks);
        PairBase(rblk, chunks);
        TransposePair(h, (rblk - 1) * chunks, chunks);
        EarlierPairsKept(filled, h[..], pt, log2Blks, chunks, rblk - 1);
        PairInterleaved(filled, h[..], pt, log2Blks, chunks, rblk);
      }
    }
  }

  method TransposePair<T>(h: array<T>, off: nat, chunks: nat)
    requires 1 <= chunks && 4 * chunks <= W64 && off + 2 * chunks <= h.Length
    modifies h
    ensures PairTransposed(old(h[..]), h[..], off, 2 * chunks, chunks)
    ensures forall x | 0 <= x < h.Length && !(off <= x < off + 2 * chunks) :: h[x] == old(h[x])
  {
    Transpose.TransposeInplace(h, off, 2, chunks);
  }

  lemma PairBase(rblk: nat, chunks: nat)
    requires rblk >= 1
    ensures (rblk - 1) * chunks + 2 * chunks == rblk * chunks + chunks && (rblk - 1) * chunks >= 0
  {
  }

  /** One row of tiles. */
  method PlaceRow<T>(h: array<T>, pt: seq<T>, log2Blks: nat, blks: nat, chunks: nat, rblk: nat)
    requires blks == Pow2(log2Blks) && |pt| == blks * chunks == h.Length && rblk < blks
    modifies h
    ensures RowPlaced(h[..], pt, log2Blks, chunks, rblk)
    ensures forall x | 0 <= x < rblk * chunks && x < h.Length :: h[x] == old(h[x])
  {
    hide RevBits, Pow2;
    var revRblk := RevBits(rblk, log2Blks);
    RevBelow(rblk, log2Blks);
    BlockInside(rblk, blks, chunks);
    BlockInside(revRblk, blks, chunks);
    for cblk := 0 to chunks
      invariant forall x | 0 <= x < cblk :: TileHolds(h[..], pt, log2Blks, chunks, rblk, x)
      invariant forall x | 0 <= x < rblk * chunks && x < h.Length :: h[x] == old(h[x])
    {
      ghost var before := h[..];
      h[rblk * chunks + cblk] := pt[revRblk * chunks + cblk];
      forall x | 0 <= x < cblk
        ensures TileHolds(h[..], pt, log2Blks, chunks, rblk, x)
      {
        assert TileHolds(before, pt, log2Blks, chunks, rblk, x);
      }
    }
  }

  lemma PairBefore(q: nat, chunks: nat, x: nat, lane: nat, limit: nat)
    requires 2 * q + 2 <= limit && x < chunks && lane < 2
    ensures PairSlot(q, chunks, x, lane) < limit * chunks
  {
    Scaled(chunks, 2 * q + 2, limit);
    assert chunks * (2 * q + 2) == 2 * (q * chunks) + 2 * chunks;
  }

  /** Writing from block `limit` on leaves the pairs before it alone. */
  lemma EarlierPairsKept<T>(h0: seq<T>, h1: seq<T>, pt: seq<T>, b: nat, chunks: nat, limit: nat)
    requires |h0| == |h1| && forall x | 0 <= x < limit * chunks && x < |h0| :: h1[x] == h0[x]
    requires forall q | 0 <= q < limit / 2 :: PairPlaced(h0, pt, b, chunks, q)
    ensures forall q | 0 <= q < limit / 2 :: PairPlaced(h1, pt, b, chunks, q)
  {
    hide RevBits, PairSlot;
    forall q, x, lane | 0 <= q < limit / 2 && 0 <= x < chunks && 0 <= lane < 2
      ensures SlotHolds(h1, pt, b, chunks, q, x, lane)
    {
      PairBefore(q, chunks, x, lane, limit);
      assert PairPlaced(h0, pt, b, chunks, q);
      assert SlotHolds(h0, pt, b, chunks, q, x, lane);
    }
  }

  lemma RowKept<T>(h0: seq<T>, h1: seq<T>, pt: seq<T>, b: nat, chunks: nat, rblk: nat)
    requires |h0| == |h1| && forall x | 0 <= x < (rblk + 1) * chunks && x < |h0| :: h1[x] == h0[x]
    requires RowPlaced(h0, pt, b, chunks, rblk)
    ensures RowPlaced(h1, pt, b, chunks, rblk)
  {
    hide RevBits;
    assert (rblk + 1) * chunks == rblk * chunks + chunks;
    forall x | 0 <= x < chunks
      ensures TileHolds(h1, pt, b, chunks, rblk, x)
    {
      assert TileHolds(h0, pt, b, chunks, rblk, x);
    }
  }

  ghost predicate PairTransposed<T>(h0: seq<T>, h1: seq<T>, off: int, len: nat, chunks: nat) {
    && 0 <= off <= off + len <= |h0| == |h1|
    && Transpose.Transposed(h0[off..off + len], h1[off..off + len], 2, chunks)
  }

  /** Transposing the 2 x chunks block of two rows interleaves them. */
  lemma PairInterleaved<T>(h0: seq<T>, h1: seq<T>, pt: seq<T>, b: nat, chunks: nat, rblk: nat)
    requires rblk % 2 == 1 && |h0| == |h1| && (rblk - 1) * chunks + 2 * chunks <= |h0|
    requires RowPlaced(h0, pt, b, chunks, rblk - 1) && RowPlaced(h0, pt, b, chunks, rblk)
    requires PairTransposed(h0, h1, (rblk - 1) * chunks, 2 * chunks, chunks)
    ensures PairPlaced(h1, pt, b, chunks, rblk / 2)
  {
    hide RevBits;
    var q, off := rblk / 2, (rblk - 1) * chunks;
    forall x, lane | 0 <= x < chunks && 0 <= lane < 2
      ensures SlotHolds(h1, pt, b, chunks, q, x, lane)
    {
      InterleavedSlot(q, chunks, x, lane);
      assert h1[off..off + 2 * chunks][Transpose.Cell(x, 2, lane)]
        == h0[off..off + 2 * chunks][Transpose.Cell(lane, chunks, x)];
      assert TileHolds(h0, pt, b, chunks, 2 * q + lane, x);
    }
  }

  lemma InterleavedSlot(q: nat, chunks: nat, x: nat, lane: nat)
    requires x < chunks && lane < 2
    ensures PairSlot(q, chunks, x, lane) == 2 * q * chunks + Transpose.Cell(x, 2, lane)
    ensures Transpose.Cell(x, 2, lane) < 2 * chunks && Transpose.Cell(lane, chunks, x) < 2 * chunks
    ensures (2 * q + lane) * chunks + x == 2 * q * chunks + Transpose.Cell(lane, chunks, x)
  {
    assert (2 * q + lane) * chunks == 2 * q * chunks + lane * chunks;
  }

  /**
   Tile row i of the block that lane `lane` of row pair q reads is the matrix row whose
   number is the bit reversal of 2 * (q * 2^s + i) + lane, however the 2^k rows are cut.
   */
  lemma RowOfLane(k: nat, s: nat, q: nat, i: nat, lane: nat)
    requires s < k && i < Pow2(s) && lane < 2 && 2 * q + lane < Pow2(k - s)
    ensures RowOf(k, Pow2(k - s), RevBits(2 * q + lane, k - s), i) == RevBits(2 * (q * Pow2(s) + i) + lane, k)
  {
    hide RevBits, Pow2, RowOf;
    var b, e := k - s, q * Pow2(s) + i;
    RevBelow(q, b - 1);
    RevAppend(q, lane, b);
    RevAppend(e, lane, k);
    HighAndLow(i, s, q, b - 1, e);
    Pow2Doubled(b - 1);
    BlockRow(k, Pow2(b - 1), lane, RevBits(q, b - 1), i);
  }

  /** Reversal of i alone, and of i with q above it, on s + t bits. */
  lemma HighAndLow(i: nat, s: nat, q: nat, t: nat, e: nat)
    requires i < Pow2(s) && e == q * Pow2(s) + i
    ensures RevBits(e, s + t) == RevBits(i, s + t) + RevBits(q, t)
  {
    hide RevBits, Pow2;
    assert q * Pow2(s) == Pow2(s) * q && i + Pow2(s) * 0 == i;
    RevSplit(i, s, q, t);
    RevSplit(i, s, 0, t);
    RevZero(t);
  }

  /** The row a block takes, by the half its row block falls into. */
  lemma BlockRow(k: nat, half: nat, lane: nat, rblk: nat, i: nat)
    requires k >= 1 && lane < 2 && rblk < half
    ensures RowOf(k, 2 * half, lane * half + rblk, i) == lane * Pow2(k - 1) + rblk + RevBits(i, k - 1)
  {
    hide RevBits;
  }

  lemma RevAppend(x: nat, lane: nat, b: nat)
    requires b >= 1 && lane < 2
    ensures RevBits(2 * x + lane, b) == lane * Pow2(b - 1) + RevBits(x, b - 1)
  {
    assert (2 * x + lane) % 2 == lane && (2 * x + lane) / 2 == x;
  }

  lemma {:induction false} RevZero(b: nat)
    ensures RevBits(0, b) == 0
  {
    if b > 0 {
      RevZero(b - 1);
    }
  }
}

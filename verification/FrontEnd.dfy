/**
 The front end of the controller, s0 to s4. Ghost items follow the ciphertexts: the
 first c.split of them are the vector and go to URAM, the others are matrix tiles,
 multiplied and accumulated c.split at a time into rows, each row extracted c.index times.
 */
module FrontEnd {
  import opened Modular
  import opened ControlRegisters
  import opened ControlSlots
  import opened ReductionTree

  /** A ciphertext with the split index the datapath sees while it processes it. */
  datatype Piece = Piece(item: nat, split: nat)

  /** One extraction: the accumulated row and the coefficient taken from it. */
  datatype Extraction = Extraction(row: seq<Piece>, coeff: nat)

  /** Ciphertexts fetched, those in s0..s2, what s2 and s3 hold, and all s3 and s4 starts so far. */
  datatype Front = Front(fetched: nat, i0: nat, i1: nat, i2: nat, uram: seq<Piece>,
                         acc: seq<Piece>, row3: seq<Piece>, rows: seq<seq<Piece>>, extracted: seq<Extraction>)

  const EMPTY_FRONT := Front(0, 0, 0, 0, [], [], [], [], [])

  predicate HoldsFetch(c: Config, s: Slot) { NextStalls(c, s).s0s1s2 || StallForS4(c, s) }

  /** Where the ciphertexts go at a slot boundary. */
  function FrontStep(c: Config, s: Slot, g: Front, s0AllDone: bool): Front {
    var f, s', hold := Fires(c, s, s0AllDone), Tick(c, s, s0AllDone), HoldsFetch(c, s);
    var i2 := if hold then g.i2 else g.i1;
    var piece := Piece(i2, IdxSplit(c, s'));
    Front(
      if f.s0 then g.fetched + 1 else g.fetched,
      if hold then g.i0 else g.fetched,
      if hold then g.i1 else g.i0,
      i2,
      if f.wrUram then g.uram + [piece] else g.uram,
      if f.s2 then (if s.s2Cnt == 0 then [] else g.acc) + [piece] else g.acc,
      if f.s3 then g.acc else g.row3,
      if f.s3 then g.rows + [g.acc] else g.rows,
      if f.s4 then g.extracted + [Extraction(g.row3, CoeffIndex(c, s'))] else g.extracted)
  }

  /** Ciphertexts that have reached s2. */
  function Entered(s: Slot, g: Front): int { g.fetched - One(s.v.v0) - One(s.v.v1) }

  /** len pieces starting at ciphertext first, in order, with split indices 0, 1, ... */
  function Pieces(first: nat, len: nat): (r: seq<Piece>)
    ensures |r| == len
  {
    seq(len, t requires 0 <= t < len => Piece(first + t, t))
  }

  /** Row r of tiles: c.split ciphertexts after the vector's and the earlier rows'. */
  function Row(c: Config, r: nat): (row: seq<Piece>)
    ensures |row| == c.split
  {
    Pieces(c.split + r * c.split, c.split)
  }

  /** The coefficient of the j-th extraction from a row, on 12 bits. */
  function Coeff(c: Config, j: nat): nat {
    if c.index > 1 then ((j + 1) * c.colSize - 1 + 4096) % 4096
    else if c.split % 8 == 1 then (c.colSize + 4095) % 4096
    else 4095
  }

  ghost predicate InFlightItems(s: Slot, g: Front) {
    && (s.v.v0 ==> g.i0 == g.fetched - 1)
    && (s.v.v1 ==> g.i1 == g.fetched - One(s.v.v0) - 1)
    && (s.v.v2 ==> g.i2 == Entered(s, g) - 1)
    && Entered(s, g) >= One(s.v.v2)
  }

  /** The vector is being written to URAM; nothing is further down the pipe. */
  ghost predicate Loading(c: Config, s: Slot, g: Front) {
    && Entered(s, g) >= 0 && g.uram == Pieces(0, Entered(s, g)) && Entered(s, g) - One(s.v.v2) < c.split
    && s.uramCnt == Entered(s, g) - One(s.v.v2)
    && !s.v.v3 && !s.v.v4 && s.s2Cnt == 0 && s.s4Cnt == 0 && g.rows == [] && g.extracted == []
  }

  /** What the accumulator holds after m tiles: the current row so far, or the last complete one. */
  ghost predicate Accumulated(c: Config, cnt: nat, acc: seq<Piece>, m: nat)
    requires c.split >= 1
  {
    && cnt == m % c.split
    && acc == if m == 0 then acc
              else if cnt == 0 then Row(c, m / c.split - 1)
              else Pieces(c.split + (m / c.split) * c.split, cnt)
  }

  /** m tiles multiplied so far: completed rows go to s3 in order, each once. */
  ghost predicate RowsInOrder(c: Config, s: Slot, g: Front, m: nat)
    requires c.split >= 1
  {
    && Accumulated(c, s.s2Cnt, g.acc, m) && m >= One(s.v.v2)
    && |g.rows| == (m / c.split) - One(s.v.v2 && s.s2Cnt == 0)
    && (forall r | 0 <= r < |g.rows| :: g.rows[r] == Row(c, r))
    && (s.v.v3 ==> g.rows != [] && g.row3 == g.rows[|g.rows| - 1])
  }

  /** Every row leaves s3 after exactly c.index extractions, at coefficients 0, 1, ... in turn. */
  ghost predicate ExtractionsInOrder(c: Config, s: Slot, g: Front)
    requires c.index >= 1
  {
    && |g.rows| >= One(s.v.v3)
    && s.s4Cnt < c.index && (!s.v.v3 ==> s.s4Cnt == 0)
    && |g.extracted| == c.index * (|g.rows| - One(s.v.v3)) + s.s4Cnt
    && (s.v.v4 ==> g.extracted != [])
    && (forall x | 0 <= x < |g.extracted| :: ExtractionAt(c, g.rows, g.extracted, x))
  }

  ghost predicate ExtractionAt(c: Config, rows: seq<seq<Piece>>, extracted: seq<Extraction>, x: nat)
    requires c.index >= 1 && x < |extracted|
  {
    x / c.index < |rows| && extracted[x] == Extraction(rows[x / c.index], Coeff(c, x % c.index))
  }

  ghost predicate FrontInv(c: Config, s: Slot, g: Front) {
    && ValidConfig(c) && InFlightItems(s, g)
    && if s.writeUram then Loading(c, s, g)
       else g.uram == Pieces(0, c.split) && s.uramCnt == 0 && Entered(s, g) >= c.split
            && RowsInOrder(c, s, g, Entered(s, g) - c.split) && ExtractionsInOrder(c, s, g)
  }

  lemma NoPieces()
    ensures Pieces(0, 0) == []
  {
  }

  lemma NothingLoaded(c: Config, s: Slot, g: Front)
    requires ValidConfig(c) && Entered(s, g) == 0 && !s.v.v2 && !s.v.v3 && !s.v.v4
    requires s.uramCnt == 0 && s.s2Cnt == 0 && s.s4Cnt == 0
    requires g.uram == [] && g.rows == [] && g.extracted == []
    ensures Loading(c, s, g)
  {
    NoPieces();
  }

  lemma EmptyAtStart(s: Slot, g: Front)
    requires s == START && g == EMPTY_FRONT
    ensures !s.v.v0 && !s.v.v1 && !s.v.v2 && !s.v.v3 && !s.v.v4
    ensures s.writeUram && s.uramCnt == 0 && s.s2Cnt == 0 && s.s4Cnt == 0
    ensures g.fetched == 0 && g.uram == [] && g.rows == [] && g.extracted == []
  {
  }

  lemma FrontStart(c: Config)
    requires ValidConfig(c)
    ensures FrontInv(c, START, EMPTY_FRONT)
  {
    hide Loading, RowsInOrder, ExtractionsInOrder;
    EmptyAtStart(START, EMPTY_FRONT);
    NothingLoaded(c, START, EMPTY_FRONT);
  }

  lemma NextDigit(m: nat, d: nat)
    requires d >= 1
    ensures (m + 1) % d == if m % d == d - 1 then 0 else m % d + 1
    ensures (m + 1) / d == (m / d) + (if m % d == d - 1 then 1 else 0)
  {
    var q, r := m / d, m % d;
    assert m == r + q * d;
    if r == d - 1 {
      assert m + 1 == 0 + (q + 1) * d;
      ModMultiple(0, q + 1, d);
    } else {
      ModMultiple(r + 1, q, d);
    }
  }

  /** In the configuration's ranges the counters' widths do not show. */
  lemma CounterStep(c: Config)
    requires ValidConfig(c)
    ensures LastSplit(c) == c.split - 1 && LastIndex(c) == c.index - 1
    ensures forall n: nat | n < c.split :: AfterS2Start(c, n) == if n == c.split - 1 then 0 else n + 1
    ensures forall n: nat | n < c.index :: AfterS4Start(c, n) == if n == c.index - 1 then 0 else n + 1
  {
  }

  lemma AccumulateTile(c: Config, cnt: nat, acc: seq<Piece>, m: nat, piece: Piece)
    requires ValidConfig(c) && Accumulated(c, cnt, acc, m) && piece == Piece(c.split + m, cnt)
    ensures Accumulated(c, AfterS2Start(c, cnt), (if cnt == 0 then [] else acc) + [piece], m + 1)
  {
    CounterStep(c);
    NextDigit(m, c.split);
    var q := m / c.split;
    assert m == q * c.split + cnt;
    assert (if cnt == 0 then [] else acc) + [piece] == Pieces(c.split + q * c.split, cnt + 1);
  }

  lemma InFlightStep(c: Config, s: Slot, g: Front, s0AllDone: bool)
    requires ValidConfig(c) && InFlightItems(s, g)
    ensures var s', g' := Tick(c, s, s0AllDone), FrontStep(c, s, g, s0AllDone);
      && InFlightItems(s', g')
      && Entered(s', g') == Entered(s, g) + One(!HoldsFetch(c, s) && s.v.v1)
      && s'.v.v2 == (if HoldsFetch(c, s) then s.v.v2 else s.v.v1)
  {
    hide AfterS2Start, AfterS4Start, LastSplit, LastIndex, Merging, CoeffIndex, IdxSplit;
  }

  lemma LoadingStep(c: Config, s: Slot, g: Front, s0AllDone: bool)
    requires FrontInv(c, s, g) && s.writeUram
    ensures FrontInv(c, Tick(c, s, s0AllDone), FrontStep(c, s, g, s0AllDone))
  {
    hide ExtractionsInOrder, Accumulated, AfterS2Start, AfterS4Start, Merging, CoeffIndex;
    var s', g' := Tick(c, s, s0AllDone), FrontStep(c, s, g, s0AllDone);
    CounterStep(c);
    InFlightStep(c, s, g, s0AllDone);
    if !s'.writeUram {
      assert g'.uram == Pieces(0, c.split);
      FirstTile(c, s, g, s0AllDone);
    } else {
      assert g'.uram == Pieces(0, Entered(s', g'));
    }
  }

  /** The vector is loaded: the ciphertext behind it is the first tile of the first row. */
  lemma FirstTile(c: Config, s: Slot, g: Front, s0AllDone: bool)
    requires FrontInv(c, s, g) && s.writeUram && !Tick(c, s, s0AllDone).writeUram
    ensures var s', g' := Tick(c, s, s0AllDone), FrontStep(c, s, g, s0AllDone);
      && Entered(s', g') >= c.split
      && RowsInOrder(c, s', g', Entered(s', g') - c.split) && ExtractionsInOrder(c, s', g')
  {
    hide AfterS2Start, AfterS4Start, Merging, CoeffIndex, Accumulated;
    CounterStep(c);
    InFlightStep(c, s, g, s0AllDone);
    AccumulatedNone(c, g.acc);
    if s.v.v1 {
      AccumulateTile(c, 0, g.acc, 0, Piece(c.split, 0));
    }
  }

  lemma AccumulatedNone(c: Config, acc: seq<Piece>)
    requires c.split >= 1
    ensures Accumulated(c, 0, acc, 0)
  {
  }

  /** Once the vector is loaded, a slot boundary keeps rows whole and in order. */
  lemma RowsStep(c: Config, s: Slot, g: Front, s0AllDone: bool)
    requires FrontInv(c, s, g) && !s.writeUram
    ensures var s', g' := Tick(c, s, s0AllDone), FrontStep(c, s, g, s0AllDone);
      && Entered(s', g') >= c.split && !s'.writeUram && s'.uramCnt == 0 && g'.uram == g.uram
      && RowsInOrder(c, s', g', Entered(s', g') - c.split)
  {
    hide AfterS2Start, AfterS4Start, Merging, CoeffIndex, Accumulated, ExtractionsInOrder;
    var m := Entered(s, g) - c.split;
    CounterStep(c);
    InFlightStep(c, s, g, s0AllDone);
    NextDigit(m, c.split);
    AccumulatedRow(c, s.s2Cnt, g.acc, m);
    if s.v.v1 && !HoldsFetch(c, s) {
      AccumulateTile(c, s.s2Cnt, g.acc, m, Piece(c.split + m, s.s2Cnt));
    }
  }

  lemma AccumulatedRow(c: Config, cnt: nat, acc: seq<Piece>, m: nat)
    requires c.split >= 1 && Accumulated(c, cnt, acc, m)
    ensures cnt == m % c.split
    ensures cnt == 0 && m >= 1 ==> m / c.split >= 1 && acc == Row(c, m / c.split - 1)
  {
  }

  lemma ExtractionsStep(c: Config, s: Slot, g: Front, s0AllDone: bool)
    requires FrontInv(c, s, g) && !s.writeUram
    ensures ExtractionsInOrder(c, Tick(c, s, s0AllDone), FrontStep(c, s, g, s0AllDone))
  {
    hide AfterS2Start, AfterS4Start, Merging, Accumulated, ExtractionAt, Coeff, CoeffIndex;
    CounterStep(c);
    var s', g' := Tick(c, s, s0AllDone), FrontStep(c, s, g, s0AllDone);
    ExtractionCount(c, s, g, s0AllDone);
    forall x | 0 <= x < |g'.extracted|
      ensures ExtractionAt(c, g'.rows, g'.extracted, x)
    {
      if x < |g.extracted| {
        assert ExtractionAt(c, g.rows, g.extracted, x);
        ExtractionKept(c, g.rows, g.extracted, g'.rows, g'.extracted, x);
      } else {
        NextExtraction(c, s', g'.rows, g'.extracted, |g.rows| - 1, s.s4Cnt);
      }
    }
  }

  lemma ExtractionCount(c: Config, s: Slot, g: Front, s0AllDone: bool)
    requires FrontInv(c, s, g) && !s.writeUram
    ensures var s', g', f := Tick(c, s, s0AllDone), FrontStep(c, s, g, s0AllDone), Fires(c, s, s0AllDone);
      && |g'.rows| >= One(s'.v.v3) && s'.s4Cnt < c.index && (!s'.v.v3 ==> s'.s4Cnt == 0)
      && |g'.extracted| == c.index * (|g'.rows| - One(s'.v.v3)) + s'.s4Cnt
      && (s'.v.v4 ==> g'.extracted != [])
      && (f.s4 ==> s.v.v3 && s'.s4Cnt == AfterS4Start(c, s.s4Cnt))
  {
    hide AfterS2Start, AfterS4Start, Merging, Accumulated, ExtractionAt, Coeff, CoeffIndex;
    CounterStep(c);
    var done := |g.rows| - One(s.v.v3);
    assert c.index * (done + 1) == c.index * done + c.index;
  }

  lemma ExtractionKept(c: Config, rows: seq<seq<Piece>>, extracted: seq<Extraction>,
                       rows': seq<seq<Piece>>, extracted': seq<Extraction>, x: nat)
    requires c.index >= 1 && x < |extracted| && rows <= rows' && extracted <= extracted'
    requires ExtractionAt(c, rows, extracted, x)
    ensures ExtractionAt(c, rows', extracted', x)
  {
    hide Coeff;
    DivNonneg(x, c.index);
  }

  lemma NextExtraction(c: Config, s: Slot, rows: seq<seq<Piece>>, extracted: seq<Extraction>, done: nat, cnt: nat)
    requires ValidConfig(c) && cnt < c.index && done < |rows| && |extracted| == c.index * done + cnt + 1
    requires s.s4Cnt == AfterS4Start(c, cnt)
    requires extracted[|extracted| - 1] == Extraction(rows[done], CoeffIndex(c, s))
    ensures ExtractionAt(c, rows, extracted, |extracted| - 1)
  {
    CounterStep(c);
    ModMultiple(cnt, done, c.index);
    CoeffAfterStart(c, s, cnt);
  }

  /** o_coeff_index, read after the start pulse, is the coefficient of the extraction that started. */
  lemma CoeffAfterStart(c: Config, s: Slot, cnt: nat)
    requires ValidConfig(c) && cnt < c.index && s.s4Cnt == AfterS4Start(c, cnt)
    ensures CoeffIndex(c, s) == Coeff(c, cnt)
  {
    CounterStep(c);
  }

  /** No ciphertext, row or extraction is lost, repeated or reordered, whatever stalls occur. */
  lemma FrontStepKeeps(c: Config, s: Slot, g: Front, s0AllDone: bool)
    requires FrontInv(c, s, g)
    ensures FrontInv(c, Tick(c, s, s0AllDone), FrontStep(c, s, g, s0AllDone))
  {
    hide RowsInOrder, ExtractionsInOrder;
    if s.writeUram {
      LoadingStep(c, s, g, s0AllDone);
    } else {
      InFlightStep(c, s, g, s0AllDone);
      RowsStep(c, s, g, s0AllDone);
      ExtractionsStep(c, s, g, s0AllDone);
    }
  }
}

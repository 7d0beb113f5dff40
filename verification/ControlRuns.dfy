/**
 Whole runs of the controller: conservation, what is left when the top token
 arrives, the trace phase, and progress.
 */
module ControlRuns {
  import opened Modular
  import opened Powers
  import opened ControlRegisters
  import opened ControlSlots
  import opened ReductionTree
  import opened FrontEnd

  // ---------------------------------------------------------------------------
  // Conservation: a token of level n weighs 2^n, a result taken from s4 weighs 2

  function BufferWeight(rb: seq<bool>, k: nat): nat
    requires k <= |rb|
  {
    if k == 0 then 0 else BufferWeight(rb, k - 1) + (if rb[k - 1] then Pow2(k - 1) else 0)
  }

  function StageWeight(v: bool, n: nat): nat { if v then Pow2(n) else 0 }

  function Weight(s: Slot): nat
    requires |s.rb| == 12
  {
    StageWeight(s.v.v5, s.n.n5) + StageWeight(s.v.v6, s.n.n6) + StageWeight(s.v.v7, s.n.n7) +
    StageWeight(s.v.v8, s.n.n8) + BufferWeight(s.rb, 12)
  }

  lemma {:induction false} BufferWeightUpdate(rb: seq<bool>, k: nat, n: nat, b: bool)
    requires k <= |rb| && n < |rb|
    ensures n < k ==> BufferWeight(rb[n := b], k) + StageWeight(rb[n], n) == BufferWeight(rb, k) + StageWeight(b, n)
    ensures n >= k ==> BufferWeight(rb[n := b], k) == BufferWeight(rb, k)
  {
    if k > 0 {
      BufferWeightUpdate(rb, k - 1, n, b);
    }
  }

  lemma {:induction false} BufferInWeight(rb: seq<bool>, k: nat, n: nat)
    requires n < k <= |rb| && rb[n]
    ensures BufferWeight(rb, k) >= Pow2(n) >= 1
  {
    if n < k - 1 {
      BufferInWeight(rb, k - 1, n);
    }
  }

  /** The weight in the pipe and the buffers is conserved. */
  lemma WeightStep(s: Slot, g: Tree, s': Slot)
    requires Shaped(s, g) && LevelsMatchStages(s) && !s.rb[0] && !s.trace && s.n.n8 < 12 && BackStep(s, s')
    requires Weight(s) == 2 * g.taken
    ensures |s'.rb| == 12 && Weight(s') == 2 * TreeStep(s, g).taken
  {
    hide Pow2, BufferWeight, Entering;
    var n8 := s.n.n8;
    Pow2Doubled(n8);
    Pow2Doubled(0);
    BufferWeightUpdate(s.rb, 12, n8, !Merging(s));
  }

  // ---------------------------------------------------------------------------
  // The reduction phase

  datatype History = History(front: Front, tree: Tree)

  /** The vector's ciphertexts and those of the given number of rows. */
  function Total(c: Config, rows: nat): nat { c.split + rows * c.split }

  /** The feed of one run: 2^(level - 1) extractions in all, and the reader reports the end after the last fetch. */
  predicate FeedMatches(c: Config, rows: nat) {
    ValidConfig(c) && rows * c.index == Pow2(c.level - 1)
  }

  predicate FeedOk(c: Config, rows: nat, f: Front, s0AllDone: bool) {
    f.fetched == Total(c, rows) ==> s0AllDone
  }

  /** Every slot up to the arrival of the top token in s8. */
  ghost predicate Reducing(c: Config, rows: nat, s: Slot, h: History) {
    && FrontInv(c, s, h.front) && TreeInv(s, h.tree) && Weight(s) == 2 * h.tree.taken
    && |h.front.extracted| == h.tree.taken + One(s.v.v4)
    && h.front.fetched <= Total(c, rows)
    && s.n.n8 <= c.level && (s.v.v9 ==> s.n.n9 < c.level) && s.trace == TokenAtTop(c, s.n.n8)
    && h.tree.arrived[c.level] == 0
  }

  /** A slot boundary moves ciphertexts and tokens together. */
  function HistoryStep(c: Config, s: Slot, h: History, s0AllDone: bool): History
    requires Shaped(s, h.tree)
  {
    History(FrontStep(c, s, h.front, s0AllDone), TreeStep(s, h.tree))
  }

  lemma QuotientBound(m: nat, rows: nat, d: nat)
    requires d >= 1 && m <= rows * d
    ensures m / d <= rows
    ensures m < rows * d ==> m / d < rows
  {
    var q := m / d;
    assert m == q * d + m % d;
    if q > rows {
      Scaled(d, rows + 1, q);
    }
    if q == rows {
      assert m >= rows * d;
    }
  }

  /** Accumulated rows never exceed what was fetched; the last one is complete only when all is fetched. */
  lemma RowsBound(c: Config, rows: nat, s: Slot, g: Front)
    requires FrontInv(c, s, g) && g.fetched <= Total(c, rows)
    ensures |g.rows| <= rows
    ensures |g.rows| == rows >= 1 ==> g.fetched == Total(c, rows) && !s.v.v0 && !s.v.v1 && !s.v.v2
  {
    hide Accumulated, ExtractionsInOrder;
    if !s.writeUram {
      var m := Entered(s, g) - c.split;
      AccumulatedRow(c, s.s2Cnt, g.acc, m);
      QuotientBound(m, rows, c.split);
      if m == rows * c.split {
        ModMultiple(0, rows, c.split);
      }
    }
  }

  /** x is cnt more than d whole groups of size index; the last group is whole. */
  lemma WholeGroups(x: nat, d: nat, cnt: nat, index: nat, rows: nat)
    requires cnt < index && x == index * d + cnt && d <= rows && (cnt > 0 ==> d < rows)
    ensures x <= rows * index && (x == rows * index ==> d == rows)
  {
    var e := if d < rows then d + 1 else d;
    Scaled(index, e, rows);
    assert index * (d + 1) == index * d + index;
  }

  lemma SomeRow(rows: nat, index: nat)
    requires rows * index >= 1
    ensures rows >= 1
  {
  }

  lemma ExtractedBound(c: Config, rows: nat, s: Slot, g: Front)
    requires FeedMatches(c, rows) && FrontInv(c, s, g) && g.fetched <= Total(c, rows)
    ensures |g.extracted| <= Pow2(c.level - 1)
    ensures |g.extracted| == Pow2(c.level - 1) ==>
      |g.rows| == rows && g.fetched == Total(c, rows) && !s.v.v0 && !s.v.v1 && !s.v.v2 && !s.v.v3
  {
    hide RowsInOrder, InFlightItems, Coeff, ExtractionAt, Total, Entered, Pow2, One;
    RowsBound(c, rows, s, g);
    Pow2Doubled(c.level - 1);
    SomeRow(rows, c.index);
    if s.writeUram {
      assert |g.extracted| == 0;
    } else {
      ExtractedCount(c, s, g);
      WholeGroups(|g.extracted|, |g.rows| - (if s.v.v3 then 1 else 0), s.s4Cnt, c.index, rows);
    }
  }

  lemma ExtractedCount(c: Config, s: Slot, g: Front)
    requires ValidConfig(c) && FrontInv(c, s, g) && !s.writeUram
    ensures var d := |g.rows| - if s.v.v3 then 1 else 0;
      d >= 0 && s.s4Cnt < c.index && (!s.v.v3 ==> s.s4Cnt == 0) && |g.extracted| == c.index * d + s.s4Cnt
  {
    hide RowsInOrder, InFlightItems, ExtractionAt;
  }

  lemma {:induction false} Pow2Strict(i: nat, j: nat)
    requires i < j
    ensures 2 * Pow2(i) <= Pow2(j)
  {
    Pow2Monotone(i + 1, j);
  }

  /** A token above the reduce level, or anything beside one at it, would weigh too much. */
  lemma TokensBelow(c: Config, s: Slot)
    requires |s.rb| == 12 && 1 <= c.level && Weight(s) <= Pow2(c.level)
    ensures s.v.v7 ==> s.n.n7 <= c.level
    ensures s.v.v8 ==> s.n.n8 <= c.level
    ensures s.v.v8 && s.n.n8 == c.level ==>
      !s.v.v5 && !s.v.v6 && !s.v.v7 && BufferWeight(s.rb, 12) == 0 && Weight(s) == Pow2(c.level)
  {
    if s.v.v7 && s.n.n7 > c.level {
      Pow2Strict(c.level, s.n.n7);
    }
    if s.v.v8 && s.n.n8 > c.level {
      Pow2Strict(c.level, s.n.n8);
    }
  }

  /** Which extraction s5 takes next: extractions are taken in order, once each. */
  lemma TakenStep(c: Config, s: Slot, h: History, s0AllDone: bool)
    requires ValidConfig(c) && Shaped(s, h.tree) && FrontInv(c, s, h.front)
    requires |h.front.extracted| == h.tree.taken + One(s.v.v4)
    ensures var h' := HistoryStep(c, s, h, s0AllDone);
      |h'.front.extracted| == h'.tree.taken + One(Tick(c, s, s0AllDone).v.v4)
  {
    hide AfterS2Start, AfterS4Start, FrontInv, Entering, CoeffIndex, IdxSplit, Merging;
  }

  lemma FetchedStep(c: Config, rows: nat, s: Slot, g: Front, s0AllDone: bool)
    requires g.fetched <= Total(c, rows) && FeedOk(c, rows, g, s0AllDone)
    ensures FrontStep(c, s, g, s0AllDone).fetched <= Total(c, rows)
  {
    hide AfterS2Start, AfterS4Start, Merging, CoeffIndex, IdxSplit;
  }

  /** One slot boundary of the reduction phase. */
  lemma ReducingStep(c: Config, rows: nat, s: Slot, h: History, s0AllDone: bool)
    requires FeedMatches(c, rows) && Reducing(c, rows, s, h) && s.n.n8 < c.level
    requires FeedOk(c, rows, h.front, s0AllDone)
    ensures Reducing(c, rows, Tick(c, s, s0AllDone), HistoryStep(c, s, h, s0AllDone))
  {
    hide FrontInv, TreeInv, Merging, FrontStep, TreeStep, AfterS2Start, AfterS4Start, NextBuffers, Weight;
    ShapeOf(s, h.tree);
    var s', h' := Tick(c, s, s0AllDone), HistoryStep(c, s, h, s0AllDone);
    StepAt(s, h.tree, c.level);
    TickIsBackStep(c, s, s0AllDone);
    FrontStepKeeps(c, s, h.front, s0AllDone);
    TreeStepKeeps(s, h.tree, s');
    WeightStep(s, h.tree, s');
    TakenStep(c, s, h, s0AllDone);
    FetchedStep(c, rows, s, h.front, s0AllDone);
    ExtractedBound(c, rows, s', h'.front);
    ShapeOf(s', h'.tree);
    TokensBelow(c, s');
  }

  lemma ShapeOf(s: Slot, g: Tree)
    requires TreeInv(s, g)
    ensures Shaped(s, g) && LevelsMatchStages(s) && !s.rb[0]
  {
  }

  lemma ReducingStart(c: Config, rows: nat)
    requires FeedMatches(c, rows)
    ensures Reducing(c, rows, START, History(EMPTY_FRONT, EMPTY_TREE))
  {
    hide FrontInv, TreeInv, Weight;
    FrontStart(c);
    TreeStart();
    EmptyAtStart(START, EMPTY_FRONT);
    NothingInFlight(START);
  }

  lemma NothingInFlight(s: Slot)
    requires s == START
    ensures |s.rb| == 12 && Weight(s) == 0 && s.n.n8 == 0 && !s.v.v9 && !s.trace
  {
    NoWeight(s.rb, 12);
  }

  lemma {:induction false} NoWeight(rb: seq<bool>, k: nat)
    requires k <= |rb| && forall n | 0 <= n < k :: !rb[n]
    ensures BufferWeight(rb, k) == 0
  {
    if k > 0 {
      NoWeight(rb, k - 1);
    }
  }

  /**
   When the token of the reduce level arrives in s8, nothing else is left: every
   ciphertext is fetched, every row extracted, every buffer empty, and the token
   covers all 2^(level-1) extractions in order.
   */
  lemma Arrival(c: Config, rows: nat, s: Slot, h: History)
    requires FeedMatches(c, rows) && Reducing(c, rows, s, h) && s.n.n8 == c.level
    ensures s.v.v8 && h.tree.t8 == Range(0, Pow2(c.level - 1))
    ensures !s.v.v0 && !s.v.v1 && !s.v.v2 && !s.v.v3 && !s.v.v4 && !s.v.v5 && !s.v.v6 && !s.v.v7
    ensures forall n | 0 <= n < 12 :: !s.rb[n]
    ensures h.front.fetched == Total(c, rows) && |h.front.rows| == rows
    ensures |h.front.extracted| == Pow2(c.level - 1) == h.tree.taken
  {
    hide FrontInv, Weight;
    ExtractedBound(c, rows, s, h.front);
    ShapeOf(s, h.tree);
    TokensBelow(c, s);
    forall n | 0 <= n < 12
      ensures !s.rb[n]
    {
      if s.rb[n] {
        BufferInWeight(s.rb, 12, n);
      }
    }
    assert Pow2(c.level) == 2 * Pow2(c.level - 1);
    FirstTopToken(c, s, h.tree);
  }

  lemma FirstTopToken(c: Config, s: Slot, g: Tree)
    requires TreeInv(s, g) && 1 <= c.level <= 12 && s.n.n8 == c.level && g.taken == Pow2(c.level - 1)
    requires forall n | 0 <= n < 12 :: !s.rb[n]
    requires !s.v.v5 && !s.v.v6 && !s.v.v7
    ensures g.t8 == Range(0, Pow2(c.level - 1))
  {
    CountAt(c, s, g, c.level);
    assert InOrder(s, g, c.level) && Covers(g, c.level);
  }

  /** With nothing else in flight, 2^(level-n) tokens of each level n have been created. */
  lemma {:induction false} CountAt(c: Config, s: Slot, g: Tree, n: nat)
    requires TreeInv(s, g) && 1 <= n <= c.level <= 12 && s.n.n8 == c.level && g.taken == Pow2(c.level - 1)
    requires forall k | 0 <= k < 12 :: !s.rb[k]
    requires !s.v.v5 && !s.v.v6 && !s.v.v7
    ensures |g.created[n]| == Pow2(c.level - n)
  {
    if n > 1 {
      CountAt(c, s, g, n - 1);
      assert Digit(s, g, n - 1) && InOrder(s, g, n - 1);
    }
  }

  // ---------------------------------------------------------------------------
  // The trace phase

  /** Only the top token is left, at level n, in stage pos of s5..s8; its copies have left through s9. */
  ghost predicate Tracing(c: Config, s: Slot, n: nat, pos: nat) {
    && s.trace && !c.skipTrace && c.level <= n <= 12 && 5 <= pos <= 8 && |s.rb| == 12
    && !s.v.v0 && !s.v.v1 && !s.v.v2 && !s.v.v3 && !s.v.v4
    && s.v.v5 == (pos == 5) && s.v.v6 == (pos == 6) && s.v.v7 == (pos == 7) && s.v.v8 == (pos == 8)
    && s.n.n5 == (if pos == 5 then n else 0) && s.n.n6 == (if pos == 6 then n else 0)
    && s.n.n7 == (if pos == 7 then n else 0) && s.n.n8 == (if pos == 8 then n else 0)
    && (s.v.v9 ==> s.n.n9 < 12)
    && (forall k | 0 <= k < 12 && (k < c.level || k >= n) :: !s.rb[k])
  }

  /** One slot boundary of the trace phase: one stage further, and one level up out of s8. */
  lemma TracingStep(c: Config, s: Slot, n: nat, pos: nat)
    requires ValidConfig(c) && Tracing(c, s, n, pos)
    ensures pos < 8 ==> Tracing(c, Tick(c, s, true), n, pos + 1)
    ensures pos == 8 && n < 12 ==> Tracing(c, Tick(c, s, true), n + 1, 5)
    ensures pos == 8 && n == 12 ==> LastToken(c, Tick(c, s, true))
  {
    hide AfterS2Start, AfterS4Start, LastSplit, LastIndex;
    assert !Merging(s);
  }

  /** k slot boundaries after s, nothing more being fetched. */
  function After(c: Config, s: Slot, k: nat): Slot {
    if k == 0 then s else Tick(c, After(c, s, k - 1), true)
  }

  lemma {:induction false} TracePosition(c: Config, s: Slot, k: nat)
    requires ValidConfig(c) && Tracing(c, s, c.level, 8) && k <= 4 * (12 - c.level)
    ensures Tracing(c, After(c, s, k), c.level + (k + 3) / 4, 5 + (k + 3) % 4)
  {
    hide Tracing, Tick;
    if k > 0 {
      TracePosition(c, s, k - 1);
      NextQuarter(k + 2);
      TracingStep(c, After(c, s, k - 1), c.level + (k + 2) / 4, 5 + (k + 2) % 4);
    }
  }

  lemma NextQuarter(k: nat)
    ensures if k % 4 == 3 then (k + 1) / 4 == k / 4 + 1 && (k + 1) % 4 == 0
            else (k + 1) / 4 == k / 4 && (k + 1) % 4 == k % 4 + 1
  {
  }

  lemma ArrivalTraces(c: Config, rows: nat, s: Slot, h: History)
    requires FeedMatches(c, rows) && Reducing(c, rows, s, h) && s.n.n8 == c.level && !c.skipTrace
    ensures Tracing(c, s, c.level, 8)
  {
    hide FrontInv, Weight;
    Arrival(c, rows, s, h);
    ShapeOf(s, h.tree);
  }

  /** Without skip_trace the last token leaves s9 exactly 4 * (12 - level) + 1 boundaries after it first reaches s8. */
  lemma TraceTiming(c: Config, rows: nat, s: Slot, h: History)
    requires FeedMatches(c, rows) && Reducing(c, rows, s, h) && s.n.n8 == c.level && !c.skipTrace
    ensures LastToken(c, After(c, s, 4 * (12 - c.level) + 1))
    ensures forall k | 0 <= k <= 4 * (12 - c.level) :: !LastToken(c, After(c, s, k))
  {
    var last := 4 * (12 - c.level);
    ArrivalTraces(c, rows, s, h);
    forall k | 0 <= k <= last
      ensures !LastToken(c, After(c, s, k))
    {
      TracePosition(c, s, k);
    }
    TracePosition(c, s, last);
    TracingStep(c, After(c, s, last), 12, 8);
  }

  /** With skip_trace it leaves at the next boundary. */
  lemma SkipTiming(c: Config, rows: nat, s: Slot, h: History)
    requires FeedMatches(c, rows) && Reducing(c, rows, s, h) && s.n.n8 == c.level && c.skipTrace
    ensures !LastToken(c, s) && LastToken(c, After(c, s, 1))
  {
    hide FrontInv, Weight, AfterS2Start, AfterS4Start, LastSplit, LastIndex;
    Arrival(c, rows, s, h);
  }

  // ---------------------------------------------------------------------------
  // Runs, clock by clock

  /** The whole job is done: each row accumulated, each extraction made and reduced, once and in order. */
  ghost predicate Complete(c: Config, rows: nat, h: History)
    requires ValidConfig(c)
  {
    && |h.tree.created| == 13 && h.tree.created[c.level] == [Range(0, Pow2(c.level - 1))]
    && h.front.uram == Pieces(0, c.split) && |h.front.rows| == rows
    && (forall r | 0 <= r < rows :: h.front.rows[r] == Row(c, r))
    && |h.front.extracted| == Pow2(c.level - 1)
    && (forall x | 0 <= x < |h.front.extracted| :: ExtractionAt(c, h.front.rows, h.front.extracted, x))
  }

  ghost predicate Ended(c: Config, s: Slot) { LastToken(c, s) && s.n.n8 == 0 && !s.v.v4 && !s.v.v8 && !Merging(s) }

  ghost predicate InTrace(c: Config, s: Slot) { exists n, pos :: Tracing(c, s, n, pos) }

  /** Where a run stands: reducing, or tracing, or about to raise done. */
  ghost predicate Phase(c: Config, rows: nat, s: Slot, h: History) {
    || (Reducing(c, rows, s, h) && !LastToken(c, s))
    || (FrontInv(c, s, h.front) && Shaped(s, h.tree) && h.front.fetched == Total(c, rows) &&
        Complete(c, rows, h) && (Ended(c, s) || (InTrace(c, s) && !LastToken(c, s))))
  }

  lemma ArrivalCompletes(c: Config, rows: nat, s: Slot, h: History)
    requires FeedMatches(c, rows) && Reducing(c, rows, s, h) && s.n.n8 == c.level
    ensures Complete(c, rows, h) && h.front.fetched == Total(c, rows)
  {
    Arrival(c, rows, s, h);
    CountAt(c, s, h.tree, c.level);
    assert InOrder(s, h.tree, c.level) && Covers(h.tree, c.level);
    assert !s.writeUram;
  }

  /** Once everything is extracted, a boundary that creates no token of the top level changes nothing that counts. */
  lemma CompleteStep(c: Config, rows: nat, s: Slot, h: History)
    requires FeedMatches(c, rows) && FrontInv(c, s, h.front) && Shaped(s, h.tree)
    requires h.front.fetched == Total(c, rows) && Complete(c, rows, h)
    requires EntersS5(s) ==> EnteringLevel(s) != c.level
    ensures var s', h' := Tick(c, s, true), HistoryStep(c, s, h, true);
      FrontInv(c, s', h'.front) && h'.front.fetched == Total(c, rows) && Complete(c, rows, h')
  {
    hide FrontInv, ExtractionAt, Row, Pieces, Range, Merging, Entering, AfterS2Start, AfterS4Start, CoeffIndex,
         IdxSplit;
    var s', h' := Tick(c, s, true), HistoryStep(c, s, h, true);
    FrontStepKeeps(c, s, h.front, true);
    FetchedStep(c, rows, s, h.front, true);
    ExtractedBound(c, rows, s', h'.front);
    RowsBound(c, rows, s', h'.front);
    ExtractedBound(c, rows, s, h.front);
    UramLoaded(c, rows, s', h'.front);
  }

  lemma UramLoaded(c: Config, rows: nat, s: Slot, g: Front)
    requires FeedMatches(c, rows) && FrontInv(c, s, g) && |g.extracted| == Pow2(c.level - 1)
    ensures g.uram == Pieces(0, c.split)
  {
  }

  lemma PhaseStep(c: Config, rows: nat, s: Slot, h: History, s0AllDone: bool)
    requires FeedMatches(c, rows) && Phase(c, rows, s, h) && !LastToken(c, s)
    requires FeedOk(c, rows, h.front, s0AllDone)
    ensures Shaped(s, h.tree)
    ensures Phase(c, rows, Tick(c, s, s0AllDone), HistoryStep(c, s, h, s0AllDone))
  {
    if Reducing(c, rows, s, h) {
      ReducingPhaseStep(c, rows, s, h, s0AllDone);
    } else {
      var n, pos :| Tracing(c, s, n, pos);
      TracingPhaseStep(c, rows, s, h, n, pos);
    }
  }

  lemma ReducingPhaseStep(c: Config, rows: nat, s: Slot, h: History, s0AllDone: bool)
    requires FeedMatches(c, rows) && Reducing(c, rows, s, h)
    requires FeedOk(c, rows, h.front, s0AllDone)
    ensures Shaped(s, h.tree)
    ensures Phase(c, rows, Tick(c, s, s0AllDone), HistoryStep(c, s, h, s0AllDone))
  {
    hide FrontInv, Weight, Complete, TreeInv, FrontStep, TreeStep, AfterS2Start, AfterS4Start, LastSplit, LastIndex;
    ShapeOf(s, h.tree);
    if s.n.n8 < c.level {
      ReducingStep(c, rows, s, h, s0AllDone);
    } else {
      Arrival(c, rows, s, h);
      ArrivalCompletes(c, rows, s, h);
      CompleteStep(c, rows, s, h);
      if c.skipTrace {
        assert Ended(c, Tick(c, s, true));
      } else {
        ArrivalTraces(c, rows, s, h);
        AfterTracing(c, s, c.level, 8);
      }
      assert Shaped(Tick(c, s, true), TreeStep(s, h.tree)) by { ShapeStep(c, s, h.tree); }
    }
  }

  lemma ShapeStep(c: Config, s: Slot, g: Tree)
    requires Shaped(s, g) && s.n.n7 <= 12
    ensures Shaped(Tick(c, s, true), TreeStep(s, g))
  {
    hide Entering, AfterS2Start, AfterS4Start;
  }

  lemma AfterTracing(c: Config, s: Slot, n: nat, pos: nat)
    requires ValidConfig(c) && Tracing(c, s, n, pos)
    ensures var s' := Tick(c, s, true); Ended(c, s') || (InTrace(c, s') && !LastToken(c, s'))
    ensures EntersS5(s) ==> EnteringLevel(s) != c.level
  {
    hide AfterS2Start, AfterS4Start, LastSplit, LastIndex;
    TracingStep(c, s, n, pos);
    assert !Merging(s);
    if pos < 8 {
      assert Tracing(c, Tick(c, s, true), n, pos + 1);
    } else if n < 12 {
      assert Tracing(c, Tick(c, s, true), n + 1, 5);
    }
  }

  lemma TracingPhaseStep(c: Config, rows: nat, s: Slot, h: History, n: nat, pos: nat)
    requires FeedMatches(c, rows) && FrontInv(c, s, h.front) && Shaped(s, h.tree)
    requires h.front.fetched == Total(c, rows) && Complete(c, rows, h) && Tracing(c, s, n, pos)
    ensures Phase(c, rows, Tick(c, s, true), HistoryStep(c, s, h, true))
  {
    hide FrontInv, Complete, FrontStep, TreeStep, AfterS2Start, AfterS4Start, LastSplit, LastIndex, InTrace, Ended;
    AfterTracing(c, s, n, pos);
    CompleteStep(c, rows, s, h);
    ShapeStep(c, s, h.tree);
  }

  /** The registers together with the ghost history. */
  datatype Machine = Machine(r: Regs, h: History)

  function HistoryClock(c: Config, m: Machine, i: Inputs): History {
    var s := Settle(c, m.r);
    if AllStageDone(m.r, i) && Shaped(s, m.h.tree) then HistoryStep(c, s, m.h, i.s0AllDone) else m.h
  }

  function MachineClock(c: Config, m: Machine, i: Inputs): Machine {
    Machine(Clock(c, m.r, i), HistoryClock(c, m, i))
  }

  function Run(c: Config, m: Machine, ins: seq<Inputs>): Machine
    decreases |ins|
  {
    if ins == [] then m else Run(c, MachineClock(c, m, ins[0]), ins[1..])
  }

  /** A run up to done: no second start, the feed as promised, the stages done in any order at any time. */
  ghost predicate LegalRun(c: Config, rows: nat, m: Machine, ins: seq<Inputs>)
    decreases |ins|
  {
    ins == [] ||
    (!ins[0].start && !m.r.idle &&
     (AllStageDone(m.r, ins[0]) ==> FeedOk(c, rows, m.h.front, ins[0].s0AllDone)) &&
     LegalRun(c, rows, MachineClock(c, m, ins[0]), ins[1..]))
  }

  ghost predicate RunInv(c: Config, rows: nat, m: Machine)
    requires ValidConfig(c)
  {
    Sane(c, m.r) && if m.r.idle then Complete(c, rows, m.h) else Phase(c, rows, Settle(c, m.r), m.h)
  }

  lemma ClockKeeps(c: Config, rows: nat, m: Machine, i: Inputs)
    requires FeedMatches(c, rows) && RunInv(c, rows, m) && !i.start && !m.r.idle
    requires AllStageDone(m.r, i) ==> FeedOk(c, rows, m.h.front, i.s0AllDone)
    ensures RunInv(c, rows, MachineClock(c, m, i))
  {
    hide Phase, Reducing, FrontInv, Complete, HistoryStep, Tick, AfterS2Start, AfterS4Start, NextStages,
         NextLevels, NextBuffers;
    var s := Settle(c, m.r);
    ClockRefinesSlots(c, m.r, i);
    DoneAtBoundary(c, m.r, i);
    if AllStageDone(m.r, i) {
      if LastToken(c, s) {
        EndedCompletes(c, rows, s, m.h, i.s0AllDone);
      } else {
        PhaseStep(c, rows, s, m.h, i.s0AllDone);
      }
    }
  }

  lemma DoneAtBoundary(c: Config, r: Regs, i: Inputs)
    requires !i.start && !r.idle
    ensures Clock(c, r, i).idle == (AllStageDone(r, i) && LastToken(c, Settle(c, r)))
  {
    hide NextStages, NextLevels, NextBuffers, AfterS2Start, AfterS4Start;
  }

  /**
   Inside a run every start output is the slot's: the idle gate on s1 could only matter at the
   boundary that raises done, and by then there is nothing left for s1 to start.
   */
  lemma RunPulses(c: Config, rows: nat, m: Machine, i: Inputs)
    requires FeedMatches(c, rows) && RunInv(c, rows, m) && !i.start && !m.r.idle
    requires AllStageDone(m.r, i) && FeedOk(c, rows, m.h.front, i.s0AllDone)
    ensures Pulses(Clock(c, m.r, i)) == Fires(c, Settle(c, m.r), i.s0AllDone)
  {
    hide Reducing, InTrace, Tracing, FrontInv, Complete, Fires, Pulses, Clock, Settle, LastToken;
    PulsesAreFires(c, m.r, i);
    DoneAtBoundary(c, m.r, i);
    if LastToken(c, Settle(c, m.r)) {
      NothingToStart(c, rows, Settle(c, m.r), m.h, i.s0AllDone);
    }
  }

  lemma NothingToStart(c: Config, rows: nat, s: Slot, h: History, s0AllDone: bool)
    requires FeedMatches(c, rows) && FrontInv(c, s, h.front) && h.front.fetched == Total(c, rows)
    requires Complete(c, rows, h) && Ended(c, s)
    ensures !Fires(c, s, s0AllDone).s1
  {
    hide FrontInv, Merging;
    ExtractedBound(c, rows, s, h.front);
  }

  lemma EndedCompletes(c: Config, rows: nat, s: Slot, h: History, s0AllDone: bool)
    requires FeedMatches(c, rows) && Phase(c, rows, s, h) && LastToken(c, s)
    requires FeedOk(c, rows, h.front, s0AllDone)
    ensures Shaped(s, h.tree) && Complete(c, rows, HistoryStep(c, s, h, s0AllDone))
  {
    hide FrontInv, Reducing, Complete, FrontStep, TreeStep;
    CompleteStep(c, rows, s, h);
  }

  /**
   Over every run from a start pulse, whatever the stages' timing: when done is raised
   every row has been accumulated, every extraction made, and the one token of the
   reduce level covers all 2^(level-1) of them in order.
   */
  lemma {:induction false} EveryRun(c: Config, rows: nat, m: Machine, ins: seq<Inputs>)
    requires FeedMatches(c, rows) && RunInv(c, rows, m) && LegalRun(c, rows, m, ins)
    ensures RunInv(c, rows, Run(c, m, ins))
    decreases |ins|
  {
    hide RunInv, MachineClock, FeedMatches;
    if ins != [] {
      ClockKeeps(c, rows, m, ins[0]);
      EveryRun(c, rows, MachineClock(c, m, ins[0]), ins[1..]);
    }
  }

  /** A start pulse, in any state a clocked controller can be in, begins such a run. */
  lemma StartBegins(c: Config, rows: nat, r: Regs, i: Inputs)
    requires FeedMatches(c, rows) && Sane(c, r) && i.start
    ensures RunInv(c, rows, Machine(Clock(c, r, i), History(EMPTY_FRONT, EMPTY_TREE)))
  {
    hide Phase, Clock, Settle, Complete;
    ClockRefinesSlots(c, r, i);
    PhaseAtStart(c, rows);
  }

  lemma PhaseAtStart(c: Config, rows: nat)
    requires FeedMatches(c, rows)
    ensures Phase(c, rows, START, History(EMPTY_FRONT, EMPTY_TREE))
  {
    hide Reducing;
    ReducingStart(c, rows);
    NothingInFlight(START);
  }

  lemma ResetIsSane(c: Config)
    ensures Sane(c, RESET)
  {
  }
}

/** Termination: with a feed that has no gaps, the top token arrives in bounded time. */
module ControlProgress {
  import opened Modular
  import opened Powers
  import opened ControlRegisters
  import opened ControlSlots
  import opened ReductionTree
  import opened FrontEnd
  import opened ControlRuns

  /** Moves still ahead of the ciphertexts of s0..s2 and of those not fetched yet. */
  function ItemMoves(c: Config, rows: nat, s: Slot, f: Front): int {
    4 * (Total(c, rows) - f.fetched) + 3 * One(s.v.v0) + 2 * One(s.v.v1) + One(s.v.v2)
  }

  /** Stages still ahead of the tokens in s5..s8. */
  function TokenMoves(s: Slot): nat {
    4 * One(s.v.v5) + 3 * One(s.v.v6) + 2 * One(s.v.v7) + One(s.v.v8)
  }

  function CreatedCount(g: Tree, k: nat): nat
    requires k < |g.created|
  {
    if k == 0 then 0 else CreatedCount(g, k - 1) + |g.created[k]|
  }

  /** A bound on the slot boundaries before the top token reaches s8. */
  function Remaining(c: Config, rows: nat, s: Slot, h: History): int
    requires ValidConfig(c) && |h.tree.created| == 13
  {
    ItemMoves(c, rows, s, h.front) + (Pow2(c.level - 1) - |h.front.extracted|) +
    5 * (Pow2(c.level) - 1 - CreatedCount(h.tree, 12)) + TokenMoves(s)
  }

  /** At most half as many tokens on each level as on the one below. */
  lemma {:induction false} CreatedAt(c: Config, s: Slot, g: Tree, n: nat)
    requires TreeInv(s, g) && 1 <= n <= 12 && 1 <= c.level <= 12 && g.taken <= Pow2(c.level - 1)
    ensures |g.created[n]| <= if n <= c.level then Pow2(c.level - n) else 0
  {
    if n > 1 {
      CreatedAt(c, s, g, n - 1);
      assert Digit(s, g, n - 1) && InOrder(s, g, n - 1);
    }
  }

  lemma {:induction false} CreatedBound(c: Config, s: Slot, g: Tree, k: nat)
    requires TreeInv(s, g) && k <= 12 && 1 <= c.level <= 12 && g.taken <= Pow2(c.level - 1)
    ensures CreatedCount(g, k) + (if k <= c.level then Pow2(c.level - k) else 1) <= Pow2(c.level)
  {
    if k > 0 {
      CreatedBound(c, s, g, k - 1);
      CreatedAt(c, s, g, k);
    }
  }

  lemma RemainingIsBounded(c: Config, rows: nat, s: Slot, h: History)
    requires FeedMatches(c, rows) && Reducing(c, rows, s, h)
    ensures Remaining(c, rows, s, h) >= 0
  {
    ExtractedBound(c, rows, s, h.front);
    CreatedBound(c, s, h.tree, 12);
  }

  lemma {:induction false} CreatedStep(s: Slot, g: Tree, k: nat)
    requires Shaped(s, g) && LevelsMatchStages(s) && s.n.n8 < 12 && k <= 12
    ensures |TreeStep(s, g).created| == 13
    ensures CreatedCount(TreeStep(s, g), k) ==
            CreatedCount(g, k) + One(EntersS5(s) && EnteringLevel(s) <= k)
  {
    EnteringIsSmall(s);
    if k > 0 {
      CreatedStep(s, g, k - 1);
      StepAt(s, g, k);
    }
  }

  lemma ItemMovesStep(c: Config, rows: nat, s: Slot, f: Front, s0AllDone: bool)
    ensures ItemMoves(c, rows, Tick(c, s, s0AllDone), FrontStep(c, s, f, s0AllDone)) ==
            ItemMoves(c, rows, s, f) -
              (if HoldsFetch(c, s) then 0 else One(s.v.v0) + One(s.v.v1) + One(s.v.v2) + One(!s0AllDone))
  {
    hide Total, AfterS2Start, AfterS4Start, Merging, CoeffIndex, IdxSplit;
  }

  lemma TokenMovesStep(s: Slot, s': Slot)
    requires BackStep(s, s')
    ensures TokenMoves(s') ==
            TokenMoves(s) - One(s.v.v5) - One(s.v.v6) - One(s.v.v7) - One(s.v.v8) + 4 * One(EntersS5(s))
  {
  }

  /** Something moves: a token, an extraction, a ciphertext, or the fetch. */
  ghost predicate Moves(c: Config, s: Slot, s0AllDone: bool) {
    || s.v.v5 || s.v.v6 || s.v.v7 || s.v.v8 || EntersS5(s) || Fires(c, s, s0AllDone).s4
    || (!HoldsFetch(c, s) && (s.v.v0 || s.v.v1 || s.v.v2 || !s0AllDone))
  }

  lemma RemainingStep(c: Config, rows: nat, s: Slot, h: History, s0AllDone: bool)
    requires FeedMatches(c, rows) && Reducing(c, rows, s, h) && s.n.n8 < c.level
    ensures Shaped(s, h.tree)
    ensures var s', h' := Tick(c, s, s0AllDone), HistoryStep(c, s, h, s0AllDone);
      && |h'.tree.created| == 13
      && Remaining(c, rows, s', h') <= Remaining(c, rows, s, h)
      && (Moves(c, s, s0AllDone) ==> Remaining(c, rows, s', h') < Remaining(c, rows, s, h))
  {
    hide FrontInv, TreeInv, Weight, ItemMoves, TokenMoves, CreatedCount, TreeStep, Tick, EntersS5, HoldsFetch,
         AfterS2Start, AfterS4Start;
    ShapeOf(s, h.tree);
    TickIsBackStep(c, s, s0AllDone);
    ItemMovesStep(c, rows, s, h.front, s0AllDone);
    TokenMovesStep(s, Tick(c, s, s0AllDone));
    CreatedStep(s, h.tree, 12);
    EnteringIsSmall(s);
  }

  /** A row is one tile, or yields one extraction, or is the only one: the s2 and s4 stalls cannot meet. */
  predicate Unblocked(c: Config, rows: nat) { c.split == 1 || c.index == 1 || rows <= 1 }

  lemma ExtractionMoves(c: Config, s: Slot, s0AllDone: bool)
    requires ValidConfig(c) && s.s4Cnt < c.index && (c.index == 1 ==> s.s4Cnt == 0) && (c.split == 1 ==> s.s2Cnt == 0)
    requires s.v.v3 && !s.v.v4 && (c.split == 1 || c.index == 1 || !s.v.v2)
    ensures Moves(c, s, s0AllDone)
  {
  }

  /** Nothing moves only after the top token has been through. */
  lemma AlwaysMoves(c: Config, rows: nat, s: Slot, h: History, s0AllDone: bool)
    requires FeedMatches(c, rows) && Unblocked(c, rows) && Reducing(c, rows, s, h) && s.n.n8 < c.level
    requires s0AllDone <==> h.front.fetched == Total(c, rows)
    ensures Moves(c, s, s0AllDone)
  {
    hide Weight, Accumulated, Covers, ExtractionAt;
    if !Moves(c, s, s0AllDone) {
      CountersIdle(c, s, h.front);
      if s.v.v3 {
        LastRow(c, rows, s, h.front);
        ExtractionMoves(c, s, s0AllDone);
      }
      Drained(c, rows, s, h);
      TopTokenCreated(c, s, h.tree, c.level);
    }
  }

  /** Behind a single row there is nothing to stall for. */
  lemma LastRow(c: Config, rows: nat, s: Slot, g: Front)
    requires FeedMatches(c, rows) && FrontInv(c, s, g) && g.fetched <= Total(c, rows) && s.v.v3
    ensures rows <= 1 ==> !s.v.v2
  {
    hide Accumulated, ExtractionAt;
    RowsBound(c, rows, s, g);
    assert rows >= 1;
  }

  lemma CountersIdle(c: Config, s: Slot, g: Front)
    requires FrontInv(c, s, g)
    ensures s.s4Cnt < c.index && (c.index == 1 ==> s.s4Cnt == 0) && (c.split == 1 ==> s.s2Cnt == 0)
    ensures !s.v.v3 ==> s.s4Cnt == 0 || s.writeUram
  {
  }

  lemma Drained(c: Config, rows: nat, s: Slot, h: History)
    requires FeedMatches(c, rows) && Reducing(c, rows, s, h)
    requires !s.v.v0 && !s.v.v1 && !s.v.v2 && !s.v.v3 && !s.v.v4 && h.front.fetched == Total(c, rows)
    ensures h.tree.taken == Pow2(c.level - 1)
  {
    hide Weight, TreeInv, Accumulated, ExtractionAt;
    assert Entered(s, h.front) == Total(c, rows);
    assert rows >= 1;
    ModMultiple(0, rows, c.split);
    assert c.index * rows == rows * c.index;
  }

  lemma {:induction false} TopTokenCreated(c: Config, s: Slot, g: Tree, n: nat)
    requires TreeInv(s, g) && 1 <= n <= c.level <= 12 && g.taken == Pow2(c.level - 1)
    requires !s.v.v5 && !s.v.v6 && !s.v.v7 && !s.v.v8
    ensures g.arrived[n] == |g.created[n]| == Pow2(c.level - n)
  {
    assert InOrder(s, g, n);
    if n > 1 {
      TopTokenCreated(c, s, g, n - 1);
      assert Digit(s, g, n - 1);
    }
  }

  datatype SlotState = SlotState(s: Slot, h: History)

  /** One boundary with a feed that has no gaps: the reader is done exactly when all is fetched. */
  function GapFreeTick(c: Config, rows: nat, x: SlotState): SlotState
    requires Shaped(x.s, x.h.tree)
  {
    var allDone := x.h.front.fetched == Total(c, rows);
    SlotState(Tick(c, x.s, allDone), HistoryStep(c, x.s, x.h, allDone))
  }

  /** x reaches y in k such boundaries. */
  ghost predicate Reaches(c: Config, rows: nat, x: SlotState, y: SlotState, k: nat)
    decreases k
  {
    if k == 0 then x == y
    else Shaped(x.s, x.h.tree) && Reaches(c, rows, GapFreeTick(c, rows, x), y, k - 1)
  }

  /** An unblocked reduction finishes: the top token reaches s8 within the boundaries counted by Remaining. */
  lemma {:induction false} TopTokenArrives(c: Config, rows: nat, x: SlotState) returns (y: SlotState, k: nat)
    requires FeedMatches(c, rows) && Unblocked(c, rows) && Reducing(c, rows, x.s, x.h)
    ensures Reaches(c, rows, x, y, k) && Reducing(c, rows, y.s, y.h) && y.s.n.n8 == c.level
    ensures k <= Remaining(c, rows, x.s, x.h)
    decreases Remaining(c, rows, x.s, x.h)
  {
    hide Remaining, Moves, Tick, HistoryStep, FrontInv, TreeInv, Weight;
    RemainingIsBounded(c, rows, x.s, x.h);
    if x.s.n.n8 == c.level {
      y, k := x, 0;
    } else {
      var allDone := x.h.front.fetched == Total(c, rows);
      ReducingStep(c, rows, x.s, x.h, allDone);
      AlwaysMoves(c, rows, x.s, x.h, allDone);
      RemainingStep(c, rows, x.s, x.h, allDone);
      y, k := TopTokenArrives(c, rows, GapFreeTick(c, rows, x));
      k := k + 1;
    }
  }

  /** From a start pulse: 4 moves a ciphertext, one an extraction, 5 a token. */
  lemma RemainingAtStart(c: Config, rows: nat)
    requires FeedMatches(c, rows)
    ensures Remaining(c, rows, START, History(EMPTY_FRONT, EMPTY_TREE))
         == 4 * Total(c, rows) + Pow2(c.level - 1) + 5 * (Pow2(c.level) - 1)
  {
    EmptyAtStart(START, EMPTY_FRONT);
    NothingCreated(EMPTY_TREE, 12);
  }

  lemma {:induction false} NothingCreated(g: Tree, k: nat)
    requires |g.created| == 13 && (forall n | 0 <= n <= 12 :: g.created[n] == []) && k <= 12
    ensures CreatedCount(g, k) == 0
  {
    if k > 0 {
      NothingCreated(g, k - 1);
    }
  }
}

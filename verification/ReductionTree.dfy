/**
 The back end of the controller, s5 to s9: a reduction tree folded onto one
 recirculating pipeline. Ghost tokens record which extracted results, numbered in
 the order s5 accepts them, each result in flight is made of.
 */
module ReductionTree {
  import opened Powers
  import opened ControlRegisters
  import opened ControlSlots

  /**
   What the datapath holds: the token in each of s5..s8, the tokens parked in the
   level buffers, how many results s5 has taken from s4, and, by level, every token
   created in s5 so far and how many of them have left s8.
   */
  datatype Tree = Tree(t5: seq<nat>, t6: seq<nat>, t7: seq<nat>, t8: seq<nat>,
                       parked: seq<seq<nat>>, taken: nat,
                       created: seq<seq<seq<nat>>>, arrived: seq<nat>)

  /** The same thing for each of the levels 0..12. */
  function PerLevel<T>(x: T): seq<T> { [x, x, x, x, x, x, x, x, x, x, x, x, x] }

  const EMPTY_TREE := Tree([], [], [], [], PerLevel([]), 0, PerLevel([]), PerLevel(0))

  predicate Shaped(s: Slot, g: Tree) {
    |s.rb| == 12 && |g.parked| == |g.created| == |g.arrived| == 13 && s.n.n8 <= 12
  }

  /** The result waiting in s4 moves on; a merge keeps it back. */
  predicate TakesFresh(s: Slot) { s.v.v4 && !Merging(s) }

  predicate EntersS5(s: Slot) { (if s.trace then s.v.v8 else s.v.v4 || Merging(s)) && s.n.n8 < 12 }

  function EnteringLevel(s: Slot): nat { if Merging(s) || s.trace then (s.n.n8 + 1) % 16 else 1 }

  /** The token that enters s5: a recirculated one, a merged pair, or a fresh result. */
  function Entering(s: Slot, g: Tree): seq<nat>
    requires Shaped(s, g)
  {
    if s.trace then g.t8 else if Merging(s) then g.parked[s.n.n8] + g.t8 else [g.taken]
  }

  /** Where the tokens go at a slot boundary. */
  function TreeStep(s: Slot, g: Tree): Tree
    requires Shaped(s, g)
  {
    var n8, next := s.n.n8, EnteringLevel(s);
    Tree(
      Entering(s, g), g.t5, g.t6, g.t7,
      if Merging(s) then g.parked[n8 := []] else if s.v.v8 && n8 != 0 then g.parked[n8 := g.t8] else g.parked,
      if TakesFresh(s) then g.taken + 1 else g.taken,
      if EntersS5(s) && next <= 12 then g.created[next := g.created[next] + [Entering(s, g)]]
      else g.created,
      if s.v.v8 then g.arrived[n8 := g.arrived[n8] + 1] else g.arrived)
  }

  /** lo, lo + 1, ..., lo + len - 1. */
  function Range(lo: nat, len: nat): (r: seq<nat>)
    ensures |r| == len
  {
    seq(len, i requires 0 <= i < len => lo + i)
  }

  function One(b: bool): nat { if b then 1 else 0 }

  /** How many tokens of level n are in s5..s8. */
  function InFlight(s: Slot, n: nat): nat {
    One(s.v.v5 && s.n.n5 == n) + One(s.v.v6 && s.n.n6 == n) + One(s.v.v7 && s.n.n7 == n) + One(s.v.v8 && s.n.n8 == n)
  }

  /** A stage is running exactly when its level is set. */
  ghost predicate LevelsMatchStages(s: Slot) {
    && (s.v.v5 <==> s.n.n5 != 0) && (s.v.v6 <==> s.n.n6 != 0) && (s.v.v7 <==> s.n.n7 != 0) && (s.v.v8 <==> s.n.n8 != 0)
    && s.n.n5 <= 12 && s.n.n6 <= 12 && s.n.n7 <= 12 && s.n.n8 <= 12
  }

  /** The tokens of level n leave s8 in the order they were created, the older further down the pipe. */
  ghost predicate InOrder(s: Slot, g: Tree, n: nat)
    requires Shaped(s, g) && n <= 12
  {
    var a := g.arrived[n];
    var a7 := a + One(s.v.v8 && s.n.n8 == n);
    var a6 := a7 + One(s.v.v7 && s.n.n7 == n);
    var a5 := a6 + One(s.v.v6 && s.n.n6 == n);
    && |g.created[n]| == a + InFlight(s, n)
    && (s.v.v8 && s.n.n8 == n ==> g.t8 == g.created[n][a])
    && (s.v.v7 && s.n.n7 == n ==> g.t7 == g.created[n][a7])
    && (s.v.v6 && s.n.n6 == n ==> g.t6 == g.created[n][a6])
    && (s.v.v5 && s.n.n5 == n ==> g.t5 == g.created[n][a5])
  }

  /** Level n works like a binary digit: every second arrival merges with the one parked before it. */
  ghost predicate Digit(s: Slot, g: Tree, n: nat)
    requires Shaped(s, g) && 1 <= n < 12
  {
    && (s.rb[n] <==> g.arrived[n] % 2 == 1)
    && (s.rb[n] && g.arrived[n] <= |g.created[n]| ==> g.parked[n] == g.created[n][g.arrived[n] - 1])
    && |g.created[n + 1]| == g.arrived[n] / 2
  }

  /** The k-th token of level n covers results k * 2^(n-1) .. (k+1) * 2^(n-1) - 1, in order. */
  ghost predicate Covers(g: Tree, n: nat)
    requires |g.created| == 13 && 1 <= n <= 12
  {
    forall k | 0 <= k < |g.created[n]| :: g.created[n][k] == Range(k * Pow2(n - 1), Pow2(n - 1))
  }

  ghost predicate TreeInv(s: Slot, g: Tree) {
    && Shaped(s, g) && LevelsMatchStages(s) && !s.rb[0]
    && |g.created[1]| == g.taken
    && (forall n | 1 <= n <= 12 :: InOrder(s, g, n) && Covers(g, n))
    && (forall n | 1 <= n < 12 :: Digit(s, g, n))
  }

  lemma TreeStart()
    ensures TreeInv(START, EMPTY_TREE)
  {
    hide InOrder, Covers, Digit, Range, PerLevel;
    StartIsEmpty();
    forall n | 1 <= n <= 12
      ensures InOrder(START, EMPTY_TREE, n) && Covers(EMPTY_TREE, n) && (n < 12 ==> Digit(START, EMPTY_TREE, n))
    {
      EmptyLevel(START, EMPTY_TREE, n);
    }
  }

  lemma StartIsEmpty()
    ensures Shaped(START, EMPTY_TREE) && EMPTY_TREE.taken == 0 && LevelsMatchStages(START)
    ensures forall n | 0 <= n < 12 :: !START.rb[n]
    ensures forall n | 0 <= n <= 12 :: EMPTY_TREE.created[n] == [] && EMPTY_TREE.arrived[n] == 0
  {
  }

  lemma EmptyLevel(s: Slot, g: Tree, n: nat)
    requires Shaped(s, g) && 1 <= n <= 12 && !s.v.v5 && !s.v.v6 && !s.v.v7 && !s.v.v8
    requires forall k | 0 <= k < 12 :: !s.rb[k]
    requires forall k | 0 <= k <= 12 :: g.created[k] == [] && g.arrived[k] == 0
    ensures InOrder(s, g, n) && Covers(g, n) && (n < 12 ==> Digit(s, g, n))
  {
  }

  lemma RangeConcat(k: nat, len: nat)
    requires k % 2 == 0
    ensures Range(k * len, len) + Range((k + 1) * len, len) == Range((k / 2) * (2 * len), 2 * len)
  {
    assert (k + 1) * len == k * len + len;
    assert (k / 2) * (2 * len) == k * len by { assert k == 2 * (k / 2); }
  }

  /** What a slot boundary does to s5..s9 and the level buffers. */
  ghost predicate BackStep(s: Slot, s': Slot) {
    && s'.v.v5 == EntersS5(s) && s'.v.v6 == s.v.v5 && s'.v.v7 == s.v.v6 && s'.v.v8 == s.v.v7 && s'.v.v9 == s.v.v8
    && s'.n.n5 == (if EntersS5(s) then EnteringLevel(s) else 0)
    && s'.n.n6 == s.n.n5 && s'.n.n7 == s.n.n6 && s'.n.n8 == s.n.n7 && s'.n.n9 == s.n.n8
    && s'.rb == NextBuffers(s)
  }

  lemma TickIsBackStep(c: Config, s: Slot, s0AllDone: bool)
    ensures BackStep(s, Tick(c, s, s0AllDone))
  {
    hide StallForS2, StallForS4, AfterS2Start, AfterS4Start, LastSplit, LastIndex, Merging;
  }

  /** Before the trace phase, a slot boundary keeps the tree's shape. */
  lemma TreeStepKeeps(s: Slot, g: Tree, s': Slot)
    requires TreeInv(s, g) && !s.trace && s.n.n8 < 12 && BackStep(s, s')
    ensures TreeInv(s', TreeStep(s, g))
  {
    forall n | 1 <= n <= 12
      ensures InOrder(s', TreeStep(s, g), n) && Covers(TreeStep(s, g), n)
    {
      OrderStep(s, g, s', n);
      CoversStep(s, g, n);
    }
    forall n | 1 <= n < 12
      ensures Digit(s', TreeStep(s, g), n)
    {
      DigitStep(s, g, s', n);
    }
  }

  /** The step as level n sees it. */
  lemma StepAt(s: Slot, g: Tree, n: nat)
    requires Shaped(s, g) && LevelsMatchStages(s) && s.n.n8 < 12 && 1 <= n <= 12
    ensures var g' := TreeStep(s, g);
      && |g'.parked| == |g'.created| == |g'.arrived| == 13
      && g'.t5 == Entering(s, g) && g'.t6 == g.t5 && g'.t7 == g.t6 && g'.t8 == g.t7
      && g'.created[n] == g.created[n] + (if EntersS5(s) && EnteringLevel(s) == n then [Entering(s, g)] else [])
      && g'.arrived[n] == g.arrived[n] + One(s.v.v8 && s.n.n8 == n)
  {
    hide Entering, Merging;
  }

  lemma OrderStep(s: Slot, g: Tree, s': Slot, n: nat)
    requires TreeInv(s, g) && !s.trace && s.n.n8 < 12 && 1 <= n <= 12 && BackStep(s, s')
    ensures Shaped(s', TreeStep(s, g)) && InOrder(s', TreeStep(s, g), n)
  {
    hide Covers, Digit, TreeStep, Entering, EntersS5, EnteringLevel;
    StepAt(s, g, n);
    assert InOrder(s, g, n);
    EnteringIsSmall(s);
  }

  lemma EnteringIsSmall(s: Slot)
    requires LevelsMatchStages(s) && s.n.n8 < 12
    ensures 1 <= EnteringLevel(s) <= 12
  {
  }

  lemma CoversStep(s: Slot, g: Tree, n: nat)
    requires TreeInv(s, g) && !s.trace && s.n.n8 < 12 && 1 <= n <= 12
    ensures Covers(TreeStep(s, g), n)
  {
    hide TreeStep, Digit, InOrder, Entering, Pow2, Range, Merging;
    StepAt(s, g, n);
    assert Covers(g, n);
    if EntersS5(s) && EnteringLevel(s) == n {
      EnteringCovers(s, g);
    }
  }

  lemma EnteringCovers(s: Slot, g: Tree)
    requires TreeInv(s, g) && !s.trace && s.n.n8 < 12 && EntersS5(s)
    ensures var n := EnteringLevel(s);
      1 <= n <= 12 && Entering(s, g) == Range(|g.created[n]| * Pow2(n - 1), Pow2(n - 1))
  {
    var n8 := s.n.n8;
    if Merging(s) {
      assert Digit(s, g, n8) && InOrder(s, g, n8) && Covers(g, n8);
      RangeConcat(g.arrived[n8] - 1, Pow2(n8 - 1));
    }
  }

  /** The buffer of level n: cleared by a merge, filled by an arrival that finds it empty. */
  lemma BufferAt(s: Slot, g: Tree, n: nat)
    requires Shaped(s, g) && LevelsMatchStages(s) && s.n.n8 < 12 && 1 <= n < 12
    ensures |NextBuffers(s)| == 12
    ensures NextBuffers(s)[n] == (if s.n.n8 == n then !s.rb[n] else s.rb[n])
    ensures TreeStep(s, g).parked[n] == (if s.n.n8 == n then if s.rb[n] then [] else g.t8 else g.parked[n])
  {
    hide Entering, EntersS5, EnteringLevel;
  }

  /** A token enters s5 above level 1 exactly when the level below merges. */
  lemma EntersAbove(s: Slot, n: nat)
    requires LevelsMatchStages(s) && !s.trace && s.n.n8 < 12 && |s.rb| == 12 && !s.rb[0] && 1 <= n < 12
    ensures EntersS5(s) && EnteringLevel(s) == n + 1 <==> s.n.n8 == n && s.rb[n]
  {
  }

  lemma DigitStep(s: Slot, g: Tree, s': Slot, n: nat)
    requires TreeInv(s, g) && !s.trace && s.n.n8 < 12 && 1 <= n < 12 && BackStep(s, s')
    ensures Shaped(s', TreeStep(s, g)) && Digit(s', TreeStep(s, g), n)
  {
    hide Covers, InOrder, TreeStep, NextBuffers, EntersS5, EnteringLevel, Entering, Merging;
    StepAt(s, g, n);
    StepAt(s, g, n + 1);
    BufferAt(s, g, n);
    EntersAbove(s, n);
    assert Digit(s, g, n) && InOrder(s, g, n);
    OlderArrivals(s, g, n);
    CreatedGrows(s, g, n);
  }

  /** The token in s8 is the next of its level to arrive. */
  lemma OlderArrivals(s: Slot, g: Tree, n: nat)
    requires Shaped(s, g) && 1 <= n < 12 && InOrder(s, g, n)
    ensures g.arrived[n] + One(s.v.v8 && s.n.n8 == n) <= |g.created[n]|
    ensures s.v.v8 && s.n.n8 == n ==> g.t8 == g.created[n][g.arrived[n]]
  {
  }

  lemma CreatedGrows(s: Slot, g: Tree, n: nat)
    requires Shaped(s, g) && LevelsMatchStages(s) && s.n.n8 < 12 && 1 <= n < 12
    ensures g.created[n] <= TreeStep(s, g).created[n]
  {
    hide Entering, Merging;
  }
}

/**
 Which runs finish, on slots and on the clock: with both counters above one and a second
 row on its way, the s2 and s4 stalls block each other for good.
 */
module ControlDeadlock {
  import opened ControlRegisters
  import opened ControlSlots
  import opened ReductionTree
  import opened FrontEnd
  import opened ControlRuns
  import opened ControlProgress
  import opened Powers
  import HostConfig

  /** Configurations that accumulate several tiles a row and extract several coefficients from it. */
  predicate BothAboveOne(c: Config) {
    1 <= c.level <= 12 && 2 <= c.split <= 4 && 2 <= c.index <= 4096
  }

  /** Both stalls at once: each one suppresses the pulse that would move the other's counter. */
  lemma StallsStick(c: Config, s: Slot, s0AllDone: bool)
    requires StallForS2(s) && StallForS4(c, s) && !s.writeUram
    ensures var s' := Tick(c, s, s0AllDone);
      && StallForS2(s') && StallForS4(c, s') && !s'.writeUram
      && s'.s2Cnt == s.s2Cnt && s'.s4Cnt == s.s4Cnt
    ensures var f := Fires(c, s, s0AllDone); !f.s0 && !f.s1 && !f.wrUram && !f.s2 && !f.s3 && !f.s4
  {
    hide AfterS2Start, AfterS4Start, Merging;
  }

  /** The slot and what has been fetched. */
  datatype Line = Line(s: Slot, f: Front)

  /** k slot boundaries after a start pulse; the reader reports the end exactly when it has fetched all. */
  function Fed(c: Config, rows: nat, k: nat): Line {
    if k == 0 then Line(START, EMPTY_FRONT) else FedStep(c, rows, Fed(c, rows, k - 1))
  }

  function FedStep(c: Config, rows: nat, x: Line): Line {
    var allDone := x.f.fetched == Total(c, rows);
    Line(Tick(c, x.s, allDone), FrontStep(c, x.s, x.f, allDone))
  }

  predicate BackEmpty(s: Slot) {
    && !s.v.v4 && !s.v.v5 && !s.v.v6 && !s.v.v7 && !s.v.v8 && !s.v.v9 && s.n == NO_LEVEL
    && s.rb == EMPTY_BUFFERS && !s.trace && s.s4Cnt == 0
  }

  /** The vector is on its way to URAM: k boundaries after the start. */
  predicate Filling(s: Slot, k: nat) {
    && BackEmpty(s) && s.v.v0 == (k >= 1) && s.v.v1 == (k >= 2) && s.v.v2 == (k >= 3) && !s.v.v3
    && s.writeUram && s.uramCnt == (if k < 3 then 0 else k - 3) && s.s2Cnt == 0
  }

  /** m tiles of the first row have been multiplied. */
  predicate Multiplied(c: Config, s: Slot, m: nat) {
    && BackEmpty(s) && s.v.v0 && s.v.v1 && s.v.v2 && !s.v.v3 && !s.writeUram
    && s.s2Cnt == if m == c.split then 0 else m
  }

  lemma NextFetch(c: Config, s: Slot, f: Front, k: nat)
    requires BothAboveOne(c)
    requires
      || (Filling(s, k) && k <= c.split + 2)
      || (c.split + 2 < k < 2 * c.split + 2 && Multiplied(c, s, k - c.split - 2))
    ensures FrontStep(c, s, f, false).fetched == f.fetched + 1
    ensures var s' := Tick(c, s, false);
      if k < c.split + 2 then Filling(s', k + 1) else Multiplied(c, s', k - c.split - 1)
  {
  }

  lemma TotalAtLeast(c: Config, rows: nat)
    requires rows >= 2
    ensures Total(c, rows) >= 3 * c.split
  {
    assert rows * c.split == 2 * c.split + (rows - 2) * c.split;
  }

  /** Up to the end of the first row nothing stalls and nothing is extracted. */
  lemma {:induction false} FirstRow(c: Config, rows: nat, k: nat)
    requires BothAboveOne(c) && rows >= 2 && k <= 2 * c.split + 2
    ensures var x := Fed(c, rows, k);
      && x.f.fetched == k
      && if k <= c.split + 2 then Filling(x.s, k) else Multiplied(c, x.s, k - c.split - 2)
  {
    hide Filling, Multiplied, FrontStep, Tick, Total;
    if k > 0 {
      FirstRow(c, rows, k - 1);
      TotalAtLeast(c, rows);
      NextFetch(c, Fed(c, rows, k - 1).s, Fed(c, rows, k - 1).f, k - 1);
    } else {
      assert Filling(START, 0) by { BufferCount(START); }
    }
  }

  lemma BufferCount(s: Slot)
    requires s == START
    ensures Filling(s, 0)
  {
  }

  /** Both stalls hold, and no boundary changes anything or starts a stage. */
  ghost predicate Stuck(c: Config, s: Slot) {
    && StallForS2(s) && StallForS4(c, s) && BackEmpty(s)
    && forall b :: Tick(c, s, b) == s && Fires(c, s, b) == NO_START
  }

  lemma FirstRowDone(c: Config, s: Slot, s0AllDone: bool)
    requires BothAboveOne(c) && Multiplied(c, s, c.split)
    ensures Stuck(c, Tick(c, s, s0AllDone))
  {
  }

  /**
   Every feed of two rows or more is stuck 2 * split + 3 boundaries after the start,
   before any result has been extracted, and done never comes.
   */
  lemma {:induction false} Deadlock(c: Config, rows: nat, k: nat)
    requires BothAboveOne(c) && rows >= 2 && k >= 2 * c.split + 3
    ensures Stuck(c, Fed(c, rows, k).s) && Fed(c, rows, k).s == Fed(c, rows, 2 * c.split + 3).s
  {
    hide Tick, Fires, Multiplied, Total, StallForS2, StallForS4, FrontStep, BackEmpty;
    if k > 2 * c.split + 3 {
      Deadlock(c, rows, k - 1);
      assert Tick(c, Fed(c, rows, k - 1).s, Fed(c, rows, k - 1).f.fetched == Total(c, rows)) == Fed(c, rows, k - 1).s;
    } else {
      FirstRow(c, rows, 2 * c.split + 2);
      var x := Fed(c, rows, 2 * c.split + 2);
      FirstRowDone(c, x.s, x.f.fetched == Total(c, rows));
    }
  }

  /** The gap-free feed of ControlProgress, seen from here. */
  lemma {:induction false} FedReaches(c: Config, rows: nat, j: nat, x: SlotState, y: SlotState, k: nat)
    requires Line(x.s, x.h.front) == Fed(c, rows, j) && Reaches(c, rows, x, y, k)
    ensures Line(y.s, y.h.front) == Fed(c, rows, j + k)
    decreases k
  {
    hide Tick, FrontStep, TreeStep, Total;
    if k > 0 {
      FedReaches(c, rows, j + 1, GapFreeTick(c, rows, x), y, k - 1);
    }
  }

  /** Once all is fetched, boundaries follow one another without a fetch. */
  lemma {:induction false} FedAfter(c: Config, rows: nat, j: nat, m: nat)
    requires Fed(c, rows, j).f.fetched == Total(c, rows)
    ensures Fed(c, rows, j + m).s == After(c, Fed(c, rows, j).s, m)
    ensures Fed(c, rows, j + m).f.fetched == Total(c, rows)
  {
    hide Tick, Total, FrontStep, After;
    if m > 0 {
      FedAfter(c, rows, j, m - 1);
      AfterStep(c, Fed(c, rows, j).s, m - 1);
      NoFetch(c, Fed(c, rows, j + m - 1).s, Fed(c, rows, j + m - 1).f);
    } else {
      assert After(c, Fed(c, rows, j).s, 0) == Fed(c, rows, j).s by { NoBoundary(c, Fed(c, rows, j).s); }
    }
  }

  lemma NoBoundary(c: Config, s: Slot)
    ensures After(c, s, 0) == s
  {
  }

  lemma AfterStep(c: Config, s: Slot, m: nat)
    ensures After(c, s, m + 1) == Tick(c, After(c, s, m), true)
  {
  }

  lemma NoFetch(c: Config, s: Slot, f: Front)
    ensures FrontStep(c, s, f, true).fetched == f.fetched
  {
    hide AfterS2Start, AfterS4Start, CoeffIndex, IdxSplit;
  }

  /** From the arrival of the top token in s8 on: nothing is left to fetch, and the last token follows. */
  lemma ArrivalFinishes(c: Config, rows: nat, s: Slot, h: History) returns (m: nat)
    requires FeedMatches(c, rows) && Reducing(c, rows, s, h) && s.n.n8 == c.level
    ensures h.front.fetched == Total(c, rows) && LastToken(c, After(c, s, m))
  {
    hide Reducing, LastToken, After, Total;
    ArrivalCompletes(c, rows, s, h);
    if c.skipTrace {
      m := 1;
      SkipTiming(c, rows, s, h);
    } else {
      m := 4 * (12 - c.level) + 1;
      TraceTiming(c, rows, s, h);
    }
  }

  lemma Finishes(c: Config, rows: nat) returns (k: nat)
    requires FeedMatches(c, rows) && Unblocked(c, rows)
    ensures LastToken(c, Fed(c, rows, k).s)
  {
    hide FeedMatches, Unblocked, Reducing, LastToken, Tick, FrontStep, After, Total, PerLevel, Reaches;
    var x := SlotState(START, History(EMPTY_FRONT, EMPTY_TREE));
    ReducingStart(c, rows);
    var y, j := TopTokenArrives(c, rows, x);
    assert Line(x.s, x.h.front) == Fed(c, rows, 0);
    FedReaches(c, rows, 0, x, y, j);
    var m := ArrivalFinishes(c, rows, y.s, y.h);
    FedAfter(c, rows, j, m);
    k := j + m;
  }

  /** The run finishes exactly when a row is one tile, or one extraction, or the only row. */
  lemma FinishesExactlyWhen(c: Config, rows: nat)
    requires 1 <= c.level <= 12 && 1 <= c.split <= 4 && 1 <= c.index <= 4096
    requires rows * c.index == Pow2(c.level - 1)
    ensures (exists k :: LastToken(c, Fed(c, rows, k).s)) <==> c.split == 1 || c.index == 1 || rows == 1
  {
    assert rows >= 1;
    if Unblocked(c, rows) {
      var k := Finishes(c, rows);
    } else {
      forall k: nat
        ensures !LastToken(c, Fed(c, rows, k).s)
      {
        if k <= 2 * c.split + 2 {
          FirstRow(c, rows, k);
        } else {
          Deadlock(c, rows, k);
        }
      }
    }
  }

  // ---------------------------------------------------------------------------
  // Clock by clock

  /** Until done: no second start, and the reader reports the end exactly when it has fetched all. */
  ghost predicate GapFree(c: Config, rows: nat, m: Machine, ins: seq<Inputs>)
    decreases |ins|
  {
    ins == [] || m.r.idle ||
    (!ins[0].start && (AllStageDone(m.r, ins[0]) ==> (ins[0].s0AllDone <==> m.h.front.fetched == Total(c, rows))) &&
     GapFree(c, rows, MachineClock(c, m, ins[0]), ins[1..]))
  }

  /** How many edges are slot boundaries. */
  function Boundaries(c: Config, m: Machine, ins: seq<Inputs>): nat
    decreases |ins|
  {
    if ins == [] then 0
    else (if AllStageDone(m.r, ins[0]) then 1 else 0) + Boundaries(c, MachineClock(c, m, ins[0]), ins[1..])
  }

  /** The machine when done is raised, or after the last edge. */
  function RunToDone(c: Config, m: Machine, ins: seq<Inputs>): Machine
    decreases |ins|
  {
    if ins == [] || m.r.idle then m else RunToDone(c, MachineClock(c, m, ins[0]), ins[1..])
  }

  /** Such runs exist from everywhere, with any number of boundaries: let every stage report done at once. */
  lemma {:induction false} SomeGapFree(c: Config, rows: nat, m: Machine, n: nat) returns (ins: seq<Inputs>)
    requires ValidConfig(c) && Sane(c, m.r)
    ensures GapFree(c, rows, m, ins) && Boundaries(c, m, ins) >= n
    decreases n, 3 - m.r.delay
  {
    hide MachineClock, Sane, AllStageDone, Total;
    if n == 0 {
      ins := [];
    } else {
      var i := AtOnce(m.h.front.fetched == Total(c, rows));
      AtOnceSteps(c, m, i);
      var rest := SomeGapFree(c, rows, MachineClock(c, m, i), if AllStageDone(m.r, i) then n - 1 else n);
      ins := [i] + rest;
      assert ins[0] == i && ins[1..] == rest;
    }
  }

  function AtOnce(s0AllDone: bool): Inputs {
    Inputs(false, true, true, s0AllDone, true, true, true, true, true, true, true, true, true)
  }

  lemma AtOnceSteps(c: Config, m: Machine, i: Inputs)
    requires ValidConfig(c) && Sane(c, m.r) && i == AtOnce(i.s0AllDone)
    ensures Sane(c, MachineClock(c, m, i).r) && m.r.delay <= 3 && MachineClock(c, m, i).r.delay <= 3
    ensures !AllStageDone(m.r, i) ==> MachineClock(c, m, i).r.delay == m.r.delay + 1
  {
    hide Settle, HistoryClock;
    ClockRefinesSlots(c, m.r, i);
  }

  lemma PhaseIsShaped(c: Config, rows: nat, s: Slot, h: History)
    requires Phase(c, rows, s, h)
    ensures Shaped(s, h.tree)
  {
    hide FrontInv, Complete, Weight, InTrace, Ended;
    if Reducing(c, rows, s, h) {
      ShapeOf(s, h.tree);
    }
  }

  ghost predicate At(c: Config, rows: nat, m: Machine, j: nat) {
    Line(Settle(c, m.r), m.h.front) == Fed(c, rows, j)
  }

  /** An edge is the next boundary of the feed or none, and the boundary that shows the last token raises done. */
  lemma ClockIsFed(c: Config, rows: nat, m: Machine, i: Inputs, j: nat)
    requires FeedMatches(c, rows) && RunInv(c, rows, m) && At(c, rows, m, j) && !i.start && !m.r.idle
    requires AllStageDone(m.r, i) ==> (i.s0AllDone <==> m.h.front.fetched == Total(c, rows))
    ensures var m', tick := MachineClock(c, m, i), AllStageDone(m.r, i);
      && RunInv(c, rows, m') && At(c, rows, m', if tick then j + 1 else j)
      && m'.r.idle == (tick && LastToken(c, Fed(c, rows, j).s))
  {
    hide Phase, Tick, FrontStep, TreeStep, Clock, Settle, LastToken, Total, Complete;
    ClockKeeps(c, rows, m, i);
    ClockRefinesSlots(c, m.r, i);
    DoneAtBoundary(c, m.r, i);
    PhaseIsShaped(c, rows, Settle(c, m.r), m.h);
  }

  /** Once the boundary of the last token is passed the run is over. */
  lemma {:induction false} RunEnds(c: Config, rows: nat, m: Machine, ins: seq<Inputs>, j: nat, k: nat)
    requires FeedMatches(c, rows) && RunInv(c, rows, m) && GapFree(c, rows, m, ins) && (m.r.idle || At(c, rows, m, j))
    requires j <= k && LastToken(c, Fed(c, rows, k).s) && (m.r.idle || j + Boundaries(c, m, ins) > k)
    ensures RunToDone(c, m, ins).r.idle && Complete(c, rows, RunToDone(c, m, ins).h)
    decreases |ins|
  {
    hide FeedMatches, MachineClock, AllStageDone, LastToken, Fed, At, Complete, Phase, Settle, Sane;
    if !m.r.idle {
      ClockIsFed(c, rows, m, ins[0], j);
      var next := if AllStageDone(m.r, ins[0]) then j + 1 else j;
      RunEnds(c, rows, MachineClock(c, m, ins[0]), ins[1..], if next <= k then next else k, k);
    }
  }

  /** A feed that never shows the last token never raises done. */
  lemma {:induction false} NeverDone(c: Config, rows: nat, m: Machine, ins: seq<Inputs>, j: nat)
    requires FeedMatches(c, rows) && RunInv(c, rows, m) && At(c, rows, m, j) && GapFree(c, rows, m, ins)
    requires !m.r.idle && forall k: nat :: !LastToken(c, Fed(c, rows, k).s)
    ensures !RunToDone(c, m, ins).r.idle
    decreases |ins|
  {
    hide FeedMatches, MachineClock, AllStageDone, LastToken, Fed, At, RunInv;
    if ins != [] {
      ClockIsFed(c, rows, m, ins[0], j);
      NeverDone(c, rows, MachineClock(c, m, ins[0]), ins[1..], if AllStageDone(m.r, ins[0]) then j + 1 else j);
    }
  }

  /** The machine right after a start pulse. */
  function Started(c: Config, r: Regs, i: Inputs): Machine {
    Machine(Clock(c, r, i), History(EMPTY_FRONT, EMPTY_TREE))
  }

  lemma StartedAt(c: Config, rows: nat, r: Regs, i: Inputs)
    requires FeedMatches(c, rows) && Sane(c, r) && i.start
    ensures RunInv(c, rows, Started(c, r, i)) && At(c, rows, Started(c, r, i), 0) && !Started(c, r, i).r.idle
  {
    hide RunInv, Clock, Settle;
    StartBegins(c, rows, r, i);
    ClockRefinesSlots(c, r, i);
  }

  /** Every gap-free run of more than k boundaries after the start pulse i raises done with the whole job complete. */
  ghost predicate DoneWithin(c: Config, rows: nat, r: Regs, i: Inputs, k: nat)
    requires ValidConfig(c)
  {
    forall ins | GapFree(c, rows, Started(c, r, i), ins) && Boundaries(c, Started(c, r, i), ins) > k ::
      RunToDone(c, Started(c, r, i), ins).r.idle && Complete(c, rows, RunToDone(c, Started(c, r, i), ins).h)
  }

  lemma ClockFinishes(c: Config, rows: nat, r: Regs, i: Inputs) returns (k: nat)
    requires FeedMatches(c, rows) && Unblocked(c, rows) && Sane(c, r) && i.start
    ensures DoneWithin(c, rows, r, i, k)
  {
    hide Unblocked, Sane, Started, RunInv, At, Fed, LastToken, Complete;
    k := Finishes(c, rows);
    StartedAt(c, rows, r, i);
    forall ins | GapFree(c, rows, Started(c, r, i), ins) && Boundaries(c, Started(c, r, i), ins) > k
      ensures RunToDone(c, Started(c, r, i), ins).r.idle && Complete(c, rows, RunToDone(c, Started(c, r, i), ins).h)
    {
      RunEnds(c, rows, Started(c, r, i), ins, 0, k);
    }
  }

  /** A blocked one never raises done, however long the run. */
  lemma ClockNeverDone(c: Config, rows: nat, r: Regs, i: Inputs, ins: seq<Inputs>)
    requires FeedMatches(c, rows) && !Unblocked(c, rows) && Sane(c, r) && i.start
    requires GapFree(c, rows, Started(c, r, i), ins)
    ensures !RunToDone(c, Started(c, r, i), ins).r.idle
  {
    hide Sane, Started, RunInv, At, Fed, LastToken;
    FinishesExactlyWhen(c, rows);
    StartedAt(c, rows, r, i);
    NeverDone(c, rows, Started(c, r, i), ins, 0);
  }

  /**
   Started in any state a clocked controller can be in, whatever the stages' timing: gap-free
   runs raise done, within a fixed number of slot boundaries and with the whole job complete,
   if and only if a row is one tile, or one extraction, or the only row.
   */
  lemma DoneExactlyWhen(c: Config, rows: nat, r: Regs, i: Inputs)
    requires FeedMatches(c, rows) && Sane(c, r) && i.start
    ensures (exists k :: DoneWithin(c, rows, r, i, k)) <==> c.split == 1 || c.index == 1 || rows == 1
  {
    hide DoneWithin, Sane, Started;
    SomeRow(rows, c.index);
    if Unblocked(c, rows) {
      var k := ClockFinishes(c, rows, r, i);
    } else {
      forall k: nat
        ensures !DoneWithin(c, rows, r, i, k)
      {
        NotWithin(c, rows, r, i, k);
      }
    }
  }

  lemma NotWithin(c: Config, rows: nat, r: Regs, i: Inputs, k: nat)
    requires FeedMatches(c, rows) && !Unblocked(c, rows) && Sane(c, r) && i.start
    ensures !DoneWithin(c, rows, r, i, k)
  {
    hide Sane, Started, Unblocked, Complete, GapFree, Boundaries, RunToDone, Phase, At;
    StartedAt(c, rows, r, i);
    InvIsSane(c, rows, Started(c, r, i));
    var ins := SomeGapFree(c, rows, Started(c, r, i), k + 1);
    ClockNeverDone(c, rows, r, i, ins);
  }

  lemma InvIsSane(c: Config, rows: nat, m: Machine)
    requires ValidConfig(c) && RunInv(c, rows, m)
    ensures Sane(c, m.r)
  {
    hide Phase, Complete, Sane;
  }

  /** The accelerator's own checks let such configurations through; the host never asks for one. */
  lemma ChecksAdmitIt()
    ensures exists p ::
      !HostConfig.ConfigError(p) && BothAboveOne(HostConfig.ToConfig(p)) && HostConfig.RowsPerRun(p) >= 2
  {
    var p := HostConfig.Params(3, 1024, 2, 2, 8);
    HostConfig.Pow2Twelve();
    assert !HostConfig.ConfigError(p);
  }
}

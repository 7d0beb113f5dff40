/**
 The pipeline controller of src/control.v: its registers, what one clock edge does
 to them, and its start, done and index outputs.
 */
module ControlRegisters {

  /** The configuration inputs, held constant while a run lasts. */
  datatype Config = Config(level: nat, colSize: nat, split: nat, index: nat, skipTrace: bool)

  /** What the datapath reports in one clock cycle; start is i_command[0] & i_mvp_start. */
  datatype Inputs = Inputs(
    start: bool, wrUramDone: bool, s0Done: bool, s0AllDone: bool, s1Done: bool, s2Done: bool, s3Done: bool,
    s4Done: bool, s5Done: bool, s6Done: bool, s7Done: bool, s8Done: bool, s9Done: bool)

  /** mvp_status_r. */
  datatype Stages = Stages(v0: bool, v1: bool, v2: bool, v3: bool, v4: bool,
                           v5: bool, v6: bool, v7: bool, v8: bool, v9: bool)

  /** n_s5_r .. n_s9_r. */
  datatype Levels = Levels(n5: nat, n6: nat, n7: nat, n8: nat, n9: nat)

  /** The registers that decide what the next slot does. */
  datatype Slot = Slot(v: Stages, n: Levels, rb: seq<bool>, s2Cnt: nat, s4Cnt: nat,
                       writeUram: bool, uramCnt: nat, trace: bool)

  /** The stall decision of the last slot boundary, which gates the start pulses of this slot. */
  datatype Stalls = Stalls(stall: bool, s2: bool, s4: bool, s0s1s2: bool, s3s4: bool)

  datatype Regs = Regs(slot: Slot, stalls: Stalls, idle: bool, stageCnt: nat, delay: nat, pulse: bool)

  const NO_STAGE := Stages(false, false, false, false, false, false, false, false, false, false)
  const NO_LEVEL := Levels(0, 0, 0, 0, 0)
  const NO_STALL := Stalls(false, false, false, false, false)
  const EMPTY_BUFFERS := [false, false, false, false, false, false, false, false, false, false, false, false]

  /** The register values out of reset. */
  const RESET := Regs(Slot(NO_STAGE, NO_LEVEL, EMPTY_BUFFERS, 0, 0, false, 0, false), NO_STALL, true, 0, 0, false)

  /** i_split[2:0] - 1 and i_index[11:0] - 1, in their widths. */
  function LastSplit(c: Config): nat { (c.split % 8 + 7) % 8 }

  function LastIndex(c: Config): nat { (c.index % 4096 + 4095) % 4096 }

  /** stall_nxt: the buffer of the level that arrives from s8 is occupied. */
  predicate Merging(s: Slot) {
    s.n.n8 < 12 && s.n.n8 < |s.rb| && s.rb[s.n.n8]
  }

  predicate StallForS2(s: Slot) { s.s2Cnt != 0 && s.v.v2 }

  predicate StallForS4(c: Config, s: Slot) { s.s4Cnt != c.index - 1 && s.v.v3 }

  predicate AllStageDone(r: Regs, i: Inputs) {
    var v := r.slot.v;
    && (i.s0Done || !v.v0) && (i.s1Done || !v.v1) && (i.s2Done || !v.v2) && (i.wrUramDone || !v.v2)
    && (i.s3Done || !v.v3) && (i.s4Done || !v.v4) && (i.s5Done || !v.v5) && (i.s6Done || !v.v6)
    && (i.s7Done || !v.v7) && (i.s8Done || !v.v8) && (i.s9Done || !v.v9) && r.delay == 3
  }

  /** The stall registers as a slot boundary loads them. */
  function NextStalls(c: Config, s: Slot): Stalls {
    Stalls(Merging(s), StallForS2(s), StallForS4(c, s),
           Merging(s) && s.v.v4 && !StallForS2(s), Merging(s) && s.v.v4)
  }

  /** mvp_status_nxt. */
  function NextStages(c: Config, s: Slot, s0AllDone: bool): Stages {
    var v, stall, s2, s4 := s.v, Merging(s), StallForS2(s), StallForS4(c, s);
    var hold012 := (stall && v.v4 && !s2) || s4;
    Stages(
      if hold012 then v.v0 else !s0AllDone,
      if hold012 then v.v1 else v.v0,
      if hold012 then v.v2 else v.v1,
      if (stall && v.v4) || s4 || s2 then v.v3 else v.v2 && !s.writeUram,
      if (stall && v.v4) || s2 then (if !stall then false else v.v4) else v.v3,
      (if s.trace then v.v8 else v.v4 || stall) && s.n.n8 < 12,
      v.v5, v.v6, v.v7, v.v8)
  }

  function NextLevels(c: Config, s: Slot, s0AllDone: bool): Levels {
    Levels(
      if !NextStages(c, s, s0AllDone).v5 then 0
      else if Merging(s) || s.trace then (s.n.n8 + 1) % 16 else 1,
      s.n.n5, s.n.n6, s.n.n7, s.n.n8)
  }

  function NextBuffers(s: Slot): seq<bool> {
    if Merging(s) then s.rb[s.n.n8 := false]
    else if s.v.v8 && s.n.n8 != 0 && s.n.n8 < |s.rb| then s.rb[s.n.n8 := true]
    else s.rb
  }

  // Output pulses, one clock cycle long at the start of a slot

  predicate S0Start(r: Regs) { r.pulse && r.slot.v.v0 && !r.stalls.s0s1s2 && !r.stalls.s4 }

  predicate S1Start(r: Regs) { r.pulse && r.slot.v.v1 && !r.stalls.s0s1s2 && !r.stalls.s4 && !r.idle }

  predicate S2Start(r: Regs) {
    r.pulse && r.slot.v.v2 && !r.stalls.s0s1s2 && !r.stalls.s4 && !r.slot.writeUram
  }

  predicate WrUramStart(r: Regs) { r.pulse && r.slot.v.v2 && r.slot.writeUram }

  predicate S3Start(r: Regs) {
    r.pulse && r.slot.v.v3 && !r.stalls.s3s4 && !r.stalls.s4 && !r.stalls.s2
  }

  predicate S4Start(r: Regs) { r.pulse && r.slot.v.v4 && !r.stalls.s3s4 && !r.stalls.s2 }

  predicate S5Start(r: Regs) { r.pulse && r.slot.v.v5 }

  predicate S6Start(r: Regs) { r.pulse && r.slot.v.v6 }

  predicate S7Start(r: Regs) { r.pulse && r.slot.v.v7 }

  predicate S8Start(r: Regs) { r.pulse && r.slot.v.v8 }

  predicate S9Start(r: Regs) { r.pulse && r.slot.v.v9 }

  /** The level token leaves s9: level 12, or the reduce level when the trace is skipped. */
  predicate LastToken(c: Config, s: Slot) {
    (s.n.n9 == 12 || (c.skipTrace && s.n.n9 == c.level)) && s.v.v9
  }

  /** o_mvp_done. */
  predicate Done(c: Config, r: Regs, i: Inputs) { LastToken(c, r.slot) && AllStageDone(r, i) }

  /** o_coeff_index, 12 bits. */
  function CoeffIndex(c: Config, s: Slot): nat {
    if c.index > 1 then
      ((if s.s4Cnt == 0 then c.index * c.colSize - 1 else s.s4Cnt * c.colSize - 1) + 4096) % 4096
    else if c.split % 8 == 1 then (c.colSize + 4095) % 4096
    else 4095
  }

  /** o_idx_split. */
  function IdxSplit(c: Config, s: Slot): nat {
    if s.writeUram then s.uramCnt else if s.s2Cnt == 0 then LastSplit(c) else s.s2Cnt - 1
  }

  function AfterS2Start(c: Config, cnt: nat): nat {
    if cnt == LastSplit(c) then 0 else (cnt + 1) % 4
  }

  function AfterS4Start(c: Config, cnt: nat): nat {
    if cnt == LastIndex(c) then 0 else (cnt + 1) % 4096
  }

  // The registers after a clock edge, one always block each

  function IdleNext(c: Config, r: Regs, i: Inputs): bool {
    if i.start then false else if Done(c, r, i) then true else r.idle
  }

  function StageCntNext(r: Regs, i: Inputs): nat {
    if i.start then 0 else if r.pulse then (r.stageCnt + 1) % 0x1_0000 else r.stageCnt
  }

  function DelayNext(r: Regs, i: Inputs): nat {
    if AllStageDone(r, i) then 0 else if r.delay < 3 then r.delay + 1 else r.delay
  }

  function StallsNext(c: Config, r: Regs, i: Inputs): Stalls {
    if AllStageDone(r, i) then NextStalls(c, r.slot) else r.stalls
  }

  function TraceNext(c: Config, r: Regs, i: Inputs): bool {
    if i.start then false else if r.slot.n.n8 == c.level && !c.skipTrace then true else r.slot.trace
  }

  function S2CntNext(c: Config, r: Regs, i: Inputs): nat {
    if i.start then 0 else if S2Start(r) then AfterS2Start(c, r.slot.s2Cnt) else r.slot.s2Cnt
  }

  function S4CntNext(c: Config, r: Regs, i: Inputs): nat {
    if i.start then 0 else if S4Start(r) then AfterS4Start(c, r.slot.s4Cnt) else r.slot.s4Cnt
  }

  /** A vector ciphertext has been written to URAM. */
  predicate UramStep(r: Regs, i: Inputs) { i.wrUramDone && r.slot.v.v2 && AllStageDone(r, i) }

  function WriteUramNext(c: Config, r: Regs, i: Inputs): bool {
    if i.start then true else if r.slot.uramCnt == LastSplit(c) && UramStep(r, i) then false else r.slot.writeUram
  }

  function UramCntNext(c: Config, r: Regs, i: Inputs): nat {
    var cnt := r.slot.uramCnt;
    if i.start then 0
    else if r.slot.writeUram && UramStep(r, i) then (if cnt == LastSplit(c) then 0 else (cnt + 1) % 4)
    else cnt
  }

  function StagesNext(c: Config, r: Regs, i: Inputs): Stages {
    if i.start then NO_STAGE else if AllStageDone(r, i) then NextStages(c, r.slot, i.s0AllDone) else r.slot.v
  }

  function LevelsNext(c: Config, r: Regs, i: Inputs): Levels {
    if i.start then NO_LEVEL else if AllStageDone(r, i) then NextLevels(c, r.slot, i.s0AllDone) else r.slot.n
  }

  function BuffersNext(r: Regs, i: Inputs): seq<bool> {
    if i.start then EMPTY_BUFFERS else if AllStageDone(r, i) then NextBuffers(r.slot) else r.slot.rb
  }

  /** One clock edge. */
  function Clock(c: Config, r: Regs, i: Inputs): Regs {
    Regs(
      Slot(StagesNext(c, r, i), LevelsNext(c, r, i), BuffersNext(r, i), S2CntNext(c, r, i), S4CntNext(c, r, i),
           WriteUramNext(c, r, i), UramCntNext(c, r, i), TraceNext(c, r, i)),
      StallsNext(c, r, i), IdleNext(c, r, i), StageCntNext(r, i), DelayNext(r, i), AllStageDone(r, i) && !r.idle)
  }

  // ---------------------------------------------------------------------------
  // When a slot ends

  /** Every stage that runs reports done; s2 also waits for the write to URAM. */
  predicate RunningDone(v: Stages, i: Inputs) {
    && (v.v0 ==> i.s0Done) && (v.v1 ==> i.s1Done) && (v.v2 ==> i.s2Done) && (v.v2 ==> i.wrUramDone)
    && (v.v3 ==> i.s3Done) && (v.v4 ==> i.s4Done) && (v.v5 ==> i.s5Done) && (v.v6 ==> i.s6Done)
    && (v.v7 ==> i.s7Done) && (v.v8 ==> i.s8Done) && (v.v9 ==> i.s9Done)
  }

  /** No pulse is given and no stage or level register moves while a running stage has not reported done. */
  lemma BoundaryWaits(c: Config, r: Regs, i: Inputs)
    ensures var q, v := Clock(c, r, i), r.slot.v;
      q.pulse || (!i.start && (q.slot.v != v || q.slot.n != r.slot.n || q.slot.rb != r.slot.rb)) ==>
        && (v.v0 ==> i.s0Done) && (v.v1 ==> i.s1Done) && (v.v2 ==> i.s2Done && i.wrUramDone)
        && (v.v3 ==> i.s3Done) && (v.v4 ==> i.s4Done) && (v.v5 ==> i.s5Done) && (v.v6 ==> i.s6Done)
        && (v.v7 ==> i.s7Done) && (v.v8 ==> i.s8Done) && (v.v9 ==> i.s9Done)
        && r.delay == 3
    ensures Clock(c, r, i).pulse ==> Clock(c, r, i).delay == 0 && !r.idle
  {
    hide NextStages, NextLevels, NextBuffers, NextStalls, S2CntNext, S4CntNext, WriteUramNext, UramCntNext, TraceNext,
         IdleNext, StageCntNext;
  }

  /** Once every running stage has reported done, the edge after the delay is a boundary; before it the delay counts. */
  lemma BoundaryAt(c: Config, r: Regs, i: Inputs)
    requires r.delay <= 3
    ensures var q := Clock(c, r, i);
      && (RunningDone(r.slot.v, i) && r.delay == 3 && !r.idle ==> q.pulse)
      && (r.delay < 3 ==> !q.pulse && q.delay == r.delay + 1 && (!i.start ==> q.slot.v == r.slot.v && q.idle == r.idle))
      && q.delay <= 3
  {
    hide NextStages, NextLevels, NextBuffers, NextStalls, S2CntNext, S4CntNext, WriteUramNext, UramCntNext, TraceNext,
         StageCntNext, LastToken;
  }

  function RunClock(c: Config, r: Regs, ins: seq<Inputs>): Regs
    decreases |ins|
  {
    if ins == [] then r else RunClock(c, Clock(c, r, ins[0]), ins[1..])
  }

  /** Running stages that hold done get their next pulse after exactly 4 - delay edges. */
  lemma {:induction false} BoundaryFollows(c: Config, r: Regs, ins: seq<Inputs>)
    requires r.delay <= 3 && !r.idle && |ins| == 4 - r.delay
    requires forall k | 0 <= k < |ins| :: !ins[k].start && RunningDone(r.slot.v, ins[k])
    ensures RunClock(c, r, ins).pulse
    ensures forall k | 1 <= k < |ins| :: !RunClock(c, r, ins[..k]).pulse
    decreases |ins|
  {
    hide Clock, RunningDone;
    BoundaryAt(c, r, ins[0]);
    var q := Clock(c, r, ins[0]);
    if r.delay < 3 {
      BoundaryFollows(c, q, ins[1..]);
      forall k | 1 <= k < |ins|
        ensures !RunClock(c, r, ins[..k]).pulse
      {
        assert ins[..k][0] == ins[0] && ins[..k][1..] == ins[1..][..k - 1];
        if k > 1 {
          assert !RunClock(c, q, ins[1..][..k - 1]).pulse;
        }
      }
    } else {
      assert ins[1..] == [];
    }
  }

  /** Whatever is reported, no pulse comes sooner than the delay allows: two boundaries are four edges apart. */
  lemma {:induction false} BoundarySpacing(c: Config, r: Regs, ins: seq<Inputs>)
    requires 1 <= |ins| && |ins| + r.delay <= 3
    ensures !RunClock(c, r, ins).pulse && RunClock(c, r, ins).delay == r.delay + |ins|
    decreases |ins|
  {
    hide Clock;
    BoundaryAt(c, r, ins[0]);
    if |ins| > 1 {
      BoundarySpacing(c, Clock(c, r, ins[0]), ins[1..]);
    } else {
      assert ins[1..] == [];
    }
  }

  function PulseCount(c: Config, r: Regs, ins: seq<Inputs>): nat
    decreases |ins|
  {
    if ins == [] then 0
    else var q := Clock(c, r, ins[0]); (if q.pulse then 1 else 0) + PulseCount(c, q, ins[1..])
  }

  /** o_stage_cnt counts the pulses since the start, on 16 bits and one edge late. */
  lemma {:induction false} StagesCounted(c: Config, r: Regs, ins: seq<Inputs>)
    requires forall k | 0 <= k < |ins| :: !ins[k].start
    ensures var q := RunClock(c, r, ins);
      (q.stageCnt + Late(q)) % 0x1_0000 == (r.stageCnt + Late(r) + PulseCount(c, r, ins)) % 0x1_0000
    decreases |ins|
  {
    hide Clock;
    if ins != [] {
      var q := Clock(c, r, ins[0]);
      StagesCounted(c, q, ins[1..]);
      StageCounted(c, r, ins[0]);
      WrapsAgree(q.stageCnt, r.stageCnt + Late(r), Late(q) + PulseCount(c, q, ins[1..]));
    }
  }

  /** A pulse that is still to be counted. */
  function Late(r: Regs): nat { if r.pulse then 1 else 0 }

  lemma StageCounted(c: Config, r: Regs, i: Inputs)
    requires !i.start
    ensures Clock(c, r, i).stageCnt % 0x1_0000 == (r.stageCnt + Late(r)) % 0x1_0000
  {
  }

  lemma WrapsAgree(a: int, b: int, k: int)
    requires a % 0x1_0000 == b % 0x1_0000
    ensures (a + k) % 0x1_0000 == (b + k) % 0x1_0000
  {
  }

  /** The controller as a clocked object: one field a register. */
  class Control {
    const c: Config
    var v: Stages
    var n: Levels
    var rb: seq<bool>
    var s2Cnt: nat
    var s4Cnt: nat
    var writeUram: bool
    var uramCnt: nat
    var trace: bool
    var stalls: Stalls
    var idle: bool
    var stageCnt: nat
    var delay: nat
    var pulse: bool

    function State(): Regs
      reads this
    {
      Regs(Slot(v, n, rb, s2Cnt, s4Cnt, writeUram, uramCnt, trace), stalls, idle, stageCnt, delay, pulse)
    }

    constructor (c: Config)
      ensures this.c == c && State() == RESET
    {
      this.c := c;
      v, n, rb := NO_STAGE, NO_LEVEL, EMPTY_BUFFERS;
      s2Cnt, s4Cnt, writeUram, uramCnt, trace := 0, 0, false, 0, false;
      stalls, idle, stageCnt, delay, pulse := NO_STALL, true, 0, 0, false;
    }

    /** Every always block reads the old registers; the assignments take effect together. */
    method PosEdge(i: Inputs)
      modifies this
      ensures State() == Clock(c, old(State()), i)
      ensures pulse || (!i.start && v != old(v)) ==> RunningDone(old(v), i) && old(delay) == 3
      ensures old(delay) == 3 && !old(idle) && RunningDone(old(v), i) ==> pulse && delay == 0
      ensures old(delay) < 3 ==> !pulse && delay == old(delay) + 1
    {
      hide RunningDone, AllStageDone, StagesNext, LevelsNext, BuffersNext, S2CntNext, S4CntNext, WriteUramNext,
           UramCntNext, TraceNext, StallsNext, IdleNext, StageCntNext, DelayNext;
      var r := State();
      EdgeWaits(r, i);
      FlowControl(r, i);
      StallsAndTrace(r, i);
      Counters(r, i);
      Buffers(r, i);
      Pipeline(r, i);
    }

    lemma EdgeWaits(r: Regs, i: Inputs)
      ensures var q := Clock(c, r, i);
        && (q.pulse || (!i.start && q.slot.v != r.slot.v) ==> RunningDone(r.slot.v, i) && r.delay == 3)
        && (r.delay == 3 && !r.idle && RunningDone(r.slot.v, i) ==> q.pulse && q.delay == 0)
        && (r.delay < 3 ==> !q.pulse && q.delay == r.delay + 1)
    {
      hide Clock;
      BoundaryWaits(c, r, i);
      if r.delay <= 3 {
        BoundaryAt(c, r, i);
      }
    }

    method FlowControl(r: Regs, i: Inputs)
      requires idle == r.idle && stageCnt == r.stageCnt && delay == r.delay
      modifies `idle, `stageCnt, `delay, `pulse
      ensures idle == IdleNext(c, r, i) && stageCnt == StageCntNext(r, i)
      ensures delay == DelayNext(r, i) && pulse == (AllStageDone(r, i) && !r.idle)
    {
      hide AllStageDone, Done;
      var tick, done := AllStageDone(r, i), Done(c, r, i);
      if i.start {
        idle := false;
      } else if done {
        idle := true;
      }
      if i.start {
        stageCnt := 0;
      } else if r.pulse {
        stageCnt := (stageCnt + 1) % 0x1_0000;
      }
      if tick {
        delay := 0;
      } else if delay < 3 {
        delay := delay + 1;
      }
      pulse := tick && !r.idle;
    }

    method StallsAndTrace(r: Regs, i: Inputs)
      requires v == r.slot.v && n == r.slot.n && trace == r.slot.trace && stalls == r.stalls
      modifies `stalls, `trace
      ensures stalls == StallsNext(c, r, i) && trace == TraceNext(c, r, i)
    {
      hide AllStageDone, Merging, StallForS2, StallForS4;
      var stallNxt, stallS2, stallS4 := Merging(r.slot), StallForS2(r.slot), StallForS4(c, r.slot);
      if AllStageDone(r, i) {
        stalls := Stalls(stallNxt, stallS2, stallS4, stallNxt && v.v4 && !stallS2, stallNxt && v.v4);
      }
      if i.start {
        trace := false;
      } else if n.n8 == c.level && !c.skipTrace {
        trace := true;
      }
    }

    method Counters(r: Regs, i: Inputs)
      requires v == r.slot.v && s2Cnt == r.slot.s2Cnt && s4Cnt == r.slot.s4Cnt
      requires uramCnt == r.slot.uramCnt && writeUram == r.slot.writeUram
      modifies `s2Cnt, `s4Cnt, `uramCnt, `writeUram
      ensures s2Cnt == S2CntNext(c, r, i) && s4Cnt == S4CntNext(c, r, i)
      ensures uramCnt == UramCntNext(c, r, i) && writeUram == WriteUramNext(c, r, i)
    {
      hide AllStageDone, S2Start, S4Start, LastSplit, LastIndex;
      var uramStep := i.wrUramDone && v.v2 && AllStageDone(r, i);
      if i.start {
        s2Cnt := 0;
      } else if s2Cnt == LastSplit(c) && S2Start(r) {
        s2Cnt := 0;
      } else if S2Start(r) {
        s2Cnt := (s2Cnt + 1) % 4;
      }
      if i.start {
        s4Cnt := 0;
      } else if s4Cnt == LastIndex(c) && S4Start(r) {
        s4Cnt := 0;
      } else if S4Start(r) {
        s4Cnt := (s4Cnt + 1) % 4096;
      }
      if i.start {
        writeUram := true;
      } else if uramCnt == LastSplit(c) && uramStep {
        writeUram := false;
      }
      if i.start {
        uramCnt := 0;
      } else if r.slot.writeUram && uramStep && uramCnt == LastSplit(c) {
        uramCnt := 0;
      } else if r.slot.writeUram && uramStep {
        uramCnt := (uramCnt + 1) % 4;
      }
    }

    method Buffers(r: Regs, i: Inputs)
      requires v == r.slot.v && n == r.slot.n && rb == r.slot.rb
      modifies `rb
      ensures rb == BuffersNext(r, i)
    {
      hide AllStageDone;
      var tick, stallNxt := AllStageDone(r, i), Merging(r.slot);
      if i.start {
        rb := EMPTY_BUFFERS;
      } else if stallNxt && tick {
        rb := rb[n.n8 := false];
      } else if !stallNxt && v.v8 && tick && n.n8 != 0 {
        if n.n8 < |rb| {  // a write past the last buffer has no effect
          rb := rb[n.n8 := true];
        }
      }
    }

    method Pipeline(r: Regs, i: Inputs)
      requires v == r.slot.v && n == r.slot.n
      modifies `v, `n
      ensures v == StagesNext(c, r, i) && n == LevelsNext(c, r, i)
    {
      hide AllStageDone, NextStages, Merging;
      var tick, stallNxt := AllStageDone(r, i), Merging(r.slot);
      var vNxt := NextStages(c, r.slot, i.s0AllDone);
      if i.start {
        v, n := NO_STAGE, NO_LEVEL;
      } else if tick {
        v := vNxt;
        n := Levels(if !vNxt.v5 then 0 else if stallNxt || r.slot.trace then (n.n8 + 1) % 16 else 1,
                    n.n5, n.n6, n.n7, n.n8);
      }
    }
  }
}

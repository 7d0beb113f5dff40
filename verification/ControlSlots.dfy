/**
 Slots: the controller moves only when every running stage reports done. A slot is
 what the registers settle to after such a boundary and the start pulse behind it.
 */
module ControlSlots {
  import opened ControlRegisters

  /** The ranges of the configuration inputs; the level, split and index checks of the accelerator imply them. */
  predicate ValidConfig(c: Config) {
    1 <= c.level <= 12 && 1 <= c.split <= 4 && 1 <= c.index <= 4096
  }

  /** What i_mvp_start leaves behind. */
  const START := Slot(NO_STAGE, NO_LEVEL, EMPTY_BUFFERS, 0, 0, true, 0, false)

  predicate TokenAtTop(c: Config, n8: nat) { n8 == c.level && !c.skipTrace }

  /** The registers once a pending start pulse has moved the counters and the trace flag has caught up. */
  function Settle(c: Config, r: Regs): Slot {
    r.slot.(s2Cnt := if S2Start(r) then AfterS2Start(c, r.slot.s2Cnt) else r.slot.s2Cnt,
            s4Cnt := if S4Start(r) then AfterS4Start(c, r.slot.s4Cnt) else r.slot.s4Cnt,
            trace := r.slot.trace || TokenAtTop(c, r.slot.n.n8))
  }

  /** Facts every run keeps: a pulse lasts one cycle, and the trace flag lags by one cycle only. */
  predicate Sane(c: Config, r: Regs) {
    && |r.slot.rb| == 12 && r.delay <= 3
    && (r.pulse ==> r.delay == 0)
    && (r.delay >= 1 && TokenAtTop(c, r.slot.n.n8) ==> r.slot.trace)
  }

  /** Which stages the pulse after a boundary starts. */
  datatype Fired = Fired(s0: bool, s1: bool, wrUram: bool, s2: bool, s3: bool, s4: bool,
                         s5: bool, s6: bool, s7: bool, s8: bool, s9: bool)

  const NO_START := Fired(false, false, false, false, false, false, false, false, false, false, false)

  function NextWriteUram(c: Config, s: Slot): bool {
    if s.uramCnt == LastSplit(c) && s.v.v2 then false else s.writeUram
  }

  function Fires(c: Config, s: Slot, s0AllDone: bool): Fired {
    var v, st, wu := NextStages(c, s, s0AllDone), NextStalls(c, s), NextWriteUram(c, s);
    var front := !st.s0s1s2 && !st.s4;
    Fired(v.v0 && front, v.v1 && front, v.v2 && wu, v.v2 && front && !wu,
          v.v3 && !st.s3s4 && !st.s4 && !st.s2, v.v4 && !st.s3s4 && !st.s2, v.v5, v.v6, v.v7, v.v8, v.v9)
  }

  /** One slot boundary. */
  function Tick(c: Config, s: Slot, s0AllDone: bool): Slot {
    var f := Fires(c, s, s0AllDone);
    Slot(NextStages(c, s, s0AllDone), NextLevels(c, s, s0AllDone), NextBuffers(s),
         if f.s2 then AfterS2Start(c, s.s2Cnt) else s.s2Cnt,
         if f.s4 then AfterS4Start(c, s.s4Cnt) else s.s4Cnt,
         NextWriteUram(c, s),
         if s.writeUram && s.v.v2 then (if s.uramCnt == LastSplit(c) then 0 else (s.uramCnt + 1) % 4) else s.uramCnt,
         s.trace || TokenAtTop(c, s.n.n7))
  }

  /** The clock refines the slots: an edge takes one slot step, or leaves the slot as it is. */
  lemma ClockRefinesSlots(c: Config, r: Regs, i: Inputs)
    requires ValidConfig(c) && Sane(c, r)
    ensures Sane(c, Clock(c, r, i))
    ensures i.start ==> Settle(c, Clock(c, r, i)) == START && !Clock(c, r, i).idle
    ensures !i.start && !r.idle ==>
      Settle(c, Clock(c, r, i)) ==
        if AllStageDone(r, i) then Tick(c, Settle(c, r), i.s0AllDone) else Settle(c, r)
  {
    hide LastSplit, LastIndex, AfterS2Start, AfterS4Start;
    var s, q := Settle(c, r), Clock(c, r, i);
    if AllStageDone(r, i) {
      assert s == r.slot;
      if !i.start && !r.idle {
        StagesAtBoundary(c, r, i);
      }
    }
  }

  lemma StagesAtBoundary(c: Config, r: Regs, i: Inputs)
    requires ValidConfig(c) && Sane(c, r) && AllStageDone(r, i) && !i.start && !r.idle
    ensures Settle(c, Clock(c, r, i)) == Tick(c, Settle(c, r), i.s0AllDone)
  {
    hide LastSplit, LastIndex, AfterS2Start, AfterS4Start, StallForS2, StallForS4, Merging;
    assert Settle(c, r) == r.slot;
  }

  /** The start outputs of a clock cycle. */
  function Pulses(r: Regs): Fired {
    Fired(S0Start(r), S1Start(r), WrUramStart(r), S2Start(r), S3Start(r), S4Start(r),
          S5Start(r), S6Start(r), S7Start(r), S8Start(r), S9Start(r))
  }

  /** The start outputs seen after a boundary are the ones the slot step fires; s1 has one gate more. */
  lemma PulsesAreFires(c: Config, r: Regs, i: Inputs)
    requires ValidConfig(c) && Sane(c, r) && AllStageDone(r, i) && !i.start && !r.idle
    ensures var q, f := Clock(c, r, i), Fires(c, Settle(c, r), i.s0AllDone);
      Pulses(q) == f.(s1 := f.s1 && !q.idle)
  {
    hide LastSplit, LastIndex, AfterS2Start, AfterS4Start, StallForS2, StallForS4, Merging;
    assert Settle(c, r) == r.slot;
  }
}

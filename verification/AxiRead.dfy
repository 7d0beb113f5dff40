/** The AXI read channel in front of the RAM model: bursts in, beats out, nothing lost. */
module AxiRead {
  import opened Fifo

  /** What the info FIFO carries beside each data word. */
  datatype Info = Info(last: bool, id: nat)

  datatype Beat<W> = Beat(data: W, info: Info)

  /** An accepted read address: s_axi_arlen and s_axi_arid. */
  datatype Burst = Burst(len: nat, id: nat)

  datatype Inputs<W> = Inputs(reset: bool, arvalid: bool, arlen: nat, arid: nat, rready: bool, ramWord: W)

  /** A burst of len + 1 beats, the last one marked (section A3.4.1 of ARM IHI 0022). */
  function Marks(len: nat, id: nat): (m: seq<Info>)
    ensures |m| == len + 1
    ensures forall k | 0 <= k <= len :: m[k] == Info(k == len, id)
  {
    if len == 0 then [Info(true, id)] else [Info(false, id)] + Marks(len - 1, id)
  }

  function AllMarks(bursts: seq<Burst>): seq<Info> {
    if bursts == [] then []
    else AllMarks(bursts[..|bursts| - 1]) + Marks(bursts[|bursts| - 1].len, bursts[|bursts| - 1].id)
  }

  function Infos<W>(beats: seq<Beat<W>>): (m: seq<Info>)
    ensures |m| == |beats|
  {
    seq(|beats|, k requires 0 <= k < |beats| => beats[k].info)
  }

  function Zip<W>(data: seq<W>, infos: seq<Info>): (b: seq<Beat<W>>)
    requires |data| == |infos|
    ensures |b| == |data|
  {
    seq(|data|, k requires 0 <= k < |data| => Beat(data[k], infos[k]))
  }

  /** The registers of the channel outside its FIFOs. */
  datatype Regs<W> = Regs(rdBip: bool, rcnt: nat, rid: nat, stageValid: bool, stage: Info, doutb: W)

  predicate Enb<W>(r: Regs<W>, f: Ctl) { r.rdBip && f.afullN }

  predicate LastBeatSent<W>(r: Regs<W>, f: Ctl) { r.rcnt == 0 && Enb(r, f) }

  predicate ArReady<W>(r: Regs<W>, f: Ctl) { !r.rdBip || LastBeatSent(r, f) }

  predicate Accepts<W>(r: Regs<W>, f: Ctl, i: Inputs<W>) { i.arvalid && ArReady(r, f) }

  function NextRegs<W>(r: Regs<W>, f: Ctl, i: Inputs<W>): Regs<W> {
    Regs(
      if i.reset then false else if Accepts(r, f, i) then true else if LastBeatSent(r, f) then false else r.rdBip,
      if i.reset then 0 else if Accepts(r, f, i) then i.arlen
      else if Enb(r, f) && r.rcnt != 0 then r.rcnt - 1 else r.rcnt,
      if Accepts(r, f, i) then i.arid else r.rid,
      !i.reset && Enb(r, f),
      Info(LastBeatSent(r, f), r.rid),
      i.ramWord)
  }

  function FifoPins<W>(r: Regs<W>, f: Ctl, i: Inputs<W>): Pins {
    Pins(i.reset, true, r.stageValid, true, f.doutValid && i.rready)
  }

  /** What the current burst still has to send. */
  function Pending<W>(r: Regs<W>): seq<Info> { if r.rdBip then Marks(r.rcnt, r.rid) else [] }

  function Staged<W>(r: Regs<W>): seq<Beat<W>> { if r.stageValid then [Beat(r.doutb, r.stage)] else [] }

  /** Ghost histories: bursts accepted, beats requested from the RAM, beats handed to the master. */
  datatype Log<W> = Log(bursts: seq<Burst>, issued: seq<Beat<W>>, returned: seq<Beat<W>>)

  /**
   Every requested beat is returned, queued or staged, in order; every
   accepted burst is requested or pending, in order.
   */
  ghost predicate Accounted<W>(r: Regs<W>, data: seq<W>, infos: seq<Info>, g: Log<W>) {
    && |data| == |infos|
    && g.issued == g.returned + Zip(data, infos) + Staged(r)
    && Infos(g.issued) + Pending(r) == AllMarks(g.bursts)
  }

  function NextLog<W>(r: Regs<W>, f: Ctl, i: Inputs<W>, data: seq<W>, infos: seq<Info>, g: Log<W>): Log<W>
    requires f.doutValid ==> data != [] && infos != []
  {
    if i.reset then Log([], [], [])
    else Log(
      if Accepts(r, f, i) then g.bursts + [Burst(i.arlen, i.arid)] else g.bursts,
      if Enb(r, f) then g.issued + [Beat(i.ramWord, Info(LastBeatSent(r, f), r.rid))] else g.issued,
      if f.doutValid && i.rready then g.returned + [Beat(data[0], infos[0])] else g.returned)
  }

  /** A beat is requested only with room for it and for the one already staged. */
  lemma RoomKept(depth: nat, words: nat, s: Ctl, i: Pins, n: nat)
    requires Counts(depth, words, s, n) && s.afullN && GateWorks(depth, words)
    ensures NextCtl(depth, words, s, i).fullN
  {
    CountsStep(depth, words, s, i, n);
  }

  lemma QueueMoves<W>(f: Ctl, i: Pins, data: seq<W>, infos: seq<Info>, d: W, m: Info, taken: seq<Beat<W>>,
                      staged: seq<Beat<W>>)
    requires |data| == |infos| && (f.doutValid ==> data != [])
    requires taken == (if Taken(f, i) then [Beat(data[0], infos[0])] else [])
    requires staged == (if Push(f, i) then [Beat(d, m)] else [])
    ensures |NextQueue(data, f, i, d)| == |NextQueue(infos, f, i, m)|
    ensures taken + Zip(NextQueue(data, f, i, d), NextQueue(infos, f, i, m)) == Zip(data, infos) + staged
  {
  }

  lemma MarksStep<W>(r: Regs<W>, f: Ctl, i: Inputs<W>, g: Log<W>)
    requires !i.reset && Infos(g.issued) + Pending(r) == AllMarks(g.bursts)
    ensures var r' := NextRegs(r, f, i);
      var bursts' := if Accepts(r, f, i) then g.bursts + [Burst(i.arlen, i.arid)] else g.bursts;
      var issued' := if Enb(r, f) then g.issued + [Beat(i.ramWord, Info(LastBeatSent(r, f), r.rid))] else g.issued;
      Infos(issued') + Pending(r') == AllMarks(bursts')
  {
    var r', sent := NextRegs(r, f, i), Info(LastBeatSent(r, f), r.rid);
    var bursts' := if Accepts(r, f, i) then g.bursts + [Burst(i.arlen, i.arid)] else g.bursts;
    if Enb(r, f) {
      assert Marks(r.rcnt, r.rid) == [sent] + (if r.rcnt == 0 then [] else Marks(r.rcnt - 1, r.rid));
      assert Infos(g.issued + [Beat(i.ramWord, sent)]) == Infos(g.issued) + [sent];
    }
    if Accepts(r, f, i) {
      assert bursts'[..|bursts'| - 1] == g.bursts;
    }
  }

  /** One clock edge keeps the account: no beat is lost, repeated, reordered or wrongly marked. */
  lemma AccountStep<W>(depth: nat, words: nat, r: Regs<W>, f: Ctl, i: Inputs<W>, data: seq<W>, infos: seq<Info>,
                       g: Log<W>)
    requires Accounted(r, data, infos, g) && (f.doutValid ==> data != []) && (r.stageValid ==> f.fullN)
    ensures var pins := FifoPins(r, f, i);
      !i.reset ==> Accounted(NextRegs(r, f, i), NextQueue(data, f, pins, r.doutb), NextQueue(infos, f, pins, r.stage),
                             NextLog(r, f, i, data, infos, g))
    ensures i.reset ==> Accounted(NextRegs(r, f, i), [], [], NextLog(r, f, i, data, infos, g))
  {
    hide NextQueue, Infos, Zip, AllMarks, Pending, Staged, Push;
    StagedNext(r, f, i);
    if i.reset {
      NothingPending(NextRegs(r, f, i));
    } else {
      var pins := FifoPins(r, f, i);
      var taken := if Taken(f, pins) then [Beat(data[0], infos[0])] else [];
      PushedIsStaged(r, f, i);
      QueueMoves(f, pins, data, infos, r.doutb, r.stage, taken, Staged(r));
      MarksStep(r, f, i, g);
      var rest := Zip(NextQueue(data, f, pins, r.doutb), NextQueue(infos, f, pins, r.stage));
      assert g.returned + [] == g.returned && g.issued + [] == g.issued;
      Regroup(g.returned, Zip(data, infos), Staged(r), taken, rest, Staged(NextRegs(r, f, i)));
    }
  }

  lemma PushedIsStaged<W>(r: Regs<W>, f: Ctl, i: Inputs<W>)
    requires r.stageValid ==> f.fullN
    ensures Staged(r) == (if Push(f, FifoPins(r, f, i)) then [Beat(r.doutb, r.stage)] else [])
  {
  }

  lemma StagedNext<W>(r: Regs<W>, f: Ctl, i: Inputs<W>)
    ensures Staged(NextRegs(r, f, i)) ==
            (if !i.reset && Enb(r, f) then [Beat(i.ramWord, Info(LastBeatSent(r, f), r.rid))] else [])
  {
  }

  lemma NothingPending<W>(r: Regs<W>)
    requires !r.rdBip && !r.stageValid
    ensures Accounted(r, [], [], Log([], [], []))
  {
  }

  lemma Regroup<B>(returned: seq<B>, queued: seq<B>, staged: seq<B>, taken: seq<B>, rest: seq<B>, next: seq<B>)
    requires taken + rest == queued + staged
    ensures (returned + queued + staged) + next == (returned + taken) + rest + next
  {
    assert returned + queued + staged == returned + (queued + staged);
    assert returned + taken + rest == returned + (taken + rest);
  }

  /** When nothing is in flight, exactly the beats of the accepted bursts have been returned. */
  lemma AllReturned<W>(r: Regs<W>, g: Log<W>)
    requires Accounted(r, [], [], g) && !r.rdBip && !r.stageValid
    ensures Infos(g.returned) == AllMarks(g.bursts)
  {
    assert g.issued == g.returned;
  }

  /** At any time the beats returned are a prefix of what the accepted bursts call for. */
  lemma ReturnedInOrder<W>(r: Regs<W>, data: seq<W>, infos: seq<Info>, g: Log<W>)
    requires Accounted(r, data, infos, g)
    ensures Infos(g.returned) <= AllMarks(g.bursts)
  {
    assert Infos(g.returned) == Infos(g.issued)[..|g.returned|];
  }

  // ---------------------------------------------------------------------------
  // The channel over whole runs

  /** The registers, the FIFOs' common control state, what they hold, and the histories. */
  datatype Channel<W> = Channel(r: Regs<W>, f: Ctl, data: seq<W>, infos: seq<Info>, log: Log<W>)

  function NextChannel<W>(depth: nat, words: nat, x: Channel<W>, i: Inputs<W>): Channel<W>
    requires words >= 1 && (x.f.doutValid ==> x.data != [] && x.infos != [])
  {
    var pins := FifoPins(x.r, x.f, i);
    Channel(NextRegs(x.r, x.f, i), NextCtl(depth, words, x.f, pins),
            if i.reset then [] else NextQueue(x.data, x.f, pins, x.r.doutb),
            if i.reset then [] else NextQueue(x.infos, x.f, pins, x.r.stage),
            NextLog(x.r, x.f, i, x.data, x.infos, x.log))
  }

  function OnOutput(f: Ctl): nat { if f.doutValid then 1 else 0 }

  /** The FIFOs' words are counted right, a staged beat has room, and every beat is accounted for. */
  ghost predicate ChannelInv<W>(depth: nat, words: nat, x: Channel<W>) {
    && GateWorks(depth, words) && words >= 1 && |x.data| >= OnOutput(x.f)
    && Counts(depth, words, x.f, |x.data| - OnOutput(x.f))
    && (x.r.stageValid ==> x.f.fullN) && Accounted(x.r, x.data, x.infos, x.log)
  }

  lemma QueueCount<T>(q: seq<T>, depth: nat, words: nat, f: Ctl, pins: Pins, din: T)
    requires words >= 1 && !pins.reset && |q| >= OnOutput(f) && (f.emptyN <==> |q| > OnOutput(f))
    requires pins.readCe && (pins.read ==> f.doutValid)
    ensures |NextQueue(q, f, pins, din)| ==
            NextCount(f, pins, |q| - OnOutput(f)) + OnOutput(NextCtl(depth, words, f, pins))
  {
  }

  lemma ChannelStep<W>(depth: nat, words: nat, x: Channel<W>, i: Inputs<W>)
    requires ChannelInv(depth, words, x)
    ensures x.f.doutValid ==> x.data != [] && x.infos != []
    ensures ChannelInv(depth, words, NextChannel(depth, words, x, i))
  {
    hide Accounted, NextCtl, NextQueue, NextLog, Accepts, LastBeatSent, ArReady;
    var n, pins := |x.data| - OnOutput(x.f), FifoPins(x.r, x.f, i);
    SameLength(x.r, x.data, x.infos, x.log);
    AccountStep(depth, words, x.r, x.f, i, x.data, x.infos, x.log);
    CountsStep(depth, words, x.f, pins, n);
    if x.f.afullN {
      RoomKept(depth, words, x.f, pins, n);
    }
    if i.reset {
      ResetCtl(depth, words, x.f, pins);
    } else {
      QueueCount(x.data, depth, words, x.f, pins, x.r.doutb);
    }
  }

  lemma SameLength<W>(r: Regs<W>, data: seq<W>, infos: seq<Info>, g: Log<W>)
    requires Accounted(r, data, infos, g)
    ensures |data| == |infos|
  {
  }

  lemma ResetCtl(depth: nat, words: nat, f: Ctl, pins: Pins)
    requires words >= 1 && pins.reset
    ensures NextCtl(depth, words, f, pins) == EMPTY
  {
  }

  ghost function RunChannel<W>(depth: nat, words: nat, x: Channel<W>, ins: seq<Inputs<W>>): Channel<W>
    requires ChannelInv(depth, words, x)
    decreases |ins|
  {
    if ins == [] then x
    else
      ChannelStep(depth, words, x, ins[0]);
      RunChannel(depth, words, NextChannel(depth, words, x, ins[0]), ins[1..])
  }

  /** Moves still ahead of the beats: out of the RAM, into the FIFOs, onto the output, to the master. */
  function Work<W>(x: Channel<W>): int {
    4 * (if x.r.rdBip then x.r.rcnt + 1 else 0) + (if x.r.stageValid then 3 else 0) + 2 * |x.data| - OnOutput(x.f)
  }

  /**
   What moves at an edge, told from the registers alone: an address is taken exactly if no burst is in
   progress or its last beat is being requested; a beat of the burst is requested exactly while the
   almost-full gate is open; the word on the output is returned exactly if the master is ready.
   */
  ghost predicate BeatsMoved<W>(x: Channel<W>, g: Log<W>, i: Inputs<W>)
    requires x.f.doutValid ==> x.data != [] && x.infos != []
  {
    && g.bursts == x.log.bursts +
         (if i.arvalid && (!x.r.rdBip || (x.r.rcnt == 0 && x.f.afullN)) then [Burst(i.arlen, i.arid)] else [])
    && g.issued == x.log.issued +
         (if x.r.rdBip && x.f.afullN then [Beat(i.ramWord, Info(x.r.rcnt == 0, x.r.rid))] else [])
    && g.returned == x.log.returned +
         (if x.f.doutValid && i.rready then [Beat(x.data[0], x.infos[0])] else [])
  }

  lemma ChannelMoves<W>(depth: nat, words: nat, x: Channel<W>, i: Inputs<W>)
    requires ChannelInv(depth, words, x) && !i.reset
    ensures x.f.doutValid ==> x.data != [] && x.infos != []
    ensures BeatsMoved(x, NextChannel(depth, words, x, i).log, i)
    ensures |x.data| < depth - 2 ==> x.f.afullN
  {
    hide NextCtl, NextQueue, Infos, AllMarks;
  }

  /** Only reading out: no reset, no new address, the master ready. */
  predicate Draining<W>(i: Inputs<W>) { !i.reset && !i.arvalid && i.rready }

  /** With three words or more something moves at every edge until nothing is left. */
  lemma WorkStep<W>(depth: nat, words: nat, x: Channel<W>, i: Inputs<W>)
    requires ChannelInv(depth, words, x) && depth >= 3 && !i.reset && i.rready && !Accepts(x.r, x.f, i)
    ensures words >= 1
    ensures x.f.doutValid ==> x.data != [] && x.infos != []
    ensures var y := NextChannel(depth, words, x, i);
      y.log.bursts == x.log.bursts && (Work(y) < Work(x) || (Work(x) == 0 && Work(y) == 0))
  {
    hide Accounted, NextCtl, NextQueue;
    var n, pins := |x.data| - OnOutput(x.f), FifoPins(x.r, x.f, i);
    SameLength(x.r, x.data, x.infos, x.log);
    QueueCount(x.data, depth, words, x.f, pins, x.r.doutb);
    OutputNext(depth, words, x.f, pins);
  }

  lemma OutputNext(depth: nat, words: nat, f: Ctl, pins: Pins)
    requires words >= 1 && !pins.reset && pins.readCe
    ensures OnOutput(NextCtl(depth, words, f, pins)) == if Pop(f, pins) then 1 else if pins.read then 0 else OnOutput(f)
  {
  }

  lemma NothingLeft<W>(depth: nat, words: nat, x: Channel<W>)
    requires ChannelInv(depth, words, x) && Work(x) <= 0
    ensures Infos(x.log.returned) == AllMarks(x.log.bursts)
  {
    SameLength(x.r, x.data, x.infos, x.log);
    assert x.data == [] && x.infos == [];
    AllReturned(x.r, x.log);
  }

  /** While the master keeps taking, every burst accepted so far is returned in full within Work(x) edges. */
  lemma {:induction false} Drains<W>(depth: nat, words: nat, x: Channel<W>, ins: seq<Inputs<W>>)
    requires ChannelInv(depth, words, x) && depth >= 3 && |ins| >= Work(x)
    requires forall k | 0 <= k < |ins| :: Draining(ins[k])
    ensures Infos(RunChannel(depth, words, x, ins).log.returned) == AllMarks(x.log.bursts)
    decreases |ins|
  {
    hide ChannelInv, Work, Infos, AllMarks, NextChannel;
    if ins == [] {
      NothingLeft(depth, words, x);
    } else {
      ChannelStep(depth, words, x, ins[0]);
      assert Draining(ins[0]) && !Accepts(x.r, x.f, ins[0]);
      WorkStep(depth, words, x, ins[0]);
      assert forall k | 0 <= k < |ins| - 1 :: ins[1..][k] == ins[k + 1];
      Drains(depth, words, NextChannel(depth, words, x, ins[0]), ins[1..]);
    }
  }

  /** A master that keeps taking and holds an address gets it accepted after at most Work(x) edges of waiting. */
  lemma {:induction false} AddressAccepted<W>(depth: nat, words: nat, x: Channel<W>, ins: seq<Inputs<W>>, b: Burst)
    returns (k: nat)
    requires ChannelInv(depth, words, x) && depth >= 3 && |ins| > Work(x)
    requires forall k | 0 <= k < |ins| :: Holding(ins[k], b)
    ensures k <= Work(x) && k < |ins|
    ensures RunChannel(depth, words, x, ins[..k + 1]).log.bursts == x.log.bursts + [b]
    decreases |ins|
  {
    hide ChannelInv, Work, NextChannel;
    WorkBound(depth, words, x);
    ChannelStep(depth, words, x, ins[0]);
    ChannelMoves(depth, words, x, ins[0]);
    AtLeastOneWord(depth, words, x);
    var x' := NextChannel(depth, words, x, ins[0]);
    if Accepts(x.r, x.f, ins[0]) {
      k := 0;
      assert ins[..1][0] == ins[0] && ins[..1][1..] == [];
    } else {
      WorkStep(depth, words, x, ins[0]);
      assert forall j | 0 <= j < |ins| - 1 :: ins[1..][j] == ins[j + 1];
      WorkBound(depth, words, x');
      var j := AddressAccepted(depth, words, x', ins[1..], b);
      k := j + 1;
      assert ins[..k + 1][0] == ins[0] && ins[..k + 1][1..] == ins[1..][..j + 1];
    }
  }

  lemma AtLeastOneWord<W>(depth: nat, words: nat, x: Channel<W>)
    requires ChannelInv(depth, words, x)
    ensures words >= 1
  {
  }

  predicate Holding<W>(i: Inputs<W>, b: Burst) {
    !i.reset && i.rready && i.arvalid && i.arlen == b.len && i.arid == b.id
  }

  lemma WorkBound<W>(depth: nat, words: nat, x: Channel<W>)
    requires ChannelInv(depth, words, x)
    ensures Work(x) >= 0 && (Work(x) == 0 ==> !x.r.rdBip)
  {
  }

  /** A burst is not requested to its end, and the almost-full gate is closed. */
  predicate Stalled<W>(x: Channel<W>) { x.r.rdBip && !x.f.afullN }

  /** With two words the flag, once raised, stays until a reset: a burst that is not requested by then never is. */
  lemma {:induction false} NeverDrains<W>(words: nat, x: Channel<W>, ins: seq<Inputs<W>>)
    requires ChannelInv(2, words, x) && Stalled(x)
    requires forall k | 0 <= k < |ins| :: !ins[k].reset
    ensures var y := RunChannel(2, words, x, ins); Stalled(y) && y.log.issued == x.log.issued
    decreases |ins|
  {
    hide Accounted, NextCtl, NextQueue;
    if ins != [] {
      ChannelStep(2, words, x, ins[0]);
      FlagStays(words, x.f, FifoPins(x.r, x.f, ins[0]), |x.data| - OnOutput(x.f));
      assert forall k | 0 <= k < |ins| - 1 :: ins[1..][k] == ins[k + 1];
      NeverDrains(words, NextChannel(2, words, x, ins[0]), ins[1..]);
    }
  }

  lemma FlagStays(words: nat, f: Ctl, pins: Pins, n: nat)
    requires words > 2 && Counts(2, words, f, n) && !f.afullN && !pins.reset
    ensures !NextCtl(2, words, f, pins).afullN
  {
  }

  /** The channel out of reset. */
  function EmptyChannel<W>(w: W): Channel<W> {
    Channel(Regs(false, 0, 0, false, Info(false, 0), w), EMPTY, [], [], Log([], [], []))
  }

  lemma EmptyIsChannel<W>(depth: nat, words: nat, w: W)
    requires GateWorks(depth, words) && depth <= words
    ensures ChannelInv(depth, words, EmptyChannel(w))
  {
    NothingPending(EmptyChannel(w).r);
  }

  /** A burst of three beats gets there: two words in flight, the third never requested. */
  lemma TwoIsTooFew<W>(words: nat, w: W)
    requires words > 2
    ensures ChannelInv(2, words, EmptyChannel(w))
    ensures exists ins: seq<Inputs<W>> :: Stalled(RunChannel(2, words, EmptyChannel(w), ins))
  {
    hide ChannelInv;
    EmptyIsChannel(2, words, w);
    var ask, idle := Inputs(false, true, 2, 0, true, w), Inputs(false, false, 0, 0, true, w);
    var x0 := EmptyChannel(w);
    ChannelStep(2, words, x0, ask);
    var x1 := NextChannel(2, words, x0, ask);
    ChannelStep(2, words, x1, idle);
    var x2 := NextChannel(2, words, x1, idle);
    ChannelStep(2, words, x2, idle);
    var x3 := NextChannel(2, words, x2, idle);
    assert RunChannel(2, words, x3, []) == x3;
    assert [idle][1..] == [] && [idle, idle][1..] == [idle] && [ask, idle, idle][1..] == [idle, idle];
    assert RunChannel(2, words, x2, [idle]) == x3;
    assert RunChannel(2, words, x1, [idle, idle]) == x3;
    assert RunChannel(2, words, x0, [ask, idle, idle]) == x3;
    assert Stalled(x3);
  }

  class ReadChannel<W(0)> {
    const infoFifo: Buffer<Info>
    const dataFifo: Buffer<W>
    var rdBip: bool
    var rcnt: nat
    var rid: nat
    var stageValid: bool
    var stageRlast: bool
    var stageRid: nat
    var doutb: W
    ghost var log: Log<W>

    function State(): Regs<W>
      reads this
    {
      Regs(rdBip, rcnt, rid, stageValid, Info(stageRlast, stageRid), doutb)
    }

    ghost function Snapshot(): Channel<W>
      reads this, infoFifo, dataFifo
    {
      Channel(State(), dataFifo.State(), dataFifo.Contents(), infoFifo.Contents(), log)
    }

    ghost predicate Apart() {
      && (infoFifo as object) != dataFifo && (infoFifo.mem as object) != dataFifo.mem
      && (infoFifo as object) != this && (dataFifo as object) != this
    }

    ghost predicate LockStep()
      reads infoFifo, dataFifo, infoFifo.mem, dataFifo.mem
    {
      && Apart() && infoFifo.Valid() && dataFifo.Valid()
      && infoFifo.depth == dataFifo.depth && infoFifo.words == dataFifo.words
      && GateWorks(dataFifo.depth, dataFifo.words)
      && infoFifo.State() == dataFifo.State()
    }

    /** The FIFOs move in lock-step and have room for the staged beat; every beat is accounted for. */
    ghost predicate Valid()
      reads this, infoFifo, dataFifo, infoFifo.mem, dataFifo.mem
    {
      && LockStep() && (stageValid ==> dataFifo.State().fullN)
      && Accounted(State(), dataFifo.Contents(), infoFifo.Contents(), log)
    }

    /** The FIFOs keep their default depth and address width. */
    constructor (zero: W)
      ensures Valid() && log == Log([], [], [])
    {
      infoFifo := new Buffer<Info>(16, 16, Info(false, 0));
      dataFifo := new Buffer<W>(16, 16, zero);
      rdBip, rcnt, rid, stageValid, stageRlast, stageRid := false, 0, 0, false, false, 0;
      log := Log([], [], []);
      new;
      NothingPending(State());
    }

    method PosEdge(i: Inputs<W>)
      requires Valid()
      modifies this, infoFifo, dataFifo, infoFifo.mem, dataFifo.mem
      ensures Valid()
      ensures dataFifo.words >= 1 && old(dataFifo.doutValid ==> dataFifo.Contents() != [] && infoFifo.Contents() != [])
      ensures Snapshot() == NextChannel(dataFifo.depth, dataFifo.words, old(Snapshot()), i)
      ensures !i.reset ==> BeatsMoved(old(Snapshot()), log, i)
    {
      hide BeatsMoved, LockStep, Accounted, NextCtl, NextQueue, Queue, NextLog, NextRegs, Enb, Accepts, LastBeatSent,
           ArReady;
      ghost var r, f, words, infos := State(), dataFifo.State(), dataFifo.Contents(), infoFifo.Contents();
      FifoFacts(i);
      if !i.reset {
        IsChannel();
        ChannelMoves(dataFifo.depth, dataFifo.words, Snapshot(), i);
      }
      AccountStep(dataFifo.depth, dataFifo.words, r, f, i, words, infos, log);
      var enb := Enb(State(), dataFifo.State());
      var lastBeatSentOut, accept := LastBeatSent(State(), dataFifo.State()), Accepts(State(), dataFifo.State(), i);
      log := NextLog(r, f, i, words, infos, log);
      MoveFifos(Pins(i.reset, true, stageValid, true, dataFifo.doutValid && i.rready),
                Info(stageRlast, stageRid), doutb);
      Registers(i, enb, lastBeatSentOut, accept, f);
    }

    lemma FifoFacts(i: Inputs<W>)
      requires LockStep()
      ensures dataFifo.words >= 1
      ensures dataFifo.doutValid ==> dataFifo.Contents() != [] && infoFifo.Contents() != []
      ensures var f := dataFifo.State(); NextRegs(State(), f, i).stageValid ==>
        NextCtl(dataFifo.depth, dataFifo.words, f, FifoPins(State(), f, i)).fullN
    {
      QueueFronts(dataFifo);
      QueueFronts(infoFifo);
      if dataFifo.afullN {
        RoomForNext(dataFifo, FifoPins(State(), dataFifo.State(), i));
      }
    }

    /** What the runs above say holds of the object. */
    lemma IsChannel()
      requires Valid()
      ensures ChannelInv(dataFifo.depth, dataFifo.words, Snapshot())
    {
      hide Accounted;
    }

    /** Both FIFOs see the same write and read strobes. */
    method MoveFifos(pins: Pins, info: Info, word: W)
      requires LockStep()
      modifies infoFifo, dataFifo, infoFifo.mem, dataFifo.mem
      ensures LockStep() && dataFifo.State() == NextCtl(dataFifo.depth, dataFifo.words, old(dataFifo.State()), pins)
      ensures old(dataFifo.doutValid ==> dataFifo.Contents() != [] && infoFifo.Contents() != [])
      ensures dataFifo.Contents() ==
        (if pins.reset then [] else NextQueue(old(dataFifo.Contents()), old(dataFifo.State()), pins, word))
      ensures infoFifo.Contents() ==
        (if pins.reset then [] else NextQueue(old(infoFifo.Contents()), old(dataFifo.State()), pins, info))
    {
      hide Inv, NextCtl, NextQueue, Queue, NextImage, Push, Pop;
      QueueFronts(dataFifo);
      QueueFronts(infoFifo);
      infoFifo.PosEdge(pins, info);
      dataFifo.PosEdge(pins, word);
    }

    method Registers(i: Inputs<W>, enb: bool, lastBeatSentOut: bool, accept: bool, ghost f: Ctl)
      requires enb == Enb(State(), f) && lastBeatSentOut == LastBeatSent(State(), f) && accept == Accepts(State(), f, i)
      modifies `rdBip, `rcnt, `rid, `stageValid, `stageRlast, `stageRid, `doutb
      ensures State() == NextRegs(old(State()), f, i)
    {
      hide Accepts, LastBeatSent, Enb;
      stageValid, stageRlast, stageRid, doutb := !i.reset && enb, lastBeatSentOut, rid, i.ramWord;
      if i.reset {
        rdBip, rcnt := false, 0;
      } else if accept {
        rdBip, rcnt := true, i.arlen;
      } else {
        if lastBeatSentOut {
          rdBip := false;
        }
        if enb && rcnt != 0 {
          rcnt := rcnt - 1;
        }
      }
      if accept {
        rid := i.arid;
      }
    }
  }

  lemma QueueFronts<T(0)>(b: Buffer<T>)
    ensures b.doutValid ==> b.Contents() != [] && b.Contents()[0] == b.doutBuf
  {
  }

  lemma RoomForNext<T(0)>(b: Buffer<T>, pins: Pins)
    requires b.Valid() && b.afullN && GateWorks(b.depth, b.words)
    ensures NextCtl(b.depth, b.words, b.State(), pins).fullN
  {
    RoomKept(b.depth, b.words, b.State(), pins, |b.stored|);
  }
}

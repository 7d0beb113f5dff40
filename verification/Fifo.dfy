/** The first-word-fall-through FIFO, against a queue. */
module Fifo {

  /** The control registers: addresses, fill level and flags. */
  datatype Ctl = Ctl(waddr: nat, raddr: nat, usedw: nat, fullN: bool, afullN: bool, emptyN: bool,
                     showAhead: bool, doutValid: bool)

  datatype Pins = Pins(reset: bool, writeCe: bool, write: bool, readCe: bool, read: bool)

  const EMPTY := Ctl(0, 0, 0, true, true, false, false, false)

  predicate Push(s: Ctl, i: Pins) { s.fullN && i.writeCe && i.write }

  predicate Pop(s: Ctl, i: Pins) { s.emptyN && i.readCe && (!s.doutValid || i.read) }

  /** The word on the output is taken. */
  predicate Taken(s: Ctl, i: Pins) { s.doutValid && i.readCe && i.read }

  function Following(addr: nat, depth: nat): nat { if addr == depth - 1 then 0 else addr + 1 }

  /** Adding and subtracting one in ADDR_WIDTH bits. */
  function Inc(u: nat, words: nat): nat { if u + 1 == words then 0 else u + 1 }

  function Dec(u: nat, words: nat): nat
    requires words >= 1
  {
    if u == 0 then words - 1 else u - 1
  }

  /** One clock edge; words is 2^ADDR_WIDTH. */
  function NextCtl(depth: nat, words: nat, s: Ctl, i: Pins): Ctl
    requires words >= 1
  {
    var push, pop := Push(s, i), Pop(s, i);
    if i.reset then EMPTY
    else Ctl(
      if push then Following(s.waddr, depth) else s.waddr,
      if pop then Following(s.raddr, depth) else s.raddr,
      if push && !pop then Inc(s.usedw, words) else if !push && pop then Dec(s.usedw, words) else s.usedw,
      if push && !pop then s.usedw != depth - 1 else if !push && pop then true else s.fullN,
      if push && !pop then s.usedw != depth - 2 && s.usedw != depth - 1
      else if !push && pop && s.usedw == depth - 2 then true else s.afullN,
      if push && !pop then true else if !push && pop then s.usedw != 1 else s.emptyN,
      push && s.usedw == (if pop then 1 else 0),
      if pop then true else if i.readCe && i.read then false else s.doutValid)
  }

  /** Address k places after the read address. */
  function Place(raddr: nat, k: nat, depth: nat): nat {
    if raddr + k < depth then raddr + k else raddr + k - depth
  }

  /** Where the almost-full flag can be relied on. */
  predicate GateWorks(depth: nat, words: nat) { depth >= 2 && (depth > 2 || words > 2) }

  /** With n words stored: usedw is n modulo 2^ADDR_WIDTH, the flags tell n, almost full lags behind it by two. */
  ghost predicate Counts(depth: nat, words: nat, s: Ctl, n: nat) {
    && 1 <= depth <= words && 2 <= words && n <= depth
    && s.raddr < depth && s.waddr == (if n == depth then s.raddr else Place(s.raddr, n, depth))
    && s.usedw == (if n == words then 0 else n)
    && (s.fullN <==> n < depth) && (s.emptyN <==> n > 0)
    && (GateWorks(depth, words) ==> (s.afullN ==> n <= depth - 2) && (!s.afullN ==> n >= depth - 2))
  }

  function NextCount(s: Ctl, i: Pins, n: nat): int {
    if i.reset then 0 else n + (if Push(s, i) then 1 else 0) - (if Pop(s, i) then 1 else 0)
  }

  lemma CountsStep(depth: nat, words: nat, s: Ctl, i: Pins, n: nat)
    requires Counts(depth, words, s, n)
    ensures NextCount(s, i, n) >= 0 && Counts(depth, words, NextCtl(depth, words, s, i), NextCount(s, i, n))
  {
  }

  /** The control registers and the count after a run of pins from reset. */
  function RunCtl(depth: nat, words: nat, run: seq<Pins>): Ctl
    requires words >= 1
  {
    if run == [] then EMPTY else NextCtl(depth, words, RunCtl(depth, words, run[..|run| - 1]), run[|run| - 1])
  }

  function RunCount(depth: nat, words: nat, run: seq<Pins>): int
    requires words >= 1
  {
    if run == [] then 0
    else
      var n := RunCount(depth, words, run[..|run| - 1]);
      if n < 0 then n else NextCount(RunCtl(depth, words, run[..|run| - 1]), run[|run| - 1], n)
  }

  lemma {:induction false} CountsRun(depth: nat, words: nat, run: seq<Pins>)
    requires 1 <= depth <= words && 2 <= words
    ensures RunCount(depth, words, run) >= 0
    ensures Counts(depth, words, RunCtl(depth, words, run), RunCount(depth, words, run))
  {
    if run != [] {
      var before := run[..|run| - 1];
      CountsRun(depth, words, before);
      CountsStep(depth, words, RunCtl(depth, words, before), run[|run| - 1], RunCount(depth, words, before));
    }
  }

  /** While almost full is not raised there is room for two more words. */
  predicate GateHonest(depth: nat, words: nat, run: seq<Pins>)
    requires words >= 1
  {
    RunCtl(depth, words, run).afullN ==> RunCount(depth, words, run) <= depth - 2
  }

  /** That holds over every run exactly for two words or more, and more than two addresses. */
  lemma GateHonestExactlyWhen(depth: nat, words: nat)
    requires 1 <= depth <= words && 2 <= words
    ensures (forall run :: GateHonest(depth, words, run)) <==> GateWorks(depth, words)
  {
    if GateWorks(depth, words) {
      forall run
        ensures GateHonest(depth, words, run)
      {
        CountsRun(depth, words, run);
      }
    } else if depth == 1 {
      assert !GateHonest(depth, words, []);
    } else {
      FillAndPop(depth, words);
    }
  }

  /** Two words in, one out: the flag takes the full count, which reads 0, for DEPTH - 2. */
  lemma FillAndPop(depth: nat, words: nat)
    requires depth == words == 2
    ensures exists run :: !GateHonest(depth, words, run)
  {
    var push, pop := Pins(false, true, true, false, false), Pins(false, false, false, true, false);
    var one, two, run := [push], [push, push], [push, push, pop];
    assert one[..0] == [] && two[..1] == one && run[..2] == two;
    assert RunCtl(2, 2, one) == NextCtl(2, 2, EMPTY, push);
    assert RunCtl(2, 2, two) == NextCtl(2, 2, RunCtl(2, 2, one), push);
    assert RunCount(2, 2, one) == 1 && RunCount(2, 2, two) == 2 && RunCount(2, 2, run) == 1;
    assert !GateHonest(depth, words, run);
  }

  /** A queue: the word taken leaves at the front, the word accepted joins at the back. */
  function NextQueue<T>(q: seq<T>, s: Ctl, i: Pins, din: T): seq<T>
    requires s.doutValid ==> q != []
  {
    (if Taken(s, i) then q[1..] else q) + (if Push(s, i) then [din] else [])
  }

  /** The stored words in order from the read address on; the first one also waits in q_tmp or q_buf. */
  ghost predicate Holds<T>(mem: seq<T>, depth: nat, s: Ctl, qTmp: T, qBuf: T, stored: seq<T>) {
    && |mem| == depth
    && (forall k | 0 <= k < |stored| :: Place(s.raddr, k, depth) < depth && mem[Place(s.raddr, k, depth)] == stored[k])
    && (stored != [] ==> Head(s, qTmp, qBuf) == stored[0])
  }

  function Head<T>(s: Ctl, qTmp: T, qBuf: T): T { if s.showAhead then qTmp else qBuf }

  ghost function NextStored<T>(stored: seq<T>, s: Ctl, i: Pins, din: T): seq<T>
    requires s.emptyN ==> stored != []
  {
    if i.reset then []
    else (if Pop(s, i) then stored[1..] else stored) + (if Push(s, i) then [din] else [])
  }

  /** The memory after the edge holds the stored words from the new read address on. */
  lemma WordsStep<T>(mem: seq<T>, depth: nat, words: nat, s: Ctl, i: Pins, qTmp: T, qBuf: T, stored: seq<T>,
                     din: T, k: nat)
    requires Counts(depth, words, s, |stored|) && Holds(mem, depth, s, qTmp, qBuf, stored)
    requires !i.reset && k < |NextStored(stored, s, i, din)|
    ensures s.waddr < depth && var at := Place(NextCtl(depth, words, s, i).raddr, k, depth);
      at < depth && (if Push(s, i) then mem[s.waddr := din] else mem)[at] == NextStored(stored, s, i, din)[k]
  {
    hide NextCtl, Counts, Push, Pop, Place, Head;
    var shift := if Pop(s, i) then 1 else 0;
    WritePlace(depth, words, s, i, |stored|);
    PlaceMoves(depth, words, s, i, |stored|, k);
    if k + shift < |stored| {
      PlacesDiffer(depth, words, s, |stored|, k + shift);
      assert NextStored(stored, s, i, din)[k] == stored[k + shift];
    }
  }

  /** Places are counted from the new read address; a word that was there stays where it was. */
  lemma PlaceMoves(depth: nat, words: nat, s: Ctl, i: Pins, n: nat, k: nat)
    requires Counts(depth, words, s, n) && !i.reset && k < n + 1 - (if Pop(s, i) then 1 else 0)
    ensures s.waddr < depth && s.emptyN == (n > 0)
    ensures Place(NextCtl(depth, words, s, i).raddr, k, depth) ==
            Place(s.raddr, k + (if Pop(s, i) then 1 else 0), depth)
  {
    hide GateWorks, Push, Inc, Dec;
  }

  lemma PlacesDiffer(depth: nat, words: nat, s: Ctl, n: nat, k: nat)
    requires Counts(depth, words, s, n) && k < n
    ensures Place(s.raddr, k, depth) < depth && (n < depth ==> Place(s.raddr, k, depth) != s.waddr)
  {
    hide GateWorks;
  }

  /** The accepted word goes behind the last one. */
  lemma WritePlace(depth: nat, words: nat, s: Ctl, i: Pins, n: nat)
    requires Counts(depth, words, s, n)
    ensures Push(s, i) ==> n < depth && s.waddr == Place(s.raddr, n, depth)
    ensures Pop(s, i) ==> n > 0
  {
    hide GateWorks;
  }

  /** The show-ahead choice is right: the memory word read this cycle is stale exactly when the queue was empty. */
  lemma HeadStep<T>(mem: seq<T>, depth: nat, words: nat, s: Ctl, i: Pins, qTmp: T, qBuf: T, stored: seq<T>, din: T)
    requires Counts(depth, words, s, |stored|) && Holds(mem, depth, s, qTmp, qBuf, stored)
    requires !i.reset && NextStored(stored, s, i, din) != []
    ensures var rnext := if Pop(s, i) then Following(s.raddr, depth) else s.raddr;
      rnext < depth && Head(NextCtl(depth, words, s, i), if Push(s, i) then din else qTmp, mem[rnext])
                    == NextStored(stored, s, i, din)[0]
  {
    hide GateWorks;
    if Pop(s, i) && |stored| >= 2 {
      assert Place(s.raddr, 1, depth) == Following(s.raddr, depth);
    } else if |stored| >= 1 {
      assert Place(s.raddr, 0, depth) == s.raddr;
    }
  }

  lemma HoldsStep<T>(mem: seq<T>, depth: nat, words: nat, s: Ctl, i: Pins, qTmp: T, qBuf: T, stored: seq<T>,
                     din: T, zero: T)
    requires Counts(depth, words, s, |stored|) && Holds(mem, depth, s, qTmp, qBuf, stored)
    ensures s.waddr < depth && (if Pop(s, i) then Following(s.raddr, depth) else s.raddr) < depth
    ensures var s' := NextCtl(depth, words, s, i);
      Holds(if Push(s, i) then mem[s.waddr := din] else mem, depth, s',
            if i.reset then zero else if Push(s, i) then din else qTmp,
            mem[if Pop(s, i) then Following(s.raddr, depth) else s.raddr], NextStored(stored, s, i, din))
  {
    hide NextCtl, GateWorks, Place, Head, Push, Pop;
    AddressesInside(depth, words, s, i, |stored|);
    if i.reset {
      assert NextStored(stored, s, i, din) == [];
    } else {
      forall k | 0 <= k < |NextStored(stored, s, i, din)|
        ensures var at := Place(NextCtl(depth, words, s, i).raddr, k, depth);
          at < depth && (if Push(s, i) then mem[s.waddr := din] else mem)[at] == NextStored(stored, s, i, din)[k]
      {
        WordsStep(mem, depth, words, s, i, qTmp, qBuf, stored, din, k);
      }
      if NextStored(stored, s, i, din) != [] {
        HeadStep(mem, depth, words, s, i, qTmp, qBuf, stored, din);
      }
    }
  }

  lemma AddressesInside(depth: nat, words: nat, s: Ctl, i: Pins, n: nat)
    requires Counts(depth, words, s, n)
    ensures s.waddr < depth && (if Pop(s, i) then Following(s.raddr, depth) else s.raddr) < depth
    ensures s.emptyN <==> n > 0
    ensures Pop(s, i) ==> n > 0
  {
  }

  /** The queue as seen from outside: the output word first, then the stored ones. */
  function Queue<T>(s: Ctl, dout: T, stored: seq<T>): seq<T> {
    (if s.doutValid then [dout] else []) + stored
  }

  /** All registers, the memory, and ghost histories: the words stored, accepted and delivered so far. */
  datatype Image<T> = Image(s: Ctl, mem: seq<T>, qTmp: T, qBuf: T, dout: T,
                            stored: seq<T>, accepted: seq<T>, delivered: seq<T>)

  ghost predicate Inv<T>(depth: nat, words: nat, x: Image<T>) {
    && Counts(depth, words, x.s, |x.stored|)
    && Holds(x.mem, depth, x.s, x.qTmp, x.qBuf, x.stored)
    && x.accepted == x.delivered + Queue(x.s, x.dout, x.stored)
  }

  predicate Addressed<T>(depth: nat, x: Image<T>) {
    |x.mem| == depth && x.s.waddr < depth && ReadNext(depth, x.s, true) < depth && x.s.raddr < depth
  }

  /** rnext */
  function ReadNext(depth: nat, s: Ctl, pop: bool): nat { if pop then Following(s.raddr, depth) else s.raddr }

  ghost function NextImage<T>(depth: nat, words: nat, x: Image<T>, i: Pins, din: T, zero: T): Image<T>
    requires words >= 1 && Addressed(depth, x) && (x.s.emptyN ==> x.stored != [])
  {
    var push, pop := Push(x.s, i), Pop(x.s, i);
    Image(NextCtl(depth, words, x.s, i),
          if push then x.mem[x.s.waddr := din] else x.mem,
          if i.reset then zero else if push then din else x.qTmp,
          x.mem[ReadNext(depth, x.s, pop)],
          if i.reset then zero else if pop then Head(x.s, x.qTmp, x.qBuf) else x.dout,
          NextStored(x.stored, x.s, i, din),
          if i.reset then [] else x.accepted + (if push then [din] else []),
          if i.reset then [] else x.delivered + (if Taken(x.s, i) then [x.dout] else []))
  }

  lemma Reachable<T>(depth: nat, words: nat, x: Image<T>)
    requires Inv(depth, words, x)
    ensures words >= 1 && Addressed(depth, x) && (x.s.emptyN <==> x.stored != [])
  {
  }

  /** What is delivered is what was accepted, in order; what is left of it is the queue. */
  lemma ImageStep<T>(depth: nat, words: nat, x: Image<T>, i: Pins, din: T, zero: T)
    requires Inv(depth, words, x)
    ensures words >= 1 && Addressed(depth, x) && (x.s.emptyN <==> x.stored != [])
    ensures var x', q := NextImage(depth, words, x, i, din, zero), Queue(x.s, x.dout, x.stored);
      && Inv(depth, words, x')
      && (i.reset ==> Queue(x'.s, x'.dout, x'.stored) == [])
      && (!i.reset ==> Queue(x'.s, x'.dout, x'.stored) == NextQueue(q, x.s, i, din))
  {
    hide Counts, Holds, NextStored, NextQueue;
    Reachable(depth, words, x);
    CountsStep(depth, words, x.s, i, |x.stored|);
    HoldsStep(x.mem, depth, words, x.s, i, x.qTmp, x.qBuf, x.stored, din, zero);
    StoredCount(x.stored, x.s, i, din);
    HeadStored(depth, x);
    QueueStep(depth, words, x.s, i, x.dout, Head(x.s, x.qTmp, x.qBuf), x.stored, din, zero);
    HistoryStep(x.accepted, x.delivered, Queue(x.s, x.dout, x.stored), x.s, i, x.dout, din);
  }

  /**
   What moves at an edge, told from the pins and the counts alone: a word offered is accepted
   exactly if there is room, the output word leaves exactly if it is read, and with reading
   enabled the output is valid afterwards exactly if a word was stored behind it or it stayed.
   */
  ghost predicate WordsMoved<T>(depth: nat, x: Image<T>, x': Image<T>, i: Pins, din: T) {
    && x'.accepted == x.accepted + (if i.writeCe && i.write && |x.stored| < depth then [din] else [])
    && x'.delivered == x.delivered + (if i.readCe && i.read && x.s.doutValid then [x.dout] else [])
    && x'.s.doutValid == (if i.readCe then x.stored != [] || (x.s.doutValid && !i.read) else x.s.doutValid)
  }

  lemma EdgeMoves<T>(depth: nat, words: nat, x: Image<T>, i: Pins, din: T, zero: T)
    requires Inv(depth, words, x) && !i.reset
    ensures words >= 1 && Addressed(depth, x) && (x.s.emptyN ==> x.stored != [])
    ensures WordsMoved(depth, x, NextImage(depth, words, x, i, din, zero), i, din)
  {
    hide Holds, GateWorks, Following, Head;
    Reachable(depth, words, x);
  }

  /** What an edge brings. */
  datatype Edge<T> = Edge(pins: Pins, din: T)

  ghost function RunImage<T>(depth: nat, words: nat, x: Image<T>, run: seq<Edge<T>>, zero: T): Image<T>
    requires Inv(depth, words, x)
    decreases |run|
  {
    if run == [] then x
    else
      ImageStep(depth, words, x, run[0].pins, run[0].din, zero);
      RunImage(depth, words, NextImage(depth, words, x, run[0].pins, run[0].din, zero), run[1..], zero)
  }

  /** Held reading, one word leaves at every edge for as long as the queue had words, in order and without a gap. */
  lemma {:induction false} Streams<T>(depth: nat, words: nat, x: Image<T>, run: seq<Edge<T>>, zero: T)
    requires Inv(depth, words, x) && x.s.doutValid && |run| <= |x.stored| + 1
    requires forall k | 0 <= k < |run| :: run[k].pins.readCe && run[k].pins.read && !run[k].pins.reset
    ensures RunImage(depth, words, x, run, zero).delivered
         == x.delivered + Queue(x.s, x.dout, x.stored)[..|run|]
    decreases |run|
  {
    hide Inv, NextImage, NextQueue;
    var q := Queue(x.s, x.dout, x.stored);
    if run == [] {
    } else {
      var e := run[0];
      ImageStep(depth, words, x, e.pins, e.din, zero);
      EdgeMoves(depth, words, x, e.pins, e.din, zero);
      var x' := NextImage(depth, words, x, e.pins, e.din, zero);
      var q' := Queue(x'.s, x'.dout, x'.stored);
      QueueShifts(q, x.s, e.pins, e.din);
      assert q[0] == x.dout;
      if |run| > 1 {
        Streams(depth, words, x', run[1..], zero);
        assert q'[..|run| - 1] == q[1..|run|];
        assert q[..|run|] == [q[0]] + q[1..|run|];
      } else {
        assert run[1..] == [] && q[..1] == [q[0]];
      }
    }
  }

  lemma QueueShifts<T>(q: seq<T>, s: Ctl, i: Pins, din: T)
    requires s.doutValid && q != [] && i.readCe && i.read
    ensures q[1..] <= NextQueue(q, s, i, din)
  {
  }

  lemma HeadStored<T>(depth: nat, x: Image<T>)
    requires Holds(x.mem, depth, x.s, x.qTmp, x.qBuf, x.stored)
    ensures x.stored != [] ==> Head(x.s, x.qTmp, x.qBuf) == x.stored[0]
  {
  }

  lemma QueueStep<T>(depth: nat, words: nat, s: Ctl, i: Pins, dout: T, head: T, stored: seq<T>, din: T, zero: T)
    requires words >= 1 && (s.emptyN <==> stored != []) && (stored != [] ==> head == stored[0])
    ensures var q' := Queue(NextCtl(depth, words, s, i), if i.reset then zero else if Pop(s, i) then head else dout,
                            NextStored(stored, s, i, din));
      if i.reset then q' == [] else q' == NextQueue(Queue(s, dout, stored), s, i, din)
  {
  }

  lemma HistoryStep<T>(accepted: seq<T>, delivered: seq<T>, q: seq<T>, s: Ctl, i: Pins, dout: T, din: T)
    requires accepted == delivered + q && (s.doutValid ==> q != [] && q[0] == dout)
    ensures accepted + (if Push(s, i) then [din] else [])
         == delivered + (if Taken(s, i) then [dout] else []) + NextQueue(q, s, i, din)
  {
    if Taken(s, i) {
      assert q == [dout] + q[1..];
    }
  }

  lemma StoredCount<T>(stored: seq<T>, s: Ctl, i: Pins, din: T)
    requires s.emptyN <==> stored != []
    ensures |NextStored(stored, s, i, din)| == NextCount(s, i, |stored|)
  {
  }

  lemma HeadOut<T>(s: Ctl, dout: T, stored: seq<T>)
    ensures s.doutValid ==> Queue(s, dout, stored) != [] && Queue(s, dout, stored)[0] == dout
  {
  }

  lemma ReadInside<T>(depth: nat, x: Image<T>, pop: bool)
    requires Addressed(depth, x)
    ensures ReadNext(depth, x.s, pop) < |x.mem| && x.s.waddr < |x.mem|
  {
  }

  class Buffer<T(0)> {
    const depth: nat
    const words: nat
    const zero: T
    const mem: array<T>
    var waddr: nat
    var raddr: nat
    var usedw: nat
    var fullN: bool
    var afullN: bool
    var emptyN: bool
    var showAhead: bool
    var doutValid: bool
    var qBuf: T
    var qTmp: T
    var doutBuf: T
    ghost var stored: seq<T>
    ghost var accepted: seq<T>
    ghost var delivered: seq<T>

    function State(): Ctl
      reads this
    {
      Ctl(waddr, raddr, usedw, fullN, afullN, emptyN, showAhead, doutValid)
    }

    ghost function Snapshot(): Image<T>
      reads this, mem
    {
      Image(State(), mem[..], qTmp, qBuf, doutBuf, stored, accepted, delivered)
    }

    ghost function Contents(): seq<T>
      reads this
    {
      Queue(State(), doutBuf, stored)
    }

    ghost predicate Valid()
      reads this, mem
    {
      Inv(depth, words, Snapshot())
    }

    constructor (depth: nat, words: nat, zero: T)
      requires 1 <= depth <= words && 2 <= words
      ensures Valid() && fresh(mem) && this.depth == depth && this.words == words && this.zero == zero
      ensures State() == EMPTY && Contents() == [] && accepted == [] && delivered == []
    {
      this.depth, this.words, this.zero := depth, words, zero;
      qTmp, doutBuf := zero, zero;
      mem := new T[depth];
      waddr, raddr, usedw, fullN, afullN, emptyN, showAhead, doutValid := 0, 0, 0, true, true, false, false, false;
      stored, accepted, delivered := [], [], [];
      new;
    }

    /** Every always block reads the registers as they were before the edge. */
    method PosEdge(i: Pins, din: T)
      requires Valid()
      modifies this, mem
      ensures words >= 1 && old(Addressed(depth, Snapshot()) && (emptyN ==> stored != []))
      ensures Valid() && Snapshot() == NextImage(depth, words, old(Snapshot()), i, din, zero)
      ensures State() == NextCtl(depth, words, old(State()), i)
      ensures i.reset ==> Contents() == []
      ensures old(doutValid ==> Contents() != [])
      ensures !i.reset ==> Contents() == NextQueue(old(Contents()), old(State()), i, din)
      ensures !i.reset ==> WordsMoved(depth, old(Snapshot()), Snapshot(), i, din)
    {
      hide Inv, NextCtl, NextQueue, Queue, NextStored, Push, Pop, Taken, Following, Head, ReadNext, Addressed,
           WordsMoved;
      ghost var x := Snapshot();
      ImageStep(depth, words, x, i, din, zero);
      if !i.reset {
        EdgeMoves(depth, words, x, i, din, zero);
      }
      HeadOut(State(), doutBuf, stored);
      var push, pop := Push(State(), i), Pop(State(), i);
      var wnext := if !push then waddr else Following(waddr, depth);
      var rnext := ReadNext(depth, State(), pop);
      ReadInside(depth, x, pop);
      WriteHistory(i, push, Taken(State(), i), NextStored(stored, State(), i, din), din);
      WriteData(i, push, pop, rnext, din);
      WriteControl(i, push, pop, wnext, rnext);
      assert Snapshot() == NextImage(depth, words, x, i, din, zero);
    }

    /** The ghost histories. */
    ghost method WriteHistory(i: Pins, push: bool, taken: bool, nextStored: seq<T>, din: T)
      modifies `stored, `accepted, `delivered
      ensures var x := old(Snapshot());
        Snapshot() == x.(stored := nextStored,
                         accepted := if i.reset then [] else x.accepted + (if push then [din] else []),
                         delivered := if i.reset then [] else x.delivered + (if taken then [x.dout] else []))
    {
      stored := nextStored;
      accepted := if i.reset then [] else accepted + (if push then [din] else []);
      delivered := if i.reset then [] else delivered + (if taken then [doutBuf] else []);
    }

    /** The blocks of the memory, q_buf, q_tmp and dout_buf. */
    method WriteData(i: Pins, push: bool, pop: bool, rnext: nat, din: T)
      requires waddr < mem.Length && rnext < mem.Length
      modifies mem, `qBuf, `qTmp, `doutBuf
      ensures var x := old(Snapshot());
        Snapshot() == x.(mem := if push then x.mem[waddr := din] else x.mem,
                         qBuf := x.mem[rnext],
                         qTmp := if i.reset then zero else if push then din else x.qTmp,
                         dout := if i.reset then zero else if pop then Head(x.s, x.qTmp, x.qBuf) else x.dout)
    {
      var head, atRnext := if showAhead then qTmp else qBuf, mem[rnext];
      if push {
        mem[waddr] := din;
      }
      qBuf := atRnext;
      if i.reset {
        qTmp, doutBuf := zero, zero;
      } else {
        if push {
          qTmp := din;
        }
        if pop {
          doutBuf := head;
        }
      }
    }

    /** The blocks of the control registers. */
    method WriteControl(i: Pins, push: bool, pop: bool, wnext: nat, rnext: nat)
      requires words >= 1 && push == Push(State(), i) && pop == Pop(State(), i)
      requires wnext == (if push then Following(waddr, depth) else waddr)
      requires rnext == ReadNext(depth, State(), pop)
      modifies `waddr, `raddr, `usedw, `fullN, `afullN, `emptyN, `showAhead, `doutValid
      ensures State() == NextCtl(depth, words, old(State()), i)
    {
      hide Following, Inc, Dec, Push, Pop;
      var used, grows, shrinks := usedw, push && !pop, !push && pop;
      waddr := if i.reset then 0 else wnext;
      raddr := if i.reset then 0 else rnext;
      usedw := if i.reset then 0 else if grows then Inc(used, words) else if shrinks then Dec(used, words) else used;
      fullN := if i.reset then true else if grows then used != depth - 1 else if shrinks then true else fullN;
      afullN := if i.reset then true
                else if grows then used != depth - 2 && used != depth - 1
                else if shrinks && used == depth - 2 then true else afullN;
      emptyN := if i.reset then false else if grows then true else if shrinks then used != 1 else emptyN;
      showAhead := !i.reset && push && used == (if pop then 1 else 0);
      doutValid := if i.reset then false else if pop then true else if i.readCe && i.read then false else doutValid;
    }
  }
}

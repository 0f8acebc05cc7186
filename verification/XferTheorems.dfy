// In-order delivery over whole runs, from memqWrite to the acknowledgement.
module XferTheorems {
  import opened Wrappers
  import opened MemqSpec
  import opened MemqFifo
  import opened MemqTheorems
  import opened MemqRestart
  import opened MemqCrashes
  import opened XferSpec
  import F = Flash

  // ---------------------------------------------------------------- what is to be delivered

  predicate TakesOk(taken: seq<Take>) {
    forall i :: 0 <= i < |taken| ==> |taken[i].pkt| >= 8
  }

  // The good packets among those that left the queue, in order.
  function Wanted(taken: seq<Take>): seq<Packet>
    requires TakesOk(taken)
    decreases |taken|
  {
    if taken == [] then []
    else
      var t := taken[|taken| - 1];
      Wanted(taken[..|taken| - 1]) + if Good(t.pkt, t.now) then [t.pkt] else []
  }

  function InHand(d: Device): seq<Packet> {
    if d.held then [d.buf] else []
  }

  function Tries(x: Xfer): nat {
    if x.maxTry == 0 then 1 else x.maxTry
  }

  ghost predicate BurstOk(b: Burst, wanted: seq<Packet>, tries: nat) {
    && |b.packets| <= tries
    && (b.packets != [] ==> b.at < |wanted| && forall i :: 0 <= i < |b.packets| ==> b.packets[i] == wanted[b.at])
  }

  ghost predicate BurstsOk(bursts: seq<Burst>, wanted: seq<Packet>, tries: nat) {
    forall i :: 0 <= i < |bursts| ==> BurstOk(bursts[i], wanted, tries)
  }

  // The packets given out are the oldest accepted ones.
  ghost predicate TakenOf(log: seq<Packet>, read: nat, taken: seq<Take>) {
    |taken| == read <= |log| && forall i :: 0 <= i < |taken| ==> taken[i].pkt == log[i]
  }

  ghost predicate Ordered(bursts: seq<Burst>, acked: nat) {
    forall i :: 0 <= i < |bursts| ==> bursts[i].at <= acked && (i > 0 ==> bursts[i - 1].at <= bursts[i].at)
  }

  // The state machine against the last burst.
  ghost predicate ControlHolds(d: Device, x: Xfer, tr: Trace) {
    var len := if tr.bursts == [] then 0 else |tr.bursts[|tr.bursts| - 1].packets|;
    && x.maxTry < 256
    && (x.sendState == ServerSend || x.sendState == WaitAck || x.sendState == Failed ==>
          d.held && x.ptr && tr.bursts != [] && tr.bursts[|tr.bursts| - 1].at == |tr.acked|
          && x.tryCount == len)
    && (x.sendState == ServerSend ==> len < Tries(x))
    && (x.sendState == WaitAck ==> d.air == d.buf)
    && (x.sendState == SendSuccess ==> !d.held && x.ptr)
    && x.sendState != ToJson
    && (!x.ptr && !x.isReady ==> !d.held)
    && (!x.isReady ==> x.sendState == ReadMem || (x.sendState == Failed && x.tryCount >= x.maxTry))
  }

  ghost predicate Delivers(d: Device, x: Xfer, tr: Trace)
    requires TakesOk(tr.taken)
  {
    && tr.acked + InHand(d) == Wanted(tr.taken)
    && (d.held ==> tr.taken != [] && Good(tr.taken[|tr.taken| - 1].pkt, tr.taken[|tr.taken| - 1].now))
    && BurstsOk(tr.bursts, Wanted(tr.taken), Tries(x))
    && Ordered(tr.bursts, |tr.acked|)
  }

  ghost predicate DeviceInv(d: Device, x: Xfer, tr: Trace) {
    TakesOk(tr.taken) && ControlHolds(d, x, tr) && Delivers(d, x, tr)
  }

  ghost predicate NodeInv(c: Config, n: Node, h: History, tr: Trace) {
    && c.packetLen >= 8
    && Inv(c, n.memq, h)
    && TakenOf(h.log, h.read, tr.taken)
    && DeviceInv(n.dev, n.xfer, tr)
  }

  // ---------------------------------------------------------------- one step

  lemma WantedNext(taken: seq<Take>, t: Take)
    requires TakesOk(taken) && |t.pkt| >= 8
    ensures TakesOk(taken + [t])
    ensures Wanted(taken + [t]) == Wanted(taken) + if Good(t.pkt, t.now) then [t.pkt] else []
  {
    assert (taken + [t])[..|taken|] == taken;
  }

  lemma MoreWanted(bursts: seq<Burst>, wanted: seq<Packet>, more: seq<Packet>, tries: nat)
    requires BurstsOk(bursts, wanted, tries)
    ensures BurstsOk(bursts, wanted + more, tries)
  {
    forall i | 0 <= i < |bursts|
      ensures BurstOk(bursts[i], wanted + more, tries)
    {
      assert BurstOk(bursts[i], wanted, tries);
      MoreForBurst(bursts[i], wanted, more, tries);
    }
  }

  lemma MoreForBurst(b: Burst, wanted: seq<Packet>, more: seq<Packet>, tries: nat)
    requires BurstOk(b, wanted, tries)
    ensures BurstOk(b, wanted + more, tries)
  {
  }

  function HistNode(c: Config, n: Node, h: History, op: NodeOp): History
    requires Shape(c, n.memq)
  {
    match op
    case Sample(pkt) => HistWrite(c, n.memq, h, pkt)
    case Persist => HistStep(c, n.memq, h, Save)
    case Ready => h
    case Loop(_, _) =>
      if n.xfer.isReady && n.xfer.sendState == ReadMem && !n.dev.held then HistRead(c, n.memq, h) else h
  }

  // A visit of ReadMem with nothing in hand, whatever the queue gives.
  lemma VisitKeeps(d: Device, x: Xfer, tr: Trace, pkt: Option<Packet>, now: nat)
    requires DeviceInv(d, x, tr) && x.isReady && x.sendState == ReadMem && !d.held
    requires pkt.Some? ==> |pkt.value| >= 8
    ensures var d1 := TakeIn(d, pkt, now);
            DeviceInv(d1, XferRead(x, d1.held), SeeRead(tr, pkt, now))
  {
    if pkt.Some? {
      var t := Take(pkt.value, now);
      WantedNext(tr.taken, t);
      MoreWanted(tr.bursts, Wanted(tr.taken), if Good(t.pkt, t.now) then [t.pkt] else [], Tries(x));
    }
  }

  lemma ReadFromQueue(c: Config, n: Node, h: History, tr: Trace, op: NodeOp)
    requires NodeInv(c, n, h, tr) && c.SectorsFit() && op.Loop?
    requires n.xfer.isReady && n.xfer.sendState == ReadMem && !n.dev.held
    ensures NodeInv(c, NodeStep(c, n, op), HistNode(c, n, h, op), Observe(c, n, op, tr))
  {
    ReadKeeps(c, n.memq, h);
    ReadsNext(c, n.memq, h);
    VisitKeeps(n.dev, n.xfer, tr, ReadStep(c, n.memq).1, op.now);
  }

  lemma ReadsNext(c: Config, s: State, h: History)
    requires Inv(c, s, h) && c.SectorsFit()
    ensures var h' := HistRead(c, s, h);
            && h'.log == h.log && h'.read == h.read + (if ReadStep(c, s).1.Some? then 1 else 0) <= |h.log|
            && (ReadStep(c, s).1.Some? ==> ReadStep(c, s).1.value == h.log[h.read])
  {
    ReadKeeps(c, s, h);
  }

  lemma SendKeeps(d: Device, x: Xfer, tr: Trace)
    requires DeviceInv(d, x, tr) && x.isReady && x.sendState == ServerSend
    ensures DeviceInv(DeviceRfSend(d), x.(tryCount := (x.tryCount + 1) % 256, sendState := WaitAck),
                      tr.(bursts := AddSend(tr.bursts, d.buf)))
  {
    var last := tr.bursts[|tr.bursts| - 1];
    assert BurstOk(last, Wanted(tr.taken), Tries(x));
    assert Wanted(tr.taken)[|tr.acked|] == d.buf;
  }

  lemma AckKeeps(d: Device, x: Xfer, tr: Trace, ack: bool)
    requires DeviceInv(d, x, tr) && x.isReady && x.sendState == WaitAck
    ensures DeviceInv(DeviceRfAckWait(d, ack).0, x.(sendState := if ack then SendSuccess else Failed),
                      if ack then tr.(acked := tr.acked + [d.air]) else tr)
  {
    if ack {
      assert tr.acked + [d.air] + [] == Wanted(tr.taken);
    }
  }

  // A visit of ReadMem with a packet in hand starts a new burst for it.
  lemma RevisitKeeps(d: Device, x: Xfer, tr: Trace, now: nat)
    requires DeviceInv(d, x, tr) && x.isReady && x.sendState == ReadMem && d.held
    ensures DeviceInv(d, XferRead(x, true), SeeRead(tr, None, now))
  {
  }

  lemma FailedKeeps(d: Device, x: Xfer, tr: Trace)
    requires DeviceInv(d, x, tr) && x.isReady && x.sendState == Failed
    ensures DeviceInv(d, if x.tryCount < x.maxTry then x.(sendState := ServerSend) else x.(isReady := false), tr)
  {
  }

  lemma LoopKeeps(c: Config, n: Node, h: History, tr: Trace, op: NodeOp)
    requires NodeInv(c, n, h, tr) && c.SectorsFit() && op.Loop?
    ensures NodeInv(c, NodeStep(c, n, op), HistNode(c, n, h, op), Observe(c, n, op, tr))
  {
    if n.xfer.isReady {
      match n.xfer.sendState
      case ServerSend => SendKeeps(n.dev, n.xfer, tr);
      case WaitAck => AckKeeps(n.dev, n.xfer, tr, op.ack);
      case ReadMem =>
        if n.dev.held {
          RevisitKeeps(n.dev, n.xfer, tr, op.now);
        } else {
          ReadFromQueue(c, n, h, tr, op);
        }
      case Failed => FailedKeeps(n.dev, n.xfer, tr);
      case SendSuccess =>
    }
  }

  lemma NodeStepKeeps(c: Config, n: Node, h: History, tr: Trace, op: NodeOp)
    requires NodeInv(c, n, h, tr) && c.SectorsFit() && NodeOpOk(c, op)
    ensures NodeInv(c, NodeStep(c, n, op), HistNode(c, n, h, op), Observe(c, n, op, tr))
  {
    match op
    case Sample(pkt) => WriteKeeps(c, n.memq, h, pkt);
    case Persist => SaveKeeps(c, n.memq, h);
    case Ready =>
    case Loop(_, _) => LoopKeeps(c, n, h, tr, op);
  }

  // ---------------------------------------------------------------- runs

  function HistRun(c: Config, n: Node, h: History, ops: seq<NodeOp>): History
    requires Shape(c, n.memq) && c.packetLen >= 8 && NodeOpsOk(c, ops)
    decreases |ops|
  {
    if ops == [] then h else HistRun(c, NodeStep(c, n, ops[0]), HistNode(c, n, h, ops[0]), ops[1..])
  }

  lemma {:induction false} RunKeeps(c: Config, n: Node, h: History, tr: Trace, ops: seq<NodeOp>)
    requires NodeInv(c, n, h, tr) && c.SectorsFit() && NodeOpsOk(c, ops)
    ensures NodeInv(c, NodeAfter(c, n, ops), HistRun(c, n, h, ops), TraceAfter(c, n, ops, tr))
    decreases |ops|
  {
    if ops != [] {
      NodeStepKeeps(c, n, h, tr, ops[0]);
      RunKeeps(c, NodeStep(c, n, ops[0]), HistNode(c, n, h, ops[0]), Observe(c, n, ops[0], tr), ops[1..]);
    }
  }

  lemma LogOfStep(c: Config, n: Node, h: History, op: NodeOp)
    requires Shape(c, n.memq) && NodeOpOk(c, op)
    ensures HistNode(c, n, h, op).log == h.log + AcceptedNow(n, op)
  {
  }

  lemma Regroup(x: seq<Packet>, y: seq<Packet>, z: seq<Packet>)
    ensures x + y + z == x + (y + z)
  {
  }

  lemma MaxTryStays(c: Config, n: Node, op: NodeOp)
    requires Shape(c, n.memq) && c.packetLen >= 8 && NodeOpOk(c, op)
    ensures NodeStep(c, n, op).xfer.maxTry == n.xfer.maxTry
  {
  }

  lemma {:induction false} MaxTryKept(c: Config, n: Node, ops: seq<NodeOp>)
    requires Shape(c, n.memq) && c.packetLen >= 8 && NodeOpsOk(c, ops)
    ensures NodeAfter(c, n, ops).xfer.maxTry == n.xfer.maxTry
    decreases |ops|
  {
    if ops != [] {
      MaxTryStays(c, n, ops[0]);
      MaxTryKept(c, NodeStep(c, n, ops[0]), ops[1..]);
    }
  }

  lemma {:induction false} LogOfRun(c: Config, n: Node, h: History, ops: seq<NodeOp>)
    requires Shape(c, n.memq) && c.packetLen >= 8 && NodeOpsOk(c, ops)
    ensures HistRun(c, n, h, ops).log == h.log + Accepted(c, n, ops)
    decreases |ops|
  {
    if ops != [] {
      LogOfStep(c, n, h, ops[0]);
      Regroup(h.log, AcceptedNow(n, ops[0]), Accepted(c, NodeStep(c, n, ops[0]), ops[1..]));
      LogOfRun(c, NodeStep(c, n, ops[0]), HistNode(c, n, h, ops[0]), ops[1..]);
    }
  }

  const NoTrace := Trace([], [], [])

  lemma StartKeeps(c: Config, cells: seq<bv8>, maxTry: nat)
    requires c.Valid() && c.packetLen >= 8 && c.Last() <= |cells| && maxTry < 256
    ensures NodeInv(c, Start(ResetState(c, cells), maxTry), Fresh, NoTrace)
  {
    ResetKeeps(c, cells);
  }

  // Delivery from end to end: over any run of samples, saves, restarts of the sending loop and
  // calls of it, with any answers of the radio, the packets given out by the queue are the
  // oldest accepted ones in order, the acknowledged packets are the good ones of these in
  // order and once each, all but at most one still in hand; every transmission is of the
  // first packet not acknowledged, at most Tries of them for one visit of ReadMem.
  lemma InOrderDelivery(c: Config, cells: seq<bv8>, maxTry: nat, ops: seq<NodeOp>)
    requires c.Valid() && c.SectorsFit() && c.packetLen >= 8 && c.Last() <= |cells| && maxTry < 256
    requires NodeOpsOk(c, ops)
    ensures var n0 := Start(ResetState(c, cells), maxTry);
            var tr, n, sampled := TraceAfter(c, n0, ops, NoTrace), NodeAfter(c, n0, ops), Accepted(c, n0, ops);
            && TakesOk(tr.taken) && TakenOf(sampled, |tr.taken|, tr.taken)
            && tr.acked + InHand(n.dev) == Wanted(tr.taken)
            && Ordered(tr.bursts, |tr.acked|)
            && BurstsOk(tr.bursts, Wanted(tr.taken), if maxTry == 0 then 1 else maxTry)
  {
    var n0 := Start(ResetState(c, cells), maxTry);
    StartKeeps(c, cells, maxTry);
    RunKeeps(c, n0, Fresh, NoTrace, ops);
    LogOfRun(c, n0, Fresh, ops);
    MaxTryKept(c, n0, ops);
  }

  // What memqAvailable says at the end of such a run: the packets accepted and not given out,
  // unless the queue is completely full.
  lemma AvailableAfterRun(c: Config, cells: seq<bv8>, maxTry: nat, ops: seq<NodeOp>)
    requires c.Valid() && c.SectorsFit() && c.packetLen >= 8 && c.Last() <= |cells| && maxTry < 256
    requires NodeOpsOk(c, ops)
    ensures var n0 := Start(ResetState(c, cells), maxTry);
            var queued := |Accepted(c, n0, ops)| - |TraceAfter(c, n0, ops, NoTrace).taken|;
            Available(c, NodeAfter(c, n0, ops).memq.ptr) == queued <==> queued < c.totalPacket
  {
    var n0 := Start(ResetState(c, cells), maxTry);
    StartKeeps(c, cells, maxTry);
    RunKeeps(c, n0, Fresh, NoTrace, ops);
    LogOfRun(c, n0, Fresh, ops);
    AvailableIsExact(c, NodeAfter(c, n0, ops).memq, HistRun(c, n0, Fresh, ops));
  }

  // ---------------------------------------------------------------- one burst

  // The loop from ServerSend on, answered as listed, up to the first yes: send, wait, and
  // after a no the step that sends again or gives up.
  function Attempts(c: Config, n: Node, acks: seq<bool>, now: nat): (r: Node)
    requires Shape(c, n.memq) && c.packetLen >= 8
    ensures Shape(c, r.memq)
    decreases |acks|
  {
    if acks == [] then n
    else
      var waited := XferSendLoop(c, XferSendLoop(c, n, false, now), acks[0], now);
      if acks[0] then waited else Attempts(c, XferSendLoop(c, waited, false, now), acks[1..], now)
  }

  // A burst ends with the packet acknowledged exactly when one of its tries is answered;
  // otherwise the loop stops after the last try with the packet still in hand.
  lemma {:induction false} BurstOutcome(c: Config, n: Node, acks: seq<bool>, now: nat)
    requires Shape(c, n.memq) && c.packetLen >= 8
    requires n.xfer.isReady && n.xfer.sendState == ServerSend && n.dev.held && n.xfer.maxTry < 256
    requires n.xfer.tryCount + |acks| == Tries(n.xfer) && acks != []
    ensures var m := Attempts(c, n, acks, now);
            && m.memq == n.memq && m.dev.buf == m.dev.air == n.dev.buf
            && m.dev.held == (true !in acks)
            && m.xfer.isReady == (true in acks)
            && m.xfer.sendState == if true in acks then SendSuccess else Failed
    decreases |acks|
  {
    if !acks[0] && |acks| > 1 {
      var waited := XferSendLoop(c, XferSendLoop(c, n, false, now), acks[0], now);
      BurstOutcome(c, XferSendLoop(c, waited, false, now), acks[1..], now);
      assert acks == [acks[0]] + acks[1..];
    }
  }

  // After giving up, calls change nothing but still return true; the next start sends the
  // same packet again without touching the queue.
  lemma GivenUp(c: Config, n: Node, h: History, tr: Trace, ack: bool, now: nat)
    requires NodeInv(c, n, h, tr) && !n.xfer.isReady && n.dev.held
    ensures XferSendLoop(c, n, ack, now) == n && n.xfer.ptr
    ensures var again := XferSendLoop(c, n.(xfer := XferReady(n.xfer)), ack, now);
            && again.memq == n.memq && again.dev == n.dev
            && again.xfer.isReady && again.xfer.sendState == ServerSend && again.xfer.tryCount == 0
  {
  }

  // ---------------------------------------------------------------- power loss with a packet in hand

  // Power loss with a packet in hand: the restarted queue answers as the FIFO of the packets
  // read since the record and then all queued ones, exactly when its record resumes. The packet
  // in hand is the last of the former, and so comes again, unless the record is newer than the
  // read that took it.
  lemma {:induction false} InHandAfterPowerLoss(c: Config, n: Node, h: History, kept: nat, tr: Trace)
    requires NodeInv(c, n, h, tr) && RecordOf(c, n.memq, h, kept) && c.SectorsFit() && n.dev.held
    ensures h.saved <= h.read <= |h.log| && Shape(c, RestartStep(c, n.memq))
    ensures FifoFrom(c, RestartStep(c, n.memq), Fifo(h.log[h.saved..h.read] + h.log[h.read..], h.saved))
            <==> Resumable(n.memq) || OnlyZeros(c, n.memq)
    ensures h.read > 0 && h.log[h.read - 1] == n.dev.buf
    ensures n.memq.rom.tail == n.memq.ptr.tail <==> h.saved == h.read
  {
    RestartIsFifoExactly(c, n.memq, h, kept);
    assert h.log[h.saved..] == h.log[h.saved..h.read] + h.log[h.read..];
    SavedIsTail(c, n.memq, h);
    LastWanted(n.dev, tr);
  }

  // The visit of ReadMem that takes the last packet queued and leaves a blob with it: from then
  // until the next record, power loss loses the packet in hand, and the restarted queue hands
  // out blank packets.
  lemma DrainingVisit(c: Config, n: Node, h: History, kept: nat, tr: Trace, ack: bool, now: nat)
    requires NodeInv(c, n, h, tr) && RecordOf(c, n.memq, h, kept) && c.SectorsFit()
    requires n.xfer.isReady && n.xfer.sendState == ReadMem && !n.dev.held
    requires h.read + 1 == |h.log| && Good(h.log[h.read], now)
    requires Tail(c, h) + 1 == c.totalPacket || InBlob(c, h) + 1 == c.PerBlob()
    ensures var n1 := NodeStep(c, n, Loop(ack, now));
            && n1.dev.held && n1.dev.buf == h.log[h.read]
            && n1.memq.rom.head == n1.memq.ptr.head && n1.memq.rom.tail == n1.memq.ptr.tail && !Resumable(n1.memq)
            && Shape(c, RestartStep(c, n1.memq))
            && ReadStep(c, RestartStep(c, n1.memq)).1 == Some(F.Blank(c.packetLen))
  {
    ReadKeeps(c, n.memq, h);
    ReadKeepsRecord(c, n.memq, h, kept);
    DrainingReadRecord(c, n.memq, h);
    DrainedReadsBlank(c, ReadStep(c, n.memq).0, HistRead(c, n.memq, h), KeptStep(c, n.memq, h, kept, Read));
    RecordSlots(c, ReadStep(c, n.memq).0, HistRead(c, n.memq, h));
    SavedIsTail(c, ReadStep(c, n.memq).0, HistRead(c, n.memq, h));
  }

  lemma SavedIsTail(c: Config, s: State, h: History)
    requires PtrInv(c, s, h)
    ensures s.rom.tail == s.ptr.tail <==> h.saved == h.read
  {
    RecordSlots(c, s, h);
    SlotOrder(c, h.saved % c.totalPacket, Tail(c, h));
  }

  lemma LastWanted(d: Device, tr: Trace)
    requires TakesOk(tr.taken) && tr.acked + InHand(d) == Wanted(tr.taken) && d.held && tr.taken != []
    requires Good(tr.taken[|tr.taken| - 1].pkt, tr.taken[|tr.taken| - 1].now)
    ensures d.buf == tr.taken[|tr.taken| - 1].pkt
  {
    var w := Wanted(tr.taken);
    assert w[|w| - 1] == d.buf;
  }
}

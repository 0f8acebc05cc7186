// For every configuration a run of the node, from power-up, that ends with a packet in hand and
// a record from which a restart hands out blanks: fill a blob, deliver all packets but the last,
// and take that one.
module XferDrained {
  import opened Wrappers
  import opened Arith
  import opened MemqSpec
  import opened MemqFifo
  import opened MemqTheorems
  import opened MemqRestart
  import opened MemqCrashes
  import opened XferSpec
  import opened XferTheorems
  import F = Flash

  // A run and where it leads.
  datatype Place = Place(ops: seq<NodeOp>, n: Node, h: History, kept: nat, tr: Trace)

  ghost predicate Reached(c: Config, n0: Node, p: Place) {
    && c.Valid() && c.packetLen >= 8 && c.SectorsFit() && Shape(c, n0.memq) && NodeOpsOk(c, p.ops)
    && p.n == NodeAfter(c, n0, p.ops)
    && NodeInv(c, p.n, p.h, p.tr) && RecordOf(c, p.n.memq, p.h, p.kept)
  }

  lemma {:induction false} NodeAfterSnoc(c: Config, n: Node, ops: seq<NodeOp>, op: NodeOp)
    requires Shape(c, n.memq) && c.packetLen >= 8 && NodeOpsOk(c, ops) && NodeOpOk(c, op)
    ensures NodeOpsOk(c, ops + [op])
    ensures NodeAfter(c, n, ops + [op]) == NodeStep(c, NodeAfter(c, n, ops), op)
    decreases |ops|
  {
    if ops == [] {
      assert ops + [op] == [op];
      assert [op][1..] == [];
    } else {
      NodeAfterSnoc(c, NodeStep(c, n, ops[0]), ops[1..], op);
      assert (ops + [op])[1..] == ops[1..] + [op];
    }
  }

  function KeptNode(c: Config, n: Node, h: History, kept: nat, op: NodeOp): nat
    requires Shape(c, n.memq)
  {
    match op
    case Sample(pkt) => KeptStep(c, n.memq, h, kept, Write(pkt))
    case Persist => KeptStep(c, n.memq, h, kept, Save)
    case Ready => kept
    case Loop(_, _) =>
      if n.xfer.isReady && n.xfer.sendState == ReadMem && !n.dev.held then KeptStep(c, n.memq, h, kept, Read) else kept
  }

  lemma NodeRecord(c: Config, n: Node, h: History, kept: nat, tr: Trace, op: NodeOp)
    requires NodeInv(c, n, h, tr) && RecordOf(c, n.memq, h, kept) && c.SectorsFit() && NodeOpOk(c, op)
    ensures HistoryOk(c, HistNode(c, n, h, op))
    ensures RecordOf(c, NodeStep(c, n, op).memq, HistNode(c, n, h, op), KeptNode(c, n, h, kept, op))
  {
    match op
    case Sample(pkt) => StepKeepsRecord(c, n.memq, h, kept, Write(pkt));
    case Persist => StepKeepsRecord(c, n.memq, h, kept, Save);
    case Ready =>
    case Loop(_, _) =>
      if n.xfer.isReady && n.xfer.sendState == ReadMem && !n.dev.held {
        StepKeepsRecord(c, n.memq, h, kept, Read);
      }
  }

  function Next(c: Config, p: Place, op: NodeOp): Place
    requires Shape(c, p.n.memq) && c.packetLen >= 8 && NodeOpOk(c, op)
  {
    Place(p.ops + [op], NodeStep(c, p.n, op), HistNode(c, p.n, p.h, op), KeptNode(c, p.n, p.h, p.kept, op),
          Observe(c, p.n, op, p.tr))
  }

  lemma Extend(c: Config, n0: Node, p: Place, op: NodeOp)
    requires Reached(c, n0, p) && NodeOpOk(c, op)
    ensures Reached(c, n0, Next(c, p, op))
  {
    NodeAfterSnoc(c, n0, p.ops, op);
    NodeStepKeeps(c, p.n, p.h, p.tr, op);
    NodeRecord(c, p.n, p.h, p.kept, p.tr, op);
  }

  // All packets are the same good one.
  ghost predicate AllAre(log: seq<Packet>, pkt: Packet) {
    forall i :: 0 <= i < |log| ==> log[i] == pkt
  }

  // Ready to read, nothing in hand.
  predicate Idle(n: Node) {
    n.xfer.isReady && n.xfer.sendState == ReadMem && !n.dev.held
  }

  lemma {:induction false} Samples(c: Config, n0: Node, p: Place, pkt: Packet, m: nat) returns (p': Place)
    requires Reached(c, n0, p) && |pkt| == c.packetLen && AllAre(p.h.log, pkt)
    requires p.h.read == 0 && |p.h.log| + m <= c.totalPacket && Idle(p.n)
    ensures Reached(c, n0, p') && AllAre(p'.h.log, pkt) && Idle(p'.n)
    ensures p'.h.read == 0 && |p'.h.log| == |p.h.log| + m
    decreases m
  {
    if m == 0 {
      p' := p;
    } else {
      p' := SampleOne(c, n0, p, pkt);
      p' := Samples(c, n0, p', pkt, m - 1);
    }
  }

  lemma SampleOne(c: Config, n0: Node, p: Place, pkt: Packet) returns (p': Place)
    requires Reached(c, n0, p) && |pkt| == c.packetLen && AllAre(p.h.log, pkt)
    requires p.h.read == 0 && |p.h.log| < c.totalPacket && Idle(p.n)
    ensures Reached(c, n0, p') && AllAre(p'.h.log, pkt) && Idle(p'.n)
    ensures p'.h.read == 0 && |p'.h.log| == |p.h.log| + 1
  {
    ReadNothing(c, p.h);
    Extend(c, n0, p, Sample(pkt));
    p' := Next(c, p, Sample(pkt));
    LogOfStep(c, p.n, p.h, Sample(pkt));
    assert !p.n.memq.ptr.isLock;
    assert p'.h.log == p.h.log + [pkt];
  }

  lemma ReadNothing(c: Config, h: History)
    requires c.Valid() && h.read == 0
    ensures Tail(c, h) == InBlob(c, h) == 0
  {
    SmallMod(0, c.totalPacket);
    SmallMod(0, c.PerBlob());
  }

  // One packet from the queue to the acknowledgement.
  lemma Deliver(c: Config, n0: Node, p: Place, pkt: Packet, now: nat) returns (p': Place)
    requires Reached(c, n0, p) && |pkt| == c.packetLen && Good(pkt, now) && AllAre(p.h.log, pkt)
    requires p.h.read < |p.h.log| && Idle(p.n)
    ensures Reached(c, n0, p') && Idle(p'.n) && p'.h.log == p.h.log && p'.h.read == p.h.read + 1
  {
    ReadKeeps(c, p.n.memq, p.h);
    ReadsNext(c, p.n.memq, p.h);
    Extend(c, n0, p, Loop(false, now));
    var p1 := Next(c, p, Loop(false, now));
    assert p1.n.xfer.sendState == ServerSend && p1.n.xfer.isReady && p1.h.read == p.h.read + 1;
    Extend(c, n0, p1, Loop(false, now));
    var p2 := Next(c, p1, Loop(false, now));
    assert p2.n.xfer.sendState == WaitAck && p2.n.xfer.isReady && p2.h == p1.h;
    Extend(c, n0, p2, Loop(true, now));
    var p3 := Next(c, p2, Loop(true, now));
    assert p3.n.xfer.sendState == SendSuccess && p3.n.xfer.isReady && !p3.n.dev.held && p3.h == p1.h;
    Extend(c, n0, p3, Loop(false, now));
    p' := Next(c, p3, Loop(false, now));
  }

  lemma {:induction false} DeliverMany(c: Config, n0: Node, p: Place, pkt: Packet, now: nat, k: nat) returns (p': Place)
    requires Reached(c, n0, p) && |pkt| == c.packetLen && Good(pkt, now) && AllAre(p.h.log, pkt)
    requires p.h.read + k <= |p.h.log| && Idle(p.n)
    ensures Reached(c, n0, p') && Idle(p'.n) && p'.h.log == p.h.log && p'.h.read == p.h.read + k
    decreases k
  {
    if k == 0 {
      p' := p;
    } else {
      p' := Deliver(c, n0, p, pkt, now);
      p' := DeliverMany(c, n0, p', pkt, now, k - 1);
    }
  }

  lemma Begin(c: Config, cells: seq<bv8>, maxTry: nat) returns (p: Place)
    requires c.Valid() && c.SectorsFit() && c.packetLen >= 8 && c.Last() <= |cells| && maxTry < 256
    ensures Reached(c, Start(ResetState(c, cells), maxTry), p) && Idle(p.n) && p.h == Fresh
  {
    var n0 := Start(ResetState(c, cells), maxTry);
    StartKeeps(c, cells, maxTry);
    ResetIsKnown(c, cells);
    p := Place([], n0, Fresh, 0, NoTrace);
    Extend(c, n0, p, Ready);
    p := Next(c, p, Ready);
  }

  // The run, for every configuration, number of tries and good packet: at its end the packet is
  // in hand, and a restart loses it and reads a blank one.
  lemma DrainedNode(c: Config, cells: seq<bv8>, maxTry: nat, pkt: Packet, now: nat) returns (ops: seq<NodeOp>)
    requires c.Valid() && c.SectorsFit() && c.packetLen >= 8 && c.Last() <= |cells| && maxTry < 256
    requires |pkt| == c.packetLen && Good(pkt, now)
    ensures NodeOpsOk(c, ops)
    ensures var n := NodeAfter(c, Start(ResetState(c, cells), maxTry), ops);
            && n.dev.held && n.dev.buf == pkt && !Resumable(n.memq) && Shape(c, RestartStep(c, n.memq))
            && ReadStep(c, RestartStep(c, n.memq)).1 == Some(F.Blank(c.packetLen))
  {
    var n0 := Start(ResetState(c, cells), maxTry);
    var m := if c.PerBlob() < c.totalPacket then c.PerBlob() else c.totalPacket;
    var p := Begin(c, cells, maxTry);
    p := Samples(c, n0, p, pkt, m);
    p := DeliverMany(c, n0, p, pkt, now, m - 1);
    SmallMod(m - 1, c.totalPacket);
    SmallMod(m - 1, c.PerBlob());
    DrainingVisit(c, p.n, p.h, p.kept, p.tr, false, now);
    Extend(c, n0, p, Loop(false, now));
    ops := Next(c, p, Loop(false, now)).ops;
  }
}

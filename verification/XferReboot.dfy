// Delivery over whole lives of a node: any mix of samples, saves, sessions, loop calls, reboots
// and power cuts inside a read.
module XferReboot {
  import opened Wrappers
  import opened MemqSpec
  import opened MemqFifo
  import opened MemqTheorems
  import opened MemqRestart
  import opened MemqCrashes
  import opened XferSpec
  import L = MemqLife
  import F = Flash

  datatype LifeOp = Run(op: NodeOp) | Reboot | CutVisit

  // The node, the history of its queue, all packets accepted so far, and by number those that
  // were acknowledged, those that were taken and were not good, and those that were being read
  // when the power went.
  datatype Life = Life(n: Node, h: History, kept: nat, sent: seq<Packet>,
                       acked: set<nat>, dropped: set<nat>, lost: set<nat>)
  {
    function Closed(): set<nat> {
      acked + dropped + lost
    }
  }

  // A blank packet is never kept, whatever the time.
  lemma BlankIsDropped(len: nat, now: nat)
    requires len >= 8
    ensures !Good(F.Blank(len), now)
  {
    assert F.Blank(len)[0] == 0xFF;
  }

  // A reboot finds a record that resumes. The power is cut inside a read only when there is a read.
  predicate LifeOpOk(c: Config, n: Node, op: LifeOp) {
    match op
    case Run(op) => NodeOpOk(c, op)
    case Reboot => Resumable(n.memq)
    case CutVisit => Resumable(n.memq) && n.xfer.isReady && n.xfer.sendState == ReadMem && !n.dev.held
  }

  // The queue holds the packets accepted, or blanks in the place of closed ones, and every
  // packet read is closed or the one in hand.
  ghost predicate BookOk(log: seq<Packet>, sent: seq<Packet>, read: nat, closed: set<nat>, held: bool, blank: Packet) {
    && |sent| == |log|
    && (forall i :: 0 <= i < |sent| ==> log[i] == sent[i] || (log[i] == blank && i in closed))
    && (forall i :: 0 <= i < read ==> i in closed || (held && i == read - 1))
  }

  ghost predicate HandOk(d: Device, x: Xfer, sent: seq<Packet>, read: nat) {
    && (d.held ==> 0 < read <= |sent| && d.buf == sent[read - 1])
    && (x.sendState == ServerSend || x.sendState == WaitAck || x.sendState == Failed ==> d.held)
    && (x.sendState == WaitAck ==> d.air == d.buf)
    && (x.sendState == SendSuccess ==> !d.held)
  }

  ghost predicate LifeInv(c: Config, l: Life) {
    && c.packetLen >= 8 && Known(c, l.n.memq, l.h, l.kept)
    && BookOk(l.h.log, l.sent, l.h.read, l.Closed(), l.n.dev.held, F.Blank(c.packetLen))
    && HandOk(l.n.dev, l.n.xfer, l.sent, l.h.read)
  }

  // ---------------------------------------------------------------- steps

  ghost predicate Visits(n: Node, op: NodeOp) {
    op.Loop? && n.xfer.isReady && n.xfer.sendState == ReadMem && !n.dev.held
  }

  // What a node operation does: a sample and a save are queue operations, a visit of ReadMem
  // with nothing in hand reads the queue, everything else leaves the queue alone.
  ghost function RunStep(c: Config, l: Life, op: NodeOp): Life
    requires LifeInv(c, l) && NodeOpOk(c, op)
  {
    var s, n1 := l.n.memq, NodeStep(c, l.n, op);
    if op.Sample? then
      l.(n := n1, h := HistWrite(c, s, l.h, op.pkt), kept := KeptStep(c, s, l.h, l.kept, Write(op.pkt)),
         sent := if s.ptr.isLock then l.sent else l.sent + [op.pkt])
    else if op.Persist? then
      l.(n := n1, h := HistStep(c, s, l.h, Save), kept := KeptStep(c, s, l.h, l.kept, Save))
    else if Visits(l.n, op) then
      l.(n := n1, h := HistRead(c, s, l.h), kept := KeptStep(c, s, l.h, l.kept, Read),
         dropped := l.dropped + Dropped(l.sent, l.h.read, ReadStep(c, s).1, op.now))
    else
      l.(n := n1, acked := l.acked + Acked(l.n, l.sent, l.h.read, op))
  }

  // The packet just read is not good.
  ghost function Dropped(sent: seq<Packet>, read: nat, out: Option<Packet>, now: nat): set<nat> {
    if read < |sent| && |sent[read]| >= 8 && out == Some(sent[read]) && !Good(sent[read], now) then {read} else {}
  }

  // The radio reports that the packet in hand, which is the last one it sent, has arrived.
  ghost function Acked(n: Node, sent: seq<Packet>, read: nat, op: NodeOp): set<nat> {
    if op.Loop? && op.ack && n.xfer.isReady && n.xfer.sendState == WaitAck && 0 < read <= |sent| && n.dev.air == sent[read - 1]
    then {read - 1} else {}
  }

  ghost function LifeStep(c: Config, l: Life, op: LifeOp): Life
    requires LifeInv(c, l) && LifeOpOk(c, l.n, op)
  {
    match op
    case Run(op) => RunStep(c, l, op)
    case Reboot => Rebooted(c, l)
    case CutVisit =>
      if Leaves(c, l.n.memq, l.h) then
        l.(n := Start(RestartStep(c, CutErase(c, l.n.memq)), l.n.xfer.maxTry), h := Wiped(c, l.h), kept := |l.h.log|,
           lost := l.lost + Open(l, l.h.read))
      else Rebooted(c, l)
  }

  // A packet that a power loss takes away is lost unless it was closed before.
  function Open(l: Life, i: nat): set<nat> {
    if i in l.Closed() then {} else {i}
  }

  // A packet in hand whose record is as new as the read that took it.
  predicate Forgotten(n: Node) {
    n.dev.held && n.memq.rom.tail == n.memq.ptr.tail
  }

  // The packets that a step loses: the one being read at a cut that leaves a blob, and the one
  // in hand at a reboot that forgets it.
  ghost function Loss(c: Config, l: Life, op: LifeOp): set<nat>
    requires LifeInv(c, l)
  {
    if op.CutVisit? && Leaves(c, l.n.memq, l.h) then Open(l, l.h.read)
    else if op.Reboot? && Forgotten(l.n) && l.h.read > 0 then Open(l, l.h.read - 1)
    else {}
  }

  function Rebooted(c: Config, l: Life): Life
    requires Shape(c, l.n.memq)
  {
    l.(n := Start(RestartStep(c, l.n.memq), l.n.xfer.maxTry), h := Resumed(l.h), kept := |l.h.log|,
       lost := l.lost + if Forgotten(l.n) && l.h.read > 0 then Open(l, l.h.read - 1) else {})
  }

  // ---------------------------------------------------------------- the book, step by step

  lemma BookAppend(log: seq<Packet>, sent: seq<Packet>, read: nat, closed: set<nat>, held: bool, blank: Packet, pkt: Packet)
    requires BookOk(log, sent, read, closed, held, blank)
    ensures BookOk(log + [pkt], sent + [pkt], read, closed, held, blank)
  {
  }

  lemma BookTake(log: seq<Packet>, sent: seq<Packet>, read: nat, closed: set<nat>, blank: Packet, more: set<nat>, held: bool)
    requires BookOk(log, sent, read, closed, false, blank)
    requires held || read in closed + more
    ensures BookOk(log, sent, read + 1, closed + more, held, blank)
  {
  }

  lemma BookClose(log: seq<Packet>, sent: seq<Packet>, read: nat, closed: set<nat>, blank: Packet)
    requires BookOk(log, sent, read, closed, true, blank) && read > 0
    ensures BookOk(log, sent, read, closed + {read - 1}, false, blank)
  {
  }

  lemma BookBack(log: seq<Packet>, sent: seq<Packet>, read: nat, closed: set<nat>, held: bool, blank: Packet, saved: nat)
    requires BookOk(log, sent, read, closed, held, blank) && saved <= read && (held ==> saved < read)
    ensures BookOk(log, sent, saved, closed, false, blank)
  {
  }

  lemma BookWipe(log: seq<Packet>, log': seq<Packet>, sent: seq<Packet>, read: nat, closed: set<nat>, more: set<nat>,
                 blank: Packet, saved: nat)
    requires BookOk(log, sent, read, closed, false, blank) && saved <= read && |log'| == |log|
    requires read in closed + more
    requires forall i :: 0 <= i < |log| ==> log'[i] == log[i] || (log'[i] == blank && i <= read)
    ensures BookOk(log', sent, saved, closed + more, false, blank)
  {
  }

  // The packet in hand is forgotten.
  lemma BookForget(log: seq<Packet>, sent: seq<Packet>, read: nat, closed: set<nat>, more: set<nat>, blank: Packet)
    requires BookOk(log, sent, read, closed, true, blank) && read > 0 && read - 1 in closed + more
    ensures BookOk(log, sent, read, closed + more, false, blank)
  {
  }

  // ---------------------------------------------------------------- each step keeps the invariant

  lemma SampleLives(c: Config, l: Life, pkt: Packet)
    requires LifeInv(c, l) && c.SectorsFit() && |pkt| == c.packetLen
    ensures LifeInv(c, RunStep(c, l, Sample(pkt)))
  {
    StepKeepsRecord(c, l.n.memq, l.h, l.kept, Write(pkt));
    BookAppend(l.h.log, l.sent, l.h.read, l.Closed(), l.n.dev.held, F.Blank(c.packetLen), pkt);
  }

  // What a visit takes is the next packet, or a blank in the place of a closed one.
  lemma VisitTakes(c: Config, l: Life, now: nat)
    requires LifeInv(c, l) && c.SectorsFit() && l.h.read < |l.h.log|
    ensures var out := ReadStep(c, l.n.memq).1;
            && out == Some(l.h.log[l.h.read]) && |l.h.log[l.h.read]| == c.packetLen
            && HistRead(c, l.n.memq, l.h).log == l.h.log && HistRead(c, l.n.memq, l.h).read == l.h.read + 1
            && (Good(l.h.log[l.h.read], now) ==> l.h.log[l.h.read] == l.sent[l.h.read])
            && (!Good(l.h.log[l.h.read], now) ==> l.h.read in l.Closed() + Dropped(l.sent, l.h.read, out, now))
  {
    L.ReadsNext(c, l.n.memq, l.h);
    BlankIsDropped(c.packetLen, now);
  }

  lemma VisitLives(c: Config, l: Life, op: NodeOp)
    requires LifeInv(c, l) && c.SectorsFit() && Visits(l.n, op)
    ensures LifeInv(c, RunStep(c, l, op))
  {
    StepKeepsRecord(c, l.n.memq, l.h, l.kept, Read);
    if l.h.read < |l.h.log| {
      VisitFinds(c, l, op);
    } else {
      VisitFindsNothing(c, l, op);
    }
  }

  lemma VisitFinds(c: Config, l: Life, op: NodeOp)
    requires LifeInv(c, l) && c.SectorsFit() && Visits(l.n, op) && l.h.read < |l.h.log|
    requires Known(c, RunStep(c, l, op).n.memq, RunStep(c, l, op).h, RunStep(c, l, op).kept)
    ensures LifeInv(c, RunStep(c, l, op))
  {
    VisitTakes(c, l, op.now);
    var pkt := l.h.log[l.h.read];
    var more := Dropped(l.sent, l.h.read, ReadStep(c, l.n.memq).1, op.now);
    BookTake(l.h.log, l.sent, l.h.read, l.Closed(), F.Blank(c.packetLen), more, Good(pkt, op.now));
    var l1 := RunStep(c, l, op);
    assert l1.Closed() == l.Closed() + more;
    assert l1.n.dev == TakeIn(l.n.dev, Some(pkt), op.now) && l1.n.xfer == XferRead(l.n.xfer, Good(pkt, op.now));
    assert l1.h.log == l.h.log && l1.sent == l.sent && l1.h.read == l.h.read + 1;
  }

  lemma VisitFindsNothing(c: Config, l: Life, op: NodeOp)
    requires LifeInv(c, l) && c.SectorsFit() && Visits(l.n, op) && l.h.read == |l.h.log|
    requires Known(c, RunStep(c, l, op).n.memq, RunStep(c, l, op).h, RunStep(c, l, op).kept)
    ensures LifeInv(c, RunStep(c, l, op))
  {
    L.ReadsNext(c, l.n.memq, l.h);
    var l1 := RunStep(c, l, op);
    assert l1.Closed() == l.Closed();
    assert l1.n.dev == l.n.dev && l1.n.xfer == XferRead(l.n.xfer, false);
    assert l1.h.log == l.h.log && l1.sent == l.sent && l1.h.read == l.h.read;
  }

  lemma AckLives(c: Config, l: Life, op: NodeOp)
    requires LifeInv(c, l) && op.Loop? && op.ack && l.n.xfer.isReady && l.n.xfer.sendState == WaitAck
    ensures LifeInv(c, RunStep(c, l, op))
  {
    BookClose(l.h.log, l.sent, l.h.read, l.Closed(), F.Blank(c.packetLen));
    assert RunStep(c, l, op).Closed() == l.Closed() + {l.h.read - 1};
  }

  // Everything else keeps the queue, the packet in hand and the book.
  lemma OtherLives(c: Config, l: Life, op: NodeOp)
    requires LifeInv(c, l) && NodeOpOk(c, op) && !op.Sample? && !op.Persist? && !Visits(l.n, op)
    requires !(op.Loop? && op.ack && l.n.xfer.isReady && l.n.xfer.sendState == WaitAck)
    ensures LifeInv(c, RunStep(c, l, op))
  {
    assert Acked(l.n, l.sent, l.h.read, op) == {};
    assert RunStep(c, l, op).Closed() == l.Closed();
  }

  lemma PersistLives(c: Config, l: Life)
    requires LifeInv(c, l) && c.SectorsFit()
    ensures LifeInv(c, RunStep(c, l, Persist))
  {
    StepKeepsRecord(c, l.n.memq, l.h, l.kept, Save);
  }

  lemma RebootLives(c: Config, l: Life)
    requires LifeInv(c, l) && c.SectorsFit() && Resumable(l.n.memq)
    ensures LifeInv(c, Rebooted(c, l))
  {
    var s, blank := l.n.memq, F.Blank(c.packetLen);
    L.RestartIsKnown(c, s, l.h, l.kept);
    SameTails(c, s, l.h);
    if Forgotten(l.n) {
      BookForget(l.h.log, l.sent, l.h.read, l.Closed(), Open(l, l.h.read - 1), blank);
      assert Rebooted(c, l).Closed() == l.Closed() + Open(l, l.h.read - 1);
    } else {
      BookBack(l.h.log, l.sent, l.h.read, l.Closed(), l.n.dev.held, blank, l.h.saved);
      assert Rebooted(c, l).Closed() == l.Closed();
    }
  }

  lemma SameTails(c: Config, s: State, h: History)
    requires PtrInv(c, s, h)
    ensures h.saved <= h.read && (h.saved == h.read <==> s.rom.tail == s.ptr.tail)
  {
    RecordSlots(c, s, h);
    SlotOrder(c, h.saved % c.totalPacket, Tail(c, h));
  }

  lemma CutVisitLives(c: Config, l: Life)
    requires LifeInv(c, l) && c.SectorsFit() && LifeOpOk(c, l.n, CutVisit) && Leaves(c, l.n.memq, l.h)
    ensures LifeInv(c, LifeStep(c, l, CutVisit))
  {
    CutResumes(c, l.n.memq, l.h, l.kept);
    var log' := Wiped(c, l.h).log;
    forall i | 0 <= i < |l.h.log|
      ensures log'[i] == l.h.log[i] || (log'[i] == F.Blank(c.packetLen) && i <= l.h.read)
    {
      WipedPacket(c, l.h, i);
    }
    BookWipe(l.h.log, log', l.sent, l.h.read, l.Closed(), Open(l, l.h.read), F.Blank(c.packetLen), l.h.saved);
    assert LifeStep(c, l, CutVisit).Closed() == l.Closed() + Open(l, l.h.read);
  }

  lemma RunLives(c: Config, l: Life, op: NodeOp)
    requires LifeInv(c, l) && c.SectorsFit() && NodeOpOk(c, op)
    ensures LifeInv(c, RunStep(c, l, op))
  {
    if op.Sample? {
      SampleLives(c, l, op.pkt);
    } else if op.Persist? {
      PersistLives(c, l);
    } else if Visits(l.n, op) {
      VisitLives(c, l, op);
    } else if op.Loop? && op.ack && l.n.xfer.isReady && l.n.xfer.sendState == WaitAck {
      AckLives(c, l, op);
    } else {
      OtherLives(c, l, op);
    }
  }

  lemma StepLives(c: Config, l: Life, op: LifeOp)
    requires LifeInv(c, l) && c.SectorsFit() && LifeOpOk(c, l.n, op)
    ensures LifeInv(c, LifeStep(c, l, op))
  {
    match op
    case Run(op) => RunLives(c, l, op);
    case Reboot => RebootLives(c, l);
    case CutVisit => if Leaves(c, l.n.memq, l.h) { CutVisitLives(c, l); } else { RebootLives(c, l); }
  }

  // ---------------------------------------------------------------- runs

  ghost predicate Lives(c: Config, l: Life, ops: seq<LifeOp>)
    requires LifeInv(c, l) && c.SectorsFit()
    decreases |ops|
  {
    ops == [] || (LifeOpOk(c, l.n, ops[0]) &&
                  (StepLives(c, l, ops[0]); Lives(c, LifeStep(c, l, ops[0]), ops[1..])))
  }

  ghost function LifeAfter(c: Config, l: Life, ops: seq<LifeOp>): (r: Life)
    requires LifeInv(c, l) && c.SectorsFit() && Lives(c, l, ops)
    ensures LifeInv(c, r)
    decreases |ops|
  {
    if ops == [] then l
    else
      StepLives(c, l, ops[0]);
      LifeAfter(c, LifeStep(c, l, ops[0]), ops[1..])
  }

  ghost function NewLife(c: Config, cells: seq<bv8>, maxTry: nat): (l: Life)
    requires c.Valid() && c.Last() <= |cells| && c.packetLen >= 8
    ensures LifeInv(c, l)
  {
    ResetIsKnown(c, cells);
    Life(Start(ResetState(c, cells), maxTry), Fresh, 0, [], {}, {}, {})
  }

  // What a step adds to the lost packets.
  lemma StepLoses(c: Config, l: Life, op: LifeOp)
    requires LifeInv(c, l) && LifeOpOk(c, l.n, op)
    ensures LifeStep(c, l, op).lost == l.lost + Loss(c, l, op)
    ensures Loss(c, l, op) !! l.lost
  {
  }

  // No step of the life loses a packet.
  ghost predicate Lossless(c: Config, l: Life, ops: seq<LifeOp>)
    requires LifeInv(c, l) && c.SectorsFit() && Lives(c, l, ops)
    decreases |ops|
  {
    ops == [] || (Loss(c, l, ops[0]) == {}
                  && (StepLives(c, l, ops[0]); Lossless(c, LifeStep(c, l, ops[0]), ops[1..])))
  }

  lemma {:induction false} LostExactly(c: Config, l: Life, ops: seq<LifeOp>)
    requires LifeInv(c, l) && c.SectorsFit() && Lives(c, l, ops)
    ensures l.lost <= LifeAfter(c, l, ops).lost
    ensures LifeAfter(c, l, ops).lost == l.lost <==> Lossless(c, l, ops)
    decreases |ops|
  {
    if ops != [] {
      StepLives(c, l, ops[0]);
      StepLoses(c, l, ops[0]);
      LostExactly(c, LifeStep(c, l, ops[0]), ops[1..]);
      GrowsFrom(l.lost, Loss(c, l, ops[0]), LifeAfter(c, l, ops).lost);
    }
  }

  lemma GrowsFrom(before: set<nat>, more: set<nat>, after: set<nat>)
    requires more !! before && before + more <= after
    ensures after == before ==> more == {}
  {
    if i :| i in more {
      assert i in after && i !in before;
    }
  }

  lemma {:induction false} ClosedOrInHand(c: Config, l: Life, ops: seq<LifeOp>)
    requires LifeInv(c, l) && c.SectorsFit() && Lives(c, l, ops)
    ensures var m := LifeAfter(c, l, ops);
            && (forall i :: 0 <= i < m.h.read ==>
                  i in m.acked || i in m.dropped || i in m.lost || (m.n.dev.held && i == m.h.read - 1))
            && (m.n.dev.held ==> 0 < m.h.read <= |m.sent| && m.n.dev.buf == m.sent[m.h.read - 1])
    decreases |ops|
  {
    if ops == [] {
      BookReads(l.h.log, l.sent, l.h.read, l.acked, l.dropped, l.lost, l.n.dev.held, F.Blank(c.packetLen));
    } else {
      StepLives(c, l, ops[0]);
      ClosedOrInHand(c, LifeStep(c, l, ops[0]), ops[1..]);
    }
  }

  lemma BookReads(log: seq<Packet>, sent: seq<Packet>, read: nat, acked: set<nat>, dropped: set<nat>, lost: set<nat>,
                  held: bool, blank: Packet)
    requires BookOk(log, sent, read, acked + dropped + lost, held, blank)
    ensures forall i :: 0 <= i < read ==> i in acked || i in dropped || i in lost || (held && i == read - 1)
  {
    forall i | 0 <= i < read
      ensures i in acked || i in dropped || i in lost || (held && i == read - 1)
    {
      assert i in acked + dropped + lost || (held && i == read - 1);
    }
  }

  // At-least-once delivery over reboots: every accepted packet that the queue's tail has passed
  // was acknowledged, or taken when it was not good, or is in hand, or is lost; and a life loses
  // no packet exactly if none of its steps is a cut that leaves a blob while a new packet is read
  // or a reboot that forgets a new packet in hand.
  lemma {:induction false} AtLeastOnceDelivery(c: Config, cells: seq<bv8>, maxTry: nat, ops: seq<LifeOp>)
    requires c.Valid() && c.SectorsFit() && c.Last() <= |cells| && c.packetLen >= 8
    requires Lives(c, NewLife(c, cells, maxTry), ops)
    ensures var l := LifeAfter(c, NewLife(c, cells, maxTry), ops);
            && (forall i :: 0 <= i < l.h.read ==>
                  i in l.acked || i in l.dropped || i in l.lost || (l.n.dev.held && i == l.h.read - 1))
            && (l.n.dev.held ==> 0 < l.h.read <= |l.sent| && l.n.dev.buf == l.sent[l.h.read - 1])
            && (l.lost == {} <==> Lossless(c, NewLife(c, cells, maxTry), ops))
  {
    ClosedOrInHand(c, NewLife(c, cells, maxTry), ops);
    LostExactly(c, NewLife(c, cells, maxTry), ops);
  }
}

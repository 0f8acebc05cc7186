// A session of the sending loop: it drains the queue when its packets are answered, and it ends
// whatever the radio answers.
module XferSession {
  import opened Wrappers
  import opened Arith
  import opened MemqSpec
  import opened MemqFifo
  import opened MemqTheorems
  import opened XferSpec
  import opened XferTheorems
  import opened XferDrained

  // What the calls of a run return, one by one.
  function Results(c: Config, n: Node, ops: seq<NodeOp>): seq<bool>
    requires Shape(c, n.memq) && c.packetLen >= 8 && NodeOpsOk(c, ops)
    decreases |ops|
  {
    if ops == [] then []
    else
      var n1 := NodeStep(c, n, ops[0]);
      [n1.xfer.ptr || n1.xfer.isReady] + Results(c, n1, ops[1..])
  }

  // Calls of the loop at the times nows, each answered if it asks.
  function Answered(nows: seq<nat>): (ops: seq<NodeOp>)
    ensures |ops| == |nows| && forall i :: 0 <= i < |nows| ==> ops[i] == Loop(true, nows[i])
  {
    if nows == [] then [] else [Loop(true, nows[0])] + Answered(nows[1..])
  }

  // ---------------------------------------------------------------- runs one after the other

  lemma {:induction false} NodeAppend(c: Config, n: Node, a: seq<NodeOp>, b: seq<NodeOp>)
    requires Shape(c, n.memq) && c.packetLen >= 8 && NodeOpsOk(c, a) && NodeOpsOk(c, b)
    ensures NodeOpsOk(c, a + b) && NodeAfter(c, n, a + b) == NodeAfter(c, NodeAfter(c, n, a), b)
    decreases |a|
  {
    if a == [] {
      assert a + b == b;
    } else {
      assert (a + b)[1..] == a[1..] + b;
      NodeAppend(c, NodeStep(c, n, a[0]), a[1..], b);
    }
  }

  lemma {:induction false} TraceAppend(c: Config, n: Node, tr: Trace, a: seq<NodeOp>, b: seq<NodeOp>)
    requires Shape(c, n.memq) && c.packetLen >= 8 && NodeOpsOk(c, a) && NodeOpsOk(c, b) && NodeOpsOk(c, a + b)
    ensures TraceAfter(c, n, a + b, tr) == TraceAfter(c, NodeAfter(c, n, a), b, TraceAfter(c, n, a, tr))
    decreases |a|
  {
    if a == [] {
      assert a + b == b;
    } else {
      assert (a + b)[1..] == a[1..] + b;
      TraceAppend(c, NodeStep(c, n, a[0]), Observe(c, n, a[0], tr), a[1..], b);
    }
  }

  lemma {:induction false} ResultsAppend(c: Config, n: Node, a: seq<NodeOp>, b: seq<NodeOp>)
    requires Shape(c, n.memq) && c.packetLen >= 8 && NodeOpsOk(c, a) && NodeOpsOk(c, b) && NodeOpsOk(c, a + b)
    ensures Results(c, n, a + b) == Results(c, n, a) + Results(c, NodeAfter(c, n, a), b)
    decreases |a|
  {
    if a == [] {
      assert a + b == b;
    } else {
      assert (a + b)[1..] == a[1..] + b;
      ResultsAppend(c, NodeStep(c, n, a[0]), a[1..], b);
    }
  }

  // ---------------------------------------------------------------- one packet

  // The node at the point between two packets.
  ghost predicate Between(c: Config, n: Node, h: History, tr: Trace) {
    NodeInv(c, n, h, tr) && c.SectorsFit() && Idle(n)
  }

  // The visit that takes a good packet, and the three calls that send it.
  lemma TakesGood(c: Config, n: Node, h: History, tr: Trace, now: nat)
    requires Between(c, n, h, tr) && h.read < |h.log| && Good(h.log[h.read], now)
    ensures var n1, tr1 := NodeStep(c, n, Loop(true, now)), Observe(c, n, Loop(true, now), tr);
            && NodeInv(c, n1, History(h.log, h.read + 1, HistNode(c, n, h, Loop(true, now)).saved), tr1)
            && n1.dev == Device(true, h.log[h.read], n.dev.air)
            && n1.xfer == Xfer(true, ServerSend, true, 0, n.xfer.maxTry)
            && tr1.acked == tr.acked
  {
    NodeStepKeeps(c, n, h, tr, Loop(true, now));
    ReadKeeps(c, n.memq, h);
    ReadsNext(c, n.memq, h);
  }

  lemma SendsInHand(c: Config, n: Node, tr: Trace, nows: seq<nat>)
    requires Shape(c, n.memq) && c.packetLen >= 8 && |nows| == 3
    requires n.dev.held && n.xfer.isReady && n.xfer.sendState == ServerSend && n.xfer.ptr
    ensures var n3 := NodeAfter(c, n, Answered(nows));
            n3.memq == n.memq && Idle(n3) && n3.xfer.maxTry == n.xfer.maxTry
    ensures TraceAfter(c, n, Answered(nows), tr).acked == tr.acked + [n.dev.buf]
    ensures TraceAfter(c, n, Answered(nows), tr).taken == tr.taken
    ensures Results(c, n, Answered(nows)) == [true, true, true]
  {
    var ops := Answered(nows);
    var n1 := NodeStep(c, n, ops[0]);
    var n2 := NodeStep(c, n1, ops[1]);
    var n3 := NodeStep(c, n2, ops[2]);
    var tr1 := Observe(c, n, ops[0], tr);
    var tr2 := Observe(c, n1, ops[1], tr1);
    assert ops[1..][1..] == [ops[2]] && ops[1..][0] == ops[1];
    assert [ops[2]][1..] == [];
    assert NodeAfter(c, n2, [ops[2]]) == n3;
    assert NodeAfter(c, n1, ops[1..]) == n3;
    assert TraceAfter(c, n2, [ops[2]], tr2) == Observe(c, n2, ops[2], tr2);
    assert TraceAfter(c, n1, ops[1..], tr1) == Observe(c, n2, ops[2], tr2);
    assert Results(c, n2, [ops[2]]) == [true];
    assert Results(c, n1, ops[1..]) == [true, true];
  }

  // A time at which all packets from number i on would be sent.
  ghost predicate AllGood(log: seq<Packet>, i: nat, now: nat) {
    forall j :: i <= j < |log| ==> |log[j]| >= 8 && Good(log[j], now)
  }

  lemma OnePacket(c: Config, n: Node, h: History, tr: Trace, nows: seq<nat>) returns (h': History)
    requires Between(c, n, h, tr) && h.read < |h.log| && |nows| == 4 && Good(h.log[h.read], nows[0])
    ensures h'.log == h.log && h'.read == h.read + 1
    ensures Between(c, NodeAfter(c, n, Answered(nows)), h', TraceAfter(c, n, Answered(nows), tr))
    ensures TraceAfter(c, n, Answered(nows), tr).acked == tr.acked + [h.log[h.read]]
    ensures Results(c, n, Answered(nows)) == [true, true, true, true]
  {
    var op := Loop(true, nows[0]);
    var n1, tr1 := NodeStep(c, n, op), Observe(c, n, op, tr);
    h' := HistNode(c, n, h, op);
    TakesGood(c, n, h, tr, nows[0]);
    SendsInHand(c, n1, tr1, nows[1..]);
    assert Answered(nows)[0] == op && Answered(nows)[1..] == Answered(nows[1..]);
    RunKeeps(c, n1, h', tr1, Answered(nows[1..]));
    HistOfSending(c, n1, h', nows[1..]);
  }

  lemma HistOfSending(c: Config, n: Node, h: History, nows: seq<nat>)
    requires Shape(c, n.memq) && c.packetLen >= 8 && |nows| == 3
    requires n.xfer.isReady && n.xfer.sendState == ServerSend
    ensures HistRun(c, n, h, Answered(nows)) == h
  {
    var ops := Answered(nows);
    var n1 := NodeStep(c, n, ops[0]);
    var n2 := NodeStep(c, n1, ops[1]);
    assert ops[1..][1..] == [ops[2]] && ops[1..][0] == ops[1] && [ops[2]][1..] == [];
    assert HistRun(c, n2, h, [ops[2]]) == h;
    assert HistRun(c, n1, h, ops[1..]) == h;
  }

  // ---------------------------------------------------------------- the whole session

  // False from the last call and from no other.
  ghost predicate OnlyLastFalse(results: seq<bool>) {
    && results != [] && !results[|results| - 1]
    && forall i :: 0 <= i < |results| - 1 ==> results[i]
  }

  lemma {:induction false} AnsweredSplit(nows: seq<nat>, k: nat)
    requires k <= |nows|
    ensures Answered(nows) == Answered(nows[..k]) + Answered(nows[k..])
    decreases k
  {
    if k == 0 {
      assert nows[k..] == nows;
    } else {
      AnsweredSplit(nows[1..], k - 1);
      assert nows[..k][1..] == nows[1..][..k - 1] && nows[k..] == nows[1..][k - 1..];
    }
  }

  // The last visit of ReadMem, with the queue empty.
  lemma LastVisit(c: Config, n: Node, h: History, tr: Trace, now: nat)
    requires Between(c, n, h, tr) && h.read == |h.log|
    ensures var ops, m := Answered([now]), NodeAfter(c, n, Answered([now]));
            && TraceAfter(c, n, ops, tr).acked == tr.acked
            && |Results(c, n, ops)| == 1 && OnlyLastFalse(Results(c, n, ops))
            && m == n.(xfer := m.xfer) && !m.xfer.ptr && !m.xfer.isReady
  {
    ReadsNext(c, n.memq, h);
    assert Answered([now]) == [Loop(true, now)] && [Loop(true, now)][1..] == [];
    assert NodeAfter(c, n, Answered([now])) == NodeStep(c, n, Loop(true, now));
  }

  // What the session leads to: all acknowledged, false only from the last call, nothing queued.
  ghost predicate Drained(c: Config, n: Node, h: History, tr: Trace, nows: seq<nat>)
    requires Shape(c, n.memq) && c.packetLen >= 8 && h.read <= |h.log|
  {
    var ops := Answered(nows);
    var m := NodeAfter(c, n, ops);
    && TraceAfter(c, n, ops, tr).acked == tr.acked + h.log[h.read..]
    && |Results(c, n, ops)| == |nows| && OnlyLastFalse(Results(c, n, ops))
    && !m.dev.held && !m.xfer.isReady && m.memq.ptr.qState != Running
  }

  lemma ResultsJoin(results: seq<bool>)
    requires OnlyLastFalse(results)
    ensures OnlyLastFalse([true, true, true, true] + results)
  {
  }

  lemma AckedJoin(acked: seq<Packet>, log: seq<Packet>, i: nat)
    requires i < |log|
    ensures acked + [log[i]] + log[i + 1..] == acked + log[i..]
  {
  }

  lemma DrainedJoin(c: Config, n: Node, h: History, tr: Trace, nows: seq<nat>, h': History)
    requires Shape(c, n.memq) && c.packetLen >= 8 && |nows| >= 4
    requires h.read < |h.log| && h'.log == h.log && h'.read == h.read + 1
    requires TraceAfter(c, n, Answered(nows[..4]), tr).acked == tr.acked + [h.log[h.read]]
    requires Results(c, n, Answered(nows[..4])) == [true, true, true, true]
    requires Drained(c, NodeAfter(c, n, Answered(nows[..4])), h', TraceAfter(c, n, Answered(nows[..4]), tr), nows[4..])
    ensures Drained(c, n, h, tr, nows)
  {
    var first, rest := Answered(nows[..4]), Answered(nows[4..]);
    AnsweredSplit(nows, 4);
    NodeAppend(c, n, first, rest);
    TraceAppend(c, n, tr, first, rest);
    ResultsAppend(c, n, first, rest);
    AckedJoin(tr.acked, h.log, h.read);
    ResultsJoin(Results(c, NodeAfter(c, n, first), rest));
  }

  lemma {:induction false} DrainsFrom(c: Config, n: Node, h: History, tr: Trace, nows: seq<nat>)
    requires Between(c, n, h, tr) && |nows| == 4 * (|h.log| - h.read) + 1
    requires forall j :: 0 <= j < |nows| ==> AllGood(h.log, h.read, nows[j])
    ensures Drained(c, n, h, tr, nows)
    decreases |h.log| - h.read
  {
    if h.read == |h.log| {
      assert nows == [nows[0]];
      LastVisit(c, n, h, tr, nows[0]);
    } else {
      assert AllGood(h.log, h.read, nows[0]);
      var h' := OnePacket(c, n, h, tr, nows[..4]);
      forall j | 0 <= j < |nows[4..]|
        ensures AllGood(h'.log, h'.read, nows[4..][j])
      {
        assert AllGood(h.log, h.read, nows[j + 4]);
      }
      DrainsFrom(c, NodeAfter(c, n, Answered(nows[..4])), h', TraceAfter(c, n, Answered(nows[..4]), tr), nows[4..]);
      DrainedJoin(c, n, h, tr, nows, h');
    }
  }

  // A session from an idle node drains the queue: with every try answered, four calls for each
  // packet queued and one more acknowledge all of them in order, and only the last of these
  // calls returns false.
  lemma SessionDrains(c: Config, n: Node, h: History, tr: Trace, nows: seq<nat>)
    requires NodeInv(c, n, h, tr) && c.SectorsFit()
    requires n.xfer.isReady && n.xfer.sendState == ReadMem && !n.dev.held
    requires |nows| == 4 * (|h.log| - h.read) + 1
    requires forall j :: 0 <= j < |nows| ==> AllGood(h.log, h.read, nows[j])
    ensures TraceAfter(c, n, Answered(nows), tr).acked == tr.acked + h.log[h.read..]
    ensures |Results(c, n, Answered(nows))| == |nows| && OnlyLastFalse(Results(c, n, Answered(nows)))
    ensures var m := NodeAfter(c, n, Answered(nows));
            !m.dev.held && !m.xfer.isReady && ReadStep(c, m.memq) == (m.memq, None)
  {
    DrainsFrom(c, n, h, tr, nows);
  }

  lemma StartedSession(c: Config, n: Node, h: History, tr: Trace, nows: seq<nat>)
    requires NodeInv(c, n, h, tr) && c.SectorsFit() && !n.dev.held
    requires |nows| == 4 * (|h.log| - h.read) + 1
    requires forall j :: 0 <= j < |nows| ==> AllGood(h.log, h.read, nows[j])
    ensures NodeOpsOk(c, [Ready] + Answered(nows))
    ensures TraceAfter(c, n, [Ready] + Answered(nows), tr).acked == tr.acked + h.log[h.read..]
  {
    NodeStepKeeps(c, n, h, tr, Ready);
    SessionDrains(c, NodeStep(c, n, Ready), h, tr, nows);
    assert ([Ready] + Answered(nows))[1..] == Answered(nows);
  }

  // The same after any run from power-up that ends with nothing in hand: a start of the loop and
  // these calls acknowledge every packet that was accepted and not yet given out.
  lemma SessionAfterRun(c: Config, cells: seq<bv8>, maxTry: nat, ops: seq<NodeOp>, nows: seq<nat>,
                        n0: Node, sampled: seq<Packet>, tr: Trace)
    requires c.Valid() && c.SectorsFit() && c.packetLen >= 8 && c.Last() <= |cells| && maxTry < 256
    requires n0 == Start(ResetState(c, cells), maxTry) && NodeOpsOk(c, ops) && !NodeAfter(c, n0, ops).dev.held
    requires sampled == Accepted(c, n0, ops) && tr == TraceAfter(c, n0, ops, NoTrace)
    requires |nows| == 4 * (|sampled| - |tr.taken|) + 1
    requires forall j :: 0 <= j < |nows| ==> AllGood(sampled, |tr.taken|, nows[j])
    ensures NodeOpsOk(c, ops + ([Ready] + Answered(nows))) && |tr.taken| <= |sampled|
    ensures TraceAfter(c, n0, ops + ([Ready] + Answered(nows)), NoTrace).acked == tr.acked + sampled[|tr.taken|..]
  {
    var h := PowerUpRun(c, cells, maxTry, ops, n0, sampled, tr);
    StartedSession(c, NodeAfter(c, n0, ops), h, tr, nows);
    NodeAppend(c, n0, ops, [Ready] + Answered(nows));
    TraceAppend(c, n0, NoTrace, ops, [Ready] + Answered(nows));
  }

  lemma PowerUpRun(c: Config, cells: seq<bv8>, maxTry: nat, ops: seq<NodeOp>,
                   n0: Node, sampled: seq<Packet>, tr: Trace) returns (h: History)
    requires c.Valid() && c.SectorsFit() && c.packetLen >= 8 && c.Last() <= |cells| && maxTry < 256
    requires n0 == Start(ResetState(c, cells), maxTry) && NodeOpsOk(c, ops)
    requires sampled == Accepted(c, n0, ops) && tr == TraceAfter(c, n0, ops, NoTrace)
    ensures NodeInv(c, NodeAfter(c, n0, ops), h, tr) && h.log == sampled && h.read == |tr.taken|
  {
    StartKeeps(c, cells, maxTry);
    RunKeeps(c, n0, Fresh, NoTrace, ops);
    LogOfRun(c, n0, Fresh, ops);
    h := HistRun(c, n0, Fresh, ops);
  }

  // ---------------------------------------------------------------- whatever the radio answers

  ghost predicate AllCalls(ops: seq<NodeOp>) {
    forall i :: 0 <= i < |ops| ==> ops[i].Loop?
  }

  // At most so many calls until the session is over: for each packet queued the visit that takes
  // it and three calls for each try.
  function CallsLeft(packets: nat, d: Device, x: Xfer): int {
    var queued := packets * (3 * Tries(x) + 1);
    if !x.isReady then 0
    else
      match x.sendState
      case ReadMem => queued + if d.held then 3 * Tries(x) + 2 else 1
      case ServerSend => queued + 3 * (Tries(x) - x.tryCount) + 1
      case WaitAck => queued + 3 * (Tries(x) - x.tryCount) + 3
      case SendSuccess => queued + 2
      case Failed => queued + 3 * (Tries(x) - x.tryCount) + 2
      case ToJson => 0
  }

  // Why a session ended: the packet in hand was given up, or the queue was empty, or the last
  // packet taken was not good.
  ghost predicate OverBecause(c: Config, n: Node, tr: Trace)
    requires Shape(c, n.memq) && TakesOk(tr.taken)
  {
    || (n.dev.held && n.xfer.sendState == Failed && n.xfer.tryCount >= n.xfer.maxTry)
    || (!n.dev.held && n.memq.ptr.qState != Running)
    || (!n.dev.held && tr.taken != [] && !Good(tr.taken[|tr.taken| - 1].pkt, tr.taken[|tr.taken| - 1].now))
  }

  lemma OneLess(q: nat, p: nat)
    requires q > 0
    ensures q * p == (q - 1) * p + p
  {
    MulSum(q, 1, p);
  }

  // One call from n to n1, with q packets queued before it and q1 after it: the end is nearer, and
  // has one of its causes if it is reached.
  ghost predicate Nearer(c: Config, n: Node, q: nat, n1: Node, q1: nat, tr1: Trace)
    requires Shape(c, n1.memq)
  {
    && 0 <= CallsLeft(q1, n1.dev, n1.xfer) < CallsLeft(q, n.dev, n.xfer)
    && TakesOk(tr1.taken)
    && (!n1.xfer.isReady ==> OverBecause(c, n1, tr1) && n1.xfer.ptr == n1.dev.held)
  }

  lemma MulNonNeg(a: nat, b: nat)
    ensures a * b >= 0
  {
  }

  lemma TriesMade(d: Device, x: Xfer, tr: Trace)
    requires DeviceInv(d, x, tr)
    ensures x.sendState == WaitAck || x.sendState == Failed ==> x.tryCount <= Tries(x)
    ensures x.sendState == ServerSend ==> x.tryCount < Tries(x) <= 255
  {
    if tr.bursts != [] {
      assert BurstOk(tr.bursts[|tr.bursts| - 1], Wanted(tr.taken), Tries(x));
    }
  }

  lemma SomeCallLeft(d: Device, x: Xfer, tr: Trace, q: nat)
    requires DeviceInv(d, x, tr) && x.isReady
    ensures CallsLeft(q, d, x) > 0
  {
    TriesMade(d, x, tr);
    MulNonNeg(q, 3 * Tries(x) + 1);
  }

  // What a call does that does not read the queue.
  ghost predicate Moves(d: Device, x: Xfer, x1: Xfer) {
    match x.sendState
    case ReadMem => d.held && x1 == Xfer(true, ServerSend, true, 0, x.maxTry)
    case ServerSend => x1 == x.(sendState := WaitAck, tryCount := x.tryCount + 1)
    case WaitAck => x1 == x.(sendState := SendSuccess) || x1 == x.(sendState := Failed)
    case SendSuccess => x1 == x.(sendState := ReadMem)
    case Failed => x1 == x.(isReady := false) || (x.tryCount < x.maxTry && x1 == x.(sendState := ServerSend))
    case ToJson => false
  }

  lemma CallMoves(c: Config, n: Node, tr: Trace, op: NodeOp)
    requires Shape(c, n.memq) && c.packetLen >= 8 && DeviceInv(n.dev, n.xfer, tr) && op.Loop? && n.xfer.isReady
    requires n.xfer.sendState != ReadMem || n.dev.held
    ensures Moves(n.dev, n.xfer, NodeStep(c, n, op).xfer)
    ensures n.xfer.sendState == SendSuccess ==> !NodeStep(c, n, op).dev.held
  {
    TriesMade(n.dev, n.xfer, tr);
  }

  lemma MovesDown(d: Device, x: Xfer, tr: Trace, d1: Device, x1: Xfer, q: nat)
    requires DeviceInv(d, x, tr) && x.isReady && Moves(d, x, x1)
    requires x.sendState == SendSuccess ==> !d1.held
    ensures 0 <= CallsLeft(q, d1, x1) < CallsLeft(q, d, x)
  {
    TriesMade(d, x, tr);
    MulNonNeg(q, 3 * Tries(x) + 1);
  }

  lemma CallEnds(c: Config, n: Node, tr: Trace, op: NodeOp)
    requires Shape(c, n.memq) && c.packetLen >= 8 && DeviceInv(n.dev, n.xfer, tr) && op.Loop? && n.xfer.isReady
    requires n.xfer.sendState != ReadMem || n.dev.held
    requires !NodeStep(c, n, op).xfer.isReady
    ensures var n1, tr1 := NodeStep(c, n, op), Observe(c, n, op, tr);
            TakesOk(tr1.taken) && OverBecause(c, n1, tr1) && n1.xfer.ptr == n1.dev.held
  {
    assert n.xfer.sendState == Failed;
  }

  // The visit of ReadMem with nothing in hand, when q packets are queued before it and q1 after it.
  lemma VisitGoesDown(c: Config, n: Node, q: nat, q1: nat, tr: Trace, op: NodeOp)
    requires Shape(c, n.memq) && c.packetLen >= 8 && TakesOk(tr.taken) && op.Loop? && Idle(n)
    requires q1 == if n.memq.ptr.qState == Running then q - 1 else q
    ensures Nearer(c, n, q, NodeStep(c, n, op), q1, Observe(c, n, op, tr))
  {
    var p := 3 * Tries(n.xfer) + 1;
    MulNonNeg(q, p);
    MulNonNeg(q1, p);
    if n.memq.ptr.qState == Running {
      OneLess(q, p);
      var pkt := ReadStep(c, n.memq).1.value;
      assert |pkt| == c.packetLen;
    }
  }

  lemma OtherCallNearer(c: Config, n: Node, q: nat, tr: Trace, op: NodeOp)
    requires Shape(c, n.memq) && c.packetLen >= 8 && DeviceInv(n.dev, n.xfer, tr) && op.Loop? && n.xfer.isReady
    requires n.xfer.sendState != ReadMem || n.dev.held
    ensures Nearer(c, n, q, NodeStep(c, n, op), q, Observe(c, n, op, tr))
  {
    var n1 := NodeStep(c, n, op);
    CallMoves(c, n, tr, op);
    MovesDown(n.dev, n.xfer, tr, n1.dev, n1.xfer, q);
    CallTakesNothing(c, n, tr, op);
    if !n1.xfer.isReady {
      CallEnds(c, n, tr, op);
    }
  }

  lemma CallTakesNothing(c: Config, n: Node, tr: Trace, op: NodeOp)
    requires Shape(c, n.memq) && op.Loop? && (n.xfer.sendState != ReadMem || n.dev.held)
    ensures Observe(c, n, op, tr).taken == tr.taken
  {
  }

  lemma CallNearer(c: Config, n: Node, h: History, tr: Trace, op: NodeOp, n1: Node, h1: History, tr1: Trace)
    requires NodeInv(c, n, h, tr) && c.SectorsFit() && op.Loop? && n.xfer.isReady
    requires n1 == NodeStep(c, n, op) && h1 == HistNode(c, n, h, op) && tr1 == Observe(c, n, op, tr)
    ensures h1.read <= |h1.log| && Nearer(c, n, |h.log| - h.read, n1, |h1.log| - h1.read, tr1)
  {
    if Idle(n) {
      ReadsNext(c, n.memq, h);
      VisitGoesDown(c, n, |h.log| - h.read, |h1.log| - h1.read, tr, op);
    } else {
      OtherCallNearer(c, n, |h.log| - h.read, tr, op);
    }
  }

  lemma {:induction false} OverIsOver(c: Config, n: Node, tr: Trace, ops: seq<NodeOp>)
    requires Shape(c, n.memq) && c.packetLen >= 8 && !n.xfer.isReady
    requires AllCalls(ops)
    ensures NodeOpsOk(c, ops) && NodeAfter(c, n, ops) == n && TraceAfter(c, n, ops, tr) == tr
    decreases |ops|
  {
    if ops != [] {
      OverIsOver(c, n, tr, ops[1..]);
    }
  }

  // The session is over, for a reason; the calls return true exactly if a packet is in hand.
  ghost predicate Over(c: Config, m: Node, tr: Trace)
    requires Shape(c, m.memq)
  {
    TakesOk(tr.taken) && !m.xfer.isReady && OverBecause(c, m, tr) && m.xfer.ptr == m.dev.held
  }

  lemma CallEndsOrKeeps(c: Config, n: Node, h: History, tr: Trace, op: NodeOp, n1: Node, tr1: Trace) returns (h1: History)
    requires NodeInv(c, n, h, tr) && c.SectorsFit() && op.Loop? && n.xfer.isReady
    requires n1 == NodeStep(c, n, op) && tr1 == Observe(c, n, op, tr)
    ensures NodeInv(c, n1, h1, tr1)
    ensures CallsLeft(|h1.log| - h1.read, n1.dev, n1.xfer) < CallsLeft(|h.log| - h.read, n.dev, n.xfer)
    ensures n1.xfer.isReady || Over(c, n1, tr1)
  {
    h1 := HistNode(c, n, h, op);
    NodeStepKeeps(c, n, h, tr, op);
    CallNearer(c, n, h, tr, op, n1, h1, tr1);
  }

  // Every session ends, whatever the radio answers and whatever is queued, after at most so many
  // calls; from then on the calls return true exactly if a packet is still in hand, and that is
  // so exactly if it was given up.
  lemma {:induction false} SessionEnds(c: Config, n: Node, h: History, tr: Trace, calls: seq<NodeOp>)
    requires NodeInv(c, n, h, tr) && c.SectorsFit() && n.xfer.isReady
    requires AllCalls(calls) && |calls| >= CallsLeft(|h.log| - h.read, n.dev, n.xfer)
    ensures NodeOpsOk(c, calls) && Over(c, NodeAfter(c, n, calls), TraceAfter(c, n, calls, tr))
    decreases |calls|
  {
    SomeCallLeft(n.dev, n.xfer, tr, |h.log| - h.read);
    var n1, tr1 := NodeStep(c, n, calls[0]), Observe(c, n, calls[0], tr);
    var h1 := CallEndsOrKeeps(c, n, h, tr, calls[0], n1, tr1);
    assert AllCalls(calls[1..]);
    if n1.xfer.isReady {
      SessionEnds(c, n1, h1, tr1, calls[1..]);
    } else {
      OverIsOver(c, n1, tr1, calls[1..]);
    }
  }

  // ---------------------------------------------------------------- before a start

  // Until the loop is started its calls send nothing, read nothing and return what the pointer
  // says.
  lemma {:induction false} NothingUnlessStarted(c: Config, n: Node, tr: Trace, ops: seq<NodeOp>)
    requires Shape(c, n.memq) && c.packetLen >= 8 && NodeOpsOk(c, ops) && !n.xfer.isReady
    requires forall i :: 0 <= i < |ops| ==> !ops[i].Ready?
    ensures TraceAfter(c, n, ops, tr) == tr
    ensures NodeAfter(c, n, ops).xfer == n.xfer && NodeAfter(c, n, ops).dev == n.dev
    ensures forall i :: 0 <= i < |Results(c, n, ops)| ==> Results(c, n, ops)[i] == n.xfer.ptr
    decreases |ops|
  {
    if ops != [] {
      NothingUnlessStarted(c, NodeStep(c, n, ops[0]), tr, ops[1..]);
    }
  }

  // At power-up that is so, and the calls return false.
  lemma NothingAtPowerUp(c: Config, s: State, maxTry: nat, ops: seq<NodeOp>)
    requires Shape(c, s) && c.packetLen >= 8 && NodeOpsOk(c, ops)
    requires forall i :: 0 <= i < |ops| ==> !ops[i].Ready?
    ensures TraceAfter(c, Start(s, maxTry), ops, NoTrace) == NoTrace
    ensures true !in Results(c, Start(s, maxTry), ops)
  {
    NothingUnlessStarted(c, Start(s, maxTry), NoTrace, ops);
  }
}

// Runs of the RAM packet queue with packets of any lengths: when they are FIFO, how full the
// buffer is when a push is refused, and when the queue locks for good.
module RingQTheorems {
  import opened LittleEndian
  import opened Wrappers
  import opened Arith
  import opened RingQSpec
  import opened RingQFifo

  // ---------------------------------------------------------------- runs

  datatype Op = Push(data: Payload) | Pop

  predicate OpOk(op: Op) {
    op.Push? ==> HDR + |op.data| < 0x1_0000
  }

  predicate OpsOk(ops: seq<Op>) {
    forall i :: 0 <= i < |ops| ==> OpOk(ops[i])
  }

  // The queue and its chain after an operation, the payload accepted and the payload popped.
  datatype Outcome = Outcome(q: Queue, v: Chain, accepted: seq<Payload>, popped: seq<Payload>)

  ghost function Step(q: Queue, v: Chain, op: Op): (r: Outcome)
    requires Inv(q, v) && OpOk(op)
    ensures Inv(r.q, r.v)
  {
    match op
    case Push(data) =>
      PushKeeps(q, v, data);
      Outcome(PushStep(q, data).0, ChainPush(q, v, data), if PushStep(q, data).1 then [data] else [], [])
    case Pop =>
      PopKeeps(q, v);
      Outcome(PopStep(q).0, ChainPop(v), [], Taken(q, PopStep(q).1))
  }

  // The payload that a reader finds at the address that a pop returns.
  ghost function Taken(q: Queue, p: Option<nat>): seq<Payload> {
    if p.Some? && q.Holds(p.value, HDR) && q.Holds(p.value, HDR + q.HeaderAt(p.value).len)
    then [q.PayloadAt(p.value, q.HeaderAt(p.value).len)] else []
  }

  ghost function Run(q: Queue, v: Chain, ops: seq<Op>): (r: Outcome)
    requires Inv(q, v) && OpsOk(ops)
    ensures Inv(r.q, r.v)
    decreases |ops|
  {
    if ops == [] then Outcome(q, v, [], [])
    else
      var a := Step(q, v, ops[0]);
      var b := Run(a.q, a.v, ops[1..]);
      Outcome(b.q, b.v, a.accepted + b.accepted, a.popped + b.popped)
  }

  predicate Overwriting(q: Queue, op: Op) {
    op.Push? && Overwrites(q, HDR + |op.data|)
  }

  // No push of the run wraps where it is not guarded.
  ghost predicate Clean(q: Queue, v: Chain, ops: seq<Op>)
    requires Inv(q, v) && OpsOk(ops)
    decreases |ops|
  {
    ops == [] || (!Overwriting(q, ops[0]) && Clean(Step(q, v, ops[0]).q, Step(q, v, ops[0]).v, ops[1..]))
  }

  // Packets that were accepted and are dropped by a later push.
  ghost function Lost(q: Queue, v: Chain, op: Op): nat
    requires Inv(q, v) && OpOk(op)
  {
    if Overwriting(q, op) then |v.items| - v.turn else 0
  }

  ghost function AllLost(q: Queue, v: Chain, ops: seq<Op>): nat
    requires Inv(q, v) && OpsOk(ops)
    decreases |ops|
  {
    if ops == [] then 0
    else Lost(q, v, ops[0]) + AllLost(Step(q, v, ops[0]).q, Step(q, v, ops[0]).v, ops[1..])
  }

  lemma PopStepItems(q: Queue, v: Chain)
    requires Inv(q, v)
    ensures v.items == Step(q, v, Pop).popped + Step(q, v, Pop).v.items
  {
    PopKeeps(q, v);
    if v.items != [] {
      TakenIs(q, PopStep(q).1.value, v.items[0]);
      FirstAndRest(v.items);
    }
  }

  lemma TakenIs(q: Queue, p: nat, data: Payload)
    requires PacketAt(q, p, data)
    ensures Taken(q, Some(p)) == [data]
  {
  }

  lemma FirstAndRest(items: seq<Payload>)
    requires items != []
    ensures items == [items[0]] + items[1..]
  {
  }

  lemma StepItems(q: Queue, v: Chain, op: Op)
    requires Inv(q, v) && OpOk(op)
    ensures var r := Step(q, v, op);
            && |v.items| + |r.accepted| == |r.popped| + |r.v.items| + Lost(q, v, op)
            && (!Overwriting(q, op) ==> v.items + r.accepted == r.popped + r.v.items)
    ensures Lost(q, v, op) == 0 <==> !Overwriting(q, op)
  {
    match op
    case Push(data) =>
      PushKeeps(q, v, data);
      KeptExactly(q, v, HDR + |data|);
      if Overwrites(q, HDR + |data|) {
        OverwriteAccepted(q, v, HDR + |data|);
      }
    case Pop => PopStepItems(q, v);
  }

  // An overwriting push is an accepted one.
  lemma OverwriteAccepted(q: Queue, v: Chain, z: nat)
    requires Inv(q, v) && z > 0 && Overwrites(q, z)
    ensures !Refuses(q, z) && v.Wrapped()
  {
    RefusesWhen(q, v, z);
  }

  lemma Regroup(items: seq<Payload>, in1: seq<Payload>, in2: seq<Payload>,
                out1: seq<Payload>, items1: seq<Payload>, out2: seq<Payload>, items2: seq<Payload>)
    requires items + in1 == out1 + items1 && items1 + in2 == out2 + items2
    ensures items + (in1 + in2) == (out1 + out2) + items2
  {
    calc {
      items + (in1 + in2);
      (items + in1) + in2;
      out1 + (items1 + in2);
      (out1 + out2) + items2;
    }
  }

  // Over any run without such a push, popped and queued are queued and accepted, in order.
  lemma {:induction false} CleanRunIsFifo(q: Queue, v: Chain, ops: seq<Op>)
    requires Inv(q, v) && OpsOk(ops) && Clean(q, v, ops)
    ensures v.items + Run(q, v, ops).accepted == Run(q, v, ops).popped + Run(q, v, ops).v.items
    decreases |ops|
  {
    if ops != [] {
      var a := Step(q, v, ops[0]);
      StepItems(q, v, ops[0]);
      CleanRunIsFifo(a.q, a.v, ops[1..]);
      var b := Run(a.q, a.v, ops[1..]);
      Regroup(v.items, a.accepted, b.accepted, a.popped, a.v.items, b.popped, b.v.items);
    }
  }

  lemma {:induction false} RunCounts(q: Queue, v: Chain, ops: seq<Op>)
    requires Inv(q, v) && OpsOk(ops)
    ensures var r := Run(q, v, ops);
            |v.items| + |r.accepted| == |r.popped| + |r.v.items| + AllLost(q, v, ops)
    ensures AllLost(q, v, ops) == 0 <==> Clean(q, v, ops)
    decreases |ops|
  {
    if ops != [] {
      StepItems(q, v, ops[0]);
      RunCounts(Step(q, v, ops[0]).q, Step(q, v, ops[0]).v, ops[1..]);
    }
  }

  // For packets of any lengths: a run is FIFO, what was popped and then what is queued being
  // what was queued and then what was accepted, exactly if none of its pushes overwrites.
  lemma {:induction false} FifoExactlyWhenClean(q: Queue, v: Chain, ops: seq<Op>)
    requires Inv(q, v) && OpsOk(ops)
    ensures v.items + Run(q, v, ops).accepted == Run(q, v, ops).popped + Run(q, v, ops).v.items <==> Clean(q, v, ops)
  {
    RunCounts(q, v, ops);
    if Clean(q, v, ops) {
      CleanRunIsFifo(q, v, ops);
    }
  }

  // The same from a reset of any buffer.
  lemma {:induction false} FromResetFifoExactly(base: nat, n: nat, mid: nat, mstate: nat, ops: seq<Op>)
    requires HDR <= n && base + n < ADDRESSES && mid < 256 && mstate < 256 && OpsOk(ops)
    ensures Inv(ResetQueue(base, n, mid, mstate), Empty)
    ensures var r := Run(ResetQueue(base, n, mid, mstate), Empty, ops);
            r.accepted == r.popped + r.v.items <==> Clean(ResetQueue(base, n, mid, mstate), Empty, ops)
  {
    ResetKeeps(base, n, mid, mstate);
    var q := ResetQueue(base, n, mid, mstate);
    FifoExactlyWhenClean(q, Empty, ops);
    assert [] + Run(q, Empty, ops).accepted == Run(q, Empty, ops).accepted;
  }

  // A packet no longer than the oldest one queued never overwrites.
  lemma ShortNeverOverwrites(q: Queue, v: Chain, z: nat)
    requires Inv(q, v) && (v.ps != [] ==> z <= v.Size(0))
    ensures !Overwrites(q, z)
  {
    if v.ps != [] {
      assert Placed(q, v, 0);
    }
  }

  // ---------------------------------------------------------------- how full a refusing queue is

  function Bytes(items: seq<Payload>): nat
    decreases |items|
  {
    if items == [] then 0 else Bytes(items[..|items| - 1]) + HDR + |items[|items| - 1]|
  }

  lemma WithoutLast(items: seq<Payload>, i: nat, j: nat)
    requires i < j <= |items|
    ensures items[i..j][..j - 1 - i] == items[i..j - 1] && items[i..j][j - 1 - i] == items[j - 1]
  {
  }

  // A stretch of the chain takes the bytes of its packets.
  lemma {:induction false} StretchBytes(q: Queue, v: Chain, i: nat, j: nat)
    requires Laid(q, v) && i < j <= |v.ps| && (j <= v.turn || v.turn <= i || !v.Wrapped())
    ensures v.ps[i] + Bytes(v.items[i..j]) == v.ps[j - 1] + v.Size(j - 1)
    decreases j
  {
    WithoutLast(v.items, i, j);
    if i == j - 1 {
      assert v.items[i..j - 1] == [];
    } else {
      StretchBytes(q, v, i, j - 1);
      assert Placed(q, v, j - 2);
    }
  }

  lemma {:induction false} BytesJoin(a: seq<Payload>, b: seq<Payload>)
    ensures Bytes(a + b) == Bytes(a) + Bytes(b)
    decreases |b|
  {
    if b == [] {
      assert a + b == a;
    } else {
      assert (a + b)[..|a + b| - 1] == a + b[..|b| - 1];
      BytesJoin(a, b[..|b| - 1]);
    }
  }

  // All the bytes queued, from the two records and the end of the first stretch.
  lemma QueuedBytes(q: Queue, v: Chain)
    requires Laid(q, v) && v.ps != []
    ensures !v.Wrapped() ==> Bytes(v.items) == q.head.next - q.tail.next
    ensures v.Wrapped() ==> Bytes(v.items) == v.ps[v.turn - 1] + v.Size(v.turn - 1) - q.tail.next + q.head.next - q.base
  {
    var n := |v.ps|;
    assert v.items[0..n] == v.items && Placed(q, v, n - 1);
    if v.Wrapped() {
      StretchBytes(q, v, 0, v.turn);
      StretchBytes(q, v, v.turn, n);
      BytesJoin(v.items[0..v.turn], v.items[v.turn..n]);
      assert v.items[0..v.turn] + v.items[v.turn..n] == v.items;
    } else {
      StretchBytes(q, v, 0, n);
    }
  }

  // A push is refused only when what is queued, the new packet and one more of the longest
  // do not fit the buffer together.
  lemma RefusedIsFull(q: Queue, v: Chain, z: nat, longest: nat)
    requires Inv(q, v) && !q.lock && 0 < z <= longest && Refuses(q, z)
    requires forall i :: 0 <= i < |v.items| ==> HDR + |v.items[i]| <= longest
    ensures Bytes(v.items) + z + longest > |q.mem|
  {
    RefusesWhen(q, v, z);
    if v.ps != [] {
      QueuedBytes(q, v);
      if v.Wrapped() {
        assert HDR + |v.items[v.turn]| <= longest;
        AboveTail(q, v, v.turn - 1);
      }
    }
  }

  // ---------------------------------------------------------------- locked with nothing queued

  ghost predicate Dead(q: Queue, v: Chain) {
    q.lock && v.ps == []
  }

  // Nothing unlocks such a queue, and it gives nothing.
  lemma DeadStaysDead(q: Queue, v: Chain, op: Op)
    requires Inv(q, v) && OpOk(op) && Dead(q, v)
    ensures Step(q, v, op) == Outcome(q, v, [], [])
  {
    match op
    case Push(data) => PushKeeps(q, v, data);
    case Pop => PopKeeps(q, v);
  }

  // An empty queue refuses a packet, and is dead from then on, exactly if it fits neither behind
  // the head nor before it.
  lemma DiesExactly(q: Queue, v: Chain, op: Op)
    requires Inv(q, v) && OpOk(op) && !Dead(q, v)
    ensures Dead(Step(q, v, op).q, Step(q, v, op).v) <==>
              op.Push? && !q.lock && v.ps == []
              && q.head.next + HDR + |op.data| > q.End() && q.base + HDR + |op.data| >= q.head.next
  {
    match op
    case Push(data) =>
      PushKeeps(q, v, data);
      if !q.lock {
        RefusesWhen(q, v, HDR + |data|);
      }
    case Pop =>
      PopKeeps(q, v);
  }

  // So packets of at most half the buffer never bring that about.
  lemma HalvesNeverDie(q: Queue, v: Chain, op: Op)
    requires Inv(q, v) && OpOk(op) && !Dead(q, v)
    requires op.Push? ==> 2 * (HDR + |op.data|) <= |q.mem|
    ensures !Dead(Step(q, v, op).q, Step(q, v, op).v)
  {
    DiesExactly(q, v, op);
  }

  // ---------------------------------------------------------------- packets of one length

  predicate OneLength(z: nat, ops: seq<Op>) {
    forall i :: 0 <= i < |ops| ==> ops[i].Push? ==> HDR + |ops[i].data| == z
  }

  // All packets have z bytes with their headers, there is room for count of them, and a locked
  // queue holds all but one.
  ghost predicate Uniform(q: Queue, v: Chain, z: nat, count: nat) {
    && Inv(q, v) && HDR <= z < 0x1_0000 && 2 <= count && count * z <= |q.mem|
    && (forall i :: 0 <= i < |v.items| ==> HDR + |v.items[i]| == z)
    && (q.lock ==> |v.items| >= count - 1)
  }

  lemma {:induction false} UniformBytes(items: seq<Payload>, z: nat)
    requires forall i :: 0 <= i < |items| ==> HDR + |items[i]| == z
    ensures Bytes(items) == |items| * z
    decreases |items|
  {
    if items != [] {
      UniformBytes(items[..|items| - 1], z);
      MulSum(|items|, 1, z);
    }
  }

  lemma UniformRefusal(q: Queue, v: Chain, z: nat, count: nat)
    requires Uniform(q, v, z, count) && !q.lock && Refuses(q, z)
    ensures |v.items| >= count - 1
  {
    RefusedIsFull(q, v, z, z);
    UniformBytes(v.items, z);
    MulSum(|v.items|, 2, z);
    MulSum(count, |v.items| + 2, z);
    MulOrder(count - (|v.items| + 2), z);
  }

  // One operation: nothing is overwritten, and a push is refused only with count - 1 packets queued.
  lemma UniformStep(q: Queue, v: Chain, z: nat, count: nat, op: Op)
    requires Uniform(q, v, z, count) && (op.Push? ==> HDR + |op.data| == z)
    ensures OpOk(op) && Uniform(Step(q, v, op).q, Step(q, v, op).v, z, count) && !Overwriting(q, op)
    ensures op.Push? && Step(q, v, op).accepted == [] ==> |v.items| >= count - 1
  {
    match op
    case Push(data) => UniformPush(q, v, z, count, data);
    case Pop => PopKeeps(q, v);
  }

  lemma UniformPush(q: Queue, v: Chain, z: nat, count: nat, data: Payload)
    requires Uniform(q, v, z, count) && HDR + |data| == z
    ensures PushOk(q, data) && !Overwrites(q, z)
    ensures Uniform(PushStep(q, data).0, ChainPush(q, v, data), z, count)
    ensures !PushStep(q, data).1 ==> |v.items| >= count - 1
  {
    PushKeeps(q, v, data);
    ShortNeverOverwrites(q, v, z);
    KeptExactly(q, v, z);
    if !q.lock && Refuses(q, z) {
      UniformRefusal(q, v, z, count);
    }
  }

  // Packets of one length in a buffer with room for at least two: every run is FIFO, and keeps
  // what a locked queue holds.
  lemma {:induction false} UniformRunIsFifo(q: Queue, v: Chain, z: nat, count: nat, ops: seq<Op>)
    requires Uniform(q, v, z, count) && OneLength(z, ops)
    ensures OpsOk(ops) && Clean(q, v, ops)
    ensures Uniform(Run(q, v, ops).q, Run(q, v, ops).v, z, count)
    ensures v.items + Run(q, v, ops).accepted == Run(q, v, ops).popped + Run(q, v, ops).v.items
    decreases |ops|
  {
    UniformOps(z, ops);
    if ops != [] {
      UniformStep(q, v, z, count, ops[0]);
      UniformRunIsFifo(Step(q, v, ops[0]).q, Step(q, v, ops[0]).v, z, count, ops[1..]);
    }
    CleanRunIsFifo(q, v, ops);
  }

  lemma UniformOps(z: nat, ops: seq<Op>)
    requires z < 0x1_0000 && OneLength(z, ops)
    ensures OpsOk(ops)
  {
  }

  // A locked queue of such packets is never empty, so a pop always unlocks it.
  lemma LockedNotEmpty(q: Queue, v: Chain, z: nat, count: nat)
    requires Uniform(q, v, z, count)
    ensures q.lock ==> |v.items| >= count - 1 >= 1
    ensures !Step(q, v, Pop).q.lock
  {
    PopKeeps(q, v);
  }

  lemma UniformFromReset(base: nat, n: nat, mid: nat, mstate: nat, z: nat, count: nat)
    requires HDR <= z < 0x1_0000 && 2 <= count && count * z <= n
    requires base + n < ADDRESSES && mid < 256 && mstate < 256
    ensures Uniform(ResetQueue(base, n, mid, mstate), Empty, z, count)
  {
    MulOrder(count, z);
    ResetKeeps(base, n, mid, mstate);
  }
}

// Inputs on which the RAM packet queue is no FIFO, or locks for good: packets of two lengths.
module RingQMixed {
  import opened LittleEndian
  import opened Wrappers
  import opened Arith
  import opened RingQSpec
  import opened RingQFifo
  import opened RingQTheorems

  // An accepted push, a refused one, and a pop that returns x.
  ghost predicate Pushed(q: Queue, x: Payload, q': Queue) {
    PushOk(q, x) && PushStep(q, x) == (q', true)
  }

  ghost predicate Refused(q: Queue, x: Payload, q': Queue) {
    PushOk(q, x) && PushStep(q, x) == (q', false)
  }

  ghost predicate Popped(q: Queue, x: Payload, q': Queue) {
    PopOk(q) && PopStep(q).0 == q' && PopStep(q).1.Some? && PacketAt(q, PopStep(q).1.value, x)
  }

  // What the next step looks at.
  ghost predicate Known(q: Queue, v: Chain, base: nat, end: nat, head: nat) {
    Inv(q, v) && !q.lock && q.base == base && q.End() == end && q.head.next == head
  }

  // A push behind the head, and one at the start of the buffer.
  lemma PushBehind(q: Queue, v: Chain, base: nat, end: nat, head: nat, x: Payload) returns (q': Queue, v': Chain)
    requires Known(q, v, base, end, head) && HDR + |x| < 0x1_0000 && head + HDR + |x| <= end
    requires v.Wrapped() ==> head + HDR + |x| < v.ps[0]
    ensures Pushed(q, x, q') && Known(q', v', base, end, head + HDR + |x|)
    ensures v' == Chain(v.ps + [head], v.items + [x], if v.Wrapped() then v.turn else |v.ps| + 1)
  {
    RefusesWhen(q, v, HDR + |x|);
    PushKeeps(q, v, x);
    q', v' := PushStep(q, x).0, ChainPush(q, v, x);
  }

  lemma PushStart(q: Queue, v: Chain, base: nat, end: nat, head: nat, x: Payload) returns (q': Queue, v': Chain)
    requires Known(q, v, base, end, head) && HDR + |x| < 0x1_0000 && head + HDR + |x| > end
    requires v.ps != [] && base + HDR + |x| < v.ps[0]
    ensures Pushed(q, x, q') && Known(q', v', base, end, base + HDR + |x|)
    ensures v' == Chain(v.ps[..v.turn] + [base], v.items[..v.turn] + [x], v.turn)
  {
    RefusesWhen(q, v, HDR + |x|);
    PushKeeps(q, v, x);
    StartChain(q, v, x);
    q', v' := PushStep(q, x).0, ChainPush(q, v, x);
    AllOfStretch(v);
    assert Positioned(q, HDR + |x|) == Patched(q);
  }

  lemma AllOfStretch(v: Chain)
    requires |v.ps| == |v.items|
    ensures v.ps[..|v.ps|] == v.ps && v.items[..|v.items|] == v.items
  {
  }

  lemma PopOne(q: Queue, v: Chain, base: nat, end: nat, head: nat) returns (q': Queue, v': Chain)
    requires Known(q, v, base, end, head) && v.ps != []
    ensures Popped(q, v.items[0], q') && Known(q', v', base, end, head) && v' == ChainPop(v)
  {
    PopFinds(q, v);
    PopKeeps(q, v);
    q', v' := PopStep(q).0, ChainPop(v);
  }

  // ---------------------------------------------------------------- a packet that is lost

  lemma TwoIn(q: Queue, v: Chain, base: nat, end: nat, head: nat, x: Payload, y: Payload)
      returns (q1: Queue, q2: Queue, v': Chain)
    requires Known(q, v, base, end, head) && !v.Wrapped() && HDR + |x| == HDR + |y| < 0x1_0000
    requires head + 2 * (HDR + |x|) <= end
    ensures Pushed(q, x, q1) && Pushed(q1, y, q2) && Known(q2, v', base, end, head + 2 * (HDR + |x|))
    ensures v' == Chain(v.ps + [head] + [head + HDR + |x|], v.items + [x] + [y], |v.ps| + 2)
  {
    var v1;
    q1, v1 := PushBehind(q, v, base, end, head, x);
    q2, v' := PushBehind(q1, v1, base, end, head + HDR + |x|, y);
  }

  lemma FourIn(base: nat, n: nat, mid: nat, mstate: nat, z: nat, x0: Payload, x1: Payload, x2: Payload, x3: Payload)
      returns (q1: Queue, q2: Queue, q3: Queue, q4: Queue, v: Chain)
    requires HDR <= z < 0x1_0000 && 4 * z <= n && base + n < ADDRESSES && mid < 256 && mstate < 256
    requires HDR + |x0| == HDR + |x1| == HDR + |x2| == HDR + |x3| == z
    ensures Pushed(ResetQueue(base, n, mid, mstate), x0, q1)
    ensures Pushed(q1, x1, q2) && Pushed(q2, x2, q3) && Pushed(q3, x3, q4)
    ensures Known(q4, v, base, base + n, base + 4 * z)
    ensures v == Chain([base, base + z, base + 2 * z, base + 3 * z], [x0, x1, x2, x3], 4)
  {
    ResetKeeps(base, n, mid, mstate);
    var v2;
    q1, q2, v2 := TwoIn(ResetQueue(base, n, mid, mstate), Empty, base, base + n, base, x0, x1);
    q3, q4, v := TwoIn(q2, v2, base, base + n, base + 2 * z, x2, x3);
    assert v.ps == [base, base + z, base + 2 * z, base + 3 * z];
    assert v.items == [x0, x1, x2, x3];
  }

  lemma ThreeOut(q: Queue, v: Chain, base: nat, end: nat, z: nat, x0: Payload, x1: Payload, x2: Payload, x3: Payload)
      returns (q1: Queue, q2: Queue, q3: Queue, v': Chain)
    requires Known(q, v, base, end, base + 4 * z)
    requires v == Chain([base, base + z, base + 2 * z, base + 3 * z], [x0, x1, x2, x3], 4)
    ensures Popped(q, x0, q1) && Popped(q1, x1, q2) && Popped(q2, x2, q3)
    ensures Known(q3, v', base, end, base + 4 * z) && v' == Chain([base + 3 * z], [x3], 1)
  {
    var v1, v2;
    q1, v1 := PopOne(q, v, base, end, base + 4 * z);
    q2, v2 := PopOne(q1, v1, base, end, base + 4 * z);
    q3, v' := PopOne(q2, v2, base, end, base + 4 * z);
    assert v'.ps == [base + 3 * z] && v'.items == [x3];
  }

  // Two more, at the start of the buffer.
  lemma TwoAtStart(q: Queue, v: Chain, base: nat, end: nat, z: nat, x: Payload, y: Payload, w: Payload)
      returns (q1: Queue, q2: Queue, v': Chain)
    requires HDR + |x| == HDR + |y| == z < 0x1_0000 && base + 4 * z <= end < base + 5 * z
    requires Known(q, v, base, end, base + 4 * z) && v == Chain([base + 3 * z], [w], 1)
    ensures Pushed(q, x, q1) && Pushed(q1, y, q2)
    ensures Known(q2, v', base, end, base + 2 * z) && v' == Chain([base + 3 * z, base, base + z], [w, x, y], 1)
  {
    var v1;
    q1, v1 := PushStart(q, v, base, end, base + 4 * z, x);
    assert v1.ps == [base + 3 * z, base] && v1.items == [w, x];
    q2, v' := PushBehind(q1, v1, base, end, base + z, y);
    assert v'.ps == [base + 3 * z, base, base + z] && v'.items == [w, x, y];
  }

  // The longer packet, which overwrites them.
  lemma Longer(q: Queue, v: Chain, base: nat, end: nat, z: nat, x: Payload, y: Payload, w: Payload, data: Payload)
      returns (q1: Queue, v': Chain)
    requires Known(q, v, base, end, base + 2 * z) && v == Chain([base + 3 * z, base, base + z], [w, x, y], 1)
    requires end - base - 2 * z < HDR + |data| < 3 * z && HDR + |data| < 0x1_0000
    ensures Pushed(q, data, q1) && Overwrites(q, HDR + |data|)
    ensures Known(q1, v', base, end, base + HDR + |data|) && v' == Chain([base + 3 * z, base], [w, data], 1)
  {
    q1, v' := PushStart(q, v, base, end, base + 2 * z, data);
    assert v'.ps == [base + 3 * z, base] && v'.items == [w, data];
  }

  lemma TwoOut(q: Queue, v: Chain, base: nat, end: nat, head: nat, p: nat, x: Payload, data: Payload)
      returns (q1: Queue, q2: Queue)
    requires Known(q, v, base, end, head) && v == Chain([p, base], [x, data], 1)
    ensures Popped(q, x, q1) && Popped(q1, data, q2) && q2.state == NoData
  {
    var v1, v2;
    q1, v1 := PopOne(q, v, base, end, head);
    assert v1.ps == [base] && v1.items == [data];
    q2, v2 := PopOne(q1, v1, base, end, head);
    PopFinds(q1, v1);
  }

  // From a reset of a buffer with room for four packets of one length: push four of them, pop
  // three, push two, and then one longer packet. All seven are accepted; the pops give the first
  // four and then the longer one, and the queue is empty. The fifth and the sixth are gone.
  lemma MixedRun(base: nat, n: nat, mid: nat, mstate: nat, z: nat, xs: seq<Payload>, data: Payload)
      returns (q1: Queue, q2: Queue, q3: Queue, q4: Queue, q5: Queue, q6: Queue, q7: Queue, q8: Queue,
               q9: Queue, q10: Queue, q11: Queue, q12: Queue)
    requires HDR <= z < 0x1_0000 && 4 * z <= n < 5 * z && base + n < ADDRESSES && mid < 256 && mstate < 256
    requires |xs| == 6 && forall i :: 0 <= i < 6 ==> HDR + |xs[i]| == z
    requires n - 2 * z < HDR + |data| < 3 * z && HDR + |data| < 0x1_0000
    ensures Pushed(ResetQueue(base, n, mid, mstate), xs[0], q1)
    ensures Pushed(q1, xs[1], q2) && Pushed(q2, xs[2], q3) && Pushed(q3, xs[3], q4)
    ensures Popped(q4, xs[0], q5) && Popped(q5, xs[1], q6) && Popped(q6, xs[2], q7)
    ensures Pushed(q7, xs[4], q8) && Pushed(q8, xs[5], q9) && Pushed(q9, data, q10)
    ensures Popped(q10, xs[3], q11) && Popped(q11, data, q12) && q12.state == NoData
  {
    var v4, v7;
    q1, q2, q3, q4, v4 := FourIn(base, n, mid, mstate, z, xs[0], xs[1], xs[2], xs[3]);
    q5, q6, q7, v7 := ThreeOut(q4, v4, base, base + n, z, xs[0], xs[1], xs[2], xs[3]);
    q8, q9, q10, q11, q12 := LastFive(q7, v7, base, base + n, z, xs[4], xs[5], xs[3], data);
  }

  lemma LastFive(q: Queue, v: Chain, base: nat, end: nat, z: nat, x: Payload, y: Payload, w: Payload, data: Payload)
      returns (q1: Queue, q2: Queue, q3: Queue, q4: Queue, q5: Queue)
    requires HDR + |x| == HDR + |y| == z < 0x1_0000 && base + 4 * z <= end < base + 5 * z
    requires Known(q, v, base, end, base + 4 * z) && v == Chain([base + 3 * z], [w], 1)
    requires end - base - 2 * z < HDR + |data| < 3 * z && HDR + |data| < 0x1_0000
    ensures Pushed(q, x, q1) && Pushed(q1, y, q2) && Pushed(q2, data, q3)
    ensures Popped(q3, w, q4) && Popped(q4, data, q5) && q5.state == NoData
  {
    var v2, v3;
    q1, q2, v2 := TwoAtStart(q, v, base, end, z, x, y, w);
    q3, v3 := Longer(q2, v2, base, end, z, x, y, w, data);
    q4, q5 := TwoOut(q3, v3, base, end, base + HDR + |data|, base + 3 * z, w, data);
  }

  // ---------------------------------------------------------------- an empty queue that locks for good

  // From a reset: push x, pop it, and push a packet that is no shorter and does not fit the
  // buffer together with x, though it may fit it alone. It is refused with nothing queued, and
  // nothing unlocks the queue. With two packets of one length that is a buffer for one only.
  lemma EmptyLocks(base: nat, n: nat, mid: nat, mstate: nat, x: Payload, data: Payload)
      returns (q1: Queue, q2: Queue, q3: Queue)
    requires HDR + |x| <= n < HDR + |x| + HDR + |data| && base + n < ADDRESSES && mid < 256 && mstate < 256
    requires |x| <= |data| && HDR + |data| < 0x1_0000
    ensures Pushed(ResetQueue(base, n, mid, mstate), x, q1) && Popped(q1, x, q2) && Refused(q2, data, q3)
    ensures Inv(q3, Empty) && Dead(q3, Empty)
    ensures forall op :: OpOk(op) ==> Step(q3, Empty, op) == Outcome(q3, Empty, [], [])
  {
    ResetKeeps(base, n, mid, mstate);
    var v1, v2;
    q1, v1 := PushBehind(ResetQueue(base, n, mid, mstate), Empty, base, base + n, base, x);
    q2, v2 := PopOne(q1, v1, base, base + n, base + HDR + |x|);
    assert v2 == Empty;
    q3 := RefusedEmpty(q2, data);
  }

  // A packet longer than the buffer does the same to a fresh queue.
  lemma TooLongLocks(base: nat, n: nat, mid: nat, mstate: nat, data: Payload) returns (q: Queue)
    requires HDR <= n < HDR + |data| < 0x1_0000 && base + n < ADDRESSES && mid < 256 && mstate < 256
    ensures Refused(ResetQueue(base, n, mid, mstate), data, q) && Inv(q, Empty) && Dead(q, Empty)
    ensures forall op :: OpOk(op) ==> Step(q, Empty, op) == Outcome(q, Empty, [], [])
  {
    ResetKeeps(base, n, mid, mstate);
    q := RefusedEmpty(ResetQueue(base, n, mid, mstate), data);
  }

  lemma RefusedEmpty(q: Queue, data: Payload) returns (q': Queue)
    requires Inv(q, Empty) && !q.lock && HDR + |data| < 0x1_0000
    requires q.head.next + HDR + |data| > q.End() && q.base + HDR + |data| >= q.head.next
    ensures Refused(q, data, q') && Inv(q', Empty) && Dead(q', Empty)
    ensures forall op :: OpOk(op) ==> Step(q', Empty, op) == Outcome(q', Empty, [], [])
  {
    RefusesWhen(q, Empty, HDR + |data|);
    RefusedPush(q, Empty, data);
    q' := PushStep(q, data).0;
    forall op | OpOk(op)
      ensures Step(q', Empty, op) == Outcome(q', Empty, [], [])
    {
      DeadStaysDead(q', Empty, op);
    }
  }
}

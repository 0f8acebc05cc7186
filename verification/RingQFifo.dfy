// The RAM packet queue, for packets of any lengths, as a list: a chain of headers through the
// buffer, in at most two stretches. A push that wraps where it is not guarded drops the second
// stretch; on all other runs the queue is a FIFO.
module RingQFifo {
  import opened LittleEndian
  import opened Wrappers
  import opened Arith
  import opened RingQSpec

  type Payload = seq<Octet>

  // The queued packets from oldest to newest, where they are, and how many of them come before
  // the chain goes back to the start of the buffer; all of them if it does not.
  datatype Chain = Chain(ps: seq<nat>, items: seq<Payload>, turn: nat) {
    function Size(i: nat): nat
      requires i < |items|
    {
      HDR + |items[i]|
    }

    predicate Wrapped() {
      turn < |ps|
    }
  }

  const Empty := Chain([], [], 0)

  // where the header of packet i sends the reader
  function NextOf(q: Queue, v: Chain, i: nat): nat
    requires i < |v.ps|
  {
    if i + 1 < |v.ps| then v.ps[i + 1] else q.head.next
  }

  // Packets lie behind each other, but for the one before the turn; the free space of a wrapped
  // queue is between the head and the tail.
  ghost predicate Laid(q: Queue, v: Chain) {
    && q.base + HDR <= q.End() < ADDRESSES
    && |v.ps| == |v.items| && v.turn <= |v.ps| && (v.turn == 0 ==> v.ps == [])
    && q.base <= q.head.next <= q.End()
    && q.tail.next == (if v.ps == [] then q.head.next else v.ps[0])
    && (v.Wrapped() ==> v.ps[v.turn] == q.base && q.head.next < v.ps[0]
                        && v.ps[v.turn - 1] + v.Size(v.turn - 1) + v.Size(v.turn) > q.End())
    && (forall i :: 0 <= i < |v.ps| ==> Placed(q, v, i))
  }

  ghost predicate Placed(q: Queue, v: Chain, i: nat)
    requires i < |v.ps| == |v.items|
  {
    && q.base <= v.ps[i] && v.ps[i] + v.Size(i) <= q.End()
    && (i + 1 != v.turn || !v.Wrapped() ==> NextOf(q, v, i) == v.ps[i] + v.Size(i))
  }

  ghost predicate Packet(q: Queue, p: nat, next: nat, data: Payload) {
    && q.Holds(p, HDR + |data|)
    && q.HeaderAt(p).ptr == p && q.HeaderAt(p).next == next && q.HeaderAt(p).len == |data|
    && q.PayloadAt(p, |data|) == data
  }

  ghost predicate Linked(q: Queue, v: Chain)
    requires |v.ps| == |v.items|
  {
    forall i :: 0 <= i < |v.ps| ==> Queued(q, v, i)
  }

  ghost predicate Queued(q: Queue, v: Chain, i: nat)
    requires i < |v.ps| == |v.items|
  {
    Packet(q, v.ps[i], NextOf(q, v, i), v.items[i])
  }

  // The two records: the head stands for the newest packet; when nothing is queued, so does the tail.
  ghost predicate Records(q: Queue, v: Chain)
    requires |v.ps| == |v.items|
  {
    && q.head.Valid() && q.Holds(q.head.ptr, HDR) && q.Holds(q.tail.ptr, HDR)
    && (if v.ps == [] then q.tail.ptr == q.head.ptr
        else q.head.ptr == v.ps[|v.ps| - 1] && q.head.len == |v.items[|v.ps| - 1]|)
  }

  ghost predicate Flags(q: Queue, v: Chain) {
    && (q.leading <==> !v.Wrapped() && !q.lock)
    && (q.state == Running <==> v.ps != [])
  }

  ghost predicate Inv(q: Queue, v: Chain) {
    Laid(q, v) && Linked(q, v) && Records(q, v) && Flags(q, v)
  }

  // ---------------------------------------------------------------- where the packets lie

  // In one stretch the packets follow each other.
  lemma {:induction false} Ahead(q: Queue, v: Chain, i: nat, j: nat)
    requires Laid(q, v) && i < j < |v.ps| && (j < v.turn || v.turn <= i || !v.Wrapped())
    ensures v.ps[i] + v.Size(i) <= v.ps[j]
    decreases j - i
  {
    assert Placed(q, v, j - 1);
    if i < j - 1 {
      Ahead(q, v, i, j - 1);
    }
  }

  // The second stretch, or the only one, lies below the head.
  lemma BelowHead(q: Queue, v: Chain, i: nat)
    requires Laid(q, v) && i < |v.ps| && (v.turn <= i || !v.Wrapped())
    ensures v.ps[i] + v.Size(i) <= q.head.next
  {
    var last := |v.ps| - 1;
    assert Placed(q, v, last);
    if i < last {
      Ahead(q, v, i, last);
    }
  }

  // The first stretch, or the only one, starts at the tail.
  lemma AboveTail(q: Queue, v: Chain, i: nat)
    requires Laid(q, v) && i < |v.ps| && (i < v.turn || !v.Wrapped())
    ensures q.tail.next <= v.ps[i]
  {
    if i > 0 {
      Ahead(q, v, 0, i);
    }
  }

  // ---------------------------------------------------------------- bytes in the buffer

  // A header, and what is stored right behind it.
  lemma HeaderPut(q: Queue, p: nat, h: Header, data: Payload)
    requires h.Valid() && q.Holds(p, HDR + |data|)
    ensures q.Put(p, Encode(h) + data).HeaderAt(p) == h
    ensures q.Put(p, Encode(h) + data).PayloadAt(p, |data|) == data
  {
    StoreFront(q.mem, p - q.base, Encode(h), data);
    HeaderRoundTrip(h);
  }

  lemma StoreFront(mem: seq<Octet>, at: nat, a: seq<Octet>, b: seq<Octet>)
    requires at + |a| + |b| <= |mem|
    ensures Store(mem, at, a + b)[at..at + |a|] == a
    ensures Store(mem, at, a + b)[at + |a|..at + |a| + |b|] == b
  {
  }

  lemma HeaderAlone(q: Queue, p: nat, h: Header)
    requires h.Valid() && q.Holds(p, HDR)
    ensures q.Put(p, Encode(h)).HeaderAt(p) == h
  {
    StoreHere(q.mem, p - q.base, Encode(h));
    HeaderRoundTrip(h);
  }

  lemma HeaderKept(q: Queue, p: nat, b: seq<Octet>, x: nat)
    requires q.Holds(p, |b|) && q.Holds(x, HDR) && (x + HDR <= p || p + |b| <= x)
    ensures q.Put(p, b).HeaderAt(x) == q.HeaderAt(x)
  {
    StoreElsewhere(q.mem, p - q.base, b, x - q.base, HDR);
  }

  lemma PayloadKept(q: Queue, p: nat, b: seq<Octet>, x: nat, n: nat)
    requires q.Holds(p, |b|) && q.Holds(x, HDR + n) && (x + HDR + n <= p || p + |b| <= x + HDR)
    ensures q.Put(p, b).PayloadAt(x, n) == q.PayloadAt(x, n)
  {
    StoreElsewhere(q.mem, p - q.base, b, x + HDR - q.base, n);
  }

  // A write that does not touch a packet leaves it alone.
  lemma PacketKept(q: Queue, p: nat, b: seq<Octet>, x: nat, next: nat, data: Payload)
    requires q.Holds(p, |b|) && Packet(q, x, next, data) && (x + HDR + |data| <= p || p + |b| <= x)
    ensures Packet(q.Put(p, b), x, next, data)
  {
    HeaderKept(q, p, b, x);
    PayloadKept(q, p, b, x, |data|);
  }

  // A packet is a matter of memory and base only.
  lemma SamePacket(q: Queue, q': Queue, x: nat, next: nat, data: Payload)
    requires Packet(q, x, next, data) && q'.mem == q.mem && q'.base == q.base
    ensures Packet(q', x, next, data)
  {
  }

  // Patching the header of a packet redirects it and leaves its payload alone.
  lemma PacketPatched(q: Queue, h: Header, data: Payload)
    requires h.Valid() && h.len == |data| && q.Holds(h.ptr, HDR + |data|) && q.PayloadAt(h.ptr, |data|) == data
    ensures Packet(q.Put(h.ptr, Encode(h)), h.ptr, h.next, data)
  {
    HeaderAlone(q, h.ptr, h);
    PayloadKept(q, h.ptr, Encode(h), h.ptr, |data|);
  }

  // A packet written at the head is there afterwards.
  lemma PacketPut(q: Queue, data: Payload)
    requires q.head.Valid() && q.Holds(q.head.next, HDR + |data|) && q.End() < ADDRESSES && |data| < 0x1_0000
    ensures Packet(PutPacket(q, data), q.head.next, q.head.next + HDR + |data|, data)
  {
    HeaderPut(q, q.head.next, NewHead(q, |data|), data);
  }

  // ---------------------------------------------------------------- what a push decides

  // It does not fit behind the head.
  predicate TooFar(q: Queue, z: nat) {
    q.head.next + z > q.End()
  }

  // The refusals: at the start of the buffer, up to the tail; or behind the head of a wrapped
  // queue, up to the tail.
  lemma RefusesWhen(q: Queue, v: Chain, z: nat)
    requires Inv(q, v) && !q.lock && z > 0
    ensures Refuses(q, z) <==> if TooFar(q, z) then q.base + z >= q.tail.next
                               else v.Wrapped() && q.head.next + z >= q.tail.next
    ensures Leads(q, z) <==> !v.Wrapped() && !TooFar(q, z)
  {
    TailInside(q, v);
  }

  lemma TailInside(q: Queue, v: Chain)
    requires Laid(q, v)
    ensures q.base <= q.tail.next <= q.End()
    ensures v.ps != [] && !v.Wrapped() ==> q.tail.next < q.head.next
  {
    if v.ps != [] {
      assert Placed(q, v, 0);
      if !v.Wrapped() {
        BelowHead(q, v, 0);
      }
    }
  }

  // A push that wraps although the head is already behind the tail, and is not stopped by the
  // tail. Nothing guards the packets at the start of the buffer.
  predicate Overwrites(q: Queue, z: nat) {
    !q.lock && !q.leading && TooFar(q, z) && q.base + z < q.tail.next
  }

  // The packets that are still queued behind an accepted push, before the new one.
  function Kept(q: Queue, v: Chain, z: nat): Chain
    requires |v.ps| == |v.items| && v.turn <= |v.ps|
  {
    if Overwrites(q, z) then Chain(v.ps[..v.turn], v.items[..v.turn], v.turn) else v
  }

  function ChainPush(q: Queue, v: Chain, data: Payload): Chain
    requires |v.ps| == |v.items| && v.turn <= |v.ps|
  {
    var z := HDR + |data|;
    if q.lock || Refuses(q, z) then v
    else if TooFar(q, z) then
      var k := Kept(q, v, z);
      Chain(k.ps + [q.base], k.items + [data], if k.ps == [] then 1 else |k.ps|)
    else
      Chain(v.ps + [q.head.next], v.items + [data], if v.Wrapped() then v.turn else |v.ps| + 1)
  }

  // ---------------------------------------------------------------- a push behind the head

  ghost predicate Behind(q: Queue, v: Chain, data: Payload) {
    && Inv(q, v) && !q.lock && HDR + |data| < 0x1_0000
    && !TooFar(q, HDR + |data|) && !Refuses(q, HDR + |data|)
  }

  lemma BehindKeepsPacket(q: Queue, v: Chain, data: Payload, i: nat)
    requires Behind(q, v, data) && i < |v.ps|
    ensures q.Holds(q.head.next, HDR + |data|)
    ensures Packet(PutPacket(q, data), v.ps[i], NextOf(q, v, i), v.items[i])
  {
    RefusesWhen(q, v, HDR + |data|);
    assert Queued(q, v, i) && Placed(q, v, i);
    if v.turn <= i || !v.Wrapped() {
      BelowHead(q, v, i);
    } else {
      AboveTail(q, v, i);
    }
    var b := Encode(NewHead(q, |data|)) + data;
    PacketKept(q, q.head.next, b, v.ps[i], NextOf(q, v, i), v.items[i]);
    SamePacket(q.Put(q.head.next, b), PutPacket(q, data), v.ps[i], NextOf(q, v, i), v.items[i]);
  }

  lemma BehindLinked(q: Queue, v: Chain, data: Payload)
    requires Behind(q, v, data)
    ensures q.Holds(q.head.next, HDR + |data|)
    ensures Linked(PutPacket(q, data), ChainPush(q, v, data))
  {
    var q', v' := PutPacket(q, data), ChainPush(q, v, data);
    forall i | 0 <= i < |v'.ps|
      ensures Queued(q', v', i)
    {
      if i < |v.ps| {
        BehindKeepsPacket(q, v, data, i);
        BehindSame(q, v, data, i);
      } else {
        PacketPut(q, data);
      }
    }
  }

  // The places of the packets queued before do not change, nor where their headers point.
  lemma BehindSame(q: Queue, v: Chain, data: Payload, i: nat)
    requires Behind(q, v, data) && i < |v.ps|
    ensures q.Holds(q.head.next, HDR + |data|)
    ensures var q', v' := PutPacket(q, data), ChainPush(q, v, data);
            && |v'.ps| == |v'.items| == |v.ps| + 1 && v'.ps[i] == v.ps[i] && v'.items[i] == v.items[i]
            && NextOf(q', v', i) == NextOf(q, v, i)
  {
  }

  lemma BehindLaid(q: Queue, v: Chain, data: Payload)
    requires Behind(q, v, data)
    ensures q.Holds(q.head.next, HDR + |data|)
    ensures var q', v' := PutPacket(q, data), ChainPush(q, v, data);
            Laid(q', v') && Records(q', v') && Flags(q', v')
  {
    RefusesWhen(q, v, HDR + |data|);
    var q', v' := PutPacket(q, data), ChainPush(q, v, data);
    forall i | 0 <= i < |v'.ps|
      ensures Placed(q', v', i)
    {
      if i < |v.ps| {
        assert Placed(q, v, i);
        BehindSame(q, v, data, i);
      }
    }
  }

  lemma BehindKeeps(q: Queue, v: Chain, data: Payload)
    requires Behind(q, v, data)
    ensures PushOk(q, data) && PushStep(q, data).1 && Inv(PushStep(q, data).0, ChainPush(q, v, data))
  {
    RefusesWhen(q, v, HDR + |data|);
    BehindLinked(q, v, data);
    BehindLaid(q, v, data);
    assert q.(leading := Leads(q, HDR + |data|)) == q;
    assert Positioned(q, HDR + |data|) == q;
  }

  // ---------------------------------------------------------------- a push at the start

  ghost predicate AtStart(q: Queue, v: Chain, data: Payload) {
    && Inv(q, v) && !q.lock && HDR + |data| < 0x1_0000
    && TooFar(q, HDR + |data|) && !Refuses(q, HDR + |data|)
  }

  // The head record with its successor patched, and the queue after the patch and the write.
  function Back(q: Queue): Header {
    q.head.(next := q.base)
  }

  function Patched(q: Queue): Queue
    requires q.head.Valid() && q.base < ADDRESSES && q.Holds(q.head.ptr, HDR)
  {
    q.Put(q.head.ptr, Encode(Back(q))).(head := Back(q), leading := false)
  }

  // Whether the wrap overwrites is a matter of the queue's shape.
  lemma OverwritesWhen(q: Queue, v: Chain, data: Payload)
    requires AtStart(q, v, data)
    ensures Overwrites(q, HDR + |data|) <==> v.Wrapped()
    ensures q.base + HDR + |data| < q.tail.next
  {
    RefusesWhen(q, v, HDR + |data|);
  }

  // The patch is made in the newest packet, which a wrapped queue keeps below its tail.
  lemma PatchPlace(q: Queue, v: Chain)
    requires Laid(q, v) && Records(q, v) && v.ps != []
    ensures q.head.ptr + HDR <= q.head.next
    ensures v.Wrapped() ==> q.head.ptr + HDR <= q.tail.next
  {
    BelowHead(q, v, |v.ps| - 1);
  }

  lemma KeptAfterPatch(q: Queue, v: Chain, data: Payload, i: nat)
    requires AtStart(q, v, data) && v.ps != []
    requires var k := Kept(q, v, HDR + |data|); i < |k.ps|
    ensures var k := Kept(q, v, HDR + |data|);
            Packet(Patched(q), v.ps[i], if i + 1 < |k.ps| then v.ps[i + 1] else q.base, v.items[i])
  {
    OverwritesWhen(q, v, data);
    assert Queued(q, v, i) && Placed(q, v, i);
    var q1, last := q.Put(q.head.ptr, Encode(Back(q))), |v.ps| - 1;
    if v.Wrapped() {
      PatchPlace(q, v);
      AboveTail(q, v, i);
      PacketKept(q, q.head.ptr, Encode(Back(q)), v.ps[i], NextOf(q, v, i), v.items[i]);
      SamePacket(q1, Patched(q), v.ps[i], NextOf(q, v, i), v.items[i]);
    } else if i < last {
      Ahead(q, v, i, last);
      PacketKept(q, q.head.ptr, Encode(Back(q)), v.ps[i], NextOf(q, v, i), v.items[i]);
      SamePacket(q1, Patched(q), v.ps[i], NextOf(q, v, i), v.items[i]);
    } else {
      PacketPatched(q, Back(q), v.items[i]);
      SamePacket(q1, Patched(q), v.ps[i], q.base, v.items[i]);
    }
  }

  lemma KeptAfterPush(q: Queue, v: Chain, data: Payload, i: nat)
    requires AtStart(q, v, data) && v.ps != []
    requires var k := Kept(q, v, HDR + |data|); i < |k.ps|
    ensures Patched(q).Holds(q.base, HDR + |data|)
    ensures var k := Kept(q, v, HDR + |data|);
            Packet(PutPacket(Patched(q), data), v.ps[i], if i + 1 < |k.ps| then v.ps[i + 1] else q.base, v.items[i])
  {
    OverwritesWhen(q, v, data);
    TailInside(q, v);
    KeptAfterPatch(q, v, data, i);
    AboveTail(q, v, i);
    var q2, next := Patched(q), if i + 1 < |Kept(q, v, HDR + |data|).ps| then v.ps[i + 1] else q.base;
    var b := Encode(NewHead(q2, |data|)) + data;
    PacketKept(q2, q.base, b, v.ps[i], next, v.items[i]);
    SamePacket(q2.Put(q.base, b), PutPacket(q2, data), v.ps[i], next, v.items[i]);
  }

  // The chain that such a push leaves.
  lemma StartChain(q: Queue, v: Chain, data: Payload)
    requires AtStart(q, v, data) && v.ps != []
    ensures var n, v' := if v.Wrapped() then v.turn else |v.ps|, ChainPush(q, v, data);
            && v' == Chain(v.ps[..n] + [q.base], v.items[..n] + [data], n) && 0 < n
            && |Kept(q, v, HDR + |data|).ps| == n
  {
    OverwritesWhen(q, v, data);
    assert v.ps[..|v.ps|] == v.ps && v.items[..|v.items|] == v.items;
  }

  lemma StartLinked(q: Queue, v: Chain, data: Payload)
    requires AtStart(q, v, data) && v.ps != []
    ensures Patched(q).Holds(q.base, HDR + |data|)
    ensures Linked(PutPacket(Patched(q), data), ChainPush(q, v, data))
  {
    OverwritesWhen(q, v, data);
    TailInside(q, v);
    StartChain(q, v, data);
    var q', v' := PutPacket(Patched(q), data), ChainPush(q, v, data);
    forall i | 0 <= i < |v'.ps|
      ensures Queued(q', v', i)
    {
      if i < |v'.ps| - 1 {
        KeptAfterPush(q, v, data, i);
      } else {
        PacketPut(Patched(q), data);
      }
    }
  }

  lemma StartLaid(q: Queue, v: Chain, data: Payload)
    requires AtStart(q, v, data) && v.ps != []
    ensures Patched(q).Holds(q.base, HDR + |data|)
    ensures var q', v' := PutPacket(Patched(q), data), ChainPush(q, v, data);
            Laid(q', v') && Records(q', v') && Flags(q', v')
  {
    OverwritesWhen(q, v, data);
    TailInside(q, v);
    StartChain(q, v, data);
    var q', v' := PutPacket(Patched(q), data), ChainPush(q, v, data);
    var n := v'.turn;
    forall i | 0 <= i < |v'.ps|
      ensures Placed(q', v', i)
    {
      if i < n {
        assert Placed(q, v, i);
        assert v'.Size(i) == v.Size(i);
      }
    }
    assert Placed(q, v, n - 1) && v'.Size(n - 1) == v.Size(n - 1);
    if v.Wrapped() {
      AboveTail(q, v, n - 1);
    }
  }

  lemma StartKeeps(q: Queue, v: Chain, data: Payload)
    requires AtStart(q, v, data) && v.ps != []
    ensures PushOk(q, data) && PushStep(q, data).1 && Inv(PushStep(q, data).0, ChainPush(q, v, data))
  {
    RefusesWhen(q, v, HDR + |data|);
    TailInside(q, v);
    StartLinked(q, v, data);
    StartLaid(q, v, data);
    assert Positioned(q, HDR + |data|) == Patched(q);
  }

  // ---------------------------------------------------------------- a wrap with nothing queued

  // Both records stand for the same header: the tail takes over the patch.
  lemma EmptyPositioned(q: Queue, v: Chain, data: Payload)
    requires AtStart(q, v, data) && v.ps == []
    ensures PushOk(q, data) && !Overwrites(q, HDR + |data|)
    ensures var p := Positioned(q, HDR + |data|);
            && p.head == p.tail == Back(q) && p.leading && !p.lock && p.base == q.base && p.End() == q.End()
            && p.Holds(q.base, HDR + |data|)
  {
    OverwritesWhen(q, v, data);
    RefusesWhen(q, v, HDR + |data|);
    HeaderAlone(q.(leading := false), q.head.ptr, Back(q));
  }

  lemma EmptyKeeps(q: Queue, v: Chain, data: Payload)
    requires AtStart(q, v, data) && v.ps == []
    ensures PushOk(q, data) && PushStep(q, data).1 && Inv(PushStep(q, data).0, ChainPush(q, v, data))
  {
    EmptyPositioned(q, v, data);
    var p := Positioned(q, HDR + |data|);
    PacketPut(p, data);
    var q', v' := PushStep(q, data).0, ChainPush(q, v, data);
    assert v' == Chain([q.base], [data], 1);
    assert q' == PutPacket(p, data);
    assert Placed(q', v', 0) && Queued(q', v', 0);
  }

  // ---------------------------------------------------------------- the whole push

  lemma RefusedPush(q: Queue, v: Chain, data: Payload)
    requires Inv(q, v) && HDR + |data| < 0x1_0000 && (q.lock || Refuses(q, HDR + |data|))
    ensures PushOk(q, data)
    ensures !PushStep(q, data).1 && PushStep(q, data).0.lock && Inv(PushStep(q, data).0, v)
  {
    var q', z := PushStep(q, data).0, HDR + |data|;
    if !q.lock {
      RefusesWhen(q, v, z);
    }
    forall i | 0 <= i < |v.ps|
      ensures Placed(q', v, i) && Queued(q', v, i)
    {
      assert Placed(q, v, i) && Queued(q, v, i);
    }
  }

  // One push of any length: refused, and then the queue is locked; or the payload is appended to
  // what is kept.
  lemma PushKeeps(q: Queue, v: Chain, data: Payload)
    requires Inv(q, v) && HDR + |data| < 0x1_0000
    ensures PushOk(q, data)
    ensures Inv(PushStep(q, data).0, ChainPush(q, v, data))
    ensures PushStep(q, data).1 <==> !q.lock && !Refuses(q, HDR + |data|)
    ensures ChainPush(q, v, data).items
         == if PushStep(q, data).1 then Kept(q, v, HDR + |data|).items + [data] else v.items
    ensures !PushStep(q, data).1 ==> PushStep(q, data).0.lock
  {
    if q.lock || Refuses(q, HDR + |data|) {
      RefusedPush(q, v, data);
    } else if !TooFar(q, HDR + |data|) {
      BehindKeeps(q, v, data);
    } else if v.ps != [] {
      StartKeeps(q, v, data);
    } else {
      EmptyKeeps(q, v, data);
    }
  }

  // An accepted packet has the message id and state of the one before it, its own address and
  // length, and the address right behind it; the head record is a copy of its header.
  lemma PushedHeader(q: Queue, v: Chain, data: Payload)
    requires Inv(q, v) && HDR + |data| < 0x1_0000
    ensures PushOk(q, data)
    ensures PushStep(q, data).1 ==>
              var q1 := PushStep(q, data).0;
              && q1.Holds(q1.head.ptr, 12) && q1.HeaderAt(q1.head.ptr) == q1.head
              && q1.head == Header(q1.head.ptr, q1.head.ptr + 12 + |data|, q.head.mid, q.head.mstate, |data|)
  {
    PushKeeps(q, v, data);
    if PushStep(q, data).1 {
      PositionedHead(q, HDR + |data|);
      PutHeader(Positioned(q, HDR + |data|), data);
    }
  }

  lemma PositionedHead(q: Queue, z: nat)
    requires q.head.Valid() && q.base < ADDRESSES && q.Holds(q.head.ptr, HDR) && q.Holds(q.tail.ptr, HDR)
    ensures var q0 := Positioned(q, z);
            && q0.head.Valid() && q0.End() == q.End() && q0.base == q.base
            && q0.head.mid == q.head.mid && q0.head.mstate == q.head.mstate
  {
  }

  lemma PutHeader(q: Queue, data: Payload)
    requires q.head.Valid() && q.Holds(q.head.next, HDR + |data|) && q.End() < ADDRESSES && |data| < 0x1_0000
    ensures var q1 := PutPacket(q, data);
            && q1.Holds(q1.head.ptr, 12) && q1.HeaderAt(q1.head.ptr) == q1.head
            && q1.head == Header(q1.head.ptr, q1.head.ptr + 12 + |data|, q.head.mid, q.head.mstate, |data|)
  {
    HeaderPut(q, q.head.next, NewHead(q, |data|), data);
  }

  // What is kept is everything exactly if the push does not overwrite; otherwise at least the
  // packet at the start of the buffer is gone.
  lemma KeptExactly(q: Queue, v: Chain, z: nat)
    requires Inv(q, v)
    ensures Kept(q, v, z).items == v.items <==> !Overwrites(q, z)
    ensures |Kept(q, v, z).items| < |v.items| <==> Overwrites(q, z)
  {
    assert Overwrites(q, z) ==> v.Wrapped();
  }

  // ---------------------------------------------------------------- pop

  function ChainPop(v: Chain): Chain
    requires |v.ps| == |v.items|
  {
    if v.ps == [] then v
    else Chain(v.ps[1..], v.items[1..], if v.turn > 1 then v.turn - 1 else |v.ps| - 1)
  }

  lemma PopRest(q: Queue, q': Queue, v: Chain, i: nat)
    requires Laid(q, v) && i + 1 < |v.ps| && q'.base == q.base && q'.mem == q.mem && q'.head == q.head
    requires Queued(q, v, i + 1)
    ensures Placed(q', ChainPop(v), i) && Queued(q', ChainPop(v), i)
  {
    assert Placed(q, v, i + 1);
    assert ChainPop(v).ps[i] == v.ps[i + 1] && ChainPop(v).items[i] == v.items[i + 1];
    assert NextOf(q', ChainPop(v), i) == NextOf(q, v, i + 1);
  }

  // What the pop finds, and where the tail goes.
  lemma PopFinds(q: Queue, v: Chain)
    requires Inv(q, v) && v.ps != []
    ensures PopOk(q) && PopStep(q).1 == Some(v.ps[0]) && PacketAt(q, v.ps[0], v.items[0])
    ensures var q' := PopStep(q).0;
            && q'.mem == q.mem && q'.base == q.base && q'.head == q.head && !q'.lock
            && q'.tail.ptr == v.ps[0] && q'.tail.next == NextOf(q, v, 0)
            && q'.state == (if NextOf(q, v, 0) == q.head.next then NoData else Running)
            && q'.leading == (q.leading || NextOf(q, v, 0) <= q.head.next)
  {
    assert Queued(q, v, 0);
  }

  // The tail passes the head exactly when it goes back to the start, and meets it exactly when
  // it has passed the last packet.
  lemma PopTurns(q: Queue, v: Chain)
    requires Inv(q, v) && v.ps != []
    ensures NextOf(q, v, 0) == q.head.next <==> |v.ps| == 1
    ensures NextOf(q, v, 0) <= q.head.next <==> !v.Wrapped() || v.turn == 1
  {
    assert Placed(q, v, 0);
    if |v.ps| > 1 {
      assert Placed(q, v, 1);
      if !v.Wrapped() || v.turn == 1 {
        BelowHead(q, v, 1);
      } else {
        AboveTail(q, v, 1);
      }
    }
  }

  // One pop: it returns the oldest payload, or nothing exactly when nothing is queued; the lock
  // is off afterwards unless it was on and nothing queued.
  lemma PopKeeps(q: Queue, v: Chain)
    requires Inv(q, v)
    ensures PopOk(q) && Inv(PopStep(q).0, ChainPop(v))
    ensures if v.items == [] then PopStep(q) == (q, None)
            else && PopStep(q).1.Some?
                 && PacketAt(q, PopStep(q).1.value, v.items[0])
                 && PacketAt(PopStep(q).0, PopStep(q).1.value, v.items[0])
                 && !PopStep(q).0.lock && ChainPop(v).items == v.items[1..]
  {
    if v.ps != [] {
      PopFinds(q, v);
      PopTurns(q, v);
      var q', v' := PopStep(q).0, ChainPop(v);
      assert Placed(q, v, 0);
      forall i | 0 <= i < |v'.ps|
        ensures Placed(q', v', i) && Queued(q', v', i)
      {
        assert Queued(q, v, i + 1);
        PopRest(q, q', v, i);
      }
      PopLaid(q, q', v);
    }
  }

  lemma PopLaid(q: Queue, q': Queue, v: Chain)
    requires Inv(q, v) && v.ps != [] && PopOk(q) && q' == PopStep(q).0
    requires forall i :: 0 <= i < |ChainPop(v).ps| ==> Placed(q', ChainPop(v), i)
    ensures Laid(q', ChainPop(v)) && Records(q', ChainPop(v)) && Flags(q', ChainPop(v))
  {
    PopFinds(q, v);
    PopTurns(q, v);
    var v' := ChainPop(v);
    assert Placed(q, v, 0);
    if v'.Wrapped() {
      AboveTail(q, v, 1);
      assert v'.Size(v'.turn - 1) == v.Size(v.turn - 1) && v'.Size(v'.turn) == v.Size(v.turn);
      assert Placed(q, v, 1);
      SecondBehindTail(q, v);
    }
  }

  lemma SecondBehindTail(q: Queue, v: Chain)
    requires Laid(q, v) && 1 < v.turn < |v.ps|
    ensures q.head.next < v.ps[1]
  {
    Ahead(q, v, 0, 1);
  }

  // A packet that stands somewhere in the buffer, as a reader finds it.
  predicate PacketAt(q: Queue, p: nat, data: Payload) {
    && q.Holds(p, HDR + |data|)
    && q.HeaderAt(p).len == |data|
    && q.PayloadAt(p, |data|) == data
  }

  // A buffer with room for a header starts as an empty queue.
  lemma ResetKeeps(base: nat, n: nat, mid: nat, mstate: nat)
    requires HDR <= n && base + n < ADDRESSES && mid < 256 && mstate < 256
    ensures Inv(ResetQueue(base, n, mid, mstate), Empty)
  {
  }
}

// The RAM packet queue: a byte buffer in which every packet carries a header that points to
// the next one. When the head goes back to the start of the buffer, the header that was
// written last is patched in place.
module RingQSpec {
  import opened Wrappers
  import opened Arith
  import opened LittleEndian

  const HDR: nat := 12

  const ADDRESSES: nat := 0x1_0000_0000

  // struct qObj_t with 32-bit pointers
  datatype Header = Header(ptr: nat, next: nat, mid: nat, mstate: nat, len: nat) {
    predicate Valid() {
      ptr < ADDRESSES && next < ADDRESSES && mid < 256 && mstate < 256 && len < 0x1_0000
    }
  }

  function Encode(h: Header): (b: seq<Octet>)
    requires h.Valid()
    ensures |b| == HDR
  {
    Bytes(h.ptr, 4) + Bytes(h.next, 4) + Bytes(h.mid, 1) + Bytes(h.mstate, 1) + Bytes(h.len, 2)
  }

  function Decode(b: seq<Octet>): (h: Header)
    requires |b| == HDR
    ensures h.Valid()
  {
    Pow256Values();
    FromBytesBound(b[0..4]);
    FromBytesBound(b[4..8]);
    FromBytesBound(b[8..9]);
    FromBytesBound(b[9..10]);
    FromBytesBound(b[10..12]);
    Header(FromBytes(b[0..4]), FromBytes(b[4..8]), FromBytes(b[8..9]), FromBytes(b[9..10]), FromBytes(b[10..12]))
  }

  lemma EncodeFields(h: Header)
    requires h.Valid()
    ensures Encode(h)[0..4] == Bytes(h.ptr, 4) && Encode(h)[4..8] == Bytes(h.next, 4)
    ensures Encode(h)[8..9] == Bytes(h.mid, 1) && Encode(h)[9..10] == Bytes(h.mstate, 1)
    ensures Encode(h)[10..12] == Bytes(h.len, 2)
  {
  }

  lemma HeaderRoundTrip(h: Header)
    requires h.Valid()
    ensures Decode(Encode(h)) == h
  {
    EncodeFields(h);
    Pow256Values();
    BytesRoundTrip(h.ptr, 4);
    BytesRoundTrip(h.next, 4);
    BytesRoundTrip(h.mid, 1);
    BytesRoundTrip(h.mstate, 1);
    BytesRoundTrip(h.len, 2);
  }

  // The fields of a header in its twelve bytes: two addresses, message id, message state, length.
  lemma HeaderInBytes(h: Header)
    requires h.Valid()
    ensures var b := Encode(h);
            && |b| == 12 && FromBytes(b[0..4]) == h.ptr && FromBytes(b[4..8]) == h.next
            && b[8] == h.mid && b[9] == h.mstate && b[10] as int + 256 * b[11] as int == h.len
  {
    var b := Encode(h);
    EncodeFields(h);
    Pow256Values();
    BytesRoundTrip(h.ptr, 4);
    BytesRoundTrip(h.next, 4);
    assert Bytes(h.mid, 1) == [h.mid % 256] + Bytes(h.mid / 256, 0);
    assert Bytes(h.mstate, 1) == [h.mstate % 256] + Bytes(h.mstate / 256, 0);
    TwoBytes(h.len, b[10..12]);
    assert b[8] == b[8..9][0] && b[9] == b[9..10][0] && b[10] == b[10..12][0] && b[11] == b[10..12][1];
  }

  function Store(mem: seq<Octet>, at: nat, b: seq<Octet>): (r: seq<Octet>)
    requires at + |b| <= |mem|
    ensures |r| == |mem|
  {
    mem[..at] + b + mem[at + |b|..]
  }

  lemma StoreHere(mem: seq<Octet>, at: nat, b: seq<Octet>)
    requires at + |b| <= |mem|
    ensures Store(mem, at, b)[at..at + |b|] == b
  {
  }

  lemma StoreElsewhere(mem: seq<Octet>, at: nat, b: seq<Octet>, x: nat, n: nat)
    requires at + |b| <= |mem| && x + n <= |mem|
    requires x + n <= at || at + |b| <= x
    ensures Store(mem, at, b)[x..x + n] == mem[x..x + n]
  {
  }

  // Two stores side by side are one.
  lemma StoreTwice(mem: seq<Octet>, at: nat, a: seq<Octet>, b: seq<Octet>)
    requires at + |a| + |b| <= |mem|
    ensures Store(Store(mem, at, a), at + |a|, b) == Store(mem, at, a + b)
  {
  }

  datatype QState = Reset | Running | NoData

  datatype Queue = Queue(base: nat, mem: seq<Octet>, head: Header, tail: Header,
                         leading: bool, lock: bool, state: QState)
  {
    function End(): nat {
      base + |mem|
    }

    // memory that a pointer of this buffer may be used to reach
    predicate Holds(p: nat, n: nat) {
      base <= p && p + n <= End()
    }

    function HeaderAt(p: nat): Header
      requires Holds(p, HDR)
    {
      Decode(mem[p - base..p - base + HDR])
    }

    function PayloadAt(p: nat, len: nat): seq<Octet>
      requires Holds(p, HDR + len)
    {
      mem[p - base + HDR..p - base + HDR + len]
    }

    function Put(p: nat, b: seq<Octet>): Queue
      requires Holds(p, |b|)
    {
      this.(mem := Store(mem, p - base, b))
    }
  }

  function ResetQueue(base: nat, n: nat, mid: nat, mstate: nat): Queue {
    var h := Header(base, base, mid, mstate, 0);
    Queue(base, seq(n, _ => 0), h, h, true, false, Reset)
  }

  // ---------------------------------------------------------------- push

  // Where the packet after the next one would start, and whether that goes back to the start.
  function NextHead(q: Queue, z: nat): nat {
    if q.head.next + z > q.End() then q.base else q.head.next + z
  }

  // leadingHead once the wrap is decided
  function Leads(q: Queue, z: nat): bool {
    q.leading && !(q.head.next + z > q.End() && q.base <= q.tail.next)
  }

  predicate Refuses(q: Queue, z: nat) {
    && !Leads(q, z)
    && (NextHead(q, z) >= q.tail.next || (NextHead(q, z) == q.base && q.base + z >= q.tail.next))
  }

  // Back to the start: the last header written is patched to point there; if that packet was
  // already taken, so is the copy of it that the tail keeps.
  function WrapHead(q: Queue): Queue
    requires q.head.Valid() && q.base < ADDRESSES && q.Holds(q.head.ptr, HDR) && q.Holds(q.tail.ptr, HDR)
  {
    var head := q.head.(next := q.base);
    var q1 := q.Put(q.head.ptr, Encode(head)).(head := head);
    if q.tail.next == q.head.next then q1.(tail := q1.HeaderAt(q.tail.ptr), leading := true) else q1
  }

  function NewHead(q: Queue, n: nat): Header {
    q.head.(ptr := q.head.next, next := q.head.next + HDR + n, len := n)
  }

  // Header and payload go to where the head points.
  function PutPacket(q: Queue, data: seq<Octet>): Queue
    requires q.head.Valid() && q.Holds(q.head.next, HDR + |data|)
    requires q.End() < ADDRESSES && |data| < 0x1_0000
  {
    var head := NewHead(q, |data|);
    q.Put(q.head.next, Encode(head) + data).(head := head, state := Running)
  }

  // The queue as the push finds it when it starts to write.
  function Positioned(q: Queue, z: nat): Queue
    requires q.head.Valid() && q.base < ADDRESSES && q.Holds(q.head.ptr, HDR) && q.Holds(q.tail.ptr, HDR)
  {
    var q1 := q.(leading := Leads(q, z));
    if !q1.leading && NextHead(q, z) == q.base then WrapHead(q1) else q1
  }

  ghost predicate PushOk(q: Queue, data: seq<Octet>) {
    && |data| + HDR < 0x1_0000
    && q.head.Valid() && q.End() < ADDRESSES && q.Holds(q.head.ptr, HDR) && q.Holds(q.tail.ptr, HDR)
    && (!q.lock && !Refuses(q, HDR + |data|) ==>
          Positioned(q, HDR + |data|).Holds(Positioned(q, HDR + |data|).head.next, HDR + |data|))
  }

  function PushStep(q: Queue, data: seq<Octet>): (Queue, bool)
    requires PushOk(q, data)
  {
    var z := HDR + |data|;
    if q.lock then (q, false)
    else if Refuses(q, z) then (q.(leading := Leads(q, z), lock := true), false)
    else (PutPacket(Positioned(q, z), data), true)
  }

  // ---------------------------------------------------------------- pop

  ghost predicate PopOk(q: Queue) {
    q.state == Running ==> q.Holds(q.tail.next, HDR)
  }

  function PopStep(q: Queue): (Queue, Option<nat>)
    requires PopOk(q)
  {
    if q.state != Running then (q, None)
    else
      var tail := q.HeaderAt(q.tail.next);
      var drained := tail.next == q.head.next;
      (q.(tail := tail, lock := false,
          leading := q.leading || drained || tail.next < q.head.next,
          state := if drained then NoData else Running),
       Some(tail.ptr))
  }

  function NextTail(q: Queue): Option<nat>
    requires PopOk(q)
  {
    if q.state != Running then None else Some(q.HeaderAt(q.tail.next).ptr)
  }
}

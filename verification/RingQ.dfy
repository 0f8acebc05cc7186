// The RAM packet queue as the firmware keeps it: a byte array, two header records and flags.
module RingQ {
  import opened LittleEndian
  import opened Wrappers
  import opened RingQSpec
  import opened RingQFifo

  class RingQ {
    const buf: array<Octet>
    const baseAddr: nat
    const endAddr: nat
    var isLock: bool
    var leadingHead: bool
    var head: Header
    var tail: Header
    var qState: QState
    // the queued packets and where they are
    ghost var view: Chain

    ghost function St(): Queue
      reads this, buf
    {
      Queue(baseAddr, buf[..], head, tail, leadingHead, isLock, qState)
    }

    ghost predicate Valid()
      reads this, buf
    {
      endAddr == baseAddr + buf.Length && Inv(St(), view)
    }

    constructor (base: nat, len: nat)
      requires HDR <= len && base + len < ADDRESSES
      ensures Valid() && view == Empty && fresh(buf) && buf.Length == len && baseAddr == base
    {
      buf := new Octet[len](_ => 0);
      baseAddr := base;
      endAddr := base + len;
      isLock := false;
      leadingHead := true;
      head := Header(base, base, 0, 0, 0);
      tail := Header(base, base, 0, 0, 0);
      qState := Reset;
      view := Empty;
      new;
      ResetKeeps(base, len, 0, 0);
      assert St() == ResetQueue(base, len, 0, 0);
    }

    // memcpy into the buffer
    method MemCpy(p: nat, data: seq<Octet>)
      requires St().Holds(p, |data|)
      modifies buf
      ensures St() == old(St()).Put(p, data)
    {
      var at := p - baseAddr;
      forall i | 0 <= i < |data| {
        buf[at + i] := data[i];
      }
      assert buf[..] == Store(old(buf[..]), at, data);
    }

    // memcpy of a header out of the buffer
    method LoadHeader(p: nat) returns (h: Header)
      requires St().Holds(p, HDR)
      ensures h == St().HeaderAt(p)
    {
      var at := p - baseAddr;
      assert buf[at..at + HDR] == buf[..][at..at + HDR];
      h := Decode(buf[at..at + HDR]);
    }

    // The head record is copied over the header that it stands for.
    method StoreHead(h: Header)
      requires h.Valid() && St().Holds(h.ptr, HDR)
      modifies this`head, buf
      ensures St() == old(St()).Put(h.ptr, Encode(h)).(head := h)
    {
      head := h;
      MemCpy(head.ptr, Encode(head));
    }

    method WrapHead()
      requires head.Valid() && baseAddr < ADDRESSES && St().Holds(head.ptr, HDR) && St().Holds(tail.ptr, HDR)
      modifies this`head, this`tail, this`leadingHead, buf
      ensures St() == RingQSpec.WrapHead(old(St()))
    {
      var lastBuffPtr := tail.next == head.next;
      StoreHead(head.(next := baseAddr));
      if lastBuffPtr {
        tail := LoadHeader(tail.ptr);
        leadingHead := true;
      }
    }

    method PutPacket(data: seq<Octet>)
      requires head.Valid() && St().Holds(head.next, HDR + |data|)
      requires baseAddr + buf.Length < ADDRESSES && |data| < 0x1_0000
      modifies this`head, this`qState, buf
      ensures St() == RingQSpec.PutPacket(old(St()), data)
    {
      var h := head.(ptr := head.next);
      h := h.(next := h.ptr + HDR + |data|);
      h := h.(len := |data|);
      assert h == NewHead(St(), |data|);
      StorePacket(h, data);
      qState := Running;
    }

    method StorePacket(h: Header, data: seq<Octet>)
      requires h.Valid() && St().Holds(h.ptr, HDR + |data|)
      modifies this`head, buf
      ensures St() == old(St()).Put(h.ptr, Encode(h) + data).(head := h)
    {
      StoreTwice(buf[..], h.ptr - baseAddr, Encode(h), data);
      StoreHead(h);
      MemCpy(h.ptr + HDR, data);
    }

    method RingqPush(data: seq<Octet>) returns (ok: bool)
      requires Valid() && HDR + |data| < 0x1_0000
      modifies this, buf
      ensures Valid()
      ensures old(PushOk(St(), data)) && (St(), ok) == PushStep(old(St()), data)
      ensures ok && !old(Overwrites(St(), HDR + |data|)) ==> view.items == old(view.items) + [data]
      ensures ok && old(Overwrites(St(), HDR + |data|)) ==>
                old(view.turn) < old(|view.items|) && view.items == old(view.items)[..old(view.turn)] + [data]
      ensures !ok ==> isLock && view.items == old(view.items)
    {
      PushKeeps(St(), view, data);
      KeptExactly(St(), view, HDR + |data|);
      ghost var q := St();
      view := ChainPush(q, view, data);
      ok := PushInto(data);
    }

    method PushInto(data: seq<Octet>) returns (ok: bool)
      requires PushOk(St(), data) && endAddr == baseAddr + buf.Length
      modifies this`head, this`tail, this`leadingHead, this`isLock, this`qState, buf
      ensures (St(), ok) == PushStep(old(St()), data)
    {
      if isLock {
        return false;
      }
      ghost var q := St();
      var len := |data| + HDR;
      var nextHead := head.next + len;
      if nextHead > endAddr {
        nextHead := baseAddr;
        if nextHead <= tail.next {
          leadingHead := false;
        }
      }
      assert St() == q.(leading := Leads(q, len)) && nextHead == NextHead(q, len);
      if !leadingHead {
        if nextHead >= tail.next {
          isLock := true;
          return false;
        } else if nextHead == baseAddr && nextHead + len >= tail.next {
          isLock := true;
          return false;
        }
        if nextHead == baseAddr {
          WrapHead();
        }
      }
      assert St() == Positioned(q, len);
      PutPacket(data);
      ok := true;
    }

    // The pop returns the address of the packet; its payload is still in the buffer.
    method RingqPop() returns (p: Option<nat>)
      requires Valid()
      modifies this`tail, this`leadingHead, this`isLock, this`qState, this`view
      ensures Valid()
      ensures old(PopOk(St())) && (St(), p) == PopStep(old(St()))
      ensures if old(view.items) == [] then p == None && view.items == []
              else p.Some? && PacketAt(St(), p.value, old(view.items)[0]) && view.items == old(view.items)[1..] && !isLock
    {
      PopKeeps(St(), view);
      view := ChainPop(view);
      p := PopFrom();
    }

    method PopFrom() returns (p: Option<nat>)
      requires PopOk(St())
      modifies this`tail, this`leadingHead, this`isLock, this`qState
      ensures (St(), p) == PopStep(old(St()))
    {
      if qState == Running {
        tail := LoadHeader(tail.next);
        var nextTailPtr := tail.next;
        if nextTailPtr != head.next {
          if nextTailPtr < head.next {
            leadingHead := true;
          }
        } else {
          qState := NoData;
          leadingHead := true;
        }
        isLock := false;
        return Some(tail.ptr);
      }
      p := None;
    }

    // A look at the packet that the next pop will return.
    method RingqNextTail() returns (p: Option<nat>)
      requires Valid()
      ensures if view.items == [] then p == None else p.Some? && PacketAt(St(), p.value, view.items[0])
    {
      PopKeeps(St(), view);
      if qState == Running {
        var currentTail := LoadHeader(tail.next);
        return Some(currentTail.ptr);
      }
      p := None;
    }

    // The buffer is cleared; the message id and state of the last header are left as they are.
    method RingqReset()
      requires Valid()
      modifies this, buf
      ensures Valid() && view == Empty
      ensures forall i :: 0 <= i < buf.Length ==> buf[i] == 0
      ensures head == Header(baseAddr, baseAddr, old(head.mid), old(head.mstate), 0)
      ensures tail == Header(baseAddr, baseAddr, old(tail.mid), old(tail.mstate), 0)
      ensures leadingHead && !isLock && qState == Reset
    {
      forall i | 0 <= i < buf.Length {
        buf[i] := 0;
      }
      head := head.(ptr := baseAddr, next := baseAddr, len := 0);
      tail := tail.(ptr := baseAddr, next := baseAddr, len := 0);
      isLock := false;
      leadingHead := true;
      qState := Reset;
      view := Empty;
      ResetKeeps(baseAddr, buf.Length, head.mid, head.mstate);
    }
  }
}

// The flash ring queue on slots that are not blank, as a restart from an old record leaves them:
// still a FIFO, but of what the flash stores, which is each accepted packet bit by bit anded
// with what lay in its slot.
module MemqDirty {
  import opened Wrappers
  import opened Arith
  import opened MemqSpec
  import opened MemqFifo
  import opened MemqTheorems
  import opened MemqRestart
  import C = MemqCrashes
  import F = Flash

  // What a slot is to hold: the logged packet while the slot is in use, what was left there if not.
  function Stored(c: Config, h: History, left: seq<Packet>, i: nat): Packet
    requires HistoryOk(c, h) && |left| == c.totalPacket && i < c.totalPacket
  {
    if 0 <= Rank(c, h, i) < Used(c, h) then h.log[h.read - InBlob(c, h) + Rank(c, h, i)] else left[i]
  }

  ghost predicate LeftOk(c: Config, left: seq<Packet>) {
    |left| == c.totalPacket && forall i :: 0 <= i < |left| ==> |left[i]| == c.packetLen
  }

  ghost predicate Inv(c: Config, s: State, h: History, left: seq<Packet>) {
    && PtrInv(c, s, h) && LeftOk(c, left)
    && forall i :: 0 <= i < c.totalPacket ==> PacketAt(c, s.cells, i) == Stored(c, h, left, i)
  }

  // ---------------------------------------------------------------- the queue it is then

  datatype Mixed = Mixed(waiting: seq<Packet>, taken: nat, left: seq<Packet>)

  ghost predicate MixedOk(c: Config, q: Mixed) {
    c.Valid() && LeftOk(c, q.left)
  }

  // The slot of the next packet written, the blob of the next one read, and whether that read
  // is the last one in it.
  function NextSlot(c: Config, q: Mixed): (i: nat)
    requires c.Valid()
    ensures i < c.totalPacket
  {
    DivModBounds(q.taken + |q.waiting|, c.totalPacket);
    (q.taken + |q.waiting|) % c.totalPacket
  }

  predicate LastInBlob(c: Config, taken: nat)
    requires c.Valid()
  {
    var h := History([], taken, 0);
    Tail(c, h) + 1 == c.totalPacket || InBlob(c, h) + 1 == c.PerBlob()
  }

  function Blanked(c: Config, left: seq<Packet>, taken: nat): (r: seq<Packet>)
    requires c.Valid()
    ensures |r| == |left|
  {
    var h := History([], taken, 0);
    seq(|left|, i requires 0 <= i < |left| =>
      if Frontier(c, h) <= i < Frontier(c, h) + c.PerBlob() then F.Blank(c.packetLen) else left[i])
  }

  lemma BlankedAt(c: Config, left: seq<Packet>, h: History, i: nat)
    requires c.Valid() && i < |left|
    ensures Blanked(c, left, h.read)[i]
         == if Frontier(c, h) <= i < Frontier(c, h) + c.PerBlob() then F.Blank(c.packetLen) else left[i]
  {
    SameCursor(c, h, History([], h.read, 0));
  }

  lemma BlankedOk(c: Config, left: seq<Packet>, taken: nat)
    requires c.Valid() && LeftOk(c, left)
    ensures LeftOk(c, Blanked(c, left, taken))
  {
    forall i | 0 <= i < |left|
      ensures |Blanked(c, left, taken)[i]| == c.packetLen
    {
      BlankedAt(c, left, History([], taken, 0), i);
      assert |left[i]| == c.packetLen;
    }
  }

  ghost function MixedStep(c: Config, q: Mixed, op: Op): (r: (Mixed, Option<Packet>))
    requires MixedOk(c, q) && OpOk(c, op)
    ensures MixedOk(c, r.0)
  {
    match op
    case Write(buf) =>
      if Accepts(c, Fifo(q.waiting, q.taken))
      then (q.(waiting := q.waiting + [C.And(q.left[NextSlot(c, q)], buf)]), None)
      else (q, None)
    case Read =>
      if q.waiting == [] then (q, None)
      else
        BlankedOk(c, q.left, q.taken);
        var left := if LastInBlob(c, q.taken) then Blanked(c, q.left, q.taken) else q.left;
        (Mixed(q.waiting[1..], q.taken + 1, left), Some(q.waiting[0]))
    case Save => (q, None)
  }

  ghost function MixedOutputs(c: Config, q: Mixed, ops: seq<Op>): seq<Option<Packet>>
    requires MixedOk(c, q) && OpsOk(c, ops)
    decreases |ops|
  {
    if ops == [] then []
    else [MixedStep(c, q, ops[0]).1] + MixedOutputs(c, MixedStep(c, q, ops[0]).0, ops[1..])
  }

  function Of(h: History, left: seq<Packet>): Mixed
    requires h.read <= |h.log|
  {
    Mixed(h.log[h.read..], h.read, left)
  }

  // ---------------------------------------------------------------- one operation

  // Pointers do not depend on what is in the cells, nor on what is written.
  lemma SamePointers(c: Config, s: State, s': State, h: History)
    requires PtrInv(c, s, h) && s'.ptr == s.ptr && s'.rom == s.rom && |s'.cells| == |s.cells|
    ensures PtrInv(c, s', h)
  {
  }

  lemma HeadSlot(c: Config, s: State, h: History)
    requires PtrInv(c, s, h)
    ensures var k := Wrap(c, Tail(c, h) + |h.log| - h.read);
            k == |h.log| % c.totalPacket < c.totalPacket && s.ptr.head == c.SlotAddr(k)
  {
    Cursor(c, h);
    SlotOfPacket(c, h, |h.log|);
  }

  lemma ProgramAny(c: Config, cells: seq<bv8>, k: nat, buf: Packet, i: nat)
    requires c.Valid() && c.Last() <= |cells| && k < c.totalPacket && i < c.totalPacket
    requires |buf| == c.packetLen && c.SlotAddr(k) + |buf| <= |cells|
    ensures |PacketAt(c, cells, k)| == |buf|
    ensures PacketAt(c, F.Programmed(cells, c.SlotAddr(k), buf), i)
         == if i == k then C.And(PacketAt(c, cells, k), buf) else PacketAt(c, cells, i)
  {
    SlotIsOnSlot(c, i);
    SlotIsOnSlot(c, k);
    if i == k {
      C.MixedCells(cells, c.SlotAddr(k), PacketAt(c, cells, k), buf);
    } else {
      SlotOrder(c, i, k);
      SlotOrder(c, k, i);
      F.ProgrammedElsewhere(cells, c.SlotAddr(k), buf, c.SlotAddr(i), c.packetLen);
    }
  }

  lemma WriteSlot(c: Config, h: History, h': History, left: seq<Packet>, x: Packet, i: nat)
    requires HistoryOk(c, h) && HistoryOk(c, h') && LeftOk(c, left) && i < c.totalPacket
    requires h'.log == h.log + [x] && h'.read == h.read
    ensures var k := Wrap(c, Tail(c, h) + |h.log| - h.read);
            && (i == k ==> Stored(c, h, left, i) == left[i])
            && Stored(c, h', left, i) == if i == k then x else Stored(c, h, left, i)
  {
    Cursor(c, h);
    assert i == Wrap(c, Tail(c, h) + |h.log| - h.read) <==> Rank(c, h, i) == Used(c, h);
  }

  lemma WriteFlash(c: Config, s: State, h: History, h': History, left: seq<Packet>, buf: Packet, x: Packet, k: nat)
    requires Inv(c, s, h, left) && |buf| == c.packetLen && !s.ptr.isLock && HistoryOk(c, h')
    requires k == |h.log| % c.totalPacket && x == C.And(left[k], buf) && h'.log == h.log + [x] && h'.read == h.read
    ensures forall i :: 0 <= i < c.totalPacket ==> PacketAt(c, WriteStep(c, s, buf).cells, i) == Stored(c, h', left, i)
  {
    HeadSlot(c, s, h);
    SlotIsOnSlot(c, k);
    forall i | 0 <= i < c.totalPacket
      ensures PacketAt(c, WriteStep(c, s, buf).cells, i) == Stored(c, h', left, i)
    {
      WriteSlot(c, h, h', left, x, i);
      WriteSlot(c, h, h', left, x, k);
      ProgramAny(c, s.cells, k, buf, i);
    }
  }

  lemma WriteMixes(c: Config, s: State, h: History, left: seq<Packet>, buf: Packet)
    requires Inv(c, s, h, left) && |buf| == c.packetLen && !s.ptr.isLock
    ensures var x := C.And(left[|h.log| % c.totalPacket], buf);
            Inv(c, WriteStep(c, s, buf), HistWrite(c, s, h, x), left)
  {
    var k := |h.log| % c.totalPacket;
    HeadSlot(c, s, h);
    var x := C.And(left[k], buf);
    WritePointers(c, s, h, x);
    SamePointers(c, WriteStep(c, s, x), WriteStep(c, s, buf), HistWrite(c, s, h, x));
    WriteFlash(c, s, h, HistWrite(c, s, h, x), left, buf, x, k);
  }

  lemma ReadSlot(c: Config, h: History, h': History, left: seq<Packet>, i: nat)
    requires HistoryOk(c, h) && HistoryOk(c, h') && LeftOk(c, left) && i < c.totalPacket
    requires h'.log == h.log && h'.read == h.read + 1
    ensures LastInBlob(c, h.read) ==>
              Stored(c, h', Blanked(c, left, h.read), i)
                == if Frontier(c, h) <= i < Frontier(c, h) + c.PerBlob() then F.Blank(c.packetLen) else Stored(c, h, left, i)
    ensures !LastInBlob(c, h.read) ==> Stored(c, h', left, i) == Stored(c, h, left, i)
  {
    Cursor(c, h);
    NextTail(c, h, h');
    SameCursor(c, h, History([], h.read, 0));
    if LastInBlob(c, h.read) {
      BlankedAt(c, left, h, i);
    }
  }

  function LeftAfter(c: Config, h: History, left: seq<Packet>): seq<Packet>
    requires c.Valid()
  {
    if LastInBlob(c, h.read) then Blanked(c, left, h.read) else left
  }

  lemma ReadCells(c: Config, s: State, h: History, i: nat)
    requires PtrInv(c, s, h) && c.SectorsFit() && s.ptr.qState == Running && i < c.totalPacket
    ensures PacketAt(c, ReadStep(c, s).0.cells, i)
         == if LastInBlob(c, h.read) && Frontier(c, h) <= i < Frontier(c, h) + c.PerBlob() then F.Blank(c.packetLen)
            else PacketAt(c, s.cells, i)
  {
    Cursor(c, h);
    ReadAddresses(c, s, h);
    EraseFrontier(c, s.cells, Frontier(c, h), i);
  }

  lemma ReadFlash(c: Config, s: State, h: History, left: seq<Packet>)
    requires Inv(c, s, h, left) && c.SectorsFit() && s.ptr.qState == Running && HistoryOk(c, HistRead(c, s, h))
    ensures LeftOk(c, LeftAfter(c, h, left))
    ensures forall i :: 0 <= i < c.totalPacket ==>
              PacketAt(c, ReadStep(c, s).0.cells, i) == Stored(c, HistRead(c, s, h), LeftAfter(c, h, left), i)
  {
    BlankedOk(c, left, h.read);
    forall i | 0 <= i < c.totalPacket
      ensures PacketAt(c, ReadStep(c, s).0.cells, i) == Stored(c, HistRead(c, s, h), LeftAfter(c, h, left), i)
    {
      ReadCells(c, s, h, i);
      ReadSlot(c, h, HistRead(c, s, h), left, i);
      assert PacketAt(c, s.cells, i) == Stored(c, h, left, i);
    }
  }

  lemma ReadKeeps(c: Config, s: State, h: History, left: seq<Packet>)
    requires Inv(c, s, h, left) && c.SectorsFit() && s.ptr.qState == Running
    ensures Inv(c, ReadStep(c, s).0, HistRead(c, s, h), LeftAfter(c, h, left))
    ensures h.read < |h.log| && ReadStep(c, s).1 == Some(h.log[h.read])
  {
    ReadPointers(c, s, h);
    ReadFlash(c, s, h, left);
    Cursor(c, h);
    assert PacketAt(c, s.cells, Tail(c, h)) == Stored(c, h, left, Tail(c, h));
    assert ReadStep(c, s).1 == Some(PacketAt(c, s.cells, Tail(c, h)));
  }

  // ---------------------------------------------------------------- runs

  lemma StepIsMixed(c: Config, s: State, h: History, left: seq<Packet>, op: Op) returns (h': History, left': seq<Packet>)
    requires Inv(c, s, h, left) && c.SectorsFit() && OpOk(c, op)
    ensures Inv(c, Step(c, s, op).0, h', left')
    ensures h'.read <= |h'.log| && MixedStep(c, Of(h, left), op) == (Of(h', left'), Step(c, s, op).1)
  {
    h', left' := h, left;
    match op
    case Write(buf) =>
      WritePointers(c, s, h, buf);
      if !s.ptr.isLock {
        var x := C.And(left[|h.log| % c.totalPacket], buf);
        WriteMixes(c, s, h, left, buf);
        h' := HistWrite(c, s, h, x);
        WaitingAfterWrite(h.log, x, h.read);
      }
    case Read =>
      if s.ptr.qState == Running {
        ReadKeeps(c, s, h, left);
        h', left' := HistRead(c, s, h), LeftAfter(c, h, left);
      }
    case Save =>
      h' := HistStep(c, s, h, Save);
      SaveDirty(c, s, h, left);
  }

  lemma SaveDirty(c: Config, s: State, h: History, left: seq<Packet>)
    requires Inv(c, s, h, left)
    ensures Inv(c, SaveStep(c, s), HistStep(c, s, h, Save), left)
  {
    StepKeepsPointers(c, s, h, Save);
    var h' := HistStep(c, s, h, Save);
    forall i | 0 <= i < c.totalPacket
      ensures Stored(c, h', left, i) == Stored(c, h, left, i)
    {
    }
  }

  // Whatever lies in the slots that are not in use, the queue answers as the FIFO of what is stored.
  lemma {:induction false} RunIsMixedFifo(c: Config, s: State, h: History, left: seq<Packet>, ops: seq<Op>)
    requires Inv(c, s, h, left) && c.SectorsFit() && OpsOk(c, ops)
    ensures Outputs(c, s, ops) == MixedOutputs(c, Of(h, left), ops)
    decreases |ops|
  {
    if ops != [] {
      var h', left' := StepIsMixed(c, s, h, left, ops[0]);
      RunIsMixedFifo(c, Step(c, s, ops[0]).0, h', left', ops[1..]);
    }
  }

  // ---------------------------------------------------------------- restarts from old records

  // What lies in all the slots.
  function Contents(c: Config, cells: seq<bv8>): (r: seq<Packet>)
    requires c.Valid() && c.Last() <= |cells|
    ensures |r| == c.totalPacket
  {
    seq(c.totalPacket, i requires 0 <= i < c.totalPacket => PacketAt(c, cells, i))
  }

  lemma ContentsOk(c: Config, cells: seq<bv8>)
    requires c.Valid() && c.Last() <= |cells|
    ensures LeftOk(c, Contents(c, cells))
  {
    forall i | 0 <= i < c.totalPacket
      ensures |Contents(c, cells)[i]| == c.packetLen
    {
      SlotIsOnSlot(c, i);
    }
  }

  // What the record knew of.
  function Recorded(h: History, kept: nat): History
    requires kept <= |h.log|
  {
    History(h.log[..kept], h.saved, h.saved)
  }

  lemma RecordedSlot(c: Config, s: State, h: History, kept: nat, i: nat)
    requires Known(c, s, h, kept) && HistoryOk(c, Recorded(h, kept)) && i < c.totalPacket
    ensures PacketAt(c, s.cells, i) == Stored(c, Recorded(h, kept), Contents(c, s.cells), i)
  {
    SavedCursor(c, h);
    SameCursor(c, Resumed(h), Recorded(h, kept));
    assert PacketAt(c, s.cells, i) == Expected(c, h, i);
  }

  // After power loss, from every record that does not say that there is data with its head and
  // tail together, every run of the restarted queue answers as the FIFO of the packets the
  // record knew of, and each packet written later is mixed with what lies in its slot: the
  // packets accepted after the record are not found, and are written over.
  lemma {:induction false} RestartIsMixedFifo(c: Config, s: State, h: History, kept: nat, ops: seq<Op>)
    requires Known(c, s, h, kept) && c.SectorsFit() && OpsOk(c, ops)
    requires !(s.rom.qState == Running && s.rom.head == s.rom.tail)
    ensures Shape(c, RestartStep(c, s)) && LeftOk(c, Contents(c, s.cells))
    ensures Outputs(c, RestartStep(c, s), ops)
         == MixedOutputs(c, Mixed(h.log[h.saved..kept], h.saved, Contents(c, s.cells)), ops)
  {
    RestartShape(c, s, h, kept);
    RestartPointers(c, s, h, kept);
    ContentsOk(c, s.cells);
    forall i | 0 <= i < c.totalPacket
      ensures PacketAt(c, s.cells, i) == Stored(c, Recorded(h, kept), Contents(c, s.cells), i)
    {
      RecordedSlot(c, s, h, kept, i);
    }
    RunIsMixedFifo(c, RestartStep(c, s), Recorded(h, kept), Contents(c, s.cells), ops);
    assert h.log[..kept][h.saved..] == h.log[h.saved..kept];
  }

  // The first packet written then goes over the oldest packet that was not found.
  lemma NextGoesOver(c: Config, s: State, h: History, kept: nat)
    requires Known(c, s, h, kept) && kept < |h.log|
    ensures NextSlot(c, Mixed(h.log[h.saved..kept], h.saved, Contents(c, s.cells))) == kept % c.totalPacket
    ensures Contents(c, s.cells)[kept % c.totalPacket] == h.log[kept]
  {
    KeptIsHeld(c, s, h, kept);
    SlotHolds(c, s, h, kept);
  }

  lemma KeptIsHeld(c: Config, s: State, h: History, kept: nat)
    requires Known(c, s, h, kept)
    ensures h.read - InBlob(c, h) <= kept
  {
  }
}

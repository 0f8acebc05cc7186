// The flash ring queue as a state machine: pointers in RAM, the last pointer record
// persisted in EEPROM, and the flash cells themselves.
module MemqSpec {
  import opened Wrappers
  import opened Arith
  import F = Flash

  type Packet = seq<bv8>

  datatype Config = Config(base: nat, packetLen: nat, totalPacket: nat, blobSize: nat, maxPtrEvent: nat) {
    function SlotAddr(i: nat): nat {
      base + i * packetLen
    }

    function Last(): nat {
      SlotAddr(totalPacket)
    }

    predicate Valid() {
      && 0 < packetLen < 0x1_0000 && 0 < totalPacket && 0 < blobSize < 0x1_0000
      && blobSize % packetLen == 0
      && Last() + blobSize <= 0x1_0000_0000
    }

    // packets per erase blob
    function PerBlob(): (m: nat)
      requires Valid()
      ensures m > 0 && m * packetLen == blobSize
    {
      blobSize / packetLen
    }

    // The part of the device that the queue uses from each erase frontier onwards is
    // exactly what one erase command there sets to 0xFF.
    ghost predicate SectorsFit()
      requires blobSize > 0
    {
      base % blobSize == 0 || base % blobSize + packetLen * totalPacket <= blobSize
    }
  }

  datatype QState = Reset | Running | NoData

  datatype RingPtr = RingPtr(head: nat, tail: nat, saveTail: nat, willErase: nat, qState: QState, isLock: bool)

  // events counts pointer changes since the last timed save, modulo 2^16
  datatype State = State(ptr: RingPtr, rom: RingPtr, events: nat, cells: seq<bv8>)

  ghost predicate OnSlot(c: Config, a: nat)
    requires c.Valid()
  {
    c.base <= a < c.Last() && (a - c.base) % c.packetLen == 0
  }

  ghost predicate OnBlob(c: Config, a: nat)
    requires c.Valid()
  {
    c.base <= a < c.Last() && (a - c.base) % c.blobSize == 0
  }

  // Enough for every operation to stay inside the region, whatever the flash holds.
  ghost predicate Shape(c: Config, s: State) {
    && c.Valid()
    && c.Last() <= |s.cells|
    && OnSlot(c, s.ptr.head) && OnSlot(c, s.ptr.tail) && OnBlob(c, s.ptr.willErase)
  }

  function Count(events: nat): nat {
    (events + 1) % 0x1_0000
  }

  function ResetPtr(c: Config): RingPtr {
    RingPtr(c.base, c.base, c.base, c.base, Reset, false)
  }

  // A reset erases every blob that overlaps the region.
  function FirstErased(c: Config): (a: nat)
    requires c.Valid()
    ensures a <= c.base
  {
    RoundDown(c.base, c.blobSize)
  }

  function EndErased(c: Config): (a: nat)
    requires c.Valid()
    ensures c.Last() <= a
  {
    SlotOrder(c, 0, c.totalPacket);
    RoundDown(c.Last() - 1, c.blobSize) + c.blobSize
  }

  function ResetState(c: Config, cells: seq<bv8>): (r: State)
    requires c.Valid() && c.Last() <= |cells|
    ensures Shape(c, r)
  {
    BaseOnSlot(c);
    State(ResetPtr(c), ResetPtr(c), 0, F.Blanked(cells, FirstErased(c), EndErased(c)))
  }

  function WriteStep(c: Config, s: State, buf: Packet): (r: State)
    requires Shape(c, s) && |buf| == c.packetLen
    ensures Shape(c, r)
  {
    NextOnSlot(c, s.ptr.head);
    if s.ptr.isLock then s
    else
      var cells := F.Programmed(s.cells, s.ptr.head, buf);
      var wraps := s.ptr.head + c.packetLen >= c.Last();
      var p1 := s.ptr.(head := if wraps then c.base else s.ptr.head + c.packetLen, qState := Running);
      if p1.head == p1.willErase then
        var p2 := p1.(isLock := true);
        State(p2, p2, Count(s.events), cells)
      else
        State(p1, if wraps then p1 else s.rom, Count(s.events), cells)
  }

  // The tail moves past the packet just read; at the end of a blob, or of the region, that
  // blob is erased, the lock is released and the pointers are persisted.
  function TailStep(c: Config, s: State): (r: State)
    requires Shape(c, s)
    ensures Shape(c, r)
  {
    NextOnSlot(c, s.ptr.tail);
    NextOnBlob(c, s.ptr.willErase);
    var tail := s.ptr.tail + c.packetLen;
    if tail == c.Last() then
      var p := s.ptr.(tail := c.base, isLock := false, willErase := c.base);
      State(p, p, Count(s.events), F.SectorErased(s.cells, c.blobSize, s.ptr.willErase))
    else if tail >= s.ptr.willErase + c.blobSize then
      var p := s.ptr.(tail := tail, isLock := false, willErase := s.ptr.willErase + c.blobSize);
      State(p, p, Count(s.events), F.SectorErased(s.cells, c.blobSize, s.ptr.willErase))
    else
      s.(ptr := s.ptr.(tail := tail), events := Count(s.events))
  }

  function ReadStep(c: Config, s: State): (r: (State, Option<Packet>))
    requires Shape(c, s)
    ensures Shape(c, r.0)
  {
    if s.ptr.qState != Running then (s, None)
    else
      NextOnSlot(c, s.ptr.tail);
      var pkt := s.cells[s.ptr.tail..s.ptr.tail + c.packetLen];
      var s1 := TailStep(c, s);
      (if s1.ptr.tail == s1.ptr.head then s1.(ptr := s1.ptr.(qState := NoData, isLock := false)) else s1, Some(pkt))
  }

  function SaveStep(c: Config, s: State): State {
    if s.events >= c.maxPtrEvent then s.(rom := s.ptr, events := 0) else s
  }

  function Available(c: Config, p: RingPtr): int
    requires c.packetLen > 0
  {
    if p.tail == p.head then 0
    else if p.head > p.tail then (p.head - p.tail) / c.packetLen
    else (c.Last() - p.tail + p.head - c.base) / c.packetLen
  }

  // The lock as start-up recomputes it from a pointer record.
  predicate RebuiltLock(p: RingPtr) {
    p.head == p.willErase && p.head != p.tail
  }

  predicate InRegion(c: Config, p: RingPtr) {
    c.base <= p.head <= c.Last() && c.base <= p.tail <= c.Last() && c.base <= p.saveTail <= c.Last()
  }

  // Start-up: the event counter starts at zero, and the record is read back, checked against
  // the region and given a lock.
  function RestartStep(c: Config, s: State): State
    requires c.Valid() && c.Last() <= |s.cells|
  {
    var p := s.rom;
    var s1 := if InRegion(c, p) then s.(ptr := p) else ResetState(c, s.cells);
    var p1 := s1.ptr.(isLock := RebuiltLock(s1.ptr));
    s1.(ptr := p1, rom := p1, events := 0)
  }

  // ---------------------------------------------------------------- runs

  datatype Op = Write(buf: Packet) | Read | Save

  predicate OpOk(c: Config, op: Op) {
    op.Write? ==> |op.buf| == c.packetLen
  }

  function Step(c: Config, s: State, op: Op): (r: (State, Option<Packet>))
    requires Shape(c, s) && OpOk(c, op)
    ensures Shape(c, r.0)
  {
    match op
    case Write(buf) => (WriteStep(c, s, buf), None)
    case Read => ReadStep(c, s)
    case Save => (SaveStep(c, s), None)
  }

  predicate OpsOk(c: Config, ops: seq<Op>) {
    forall i :: 0 <= i < |ops| ==> OpOk(c, ops[i])
  }

  function After(c: Config, s: State, ops: seq<Op>): (r: State)
    requires Shape(c, s) && OpsOk(c, ops)
    ensures Shape(c, r)
    decreases |ops|
  {
    if ops == [] then s else After(c, Step(c, s, ops[0]).0, ops[1..])
  }

  // What the callers of a run are given back, operation by operation.
  function Outputs(c: Config, s: State, ops: seq<Op>): seq<Option<Packet>>
    requires Shape(c, s) && OpsOk(c, ops)
    decreases |ops|
  {
    if ops == [] then []
    else [Step(c, s, ops[0]).1] + Outputs(c, Step(c, s, ops[0]).0, ops[1..])
  }

  // ---------------------------------------------------------------- the queue it should be

  // A bounded FIFO that knows nothing of flash: the packets waiting, and how many were read.
  datatype Fifo = Fifo(waiting: seq<Packet>, taken: nat)

  // Space comes back one blob at a time, when the reader has left it.
  predicate Accepts(c: Config, q: Fifo)
    requires c.Valid()
  {
    q.taken % c.totalPacket % c.PerBlob() + |q.waiting| < c.totalPacket
  }

  function FifoStep(c: Config, q: Fifo, op: Op): (Fifo, Option<Packet>)
    requires c.Valid()
  {
    match op
    case Write(buf) => (if Accepts(c, q) then q.(waiting := q.waiting + [buf]) else q, None)
    case Read => if q.waiting == [] then (q, None) else (Fifo(q.waiting[1..], q.taken + 1), Some(q.waiting[0]))
    case Save => (q, None)
  }

  function FifoOutputs(c: Config, q: Fifo, ops: seq<Op>): seq<Option<Packet>>
    requires c.Valid()
    decreases |ops|
  {
    if ops == [] then []
    else [FifoStep(c, q, ops[0]).1] + FifoOutputs(c, FifoStep(c, q, ops[0]).0, ops[1..])
  }

  // ---------------------------------------------------------------- address arithmetic

  lemma SlotOrder(c: Config, i: nat, j: nat)
    ensures c.SlotAddr(j) - c.SlotAddr(i) == (j - i) * c.packetLen
    ensures i <= j ==> c.SlotAddr(i) <= c.SlotAddr(j)
    ensures i < j ==> c.SlotAddr(i) + c.packetLen <= c.SlotAddr(j)
    ensures c.packetLen > 0 ==> (c.SlotAddr(i) == c.SlotAddr(j) <==> i == j)
  {
    MulSum(j, i, c.packetLen);
    MulOrder(j - i, c.packetLen);
  }

  lemma SlotNext(c: Config, i: nat)
    ensures c.SlotAddr(i + 1) == c.SlotAddr(i) + c.packetLen
  {
    SlotOrder(c, i, i + 1);
  }

  lemma SlotMod(c: Config, i: nat)
    requires c.packetLen > 0
    ensures (c.SlotAddr(i) - c.base) % c.packetLen == 0
    ensures (c.SlotAddr(i) - c.base) / c.packetLen == i
  {
    ModOfMultiple(i, c.packetLen);
  }

  // Every on-slot address is the address of one slot of the region.
  lemma SlotOf(c: Config, a: nat) returns (i: nat)
    requires c.Valid() && OnSlot(c, a)
    ensures i < c.totalPacket && a == c.SlotAddr(i)
  {
    i := (a - c.base) / c.packetLen;
    assert a - c.base == i * c.packetLen;
    SlotOrder(c, c.totalPacket, i);
  }

  lemma SlotIsOnSlot(c: Config, i: nat)
    requires c.Valid() && i < c.totalPacket
    ensures OnSlot(c, c.SlotAddr(i)) && c.SlotAddr(i) + c.packetLen <= c.Last()
  {
    SlotOrder(c, i, c.totalPacket);
    SlotMod(c, i);
  }

  lemma BaseOnSlot(c: Config)
    requires c.Valid()
    ensures OnSlot(c, c.base) && OnBlob(c, c.base)
  {
    SlotIsOnSlot(c, 0);
  }

  lemma NextOnSlot(c: Config, a: nat)
    requires c.Valid() && OnSlot(c, a)
    ensures a + c.packetLen <= c.Last()
    ensures a + c.packetLen < c.Last() ==> OnSlot(c, a + c.packetLen)
    ensures OnSlot(c, c.base) && OnBlob(c, c.base)
  {
    BaseOnSlot(c);
    var i := SlotOf(c, a);
    SlotOrder(c, i, c.totalPacket);
    SlotNext(c, i);
    SlotMod(c, i + 1);
  }

  lemma NextOnBlob(c: Config, a: nat)
    requires c.Valid() && OnBlob(c, a)
    ensures a + c.blobSize < c.Last() ==> OnBlob(c, a + c.blobSize)
  {
    AddModulus(a - c.base, c.blobSize);
  }
}

// Whole runs of the flash ring queue, from memqReset on.
module MemqTheorems {
  import opened Wrappers
  import opened Arith
  import opened MemqSpec
  import opened MemqFifo
  import F = Flash

  const Fresh := History([], 0, 0)

  lemma ResetBlanks(c: Config, cells: seq<bv8>, i: nat)
    requires c.Valid() && c.Last() <= |cells| && i < c.totalPacket
    ensures PacketAt(c, ResetState(c, cells).cells, i) == F.Blank(c.packetLen)
  {
    SlotIsOnSlot(c, i);
    F.BlankedSlice(cells, FirstErased(c), EndErased(c), c.SlotAddr(i), c.packetLen);
  }

  lemma ResetKeeps(c: Config, cells: seq<bv8>)
    requires c.Valid() && c.Last() <= |cells|
    ensures Inv(c, ResetState(c, cells), Fresh)
  {
    SmallMod(0, c.totalPacket);
    SmallMod(0, c.PerBlob());
    forall i | 0 <= i < c.totalPacket
      ensures PacketAt(c, ResetState(c, cells).cells, i) == F.Blank(c.packetLen)
    {
      ResetBlanks(c, cells, i);
    }
  }

  lemma SaveKeeps(c: Config, s: State, h: History)
    requires Inv(c, s, h)
    ensures Inv(c, SaveStep(c, s), HistStep(c, s, h, Save))
  {
  }

  lemma WaitingAfterWrite(log: seq<Packet>, buf: Packet, read: nat)
    requires read <= |log|
    ensures (log + [buf])[read..] == log[read..] + [buf]
  {
  }

  lemma WriteAsFifo(c: Config, s: State, h: History, buf: Packet)
    requires PtrInv(c, s, h) && |buf| == c.packetLen
    ensures FifoStep(c, Waiting(h), Write(buf)) == (Waiting(HistWrite(c, s, h, buf)), None)
  {
    WritePointers(c, s, h, buf);
    WaitingAfterWrite(h.log, buf, h.read);
  }

  lemma StepKeepsPointers(c: Config, s: State, h: History, op: Op)
    requires PtrInv(c, s, h) && OpOk(c, op)
    ensures PtrInv(c, Step(c, s, op).0, HistStep(c, s, h, op))
    ensures FifoStep(c, Waiting(h), op).0 == Waiting(HistStep(c, s, h, op))
  {
    match op
    case Save =>
    case Write(buf) => WritePointers(c, s, h, buf); WriteAsFifo(c, s, h, buf);
    case Read => ReadPointers(c, s, h);
  }

  lemma StepKeeps(c: Config, s: State, h: History, op: Op)
    requires Inv(c, s, h) && c.SectorsFit() && OpOk(c, op)
    ensures Inv(c, Step(c, s, op).0, HistStep(c, s, h, op))
    ensures FifoStep(c, Waiting(h), op) == (Waiting(HistStep(c, s, h, op)), Step(c, s, op).1)
  {
    StepKeepsPointers(c, s, h, op);
    match op
    case Save => SaveKeeps(c, s, h);
    case Write(buf) => WriteKeeps(c, s, h, buf);
    case Read => ReadKeeps(c, s, h);
  }

  // Any mix of writes, reads and saves keeps the invariant and answers as the FIFO does.
  lemma {:induction false} RunRefinesFifo(c: Config, s: State, h: History, ops: seq<Op>)
    requires Inv(c, s, h) && c.SectorsFit() && OpsOk(c, ops)
    ensures Inv(c, After(c, s, ops), HistAfter(c, s, h, ops))
    ensures Outputs(c, s, ops) == FifoOutputs(c, Waiting(h), ops)
    decreases |ops|
  {
    if ops != [] {
      StepKeeps(c, s, h, ops[0]);
      RunRefinesFifo(c, Step(c, s, ops[0]).0, HistStep(c, s, h, ops[0]), ops[1..]);
    }
  }

  // From a reset, whatever the flash held before.
  lemma MemqRefinesFifo(c: Config, cells: seq<bv8>, ops: seq<Op>)
    requires c.Valid() && c.SectorsFit() && c.Last() <= |cells| && OpsOk(c, ops)
    ensures Outputs(c, ResetState(c, cells), ops) == FifoOutputs(c, Fifo([], 0), ops)
  {
    ResetKeeps(c, cells);
    RunRefinesFifo(c, ResetState(c, cells), Fresh, ops);
  }

  // ---------------------------------------------------------------- frontier, lock and capacity

  // The erase frontier is the start of the blob that holds the tail; the lock is on exactly
  // when packets wait and the head has come round to the frontier; a locked queue holds more
  // packets than the region has outside one blob.
  lemma FrontierLockCapacity(c: Config, s: State, h: History)
    requires Inv(c, s, h)
    ensures s.ptr.willErase == c.base + (s.ptr.tail - c.base) / c.blobSize * c.blobSize
    ensures s.ptr.isLock <==> h.read < |h.log| && s.ptr.head == s.ptr.willErase
    ensures s.ptr.isLock ==> |h.log| - h.read > c.totalPacket - c.PerBlob()
  {
    FrontierOfTail(c, h);
    var k := Wrap(c, Tail(c, h) + |h.log| - h.read);
    Cursor(c, h);
    SlotOrder(c, k, Frontier(c, h));
  }

  lemma FrontierOfTail(c: Config, h: History)
    requires c.Valid()
    ensures var a := c.SlotAddr(Tail(c, h));
            c.SlotAddr(Frontier(c, h)) == c.base + (a - c.base) / c.blobSize * c.blobSize
  {
    var t, m := Tail(c, h), c.PerBlob();
    BlobOf(t, m, c.packetLen);
  }

  lemma BlobOf(t: nat, m: nat, p: nat)
    requires m > 0 && p > 0
    ensures m * p > 0 && (t - t % m) * p == t * p / (m * p) * (m * p)
  {
    MulOrder(m, p);
    MulSum(t, t % m, p);
    MulOrder(m - t % m, p);
    MulSum(m, t % m, p);
    MulAssoc(t / m, m, p);
    MulOrder(t % m, p);
    DivModUnique(t * p, m * p, t / m, t % m * p);
  }

  // What the read step erases holds no packet that is still to be read.
  lemma NoEraseTouchesUnread(c: Config, s: State, h: History, i: nat)
    requires Inv(c, s, h) && c.SectorsFit() && s.ptr.qState == Running
    requires h.read < i < |h.log|
    ensures PacketAt(c, s.cells, i % c.totalPacket) == h.log[i]
    ensures PacketAt(c, ReadStep(c, s).0.cells, i % c.totalPacket) == h.log[i]
  {
    SlotHolds(c, s, h, i);
    ReadKeeps(c, s, h);
    Cursor(c, h);
    NextTail(c, h, HistRead(c, s, h));
    SlotHolds(c, ReadStep(c, s).0, HistRead(c, s, h), i);
  }

  // Packet number i lives in slot i mod totalPacket for as long as its blob is not erased.
  lemma SlotHolds(c: Config, s: State, h: History, i: nat)
    requires Inv(c, s, h)
    requires h.read - InBlob(c, h) <= i < |h.log|
    ensures PacketAt(c, s.cells, i % c.totalPacket) == h.log[i]
  {
    Cursor(c, h);
    SlotOfPacket(c, h, i);
    assert Rank(c, h, i % c.totalPacket) == i - (h.read - InBlob(c, h));
  }

  lemma SlotOfPacket(c: Config, h: History, i: nat)
    requires c.Valid() && 0 <= Tail(c, h) + i - h.read < 2 * c.totalPacket
    ensures i % c.totalPacket == Wrap(c, Tail(c, h) + i - h.read)
  {
    ModFrom(h.read, c.totalPacket, i);
  }

  // ---------------------------------------------------------------- views derived from the pointers

  // The packet count is exact except in one state, the completely full one, where it is 0.
  lemma AvailableIsExact(c: Config, s: State, h: History)
    requires Inv(c, s, h)
    ensures Available(c, s.ptr) == |h.log| - h.read <==> |h.log| - h.read < c.totalPacket
    ensures |h.log| - h.read == c.totalPacket ==> Available(c, s.ptr) == 0
  {
    var n, t, q := c.totalPacket, Tail(c, h), |h.log| - h.read;
    var k := Wrap(c, t + q);
    SlotOrder(c, t, k);
    SlotOrder(c, k, t);
    MulSum(n - t, k, c.packetLen);
    MulSum(n, t, c.packetLen);
    if k > t {
      ModOfMultiple(k - t, c.packetLen);
    } else {
      ModOfMultiple(n - t + k, c.packetLen);
    }
  }

  // So is the lock that start-up recomputes.
  lemma RebuiltLockIsExact(c: Config, s: State, h: History)
    requires Inv(c, s, h)
    ensures RebuiltLock(s.ptr) == s.ptr.isLock <==> |h.log| - h.read < c.totalPacket
  {
    var t := Tail(c, h);
    var k := Wrap(c, t + |h.log| - h.read);
    FrontierLockCapacity(c, s, h);
    SlotOrder(c, t, k);
  }

  // ---------------------------------------------------------------- power loss

  // At every point of every run the persisted record has the live erase frontier, its tail is
  // at or behind the live tail by less than a blob, and every packet from its tail up to the
  // live head is intact in flash.
  lemma ReadSideSurvives(c: Config, cells: seq<bv8>, ops: seq<Op>)
    requires c.Valid() && c.SectorsFit() && c.Last() <= |cells| && OpsOk(c, ops)
    ensures var s := After(c, ResetState(c, cells), ops);
            var h := HistAfter(c, ResetState(c, cells), Fresh, ops);
            && h.saved <= h.read <= |h.log| && h.read - h.saved < c.PerBlob()
            && s.rom.willErase == s.ptr.willErase
            && s.rom.willErase <= s.rom.tail <= s.ptr.tail
            && s.rom.tail == c.SlotAddr(h.saved % c.totalPacket)
            && s.ptr.head == c.SlotAddr(|h.log| % c.totalPacket)
            && forall i :: h.saved <= i < |h.log| ==> PacketAt(c, s.cells, i % c.totalPacket) == h.log[i]
  {
    var s0 := ResetState(c, cells);
    ResetKeeps(c, cells);
    RunRefinesFifo(c, s0, Fresh, ops);
    var s := After(c, s0, ops);
    var h := HistAfter(c, s0, Fresh, ops);
    RecordSlots(c, s, h);
    forall i | h.saved <= i < |h.log|
      ensures PacketAt(c, s.cells, i % c.totalPacket) == h.log[i]
    {
      SlotHolds(c, s, h, i);
    }
  }

  lemma RecordSlots(c: Config, s: State, h: History)
    requires PtrInv(c, s, h)
    ensures h.read - h.saved < c.PerBlob()
    ensures Frontier(c, h) <= Tail(c, h) - (h.read - h.saved) == h.saved % c.totalPacket
    ensures s.rom.willErase <= s.rom.tail <= s.ptr.tail
    ensures s.rom.tail == c.SlotAddr(h.saved % c.totalPacket)
    ensures s.ptr.head == c.SlotAddr(|h.log| % c.totalPacket)
  {
    var x := Tail(c, h) - (h.read - h.saved);
    Cursor(c, h);
    SlotOfPacket(c, h, h.saved);
    SlotOfPacket(c, h, |h.log|);
    SlotOrder(c, Frontier(c, h), x);
    SlotOrder(c, x, Tail(c, h));
  }

  // Power lost inside a read, after the erase and before the new record is written: the old
  // record's tail is in the blob that was just blanked, so what it points at is gone, the packet
  // of that read with it; every packet behind it is still there.
  lemma PowerLossDuringErase(c: Config, s: State, h: History)
    requires Inv(c, s, h) && c.SectorsFit() && s.ptr.qState == Running
    requires HistRead(c, s, h).saved == h.read + 1
    ensures var cells := F.SectorErased(s.cells, c.blobSize, s.ptr.willErase);
            && PacketAt(c, cells, h.saved % c.totalPacket) == F.Blank(c.packetLen)
            && forall i :: h.read < i < |h.log| ==> PacketAt(c, cells, i % c.totalPacket) == h.log[i]
  {
    var cells := F.SectorErased(s.cells, c.blobSize, s.ptr.willErase);
    RecordSlots(c, s, h);
    Cursor(c, h);
    NextTail(c, h, HistRead(c, s, h));
    EraseFrontier(c, s.cells, Frontier(c, h), h.saved % c.totalPacket);
    ReadErases(c, s, h);
    forall i | h.read < i < |h.log|
      ensures PacketAt(c, cells, i % c.totalPacket) == h.log[i]
    {
      NoEraseTouchesUnread(c, s, h, i);
    }
  }

  lemma ReadErases(c: Config, s: State, h: History)
    requires Inv(c, s, h) && s.ptr.qState == Running && HistRead(c, s, h).saved == h.read + 1
    ensures ReadStep(c, s).0.cells == F.SectorErased(s.cells, c.blobSize, s.ptr.willErase)
  {
  }

  // Going back to the persisted tail stays in the same blob.
  lemma SavedCursor(c: Config, h: History)
    requires HistoryOk(c, h)
    ensures var h' := History(h.log, h.saved, h.saved);
            && HistoryOk(c, h')
            && Tail(c, h') == Tail(c, h) - (h.read - h.saved)
            && Frontier(c, h') == Frontier(c, h)
            && Used(c, h') == Used(c, h)
  {
    var m := c.PerBlob();
    Cursor(c, h);
    SlotOfPacket(c, h, h.saved);
    WrapMod(Frontier(c, h), m, InBlob(c, h) - (h.read - h.saved));
  }
}

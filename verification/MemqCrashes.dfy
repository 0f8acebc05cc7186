// Runs that power loss ends badly, power loss inside a read, and whole lives of the queue with
// any number of restarts.
module MemqCrashes {
  import opened Wrappers
  import opened Arith
  import opened MemqSpec
  import opened MemqFifo
  import opened MemqTheorems
  import opened MemqRestart
  import A = MemqAlignment
  import F = Flash

  // ---------------------------------------------------------------- the failing records are reached

  // What a run from a reset leads to is explained by its history.
  lemma PlaceIsKnown(c: Config, cells: seq<bv8>, ops: seq<Op>) returns (h: History, kept: nat)
    requires c.Valid() && c.SectorsFit() && c.Last() <= |cells| && OpsOk(c, ops)
    ensures h == HistAfter(c, ResetState(c, cells), Fresh, ops)
    ensures Known(c, After(c, ResetState(c, cells), ops), h, kept)
  {
    ResetIsKnown(c, cells);
    h := HistAfter(c, ResetState(c, cells), Fresh, ops);
    kept := RunIsKnown(c, ResetState(c, cells), Fresh, 0, ops);
  }

  // The last read of a blob, or of the region, that also drains the queue persists the record
  // before it marks the queue empty.
  lemma DrainingReadRecord(c: Config, s: State, h: History)
    requires PtrInv(c, s, h) && h.read + 1 == |h.log|
    requires Tail(c, h) + 1 == c.totalPacket || InBlob(c, h) + 1 == c.PerBlob()
    ensures var s1 := ReadStep(c, s).0;
            && s1.rom.qState == Running && s1.rom.head == s1.rom.tail == s1.ptr.head && s1.ptr.qState == NoData
            && HistRead(c, s, h).saved == |h.log|
  {
    ReadAddresses(c, s, h);
    ReadPointers(c, s, h);
    RecordSlots(c, ReadStep(c, s).0, HistRead(c, s, h));
    RecordSlots(c, s, h);
  }

  // For every configuration: write one blob of packets, or the whole region if it is smaller,
  // and read them. The queue is empty, and a restart makes the next read return a blank packet.
  lemma DrainedAtBlobEnd(c: Config, cells: seq<bv8>) returns (ops: seq<Op>)
    requires c.Valid() && c.SectorsFit() && c.Last() <= |cells|
    ensures OpsOk(c, ops)
    ensures var s := After(c, ResetState(c, cells), ops);
            && s.ptr.qState == NoData && s.rom.head == s.ptr.head && !Resumable(s)
            && Shape(c, RestartStep(c, s)) && ReadStep(c, RestartStep(c, s)).1 == Some(F.Blank(c.packetLen))
  {
    var m := if c.PerBlob() < c.totalPacket then c.PerBlob() else c.totalPacket;
    var p := A.Start(c, cells);
    SmallMod(0, c.totalPacket);
    SmallMod(0, c.PerBlob());
    SlotOrder(c, 0, c.totalPacket);
    p := A.DoWrites(c, cells, p, 0, m, c.base);
    p := A.DoReads(c, cells, p, m - 1, c.base);
    SmallMod(m - 1, c.totalPacket);
    SmallMod(m - 1, c.PerBlob());
    DrainingReadRecord(c, p.s, p.h);
    var p' := A.Extend(c, cells, p, Read);
    ops := p'.ops;
    var h, kept := PlaceIsKnown(c, cells, ops);
    DrainedReadsBlank(c, p'.s, h, kept);
  }

  // A region written full: a restart leaves the queue unlocked with head and tail together, and
  // what is written next goes over the oldest packet.
  lemma FullReached(c: Config, cells: seq<bv8>) returns (ops: seq<Op>)
    requires c.Valid() && c.SectorsFit() && c.Last() <= |cells| && c.totalPacket > 1
    ensures OpsOk(c, ops)
    ensures var s, h := After(c, ResetState(c, cells), ops), HistAfter(c, ResetState(c, cells), Fresh, ops);
            && s.rom.head == s.ptr.head && h.saved <= |h.log| && Shape(c, RestartStep(c, s))
            && !FifoFrom(c, RestartStep(c, s), Fifo(h.log[h.saved..], h.saved))
  {
    var n := c.totalPacket;
    var p := A.Start(c, cells);
    SmallMod(0, n);
    SmallMod(0, c.PerBlob());
    SlotOrder(c, 0, n);
    p := A.DoWrites(c, cells, p, 0, n, c.base);
    ops := p.ops;
    var h, kept := PlaceIsKnown(c, cells, ops);
    if kept < n {
      SmallMod(kept, n);
      assert false;
    }
    RecordTail(c, p.s, h, kept);
    HeadBehind(c, p.s, h, kept);
    FullOverruns(c, p.s, h, kept);
  }

  // The head is not rebuilt: a packet written after the last record is not found again.
  lemma StaleHeadLosesPacket(c: Config, cells: seq<bv8>, buf: Packet)
    requires c.Valid() && c.Last() <= |cells| && c.totalPacket > 1 && |buf| == c.packetLen
    ensures var s := WriteStep(c, ResetState(c, cells), buf);
            && s.ptr.qState == Running && s.rom.head != s.ptr.head
            && Shape(c, RestartStep(c, s)) && ReadStep(c, RestartStep(c, s)) == (RestartStep(c, s), None)
  {
    BaseOnSlot(c);
    HeadSlots(c, 1, 0);
    SlotNext(c, 0);
    SlotOrder(c, 0, c.totalPacket);
  }

  function And(a: Packet, b: Packet): Packet
    requires |a| == |b|
  {
    seq(|a|, i requires 0 <= i < |a| => a[i] & b[i])
  }

  // And worse: the next packet is programmed over the lost one, and a read returns neither, but
  // their bitwise and.
  lemma StaleHeadMixesPackets(c: Config, cells: seq<bv8>, a: Packet, b: Packet)
    requires c.Valid() && c.Last() <= |cells| && c.totalPacket > 1
    requires |a| == |b| == c.packetLen
    ensures Shape(c, RestartStep(c, WriteStep(c, ResetState(c, cells), a)))
    ensures var s := WriteStep(c, RestartStep(c, WriteStep(c, ResetState(c, cells), a)), b);
            ReadStep(c, s).1 == Some(And(a, b))
  {
    StaleHeadLosesPacket(c, cells, a);
    var s0 := ResetState(c, cells);
    BaseOnSlot(c);
    NextOnSlot(c, c.base);
    StoredAtBase(c, s0, a);
    WriteOver(c, RestartStep(c, WriteStep(c, s0, a)), a, b);
  }

  // An unlocked queue with head and tail together at the start of the region.
  lemma WriteOver(c: Config, s: State, a: Packet, b: Packet)
    requires Shape(c, s) && |a| == |b| == c.packetLen && c.base + c.packetLen <= c.Last()
    requires s.ptr.head == s.ptr.tail == c.base && !s.ptr.isLock && s.cells[c.base..c.base + c.packetLen] == a
    ensures ReadStep(c, WriteStep(c, s, b)).1 == Some(And(a, b))
  {
    MixedCells(s.cells, c.base, a, b);
    var s1 := WriteStep(c, s, b);
    assert s1.ptr.tail == c.base && s1.ptr.qState == Running && s1.cells == F.Programmed(s.cells, c.base, b);
  }

  // The first packet after a reset.
  lemma StoredAtBase(c: Config, s: State, a: Packet)
    requires c.Valid() && c.Last() <= |s.cells| && c.base + c.packetLen <= c.Last() && |a| == c.packetLen
    requires exists cells: seq<bv8> :: c.Last() <= |cells| && s == ResetState(c, cells)
    ensures Shape(c, s) && WriteStep(c, s, a).cells[c.base..c.base + c.packetLen] == a
  {
    var cells: seq<bv8> :| c.Last() <= |cells| && s == ResetState(c, cells);
    BaseOnSlot(c);
    F.BlankedSlice(cells, FirstErased(c), EndErased(c), c.base, c.packetLen);
    F.ProgrammedSlice(s.cells, c.base, a);
  }

  lemma MixedCells(cells: seq<bv8>, addr: nat, a: Packet, b: Packet)
    requires addr + |a| <= |cells| && cells[addr..addr + |a|] == a && |b| == |a|
    ensures F.Programmed(cells, addr, b)[addr..addr + |a|] == And(a, b)
  {
    forall i | 0 <= i < |a|
      ensures F.Programmed(cells, addr, b)[addr + i] == And(a, b)[i]
    {
      assert cells[addr + i] == a[i];
    }
  }

  // ---------------------------------------------------------------- power lost inside a read

  ghost predicate Leaves(c: Config, s: State, h: History) {
    s.ptr.qState == Running && HistRead(c, s, h).saved == h.read + 1
  }

  // The blob that the read leaves is erased, and that is all.
  function CutErase(c: Config, s: State): State
    requires c.blobSize > 0
  {
    s.(cells := F.SectorErased(s.cells, c.blobSize, s.ptr.willErase))
  }

  // The packets of the erased blob that were accepted, up to the one being read, are blank now.
  function Wiped(c: Config, h: History): History
    requires HistoryOk(c, h) && h.read < |h.log|
  {
    var from := h.read - InBlob(c, h);
    History(seq(|h.log|, i requires 0 <= i < |h.log| => if from <= i <= h.read then F.Blank(c.packetLen) else h.log[i]),
            h.saved, h.saved)
  }

  lemma WipedPacket(c: Config, h: History, i: nat)
    requires HistoryOk(c, h) && h.read < |h.log| && i < |h.log|
    ensures |Wiped(c, h).log| == |h.log|
    ensures Wiped(c, h).log[i] == if h.read - InBlob(c, h) <= i <= h.read then F.Blank(c.packetLen) else h.log[i]
  {
  }

  lemma LeavesAtEnd(c: Config, s: State, h: History)
    requires PtrInv(c, s, h) && Leaves(c, s, h)
    ensures h.read < |h.log| && (Tail(c, h) + 1 == c.totalPacket || InBlob(c, h) + 1 == c.PerBlob())
  {
    ReadAddresses(c, s, h);
  }

  // Which packets the erase takes, by slot.
  lemma WipedSlot(c: Config, h: History, i: nat)
    requires HistoryOk(c, h) && h.read < |h.log| && HistoryOk(c, Wiped(c, h)) && i < c.totalPacket
    requires Tail(c, h) + 1 == c.totalPacket || InBlob(c, h) + 1 == c.PerBlob()
    ensures Expected(c, Wiped(c, h), i)
         == if Frontier(c, h) <= i < Frontier(c, h) + c.PerBlob() then F.Blank(c.packetLen) else Expected(c, h, i)
  {
    Cursor(c, h);
    WipedCursor(c, h);
    var k := h.read - InBlob(c, h) + Rank(c, h, i);
    if 0 <= Rank(c, h, i) < Used(c, h) {
      WipedPacket(c, h, k);
    }
  }

  lemma WipedCursor(c: Config, h: History)
    requires HistoryOk(c, h) && h.read < |h.log|
    ensures var h' := Wiped(c, h);
            && Frontier(c, h') == Frontier(c, h) && Used(c, h') == Used(c, h)
            && h'.read - InBlob(c, h') == h.read - InBlob(c, h)
  {
    SavedCursor(c, h);
    SameCursor(c, Resumed(h), Wiped(c, h));
  }

  lemma WipedHistory(c: Config, h: History)
    requires HistoryOk(c, h) && h.read < |h.log|
    ensures HistoryOk(c, Wiped(c, h))
  {
    SavedCursor(c, h);
    forall i | 0 <= i < |h.log|
      ensures |Wiped(c, h).log[i]| == c.packetLen
    {
      WipedPacket(c, h, i);
      assert |h.log[i]| == c.packetLen;
    }
    OtherPackets(c, Resumed(h), Wiped(c, h));
  }

  // Whether a history is possible does not depend on what the packets are.
  lemma OtherPackets(c: Config, h: History, h': History)
    requires HistoryOk(c, h) && |h'.log| == |h.log| && h'.read == h.read && h'.saved == h.saved
    requires forall i :: 0 <= i < |h'.log| ==> |h'.log[i]| == c.packetLen
    ensures HistoryOk(c, h')
  {
    SameCursor(c, h, h');
  }

  lemma CutPointers(c: Config, s: State, h: History, kept: nat)
    requires Known(c, s, h, kept) && Leaves(c, s, h) && Resumable(s)
    ensures HistoryOk(c, Resumed(h)) && HistoryOk(c, Wiped(c, h))
    ensures PtrInv(c, RestartStep(c, CutErase(c, s)), Wiped(c, h))
    ensures RestartStep(c, CutErase(c, s)).cells == CutErase(c, s).cells
    ensures RecordOf(c, RestartStep(c, CutErase(c, s)), Wiped(c, h), |h.log|)
  {
    RestartResumes(c, s, h, kept);
    RestartShape(c, s, h, kept);
    WipedHistory(c, h);
    SameCursor(c, Resumed(h), Wiped(c, h));
    FreshRecord(c, RestartStep(c, CutErase(c, s)), Wiped(c, h));
  }

  // Power lost between the erase and the pointer write: start-up resumes at the persisted tail,
  // where the packets of the erased blob have become blank; the packet of the read itself was
  // returned to nobody and is lost, all packets behind it are still queued.
  lemma CutResumes(c: Config, s: State, h: History, kept: nat)
    requires Known(c, s, h, kept) && c.SectorsFit() && Leaves(c, s, h) && Resumable(s)
    ensures Known(c, RestartStep(c, CutErase(c, s)), Wiped(c, h), |h.log|)
    ensures Waiting(Wiped(c, h)).waiting == seq(h.read + 1 - h.saved, _ => F.Blank(c.packetLen)) + h.log[h.read + 1..]
  {
    CutPointers(c, s, h, kept);
    CutFlash(c, s, h);
    WipedWaiting(c, h);
  }

  lemma CutFlash(c: Config, s: State, h: History)
    requires Inv(c, s, h) && c.SectorsFit() && Leaves(c, s, h)
    requires HistoryOk(c, Resumed(h)) && HistoryOk(c, Wiped(c, h))
    ensures FlashHolds(c, CutErase(c, s).cells, Wiped(c, h))
  {
    forall i | 0 <= i < c.totalPacket
      ensures PacketAt(c, CutErase(c, s).cells, i) == Expected(c, Wiped(c, h), i)
    {
      CutSlot(c, s, h, i);
    }
  }

  lemma CutSlot(c: Config, s: State, h: History, i: nat)
    requires Inv(c, s, h) && c.SectorsFit() && Leaves(c, s, h)
    requires HistoryOk(c, Resumed(h)) && HistoryOk(c, Wiped(c, h)) && i < c.totalPacket
    ensures PacketAt(c, CutErase(c, s).cells, i) == Expected(c, Wiped(c, h), i)
  {
    LeavesAtEnd(c, s, h);
    WipedSlot(c, h, i);
    Cursor(c, h);
    EraseFrontier(c, s.cells, Frontier(c, h), i);
    assert PacketAt(c, s.cells, i) == Expected(c, h, i);
  }

  lemma WipedWaiting(c: Config, h: History)
    requires HistoryOk(c, h) && h.read < |h.log|
    ensures Wiped(c, h).log[h.saved..] == seq(h.read + 1 - h.saved, _ => F.Blank(c.packetLen)) + h.log[h.read + 1..]
  {
  }
}

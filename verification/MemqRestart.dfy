// Start-up from the persisted record: when the flash ring queue goes on as the FIFO, and a run
// that shows the difference whenever it does not.
module MemqRestart {
  import opened Wrappers
  import opened Arith
  import opened MemqSpec
  import opened MemqFifo
  import opened MemqTheorems
  import F = Flash

  // ---------------------------------------------------------------- what the record stands for

  // The record was written when kept packets had been accepted and h.saved read; the head has
  // not gone back to the start since. A record of a queue with nothing in it is marked running
  // only if the read that emptied the queue also left a blob.
  ghost predicate RecordOf(c: Config, s: State, h: History, kept: nat)
    requires HistoryOk(c, h)
  {
    && h.saved <= kept <= |h.log| && kept % c.totalPacket + (|h.log| - kept) < c.totalPacket
    && s.rom.head == c.SlotAddr(kept % c.totalPacket)
    && s.rom.saveTail == s.ptr.saveTail == c.base
    && (s.rom.qState != Running ==> h.saved == kept)
    && (s.rom.qState == Running && h.saved == kept ==> h.saved % c.totalPacket % c.PerBlob() == 0)
  }

  ghost predicate Known(c: Config, s: State, h: History, kept: nat) {
    Inv(c, s, h) && RecordOf(c, s, h, kept)
  }

  function KeptStep(c: Config, s: State, h: History, kept: nat, op: Op): nat {
    match op
    case Write(buf) =>
      if s.ptr.isLock then kept
      else
        var wraps := s.ptr.head + c.packetLen >= c.Last();
        var head := if wraps then c.base else s.ptr.head + c.packetLen;
        if wraps || head == s.ptr.willErase then |h.log| + 1 else kept
    case Read => if s.ptr.qState == Running && HistRead(c, s, h).saved == h.read + 1 then |h.log| else kept
    case Save => if s.events >= c.maxPtrEvent then |h.log| else kept
  }

  // A record that has just been written.
  lemma FreshRecord(c: Config, s: State, h: History)
    requires PtrInv(c, s, h) && s.rom == s.ptr && h.saved == h.read && s.ptr.saveTail == c.base
    ensures RecordOf(c, s, h, |h.log|)
  {
    RecordSlots(c, s, h);
    DivModBounds(|h.log|, c.totalPacket);
  }

  // One more packet after the record, without going back to the start.
  lemma HeadBehind(c: Config, s: State, h: History, kept: nat)
    requires PtrInv(c, s, h) && RecordOf(c, s, h, kept)
    ensures |h.log| % c.totalPacket == kept % c.totalPacket + (|h.log| - kept)
    ensures s.rom.head == s.ptr.head <==> kept == |h.log|
    ensures s.ptr.head + c.packetLen >= c.Last() <==> |h.log| % c.totalPacket + 1 == c.totalPacket
  {
    var n := c.totalPacket;
    RecordSlots(c, s, h);
    SameLap(kept, |h.log|, n);
    HeadSlots(c, kept % n, |h.log| % n);
  }

  lemma SameLap(k: nat, l: nat, n: nat)
    requires n > 0 && k <= l && k % n + (l - k) < n
    ensures l % n == k % n + (l - k)
  {
    DivModBounds(k, n);
    DivModUnique(l, n, k / n, k % n + (l - k));
  }

  lemma HeadSlots(c: Config, i: nat, j: nat)
    requires c.Valid() && j < c.totalPacket
    ensures c.SlotAddr(i) == c.SlotAddr(j) <==> i == j
    ensures c.SlotAddr(j) + c.packetLen >= c.Last() <==> j + 1 == c.totalPacket
  {
    SlotOrder(c, i, j);
    SlotNext(c, j);
    SlotOrder(c, j + 1, c.totalPacket);
    SlotOrder(c, c.totalPacket, j + 1);
  }

  lemma WriteKeepsRecord(c: Config, s: State, h: History, kept: nat, buf: Packet)
    requires PtrInv(c, s, h) && RecordOf(c, s, h, kept) && |buf| == c.packetLen
    ensures PtrInv(c, WriteStep(c, s, buf), HistWrite(c, s, h, buf))
    ensures RecordOf(c, WriteStep(c, s, buf), HistWrite(c, s, h, buf), KeptStep(c, s, h, kept, Write(buf)))
  {
    WritePointers(c, s, h, buf);
    HeadBehind(c, s, h, kept);
    var s', h' := WriteStep(c, s, buf), HistWrite(c, s, h, buf);
    if !s.ptr.isLock && s'.rom == s'.ptr && h'.saved == h'.read {
      FreshRecord(c, s', h');
    }
  }

  lemma ReadKeepsRecord(c: Config, s: State, h: History, kept: nat)
    requires PtrInv(c, s, h) && RecordOf(c, s, h, kept)
    ensures PtrInv(c, ReadStep(c, s).0, HistRead(c, s, h))
    ensures RecordOf(c, ReadStep(c, s).0, HistRead(c, s, h), KeptStep(c, s, h, kept, Read))
  {
    ReadPointers(c, s, h);
    if s.ptr.qState == Running {
      ReadAddresses(c, s, h);
      if HistRead(c, s, h).saved == h.read + 1 {
        LeavingRecord(c, s, h);
      }
    }
  }

  // The record of a read that leaves a blob: the pointers as they are before the queue is marked
  // empty.
  lemma LeavingRecord(c: Config, s: State, h: History)
    requires PtrInv(c, s, h) && s.ptr.qState == Running && s.ptr.saveTail == c.base
    requires HistRead(c, s, h).saved == h.read + 1 && PtrInv(c, ReadStep(c, s).0, HistRead(c, s, h))
    ensures RecordOf(c, ReadStep(c, s).0, HistRead(c, s, h), |h.log|)
  {
    var s', h' := ReadStep(c, s).0, HistRead(c, s, h);
    ReadAddresses(c, s, h);
    NextTail(c, h, h');
    RecordSlots(c, s', h');
    DivModBounds(|h.log|, c.totalPacket);
    assert s'.rom == TailStep(c, s).ptr && s'.rom.head == s'.ptr.head;
  }

  lemma StepKeepsRecord(c: Config, s: State, h: History, kept: nat, op: Op)
    requires Known(c, s, h, kept) && c.SectorsFit() && OpOk(c, op)
    ensures Known(c, Step(c, s, op).0, HistStep(c, s, h, op), KeptStep(c, s, h, kept, op))
  {
    StepKeeps(c, s, h, op);
    match op
    case Write(buf) => WriteKeepsRecord(c, s, h, kept, buf);
    case Read => ReadKeepsRecord(c, s, h, kept);
    case Save =>
      if s.events >= c.maxPtrEvent {
        FreshRecord(c, SaveStep(c, s), h.(saved := h.read));
      }
  }

  lemma ResetIsKnown(c: Config, cells: seq<bv8>)
    requires c.Valid() && c.Last() <= |cells|
    ensures Known(c, ResetState(c, cells), Fresh, 0)
  {
    ResetKeeps(c, cells);
    FreshRecord(c, ResetState(c, cells), Fresh);
  }

  lemma {:induction false} RunIsKnown(c: Config, s: State, h: History, kept: nat, ops: seq<Op>) returns (kept': nat)
    requires Known(c, s, h, kept) && c.SectorsFit() && OpsOk(c, ops)
    ensures Known(c, After(c, s, ops), HistAfter(c, s, h, ops), kept')
    decreases |ops|
  {
    if ops == [] {
      kept' := kept;
    } else {
      StepKeepsRecord(c, s, h, kept, ops[0]);
      kept' := RunIsKnown(c, Step(c, s, ops[0]).0, HistStep(c, s, h, ops[0]), KeptStep(c, s, h, kept, ops[0]), ops[1..]);
    }
  }

  // ---------------------------------------------------------------- the record and start-up

  // What can be seen before start-up: the head of the record is the live one, and the record
  // does not say that there is data while its head and tail are the same.
  predicate Resumable(s: State) {
    s.rom.head == s.ptr.head && !(s.rom.qState == Running && s.rom.head == s.rom.tail)
  }

  // The history that a resumed queue has: it reads again from the persisted tail.
  function Resumed(h: History): History {
    History(h.log, h.saved, h.saved)
  }

  // Addresses of the record in packets.
  lemma RecordTail(c: Config, s: State, h: History, kept: nat)
    requires PtrInv(c, s, h) && RecordOf(c, s, h, kept)
    ensures s.rom.head == s.rom.tail <==> kept == h.saved || kept == h.saved + c.totalPacket
    ensures kept - h.saved <= c.totalPacket
  {
    var n := c.totalPacket;
    RecordSlots(c, s, h);
    SlotOrder(c, kept % n, h.saved % n);
    ModFrom(h.saved, n, kept);
    DivModBounds(h.saved, n);
    DivModBounds(kept, n);
  }

  lemma ResumableMeans(c: Config, s: State, h: History, kept: nat)
    requires PtrInv(c, s, h) && RecordOf(c, s, h, kept)
    ensures Resumable(s) <==> s.rom.head == s.ptr.head && (s.rom.qState == Running <==> h.saved < |h.log|)
                              && |h.log| - h.saved < c.totalPacket
  {
    HeadBehind(c, s, h, kept);
    RecordTail(c, s, h, kept);
  }

  lemma RestartShape(c: Config, s: State, h: History, kept: nat)
    requires PtrInv(c, s, h) && RecordOf(c, s, h, kept)
    ensures Shape(c, RestartStep(c, s)) && RestartStep(c, s).cells == s.cells
    ensures var p := s.rom.(isLock := RebuiltLock(s.rom));
            RestartStep(c, s).ptr == RestartStep(c, s).rom == p
  {
    RecordSlots(c, s, h);
    DivModBounds(kept, c.totalPacket);
    DivModBounds(h.saved, c.totalPacket);
    SlotIsOnSlot(c, kept % c.totalPacket);
    SlotIsOnSlot(c, h.saved % c.totalPacket);
    BaseOnSlot(c);
  }

  // The pointers alone: start-up goes on with the packets that the record knew of, unless the
  // record says that there is data while its head and tail are the same.
  lemma RestartPointers(c: Config, s: State, h: History, kept: nat)
    requires PtrInv(c, s, h) && RecordOf(c, s, h, kept)
    ensures var h' := History(h.log[..kept], h.saved, h.saved);
            PtrInv(c, RestartStep(c, s), h') <==> !(s.rom.qState == Running && s.rom.head == s.rom.tail)
  {
    var h', n := History(h.log[..kept], h.saved, h.saved), c.totalPacket;
    RestartShape(c, s, h, kept);
    RecordTail(c, s, h, kept);
    RecordSlots(c, s, h);
    SavedCursor(c, h);
    SameCursor(c, Resumed(h), h');
    Cursor(c, h');
    ModFrom(h.saved, n, kept);
    HeadSlots(c, kept % n, Frontier(c, h'));
    HeadSlots(c, kept % n, Tail(c, h'));
  }

  // Tail and frontier are a matter of the packets read only.
  lemma SameCursor(c: Config, h: History, h': History)
    requires c.Valid() && h.read == h'.read
    ensures Tail(c, h) == Tail(c, h') && InBlob(c, h) == InBlob(c, h') && Frontier(c, h) == Frontier(c, h')
  {
  }

  // Start-up brings back the invariant, from the persisted tail on, exactly from such records.
  lemma RestartResumes(c: Config, s: State, h: History, kept: nat)
    requires Known(c, s, h, kept)
    ensures Inv(c, RestartStep(c, s), Resumed(h)) <==> Resumable(s)
  {
    HeadBehind(c, s, h, kept);
    RestartShape(c, s, h, kept);
    if kept == |h.log| {
      RestartPointers(c, s, h, kept);
      assert h.log[..kept] == h.log;
      SavedCursor(c, h);
      ResumedFlash(c, s, h);
    } else if PtrInv(c, RestartStep(c, s), Resumed(h)) {
      RecordSlots(c, RestartStep(c, s), Resumed(h));
      RecordSlots(c, s, h);
      assert false;
    }
  }

  lemma ResumedFlash(c: Config, s: State, h: History)
    requires Inv(c, s, h) && HistoryOk(c, Resumed(h))
    ensures FlashHolds(c, s.cells, Resumed(h))
  {
    SavedCursor(c, h);
    forall i | 0 <= i < c.totalPacket
      ensures Expected(c, Resumed(h), i) == Expected(c, h, i)
    {
    }
  }

  // ---------------------------------------------------------------- what callers see after start-up

  ghost predicate FifoFrom(c: Config, s: State, q: Fifo)
    requires Shape(c, s)
  {
    forall ops :: OpsOk(c, ops) ==> Outputs(c, s, ops) == FifoOutputs(c, q, ops)
  }

  lemma OutputsCons(c: Config, s: State, q: Fifo, op: Op, ops: seq<Op>)
    requires Shape(c, s) && OpOk(c, op) && OpsOk(c, ops)
    ensures OpsOk(c, [op] + ops)
    ensures Outputs(c, s, [op] + ops) == [Step(c, s, op).1] + Outputs(c, Step(c, s, op).0, ops)
    ensures FifoOutputs(c, q, [op] + ops) == [FifoStep(c, q, op).1] + FifoOutputs(c, FifoStep(c, q, op).0, ops)
  {
    assert ([op] + ops)[1..] == ops;
  }

  // A difference after some operation is a difference before it.
  lemma DiffersBefore(c: Config, s: State, q: Fifo, op: Op)
    requires Shape(c, s) && OpOk(c, op)
    requires !FifoFrom(c, Step(c, s, op).0, FifoStep(c, q, op).0)
    ensures !FifoFrom(c, s, q)
  {
    var s1, q1 := Step(c, s, op).0, FifoStep(c, q, op).0;
    var ops :| OpsOk(c, ops) && Outputs(c, s1, ops) != FifoOutputs(c, q1, ops);
    OutputsCons(c, s, q, op, ops);
    var a, b := Outputs(c, s, [op] + ops), FifoOutputs(c, q, [op] + ops);
    assert a[1..] == Outputs(c, s1, ops) && b[1..] == FifoOutputs(c, q1, ops);
  }

  lemma DiffersNow(c: Config, s: State, q: Fifo, op: Op)
    requires Shape(c, s) && OpOk(c, op) && Step(c, s, op).1 != FifoStep(c, q, op).1
    ensures !FifoFrom(c, s, q)
  {
    OutputsCons(c, s, q, op, []);
    assert Outputs(c, s, [op] + [])[0] != FifoOutputs(c, q, [op] + [])[0];
  }

  // Pointers that know of fewer packets than the FIFO holds run dry first.
  lemma {:induction false} RunsDry(c: Config, s: State, h: History, q: Fifo)
    requires PtrInv(c, s, h) && |q.waiting| > |h.log| - h.read
    ensures !FifoFrom(c, s, q)
    decreases |h.log| - h.read
  {
    if h.read == |h.log| {
      DiffersNow(c, s, q, Read);
    } else {
      ReadPointers(c, s, h);
      RunsDry(c, ReadStep(c, s).0, HistRead(c, s, h), FifoStep(c, q, Read).0);
      DiffersBefore(c, s, q, Read);
    }
  }

  function NextSlot(c: Config, a: nat): nat {
    if a + c.packetLen >= c.Last() then c.base else a + c.packetLen
  }

  // A queue that is marked running with head and tail together takes one more packet and gives
  // one, and is then empty for good.
  lemma Overrun(c: Config, s: State, buf: Packet)
    requires Shape(c, s) && s.ptr.head == s.ptr.tail && s.ptr.qState == Running && !s.ptr.isLock
    requires c.totalPacket > 1 && |buf| == c.packetLen
    ensures var s2 := ReadStep(c, WriteStep(c, s, buf)).0;
            s2.ptr.qState == NoData && ReadStep(c, s2) == (s2, None)
  {
    NextOnSlot(c, s.ptr.head);
    var s1 := WriteStep(c, s, buf);
    assert s1.ptr.head == NextSlot(c, s.ptr.head) && s1.ptr.tail == s.ptr.tail && s1.ptr.qState == Running;
    assert TailStep(c, s1).ptr.tail == NextSlot(c, s.ptr.tail) && TailStep(c, s1).ptr.head == s1.ptr.head;
  }

  lemma OverrunDiffers(c: Config, s: State, q: Fifo)
    requires Shape(c, s) && s.ptr.head == s.ptr.tail && s.ptr.qState == Running && !s.ptr.isLock
    requires c.totalPacket > 1
    requires |q.waiting| > 1 || (|q.waiting| == 1 && Accepts(c, q))
    ensures !FifoFrom(c, s, q)
  {
    var buf := F.Blank(c.packetLen);
    Overrun(c, s, buf);
    var s1, q1 := WriteStep(c, s, buf), FifoStep(c, q, Write(buf)).0;
    var s2, q2 := ReadStep(c, s1).0, FifoStep(c, q1, Read).0;
    assert |q2.waiting| > 0;
    DiffersNow(c, s2, q2, Read);
    DiffersBefore(c, s1, q1, Read);
    DiffersBefore(c, s, q, Write(buf));
  }

  // Empty, but marked running: the next read returns a blank packet that nobody wrote.
  lemma DrainedReadsBlank(c: Config, s: State, h: History, kept: nat)
    requires Known(c, s, h, kept) && h.saved == |h.log| && s.rom.qState == Running
    ensures Shape(c, RestartStep(c, s)) && !Resumable(s)
    ensures ReadStep(c, RestartStep(c, s)).1 == Some(F.Blank(c.packetLen))
    ensures !FifoFrom(c, RestartStep(c, s), Waiting(Resumed(h)))
  {
    RestartShape(c, s, h, kept);
    RecordTail(c, s, h, kept);
    HeadBehind(c, s, h, kept);
    RecordSlots(c, s, h);
    SlotIsOnSlot(c, Tail(c, h));
    assert s.rom.tail == c.SlotAddr(Tail(c, h));
    assert PacketAt(c, s.cells, Tail(c, h)) == Expected(c, h, Tail(c, h));
    DiffersNow(c, RestartStep(c, s), Waiting(Resumed(h)), Read);
  }

  // Full, and marked running with head and tail together: what is written next goes over the
  // oldest packet, and the rest is never read.
  lemma FullOverruns(c: Config, s: State, h: History, kept: nat)
    requires Known(c, s, h, kept) && s.rom.qState == Running && s.rom.head == s.rom.tail
    requires h.saved < |h.log| && c.totalPacket > 1
    ensures Shape(c, RestartStep(c, s)) && !FifoFrom(c, RestartStep(c, s), Waiting(Resumed(h)))
  {
    RestartShape(c, s, h, kept);
    RecordTail(c, s, h, kept);
    OverrunDiffers(c, RestartStep(c, s), Waiting(Resumed(h)));
  }

  // ---------------------------------------------------------------- a region of one packet

  // The one packet, all zeros, survives being written over.
  predicate OnlyZeros(c: Config, s: State)
    requires c.Valid() && c.Last() <= |s.cells|
  {
    c.totalPacket == 1 && s.rom.qState == Running && PacketAt(c, s.cells, 0) == seq(c.packetLen, _ => 0)
  }

  // The full queue of one packet, with and without its lock.
  ghost predicate Unlocked(c: Config, s: State, h: History) {
    Shape(c, s) && c.totalPacket == 1 && h.read < |h.log| && !s.ptr.isLock && Inv(c, s.(ptr := s.ptr.(isLock := true)), h)
  }

  lemma OneSlotState(c: Config, s: State, h: History)
    requires Unlocked(c, s, h)
    ensures c.SlotAddr(0) == c.base && c.base + c.packetLen == c.Last()
    ensures s.ptr.head == s.ptr.tail == s.ptr.willErase == c.base && s.ptr.qState == Running
    ensures PacketAt(c, s.cells, 0) == h.log[h.read] && !Accepts(c, Waiting(h))
  {
    var s' := s.(ptr := s.ptr.(isLock := true));
    SlotNext(c, 0);
    RecordSlots(c, s', h);
    SlotHolds(c, s', h, h.read);
    Cursor(c, h);
    WritePointers(c, s', h, F.Blank(c.packetLen));
  }

  lemma ZerosStay(cells: seq<bv8>, addr: nat, buf: seq<bv8>)
    requires addr + |buf| <= |cells| && forall x :: addr <= x < addr + |buf| ==> cells[x] == 0
    ensures F.Programmed(cells, addr, buf) == cells
  {
    forall x | 0 <= x < |cells|
      ensures F.Programmed(cells, addr, buf)[x] == cells[x]
    {
      if addr <= x < addr + |buf| {
        AndZero(buf[x - addr]);
      }
    }
  }

  lemma AndZero(d: bv8)
    ensures 0 & d == 0
  {
  }

  // The write that the lock would have refused sets the lock and changes nothing else.
  lemma WriteLocks(c: Config, s: State, h: History, buf: Packet)
    requires Unlocked(c, s, h) && |buf| == c.packetLen && PacketAt(c, s.cells, 0) == seq(c.packetLen, _ => 0)
    ensures Inv(c, WriteStep(c, s, buf), h.(saved := h.read))
  {
    OneSlotState(c, s, h);
    assert forall x :: c.base <= x < c.base + c.packetLen ==> s.cells[x] == PacketAt(c, s.cells, 0)[x - c.base];
    ZerosStay(s.cells, c.base, buf);
    var s' := s.(ptr := s.ptr.(isLock := true));
    assert WriteStep(c, s, buf) == State(s'.ptr, s'.ptr, Count(s.events), s.cells);
    SaveKeeps(c, s'.(events := c.maxPtrEvent), h);
  }

  lemma ReadUnlocks(c: Config, s: State, h: History)
    requires Unlocked(c, s, h)
    ensures ReadStep(c, s) == ReadStep(c, s.(ptr := s.ptr.(isLock := true)))
  {
    OneSlotState(c, s, h);
  }

  lemma {:induction false} ZerosAreFifo(c: Config, s: State, h: History, ops: seq<Op>)
    requires Unlocked(c, s, h) && c.SectorsFit() && PacketAt(c, s.cells, 0) == seq(c.packetLen, _ => 0) && OpsOk(c, ops)
    ensures Outputs(c, s, ops) == FifoOutputs(c, Waiting(h), ops)
    decreases |ops|
  {
    if ops != [] {
      OneSlotState(c, s, h);
      var s' := s.(ptr := s.ptr.(isLock := true));
      match ops[0]
      case Write(buf) =>
        WriteLocks(c, s, h, buf);
        RunRefinesFifo(c, WriteStep(c, s, buf), h.(saved := h.read), ops[1..]);
      case Read =>
        ReadUnlocks(c, s, h);
        RunRefinesFifo(c, s', h, ops);
      case Save =>
        SaveKeeps(c, s', h);
        ZerosAreFifo(c, SaveStep(c, s), HistStep(c, s', h, Save), ops[1..]);
    }
  }

  // A packet that is not all zeros is written over after start-up.
  lemma OneSlotOverwritten(c: Config, s: State, h: History)
    requires Unlocked(c, s, h) && PacketAt(c, s.cells, 0) != seq(c.packetLen, _ => 0)
    ensures !FifoFrom(c, s, Waiting(h))
  {
    OneSlotState(c, s, h);
    var buf := seq(c.packetLen, _ => 0);
    var s1 := WriteStep(c, s, buf);
    assert FifoStep(c, Waiting(h), Write(buf)).0 == Waiting(h);
    Zeroed(s.cells, c.base, buf);
    assert ReadStep(c, s1).1 == Some(buf);
    DiffersNow(c, s1, Waiting(h), Read);
    DiffersBefore(c, s, Waiting(h), Write(buf));
  }

  lemma Zeroed(cells: seq<bv8>, addr: nat, buf: seq<bv8>)
    requires addr + |buf| <= |cells| && forall i :: 0 <= i < |buf| ==> buf[i] == 0
    ensures F.Programmed(cells, addr, buf)[addr..addr + |buf|] == buf
  {
    forall i | 0 <= i < |buf|
      ensures F.Programmed(cells, addr, buf)[addr + i] == buf[i]
    {
      AndZero(cells[addr + i]);
    }
  }

  lemma OneSlotRestart(c: Config, s: State, h: History, kept: nat)
    requires Known(c, s, h, kept) && c.totalPacket == 1 && h.saved < |h.log|
    ensures Shape(c, RestartStep(c, s)) && RestartStep(c, s).cells == s.cells
    ensures Unlocked(c, RestartStep(c, s), Resumed(h)) && s.rom.qState == Running
  {
    RestartShape(c, s, h, kept);
    RecordTail(c, s, h, kept);
    RecordSlots(c, s, h);
    SavedCursor(c, h);
    ResumedFlash(c, s, h);
    Cursor(c, Resumed(h));
  }

  // ---------------------------------------------------------------- the exact condition

  lemma AgreesFrom(c: Config, s: State, h: History)
    requires Inv(c, s, h) && c.SectorsFit()
    ensures FifoFrom(c, s, Waiting(h))
  {
    forall ops | OpsOk(c, ops)
      ensures Outputs(c, s, ops) == FifoOutputs(c, Waiting(h), ops)
    {
      RunRefinesFifo(c, s, h, ops);
    }
  }

  lemma OneSlotExactly(c: Config, s: State, h: History, kept: nat)
    requires Known(c, s, h, kept) && c.SectorsFit() && c.totalPacket == 1 && h.saved < |h.log|
    ensures Shape(c, RestartStep(c, s))
    ensures FifoFrom(c, RestartStep(c, s), Waiting(Resumed(h))) <==> OnlyZeros(c, s)
  {
    OneSlotRestart(c, s, h, kept);
    var s1, h1 := RestartStep(c, s), Resumed(h);
    if OnlyZeros(c, s) {
      forall ops | OpsOk(c, ops)
        ensures Outputs(c, s1, ops) == FifoOutputs(c, Waiting(h1), ops)
      {
        ZerosAreFifo(c, s1, h1, ops);
      }
    } else {
      OneSlotOverwritten(c, s1, h1);
    }
  }

  // A record from before the last packets, or one with head and tail together.
  lemma NotResumableDiffers(c: Config, s: State, h: History, kept: nat)
    requires Known(c, s, h, kept) && !Resumable(s) && (c.totalPacket > 1 || h.saved == |h.log|)
    ensures Shape(c, RestartStep(c, s)) && !FifoFrom(c, RestartStep(c, s), Waiting(Resumed(h)))
  {
    HeadBehind(c, s, h, kept);
    RecordTail(c, s, h, kept);
    RestartShape(c, s, h, kept);
    if s.rom.qState == Running && s.rom.head == s.rom.tail {
      if h.saved == |h.log| {
        DrainedReadsBlank(c, s, h, kept);
      } else {
        FullOverruns(c, s, h, kept);
      }
    } else {
      RestartPointers(c, s, h, kept);
      RunsDry(c, RestartStep(c, s), History(h.log[..kept], h.saved, h.saved), Waiting(Resumed(h)));
    }
  }

  // Drained, the slot is blank and not zero.
  lemma DrainedIsBlank(c: Config, s: State, h: History, kept: nat)
    requires Known(c, s, h, kept) && h.saved == |h.log|
    ensures !OnlyZeros(c, s)
  {
    if c.totalPacket == 1 {
      Cursor(c, h);
      assert PacketAt(c, s.cells, 0) == Expected(c, h, 0) == F.Blank(c.packetLen);
      assert F.Blank(c.packetLen)[0] == F.ERASED;
    }
  }

  // Start-up from the persisted record: every run of the restarted queue answers as the FIFO of
  // the packets not read before the record was written, if and only if the record's head is the
  // live one and it does not say that there is data with head and tail together; or the region
  // has room for one packet only and that packet is all zeros, which writing over cannot change.
  lemma {:induction false} RestartIsFifoExactly(c: Config, s: State, h: History, kept: nat)
    requires Known(c, s, h, kept) && c.SectorsFit()
    ensures Shape(c, RestartStep(c, s))
    ensures FifoFrom(c, RestartStep(c, s), Fifo(h.log[h.saved..], h.saved)) <==> Resumable(s) || OnlyZeros(c, s)
  {
    RestartShape(c, s, h, kept);
    if Resumable(s) {
      RestartResumes(c, s, h, kept);
      AgreesFrom(c, RestartStep(c, s), Resumed(h));
    } else if c.totalPacket == 1 && h.saved < |h.log| {
      OneSlotExactly(c, s, h, kept);
    } else {
      NotResumableDiffers(c, s, h, kept);
      if h.saved == |h.log| {
        DrainedIsBlank(c, s, h, kept);
      }
    }
  }

  // The same at every point of every run from a reset.
  lemma {:induction false} PowerLossAnyTime(c: Config, cells: seq<bv8>, ops: seq<Op>)
    requires c.Valid() && c.SectorsFit() && c.Last() <= |cells| && OpsOk(c, ops)
    ensures var s := After(c, ResetState(c, cells), ops);
            var h := HistAfter(c, ResetState(c, cells), Fresh, ops);
            && h.saved <= |h.log| && Shape(c, RestartStep(c, s))
            && (FifoFrom(c, RestartStep(c, s), Fifo(h.log[h.saved..], h.saved)) <==> Resumable(s) || OnlyZeros(c, s))
  {
    ResetIsKnown(c, cells);
    var kept := RunIsKnown(c, ResetState(c, cells), Fresh, 0, ops);
    RestartIsFifoExactly(c, After(c, ResetState(c, cells), ops), HistAfter(c, ResetState(c, cells), Fresh, ops), kept);
  }
}

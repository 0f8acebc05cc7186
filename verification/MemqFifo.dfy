// The flash ring queue is a bounded FIFO, and what its last pointer record promises is
// still in flash. The link is a history: every packet accepted since the reset, how many
// of them were read, and how many had been read when the pointers were last persisted.
module MemqFifo {
  import opened Wrappers
  import opened Arith
  import opened MemqSpec
  import F = Flash

  datatype History = History(log: seq<Packet>, read: nat, saved: nat)

  // slot of the next packet to read
  function Tail(c: Config, h: History): nat
    requires c.Valid()
  {
    h.read % c.totalPacket
  }

  // packets already read in the blob that is being read
  function InBlob(c: Config, h: History): nat
    requires c.Valid()
  {
    Tail(c, h) % c.PerBlob()
  }

  // slot of the first packet of that blob
  function Frontier(c: Config, h: History): nat
    requires c.Valid()
  {
    ModAtMost(Tail(c, h), c.PerBlob());
    Tail(c, h) - InBlob(c, h)
  }

  // slots that are not erased
  function Used(c: Config, h: History): int
    requires c.Valid()
  {
    InBlob(c, h) + |h.log| - h.read
  }

  function Wrap(c: Config, i: nat): nat {
    if i >= c.totalPacket then i - c.totalPacket else i
  }

  function PacketAt(c: Config, cells: seq<bv8>, i: nat): Packet
    requires c.Valid() && c.Last() <= |cells| && i < c.totalPacket
  {
    SlotIsOnSlot(c, i);
    cells[c.SlotAddr(i)..c.SlotAddr(i) + c.packetLen]
  }

  // position of slot i counted from the frontier
  function Rank(c: Config, h: History, i: nat): int
    requires c.Valid()
  {
    if i >= Frontier(c, h) then i - Frontier(c, h) else i - Frontier(c, h) + c.totalPacket
  }

  ghost predicate HistoryOk(c: Config, h: History) {
    && c.Valid()
    && h.saved <= h.read <= |h.log|
    && (forall i :: 0 <= i < |h.log| ==> |h.log[i]| == c.packetLen)
    && InBlob(c, h) <= h.read
    && Used(c, h) <= c.totalPacket
    && h.read - h.saved <= InBlob(c, h)
  }

  // Slots from the frontier up to the head hold the logged packets, all others are blank.
  function Expected(c: Config, h: History, i: nat): Packet
    requires HistoryOk(c, h) && i < c.totalPacket
  {
    if 0 <= Rank(c, h, i) < Used(c, h) then h.log[h.read - InBlob(c, h) + Rank(c, h, i)] else F.Blank(c.packetLen)
  }

  ghost predicate FlashHolds(c: Config, cells: seq<bv8>, h: History)
    requires HistoryOk(c, h) && c.Last() <= |cells|
  {
    forall i :: 0 <= i < c.totalPacket ==> PacketAt(c, cells, i) == Expected(c, h, i)
  }

  ghost predicate PointersHold(c: Config, s: State, h: History)
    requires HistoryOk(c, h)
  {
    var queued := |h.log| - h.read;
    && s.ptr.tail == c.SlotAddr(Tail(c, h))
    && s.ptr.head == c.SlotAddr(Wrap(c, Tail(c, h) + queued))
    && s.ptr.willErase == c.SlotAddr(Frontier(c, h))
    && (s.ptr.qState == Running <==> queued > 0)
    && (s.ptr.isLock <==> queued > 0 && Used(c, h) == c.totalPacket)
  }

  // The persisted record knows the live frontier, and its tail is in the live blob.
  ghost predicate RecordHolds(c: Config, s: State, h: History)
    requires HistoryOk(c, h)
  {
    ModAtMost(Tail(c, h), c.PerBlob());
    && s.rom.willErase == s.ptr.willErase
    && s.rom.tail == c.SlotAddr(Tail(c, h) - (h.read - h.saved))
  }

  // Everything but the flash contents.
  ghost predicate PtrInv(c: Config, s: State, h: History) {
    && Shape(c, s)
    && HistoryOk(c, h)
    && PointersHold(c, s, h)
    && RecordHolds(c, s, h)
  }

  ghost predicate Inv(c: Config, s: State, h: History) {
    PtrInv(c, s, h) && FlashHolds(c, s.cells, h)
  }

  lemma ModAtMost(a: nat, m: nat)
    requires m > 0
    ensures a % m <= a
  {
    assert a == a / m * m + a % m;
    MulOrder(a / m, m);
  }

  // ---------------------------------------------------------------- history of one step

  function HistWrite(c: Config, s: State, h: History, buf: Packet): History {
    if s.ptr.isLock then h
    else
      var wraps := s.ptr.head + c.packetLen >= c.Last();
      var head := if wraps then c.base else s.ptr.head + c.packetLen;
      History(h.log + [buf], h.read, if wraps || head == s.ptr.willErase then h.read else h.saved)
  }

  function HistRead(c: Config, s: State, h: History): History {
    if s.ptr.qState != Running then h
    else
      var tail := s.ptr.tail + c.packetLen;
      var erases := tail == c.Last() || tail >= s.ptr.willErase + c.blobSize;
      History(h.log, h.read + 1, if erases then h.read + 1 else h.saved)
  }

  function HistStep(c: Config, s: State, h: History, op: Op): History {
    match op
    case Write(buf) => HistWrite(c, s, h, buf)
    case Read => HistRead(c, s, h)
    case Save => if s.events >= c.maxPtrEvent then h.(saved := h.read) else h
  }

  function HistAfter(c: Config, s: State, h: History, ops: seq<Op>): History
    requires Shape(c, s) && OpsOk(c, ops)
    decreases |ops|
  {
    if ops == [] then h
    else HistAfter(c, Step(c, s, ops[0]).0, HistStep(c, s, h, ops[0]), ops[1..])
  }

  // ---------------------------------------------------------------- what one command does to the slots

  // Programming one slot leaves all the others alone, and a blank slot takes the packet.
  lemma ProgramSlot(c: Config, cells: seq<bv8>, k: nat, buf: Packet, i: nat)
    requires c.Valid() && c.Last() <= |cells| && k < c.totalPacket && i < c.totalPacket
    requires |buf| == c.packetLen && c.SlotAddr(k) + |buf| <= |cells|
    requires i == k ==> PacketAt(c, cells, k) == F.Blank(c.packetLen)
    ensures PacketAt(c, F.Programmed(cells, c.SlotAddr(k), buf), i) == if i == k then buf else PacketAt(c, cells, i)
  {
    SlotIsOnSlot(c, i);
    if i == k {
      F.ProgrammedSlice(cells, c.SlotAddr(k), buf);
    } else {
      SlotOrder(c, i, k);
      SlotOrder(c, k, i);
      F.ProgrammedElsewhere(cells, c.SlotAddr(k), buf, c.SlotAddr(i), c.packetLen);
    }
  }

  lemma BlobAddr(c: Config, w: nat)
    requires c.Valid() && w % c.PerBlob() == 0
    ensures c.SlotAddr(w) == c.base + w / c.PerBlob() * c.blobSize
  {
    MulAssoc(w / c.PerBlob(), c.PerBlob(), c.packetLen);
  }

  // On an aligned region the frontier is itself the start of its sector.
  lemma AlignedFrontier(c: Config, w: nat)
    requires c.Valid() && c.base % c.blobSize == 0 && w % c.PerBlob() == 0
    ensures F.SectorStart(c.blobSize, c.SlotAddr(w)) == c.SlotAddr(w)
  {
    BlobAddr(c, w);
    AddMultiple(c.base, w / c.PerBlob(), c.blobSize);
  }

  // A region inside one sector has one blob, and that blob covers every slot.
  lemma SingleSector(c: Config, w: nat)
    requires c.Valid() && c.base % c.blobSize + c.packetLen * c.totalPacket <= c.blobSize
    requires w < c.totalPacket && w % c.PerBlob() == 0
    ensures w == 0 && c.totalPacket <= c.PerBlob()
    ensures var lo := F.SectorStart(c.blobSize, c.SlotAddr(w)); lo <= c.base && c.Last() <= lo + c.blobSize
  {
    var m := c.PerBlob();
    MulSum(c.totalPacket, m, c.packetLen);
    MulOrder(c.totalPacket - m, c.packetLen);
    DivModUnique(w, m, 0, w);
  }

  // Where the sectors fit, the sector of the frontier covers exactly the slots of its blob.
  lemma FrontierSector(c: Config, w: nat, i: nat)
    requires c.Valid() && c.SectorsFit() && w < c.totalPacket && i < c.totalPacket
    requires w % c.PerBlob() == 0
    ensures var lo := F.SectorStart(c.blobSize, c.SlotAddr(w));
            if w <= i < w + c.PerBlob() then lo <= c.SlotAddr(i) && c.SlotAddr(i) + c.packetLen <= lo + c.blobSize
            else c.SlotAddr(i) + c.packetLen <= lo || lo + c.blobSize <= c.SlotAddr(i)
  {
    if c.base % c.blobSize == 0 {
      AlignedFrontier(c, w);
      SlotOrder(c, w, w + c.PerBlob());
      SlotOrder(c, w, i);
      SlotOrder(c, i, w);
      SlotOrder(c, i, w + c.PerBlob());
      SlotOrder(c, w + c.PerBlob(), i);
    } else {
      SingleSector(c, w);
      SlotIsOnSlot(c, i);
    }
  }

  // Erasing the frontier's sector blanks exactly the slots of its blob.
  lemma EraseFrontier(c: Config, cells: seq<bv8>, w: nat, i: nat)
    requires c.Valid() && c.SectorsFit() && c.Last() <= |cells| && w < c.totalPacket && i < c.totalPacket
    requires w % c.PerBlob() == 0
    ensures PacketAt(c, F.SectorErased(cells, c.blobSize, c.SlotAddr(w)), i)
         == if w <= i < w + c.PerBlob() then F.Blank(c.packetLen) else PacketAt(c, cells, i)
  {
    FrontierSector(c, w, i);
    SlotIsOnSlot(c, i);
    var lo := F.SectorStart(c.blobSize, c.SlotAddr(w));
    if w <= i < w + c.PerBlob() {
      F.BlankedSlice(cells, lo, lo + c.blobSize, c.SlotAddr(i), c.packetLen);
    } else {
      F.BlankedElsewhere(cells, lo, lo + c.blobSize, c.SlotAddr(i), c.packetLen);
    }
  }

  // ---------------------------------------------------------------- one step keeps the invariant

  lemma Cursor(c: Config, h: History)
    requires c.Valid()
    ensures Tail(c, h) < c.totalPacket && InBlob(c, h) < c.PerBlob() && InBlob(c, h) <= Tail(c, h)
    ensures Frontier(c, h) % c.PerBlob() == 0
  {
    var t, m := Tail(c, h), c.PerBlob();
    ModAtMost(t, m);
    DivModUnique(t - t % m, m, t / m, 0);
  }

  // Reading one packet moves the tail one slot, and the frontier one blob or back to the start.
  lemma NextTail(c: Config, h: History, h': History)
    requires c.Valid() && h'.read == h.read + 1
    ensures Tail(c, h) + 1 == c.totalPacket ==> Tail(c, h') == InBlob(c, h') == Frontier(c, h') == 0
    ensures Tail(c, h) + 1 < c.totalPacket ==> Tail(c, h') == Tail(c, h) + 1
    ensures Tail(c, h) + 1 < c.totalPacket && InBlob(c, h) + 1 == c.PerBlob() ==>
              InBlob(c, h') == 0 && Frontier(c, h') == Frontier(c, h) + c.PerBlob()
    ensures Tail(c, h) + 1 < c.totalPacket && InBlob(c, h) + 1 != c.PerBlob() ==>
              InBlob(c, h') == InBlob(c, h) + 1 && Frontier(c, h') == Frontier(c, h)
  {
    NextMod(h.read, c.totalPacket);
    NextMod(Tail(c, h), c.PerBlob());
    SmallMod(0, c.PerBlob());
  }

  // The addresses the code compares, in slots.
  lemma ReadAddresses(c: Config, s: State, h: History)
    requires PtrInv(c, s, h)
    ensures s.ptr.tail + c.packetLen == c.SlotAddr(Tail(c, h) + 1)
    ensures s.ptr.tail + c.packetLen == c.Last() <==> Tail(c, h) + 1 == c.totalPacket
    ensures s.ptr.willErase + c.blobSize == c.SlotAddr(Frontier(c, h) + c.PerBlob())
    ensures s.ptr.tail + c.packetLen >= s.ptr.willErase + c.blobSize <==> InBlob(c, h) + 1 == c.PerBlob()
  {
    var t, w, m := Tail(c, h), Frontier(c, h), c.PerBlob();
    SlotNext(c, t);
    SlotOrder(c, t + 1, c.totalPacket);
    SlotOrder(c, w, w + m);
    SlotOrder(c, t + 1, w + m);
    Cursor(c, h);
  }

  lemma WriteAddresses(c: Config, s: State, h: History)
    requires PtrInv(c, s, h)
    ensures var k := Wrap(c, Tail(c, h) + |h.log| - h.read);
            && k < c.totalPacket
            && s.ptr.head + c.packetLen == c.SlotAddr(k + 1)
            && (s.ptr.head + c.packetLen >= c.Last() <==> k + 1 == c.totalPacket)
  {
    Cursor(c, h);
    var k := Wrap(c, Tail(c, h) + |h.log| - h.read);
    SlotNext(c, k);
    SlotOrder(c, k + 1, c.totalPacket);
    SlotOrder(c, c.totalPacket, k + 1);
  }

  lemma WriteSlot(c: Config, h: History, h': History, buf: Packet, i: nat)
    requires HistoryOk(c, h) && HistoryOk(c, h') && i < c.totalPacket
    requires h'.log == h.log + [buf] && h'.read == h.read
    ensures var k := Wrap(c, Tail(c, h) + |h.log| - h.read);
            && (i == k ==> Expected(c, h, i) == F.Blank(c.packetLen))
            && Expected(c, h', i) == if i == k then buf else Expected(c, h, i)
  {
    Cursor(c, h);
    assert i == Wrap(c, Tail(c, h) + |h.log| - h.read) <==> Rank(c, h, i) == Used(c, h);
  }

  lemma WriteFlash(c: Config, s: State, h: History, buf: Packet)
    requires Inv(c, s, h) && |buf| == c.packetLen && !s.ptr.isLock
    requires HistoryOk(c, HistWrite(c, s, h, buf))
    ensures FlashHolds(c, WriteStep(c, s, buf).cells, HistWrite(c, s, h, buf))
  {
    var h' := HistWrite(c, s, h, buf);
    var k := Wrap(c, Tail(c, h) + |h.log| - h.read);
    WriteAddresses(c, s, h);
    SlotIsOnSlot(c, k);
    forall i | 0 <= i < c.totalPacket
      ensures PacketAt(c, WriteStep(c, s, buf).cells, i) == Expected(c, h', i)
    {
      WriteSlot(c, h, h', buf, i);
      ProgramSlot(c, s.cells, k, buf, i);
    }
  }

  lemma WritePointers(c: Config, s: State, h: History, buf: Packet)
    requires PtrInv(c, s, h) && |buf| == c.packetLen
    ensures PtrInv(c, WriteStep(c, s, buf), HistWrite(c, s, h, buf))
    ensures s.ptr.isLock <==> !Accepts(c, Waiting(h))
  {
    Cursor(c, h);
    if !s.ptr.isLock {
      WriteAddresses(c, s, h);
      var k := Wrap(c, Tail(c, h) + |h.log| - h.read);
      SlotOrder(c, 0, Frontier(c, h));
      SlotOrder(c, k + 1, Frontier(c, h));
    }
  }

  lemma WriteKeeps(c: Config, s: State, h: History, buf: Packet)
    requires Inv(c, s, h) && |buf| == c.packetLen
    ensures Inv(c, WriteStep(c, s, buf), HistWrite(c, s, h, buf))
  {
    WritePointers(c, s, h, buf);
    if !s.ptr.isLock {
      WriteFlash(c, s, h, buf);
    }
  }

  lemma ReadHistory(c: Config, s: State, h: History)
    requires PtrInv(c, s, h) && s.ptr.qState == Running
    ensures HistoryOk(c, HistRead(c, s, h))
  {
    Cursor(c, h);
    NextTail(c, h, HistRead(c, s, h));
    ReadAddresses(c, s, h);
  }

  lemma ReadHolds(c: Config, s: State, h: History)
    requires PtrInv(c, s, h) && s.ptr.qState == Running && HistoryOk(c, HistRead(c, s, h))
    ensures PointersHold(c, ReadStep(c, s).0, HistRead(c, s, h))
  {
    TailAfterRead(c, s, h);
    var h' := HistRead(c, s, h);
    Cursor(c, h);
    NextTail(c, h, h');
    SlotOrder(c, Wrap(c, Tail(c, h) + |h.log| - h.read), Tail(c, h'));
  }

  // The two pointers that a read moves, and what it does to the lock.
  lemma TailAfterRead(c: Config, s: State, h: History)
    requires PtrInv(c, s, h) && s.ptr.qState == Running
    ensures var p, h' := TailStep(c, s).ptr, HistRead(c, s, h);
            && p.tail == c.SlotAddr(Tail(c, h')) && p.willErase == c.SlotAddr(Frontier(c, h'))
            && p.head == s.ptr.head && p.qState == Running
            && p.isLock == (s.ptr.isLock && Tail(c, h) + 1 != c.totalPacket && InBlob(c, h) + 1 != c.PerBlob())
  {
    Cursor(c, h);
    NextTail(c, h, HistRead(c, s, h));
    ReadAddresses(c, s, h);
  }

  lemma ReadRecord(c: Config, s: State, h: History)
    requires PtrInv(c, s, h) && s.ptr.qState == Running && HistoryOk(c, HistRead(c, s, h))
    requires PointersHold(c, ReadStep(c, s).0, HistRead(c, s, h))
    ensures RecordHolds(c, ReadStep(c, s).0, HistRead(c, s, h))
  {
    var h' := HistRead(c, s, h);
    if h'.saved <= h.read {
      ReadAddresses(c, s, h);
      NextTail(c, h, h');
    }
  }

  lemma ReadPointers(c: Config, s: State, h: History)
    requires PtrInv(c, s, h)
    ensures PtrInv(c, ReadStep(c, s).0, HistRead(c, s, h))
  {
    if s.ptr.qState == Running {
      ReadHistory(c, s, h);
      ReadHolds(c, s, h);
      ReadRecord(c, s, h);
    }
  }

  lemma ReadSlot(c: Config, h: History, h': History, i: nat)
    requires HistoryOk(c, h) && HistoryOk(c, h') && i < c.totalPacket
    requires h'.log == h.log && h'.read == h.read + 1
    ensures var erases := Tail(c, h) + 1 == c.totalPacket || InBlob(c, h) + 1 == c.PerBlob();
            Expected(c, h', i) == if erases && Frontier(c, h) <= i < Frontier(c, h) + c.PerBlob()
                                  then F.Blank(c.packetLen) else Expected(c, h, i)
  {
    Cursor(c, h);
    NextTail(c, h, h');
  }

  lemma ReadFlash(c: Config, s: State, h: History)
    requires Inv(c, s, h) && c.SectorsFit() && s.ptr.qState == Running
    requires HistoryOk(c, HistRead(c, s, h))
    ensures FlashHolds(c, ReadStep(c, s).0.cells, HistRead(c, s, h))
  {
    var h' := HistRead(c, s, h);
    Cursor(c, h);
    NextTail(c, h, h');
    ReadAddresses(c, s, h);
    forall i | 0 <= i < c.totalPacket
      ensures PacketAt(c, ReadStep(c, s).0.cells, i) == Expected(c, h', i)
    {
      ReadSlot(c, h, h', i);
      EraseFrontier(c, s.cells, Frontier(c, h), i);
    }
  }

  lemma ReadsOldest(c: Config, s: State, h: History)
    requires Inv(c, s, h) && s.ptr.qState == Running
    ensures h.read < |h.log| && ReadStep(c, s).1 == Some(h.log[h.read])
  {
    Cursor(c, h);
    NextTail(c, h, HistRead(c, s, h));
    assert ReadStep(c, s).1 == Some(PacketAt(c, s.cells, Tail(c, h)));
  }

  lemma ReadKeeps(c: Config, s: State, h: History)
    requires Inv(c, s, h) && c.SectorsFit()
    ensures Inv(c, ReadStep(c, s).0, HistRead(c, s, h))
    ensures ReadStep(c, s).1 == if h.read < |h.log| then Some(h.log[h.read]) else None
  {
    ReadPointers(c, s, h);
    if s.ptr.qState == Running {
      ReadFlash(c, s, h);
      ReadsOldest(c, s, h);
    }
  }

  function Waiting(h: History): Fifo
    requires h.read <= |h.log|
  {
    Fifo(h.log[h.read..], h.read)
  }
}

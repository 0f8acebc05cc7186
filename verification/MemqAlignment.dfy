// Which base addresses the flash ring queue works on. An erase command clears the aligned
// sector that holds its address; the queue assumes that it clears blobSize bytes from there.
// The two agree exactly when the region starts on a sector or fits into one, and on every
// other region some run gives back a packet that was never written there.
module MemqAlignment {
  import opened Wrappers
  import opened Arith
  import opened MemqSpec
  import opened MemqFifo
  import opened MemqTheorems
  import F = Flash

  ghost predicate FifoOnEveryRun(c: Config, size: nat)
    requires c.Valid() && c.Last() <= size
  {
    forall cells: seq<bv8>, ops: seq<Op> | |cells| == size && OpsOk(c, ops) ::
      Outputs(c, ResetState(c, cells), ops) == FifoOutputs(c, Fifo([], 0), ops)
  }

  // Base addresses and region sizes for which every run of the queue is a FIFO.
  lemma FifoExactlyWhenSectorsFit(c: Config, size: nat)
    requires c.Valid() && c.Last() <= size
    ensures FifoOnEveryRun(c, size) <==> c.SectorsFit()
  {
    if c.SectorsFit() {
      forall cells: seq<bv8>, ops: seq<Op> | |cells| == size && OpsOk(c, ops)
        ensures Outputs(c, ResetState(c, cells), ops) == FifoOutputs(c, Fifo([], 0), ops)
      {
        MemqRefinesFifo(c, cells, ops);
      }
    } else {
      var cells := F.Blank(size);
      if c.totalPacket <= c.PerBlob() {
        var p := StaleByte(c, cells);
        WrongReadShows(c, cells, p);
      } else {
        var p := ErasedByte(c, cells);
        WrongReadShows(c, cells, p);
      }
    }
  }

  // The configuration of the firmware: 3600 packets of 32 bytes from address 13000 on, in
  // sectors of 4096 bytes.
  const SHIPPED := Config(13000, 32, 3600, 4096, 5)

  lemma ShippedConfigIsNotFifo(size: nat)
    requires SHIPPED.Last() <= size
    ensures SHIPPED.Valid() && !FifoOnEveryRun(SHIPPED, size)
  {
    assert 13000 % 4096 == 712;
    FifoExactlyWhenSectorsFit(SHIPPED, size);
  }

  // ---------------------------------------------------------------- a run and where it leads

  datatype Place = Place(ops: seq<Op>, s: State, h: History)

  ghost predicate Reached(c: Config, cells: seq<bv8>, p: Place) {
    && c.Valid() && c.Last() <= |cells| && OpsOk(c, p.ops)
    && p.s == After(c, ResetState(c, cells), p.ops)
    && |p.s.cells| == |cells|
    && p.h == HistAfter(c, ResetState(c, cells), Fresh, p.ops)
    && PtrInv(c, p.s, p.h)
    && FifoAfter(c, Fifo([], 0), p.ops) == Waiting(p.h)
  }

  function FifoAfter(c: Config, q: Fifo, ops: seq<Op>): Fifo
    requires c.Valid()
    decreases |ops|
  {
    if ops == [] then q else FifoAfter(c, FifoStep(c, q, ops[0]).0, ops[1..])
  }

  lemma {:induction false} AfterSnoc(c: Config, s: State, q: Fifo, ops: seq<Op>, op: Op)
    requires Shape(c, s) && OpsOk(c, ops) && OpOk(c, op)
    ensures OpsOk(c, ops + [op])
    ensures After(c, s, ops + [op]) == Step(c, After(c, s, ops), op).0
    ensures Outputs(c, s, ops + [op]) == Outputs(c, s, ops) + [Step(c, After(c, s, ops), op).1]
    ensures FifoAfter(c, q, ops + [op]) == FifoStep(c, FifoAfter(c, q, ops), op).0
    ensures FifoOutputs(c, q, ops + [op]) == FifoOutputs(c, q, ops) + [FifoStep(c, FifoAfter(c, q, ops), op).1]
  {
    QueueSnoc(c, s, ops, op);
    FifoSnoc(c, q, ops, op);
  }

  lemma {:induction false} QueueSnoc(c: Config, s: State, ops: seq<Op>, op: Op)
    requires Shape(c, s) && OpsOk(c, ops) && OpOk(c, op)
    ensures OpsOk(c, ops + [op])
    ensures After(c, s, ops + [op]) == Step(c, After(c, s, ops), op).0
    ensures Outputs(c, s, ops + [op]) == Outputs(c, s, ops) + [Step(c, After(c, s, ops), op).1]
    decreases |ops|
  {
    if ops == [] {
      assert ops + [op] == [op];
      assert [op][1..] == [];
    } else {
      QueueSnoc(c, Step(c, s, ops[0]).0, ops[1..], op);
      assert (ops + [op])[1..] == ops[1..] + [op];
    }
  }

  lemma {:induction false} FifoSnoc(c: Config, q: Fifo, ops: seq<Op>, op: Op)
    requires c.Valid()
    ensures FifoAfter(c, q, ops + [op]) == FifoStep(c, FifoAfter(c, q, ops), op).0
    ensures FifoOutputs(c, q, ops + [op]) == FifoOutputs(c, q, ops) + [FifoStep(c, FifoAfter(c, q, ops), op).1]
    decreases |ops|
  {
    if ops == [] {
      assert ops + [op] == [op];
      assert [op][1..] == [];
    } else {
      FifoSnoc(c, FifoStep(c, q, ops[0]).0, ops[1..], op);
      assert (ops + [op])[1..] == ops[1..] + [op];
    }
  }

  lemma {:induction false} HistSnoc(c: Config, s: State, h: History, ops: seq<Op>, op: Op)
    requires Shape(c, s) && OpsOk(c, ops) && OpOk(c, op)
    ensures OpsOk(c, ops + [op])
    ensures HistAfter(c, s, h, ops + [op]) == HistStep(c, After(c, s, ops), HistAfter(c, s, h, ops), op)
    decreases |ops|
  {
    if ops == [] {
      assert ops + [op] == [op];
      assert [op][1..] == [];
    } else {
      HistSnoc(c, Step(c, s, ops[0]).0, HistStep(c, s, h, ops[0]), ops[1..], op);
      assert (ops + [op])[1..] == ops[1..] + [op];
    }
  }

  lemma Start(c: Config, cells: seq<bv8>) returns (p: Place)
    requires c.Valid() && c.Last() <= |cells|
    ensures Reached(c, cells, p) && p.h == Fresh
  {
    ResetKeeps(c, cells);
    p := Place([], ResetState(c, cells), Fresh);
  }

  lemma Extend(c: Config, cells: seq<bv8>, p: Place, op: Op) returns (p': Place)
    requires Reached(c, cells, p) && OpOk(c, op)
    ensures p' == Place(p.ops + [op], Step(c, p.s, op).0, HistStep(c, p.s, p.h, op))
    ensures Reached(c, cells, p')
  {
    p' := Place(p.ops + [op], Step(c, p.s, op).0, HistStep(c, p.s, p.h, op));
    AfterSnoc(c, ResetState(c, cells), Fifo([], 0), p.ops, op);
    HistSnoc(c, ResetState(c, cells), Fresh, p.ops, op);
    StepKeepsPointers(c, p.s, p.h, op);
  }

  // A place where the next read gives something else than the oldest packet refutes the FIFO.
  lemma WrongReadShows(c: Config, cells: seq<bv8>, p: Place)
    requires Reached(c, cells, p)
    requires p.h.read < |p.h.log| && ReadStep(c, p.s).1 != Some(p.h.log[p.h.read])
    ensures !FifoOnEveryRun(c, |cells|)
  {
    var s0, q0 := ResetState(c, cells), Fifo([], 0);
    AfterSnoc(c, s0, q0, p.ops, Read);
    var a, b := Outputs(c, s0, p.ops + [Read]), FifoOutputs(c, q0, p.ops + [Read]);
    assert a[|a| - 1] == ReadStep(c, p.s).1 && b[|b| - 1] == Some(p.h.log[p.h.read]);
    assert a != b;
  }

  function Fill(n: nat, b: bv8): Packet {
    seq(n, _ => b)
  }

  // ---------------------------------------------------------------- one byte of flash under a run

  // a byte of the region that the erase of the first sector misses
  ghost predicate Missed(c: Config, e: nat)
    requires c.Valid()
  {
    F.SectorStart(c.blobSize, c.base) + c.blobSize <= e < c.Last()
  }

  // Reads program nothing: an erased byte stays erased.
  lemma ErasedUnderRead(c: Config, s: State, e: nat)
    requires Shape(c, s) && e < c.Last()
    ensures s.cells[e] == F.ERASED ==> ReadStep(c, s).0.cells[e] == F.ERASED
  {
  }

  // With a single blob only the first sector is ever erased: a zero byte that this misses stays zero.
  lemma ZeroUnderRead(c: Config, s: State, h: History, e: nat)
    requires PtrInv(c, s, h) && c.totalPacket <= c.PerBlob() && Missed(c, e)
    ensures s.cells[e] == 0 ==> ReadStep(c, s).0.cells[e] == 0
  {
    Cursor(c, h);
    SmallMod(Tail(c, h), c.PerBlob());
    assert s.ptr.willErase == c.base;
  }

  lemma ZeroUnderWrite(c: Config, s: State, buf: Packet, e: nat)
    requires Shape(c, s) && |buf| == c.packetLen && e < c.Last() && s.cells[e] == 0
    ensures WriteStep(c, s, buf).cells[e] == 0
  {
    NextOnSlot(c, s.ptr.head);
    ZeroStays(if 0 <= e - s.ptr.head < |buf| then buf[e - s.ptr.head] else 0);
  }

  lemma ZeroStays(d: bv8)
    ensures 0 & d == 0 && d & 0 == 0
  {
  }

  lemma {:induction false} DoWrites(c: Config, cells: seq<bv8>, p: Place, b: bv8, k: nat, e: nat) returns (p': Place)
    requires Reached(c, cells, p) && e < c.Last()
    requires Used(c, p.h) + k <= c.totalPacket
    ensures Reached(c, cells, p')
    ensures p'.h.read == p.h.read && |p'.h.log| == |p.h.log| + k && p.h.log <= p'.h.log
    ensures forall i :: |p.h.log| <= i < |p'.h.log| ==> p'.h.log[i] == Fill(c.packetLen, b)
    ensures p.s.cells[e] == 0 ==> p'.s.cells[e] == 0
  {
    if k == 0 {
      p' := p;
    } else {
      var p1 := DoWrites(c, cells, p, b, k - 1, e);
      var buf := Fill(c.packetLen, b);
      if p1.s.cells[e] == 0 { ZeroUnderWrite(c, p1.s, buf, e); }
      p' := Extend(c, cells, p1, Write(buf));
    }
  }

  lemma {:induction false} DoReads(c: Config, cells: seq<bv8>, p: Place, k: nat, e: nat) returns (p': Place)
    requires Reached(c, cells, p) && e < c.Last() && p.h.read + k <= |p.h.log|
    ensures Reached(c, cells, p')
    ensures p'.h.read == p.h.read + k && p'.h.log == p.h.log
    ensures p.s.cells[e] == F.ERASED ==> p'.s.cells[e] == F.ERASED
    ensures p.s.cells[e] == 0 && c.totalPacket <= c.PerBlob() && Missed(c, e) ==> p'.s.cells[e] == 0
  {
    if k == 0 {
      p' := p;
    } else {
      var p1 := DoReads(c, cells, p, k - 1, e);
      ErasedUnderRead(c, p1.s, e);
      if c.totalPacket <= c.PerBlob() && Missed(c, e) { ZeroUnderRead(c, p1.s, p1.h, e); }
      p' := Extend(c, cells, p1, Read);
    }
  }

  // The last byte of the packet that the next read returns.
  lemma LastByteRead(c: Config, s: State, h: History, i: nat)
    requires PtrInv(c, s, h) && h.read < |h.log| && i == Tail(c, h)
    ensures ReadStep(c, s).1.Some?
    ensures |ReadStep(c, s).1.value| == c.packetLen
    ensures c.SlotAddr(i + 1) - 1 < |s.cells|
    ensures ReadStep(c, s).1.value[c.packetLen - 1] == s.cells[c.SlotAddr(i + 1) - 1]
  {
    Cursor(c, h);
    SlotIsOnSlot(c, i);
    SlotNext(c, i);
  }

  // ---------------------------------------------------------------- a region of one blob over two sectors

  // Zeros written over the whole region and read again: the end of the region is still zero.
  lemma ZeroRound(c: Config, cells: seq<bv8>) returns (p: Place)
    requires c.Valid() && c.Last() <= |cells| && c.totalPacket <= c.PerBlob() && Missed(c, c.Last() - 1)
    ensures Reached(c, cells, p)
    ensures |p.h.log| == p.h.read == c.totalPacket && p.s.cells[c.Last() - 1] == 0
  {
    var n, e := c.totalPacket, c.Last() - 1;
    p := Start(c, cells);
    AtMultiple(c, p.h, 0);
    p := DoWrites(c, cells, p, 0, n - 1, e);
    ZeroLastByte(c, p.s, p.h);
    p := Extend(c, cells, p, Write(Fill(c.packetLen, 0)));
    p := DoReads(c, cells, p, n, e);
  }

  // So a later packet of all ones comes back with a zero in it.
  lemma StaleByte(c: Config, cells: seq<bv8>) returns (p: Place)
    requires c.Valid() && !c.SectorsFit() && c.Last() <= |cells| && c.totalPacket <= c.PerBlob()
    ensures Reached(c, cells, p)
    ensures p.h.read < |p.h.log| && ReadStep(c, p.s).1 != Some(p.h.log[p.h.read])
  {
    var n, e := c.totalPacket, c.Last() - 1;
    p := ZeroRound(c, cells);
    AtMultiple(c, p.h, 1);
    p := DoWrites(c, cells, p, 0xFF, n, e);
    p := DoReads(c, cells, p, n - 1, e);
    DivModUnique(p.h.read, n, 1, n - 1);
    LastByteRead(c, p.s, p.h, n - 1);
  }

  // The read count is a multiple of the number of slots: tail and frontier are at the start.
  lemma AtMultiple(c: Config, h: History, k: nat)
    requires c.Valid() && h.read == k * c.totalPacket
    ensures Tail(c, h) == InBlob(c, h) == Frontier(c, h) == 0
  {
    ModOfMultiple(k, c.totalPacket);
    SmallMod(0, c.PerBlob());
  }

  lemma ZeroLastByte(c: Config, s: State, h: History)
    requires PtrInv(c, s, h) && h.read == 0 && |h.log| == c.totalPacket - 1
    ensures WriteStep(c, s, Fill(c.packetLen, 0)).cells[c.Last() - 1] == 0
  {
    AtMultiple(c, h, 0);
    SlotNext(c, c.totalPacket - 1);
    ZeroStays(s.cells[c.Last() - 1]);
    FrontierLockCapacityPtr(c, s, h);
  }

  lemma FrontierLockCapacityPtr(c: Config, s: State, h: History)
    requires PtrInv(c, s, h) && Used(c, h) < c.totalPacket
    ensures !s.ptr.isLock
  {
  }

  // ---------------------------------------------------------------- a misaligned region of several blobs

  // Zeros everywhere, one blob of them read and rewritten.
  lemma FirstBlobRewritten(c: Config, cells: seq<bv8>) returns (p: Place)
    requires c.Valid() && c.Last() <= |cells| && c.PerBlob() < c.totalPacket
    ensures Reached(c, cells, p)
    ensures p.h.read == c.PerBlob() && |p.h.log| == c.totalPacket + c.PerBlob()
    ensures forall i :: 0 <= i < |p.h.log| ==> p.h.log[i] == Fill(c.packetLen, 0)
  {
    var n, m := c.totalPacket, c.PerBlob();
    p := Start(c, cells);
    AtMultiple(c, p.h, 0);
    p := DoWrites(c, cells, p, 0, n, c.base);
    p := DoReads(c, cells, p, m, c.base);
    AtBlob(c, p.h, 0);
    p := DoWrites(c, cells, p, 0, m, c.base);
  }

  // One packet before the end of the second blob, or of the region.
  lemma SecondBlobNearlyRead(c: Config, cells: seq<bv8>) returns (p: Place)
    requires c.Valid() && c.Last() <= |cells| && c.PerBlob() < c.totalPacket
    ensures Reached(c, cells, p)
    ensures var n, m := c.totalPacket, c.PerBlob();
            p.h.read == (if n < 2 * m then n else 2 * m) - 1 && |p.h.log| == n + m
    ensures forall i :: 0 <= i < |p.h.log| ==> p.h.log[i] == Fill(c.packetLen, 0)
  {
    var n, m := c.totalPacket, c.PerBlob();
    p := FirstBlobRewritten(c, cells);
    p := DoReads(c, cells, p, (if n < 2 * m then n - m else m) - 1, c.base);
  }

  // The erase of the second blob also clears the end of the first, which is in use again.
  lemma SecondBlobErased(c: Config, cells: seq<bv8>) returns (p: Place)
    requires c.Valid() && !c.SectorsFit() && c.Last() <= |cells| && c.PerBlob() < c.totalPacket
    ensures Reached(c, cells, p)
    ensures c.PerBlob() < p.h.read <= c.totalPacket && |p.h.log| == c.totalPacket + c.PerBlob()
    ensures forall i :: 0 <= i < |p.h.log| ==> p.h.log[i] == Fill(c.packetLen, 0)
    ensures 0 < c.SlotAddr(c.PerBlob()) <= c.Last() && p.s.cells[c.SlotAddr(c.PerBlob()) - 1] == F.ERASED
  {
    var n, m := c.totalPacket, c.PerBlob();
    SlotOrder(c, m, n);
    SlotOrder(c, 0, m);
    p := SecondBlobNearlyRead(c, cells);
    AtBlob(c, p.h, p.h.read - m);
    SecondEraseHits(c, p.s, p.h, c.SlotAddr(m) - 1);
    p := Extend(c, cells, p, Read);
  }

  lemma ErasedByte(c: Config, cells: seq<bv8>) returns (p: Place)
    requires c.Valid() && !c.SectorsFit() && c.Last() <= |cells| && c.PerBlob() < c.totalPacket
    ensures Reached(c, cells, p)
    ensures p.h.read < |p.h.log| && ReadStep(c, p.s).1 != Some(p.h.log[p.h.read])
  {
    var n, m := c.totalPacket, c.PerBlob();
    p := SecondBlobErased(c, cells);
    p := DoReads(c, cells, p, n + m - 1 - p.h.read, c.SlotAddr(m) - 1);
    DivModUnique(p.h.read, n, 1, m - 1);
    LastByteRead(c, p.s, p.h, m - 1);
  }

  lemma AtBlob(c: Config, h: History, j: nat)
    requires c.Valid() && h.read == c.PerBlob() + j && j < c.PerBlob() && c.PerBlob() + j < c.totalPacket
    ensures Tail(c, h) == h.read && InBlob(c, h) == j && Frontier(c, h) == c.PerBlob()
  {
    SmallMod(h.read, c.totalPacket);
    DivModUnique(h.read, c.PerBlob(), 1, j);
  }

  lemma SecondEraseHits(c: Config, s: State, h: History, e: nat)
    requires PtrInv(c, s, h) && c.base % c.blobSize != 0 && c.PerBlob() < c.totalPacket
    requires Frontier(c, h) == c.PerBlob() && h.read < |h.log| && e == c.SlotAddr(c.PerBlob()) - 1
    requires Tail(c, h) + 1 == c.totalPacket || InBlob(c, h) + 1 == c.PerBlob()
    ensures e < |s.cells| && ReadStep(c, s).0.cells[e] == F.ERASED
  {
    ReadAddresses(c, s, h);
    AddModulus(c.base, c.blobSize);
  }
}

// The flash ring queue as the firmware keeps it: a record of pointers updated in place, a
// flash device written through the page-splitting driver, and the last persisted record.
module Memq {
  import opened Wrappers
  import opened Arith
  import opened MemqSpec
  import opened MemqFifo
  import opened MemqTheorems
  import opened MemqRestart
  import opened MemqSaves
  import F = Flash

  function Pow2(k: nat): (p: nat)
    ensures p > 0
  {
    if k == 0 then 1 else 2 * Pow2(k - 1)
  }

  function Log2(n: nat): nat {
    if n < 2 then 0 else 1 + Log2(n / 2)
  }

  lemma {:induction false} Log2Floor(n: nat)
    requires n > 0
    ensures Pow2(Log2(n)) <= n < 2 * Pow2(Log2(n))
  {
    if n >= 2 {
      Log2Floor(n / 2);
    }
  }

  lemma {:induction false} Log2OfPow2(k: nat)
    ensures Log2(Pow2(k)) == k
  {
    if k > 0 {
      Log2OfPow2(k - 1);
    }
  }

  // The empty loop leaves 255 for 0, as an 8-bit counter does.
  method Log2Base(n0: nat) returns (inc: nat)
    requires n0 < 0x1_0000
    ensures inc == if n0 == 0 then 255 else Log2(n0)
  {
    var n := n0;
    inc := 0;
    while n > 0
      invariant n0 > 0 ==> inc + (if n > 0 then Log2(n) + 1 else 0) == Log2(n0) + 1
      invariant n0 == 0 ==> n == inc == 0
    {
      n := n / 2;
      inc := inc + 1;
    }
    inc := if inc == 0 then 255 else inc - 1;
  }

  // The blob numbers that the reset loop runs over are those of the erased range.
  lemma BlobRange(base: nat, last: nat, blob: nat)
    requires blob > 0 && base < last
    ensures base / blob <= (last - 1) / blob
    ensures base / blob * blob == RoundDown(base, blob)
    ensures (last - 1) / blob * blob == RoundDown(last - 1, blob)
  {
    MulSum(base / blob, (last - 1) / blob, blob);
    MulOrder(base / blob - (last - 1) / blob, blob);
  }

  lemma NextBlob(cells: seq<bv8>, blob: nat, first: nat, i: nat, last: nat)
    requires blob > 0 && first <= i <= last
    ensures first * blob <= i * blob <= last * blob && (i + 1) * blob == i * blob + blob
    ensures F.SectorErased(F.Blanked(cells, first * blob, i * blob), blob, i * blob)
         == F.Blanked(cells, first * blob, i * blob + blob)
  {
    ModOfMultiple(i, blob);
    MulSum(i, 1, blob);
    MulSum(i, first, blob);
    MulOrder(i - first, blob);
    MulSum(last, i, blob);
    MulOrder(last - i, blob);
    BlankedNext(cells, first * blob, i * blob, i * blob + blob);
  }

  lemma BlankedNext(cells: seq<bv8>, lo: nat, mid: nat, hi: nat)
    requires lo <= mid <= hi
    ensures F.Blanked(F.Blanked(cells, lo, mid), mid, hi) == F.Blanked(cells, lo, hi)
  {
  }

  // Every erase blob that the region from baseAddr to lastAddr touches.
  method EraseBlobs(flash: F.Flash, baseAddr: nat, lastAddr: nat, blobSize: nat)
    requires 0 < blobSize < 0x1_0000 && exists k :: blobSize == Pow2(k)
    requires flash.Valid() && flash.sector == blobSize && baseAddr < lastAddr <= flash.cells.Length
    modifies flash.cells
    ensures flash.cells[..]
         == F.Blanked(old(flash.cells[..]), RoundDown(baseAddr, blobSize), RoundDown(lastAddr - 1, blobSize) + blobSize)
  {
    var blobIndex := Log2Base(blobSize);
    ghost var k :| blobSize == Pow2(k);
    Log2OfPow2(k);
    BlobRange(baseAddr, lastAddr, blobSize);
    EraseFromTo(flash, blobIndex, baseAddr / Pow2(blobIndex), (lastAddr - 1) / Pow2(blobIndex));
  }

  method EraseFromTo(flash: F.Flash, blobIndex: nat, startBlob: nat, endBlob: nat)
    requires flash.Valid() && flash.sector == Pow2(blobIndex) && startBlob <= endBlob
    requires endBlob * flash.sector < flash.cells.Length
    modifies flash.cells
    ensures flash.cells[..]
         == F.Blanked(old(flash.cells[..]), startBlob * flash.sector, endBlob * flash.sector + flash.sector)
  {
    ghost var cells := flash.cells[..];
    ghost var blob := flash.sector;
    ghost var lo, mid := startBlob * blob, startBlob * blob;
    assert F.Blanked(cells, lo, lo) == cells;
    var i := startBlob;
    while i <= endBlob
      invariant startBlob <= i <= endBlob + 1
      invariant mid == i * blob && (i == endBlob + 1 ==> mid == endBlob * blob + blob)
      invariant flash.cells[..] == F.Blanked(cells, lo, mid)
    {
      NextBlob(cells, blob, startBlob, i, endBlob);
      flash.EraseSector(i * Pow2(blobIndex), true);
      i := i + 1;
      mid := mid + blob;
    }
  }

  class Memq {
    const cfg: Config
    const lastAddr: nat
    const flash: F.Flash
    var ringPtr: RingPtr
    var ptrEventCounter: nat
    // the record that the last pointer write left in EEPROM
    var rom: RingPtr
    ghost var hist: History
    // packets accepted when that record was written
    ghost var kept: nat
    // writes accepted and reads that returned a packet since the last timed save or start-up
    ghost var tally: nat

    ghost function St(): State
      reads this, flash.cells
    {
      State(ringPtr, rom, ptrEventCounter, flash.cells[..])
    }

    // The pointers are somewhere in the region and the device is the one configured.
    ghost predicate Usable()
      reads this, flash.cells
    {
      && Shape(cfg, St())
      && lastAddr == cfg.Last()
      && flash.Valid() && flash.sector == cfg.blobSize
      && ptrEventCounter == tally % 0x1_0000
    }

    // The queue is in a state that its history explains.
    ghost predicate Valid()
      reads this, flash.cells
    {
      Usable() && cfg.SectorsFit() && Known(cfg, St(), hist, kept)
    }

    // the packets accepted and not yet read, oldest first
    ghost function Queue(): seq<Packet>
      reads this, flash.cells
      requires Valid()
    {
      hist.log[hist.read..]
    }

    constructor (c: Config, flash: F.Flash, rom: RingPtr)
      requires c.Valid() && flash.Valid() && flash.sector == c.blobSize && c.Last() <= flash.cells.Length
      ensures cfg == c && this.flash == flash && this.rom == rom && Usable()
    {
      BaseOnSlot(c);
      cfg := c;
      lastAddr := c.base + c.packetLen * c.totalPacket;
      this.flash := flash;
      ringPtr := RingPtr(c.base, c.base, c.base, c.base, Reset, false);
      ptrEventCounter := 0;
      this.rom := rom;
      hist := Fresh;
      kept := 0;
      tally := 0;
    }

    method MemqReset()
      requires Usable() && exists k :: cfg.blobSize == Pow2(k)
      modifies this, flash.cells
      ensures Usable()
      ensures St() == ResetState(cfg, old(flash.cells[..])) && tally == 0
      ensures cfg.SectorsFit() ==> Valid() && Queue() == []
    {
      ResetIsKnown(cfg, flash.cells[..]);
      SlotOrder(cfg, 0, cfg.totalPacket);
      EraseBlobs(flash, cfg.base, lastAddr, cfg.blobSize);
      ringPtr := ringPtr.(head := cfg.base, tail := cfg.base, saveTail := cfg.base, willErase := cfg.base);
      ringPtr := ringPtr.(qState := Reset, isLock := false);
      rom := ringPtr;
      ptrEventCounter := 0;
      hist := Fresh;
      kept := 0;
      tally := 0;
    }

    method MemqWrite(buf: Packet)
      requires Usable() && |buf| == cfg.packetLen
      modifies this, flash`programs, flash.cells
      ensures Usable()
      ensures St() == WriteStep(cfg, old(St()), buf)
      ensures tally == old(tally) + if old(ringPtr.isLock) then 0 else 1
      ensures old(Valid()) ==> Valid() && Queue() == old(Queue()) + if old(ringPtr.isLock) then [] else [buf]
      ensures old(Valid()) && old(ringPtr.isLock) ==> old(|Queue()|) > cfg.totalPacket - cfg.PerBlob()
    {
      ghost var s := St();
      if Valid() {
        StepKeepsRecord(cfg, s, hist, kept, Write(buf));
        WaitingAfterWrite(hist.log, buf, hist.read);
        FrontierLockCapacity(cfg, s, hist);
      }
      if !ringPtr.isLock {
        StorePacket(buf);
        kept := KeptStep(cfg, s, hist, kept, Write(buf));
        hist := HistWrite(cfg, s, hist, buf);
        NextTally(tally);
        tally := tally + 1;
      }
    }

    // The unlocked part of a write.
    method StorePacket(buf: Packet)
      requires Usable() && |buf| == cfg.packetLen && !ringPtr.isLock
      modifies this`ringPtr, this`rom, this`ptrEventCounter, flash`programs, flash.cells
      ensures St() == WriteStep(cfg, old(St()), buf)
      ensures ptrEventCounter == (old(ptrEventCounter) + 1) % 0x1_0000
    {
      NextOnSlot(cfg, ringPtr.head);
      flash.Write(ringPtr.head, buf);
      ringPtr := ringPtr.(head := ringPtr.head + cfg.packetLen);
      ringPtr := ringPtr.(qState := Running);
      ptrEventCounter := (ptrEventCounter + 1) % 0x1_0000;
      if ringPtr.head >= lastAddr {
        ringPtr := ringPtr.(head := cfg.base);
        rom := ringPtr;
      }
      if ringPtr.head == ringPtr.willErase {
        ringPtr := ringPtr.(isLock := true);
        rom := ringPtr;
      }
    }

    method EraseMemBlob()
      requires flash.Valid() && ringPtr.willErase < flash.cells.Length
      modifies this`ringPtr, this`rom, flash.cells
      ensures flash.cells[..] == F.SectorErased(old(flash.cells[..]), flash.sector, old(ringPtr.willErase))
      ensures ringPtr == old(ringPtr).(isLock := false, willErase := old(ringPtr.willErase) + cfg.blobSize)
      ensures rom == ringPtr
    {
      flash.EraseSector(ringPtr.willErase, true);
      ringPtr := ringPtr.(isLock := false);
      ringPtr := ringPtr.(willErase := ringPtr.willErase + cfg.blobSize);
      rom := ringPtr;
    }

    // The middle of a read: from the packet in hand to the pointers behind it.
    method AdvanceTail()
      requires Usable()
      modifies this`ringPtr, this`rom, this`ptrEventCounter, flash.cells
      ensures St() == TailStep(cfg, old(St()))
    {
      NextOnSlot(cfg, ringPtr.tail);
      NextOnBlob(cfg, ringPtr.willErase);
      ringPtr := ringPtr.(tail := ringPtr.tail + cfg.packetLen);
      ptrEventCounter := (ptrEventCounter + 1) % 0x1_0000;
      if ringPtr.tail == lastAddr {
        ringPtr := ringPtr.(tail := cfg.base);
        flash.EraseSector(ringPtr.willErase, true);
        ringPtr := ringPtr.(isLock := false);
        ringPtr := ringPtr.(willErase := cfg.base);
        rom := ringPtr;
      } else if ringPtr.tail >= ringPtr.willErase + cfg.blobSize {
        EraseMemBlob();
      }
    }

    method MemqRead() returns (buf: Option<Packet>)
      requires Usable()
      modifies this, flash.cells
      ensures Usable()
      ensures (St(), buf) == ReadStep(cfg, old(St()))
      ensures tally == old(tally) + if buf.Some? then 1 else 0
      ensures old(Valid()) ==> Valid()
      ensures old(Valid()) ==>
                if old(Queue()) == [] then buf == None && Queue() == []
                else buf == Some(old(Queue())[0]) && Queue() == old(Queue())[1..]
    {
      if Valid() {
        ReadKeeps(cfg, St(), hist);
        StepKeepsRecord(cfg, St(), hist, kept, Read);
      }
      kept := KeptStep(cfg, St(), hist, kept, Read);
      hist := HistRead(cfg, St(), hist);
      if ringPtr.qState == Reset || ringPtr.qState == NoData {
        return None;
      }
      var data := TakePacket();
      buf := Some(data);
      NextTally(tally);
      tally := tally + 1;
    }

    // The part of a read behind its checks.
    method TakePacket() returns (data: Packet)
      requires Usable() && ringPtr.qState == Running
      modifies this`ringPtr, this`rom, this`ptrEventCounter, flash.cells
      ensures (St(), Some(data)) == ReadStep(cfg, old(St()))
      ensures ptrEventCounter == (old(ptrEventCounter) + 1) % 0x1_0000
    {
      NextOnSlot(cfg, ringPtr.tail);
      data := flash.Read(ringPtr.tail, cfg.packetLen);
      AdvanceTail();
      if ringPtr.tail == ringPtr.head {
        ringPtr := ringPtr.(qState := NoData);
        ringPtr := ringPtr.(isLock := false);
      }
    }

    method MemqSaveMemPtr()
      requires Usable()
      modifies this
      ensures Usable()
      ensures St() == SaveStep(cfg, old(St()))
      ensures ringPtr == old(ringPtr) && flash.cells[..] == old(flash.cells[..])
      ensures if old(tally) % 0x1_0000 >= cfg.maxPtrEvent then rom == ringPtr && tally == 0
              else rom == old(rom) && tally == old(tally)
      ensures old(Valid()) ==> Valid() && Queue() == old(Queue())
    {
      if Valid() {
        StepKeepsRecord(cfg, St(), hist, kept, Save);
      }
      kept := KeptStep(cfg, St(), hist, kept, Save);
      hist := HistStep(cfg, St(), hist, Save);
      if ptrEventCounter >= cfg.maxPtrEvent {
        rom := ringPtr;
        ptrEventCounter := 0;
        tally := 0;
      }
    }

    method MemqAvailable() returns (n: int)
      requires Usable()
      ensures n == Available(cfg, ringPtr)
      ensures Valid() ==> (n == |Queue()| <==> |Queue()| < cfg.totalPacket)
    {
      if Valid() {
        AvailableIsExact(cfg, St(), hist);
      }
      if ringPtr.tail == ringPtr.head {
        return 0;
      } else if ringPtr.head > ringPtr.tail {
        return (ringPtr.head - ringPtr.tail) / cfg.packetLen;
      } else {
        var len := (lastAddr - ringPtr.tail) + (ringPtr.head - cfg.base);
        return len / cfg.packetLen;
      }
    }

    // The part of memqBegin that start-up repeats; the addresses are constants here.
    method MemqBegin()
      modifies this`ptrEventCounter, this`tally
      ensures ptrEventCounter == tally == 0
    {
      ptrEventCounter := 0;
      tally := 0;
    }

    // Start-up from the record in EEPROM, after memqBegin. The pointers in RAM are only those of
    // the time before; if the record resumes, the queue is that of the packets not read before
    // the record was written.
    method MemqSetMemPtr()
      requires Usable() && ptrEventCounter == tally == 0 && exists k :: cfg.blobSize == Pow2(k)
      modifies this, flash.cells
      ensures St() == RestartStep(cfg, old(St())) && tally == 0
      ensures old(Valid() && Resumable(St())) ==>
                old(hist.saved <= |hist.log|) && Valid() && Queue() == old(hist.log[hist.saved..])
      ensures var r, lo, hi := old(rom), cfg.base, lastAddr;
              if r.head < lo || r.head > hi || r.tail < lo || r.tail > hi || r.saveTail < lo || r.saveTail > hi then
                && ringPtr == RingPtr(lo, lo, lo, lo, Reset, false)
                && (cfg.SectorsFit() ==> Valid() && Queue() == [])
              else
                && ringPtr == r.(isLock := r.head == r.willErase && r.head != r.tail)
                && flash.cells[..] == old(flash.cells[..])
    {
      ghost var s, h, k := St(), hist, kept;
      if Valid() {
        RestartResumes(cfg, s, h, k);
        RestartShape(cfg, s, h, k);
        if Resumable(s) {
          FreshRecord(cfg, RestartStep(cfg, s), Resumed(h));
        }
      }
      var notOk := rom.head > lastAddr || rom.tail > lastAddr || rom.saveTail > lastAddr
        || rom.head < cfg.base || rom.tail < cfg.base || rom.saveTail < cfg.base;
      if notOk {
        MemqReset();
      } else {
        ringPtr := rom;
        hist, kept := Resumed(h), |h.log|;
      }
      if ringPtr.head == ringPtr.willErase && ringPtr.head != ringPtr.tail {
        ringPtr := ringPtr.(isLock := true);
      } else {
        ringPtr := ringPtr.(isLock := false);
      }
      rom := ringPtr;
    }
  }
}

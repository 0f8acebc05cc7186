// Start-up of the flash queue: which records are accepted, and the first boot over an EEPROM
// that was never written.
module MemqStart {
  import opened Wrappers
  import opened Arith
  import opened LittleEndian
  import opened MemqSpec
  import opened MemqFifo
  import opened MemqTheorems
  import opened MemqRestart
  import R = RingEepromSpec
  import T = RingEepromTheorems
  import MemqRecord
  import F = Flash

  lemma InBlobExactly(x: nat, a: nat, blob: nat)
    requires blob > 0
    ensures RoundDown(a, blob) <= x <==> a / blob <= x / blob
    ensures x < RoundDown(a, blob) + blob <==> x / blob <= a / blob
  {
    var k, j := a / blob, x / blob;
    DivModBounds(x, blob);
    BlockOf(k, j, x % blob, blob);
  }

  // A reset erases the blobs of the device that the region touches, and no cell of any other.
  lemma ResetErasesExactly(c: Config, cells: seq<bv8>, x: nat)
    requires c.Valid() && c.Last() <= |cells| && x < |cells|
    ensures ResetState(c, cells).cells[x] ==
              if c.base / c.blobSize <= x / c.blobSize <= (c.Last() - 1) / c.blobSize then 0xFF else cells[x]
  {
    SlotOrder(c, 0, c.totalPacket);
    InBlobExactly(x, c.base, c.blobSize);
    InBlobExactly(x, c.Last() - 1, c.blobSize);
  }

  predicate Outside(p: RingPtr, lo: nat, hi: nat) {
    p.head < lo || p.head > hi || p.tail < lo || p.tail > hi || p.saveTail < lo || p.saveTail > hi
  }

  ghost predicate AllBlank(cells: seq<bv8>, lo: nat, hi: nat) {
    hi <= |cells| && forall x :: lo <= x < hi ==> cells[x] == 0xFF
  }

  lemma EndOfRegion(c: Config)
    ensures c.Last() == c.base + c.packetLen * c.totalPacket
  {
  }

  lemma ResetBlanksAll(c: Config, cells: seq<bv8>)
    requires c.Valid() && c.Last() <= |cells|
    ensures AllBlank(ResetState(c, cells).cells, c.base, c.Last())
  {
  }

  lemma StartUpOutside(c: Config, s: State, hi: nat)
    requires c.Valid() && c.Last() <= |s.cells| && hi == c.Last() && Outside(s.rom, c.base, hi)
    ensures var t, p := RestartStep(c, s), RingPtr(c.base, c.base, c.base, c.base, Reset, false);
            && t.ptr == t.rom == p && t.events == 0 && |t.cells| == |s.cells|
            && AllBlank(t.cells, c.base, hi) && Known(c, t, Fresh, 0)
  {
    ResetIsKnown(c, s.cells);
    ResetBlanksAll(c, s.cells);
  }

  lemma StartUpInside(c: Config, s: State, hi: nat)
    requires c.Valid() && c.Last() <= |s.cells| && hi == c.Last() && !Outside(s.rom, c.base, hi)
    ensures var r := s.rom;
            var p := RingPtr(r.head, r.tail, r.saveTail, r.willErase, r.qState, r.head == r.willErase && r.head != r.tail);
            RestartStep(c, s) == State(p, p, 0, s.cells)
  {
  }

  // A record with its head, tail or save tail outside the region leads to the reset queue over a
  // blank region; any other record is taken as it stands, except for its lock, and the flash is
  // left alone. In both cases the record is written back and the counter is cleared.
  lemma StartUpExactly(c: Config, s: State)
    requires c.Valid() && c.Last() <= |s.cells|
    ensures var lo, hi := c.base, c.base + c.packetLen * c.totalPacket;
            var r, t := s.rom, RestartStep(c, s);
            && t.rom == t.ptr && t.events == 0
            && (if r.head < lo || r.head > hi || r.tail < lo || r.tail > hi || r.saveTail < lo || r.saveTail > hi then
                  && t.ptr == RingPtr(lo, lo, lo, lo, Reset, false)
                  && AllBlank(t.cells, lo, hi)
                  && Known(c, t, Fresh, 0)
                else
                  && t.cells == s.cells
                  && t.ptr == RingPtr(r.head, r.tail, r.saveTail, r.willErase, r.qState,
                                      r.head == r.willErase && r.head != r.tail))
  {
    var hi := c.base + c.packetLen * c.totalPacket;
    EndOfRegion(c);
    if Outside(s.rom, c.base, hi) {
      StartUpOutside(c, s, hi);
    } else {
      StartUpInside(c, s, hi);
    }
  }

  ghost predicate Erased(mem: seq<Octet>, lo: nat, hi: nat) {
    hi <= |mem| && forall x :: lo <= x < hi ==> mem[x] == 0xFF
  }

  // All status bytes count as used, so the last slot is the one that is read.
  lemma ErasedArea(a: R.Area, mem: seq<Octet>)
    requires a.Valid(|mem|) && Erased(mem, a.init, a.End())
    ensures R.Selected(a, mem) == a.bufSz - 1
    ensures R.SlotAt(a, mem, a.bufSz - 1) == seq(a.packetSz, _ => 0xFF)
  {
    R.SlotInside(a, |mem|, a.bufSz - 1);
    T.ScanOfShape(a, mem, a.bufSz, 0);
  }

  lemma ErasedField(b: seq<Octet>)
    requires |b| == 2 || |b| == 4
    requires forall i :: 0 <= i < |b| ==> b[i] == 0xFF
    ensures FromBytes(b) == if |b| == 2 then 0xFFFF else 0xFFFF_FFFF
  {
    assert FromBytes(b[|b|..]) == 0;
    assert b[|b| - 1..][1..] == b[|b|..] && FromBytes(b[|b| - 1..]) == 0xFF;
    assert b[|b| - 2..][1..] == b[|b| - 1..] && FromBytes(b[|b| - 2..]) == 0xFFFF;
    if |b| == 2 {
      assert b[0..] == b;
    } else {
      assert b[1..][1..] == b[2..] && FromBytes(b[1..]) == 0xFF_FFFF;
      assert b[0..] == b;
    }
  }

  lemma ErasedRecord(b: seq<Octet>)
    requires |b| == MemqRecord.RECORD && forall i :: 0 <= i < |b| ==> b[i] == 0xFF
    ensures MemqRecord.DecodePtr(b) == RingPtr(0xFFFF_FFFF, 0xFFFF_FFFF, 0xFFFF_FFFF, 0xFFFF_FFFF, Running, true)
  {
    ErasedField(b[0..4]);
    ErasedField(b[4..8]);
    ErasedField(b[8..12]);
    ErasedField(b[12..16]);
    ErasedField(b[16..18]);
  }

  // First boot: what is read back from an erased EEPROM lies behind every region, so that the
  // queue is reset and answers as the empty FIFO. Regions end below that address as soon as a
  // blob has more than one byte.
  lemma FirstBoot(c: Config, s: State, a: R.Area, mem: seq<Octet>, ops: seq<Op>)
    requires c.Valid() && c.Last() <= |s.cells| && OpsOk(c, ops)
    requires c.SectorsFit() && c.Last() < 0xFFFF_FFFF
    requires a.Valid(|mem|) && a.packetSz == MemqRecord.RECORD && Erased(mem, a.init, a.End())
    requires R.Selected(a, mem) < a.bufSz ==> s.rom == MemqRecord.ReadBack(a, mem)
    ensures R.Selected(a, mem) < a.bufSz
    ensures Known(c, RestartStep(c, s), Fresh, 0)
    ensures Outputs(c, RestartStep(c, s), ops) == FifoOutputs(c, Fifo([], 0), ops)
  {
    ErasedArea(a, mem);
    ErasedRecord(R.SlotAt(a, mem, a.bufSz - 1));
    StartUpExactly(c, s);
    RunRefinesFifo(c, RestartStep(c, s), Fresh, ops);
  }
}

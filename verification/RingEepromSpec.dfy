// Wear-levelled EEPROM: a row of parameter slots used in turn, and in front of them one status
// byte per slot that is nonzero when the slot was used in the current cycle.
module RingEepromSpec {
  import opened LittleEndian
  import opened Arith

  datatype Area = Area(init: nat, bufSz: nat, packetSz: nat) {
    function Slot(index: nat): nat {
      init + bufSz + index * packetSz
    }

    function End(): nat {
      Slot(bufSz)
    }

    // Fewer than 255 slots, so that every status pointer fits in a byte; 16-bit addresses; the
    // scan may look one byte past the status bytes.
    predicate Valid(size: nat) {
      0 < bufSz < 255 && packetSz < 256 && End() <= size < 0x8000 && init + bufSz < size
    }
  }

  // ---------------------------------------------------------------- the scan

  // The do-while loop from counter i on: it stops behind the first zero, or behind the end.
  function ScanFrom(a: Area, mem: seq<Octet>, i: nat): (r: nat)
    requires a.Valid(|mem|) && i <= a.bufSz
    ensures i < r <= a.bufSz + 1
    decreases a.bufSz - i
  {
    if mem[a.init + i] != 0 && i + 1 <= a.bufSz then ScanFrom(a, mem, i + 1) else i + 1
  }

  function StatusPtr(a: Area, mem: seq<Octet>): nat
    requires a.Valid(|mem|)
  {
    ScanFrom(a, mem, 0)
  }

  // The slot that readPacket selects; 255 when no slot of the cycle is in use.
  function Selected(a: Area, mem: seq<Octet>): nat
    requires a.Valid(|mem|)
  {
    (StatusPtr(a, mem) + 254) % 256
  }

  // The slot that savePacket writes.
  function Target(a: Area, mem: seq<Octet>): nat
    requires a.Valid(|mem|)
  {
    if StatusPtr(a, mem) > a.bufSz then 0 else StatusPtr(a, mem) - 1
  }

  function SlotAt(a: Area, mem: seq<Octet>, index: nat): seq<Octet>
    requires a.Valid(|mem|) && index < a.bufSz
  {
    SlotInside(a, |mem|, index);
    mem[a.Slot(index)..a.Slot(index) + a.packetSz]
  }

  lemma SlotInside(a: Area, size: nat, index: nat)
    requires a.Valid(size) && index < a.bufSz
    ensures a.init + a.bufSz <= a.Slot(index) && a.Slot(index) + a.packetSz <= a.End() <= size
  {
    MulSum(a.bufSz, index, a.packetSz);
    MulOrder(a.bufSz - index, a.packetSz);
  }

  lemma SlotsApart(a: Area, i: nat, j: nat)
    requires i != j
    ensures a.Slot(i) + a.packetSz <= a.Slot(j) || a.Slot(j) + a.packetSz <= a.Slot(i)
  {
    MulSum(i, j, a.packetSz);
    MulOrder(i - j, a.packetSz);
  }

  // ---------------------------------------------------------------- the save, byte by byte

  datatype ByteWrite = ByteWrite(addr: nat, value: Octet)

  function Apply(mem: seq<Octet>, ws: seq<ByteWrite>): (r: seq<Octet>)
    requires forall i :: 0 <= i < |ws| ==> ws[i].addr < |mem|
    ensures |r| == |mem|
    decreases |ws|
  {
    if ws == [] then mem
    else
      var last := ws[|ws| - 1];
      Apply(mem, ws[..|ws| - 1])[last.addr := last.value]
  }

  function ClearWrites(a: Area): seq<ByteWrite> {
    seq(a.bufSz, i requires 0 <= i < a.bufSz => ByteWrite(a.init + i, 0))
  }

  function DataWrites(a: Area, index: nat, data: seq<Octet>): seq<ByteWrite> {
    seq(|data|, i requires 0 <= i < |data| => ByteWrite(a.Slot(index) + i, data[i]))
  }

  // Every byte that a save writes, in order.
  function SaveWrites(a: Area, mem: seq<Octet>, data: seq<Octet>): seq<ByteWrite>
    requires a.Valid(|mem|) && |data| == a.packetSz
  {
    var index := Target(a, mem);
    (if StatusPtr(a, mem) > a.bufSz then ClearWrites(a) else [])
    + DataWrites(a, index, data) + [ByteWrite(a.init + index, (index + 1) % 256)]
  }

  function SaveStep(a: Area, mem: seq<Octet>, data: seq<Octet>): (r: seq<Octet>)
    requires a.Valid(|mem|) && |data| == a.packetSz
    ensures |r| == |mem|
  {
    WritesInside(a, mem, data);
    Apply(mem, SaveWrites(a, mem, data))
  }

  lemma WritesInside(a: Area, mem: seq<Octet>, data: seq<Octet>)
    requires a.Valid(|mem|) && |data| == a.packetSz
    ensures Target(a, mem) < a.bufSz
    ensures forall i :: 0 <= i < |SaveWrites(a, mem, data)| ==> SaveWrites(a, mem, data)[i].addr < |mem|
  {
    SlotInside(a, |mem|, Target(a, mem));
  }
}

// The pointer record of the flash queue as bytes in the wear-levelled EEPROM: what start-up
// reads there is the last record that the queue wrote.
module MemqRecord {
  import opened Wrappers
  import opened LittleEndian
  import opened RingEepromSpec
  import opened RingEepromTheorems
  import M = MemqSpec

  // four 32-bit addresses, a 16-bit enumeration, the lock and a checksum that is always 0
  const RECORD: nat := 20

  predicate Fits(p: M.RingPtr) {
    && p.head < 0x1_0000_0000 && p.tail < 0x1_0000_0000
    && p.saveTail < 0x1_0000_0000 && p.willErase < 0x1_0000_0000
  }

  function StateCode(q: M.QState): nat {
    match q
    case Reset => 0
    case Running => 1
    case NoData => 3
  }

  // The queue only asks whether the state is 0 or 3.
  function StateOf(code: nat): M.QState {
    if code == 0 then M.Reset else if code == 3 then M.NoData else M.Running
  }

  function EncodePtr(p: M.RingPtr): (b: seq<Octet>)
    requires Fits(p)
    ensures |b| == RECORD
  {
    Bytes(p.head, 4) + Bytes(p.tail, 4) + Bytes(p.saveTail, 4) + Bytes(p.willErase, 4)
    + Bytes(StateCode(p.qState), 2) + [if p.isLock then 1 else 0] + [0]
  }

  function DecodePtr(b: seq<Octet>): M.RingPtr
    requires |b| == RECORD
  {
    M.RingPtr(FromBytes(b[0..4]), FromBytes(b[4..8]), FromBytes(b[8..12]), FromBytes(b[12..16]),
              StateOf(FromBytes(b[16..18])), b[18] != 0)
  }

  lemma EncodedFields(p: M.RingPtr)
    requires Fits(p)
    ensures var b := EncodePtr(p);
            && b[0..4] == Bytes(p.head, 4) && b[4..8] == Bytes(p.tail, 4)
            && b[8..12] == Bytes(p.saveTail, 4) && b[12..16] == Bytes(p.willErase, 4)
            && b[16..18] == Bytes(StateCode(p.qState), 2) && b[18] == if p.isLock then 1 else 0
  {
    FieldsOf(Bytes(p.head, 4), Bytes(p.tail, 4), Bytes(p.saveTail, 4), Bytes(p.willErase, 4),
             Bytes(StateCode(p.qState), 2), [if p.isLock then 1 else 0], [0]);
  }

  lemma FieldsOf(f0: seq<Octet>, f1: seq<Octet>, f2: seq<Octet>, f3: seq<Octet>, f4: seq<Octet>, f5: seq<Octet>, f6: seq<Octet>)
    requires |f0| == |f1| == |f2| == |f3| == 4 && |f4| == 2 && |f5| == |f6| == 1
    ensures var b := f0 + f1 + f2 + f3 + f4 + f5 + f6;
            b[0..4] == f0 && b[4..8] == f1 && b[8..12] == f2 && b[12..16] == f3 && b[16..18] == f4 && b[18] == f5[0]
  {
  }

  lemma RecordRoundTrip(p: M.RingPtr)
    requires Fits(p)
    ensures DecodePtr(EncodePtr(p)) == p
  {
    EncodedFields(p);
    Pow256Values();
    BytesRoundTrip(p.head, 4);
    BytesRoundTrip(p.tail, 4);
    BytesRoundTrip(p.saveTail, 4);
    BytesRoundTrip(p.willErase, 4);
    BytesRoundTrip(StateCode(p.qState), 2);
  }

  function Word(b: seq<Octet>, i: nat): nat
    requires i + 4 <= |b|
  {
    b[i] as int + 0x100 * b[i + 1] as int + 0x1_0000 * b[i + 2] as int + 0x100_0000 * b[i + 3] as int
  }

  // Where each field of the record is, and what it says there: head, tail, save tail and frontier
  // at bytes 0, 4, 8 and 12, the state 0, 1 or 3 in bytes 16 and 17, the lock in byte 18.
  lemma RecordInBytes(p: M.RingPtr)
    requires Fits(p)
    ensures var b := EncodePtr(p);
            && |b| == 20 && Word(b, 0) == p.head && Word(b, 4) == p.tail && Word(b, 8) == p.saveTail
            && Word(b, 12) == p.willErase
            && b[16] == (if p.qState == M.Reset then 0 else if p.qState == M.Running then 1 else 3)
            && b[17] == 0 && b[18] == (if p.isLock then 1 else 0) && b[19] == 0
  {
    var b := EncodePtr(p);
    EncodedFields(p);
    WordAt(b, 0, p.head);
    WordAt(b, 4, p.tail);
    WordAt(b, 8, p.saveTail);
    WordAt(b, 12, p.willErase);
    TwoBytes(StateCode(p.qState), b[16..18]);
    assert b[16] == b[16..18][0] && b[17] == b[16..18][1];
  }

  lemma WordAt(b: seq<Octet>, i: nat, x: nat)
    requires i + 4 <= |b| && x < 0x1_0000_0000 && b[i..i + 4] == Bytes(x, 4)
    ensures Word(b, i) == x
  {
    Pow256Values();
    BytesRoundTrip(x, 4);
    FourBytes(x, b[i..i + 4]);
  }

  // What start-up makes of any 20 bytes.
  lemma RecordFromBytes(b: seq<Octet>)
    requires |b| == 20
    ensures var p, code := DecodePtr(b), b[16] as int + 256 * b[17] as int;
            && p.head == Word(b, 0) && p.tail == Word(b, 4) && p.saveTail == Word(b, 8) && p.willErase == Word(b, 12)
            && p.qState == (if code == 0 then M.Reset else if code == 3 then M.NoData else M.Running)
            && (p.isLock <==> b[18] != 0)
  {
    FourBytes(0, b[0..4]);
    FourBytes(0, b[4..8]);
    FourBytes(0, b[8..12]);
    FourBytes(0, b[12..16]);
    TwoBytes(0, b[16..18]);
  }

  // ---------------------------------------------------------------- the records of a run

  predicate AllFit(ps: seq<M.RingPtr>) {
    forall i :: 0 <= i < |ps| ==> Fits(ps[i])
  }

  // The records that one operation writes, in order; a write that both wraps and locks writes two.
  function StepRecords(c: M.Config, s: M.State, op: M.Op): seq<M.RingPtr>
    requires M.Shape(c, s) && M.OpOk(c, op)
  {
    match op
    case Write(buf) =>
      if s.ptr.isLock then []
      else
        var wraps := s.ptr.head + c.packetLen >= c.Last();
        var p := s.ptr.(head := if wraps then c.base else s.ptr.head + c.packetLen, qState := M.Running);
        (if wraps then [p] else []) + if p.head == p.willErase then [p.(isLock := true)] else []
    case Read =>
      var t := M.TailStep(c, s);
      var tail := s.ptr.tail + c.packetLen;
      if s.ptr.qState == M.Running && (tail == c.Last() || tail >= s.ptr.willErase + c.blobSize) then [t.ptr] else []
    case Save => if s.events >= c.maxPtrEvent then [s.ptr] else []
  }

  function RunRecords(c: M.Config, s: M.State, ops: seq<M.Op>): seq<M.RingPtr>
    requires M.Shape(c, s) && M.OpsOk(c, ops)
    decreases |ops|
  {
    if ops == [] then []
    else StepRecords(c, s, ops[0]) + RunRecords(c, M.Step(c, s, ops[0]).0, ops[1..])
  }

  // Addresses stay in the region, and the persisted record is the last one written.
  ghost predicate Tracked(c: M.Config, s: M.State, records: seq<M.RingPtr>) {
    && M.Shape(c, s) && Fits(s.ptr)
    && records != [] && AllFit(records) && s.rom == records[|records| - 1]
  }

  lemma StepFits(c: M.Config, s: M.State, op: M.Op)
    requires M.Shape(c, s) && M.OpOk(c, op) && Fits(s.ptr)
    ensures Fits(M.Step(c, s, op).0.ptr) && AllFit(StepRecords(c, s, op))
  {
    M.NextOnSlot(c, s.ptr.tail);
    M.NextOnSlot(c, s.ptr.head);
  }

  lemma StepTracks(c: M.Config, s: M.State, op: M.Op)
    requires M.Shape(c, s) && M.OpOk(c, op)
    ensures var rs := StepRecords(c, s, op);
            M.Step(c, s, op).0.rom == if rs == [] then s.rom else rs[|rs| - 1]
  {
  }

  lemma Append(records: seq<M.RingPtr>, more: seq<M.RingPtr>)
    requires records != [] && AllFit(records) && AllFit(more)
    ensures var all := records + more;
            && AllFit(all) && all != []
            && all[|all| - 1] == if more == [] then records[|records| - 1] else more[|more| - 1]
  {
  }

  lemma {:induction false} RunTracks(c: M.Config, s: M.State, records: seq<M.RingPtr>, ops: seq<M.Op>)
    requires Tracked(c, s, records) && M.OpsOk(c, ops)
    ensures Tracked(c, M.After(c, s, ops), records + RunRecords(c, s, ops))
    decreases |ops|
  {
    if ops == [] {
      assert records + [] == records;
    } else {
      var rs, s1 := StepRecords(c, s, ops[0]), M.Step(c, s, ops[0]).0;
      StepFits(c, s, ops[0]);
      StepTracks(c, s, ops[0]);
      Append(records, rs);
      RunTracks(c, s1, records + rs, ops[1..]);
      Regroup(records, rs, RunRecords(c, s1, ops[1..]));
    }
  }

  lemma Regroup(x: seq<M.RingPtr>, y: seq<M.RingPtr>, z: seq<M.RingPtr>)
    ensures x + y + z == x + (y + z)
  {
  }

  function Packets(ps: seq<M.RingPtr>): (r: seq<seq<Octet>>)
    requires AllFit(ps)
    ensures |r| == |ps|
  {
    seq(|ps|, i requires 0 <= i < |ps| => EncodePtr(ps[i]))
  }

  // The record that start-up reads.
  function ReadBack(a: Area, m: seq<Octet>): M.RingPtr
    requires a.Valid(|m|) && a.packetSz == RECORD && Selected(a, m) < a.bufSz
  {
    DecodePtr(SlotAt(a, m, Selected(a, m)))
  }

  // From a reset, which writes the first record, over any run: whatever slots the EEPROM used,
  // start-up reads the queue's last record.
  lemma {:induction false} StartupReadsLastRecord(c: M.Config, cells: seq<bv8>, ops: seq<M.Op>, a: Area, mem: seq<Octet>, k: nat)
    requires c.Valid() && c.Last() <= |cells| && M.OpsOk(c, ops)
    requires a.Valid(|mem|) && a.packetSz == RECORD && Shape(a, mem, k)
    ensures var s := M.ResetState(c, cells);
            var records := [M.ResetPtr(c)] + RunRecords(c, s, ops);
            && AllFit(records) && PacketsOk(a, Packets(records))
            && var m := SaveAll(a, mem, Packets(records));
               Selected(a, m) < a.bufSz && ReadBack(a, m) == M.After(c, s, ops).rom
  {
    var s := M.ResetState(c, cells);
    var records := [M.ResetPtr(c)] + RunRecords(c, s, ops);
    RunTracks(c, s, [M.ResetPtr(c)], ops);
    ReadsLastSaved(a, mem, k, Packets(records));
    RecordRoundTrip(M.After(c, s, ops).rom);
  }

  lemma DecodesToEither(b: seq<Octet>, before: M.RingPtr, p: M.RingPtr)
    requires Fits(before) && Fits(p) && (b == EncodePtr(before) || b == EncodePtr(p))
    ensures DecodePtr(b) == before || DecodePtr(b) == p
  {
    if b == EncodePtr(before) {
      RecordRoundTrip(before);
    } else {
      RecordRoundTrip(p);
    }
  }

  // Power lost while a record is written: start-up finds the old record or the new one, provided
  // that the save does not start a new cycle and an earlier one of the cycle is there.
  lemma CutRecordIsOldOrNew(a: Area, mem: seq<Octet>, k: nat, before: M.RingPtr, p: M.RingPtr, n: nat)
    requires a.Valid(|mem|) && a.packetSz == RECORD && Shape(a, mem, k) && 0 < k < a.bufSz
    requires Fits(before) && Fits(p)
    requires Selected(a, mem) < a.bufSz && SlotAt(a, mem, Selected(a, mem)) == EncodePtr(before)
    requires n <= |SaveWrites(a, mem, EncodePtr(p))|
    ensures Selected(a, Cut(a, mem, EncodePtr(p), n)) < a.bufSz
    ensures ReadBack(a, Cut(a, mem, EncodePtr(p), n)) == before || ReadBack(a, Cut(a, mem, EncodePtr(p), n)) == p
  {
    var data := EncodePtr(p);
    CutIsOldOrNew(a, mem, k, data, n);
    var m := Cut(a, mem, data, n);
    DecodesToEither(SlotAt(a, m, Selected(a, m)), before, p);
  }
}

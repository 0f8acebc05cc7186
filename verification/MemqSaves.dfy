// When the pointers are written to EEPROM: by a timed save after enough queue operations, at
// both ends of the region, at the end of a blob and when the queue gets locked.
module MemqSaves {
  import opened Wrappers
  import opened Arith
  import opened MemqSpec
  import opened MemqFifo
  import opened MemqTheorems
  import opened MemqRestart
  import F = Flash

  // ---------------------------------------------------------------- timed saves

  // Accepted writes and successful reads since the last save that took effect, as a caller would
  // count them who sees whether a write was accepted and a packet returned.
  function TallyStep(c: Config, tally: nat, op: Op, accepted: bool, returned: bool): nat {
    match op
    case Write(_) => if accepted then tally + 1 else tally
    case Read => if returned then tally + 1 else tally
    case Save => if tally % 0x1_0000 >= c.maxPtrEvent then 0 else tally
  }

  function Tally(c: Config, s: State, tally: nat, ops: seq<Op>): nat
    requires Shape(c, s) && OpsOk(c, ops)
    decreases |ops|
  {
    if ops == [] then tally
    else
      var (s1, out) := Step(c, s, ops[0]);
      Tally(c, s1, TallyStep(c, tally, ops[0], !s.ptr.isLock, out.Some?), ops[1..])
  }

  // The same count over the FIFO alone.
  function FifoTally(c: Config, q: Fifo, tally: nat, ops: seq<Op>): nat
    requires c.Valid()
    decreases |ops|
  {
    if ops == [] then tally
    else
      var (q1, out) := FifoStep(c, q, ops[0]);
      FifoTally(c, q1, TallyStep(c, tally, ops[0], Accepts(c, q), out.Some?), ops[1..])
  }

  lemma NextTally(tally: nat)
    ensures (tally % 0x1_0000 + 1) % 0x1_0000 == (tally + 1) % 0x1_0000
  {
    NextMod(tally, 0x1_0000);
    NextMod(tally % 0x1_0000, 0x1_0000);
    SmallMod(tally % 0x1_0000, 0x1_0000);
  }

  lemma StepTallies(c: Config, s: State, tally: nat, op: Op)
    requires Shape(c, s) && OpOk(c, op) && s.events == tally % 0x1_0000
    ensures Step(c, s, op).0.events == TallyStep(c, tally, op, !s.ptr.isLock, Step(c, s, op).1.Some?) % 0x1_0000
  {
    NextTally(tally);
    SmallMod(0, 0x1_0000);
  }

  // A save after any run writes the pointers exactly if the operations counted since the last
  // save that did so, or since the counter was cleared, are at least maxPtrEvent modulo 2^16;
  // and then the count starts afresh.
  lemma {:induction false} SavesExactly(c: Config, s: State, tally: nat, ops: seq<Op>)
    requires Shape(c, s) && OpsOk(c, ops) && s.events == tally % 0x1_0000
    ensures var t, count := After(c, s, ops), Tally(c, s, tally, ops) % 0x1_0000;
            && t.events == count
            && SaveStep(c, t) == if count >= c.maxPtrEvent then State(t.ptr, t.ptr, 0, t.cells) else t
    decreases |ops|
  {
    if ops != [] {
      StepTallies(c, s, tally, ops[0]);
      SavesExactly(c, Step(c, s, ops[0]).0,
                   TallyStep(c, tally, ops[0], !s.ptr.isLock, Step(c, s, ops[0]).1.Some?), ops[1..]);
    }
  }

  lemma StepAgrees(c: Config, s: State, h: History, op: Op)
    requires PtrInv(c, s, h) && OpOk(c, op)
    ensures op.Write? ==> (s.ptr.isLock <==> !Accepts(c, Waiting(h)))
    ensures op.Read? ==> (Step(c, s, op).1.Some? <==> FifoStep(c, Waiting(h), op).1.Some?)
  {
    if op.Write? {
      WritePointers(c, s, h, op.buf);
    }
  }

  lemma {:induction false} TallyOfFifo(c: Config, s: State, h: History, tally: nat, ops: seq<Op>)
    requires PtrInv(c, s, h) && OpsOk(c, ops)
    ensures Tally(c, s, tally, ops) == FifoTally(c, Waiting(h), tally, ops)
    decreases |ops|
  {
    if ops != [] {
      StepAgrees(c, s, h, ops[0]);
      StepKeepsPointers(c, s, h, ops[0]);
      TallyOfFifo(c, Step(c, s, ops[0]).0, HistStep(c, s, h, ops[0]),
                  TallyStep(c, tally, ops[0], !s.ptr.isLock, Step(c, s, ops[0]).1.Some?), ops[1..]);
    }
  }

  // From a reset, the operations counted on the FIFO.
  lemma SavesAfterReset(c: Config, cells: seq<bv8>, ops: seq<Op>)
    requires c.Valid() && c.Last() <= |cells| && OpsOk(c, ops)
    ensures var t := After(c, ResetState(c, cells), ops);
            SaveStep(c, t) == if FifoTally(c, Fifo([], 0), 0, ops) % 0x1_0000 >= c.maxPtrEvent
                              then State(t.ptr, t.ptr, 0, t.cells) else t
  {
    ResetKeeps(c, cells);
    SmallMod(0, 0x1_0000);
    SavesExactly(c, ResetState(c, cells), 0, ops);
    TallyOfFifo(c, ResetState(c, cells), Fresh, 0, ops);
  }

  // Start-up counts from zero as well, whatever the record; after a record that resumes, the
  // operations are those on the FIFO of the packets that the record knew of.
  lemma SavesAfterStart(c: Config, s: State, ops: seq<Op>)
    requires c.Valid() && c.Last() <= |s.cells| && Shape(c, RestartStep(c, s)) && OpsOk(c, ops)
    ensures var t := After(c, RestartStep(c, s), ops);
            SaveStep(c, t) == if Tally(c, RestartStep(c, s), 0, ops) % 0x1_0000 >= c.maxPtrEvent
                              then State(t.ptr, t.ptr, 0, t.cells) else t
    ensures forall h, kept :: Known(c, s, h, kept) && Resumable(s) ==>
              Tally(c, RestartStep(c, s), 0, ops) == FifoTally(c, Waiting(Resumed(h)), 0, ops)
  {
    SmallMod(0, 0x1_0000);
    SavesExactly(c, RestartStep(c, s), 0, ops);
    forall h, kept | Known(c, s, h, kept) && Resumable(s)
      ensures Tally(c, RestartStep(c, s), 0, ops) == FifoTally(c, Waiting(Resumed(h)), 0, ops)
    {
      RestartResumes(c, s, h, kept);
      TallyOfFifo(c, RestartStep(c, s), Resumed(h), 0, ops);
    }
  }

  // ---------------------------------------------------------------- saves between the timed ones

  lemma WriteRecords(c: Config, s: State, h: History, buf: Packet)
    requires PtrInv(c, s, h) && |buf| == c.packetLen && !s.ptr.isLock
    ensures var s1, h1 := WriteStep(c, s, buf), HistWrite(c, s, h, buf);
            && PtrInv(c, s1, h1) && h1.log == h.log + [buf] && h1.read == h.read
            && s1.rom == if |h1.log| % c.totalPacket == 0 || s1.ptr.isLock then s1.ptr else s.rom
  {
    WritePointers(c, s, h, buf);
    WriteAddresses(c, s, h);
    Cursor(c, h);
    SlotOfPacket(c, h, |h.log|);
    NextMod(|h.log|, c.totalPacket);
  }

  lemma ReadRecords(c: Config, s: State, h: History)
    requires PtrInv(c, s, h) && s.ptr.qState == Running
    ensures var s1, h1 := ReadStep(c, s).0, HistRead(c, s, h);
            && PtrInv(c, s1, h1) && h1.log == h.log && h1.read == h.read + 1
            && s1.rom == if Tail(c, h1) == 0 || InBlob(c, h1) == 0 then s1.ptr.(qState := Running) else s.rom
  {
    ReadPointers(c, s, h);
    ReadAddresses(c, s, h);
    NextTail(c, h, HistRead(c, s, h));
    Cursor(c, h);
    SmallMod(0, c.PerBlob());
  }

  // When an operation other than a save writes the record, and what it writes: a write that
  // brings the head back to the start or takes the last free slot writes the pointers it leaves,
  // and a read that comes to the end of a blob or of the region writes them as they are before
  // the queue is marked empty. All other writes and reads leave the record alone.
  lemma RecordWrittenExactly(c: Config, s: State, h: History, op: Op)
    requires PtrInv(c, s, h) && OpOk(c, op) && !op.Save?
    ensures var (s1, q, q1) := (Step(c, s, op).0, Waiting(h), FifoStep(c, Waiting(h), op).0);
            var taken, accepted := q1.taken, q1.taken + |q1.waiting|;
            s1.rom ==
            if q1 == q then s.rom
            else if op.Write? then
              if accepted % c.totalPacket == 0 || !Accepts(c, q1) then s1.ptr else s.rom
            else
              if taken % c.totalPacket == 0 || taken % c.totalPacket % c.PerBlob() == 0
              then s1.ptr.(qState := Running) else s.rom
  {
    StepKeepsPointers(c, s, h, op);
    StepAgrees(c, s, h, op);
    if op.Write? && !s.ptr.isLock {
      WriteRecords(c, s, h, op.buf);
      WritePointers(c, Step(c, s, op).0, HistStep(c, s, h, op), op.buf);
    } else if op.Read? && s.ptr.qState == Running {
      ReadRecords(c, s, h);
    }
  }
}

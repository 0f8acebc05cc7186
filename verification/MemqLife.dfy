// Whole lives of the flash ring queue: any mix of operations and restarts, power loss inside a
// read included. Nothing accepted is skipped.
module MemqLife {
  import opened Wrappers
  import opened MemqSpec
  import opened MemqFifo
  import opened MemqTheorems
  import opened MemqRestart
  import opened MemqCrashes
  import F = Flash

  datatype LifeOp = Work(op: Op) | PowerLoss | CutRead

  // The queue and its history, all packets accepted so far, and the numbers of those that a
  // read returned and of those that were being read when the power went.
  datatype Life = Life(s: State, h: History, kept: nat, sent: seq<Packet>, given: set<nat>, lost: set<nat>)

  // Restarts from the records that resume.
  predicate LifeOpOk(c: Config, s: State, op: LifeOp) {
    match op
    case Work(op) => OpOk(c, op)
    case PowerLoss => Resumable(s)
    case CutRead => Resumable(s)
  }

  ghost predicate LifeInv(c: Config, l: Life) {
    && Known(c, l.s, l.h, l.kept)
    && |l.sent| == |l.h.log|
    && (forall i :: 0 <= i < l.h.read ==> i in l.given || i in l.lost)
    && (forall i :: 0 <= i < |l.sent| ==>
          l.h.log[i] == l.sent[i] || (l.h.log[i] == F.Blank(c.packetLen) && (i in l.given || i in l.lost)))
  }

  function Restarted(c: Config, l: Life): Life
    requires Shape(c, l.s)
  {
    l.(s := RestartStep(c, l.s), h := Resumed(l.h), kept := |l.h.log|)
  }

  ghost function LifeStep(c: Config, l: Life, op: LifeOp): Life
    requires LifeInv(c, l) && LifeOpOk(c, l.s, op)
  {
    match op
    case Work(Write(buf)) =>
      Life(WriteStep(c, l.s, buf), HistWrite(c, l.s, l.h, buf), KeptStep(c, l.s, l.h, l.kept, Write(buf)),
           if l.s.ptr.isLock then l.sent else l.sent + [buf], l.given, l.lost)
    case Work(Read) =>
      var (s1, out) := ReadStep(c, l.s);
      l.(s := s1, h := HistRead(c, l.s, l.h), kept := KeptStep(c, l.s, l.h, l.kept, Read),
         given := if l.h.read < |l.sent| && out == Some(l.sent[l.h.read]) then l.given + {l.h.read} else l.given)
    case Work(Save) =>
      l.(s := SaveStep(c, l.s), h := HistStep(c, l.s, l.h, Save), kept := KeptStep(c, l.s, l.h, l.kept, Save))
    case PowerLoss => Restarted(c, l)
    case CutRead =>
      if Leaves(c, l.s, l.h) then
        l.(s := RestartStep(c, CutErase(c, l.s)), h := Wiped(c, l.h), kept := |l.h.log|, lost := l.lost + Loss(c, l, op))
      else Restarted(c, l)
  }

  // What a step loses: the packet being read at a cut that leaves a blob, unless it was returned
  // or lost before.
  ghost function Loss(c: Config, l: Life, op: LifeOp): set<nat> {
    if op.CutRead? && Leaves(c, l.s, l.h) && l.h.read !in l.given && l.h.read !in l.lost then {l.h.read} else {}
  }

  lemma WriteLives(c: Config, l: Life, buf: Packet)
    requires LifeInv(c, l) && c.SectorsFit() && |buf| == c.packetLen
    ensures LifeInv(c, LifeStep(c, l, Work(Write(buf))))
  {
    StepKeepsRecord(c, l.s, l.h, l.kept, Write(buf));
  }

  // A read returns the next packet, or a blank one in its place only if it was returned before
  // or lost; it returns nothing exactly when all were read.
  lemma ReadLives(c: Config, l: Life)
    requires LifeInv(c, l) && c.SectorsFit()
    ensures LifeInv(c, LifeStep(c, l, Work(Read)))
    ensures var out := ReadStep(c, l.s).1;
            && (out == None <==> l.h.read == |l.sent|)
            && (out.Some? ==>
                  || out.value == l.sent[l.h.read]
                  || (out.value == F.Blank(c.packetLen) && (l.h.read in l.given || l.h.read in l.lost)))
  {
    StepKeepsRecord(c, l.s, l.h, l.kept, Read);
    ReadsNext(c, l.s, l.h);
  }

  lemma ReadsNext(c: Config, s: State, h: History)
    requires Inv(c, s, h) && c.SectorsFit()
    ensures ReadStep(c, s).1 == if h.read < |h.log| then Some(h.log[h.read]) else None
    ensures HistRead(c, s, h).log == h.log && HistRead(c, s, h).read == h.read + if h.read < |h.log| then 1 else 0
  {
    ReadKeeps(c, s, h);
  }

  lemma RestartIsKnown(c: Config, s: State, h: History, kept: nat)
    requires Known(c, s, h, kept) && Resumable(s)
    ensures Known(c, RestartStep(c, s), Resumed(h), |h.log|)
  {
    RestartResumes(c, s, h, kept);
    RestartShape(c, s, h, kept);
    FreshRecord(c, RestartStep(c, s), Resumed(h));
  }

  lemma RestartLives(c: Config, l: Life)
    requires LifeInv(c, l) && c.SectorsFit() && Resumable(l.s)
    ensures LifeInv(c, Restarted(c, l))
  {
    RestartIsKnown(c, l.s, l.h, l.kept);
  }

  lemma CutLives(c: Config, l: Life)
    requires LifeInv(c, l) && c.SectorsFit() && Resumable(l.s) && Leaves(c, l.s, l.h)
    ensures LifeInv(c, LifeStep(c, l, CutRead))
  {
    CutResumes(c, l.s, l.h, l.kept);
    var l1 := LifeStep(c, l, CutRead);
    forall i | 0 <= i < |l1.sent|
      ensures || l1.h.log[i] == l1.sent[i]
              || (l1.h.log[i] == F.Blank(c.packetLen) && (i in l1.given || i in l1.lost))
    {
      WipedPacket(c, l.h, i);
    }
  }

  lemma StepLives(c: Config, l: Life, op: LifeOp)
    requires LifeInv(c, l) && c.SectorsFit() && LifeOpOk(c, l.s, op)
    ensures LifeInv(c, LifeStep(c, l, op))
  {
    match op
    case Work(Write(buf)) => WriteLives(c, l, buf);
    case Work(Read) => ReadLives(c, l);
    case Work(Save) => StepKeepsRecord(c, l.s, l.h, l.kept, Save);
    case PowerLoss => RestartLives(c, l);
    case CutRead => if Leaves(c, l.s, l.h) { CutLives(c, l); } else { RestartLives(c, l); }
  }

  // ---------------------------------------------------------------- runs

  // Lives whose restarts all find a record that resumes.
  ghost predicate Lives(c: Config, l: Life, ops: seq<LifeOp>)
    requires LifeInv(c, l) && c.SectorsFit()
    decreases |ops|
  {
    ops == [] || (LifeOpOk(c, l.s, ops[0]) &&
                  (StepLives(c, l, ops[0]); Lives(c, LifeStep(c, l, ops[0]), ops[1..])))
  }

  ghost function LifeAfter(c: Config, l: Life, ops: seq<LifeOp>): (r: Life)
    requires LifeInv(c, l) && c.SectorsFit() && Lives(c, l, ops)
    ensures LifeInv(c, r)
    decreases |ops|
  {
    if ops == [] then l
    else
      StepLives(c, l, ops[0]);
      LifeAfter(c, LifeStep(c, l, ops[0]), ops[1..])
  }

  ghost function NewLife(c: Config, cells: seq<bv8>): (l: Life)
    requires c.Valid() && c.Last() <= |cells|
    ensures LifeInv(c, l)
  {
    ResetIsKnown(c, cells);
    Life(ResetState(c, cells), Fresh, 0, [], {}, {})
  }

  lemma StepLoses(c: Config, l: Life, op: LifeOp)
    requires LifeInv(c, l) && LifeOpOk(c, l.s, op)
    ensures LifeStep(c, l, op).lost == l.lost + Loss(c, l, op)
    ensures Loss(c, l, op) !! l.lost
  {
  }

  // No step of the life loses a packet.
  ghost predicate Lossless(c: Config, l: Life, ops: seq<LifeOp>)
    requires LifeInv(c, l) && c.SectorsFit() && Lives(c, l, ops)
    decreases |ops|
  {
    ops == [] || (Loss(c, l, ops[0]) == {}
                  && (StepLives(c, l, ops[0]); Lossless(c, LifeStep(c, l, ops[0]), ops[1..])))
  }

  lemma {:induction false} LostExactly(c: Config, l: Life, ops: seq<LifeOp>)
    requires LifeInv(c, l) && c.SectorsFit() && Lives(c, l, ops)
    ensures l.lost <= LifeAfter(c, l, ops).lost
    ensures LifeAfter(c, l, ops).lost == l.lost <==> Lossless(c, l, ops)
    decreases |ops|
  {
    if ops != [] {
      StepLives(c, l, ops[0]);
      StepLoses(c, l, ops[0]);
      LostExactly(c, LifeStep(c, l, ops[0]), ops[1..]);
      if i :| i in Loss(c, l, ops[0]) {
        assert i in LifeAfter(c, l, ops).lost && i !in l.lost;
      }
    }
  }

  // At-least-once reading: after any life from a reset, every packet that the tail has passed
  // was returned by some read or is lost; what is still queued are the packets accepted, or
  // blanks in the place of such packets. A life loses none exactly if no power cut inside a read
  // leaves a blob with a packet that was never returned.
  lemma {:induction false} AtLeastOnce(c: Config, cells: seq<bv8>, ops: seq<LifeOp>)
    requires c.Valid() && c.SectorsFit() && c.Last() <= |cells|
    requires Lives(c, NewLife(c, cells), ops)
    ensures var l := LifeAfter(c, NewLife(c, cells), ops);
            && l.h.read <= |l.sent|
            && (forall i :: 0 <= i < l.h.read ==> i in l.given || i in l.lost)
            && (forall i :: l.h.read <= i < |l.sent| ==>
                  l.h.log[i] == l.sent[i] || (l.h.log[i] == F.Blank(c.packetLen) && (i in l.given || i in l.lost)))
            && (l.lost == {} <==> Lossless(c, NewLife(c, cells), ops))
            && (CutRead !in ops ==> l.h.log == l.sent)
  {
    LostExactly(c, NewLife(c, cells), ops);
    if CutRead !in ops {
      Faithful(c, NewLife(c, cells), ops);
    }
  }

  // Without a cut inside a read the queue never holds anything but accepted packets.
  lemma {:induction false} Faithful(c: Config, l: Life, ops: seq<LifeOp>)
    requires LifeInv(c, l) && c.SectorsFit() && Lives(c, l, ops) && CutRead !in ops && l.h.log == l.sent
    ensures LifeAfter(c, l, ops).h.log == LifeAfter(c, l, ops).sent
    decreases |ops|
  {
    if ops != [] {
      StepLives(c, l, ops[0]);
      assert ops[0] != CutRead && CutRead !in ops[1..];
      Faithful(c, LifeStep(c, l, ops[0]), ops[1..]);
    }
  }
}

// What the wear-levelled EEPROM promises: the last packet saved is the one read, writes are
// spread evenly over the slots, and a save cut short leaves the old packet or the new one.
module RingEepromTheorems {
  import opened LittleEndian
  import opened Arith
  import opened RingEepromSpec

  // The first k status bytes are nonzero and the others are zero.
  ghost predicate Shape(a: Area, mem: seq<Octet>, k: nat)
    requires a.Valid(|mem|)
  {
    && k <= a.bufSz
    && (forall x :: a.init <= x < a.init + k ==> mem[x] != 0)
    && (forall x :: a.init + k <= x < a.init + a.bufSz ==> mem[x] == 0)
  }

  lemma {:induction false} ScanOfShape(a: Area, mem: seq<Octet>, k: nat, i: nat)
    requires a.Valid(|mem|) && Shape(a, mem, k) && i <= k
    ensures ScanFrom(a, mem, i) == k + 1
    decreases k - i
  {
    if i < k {
      ScanOfShape(a, mem, k, i + 1);
    }
  }

  // On any memory the scan stops behind the first status byte that is zero, or behind all of them.
  lemma {:induction false} ScanFindsFirstZero(a: Area, mem: seq<Octet>, i: nat)
    requires a.Valid(|mem|) && i <= a.bufSz
    ensures var r := ScanFrom(a, mem, i);
            && i < r <= a.bufSz + 1
            && (forall x :: a.init + i <= x < a.init + r - 1 ==> mem[x] != 0)
            && (r <= a.bufSz ==> mem[a.init + r - 1] == 0)
    decreases a.bufSz - i
  {
    if mem[a.init + i] != 0 && i + 1 <= a.bufSz {
      ScanFindsFirstZero(a, mem, i + 1);
    }
  }

  lemma {:induction false} ApplyConcat(mem: seq<Octet>, u: seq<ByteWrite>, v: seq<ByteWrite>)
    requires forall i :: 0 <= i < |u + v| ==> (u + v)[i].addr < |mem|
    ensures forall i :: 0 <= i < |u| ==> u[i].addr < |mem|
    ensures forall i :: 0 <= i < |v| ==> v[i].addr < |mem|
    ensures Apply(mem, u + v) == Apply(Apply(mem, u), v)
    decreases |v|
  {
    assert forall i :: 0 <= i < |u| ==> u[i] == (u + v)[i];
    assert forall i :: 0 <= i < |v| ==> v[i] == (u + v)[|u| + i];
    if v == [] {
      assert u + v == u;
    } else {
      var v' := v[..|v| - 1];
      assert (u + v)[..|u + v| - 1] == u + v';
      ApplyConcat(mem, u, v');
    }
  }

  // A row of writes to neighbouring addresses, cut after p of them.
  lemma {:induction false} ApplyRow(mem: seq<Octet>, ws: seq<ByteWrite>, first: nat, p: nat)
    requires p <= |ws| && first + |ws| <= |mem|
    requires forall i :: 0 <= i < |ws| ==> ws[i].addr == first + i
    ensures forall x :: 0 <= x < |mem| ==>
              Apply(mem, ws[..p])[x] == if first <= x < first + p then ws[x - first].value else mem[x]
    decreases p
  {
    if p > 0 {
      ApplyRow(mem, ws, first, p - 1);
      assert ws[..p][..p - 1] == ws[..p - 1];
    }
  }

  // ---------------------------------------------------------------- one whole save

  // The status bytes that a save starts from.
  function Cleared(a: Area, mem: seq<Octet>): seq<Octet>
    requires a.Valid(|mem|)
  {
    if StatusPtr(a, mem) > a.bufSz then
      seq(|mem|, x requires 0 <= x < |mem| => if a.init <= x < a.init + a.bufSz then 0 else mem[x])
    else mem
  }

  lemma ClearPart(a: Area, mem: seq<Octet>)
    requires a.Valid(|mem|)
    ensures forall i :: 0 <= i < |ClearWrites(a)| ==> ClearWrites(a)[i].addr < |mem|
    ensures StatusPtr(a, mem) > a.bufSz ==> Apply(mem, ClearWrites(a)) == Cleared(a, mem)
  {
    ApplyRow(mem, ClearWrites(a), a.init, a.bufSz);
    assert ClearWrites(a)[..a.bufSz] == ClearWrites(a);
  }

  lemma SaveParts(a: Area, mem: seq<Octet>, data: seq<Octet>)
    requires a.Valid(|mem|) && |data| == a.packetSz
    ensures var m, index := Cleared(a, mem), Target(a, mem);
            && index < a.bufSz && |m| == |mem|
            && (forall i :: 0 <= i < |data| ==> DataWrites(a, index, data)[i].addr < |mem|)
            && SaveStep(a, mem, data) == Apply(m, DataWrites(a, index, data))[a.init + index := index + 1]
  {
    WritesInside(a, mem, data);
    var index := Target(a, mem);
    var clear := if StatusPtr(a, mem) > a.bufSz then ClearWrites(a) else [];
    var rest := DataWrites(a, index, data) + [ByteWrite(a.init + index, index + 1)];
    SlotInside(a, |mem|, index);
    ClearPart(a, mem);
    assert SaveWrites(a, mem, data) == clear + rest;
    ApplyConcat(mem, clear, rest);
    ApplyConcat(Cleared(a, mem), DataWrites(a, index, data), [ByteWrite(a.init + index, index + 1)]);
    assert [ByteWrite(a.init + index, index + 1)][..0] == [];
  }

  // Where every byte of the memory comes from after a save.
  lemma SaveBytes(a: Area, mem: seq<Octet>, data: seq<Octet>, x: nat)
    requires a.Valid(|mem|) && |data| == a.packetSz && x < |mem|
    ensures var index := Target(a, mem);
            SaveStep(a, mem, data)[x] ==
              if x == a.init + index then index + 1
              else if a.Slot(index) <= x < a.Slot(index) + a.packetSz then data[x - a.Slot(index)]
              else Cleared(a, mem)[x]
  {
    var index := Target(a, mem);
    SaveParts(a, mem, data);
    SlotInside(a, |mem|, index);
    ApplyRow(Cleared(a, mem), DataWrites(a, index, data), a.Slot(index), a.packetSz);
    assert DataWrites(a, index, data)[..a.packetSz] == DataWrites(a, index, data);
  }

  function NextK(a: Area, k: nat): nat {
    if k == a.bufSz then 1 else k + 1
  }

  lemma TargetOfShape(a: Area, mem: seq<Octet>, k: nat)
    requires a.Valid(|mem|) && Shape(a, mem, k)
    ensures Target(a, mem) == if k == a.bufSz then 0 else k
    ensures StatusPtr(a, mem) == k + 1
  {
    ScanOfShape(a, mem, k, 0);
  }

  lemma SaveShape(a: Area, mem: seq<Octet>, k: nat, data: seq<Octet>)
    requires a.Valid(|mem|) && Shape(a, mem, k) && |data| == a.packetSz
    ensures Shape(a, SaveStep(a, mem, data), NextK(a, k))
  {
    TargetOfShape(a, mem, k);
    SlotInside(a, |mem|, Target(a, mem));
    forall x | a.init <= x < a.init + a.bufSz
      ensures SaveStep(a, mem, data)[x] ==
                if x == a.init + Target(a, mem) then Target(a, mem) + 1 else Cleared(a, mem)[x]
    {
      SaveBytes(a, mem, data, x);
    }
  }

  lemma SaveSlot(a: Area, mem: seq<Octet>, data: seq<Octet>)
    requires a.Valid(|mem|) && |data| == a.packetSz
    ensures Target(a, mem) < a.bufSz && SlotAt(a, SaveStep(a, mem, data), Target(a, mem)) == data
  {
    WritesInside(a, mem, data);
    var first := a.Slot(Target(a, mem));
    SlotInside(a, |mem|, Target(a, mem));
    forall x | first <= x < first + a.packetSz
      ensures SaveStep(a, mem, data)[x] == data[x - first]
    {
      SaveBytes(a, mem, data, x);
    }
    RowIs(SaveStep(a, mem, data), first, data);
  }

  lemma RowIs(m: seq<Octet>, first: nat, data: seq<Octet>)
    requires first + |data| <= |m| && forall x :: first <= x < first + |data| ==> m[x] == data[x - first]
    ensures m[first..first + |data|] == data
  {
  }

  // A save keeps the shape of the status bytes and puts the packet where the read looks.
  lemma SaveThenRead(a: Area, mem: seq<Octet>, k: nat, data: seq<Octet>)
    requires a.Valid(|mem|) && Shape(a, mem, k) && |data| == a.packetSz
    ensures var m := SaveStep(a, mem, data);
            && Shape(a, m, NextK(a, k))
            && Selected(a, m) == Target(a, mem) == (if k == a.bufSz then 0 else k)
            && Selected(a, m) < a.bufSz && SlotAt(a, m, Selected(a, m)) == data
  {
    TargetOfShape(a, mem, k);
    SaveShape(a, mem, k, data);
    SelectedOfShape(a, SaveStep(a, mem, data), NextK(a, k));
    SaveSlot(a, mem, data);
  }

  lemma SelectedOfShape(a: Area, mem: seq<Octet>, k: nat)
    requires a.Valid(|mem|) && Shape(a, mem, k) && k > 0
    ensures Selected(a, mem) == k - 1
  {
    TargetOfShape(a, mem, k);
  }

  // Where everything is: status byte i at init + i, slot i behind all status bytes. With the
  // first k status bytes in use a save writes slot k and status byte k, the latter with k + 1; if
  // all are in use it clears them and starts again with slot 0.
  lemma SaveInBytes(a: Area, mem: seq<Octet>, k: nat, data: seq<Octet>, x: nat)
    requires a.Valid(|mem|) && Shape(a, mem, k) && |data| == a.packetSz && x < |mem|
    ensures var j := if k == a.bufSz then 0 else k;
            var slot := a.init + a.bufSz + j * a.packetSz;
            SaveStep(a, mem, data)[x] ==
              if x == a.init + j then j + 1
              else if slot <= x < slot + a.packetSz then data[x - slot]
              else if k == a.bufSz && a.init <= x < a.init + a.bufSz then 0
              else mem[x]
  {
    TargetOfShape(a, mem, k);
    SaveBytes(a, mem, data, x);
  }

  // What a read returns then: slot k - 1.
  lemma ReadInBytes(a: Area, mem: seq<Octet>, k: nat)
    requires a.Valid(|mem|) && Shape(a, mem, k) && k > 0
    ensures var slot := a.init + a.bufSz + (k - 1) * a.packetSz;
            && Selected(a, mem) < a.bufSz && 0 <= slot && slot + a.packetSz <= |mem|
            && SlotAt(a, mem, Selected(a, mem)) == mem[slot..slot + a.packetSz]
  {
    SelectedOfShape(a, mem, k);
    SlotInside(a, |mem|, k - 1);
    assert a.Slot(k - 1) == a.init + a.bufSz + (k - 1) * a.packetSz;
  }

  // It changes no other slot and nothing outside the area.
  lemma SaveKeepsOthers(a: Area, mem: seq<Octet>, data: seq<Octet>, x: nat)
    requires a.Valid(|mem|) && |data| == a.packetSz && x < |mem|
    requires !(a.init <= x < a.init + a.bufSz)
    requires !(a.Slot(Target(a, mem)) <= x < a.Slot(Target(a, mem)) + a.packetSz)
    ensures SaveStep(a, mem, data)[x] == mem[x]
  {
    SaveBytes(a, mem, data, x);
    WritesInside(a, mem, data);
  }

  // ---------------------------------------------------------------- runs of saves

  predicate PacketsOk(a: Area, packets: seq<seq<Octet>>) {
    forall i :: 0 <= i < |packets| ==> |packets[i]| == a.packetSz
  }

  function SaveAll(a: Area, mem: seq<Octet>, packets: seq<seq<Octet>>): (r: seq<Octet>)
    requires a.Valid(|mem|) && PacketsOk(a, packets)
    ensures |r| == |mem|
    decreases |packets|
  {
    if packets == [] then mem else SaveAll(a, SaveStep(a, mem, packets[0]), packets[1..])
  }

  // How many of the saves write slot j.
  function Wear(a: Area, mem: seq<Octet>, packets: seq<seq<Octet>>, j: nat): nat
    requires a.Valid(|mem|) && PacketsOk(a, packets)
    decreases |packets|
  {
    if packets == [] then 0
    else (if Target(a, mem) == j then 1 else 0) + Wear(a, SaveStep(a, mem, packets[0]), packets[1..], j)
  }

  // After any number of saves, from any well-shaped start, the read returns the last packet.
  lemma {:induction false} ReadsLastSaved(a: Area, mem: seq<Octet>, k: nat, packets: seq<seq<Octet>>)
    requires a.Valid(|mem|) && Shape(a, mem, k) && PacketsOk(a, packets) && packets != []
    ensures var m := SaveAll(a, mem, packets);
            Selected(a, m) < a.bufSz && SlotAt(a, m, Selected(a, m)) == packets[|packets| - 1]
    decreases |packets|
  {
    SaveThenRead(a, mem, k, packets[0]);
    if |packets| > 1 {
      ReadsLastSaved(a, SaveStep(a, mem, packets[0]), NextK(a, k), packets[1..]);
    } else {
      assert SaveAll(a, SaveStep(a, mem, packets[0]), packets[1..]) == SaveStep(a, mem, packets[0]);
    }
  }

  // saves until slot j is next, from a state whose next slot is c
  function Distance(a: Area, c: nat, j: nat): nat
    requires c < a.bufSz && j < a.bufSz
  {
    if j >= c then j - c else j + a.bufSz - c
  }

  // the slot that is next when the first k status bytes are in use
  function Turn(a: Area, k: nat): nat {
    if k == a.bufSz then 0 else k
  }

  // writes that slot j gets in n saves
  function Share(a: Area, n: nat, k: nat, j: nat): nat
    requires 0 < a.bufSz && k <= a.bufSz && j < a.bufSz
  {
    (n + a.bufSz - 1 - Distance(a, Turn(a, k), j)) / a.bufSz
  }

  // The exact wear of a slot: one write in every bufSz saves, starting when its turn comes.
  lemma {:induction false} WearIsEven(a: Area, mem: seq<Octet>, k: nat, packets: seq<seq<Octet>>, j: nat)
    requires a.Valid(|mem|) && Shape(a, mem, k) && PacketsOk(a, packets) && j < a.bufSz
    ensures Wear(a, mem, packets, j) == Share(a, |packets|, k, j)
    decreases |packets|
  {
    if packets == [] {
      NoShare(a, k, j);
    } else {
      SaveThenRead(a, mem, k, packets[0]);
      WearIsEven(a, SaveStep(a, mem, packets[0]), NextK(a, k), packets[1..], j);
      NextShare(a, |packets|, k, j);
    }
  }

  lemma NoShare(a: Area, k: nat, j: nat)
    requires 0 < a.bufSz && k <= a.bufSz && j < a.bufSz
    ensures Share(a, 0, k, j) == 0
  {
    SmallMod(a.bufSz - 1 - Distance(a, Turn(a, k), j), a.bufSz);
  }

  lemma NextShare(a: Area, n: nat, k: nat, j: nat)
    requires 0 < a.bufSz && k <= a.bufSz && j < a.bufSz && n > 0
    ensures Share(a, n, k, j) == (if Turn(a, k) == j then 1 else 0) + Share(a, n - 1, NextK(a, k), j)
  {
    AddModulus(n - 1, a.bufSz);
  }

  // In any n saves each slot is written between floor(n / bufSz) and ceil(n / bufSz) times.
  lemma WearBound(a: Area, mem: seq<Octet>, k: nat, packets: seq<seq<Octet>>, j: nat)
    requires a.Valid(|mem|) && Shape(a, mem, k) && PacketsOk(a, packets) && j < a.bufSz
    ensures |packets| / a.bufSz <= Wear(a, mem, packets, j) <= (|packets| + a.bufSz - 1) / a.bufSz
  {
    WearIsEven(a, mem, k, packets, j);
    var d := Distance(a, Turn(a, k), j);
    DivMono(|packets|, |packets| + a.bufSz - 1 - d, a.bufSz);
    DivMono(|packets| + a.bufSz - 1 - d, |packets| + a.bufSz - 1, a.bufSz);
  }

  // ---------------------------------------------------------------- a save cut short

  // Memory after the first p byte writes of a save.
  function Cut(a: Area, mem: seq<Octet>, data: seq<Octet>, p: nat): (r: seq<Octet>)
    requires a.Valid(|mem|) && |data| == a.packetSz && p <= |SaveWrites(a, mem, data)|
    ensures |r| == |mem|
  {
    WritesInside(a, mem, data);
    Apply(mem, SaveWrites(a, mem, data)[..p])
  }

  // The read finds a complete packet: the one from before the save, or the one being saved.
  ghost predicate OldOrNew(a: Area, mem: seq<Octet>, data: seq<Octet>, m: seq<Octet>)
    requires a.Valid(|mem|) && |m| == |mem|
  {
    Selected(a, m) < a.bufSz &&
    (|| (Selected(a, m) == Selected(a, mem) && SlotAt(a, m, Selected(a, m)) == SlotAt(a, mem, Selected(a, mem)))
     || SlotAt(a, m, Selected(a, m)) == data)
  }

  // Without a clearing, nothing that the read looks at changes before the last byte write.
  lemma CutBytes(a: Area, mem: seq<Octet>, k: nat, data: seq<Octet>, p: nat)
    requires a.Valid(|mem|) && Shape(a, mem, k) && k < a.bufSz && |data| == a.packetSz && p <= |data|
    ensures p <= |SaveWrites(a, mem, data)|
    ensures forall x :: 0 <= x < |mem| && !(a.Slot(k) <= x < a.Slot(k) + a.packetSz) ==> Cut(a, mem, data, p)[x] == mem[x]
  {
    TargetOfShape(a, mem, k);
    WritesInside(a, mem, data);
    SlotInside(a, |mem|, k);
    ApplyRow(mem, DataWrites(a, k, data), a.Slot(k), p);
    assert SaveWrites(a, mem, data)[..p] == DataWrites(a, k, data)[..p];
  }

  lemma CutKeepsOld(a: Area, mem: seq<Octet>, k: nat, data: seq<Octet>, p: nat)
    requires a.Valid(|mem|) && Shape(a, mem, k) && 0 < k < a.bufSz && |data| == a.packetSz && p <= |data|
    ensures p <= |SaveWrites(a, mem, data)|
    ensures Shape(a, Cut(a, mem, data, p), k)
    ensures SlotAt(a, Cut(a, mem, data, p), k - 1) == SlotAt(a, mem, k - 1)
  {
    CutBytes(a, mem, k, data, p);
    SlotInside(a, |mem|, k);
    SlotInside(a, |mem|, k - 1);
    SlotsApart(a, k, k - 1);
    RowIs(Cut(a, mem, data, p), a.Slot(k - 1), SlotAt(a, mem, k - 1));
  }

  // The first byte write of a save that clears leaves no slot selected.
  lemma CutAfterOneClear(a: Area, mem: seq<Octet>, data: seq<Octet>)
    requires a.Valid(|mem|) && Shape(a, mem, a.bufSz) && |data| == a.packetSz
    ensures |SaveWrites(a, mem, data)| > 1 && Selected(a, Cut(a, mem, data, 1)) == 255
  {
    ScanOfShape(a, mem, a.bufSz, 0);
    WritesInside(a, mem, data);
    var w := SaveWrites(a, mem, data)[..1];
    assert w == [ByteWrite(a.init, 0)] && w[..0] == [];
    assert Cut(a, mem, data, 1)[a.init] == 0;
  }

  lemma CutIsOldOrNew(a: Area, mem: seq<Octet>, k: nat, data: seq<Octet>, p: nat)
    requires a.Valid(|mem|) && Shape(a, mem, k) && 0 < k < a.bufSz && |data| == a.packetSz
    requires p <= |SaveWrites(a, mem, data)|
    ensures OldOrNew(a, mem, data, Cut(a, mem, data, p))
  {
    if p <= |data| {
      CutKeepsOld(a, mem, k, data, p);
      SelectedOfShape(a, mem, k);
      SelectedOfShape(a, Cut(a, mem, data, p), k);
    } else {
      WholeCut(a, mem, k, data, p);
      SaveThenRead(a, mem, k, data);
    }
  }

  lemma WholeCut(a: Area, mem: seq<Octet>, k: nat, data: seq<Octet>, p: nat)
    requires a.Valid(|mem|) && Shape(a, mem, k) && k < a.bufSz && |data| == a.packetSz
    requires |data| < p <= |SaveWrites(a, mem, data)|
    ensures Cut(a, mem, data, p) == SaveStep(a, mem, data)
  {
    TargetOfShape(a, mem, k);
    assert SaveWrites(a, mem, data)[..p] == SaveWrites(a, mem, data);
  }

  // With no slot in use there is nothing to fall back on, and a save that clears gives up the
  // old packet with its first byte write.
  lemma SomeCutIsNeither(a: Area, mem: seq<Octet>, k: nat, data: seq<Octet>) returns (p: nat)
    requires a.Valid(|mem|) && Shape(a, mem, k) && (k == 0 || k == a.bufSz) && |data| == a.packetSz
    ensures p <= |SaveWrites(a, mem, data)| && !OldOrNew(a, mem, data, Cut(a, mem, data, p))
  {
    if k == 0 {
      p := 0;
      TargetOfShape(a, mem, k);
      assert SaveWrites(a, mem, data)[..0] == [];
    } else {
      p := 1;
      CutAfterOneClear(a, mem, data);
    }
  }

  // A save survives power loss after any of its byte writes exactly when it does not start a
  // new cycle and an earlier save of this cycle is there to fall back on.
  lemma AtomicExactly(a: Area, mem: seq<Octet>, k: nat, data: seq<Octet>)
    requires a.Valid(|mem|) && Shape(a, mem, k) && |data| == a.packetSz
    ensures (forall p :: 0 <= p <= |SaveWrites(a, mem, data)| ==> OldOrNew(a, mem, data, Cut(a, mem, data, p)))
            <==> 0 < k < a.bufSz
  {
    if 0 < k < a.bufSz {
      forall p | 0 <= p <= |SaveWrites(a, mem, data)|
        ensures OldOrNew(a, mem, data, Cut(a, mem, data, p))
      {
        CutIsOldOrNew(a, mem, k, data, p);
      }
    } else {
      var p := SomeCutIsNeither(a, mem, k, data);
    }
  }
}

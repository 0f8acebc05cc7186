// The wear-levelled EEPROM as the driver updates it, byte by byte.
module RingEeprom {
  import opened LittleEndian
  import opened Arith
  import opened RingEepromSpec
  import opened RingEepromTheorems

  // ---------------------------------------------------------------- cells that may fail

  // addition of 8-bit unsigned integers
  function Add(x: Octet, y: Octet): Octet {
    if x + y < 256 then x + y else x + y - 256
  }

  function ByteSum(bytes: seq<Octet>): Octet
    decreases |bytes|
  {
    if bytes == [] then 0 else Add(ByteSum(bytes[..|bytes| - 1]), bytes[|bytes| - 1])
  }

  lemma SumNext(bytes: seq<Octet>, i: nat, sum: Octet)
    requires i < |bytes|
    ensures Add(sum, ByteSum(bytes[..i + 1])) == Add(Add(sum, ByteSum(bytes[..i])), bytes[i])
  {
    assert bytes[..i + 1][..i] == bytes[..i];
  }

  function Total(bytes: seq<Octet>): nat
    decreases |bytes|
  {
    if bytes == [] then 0 else Total(bytes[..|bytes| - 1]) + bytes[|bytes| - 1]
  }

  lemma AddIsMod(x: Octet, y: Octet)
    ensures Add(x, y) == (x + y) % 256
  {
    DivModUnique(x + y, 256, if x + y < 256 then 0 else 1, Add(x, y));
  }

  lemma ModSum(a: int, b: int)
    ensures (a % 256 + b) % 256 == (a + b) % 256
    ensures (a % 256 + b % 256) % 256 == (a + b) % 256
  {
    AddMultiple(a % 256 + b, a / 256, 256);
    AddMultiple(a % 256 + b % 256, a / 256 + b / 256, 256);
  }

  // The 8-bit sum is the sum of the bytes modulo 256.
  lemma {:induction false} SumIsTotal(bytes: seq<Octet>)
    ensures ByteSum(bytes) == Total(bytes) % 256
    decreases |bytes|
  {
    if bytes != [] {
      var most, last := bytes[..|bytes| - 1], bytes[|bytes| - 1];
      SumIsTotal(most);
      AddIsMod(ByteSum(most), last);
      ModSum(Total(most), last);
    }
  }

  lemma {:induction false} TotalOfChange(bytes: seq<Octet>, i: nat, b: Octet)
    requires i < |bytes|
    ensures Total(bytes[i := b]) == Total(bytes) - bytes[i] + b
    decreases |bytes|
  {
    var n := |bytes| - 1;
    if i < n {
      assert bytes[i := b][..n] == bytes[..n][i := b];
      TotalOfChange(bytes[..n], i, b);
    } else {
      assert bytes[i := b][..n] == bytes[..n];
    }
  }

  // A cell that already holds the value is not written; one that is written ends up with kept.
  function SetCell(mem: seq<Octet>, addr: nat, value: Octet, kept: Octet): (r: seq<Octet>)
    requires addr < |mem|
    ensures |r| == |mem|
  {
    mem[addr := if mem[addr] == value then value else kept]
  }

  // What one pass over a slot leaves: a cell that holds its value is not written; one that is
  // written may end up holding something else.
  function Pass(cells: seq<Octet>, data: seq<Octet>, kept: seq<Octet>): (r: seq<Octet>)
    requires |cells| == |data| == |kept|
    ensures |r| == |data|
  {
    seq(|data|, i requires 0 <= i < |data| => if cells[i] == data[i] then data[i] else kept[i])
  }

  // One pass for each element of kept at most, cks being the sum of the bytes copied so far.
  // The sum is not started afresh: after p passes it is p times the sum of the packet. The
  // results are the number of passes and what they leave in the slot.
  function Passes(cells: seq<Octet>, data: seq<Octet>, kept: seq<seq<Octet>>, cks: Octet): (r: (nat, seq<Octet>))
    requires |cells| == |data| && KeptOk(data, kept)
    ensures 0 < r.0 <= |kept| && |r.1| == |data|
    decreases |kept|
  {
    var left := Pass(cells, data, kept[0]);
    var sum := Add(cks, ByteSum(data));
    if |kept| == 1 || ByteSum(left) == sum then (1, left)
    else
      var (n, last) := Passes(left, data, kept[1..], sum);
      (n + 1, last)
  }

  // kept[p] is what cells written in pass p end up holding
  predicate KeptOk(data: seq<Octet>, kept: seq<seq<Octet>>) {
    kept != [] && forall p :: 0 <= p < |kept| ==> |kept[p]| == |data|
  }

  // A cell is right in the end exactly when it was right before or took its value in one of
  // the passes that were made: a further pass never spoils it.
  lemma {:induction false} RetriesOnlyRepair(cells: seq<Octet>, data: seq<Octet>, kept: seq<seq<Octet>>, cks: Octet, i: nat)
    requires |cells| == |data| && KeptOk(data, kept) && i < |data|
    ensures var (n, left) := Passes(cells, data, kept, cks);
            left[i] == data[i] <==> cells[i] == data[i] || exists p :: 0 <= p < n && kept[p][i] == data[i]
    decreases |kept|
  {
    var left := Pass(cells, data, kept[0]);
    var (n, last) := Passes(cells, data, kept, cks);
    if n > 1 {
      var sum := Add(cks, ByteSum(data));
      RetriesOnlyRepair(left, data, kept[1..], sum, i);
      assert forall p :: 0 <= p < n - 1 ==> kept[1..][p] == kept[p + 1];
      assert (exists p :: 0 <= p < n - 1 && kept[1..][p][i] == data[i]) <==> exists p :: 1 <= p < n && kept[p][i] == data[i] by {
        if p :| 1 <= p < n && kept[p][i] == data[i] {
          assert kept[1..][p - 1][i] == data[i];
        }
      }
    }
  }

  // Cells that all take their value need one pass.
  lemma SoundCells(cells: seq<Octet>, data: seq<Octet>, kept: seq<seq<Octet>>)
    requires |cells| == |data| && KeptOk(data, kept) && kept[0] == data
    ensures Passes(cells, data, kept, 0) == (1, data)
  {
    assert Pass(cells, data, kept[0]) == data;
  }

  // What p passes leave.
  function LeftAfter(cells: seq<Octet>, data: seq<Octet>, kept: seq<seq<Octet>>, p: nat): (r: seq<Octet>)
    requires |cells| == |data| && KeptOk(data, kept) && p <= |kept|
    ensures |r| == |data|
  {
    if p == 0 then cells else Pass(LeftAfter(cells, data, kept, p - 1), data, kept[p - 1])
  }

  // Pass number p, of as many as kept has elements, is the last one exactly if the bytes then in
  // the slot add up to p times the bytes of the packet, modulo 256.
  predicate Matches(left: seq<Octet>, data: seq<Octet>, p: nat) {
    Total(left) % 256 == p * Total(data) % 256
  }

  lemma TimesTotal(p: nat, t: nat)
    ensures Add(p * t % 256, t % 256) == (p + 1) * t % 256
  {
    AddIsMod(p * t % 256, t % 256);
    ModSum(p * t, t);
    MulSum(p, 1, t);
  }

  lemma LeftAfterNext(cells: seq<Octet>, data: seq<Octet>, kept: seq<seq<Octet>>, p: nat)
    requires |cells| == |data| && KeptOk(data, kept) && p < |kept| && KeptOk(data, kept[1..])
    ensures LeftAfter(Pass(cells, data, kept[0]), data, kept[1..], p) == LeftAfter(cells, data, kept, p + 1)
  {
    if p > 0 {
      LeftAfterNext(cells, data, kept, p - 1);
    }
  }

  // Modulo 256: p times the bytes of the packet.
  function SumAfter(data: seq<Octet>, p: nat): (cks: Octet) {
    p * Total(data) % 256
  }

  lemma FirstMatches(cells: seq<Octet>, data: seq<Octet>, kept: seq<seq<Octet>>, made: nat)
    requires |cells| == |data| && KeptOk(data, kept)
    ensures Add(SumAfter(data, made), ByteSum(data)) == SumAfter(data, made + 1)
    ensures ByteSum(Pass(cells, data, kept[0])) == SumAfter(data, made + 1) <==>
            Matches(Pass(cells, data, kept[0]), data, made + 1)
  {
    SumIsTotal(data);
    SumIsTotal(Pass(cells, data, kept[0]));
    TimesTotal(made, Total(data));
  }

  // No pass before number n matches, when made passes were made before the first of these.
  ghost predicate NoneBefore(cells: seq<Octet>, data: seq<Octet>, kept: seq<seq<Octet>>, made: nat, n: nat)
    requires |cells| == |data| && KeptOk(data, kept) && n <= |kept|
  {
    forall p :: 1 <= p < n ==> !Matches(LeftAfter(cells, data, kept, p), data, made + p)
  }

  lemma NoneBeforeNext(cells: seq<Octet>, data: seq<Octet>, kept: seq<seq<Octet>>, made: nat, n: nat)
    requires |cells| == |data| && KeptOk(data, kept) && n < |kept| && KeptOk(data, kept[1..])
    requires !Matches(Pass(cells, data, kept[0]), data, made + 1)
    requires NoneBefore(Pass(cells, data, kept[0]), data, kept[1..], made + 1, n)
    ensures NoneBefore(cells, data, kept, made, n + 1)
  {
    var left := Pass(cells, data, kept[0]);
    forall p | 1 <= p < n + 1
      ensures !Matches(LeftAfter(cells, data, kept, p), data, made + p)
    {
      LeftAfterNext(cells, data, kept, p - 1);
      if p > 1 {
        assert !Matches(LeftAfter(left, data, kept[1..], p - 1), data, made + 1 + (p - 1));
      }
    }
  }

  lemma {:induction false} PassesFrom(cells: seq<Octet>, data: seq<Octet>, kept: seq<seq<Octet>>, made: nat)
    requires |cells| == |data| && KeptOk(data, kept)
    ensures var (n, left) := Passes(cells, data, kept, SumAfter(data, made));
            && left == LeftAfter(cells, data, kept, n)
            && (n < |kept| ==> Matches(left, data, made + n))
            && NoneBefore(cells, data, kept, made, n)
    decreases |kept|
  {
    var left, cks := Pass(cells, data, kept[0]), SumAfter(data, made);
    FirstMatches(cells, data, kept, made);
    assert LeftAfter(cells, data, kept, 0) == cells && LeftAfter(cells, data, kept, 1) == left;
    if |kept| > 1 && !Matches(left, data, made + 1) {
      PassesGoOn(cells, data, kept, cks);
      PassesFrom(left, data, kept[1..], made + 1);
      var n := Passes(left, data, kept[1..], SumAfter(data, made + 1)).0;
      LeftAfterNext(cells, data, kept, n);
      NoneBeforeNext(cells, data, kept, made, n);
    }
  }

  lemma NothingKept(data: seq<Octet>)
    ensures SumAfter(data, 0) == 0
  {
    SmallMod(0, 256);
  }

  // The number of passes of a save, and what they leave: the passes end with the first that
  // matches, or with the last one.
  lemma PassesExactly(cells: seq<Octet>, data: seq<Octet>, kept: seq<seq<Octet>>)
    requires |cells| == |data| && KeptOk(data, kept)
    ensures var (n, left) := Passes(cells, data, kept, 0);
            && left == LeftAfter(cells, data, kept, n)
            && (n < |kept| ==> Matches(left, data, n))
            && NoneBefore(cells, data, kept, 0, n)
  {
    NothingKept(data);
    PassesFrom(cells, data, kept, 0);
  }

  // With one byte wrong a pass is followed by another one, while there are any left, unless the
  // error is the sum that was kept from the passes before it.
  lemma OneWrongByte(cells: seq<Octet>, data: seq<Octet>, kept: seq<seq<Octet>>, cks: Octet, i: nat)
    requires |cells| == |data| && KeptOk(data, kept) && |kept| > 1 && i < |data|
    requires forall j :: 0 <= j < |data| ==> (Pass(cells, data, kept[0])[j] == data[j] <==> j != i)
    ensures Passes(cells, data, kept, cks).0 > 1 <==> (Pass(cells, data, kept[0])[i] as int - data[i]) % 256 != cks
  {
    var left := Pass(cells, data, kept[0]);
    assert left == data[i := left[i]];
    TotalOfChange(data, i, left[i]);
    SumIsTotal(data);
    SumIsTotal(left);
    AddIsMod(cks, ByteSum(data));
    OffBy(Total(data), left[i] as int - data[i], cks);
    if ByteSum(left) == Add(cks, ByteSum(data)) {
      PassesEnd(cells, data, kept, cks);
    } else {
      PassesGoOn(cells, data, kept, cks);
    }
  }

  lemma OffBy(t: nat, e: int, cks: Octet)
    ensures (t + e) % 256 == (cks + t % 256) % 256 <==> e % 256 == cks
  {
    ModSum(t, e);
    ModSum(t, cks);
    var r := t % 256;
    if e % 256 == cks {
      ModSum(e, r);
      assert (t + e) % 256 == (e % 256 + r) % 256;
    } else if (t + e) % 256 == (cks + r) % 256 {
      SameRest(r + e, r + cks);
      SmallMod(cks, 256);
      AddMultiple(cks, (e - cks) / 256, 256);
    }
  }

  // Equal remainders: the difference is a multiple.
  lemma SameRest(a: int, b: int)
    requires a % 256 == b % 256
    ensures (a - b) / 256 * 256 == a - b
  {
    MulSum(a / 256, b / 256, 256);
    ModOfMultipleInt(a / 256 - b / 256);
  }

  lemma ModOfMultipleInt(k: int)
    ensures k * 256 / 256 == k
  {
  }

  // After the first pass of a save nothing is kept yet: a slot with one wrong byte is always
  // tried again.
  lemma FirstPassTriesAgain(cells: seq<Octet>, data: seq<Octet>, kept: seq<seq<Octet>>, i: nat)
    requires |cells| == |data| && KeptOk(data, kept) && |kept| > 1 && i < |data|
    requires forall j :: 0 <= j < |data| ==> (Pass(cells, data, kept[0])[j] == data[j] <==> j != i)
    ensures Passes(cells, data, kept, 0).0 > 1
  {
    var e := Pass(cells, data, kept[0])[i] as int - data[i];
    OneWrongByte(cells, data, kept, 0, i);
    if e > 0 {
      SmallMod(e, 256);
    } else {
      DivModUnique(e, 256, -1, e + 256);
    }
  }

  // A second pass that leaves one wrong byte need not be: 2 in place of 1 is taken for right,
  // since the sum is that of two passes.
  lemma WrongByteTakenForRight(cells: seq<Octet>, last: seq<Octet>)
    requires |cells| == |last| == 1 && cells[0] != 1
    ensures Passes(cells, [1], [[3], [2], last], 0) == (2, [2])
  {
    var data, kept: seq<seq<Octet>> := [1], [[3], [2], last];
    assert Pass(cells, data, kept[0]) == [3] && Pass([3], data, kept[1]) == [2];
    OneByteSum(1);
    OneByteSum(2);
    OneByteSum(3);
    PassesGoOn(cells, data, kept, 0);
    PassesEnd([3], data, kept[1..], 1);
  }

  lemma OneByteSum(b: Octet)
    ensures ByteSum([b]) == b
  {
    assert [b][..0] == [];
  }

  // A second pass that repairs the packet is taken for a failure unless the bytes of the
  // packet add up to a multiple of 256, since its sum is compared with the doubled one.
  lemma {:induction false} RepairIsSeenExactly(cells: seq<Octet>, data: seq<Octet>, kept: seq<seq<Octet>>)
    requires |cells| == |data| && KeptOk(data, kept) && |kept| == 3
    requires Total(Pass(cells, data, kept[0])) % 256 != Total(data) % 256
    requires Pass(Pass(cells, data, kept[0]), data, kept[1]) == data
    ensures Passes(cells, data, kept, 0) == (if Total(data) % 256 == 0 then 2 else 3, data)
  {
    SumIsTotal(Pass(cells, data, kept[0]));
    SumIsTotal(data);
    PassesGoOn(cells, data, kept, 0);
    SecondPass(Pass(cells, data, kept[0]), data, kept[1..]);
  }

  lemma SecondPass(cells: seq<Octet>, data: seq<Octet>, kept: seq<seq<Octet>>)
    requires |cells| == |data| && KeptOk(data, kept) && |kept| == 2
    requires Pass(cells, data, kept[0]) == data
    ensures Passes(cells, data, kept, ByteSum(data)) == (if ByteSum(data) == 0 then 1 else 2, data)
  {
    var sum := ByteSum(data);
    if sum == 0 {
      PassesEnd(cells, data, kept, sum);
    } else {
      SecondAndThird(cells, data, kept, sum);
    }
  }

  lemma SecondAndThird(cells: seq<Octet>, data: seq<Octet>, kept: seq<seq<Octet>>, cks: Octet)
    requires |cells| == |data| && KeptOk(data, kept) && |kept| == 2
    requires Pass(cells, data, kept[0]) == data && ByteSum(data) != Add(cks, ByteSum(data))
    ensures Passes(cells, data, kept, cks) == (2, data)
  {
    PassesGoOn(cells, data, kept, cks);
    LastPass(data, kept[1..], Add(cks, ByteSum(data)));
  }

  lemma PassesEnd(cells: seq<Octet>, data: seq<Octet>, kept: seq<seq<Octet>>, cks: Octet)
    requires |cells| == |data| && KeptOk(data, kept)
    requires ByteSum(Pass(cells, data, kept[0])) == Add(cks, ByteSum(data))
    ensures Passes(cells, data, kept, cks) == (1, Pass(cells, data, kept[0]))
  {
  }

  lemma PassesGoOn(cells: seq<Octet>, data: seq<Octet>, kept: seq<seq<Octet>>, cks: Octet)
    requires |cells| == |data| && KeptOk(data, kept) && |kept| > 1
    requires ByteSum(Pass(cells, data, kept[0])) != Add(cks, ByteSum(data))
    ensures KeptOk(data, kept[1..])
    ensures var (n, last) := Passes(Pass(cells, data, kept[0]), data, kept[1..], Add(cks, ByteSum(data)));
            Passes(cells, data, kept, cks) == (n + 1, last)
  {
  }

  lemma LastPass(data: seq<Octet>, kept: seq<seq<Octet>>, cks: Octet)
    requires KeptOk(data, kept) && |kept| == 1
    ensures Passes(data, data, kept, cks) == (1, data)
  {
    assert Pass(data, data, kept[0]) == data;
  }

  // ---------------------------------------------------------------- rows of bytes

  function Splice(mem: seq<Octet>, at: nat, bytes: seq<Octet>): (r: seq<Octet>)
    requires at + |bytes| <= |mem|
    ensures |r| == |mem|
  {
    mem[..at] + bytes + mem[at + |bytes|..]
  }

  lemma SpliceIsDataWrites(a: Area, mem: seq<Octet>, index: nat, data: seq<Octet>)
    requires a.Slot(index) + |data| <= |mem|
    ensures forall i :: 0 <= i < |data| ==> DataWrites(a, index, data)[i].addr < |mem|
    ensures Apply(mem, DataWrites(a, index, data)) == Splice(mem, a.Slot(index), data)
  {
    RowIsSplice(mem, DataWrites(a, index, data), a.Slot(index), data);
  }

  lemma RowIsSplice(mem: seq<Octet>, ws: seq<ByteWrite>, at: nat, bytes: seq<Octet>)
    requires at + |bytes| <= |mem| && |ws| == |bytes|
    requires forall i :: 0 <= i < |ws| ==> ws[i] == ByteWrite(at + i, bytes[i])
    ensures Apply(mem, ws) == Splice(mem, at, bytes)
  {
    ApplyRow(mem, ws, at, |ws|);
    assert ws[..|ws|] == ws;
    IsSplice(Apply(mem, ws), mem, at, bytes);
  }

  lemma IsSplice(m: seq<Octet>, mem: seq<Octet>, at: nat, bytes: seq<Octet>)
    requires |m| == |mem| && at + |bytes| <= |mem|
    requires forall x :: 0 <= x < |mem| ==> m[x] == if at <= x < at + |bytes| then bytes[x - at] else mem[x]
    ensures m == Splice(mem, at, bytes)
  {
  }

  lemma SpliceAgain(mem: seq<Octet>, at: nat, x: seq<Octet>, y: seq<Octet>)
    requires |x| == |y| && at + |x| <= |mem|
    ensures Splice(Splice(mem, at, x), at, y) == Splice(mem, at, y)
    ensures Splice(mem, at, x)[at..at + |x|] == x
    ensures Splice(mem, at, mem[at..at + |x|]) == mem
  {
  }

  lemma SpliceNext(mem: seq<Octet>, at: nat, row: seq<Octet>, i: nat)
    requires i < |row| && at + |row| <= |mem|
    ensures Splice(mem, at, row[..i])[at + i := row[i]] == Splice(mem, at, row[..i + 1])
    ensures Splice(mem, at, row[..i])[at + i] == mem[at + i]
  {
  }

  // Memory after a save on cells that may fail: that of a save of what the passes leave.
  function Saved(a: Area, mem: seq<Octet>, data: seq<Octet>, kept: seq<seq<Octet>>): (r: seq<Octet>)
    requires a.Valid(|mem|) && |data| == a.packetSz && KeptOk(data, kept)
    ensures |r| == |mem|
  {
    SaveStep(a, mem, Left(a, mem, data, kept))
  }

  // What the passes of a save leave in its slot.
  function Left(a: Area, mem: seq<Octet>, data: seq<Octet>, kept: seq<seq<Octet>>): (r: seq<Octet>)
    requires a.Valid(|mem|) && |data| == a.packetSz && KeptOk(data, kept)
    ensures |r| == a.packetSz
  {
    WritesInside(a, mem, data);
    LeftIn(a, mem, Target(a, mem), data, kept)
  }

  function LeftIn(a: Area, mem: seq<Octet>, index: nat, data: seq<Octet>, kept: seq<seq<Octet>>): (r: seq<Octet>)
    requires a.Valid(|mem|) && index < a.bufSz && |data| == a.packetSz && KeptOk(data, kept)
    ensures |r| == a.packetSz
  {
    SlotInside(a, |mem|, index);
    Passes(SlotAt(a, mem, index), data, kept, 0).1
  }

  lemma SavedParts(a: Area, mem: seq<Octet>, data: seq<Octet>, kept: seq<seq<Octet>>)
    requires a.Valid(|mem|) && |data| == a.packetSz && KeptOk(data, kept)
    ensures var index, m := Target(a, mem), Cleared(a, mem);
            && index < a.bufSz && |m| == |mem| && a.Slot(index) + a.packetSz <= |mem|
            && SlotAt(a, m, index) == m[a.Slot(index)..a.Slot(index) + a.packetSz]
            && Left(a, mem, data, kept) == Passes(SlotAt(a, m, index), data, kept, 0).1
            && Saved(a, mem, data, kept) == Splice(m, a.Slot(index), Left(a, mem, data, kept))[a.init + index := index + 1]
  {
    var index := Target(a, mem);
    WritesInside(a, mem, data);
    SlotInside(a, |mem|, index);
    ClearedSlot(a, mem, index);
    SpliceIsDataWrites(a, Cleared(a, mem), index, Left(a, mem, data, kept));
    SaveParts(a, mem, Left(a, mem, data, kept));
  }

  lemma SoundLeft(a: Area, mem: seq<Octet>, data: seq<Octet>, kept: seq<seq<Octet>>)
    requires a.Valid(|mem|) && |data| == a.packetSz && KeptOk(data, kept) && kept[0] == data
    ensures Left(a, mem, data, kept) == data
  {
    WritesInside(a, mem, data);
    SlotInside(a, |mem|, Target(a, mem));
    SoundCells(SlotAt(a, mem, Target(a, mem)), data, kept);
  }

  // On sound cells that is the save itself.
  lemma SoundSave(a: Area, mem: seq<Octet>, data: seq<Octet>, kept: seq<seq<Octet>>)
    requires a.Valid(|mem|) && |data| == a.packetSz && KeptOk(data, kept) && kept[0] == data
    ensures Saved(a, mem, data, kept) == SaveStep(a, mem, data)
  {
    SoundLeft(a, mem, data, kept);
  }

  // What written cells of a save end up holding: those of the slot in each pass, the status
  // bytes when they are cleared, and the status byte of the slot.
  datatype Faults = Faults(kept: seq<seq<Octet>>, clearKept: seq<Octet>, statusKept: Octet)

  predicate FaultsOk(a: Area, data: seq<Octet>, f: Faults) {
    |data| == a.packetSz && KeptOk(data, f.kept) && |f.kept| == 3 && |f.clearKept| == a.bufSz
  }

  // A save makes one to three passes, and fewer than three only if the last of them matches.
  lemma PassesOfSave(a: Area, cells: seq<Octet>, data: seq<Octet>, f: Faults)
    requires FaultsOk(a, data, f) && |cells| == |data|
    ensures var (n, left) := Passes(cells, data, f.kept, 0);
            && 1 <= n <= 3 && left == LeftAfter(cells, data, f.kept, n)
            && (n < 3 ==> Total(left) % 256 == n * Total(data) % 256)
            && NoneBefore(cells, data, f.kept, 0, n)
  {
    PassesExactly(cells, data, f.kept);
  }

  function Zeros(n: nat): (r: seq<Octet>)
    ensures |r| == n
  {
    seq(n, _ => 0)
  }

  function ClearedOn(a: Area, mem: seq<Octet>, clearKept: seq<Octet>): (r: seq<Octet>)
    requires a.Valid(|mem|) && |clearKept| == a.bufSz
    ensures |r| == |mem|
  {
    if StatusPtr(a, mem) > a.bufSz
    then Splice(mem, a.init, Pass(mem[a.init..a.init + a.bufSz], Zeros(a.bufSz), clearKept))
    else mem
  }

  // Slot and status bytes after a save on cells that may fail, the status bytes included.
  function SavedOn(a: Area, mem: seq<Octet>, data: seq<Octet>, f: Faults): (r: seq<Octet>)
    requires a.Valid(|mem|) && FaultsOk(a, data, f)
    ensures |r| == |mem|
  {
    WritesInside(a, mem, data);
    SlotInside(a, |mem|, Target(a, mem));
    var index, m1 := Target(a, mem), ClearedOn(a, mem, f.clearKept);
    var m2 := Splice(m1, a.Slot(index), LeftIn(a, m1, index, data, f.kept));
    SetCell(m2, a.init + index, index + 1, f.statusKept)
  }

  lemma ZerosClear(a: Area, mem: seq<Octet>)
    requires a.Valid(|mem|)
    ensures |Cleared(a, mem)| == |mem| && ClearedOn(a, mem, Zeros(a.bufSz)) == Cleared(a, mem)
  {
    var row := mem[a.init..a.init + a.bufSz];
    assert Pass(row, Zeros(a.bufSz), Zeros(a.bufSz)) == Zeros(a.bufSz);
    if StatusPtr(a, mem) > a.bufSz {
      IsSplice(Cleared(a, mem), mem, a.init, Zeros(a.bufSz));
    }
  }

  // A row of cells after the passes, and then one more cell.
  function Filled(m: seq<Octet>, at: nat, data: seq<Octet>, kept: seq<seq<Octet>>, addr: nat, status: Octet, statusKept: Octet): (r: seq<Octet>)
    requires at + |data| <= |m| && addr < |m| && KeptOk(data, kept)
    ensures |r| == |m|
  {
    SetCell(Splice(m, at, Passes(m[at..at + |data|], data, kept, 0).1), addr, status, statusKept)
  }

  lemma SavedOnParts(a: Area, mem: seq<Octet>, data: seq<Octet>, f: Faults)
    requires a.Valid(|mem|) && FaultsOk(a, data, f)
    ensures var index := Target(a, mem);
            && index < a.bufSz && a.init + index < a.Slot(index) && a.Slot(index) + a.packetSz <= |mem|
            && SavedOn(a, mem, data, f) == Filled(ClearedOn(a, mem, f.clearKept), a.Slot(index), data, f.kept,
                                                  a.init + index, index + 1, f.statusKept)
  {
    WritesInside(a, mem, data);
    SlotInside(a, |mem|, Target(a, mem));
  }

  // With status bytes that take their values the save is the one above.
  lemma SoundStatus(a: Area, mem: seq<Octet>, data: seq<Octet>, f: Faults)
    requires a.Valid(|mem|) && FaultsOk(a, data, f)
    requires f.clearKept == Zeros(a.bufSz) && f.statusKept == (Target(a, mem) + 1) % 256
    ensures SavedOn(a, mem, data, f) == Saved(a, mem, data, f.kept)
  {
    ZerosClear(a, mem);
    SavedOnParts(a, mem, data, f);
    SavedParts(a, mem, data, f.kept);
  }

  // Inside a cycle a save comes into force exactly if its status byte takes anything but zero;
  // otherwise the old packet is still the one that is read.
  lemma SaveCountsExactly(a: Area, mem: seq<Octet>, k: nat, data: seq<Octet>, f: Faults)
    requires a.Valid(|mem|) && FaultsOk(a, data, f) && Shape(a, mem, k) && 0 < k < a.bufSz
    ensures Selected(a, SavedOn(a, mem, data, f)) == if f.statusKept == 0 then k - 1 else k
    ensures SlotAt(a, SavedOn(a, mem, data, f), k - 1) == SlotAt(a, mem, k - 1)
    ensures SlotAt(a, SavedOn(a, mem, data, f), k) == LeftIn(a, mem, k, data, f.kept)
  {
    SavedRows(a, mem, k, data, f);
    var m := SavedOn(a, mem, data, f);
    if f.statusKept == 0 {
      SelectedOfShape(a, m, k);
    } else {
      SelectedOfShape(a, m, k + 1);
    }
  }

  lemma SavedRows(a: Area, mem: seq<Octet>, k: nat, data: seq<Octet>, f: Faults)
    requires a.Valid(|mem|) && FaultsOk(a, data, f) && Shape(a, mem, k) && 0 < k < a.bufSz
    ensures Shape(a, SavedOn(a, mem, data, f), if f.statusKept == 0 then k else k + 1)
    ensures SlotAt(a, SavedOn(a, mem, data, f), k - 1) == SlotAt(a, mem, k - 1)
    ensures SlotAt(a, SavedOn(a, mem, data, f), k) == LeftIn(a, mem, k, data, f.kept)
  {
    SavedInCycle(a, mem, k, data, f);
    RowsAfter(a, mem, k, LeftIn(a, mem, k, data, f.kept), f.statusKept);
  }

  lemma SavedInCycle(a: Area, mem: seq<Octet>, k: nat, data: seq<Octet>, f: Faults)
    requires a.Valid(|mem|) && FaultsOk(a, data, f) && Shape(a, mem, k) && 0 < k < a.bufSz
    ensures a.init + k < a.Slot(k) && a.Slot(k) + a.packetSz <= |mem|
    ensures SavedOn(a, mem, data, f) == Splice(mem, a.Slot(k), LeftIn(a, mem, k, data, f.kept))[a.init + k := f.statusKept]
  {
    TargetOfShape(a, mem, k);
    SlotInside(a, |mem|, k);
  }

  lemma RowsAfter(a: Area, mem: seq<Octet>, k: nat, left: seq<Octet>, b: Octet)
    requires a.Valid(|mem|) && |left| == a.packetSz && Shape(a, mem, k) && 0 < k < a.bufSz
    requires a.init + k < a.Slot(k) && a.Slot(k) + a.packetSz <= |mem|
    ensures var m := Splice(mem, a.Slot(k), left)[a.init + k := b];
            && Shape(a, m, if b == 0 then k else k + 1)
            && SlotAt(a, m, k - 1) == SlotAt(a, mem, k - 1)
            && SlotAt(a, m, k) == left
  {
    SlotInside(a, |mem|, k);
    SlotInside(a, |mem|, k - 1);
    SlotsApart(a, k, k - 1);
    SpliceThenSet(mem, a.Slot(k), left, a.init + k, b, a.Slot(k - 1), a.packetSz);
  }

  // A row written and one byte set before it leave other rows alone.
  lemma SpliceThenSet(mem: seq<Octet>, at: nat, row: seq<Octet>, x: nat, b: Octet, y: nat, n: nat)
    requires x < at && at + |row| <= |mem| && x < y && y + n <= |mem| && (y + n <= at || at + |row| <= y)
    ensures var m := Splice(mem, at, row)[x := b];
            && m[at..at + |row|] == row && m[y..y + n] == mem[y..y + n]
            && (forall i :: 0 <= i < at ==> m[i] == if i == x then b else mem[i])
  {
  }

  lemma ClearedSlot(a: Area, mem: seq<Octet>, index: nat)
    requires a.Valid(|mem|) && index < a.bufSz
    ensures |Cleared(a, mem)| == |mem| && SlotAt(a, Cleared(a, mem), index) == SlotAt(a, mem, index)
  {
    SlotInside(a, |mem|, index);
    RowIs(Cleared(a, mem), a.Slot(index), SlotAt(a, mem, index));
  }

  class RingEeprom {
    const initAddr: nat
    const bufSz: nat
    const paramPacketSz: nat
    const eeprom: array<Octet>
    var paramPtr: nat

    ghost function Area(): Area {
      RingEepromSpec.Area(initAddr, bufSz, paramPacketSz)
    }

    ghost predicate Valid() {
      Area().Valid(eeprom.Length)
    }

    constructor (mem: array<Octet>, addrPtr: nat, slots: nat, size: nat)
      requires RingEepromSpec.Area(addrPtr, slots, size).Valid(mem.Length)
      ensures Valid() && eeprom == mem && Area() == RingEepromSpec.Area(addrPtr, slots, size)
    {
      eeprom := mem;
      initAddr := addrPtr;
      bufSz := slots;
      paramPacketSz := size;
      paramPtr := 0;
    }

    method EepromUpdate(addr: nat, value: Octet, kept: Octet)
      requires addr < eeprom.Length
      modifies eeprom
      ensures eeprom[..] == SetCell(old(eeprom[..]), addr, value, kept)
    {
      if eeprom[addr] != value {
        eeprom[addr] := kept;
      }
    }

    method ClrStatusBuf(clearKept: seq<Octet>)
      requires Valid() && |clearKept| == bufSz
      modifies eeprom
      ensures var row := old(eeprom[initAddr..initAddr + bufSz]);
              eeprom[..] == Splice(old(eeprom[..]), initAddr, Pass(row, Zeros(bufSz), clearKept))
    {
      ghost var mem := eeprom[..];
      ghost var row := Pass(mem[initAddr..initAddr + bufSz], Zeros(bufSz), clearKept);
      var i := 0;
      while i < bufSz
        invariant 0 <= i <= bufSz
        invariant eeprom[..] == Splice(mem, initAddr, row[..i])
      {
        CopyByte(initAddr, i, 0, clearKept[i], mem, row);
        i := i + 1;
      }
      assert row[..bufSz] == row;
    }

    method GetStatusPtr() returns (i: nat)
      requires Valid()
      ensures i == StatusPtr(Area(), eeprom[..])
      ensures 1 <= i <= bufSz + 1 && (i <= bufSz ==> eeprom[initAddr + i - 1] == 0)
      ensures forall x :: initAddr <= x < initAddr + i - 1 ==> eeprom[x] != 0
    {
      ghost var mem := eeprom[..];
      ScanFindsFirstZero(Area(), mem, 0);
      i := 0;
      var more := true;
      while more
        invariant i <= bufSz + 1 && (more ==> i <= bufSz)
        invariant StatusPtr(Area(), mem) == if more then ScanFrom(Area(), mem, i) else i
        decreases more, bufSz - i
      {
        SmallMod(i + 1, 256);
        var ptr := eeprom[initAddr + i];
        i := (i + 1) % 256;
        more := i != 0 && ptr != 0 && i <= bufSz;
      }
    }

    method CopyByte(at: nat, i: nat, value: Octet, kept: Octet, ghost mem: seq<Octet>, ghost row: seq<Octet>)
      requires i < |row| && at + |row| <= |mem| == eeprom.Length
      requires row[i] == if mem[at + i] == value then value else kept
      requires eeprom[..] == Splice(mem, at, row[..i])
      modifies eeprom
      ensures eeprom[..] == Splice(mem, at, row[..i + 1])
    {
      SpliceNext(mem, at, row, i);
      assert eeprom[..][at + i] == mem[at + i];
      EepromUpdate(at + i, value, kept);
    }

    // One pass of the copy, adding the bytes to the sum kept since the first pass.
    method CopyPacket(dataBuf: array<Octet>, sum: Octet, kept: seq<Octet>) returns (checkSum: Octet)
      requires paramPtr + paramPacketSz <= eeprom.Length
      requires dataBuf != eeprom && dataBuf.Length == paramPacketSz == |kept|
      modifies eeprom
      ensures var cells := old(eeprom[paramPtr..paramPtr + paramPacketSz]);
              eeprom[..] == Splice(old(eeprom[..]), paramPtr, Pass(cells, dataBuf[..], kept))
      ensures checkSum == Add(sum, ByteSum(dataBuf[..])) == (sum + Total(dataBuf[..])) % 256
    {
      SumIsTotal(dataBuf[..]);
      AddIsMod(sum, ByteSum(dataBuf[..]));
      ModSum(Total(dataBuf[..]), sum);
      ghost var mem, data := eeprom[..], dataBuf[..];
      ghost var row := Pass(mem[paramPtr..paramPtr + paramPacketSz], data, kept);
      checkSum := sum;
      var i := 0;
      while i < paramPacketSz
        invariant 0 <= i <= paramPacketSz
        invariant eeprom[..] == Splice(mem, paramPtr, row[..i])
        invariant checkSum == Add(sum, ByteSum(data[..i]))
      {
        SumNext(data, i, sum);
        checkSum := Add(checkSum, dataBuf[i]);
        CopyByte(paramPtr, i, dataBuf[i], kept[i], mem, row);
        i := i + 1;
      }
      assert row[..paramPacketSz] == row && data[..paramPacketSz] == data;
    }

    method ReadCalcChecksum(addr: nat, len: nat) returns (cks: Octet)
      requires addr + len <= eeprom.Length
      ensures cks == ByteSum(eeprom[addr..addr + len]) == Total(eeprom[addr..addr + len]) % 256
    {
      SumIsTotal(eeprom[addr..addr + len]);
      cks := 0;
      var i := addr;
      while i < addr + len
        invariant addr <= i <= addr + len
        invariant cks == ByteSum(eeprom[addr..i])
      {
        cks := Add(cks, eeprom[i]);
        assert eeprom[addr..i + 1][..i - addr] == eeprom[addr..i];
        i := i + 1;
      }
    }

    // At most three passes, until the sum of the slot is the sum of all bytes copied.
    method SaveBytes(dataBuf: array<Octet>, kept: seq<seq<Octet>>)
      requires paramPtr + paramPacketSz <= eeprom.Length
      requires dataBuf != eeprom && dataBuf.Length == paramPacketSz && KeptOk(dataBuf[..], kept) && |kept| == 3
      modifies eeprom
      ensures var cells := old(eeprom[paramPtr..paramPtr + paramPacketSz]);
              eeprom[..] == Splice(old(eeprom[..]), paramPtr, Passes(cells, dataBuf[..], kept, 0).1)
    {
      ghost var mem, data, cells := eeprom[..], dataBuf[..], eeprom[paramPtr..paramPtr + paramPacketSz];
      ghost var goal := Passes(cells, data, kept, 0).1;
      SpliceAgain(mem, paramPtr, cells, cells);
      var retryCount, checkSum, more := 3, 0, true;
      while more
        invariant 0 <= retryCount <= 3 && |cells| == |data| && (more ==> retryCount > 0)
        invariant eeprom[..] == Splice(mem, paramPtr, cells)
        invariant goal == if more then Passes(cells, data, kept[3 - retryCount..], checkSum).1 else cells
        decreases more, retryCount
      {
        SpliceAgain(mem, paramPtr, cells, Pass(cells, data, kept[3 - retryCount]));
        assert eeprom[paramPtr..paramPtr + paramPacketSz] == cells;
        assert kept[3 - retryCount..][1..] == kept[3 - (retryCount - 1)..];
        checkSum := CopyPacket(dataBuf, checkSum, kept[3 - retryCount]);
        cells := Pass(cells, data, kept[3 - retryCount]);
        SpliceAgain(mem, paramPtr, cells, cells);
        assert eeprom[paramPtr..paramPtr + paramPacketSz] == cells;
        retryCount := retryCount - 1;
        more := false;
        if retryCount != 0 {
          var cks := ReadCalcChecksum(paramPtr, paramPacketSz);
          more := cks != checkSum;
        }
      }
    }

    // The whole memory after a save; on sound cells what the next read returns follows from
    // SoundStatus, SoundSave and SaveThenRead.
    method SavePacket(dataBuf: array<Octet>, f: Faults)
      requires Valid() && dataBuf != eeprom && FaultsOk(Area(), dataBuf[..], f)
      modifies this`paramPtr, eeprom
      ensures eeprom[..] == SavedOn(Area(), old(eeprom[..]), dataBuf[..], f)
      ensures paramPtr == Area().Slot(Target(Area(), old(eeprom[..])))
    {
      ghost var a, mem, data := Area(), eeprom[..], dataBuf[..];
      SavedOnParts(a, mem, data, f);
      ghost var goal := SavedOn(a, mem, data, f);
      var index := PrepareSlot(f.clearKept);
      assert eeprom[..] == ClearedOn(a, mem, f.clearKept);
      var at := initAddr + bufSz + index * paramPacketSz;
      assert at == a.Slot(index) && dataBuf[..] == data;
      FillSlot(dataBuf, at, initAddr + index, index + 1, f.kept, f.statusKept);
      assert eeprom[..] == goal;
    }

    // The packet, and then the status byte of its slot.
    method FillSlot(dataBuf: array<Octet>, at: nat, statusAddr: nat, status: Octet, kept: seq<seq<Octet>>, statusKept: Octet)
      requires at + paramPacketSz <= eeprom.Length && statusAddr < eeprom.Length
      requires dataBuf != eeprom && dataBuf.Length == paramPacketSz && KeptOk(dataBuf[..], kept) && |kept| == 3
      modifies this`paramPtr, eeprom
      ensures eeprom[..] == Filled(old(eeprom[..]), at, dataBuf[..], kept, statusAddr, status, statusKept)
      ensures paramPtr == at
    {
      ghost var m := eeprom[..];
      paramPtr := at;
      assert eeprom[at..at + paramPacketSz] == m[at..at + paramPacketSz];
      ghost var left := Passes(m[at..at + paramPacketSz], dataBuf[..], kept, 0).1;
      SaveBytes(dataBuf, kept);
      assert eeprom[..] == Splice(m, at, left);
      EepromUpdate(statusAddr, status, statusKept);
    }

    // The slot to use, after the status bytes were cleared if all of them are taken.
    method PrepareSlot(clearKept: seq<Octet>) returns (index: nat)
      requires Valid() && |clearKept| == bufSz
      modifies eeprom
      ensures index == Target(Area(), old(eeprom[..]))
      ensures eeprom[..] == ClearedOn(Area(), old(eeprom[..]), clearKept)
    {
      var statusPtr := GetStatusPtr();
      if statusPtr > bufSz {
        ClrStatusBuf(clearKept);
        statusPtr := 1;
      }
      index := statusPtr - 1;
    }

    // With no slot in use the original reads far behind the area; outside is what a read behind
    // the end of the memory gives.
    method ReadPacket(dataBuf: array<Octet>, outside: nat -> Octet)
      requires Valid() && dataBuf != eeprom && dataBuf.Length == paramPacketSz
      modifies dataBuf
      ensures dataBuf[..] == RowAt(eeprom[..], Area().Slot(Selected(Area(), eeprom[..])), paramPacketSz, outside)
      ensures Selected(Area(), eeprom[..]) < bufSz ==> dataBuf[..] == SlotAt(Area(), eeprom[..], Selected(Area(), eeprom[..]))
    {
      var index := SelectSlot();
      if index < bufSz {
        RowOfSlot(Area(), eeprom[..], index, outside);
      }
      var ptr := initAddr + bufSz + index * paramPacketSz;
      assert ptr == Area().Slot(index);
      ReadRow(dataBuf, ptr, outside);
    }

    method SelectSlot() returns (index: nat)
      requires Valid()
      ensures index == Selected(Area(), eeprom[..])
    {
      var statusPtr := GetStatusPtr();
      index := (statusPtr + 254) % 256;
    }

    method ReadRow(dataBuf: array<Octet>, ptr: nat, outside: nat -> Octet)
      requires dataBuf != eeprom
      modifies dataBuf
      ensures dataBuf[..] == RowAt(eeprom[..], ptr, dataBuf.Length, outside)
    {
      var i := 0;
      while i < dataBuf.Length
        invariant 0 <= i <= dataBuf.Length
        invariant dataBuf[..i] == RowAt(eeprom[..], ptr, dataBuf.Length, outside)[..i]
      {
        dataBuf[i] := if ptr + i < eeprom.Length then eeprom[ptr + i] else outside(ptr + i);
        i := i + 1;
      }
    }
  }

  // What n reads from an address on give.
  function RowAt(mem: seq<Octet>, addr: nat, n: nat, outside: nat -> Octet): (r: seq<Octet>)
    ensures |r| == n
  {
    seq(n, i requires 0 <= i < n => if addr + i < |mem| then mem[addr + i] else outside(addr + i))
  }

  lemma RowOfSlot(a: Area, mem: seq<Octet>, index: nat, outside: nat -> Octet)
    requires a.Valid(|mem|) && index < a.bufSz
    ensures RowAt(mem, a.Slot(index), a.packetSz, outside) == SlotAt(a, mem, index)
  {
    SlotInside(a, |mem|, index);
  }
}

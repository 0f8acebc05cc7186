// The slot clock and slot register as the base station keeps them: variables counted up by a
// timer, a node table in RAM with its copy in ROM, and the query handlers that use them.
module Tdm {
  import opened TdmSpec
  import opened TdmClock
  import opened TdmRegister

  ghost predicate FirstOf(nodes: seq<Node>, id: nat, i: int) {
    0 <= i < |nodes| && nodes[i].deviceId == id && forall j :: 0 <= j < i ==> nodes[j].deviceId != id
  }

  class Tdm {
    const plan: Plan
    const tdmNode: array<Node>
    const romNode: array<Node>
    var freeSlotId: nat
    var romFreeSlotId: nat
    var isSync: bool
    var momentSec: nat
    var prevMomentSec: nat
    var currentSlot: nat

    ghost function Clk(): Clock
      reads this
    {
      Clock(isSync, momentSec, prevMomentSec, currentSlot)
    }

    // The register, when offered is the slot that was offered last.
    ghost function Reg(offered: nat): Register
      reads this, tdmNode, romNode
    {
      Register(tdmNode[..], freeSlotId, romNode[..], romFreeSlotId, offered)
    }

    ghost predicate Sized()
      reads this
    {
      plan.Valid() && tdmNode != romNode && tdmNode.Length == romNode.Length == plan.maxNode
    }

    // Start-up over a table in ROM, whatever it holds.
    constructor (plan: Plan, rom: array<Node>, romFree: nat)
      requires plan.Valid() && rom.Length == plan.maxNode
      ensures Sized() && this.plan == plan && romNode == rom && fresh(tdmNode)
      ensures Reg(0) == RestartStep(Register(rom[..], romFree, rom[..], romFree, 0))
      ensures !isSync
    {
      this.plan := plan;
      tdmNode := new Node[plan.maxNode](i requires 0 <= i < rom.Length reads rom => rom[i]);
      romNode := rom;
      freeSlotId := romFree;
      romFreeSlotId := romFree;
      isSync := false;
      momentSec := 0;
      prevMomentSec := 0;
      currentSlot := 0;
      new;
      assert tdmNode[..] == rom[..];
    }

    method TdmReset()
      requires Sized()
      modifies this`freeSlotId, this`romFreeSlotId, tdmNode, romNode
      ensures Reg(0) == ResetRegister(plan)
      ensures freeSlotId == romFreeSlotId == 0
      ensures forall i :: 0 <= i < plan.maxNode ==> tdmNode[i] == romNode[i] == Node(0, 0, false)
      ensures plan.reserveSlot < plan.maxNode ==> Inv(plan, Reg(0))
    {
      forall i | 0 <= i < tdmNode.Length {
        tdmNode[i] := EMPTY;
      }
      freeSlotId := 0;
      forall i | 0 <= i < romNode.Length {
        romNode[i] := EMPTY;
      }
      romFreeSlotId := 0;
      assert tdmNode[..] == ResetRegister(plan).nodes;
      assert romNode[..] == ResetRegister(plan).nodes;
      if plan.reserveSlot < plan.maxNode {
        ResetOk(plan);
      }
    }

    // True when some slot begins at this second.
    method TdmSync(unixSec: nat) returns (atStart: bool)
      requires plan.Valid()
      modifies this`momentSec
      ensures momentSec == unixSec % plan.momentDuration
      ensures atStart <==> SlotBegins(plan, unixSec, 0)
      ensures plan.Even() ==> (atStart <==> exists slot: nat :: StartsSlot(plan, momentSec, slot))
    {
      if plan.Even() {
        BeginsExactly(plan, unixSec);
      }
      momentSec := unixSec % plan.momentDuration;
      var syncRem := momentSec % plan.PerNodeInterval();
      atStart := syncRem == 0;
    }

    // The one-second timer.
    method TdmUpdateSlot(unixSec: nat)
      requires plan.Valid()
      modifies this`isSync, this`momentSec, this`prevMomentSec, this`currentSlot
      ensures Clk() == TickStep(plan, old(Clk()), unixSec)
    {
      if isSync {
        momentSec := (momentSec + 1) % 0x1_0000;
        if momentSec - prevMomentSec >= plan.PerNodeInterval() {
          currentSlot := (currentSlot + 1) % 256;
          if currentSlot > plan.maxNode - 1 {
            momentSec := 0;
            currentSlot := 0;
          }
          prevMomentSec := momentSec;
        }
      } else {
        var sync := TdmSync(unixSec);
        if sync {
          isSync := true;
          prevMomentSec := momentSec;
          currentSlot := momentSec / plan.PerNodeInterval() % 256;
        }
      }
    }

    method TdmIsRegistered(sensorId: nat) returns (slot: nat)
      requires Sized()
      ensures slot == IsRegistered(tdmNode[..], sensorId)
      ensures (forall i :: 0 <= i < plan.maxNode ==> tdmNode[i].deviceId != sensorId) ==> slot == 255
      ensures forall i :: FirstOf(tdmNode[..], sensorId, i) ==> slot == tdmNode[i].slotNo
    {
      assert tdmNode[0..] == tdmNode[..];
      for i := 0 to plan.maxNode
        invariant forall j :: 0 <= j < i ==> tdmNode[j].deviceId != sensorId
        invariant IsRegistered(tdmNode[..], sensorId) == IsRegistered(tdmNode[i..], sensorId)
      {
        assert tdmNode[i..][1..] == tdmNode[i + 1..];
        if tdmNode[i].deviceId == sensorId {
          return tdmNode[i].slotNo;
        }
      }
      slot := NO_SLOT;
    }

    method TdmGetFreeSlot(sensorId: nat) returns (slot: nat)
      requires Sized()
      modifies tdmNode
      ensures (Reg(slot), slot) == ConfigStep(plan, old(Reg(0)), sensorId)
      ensures (forall i :: 0 <= i < plan.maxNode ==> old(tdmNode[i]).deviceId != sensorId) ==>
                if freeSlotId < plan.maxNode - plan.reserveSlot
                then slot == freeSlotId && tdmNode[slot].deviceId == sensorId && tdmNode[slot].slotNo == slot
                else slot == 255 && tdmNode[..] == old(tdmNode[..])
    {
      slot := TdmIsRegistered(sensorId);
      if slot == NO_SLOT {
        slot := freeSlotId;
        if slot < plan.maxNode - plan.reserveSlot {
          ghost var nodes := tdmNode[..];
          tdmNode[slot] := tdmNode[slot].(deviceId := sensorId);
          tdmNode[slot] := tdmNode[slot].(slotNo := slot);
          assert tdmNode[..] == nodes[slot := nodes[slot].(deviceId := sensorId, slotNo := slot)];
        } else {
          slot := NO_SLOT;
        }
      }
    }

    method TdmConfirmSlot(slotNo: nat) returns (confirmed: bool)
      requires Sized() && (slotNo == freeSlotId ==> slotNo < plan.maxNode)
      modifies this`freeSlotId, this`romFreeSlotId, tdmNode, romNode
      ensures confirmed <==> slotNo == old(freeSlotId)
      ensures confirmed ==> Reg(slotNo) == EndStep(old(Reg(slotNo)), true, CONFIG_OPCODE)
      ensures confirmed ==>
                && freeSlotId == romFreeSlotId == slotNo + 1
                && tdmNode[slotNo] == romNode[slotNo] == old(tdmNode[slotNo]).(isAllotted := true)
      ensures !confirmed ==> Reg(slotNo) == old(Reg(slotNo))
    {
      confirmed := false;
      if slotNo == freeSlotId {
        ghost var r := Reg(slotNo);
        tdmNode[slotNo] := tdmNode[slotNo].(isAllotted := true);
        romNode[slotNo] := tdmNode[slotNo];
        freeSlotId := (freeSlotId + 1) % 256;
        romFreeSlotId := freeSlotId;
        confirmed := true;
        assert tdmNode[..] == EndStep(r, true, CONFIG_OPCODE).nodes;
        assert romNode[..] == EndStep(r, true, CONFIG_OPCODE).romNodes;
      }
    }
  }

  // The query handlers of the base station. Sending is left to the caller: what is sent is returned.
  class Server {
    const tdm: Tdm
    // the slot offered in the last configuration answer
    var freeSlotId: nat

    ghost function Reg(): Register
      reads this, tdm, tdm.tdmNode, tdm.romNode
    {
      tdm.Reg(freeSlotId)
    }

    ghost predicate Valid()
      reads this, tdm, tdm.tdmNode, tdm.romNode
    {
      tdm.Sized() && Inv(tdm.plan, Reg())
    }

    constructor (tdm: Tdm)
      ensures this.tdm == tdm && freeSlotId == 0
    {
      this.tdm := tdm;
      freeSlotId := 0;
    }

    // Answers a configuration query with the slot of the device.
    method NrfServerConfigResolver(deviceId: nat) returns (slotId: nat)
      requires Valid() && deviceId != 0
      modifies this`freeSlotId, tdm.tdmNode
      ensures Valid()
      ensures (Reg(), slotId) == ConfigStep(tdm.plan, old(Reg()), deviceId)
      ensures freeSlotId == slotId
    {
      ConfigKeeps(tdm.plan, Reg(), deviceId);
      slotId := tdm.TdmGetFreeSlot(deviceId);
      freeSlotId := slotId;
    }

    // The radio's report on the last answer.
    method NrfQryServerEnd(success: bool, opcode: nat)
      requires Valid()
      modifies tdm`freeSlotId, tdm`romFreeSlotId, tdm.tdmNode, tdm.romNode
      ensures Valid()
      ensures Reg() == EndStep(old(Reg()), success, opcode)
      ensures success && opcode == 225 && freeSlotId == old(tdm.freeSlotId) ==>
                && tdm.freeSlotId == tdm.romFreeSlotId == freeSlotId + 1 <= tdm.plan.maxNode
                && tdm.tdmNode[freeSlotId] == tdm.romNode[freeSlotId] == old(tdm.tdmNode[freeSlotId]).(isAllotted := true)
      ensures !success || opcode != 225 || freeSlotId != old(tdm.freeSlotId) ==> Reg() == old(Reg())
      ensures opcode == 201 || opcode == 203 || opcode == 221 ==> Reg() == old(Reg())
    {
      EndReports(tdm.plan, Reg(), success, opcode);
      EndKeeps(tdm.plan, Reg(), success, opcode);
      if success {
        if opcode == CONFIG_OPCODE {
          var ok := tdm.TdmConfirmSlot(freeSlotId);
        }
      }
    }

    // The answer to a slot ping. strayCurrent is what stands where the original then looks for
    // the current node when the clock is not synced or has left the table, strayEntry what
    // stands behind the table.
    method PongHandler(deviceId: nat, slotId: nat, strayCurrent: nat, strayEntry: nat) returns (pong: Pong)
      requires Valid()
      ensures pong.isMySlot == pong.isBsFree == (deviceId == CurrentId(strayCurrent))
      ensures pong.isConfigChanged <==>
                deviceId != CurrentId(strayCurrent) && (deviceId != EntryId(slotId, strayEntry) || slotId == 255)
      ensures tdm.isSync && tdm.currentSlot < tdm.plan.maxNode && slotId < tdm.plan.maxNode ==>
                pong == PongFor(tdm.tdmNode[..], tdm.currentSlot, deviceId, slotId)
    {
      var current := if tdm.isSync && tdm.currentSlot < tdm.plan.maxNode
                     then tdm.tdmNode[tdm.currentSlot].deviceId else strayCurrent;
      if current == deviceId {
        pong := Pong(true, true, false);
      } else {
        pong := Pong(false, false, false);
        var entry := if slotId < tdm.plan.maxNode then tdm.tdmNode[slotId].deviceId else strayEntry;
        var s := if entry == deviceId then slotId else NO_SLOT;
        if s == NO_SLOT {
          pong := pong.(isConfigChanged := true);
        }
      }
    }

    ghost function CurrentId(stray: nat): nat
      reads this, tdm, tdm.tdmNode, tdm.romNode
      requires Valid()
    {
      if tdm.isSync && tdm.currentSlot < tdm.plan.maxNode then tdm.tdmNode[tdm.currentSlot].deviceId else stray
    }

    ghost function EntryId(slotId: nat, stray: nat): nat
      reads this, tdm, tdm.tdmNode, tdm.romNode
      requires Valid()
    {
      if slotId < tdm.plan.maxNode then tdm.tdmNode[slotId].deviceId else stray
    }
  }
}

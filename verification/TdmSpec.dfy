// The base station's slot clock and slot register, as state machines.
module TdmSpec {
  import opened Arith

  // 255 stands for "no slot" in every 8-bit slot number
  const NO_SLOT: nat := 255

  const CONFIG_OPCODE: nat := 225

  // A moment is divided into maxNode slots of perNodeInterval seconds each.
  datatype Plan = Plan(momentDuration: nat, maxNode: nat, reserveSlot: nat) {
    function PerNodeInterval(): nat
      requires maxNode > 0
    {
      momentDuration / maxNode % 256
    }

    ghost predicate Valid() {
      && 0 < maxNode < NO_SLOT && momentDuration < 0x1_0000
      && 0 < momentDuration / maxNode < 256
    }

    // The slots fill the moment exactly.
    ghost predicate Even()
      requires maxNode > 0
    {
      momentDuration % maxNode == 0
    }
  }

  // ---------------------------------------------------------------- the clock

  datatype Clock = Clock(isSync: bool, moment: nat, prevMoment: nat, slot: nat)

  function TickStep(p: Plan, k: Clock, unix: nat): Clock
    requires p.Valid()
  {
    var interval := p.PerNodeInterval();
    if k.isSync then
      var moment := (k.moment + 1) % 0x1_0000;
      if moment - k.prevMoment >= interval then
        var slot := (k.slot + 1) % 256;
        if slot > p.maxNode - 1 then Clock(true, 0, 0, 0) else Clock(true, moment, moment, slot)
      else k.(moment := moment)
    else
      var moment := unix % p.momentDuration;
      if moment % interval == 0 then Clock(true, moment, moment, moment / interval % 256)
      else k.(moment := moment)
  }

  // n ticks, at the seconds unix, unix + 1, and so on
  function Ticks(p: Plan, k: Clock, unix: nat, n: nat): Clock
    requires p.Valid()
  {
    if n == 0 then k else TickStep(p, Ticks(p, k, unix, n - 1), unix + n - 1)
  }

  // ---------------------------------------------------------------- the register

  datatype Node = Node(deviceId: nat, slotNo: nat, isAllotted: bool)

  const EMPTY := Node(0, 0, false)

  // The node table and its free-slot counter, in RAM and in ROM, and the slot that the server
  // offered last.
  datatype Register = Register(nodes: seq<Node>, free: nat, romNodes: seq<Node>, romFree: nat, offered: nat)

  function ResetRegister(p: Plan): Register {
    Register(seq(p.maxNode, _ => EMPTY), 0, seq(p.maxNode, _ => EMPTY), 0, 0)
  }

  // The slot number in the first entry of the device, in table order.
  function IsRegistered(nodes: seq<Node>, id: nat): nat {
    if nodes == [] then NO_SLOT
    else if nodes[0].deviceId == id then nodes[0].slotNo
    else IsRegistered(nodes[1..], id)
  }

  function IsRegistered2(nodes: seq<Node>, id: nat, slot: nat): nat
    requires slot < |nodes|
  {
    if nodes[slot].deviceId == id then slot else NO_SLOT
  }

  // A device asks for its configuration: it keeps its slot, or is offered the first free one.
  function ConfigStep(p: Plan, r: Register, id: nat): (Register, nat) {
    var known := IsRegistered(r.nodes, id);
    if known != NO_SLOT then (r.(offered := known), known)
    else if r.free < p.maxNode - p.reserveSlot && r.free < |r.nodes| then
      (r.(nodes := r.nodes[r.free := r.nodes[r.free].(deviceId := id, slotNo := r.free)], offered := r.free), r.free)
    else (r.(offered := NO_SLOT), NO_SLOT)
  }

  // The radio reports how the answer went; success of a configuration answer confirms the slot
  // that was offered last, first in ROM entry by entry, then in the counter.
  function EndStep(r: Register, success: bool, opcode: nat): Register
    requires |r.romNodes| == |r.nodes|
  {
    if success && opcode == CONFIG_OPCODE && r.offered == r.free && r.free < |r.nodes| then
      var node := r.nodes[r.free].(isAllotted := true);
      r.(nodes := r.nodes[r.free := node], romNodes := r.romNodes[r.free := node],
         free := (r.free + 1) % 256, romFree := (r.free + 1) % 256)
    else r
  }

  function RestartStep(r: Register): Register {
    Register(r.romNodes, r.romFree, r.romNodes, r.romFree, 0)
  }

  // Power lost after the entry was written to ROM and before the counter was.
  function CutStep(r: Register, success: bool, opcode: nat): Register
    requires |r.romNodes| == |r.nodes|
  {
    RestartStep(r.(romNodes := EndStep(r, success, opcode).romNodes))
  }

  datatype Event = Config(id: nat) | End(success: bool, opcode: nat) | Restart | Cut(success: bool, opcode: nat)

  function Step(p: Plan, r: Register, e: Event): Register
    requires |r.romNodes| == |r.nodes|
  {
    match e
    case Config(id) => ConfigStep(p, r, id).0
    case End(success, opcode) => EndStep(r, success, opcode)
    case Restart => RestartStep(r)
    case Cut(success, opcode) => CutStep(r, success, opcode)
  }

  // ---------------------------------------------------------------- answers and windows

  datatype Pong = Pong(isBsFree: bool, isMySlot: bool, isConfigChanged: bool)

  function PongFor(nodes: seq<Node>, current: nat, id: nat, slot: nat): Pong
    requires current < |nodes| && slot < |nodes|
  {
    if nodes[current].deviceId == id then Pong(true, true, false)
    else Pong(false, false, IsRegistered2(nodes, id, slot) == NO_SLOT)
  }

  // The device's next window: 16-bit slot offset, 32-bit time.
  function CalcNextSlotUnix(unix: nat, interval: nat, slotId: nat, momentDuration: nat): nat
    requires momentDuration > 0
  {
    var slotSec := interval * slotId % 0x1_0000;
    var curMoment := unix % momentDuration;
    if curMoment < slotSec then (unix + (slotSec - curMoment)) % 0x1_0000_0000
    else (unix + (momentDuration - curMoment) + slotSec) % 0x1_0000_0000
  }
}

// Slot registration: whatever the order of questions, answers, failures, restarts and power
// cuts, confirmed slots are distinct, permanent and survive in ROM.
module TdmRegister {
  import opened TdmSpec

  // Entries below the free slot are confirmed; the entry at it may be tentative; none above
  // it, and none that is reserved, is used.
  ghost predicate TableOk(nodes: seq<Node>, free: nat, limit: nat) {
    && free <= limit <= |nodes|
    && (forall i :: 0 <= i < free ==> nodes[i].isAllotted && nodes[i].slotNo == i)
    && (forall i, j :: 0 <= i < j < free ==> nodes[i].deviceId != nodes[j].deviceId)
    && (forall i :: 0 <= i < |nodes| && (i > free || i >= limit) ==> nodes[i] == Node(0, 0, false))
    && (free < |nodes| ==> nodes[free].slotNo == free || nodes[free] == EMPTY)
    && (free < |nodes| && nodes[free].deviceId != 0 ==>
          forall i :: 0 <= i < free ==> nodes[i].deviceId != nodes[free].deviceId)
  }

  // Some slot can be given out at all.
  ghost predicate PlanOk(p: Plan) {
    p.Valid() && p.reserveSlot < p.maxNode
  }

  ghost predicate Inv(p: Plan, r: Register) {
    && PlanOk(p)
    && |r.nodes| == |r.romNodes| == p.maxNode
    && r.romFree == r.free
    && TableOk(r.nodes, r.free, p.maxNode - p.reserveSlot) && TableOk(r.romNodes, r.free, p.maxNode - p.reserveSlot)
    && (forall i :: 0 <= i < r.free ==> r.romNodes[i] == r.nodes[i])
    && (r.offered == r.free ==>
          && r.free < p.maxNode - p.reserveSlot && r.nodes[r.free].slotNo == r.free
          && forall i :: 0 <= i < r.free ==> r.nodes[i].deviceId != r.nodes[r.free].deviceId)
  }

  ghost predicate EventOk(e: Event) {
    e.Config? ==> e.id != 0
  }

  // The table search returns the slot of the device, which is its index, or 255 when it has none.
  lemma {:induction false} SearchFrom(nodes: seq<Node>, k: nat, id: nat)
    requires k <= |nodes| < NO_SLOT
    requires forall i :: k <= i < |nodes| && nodes[i].deviceId == id ==> nodes[i].slotNo == i
    ensures var s := IsRegistered(nodes[k..], id);
            if s == NO_SLOT then forall i :: k <= i < |nodes| ==> nodes[i].deviceId != id
            else k <= s < |nodes| && nodes[s].deviceId == id
    decreases |nodes| - k
  {
    if k < |nodes| {
      assert nodes[k..][1..] == nodes[k + 1..];
      SearchFrom(nodes, k + 1, id);
    }
  }

  lemma Search(nodes: seq<Node>, free: nat, limit: nat, id: nat)
    requires TableOk(nodes, free, limit) && |nodes| < NO_SLOT && id != 0
    ensures var s := IsRegistered(nodes, id);
            if s == NO_SLOT then forall i :: 0 <= i < |nodes| ==> nodes[i].deviceId != id
            else s <= free && s < |nodes| && nodes[s].deviceId == id && nodes[s].slotNo == s
  {
    assert nodes[0..] == nodes;
    SearchFrom(nodes, 0, id);
  }

  lemma ResetOk(p: Plan)
    requires PlanOk(p)
    ensures Inv(p, ResetRegister(p))
    ensures var r := ResetRegister(p);
            && r.free == r.romFree == r.offered == 0 && r.nodes == r.romNodes && |r.nodes| == p.maxNode
            && forall i :: 0 <= i < p.maxNode ==> r.nodes[i] == Node(0, 0, false)
  {
  }

  lemma ConfigKeeps(p: Plan, r: Register, id: nat)
    requires Inv(p, r) && id != 0
    ensures Inv(p, ConfigStep(p, r, id).0)
    ensures ConfigStep(p, r, id).0.free == r.free
    ensures forall i :: 0 <= i < r.free ==> ConfigStep(p, r, id).0.nodes[i] == r.nodes[i]
  {
    Search(r.nodes, r.free, p.maxNode - p.reserveSlot, id);
    var known := IsRegistered(r.nodes, id);
    var r' := ConfigStep(p, r, id).0;
    if known == NO_SLOT && r.free < p.maxNode - p.reserveSlot {
      assert r'.nodes[r.free].deviceId == id && r'.nodes[r.free].slotNo == r.free;
    } else {
      assert r'.nodes == r.nodes;
    }
  }

  lemma EndKeeps(p: Plan, r: Register, success: bool, opcode: nat)
    requires Inv(p, r)
    ensures Inv(p, EndStep(r, success, opcode))
    ensures r.free <= EndStep(r, success, opcode).free <= r.free + 1
    ensures forall i :: 0 <= i < r.free ==> EndStep(r, success, opcode).nodes[i] == r.nodes[i]
  {
  }

  lemma CutKeeps(p: Plan, r: Register, success: bool, opcode: nat)
    requires Inv(p, r)
    ensures Inv(p, CutStep(r, success, opcode))
    ensures CutStep(r, success, opcode).free == r.free
    ensures forall i :: 0 <= i < r.free ==> CutStep(r, success, opcode).nodes[i] == r.nodes[i]
  {
  }

  lemma RestartKeeps(p: Plan, r: Register)
    requires Inv(p, r)
    ensures Inv(p, RestartStep(r))
    ensures RestartStep(r).free == r.free && RestartStep(r).offered == 0
    ensures forall i :: 0 <= i < r.free ==> RestartStep(r).nodes[i] == r.nodes[i]
  {
  }

  // A step keeps the invariant, and keeps every confirmed entry where and as it is.
  lemma StepKeeps(p: Plan, r: Register, e: Event)
    requires Inv(p, r) && EventOk(e)
    ensures Inv(p, Step(p, r, e))
    ensures r.free <= Step(p, r, e).free <= r.free + 1
    ensures forall i :: 0 <= i < r.free ==> Step(p, r, e).nodes[i] == r.nodes[i]
  {
    match e
    case Config(id) => ConfigKeeps(p, r, id);
    case End(success, opcode) => EndKeeps(p, r, success, opcode);
    case Restart => RestartKeeps(p, r);
    case Cut(success, opcode) => CutKeeps(p, r, success, opcode);
  }

  // ---------------------------------------------------------------- runs

  ghost predicate EventsOk(es: seq<Event>) {
    forall i :: 0 <= i < |es| ==> EventOk(es[i])
  }

  function Run(p: Plan, r: Register, es: seq<Event>): (s: Register)
    requires |r.romNodes| == |r.nodes|
    ensures |s.romNodes| == |s.nodes|
    decreases |es|
  {
    if es == [] then r else Run(p, Step(p, r, es[0]), es[1..])
  }

  // Over any run: the counter stays within the slots that may be given out, confirmed entries
  // are allotted, carry their own index and distinct devices, never change, and a restart from
  // ROM brings all of them back.
  lemma {:induction false} RegistrationIsSafe(p: Plan, r: Register, es: seq<Event>)
    requires Inv(p, r) && EventsOk(es)
    ensures var s := Run(p, r, es);
            && Inv(p, s)
            && r.free <= s.free <= p.maxNode - p.reserveSlot
            && (forall i :: 0 <= i < r.free ==> s.nodes[i] == r.nodes[i])
            && (forall i :: 0 <= i < s.free ==>
                  && s.nodes[i].isAllotted && s.nodes[i].slotNo == i
                  && RestartStep(s).nodes[i] == s.nodes[i])
            && (forall i, j :: 0 <= i < j < s.free ==> s.nodes[i].deviceId != s.nodes[j].deviceId)
            && RestartStep(s).free == s.free
    decreases |es|
  {
    if es != [] {
      StepKeeps(p, r, es[0]);
      RegistrationIsSafe(p, Step(p, r, es[0]), es[1..]);
    }
    RestartKeeps(p, Run(p, r, es));
  }

  // A device that asks and whose answer goes through is confirmed in the slot it was told; it
  // is told none exactly when it has no entry and all slots that may be given out are taken.
  lemma RegistrationCompletes(p: Plan, r: Register, id: nat)
    requires Inv(p, r) && id != 0
    ensures var (r1, slot) := ConfigStep(p, r, id);
            var r2 := EndStep(r1, true, 225);
            r1.offered == slot &&
            if slot == 255 then
              r.free == p.maxNode - p.reserveSlot && forall i :: 0 <= i < |r.nodes| ==> r.nodes[i].deviceId != id
            else
              slot < r2.free && r2.nodes[slot].deviceId == id
  {
    Search(r.nodes, r.free, p.maxNode - p.reserveSlot, id);
  }

  // What an end report does, in numbers: opcode 225 is that of the configuration answer, 201 and
  // 203 are the two pings, 221 is the address query. A success report for 225, when the slot
  // offered last is the free one, allots that entry in RAM and ROM and moves both counters on;
  // every other report changes nothing.
  lemma EndReports(p: Plan, r: Register, success: bool, opcode: nat)
    requires Inv(p, r)
    ensures var s := EndStep(r, success, opcode);
            if success && opcode == 225 && r.offered == r.free then
              && r.free < |r.nodes| && s.free == s.romFree == r.free + 1 && s.offered == r.offered
              && s.nodes == r.nodes[r.free := Node(r.nodes[r.free].deviceId, r.free, true)]
              && s.romNodes == r.romNodes[r.free := Node(r.nodes[r.free].deviceId, r.free, true)]
            else s == r
    ensures opcode == 201 || opcode == 203 || opcode == 221 ==> EndStep(r, success, opcode) == r
  {
  }

  // Repeating the success report does nothing more.
  lemma RepeatedEndIsIdle(p: Plan, r: Register, opcode: nat)
    requires Inv(p, r)
    ensures EndStep(EndStep(r, true, opcode), true, opcode) == EndStep(r, true, opcode)
  {
  }
}

// The entry that is offered and not yet confirmed: who stands in it, who is confirmed in it in
// the end, and what a device hears whose place was given to another.
module TdmTentative {
  import opened TdmSpec
  import opened TdmRegister

  ghost predicate Confirmed(r: Register, id: nat) {
    exists i :: 0 <= i < r.free && i < |r.nodes| && r.nodes[i].deviceId == id
  }

  // The device in the entry behind the confirmed ones; 0 if there is none.
  function Holder(nodes: seq<Node>, free: nat): nat {
    if free < |nodes| then nodes[free].deviceId else 0
  }

  // A device without a confirmed slot asks while one is left.
  ghost predicate Claims(p: Plan, r: Register, e: Event) {
    e.Config? && !Confirmed(r, e.id) && r.free < p.maxNode - p.reserveSlot
  }

  predicate Confirms(r: Register, e: Event) {
    e.End? && e.success && e.opcode == CONFIG_OPCODE && r.offered == r.free
  }

  // A device that claims is told the free slot and stands in it; any other query changes nothing
  // but the offer.
  lemma ConfigTells(p: Plan, r: Register, id: nat)
    requires Inv(p, r) && id != 0
    ensures var (r1, slot) := ConfigStep(p, r, id);
            && (Claims(p, r, Config(id)) ==> slot == r.free == r1.offered && Holder(r1.nodes, r1.free) == id)
            && (!Claims(p, r, Config(id)) ==> r1.nodes == r.nodes)
  {
    Search(r.nodes, r.free, p.maxNode - p.reserveSlot, id);
    if IsRegistered(r.nodes, id) < r.free {
      assert r.nodes[IsRegistered(r.nodes, id)].deviceId == id;
    }
  }

  // Who stands in the entry after one event: the device that claims; nobody right after a
  // confirmation; after a restart whoever the ROM names; otherwise the same as before.
  lemma HolderStep(p: Plan, r: Register, e: Event)
    requires Inv(p, r) && EventOk(e)
    ensures var s := Step(p, r, e);
            Holder(s.nodes, s.free) ==
              if Claims(p, r, e) then e.id
              else if Confirms(r, e) then 0
              else if e.Restart? then Holder(r.romNodes, r.romFree)
              else if e.Cut? then Holder(EndStep(r, e.success, e.opcode).romNodes, r.romFree)
              else Holder(r.nodes, r.free)
  {
    if e.Config? {
      ConfigTells(p, r, e.id);
    }
  }

  // The place of a device survives a query or an end report exactly if that is not the query of
  // another device without a confirmed slot.
  lemma PlaceSurvivesExactly(p: Plan, r: Register, e: Event)
    requires Inv(p, r) && EventOk(e) && (e.Config? || e.End?) && Holder(r.nodes, r.free) != 0
    ensures r.free < |r.nodes|
    ensures Step(p, r, e).nodes[r.free].deviceId == r.nodes[r.free].deviceId <==>
              !(e.Config? && e.id != r.nodes[r.free].deviceId && !Confirmed(r, e.id))
  {
    if e.Config? {
      ConfigTells(p, r, e.id);
      assert r.free < p.maxNode - p.reserveSlot;
    }
  }

  // ---------------------------------------------------------------- runs up to a confirmation

  // Queries and end reports that confirm nothing.
  ghost predicate Waiting(p: Plan, r: Register, es: seq<Event>)
    requires |r.romNodes| == |r.nodes|
    decreases |es|
  {
    es == [] || (EventOk(es[0]) && (es[0].Config? || es[0].End?) && !Confirms(r, es[0])
                 && Waiting(p, Step(p, r, es[0]), es[1..]))
  }

  // The last device of the run without a confirmed slot that asked; first if there is none.
  ghost function LastAsker(r: Register, es: seq<Event>, first: nat): nat
    decreases |es|
  {
    if es == [] then first
    else LastAsker(r, es[1..], if es[0].Config? && !Confirmed(r, es[0].id) then es[0].id else first)
  }

  lemma {:induction false} SameAsker(r: Register, r': Register, es: seq<Event>, first: nat)
    requires r.free == r'.free <= |r.nodes| && r.free <= |r'.nodes|
    requires forall i :: 0 <= i < r.free ==> r.nodes[i] == r'.nodes[i]
    ensures LastAsker(r, es, first) == LastAsker(r', es, first)
    decreases |es|
  {
    if es != [] {
      forall id
        ensures Confirmed(r, id) <==> Confirmed(r', id)
      {
      }
      SameAsker(r, r', es[1..], if es[0].Config? && !Confirmed(r, es[0].id) then es[0].id else first);
    }
  }

  // While nothing is confirmed the entry belongs to the last device that asked.
  lemma {:induction false} HolderIsLastAsker(p: Plan, r: Register, es: seq<Event>)
    requires Inv(p, r) && Waiting(p, r, es) && r.free < p.maxNode - p.reserveSlot
    ensures var s := Run(p, r, es);
            && Inv(p, s) && s.free == r.free && (forall i :: 0 <= i < r.free ==> s.nodes[i] == r.nodes[i])
            && Holder(s.nodes, s.free) == LastAsker(r, es, Holder(r.nodes, r.free))
    decreases |es|
  {
    if es != [] {
      var r1 := Step(p, r, es[0]);
      StepKeeps(p, r, es[0]);
      HolderStep(p, r, es[0]);
      HolderIsLastAsker(p, r1, es[1..]);
      SameAsker(r, r1, es[1..], Holder(r1.nodes, r1.free));
    }
  }

  // A device that was told a slot, then any queries and end reports that confirm nothing, then
  // the report that confirms the slot: it is confirmed for that device exactly if no other
  // device without a slot has asked after its last query.
  lemma {:induction false} ToldIsConfirmedExactly(p: Plan, r: Register, id: nat, es: seq<Event>)
    requires Inv(p, r) && id != 0 && Claims(p, r, Config(id))
    requires Waiting(p, ConfigStep(p, r, id).0, es)
    requires Run(p, ConfigStep(p, r, id).0, es).offered == r.free
    ensures ConfigStep(p, r, id).1 == r.free
    ensures var s := EndStep(Run(p, ConfigStep(p, r, id).0, es), true, CONFIG_OPCODE);
            && s.free == r.free + 1 && r.free < |s.nodes| && s.nodes[r.free].isAllotted
            && (s.nodes[r.free].deviceId == id <==> LastAsker(r, es, id) == id)
  {
    ConfigTells(p, r, id);
    ConfigKeeps(p, r, id);
    AfterTold(p, r, ConfigStep(p, r, id).0, id, es);
  }

  lemma AfterTold(p: Plan, r: Register, r1: Register, id: nat, es: seq<Event>)
    requires Inv(p, r1) && Waiting(p, r1, es) && r1.free == r.free < p.maxNode - p.reserveSlot
    requires r.free <= |r.nodes| && forall i :: 0 <= i < r.free ==> r1.nodes[i] == r.nodes[i]
    requires Holder(r1.nodes, r1.free) == id && Run(p, r1, es).offered == r.free
    ensures var s := EndStep(Run(p, r1, es), true, CONFIG_OPCODE);
            && s.free == r.free + 1 && r.free < |s.nodes| && s.nodes[r.free].isAllotted
            && s.nodes[r.free].deviceId == LastAsker(r, es, id)
  {
    HolderIsLastAsker(p, r1, es);
    SameAsker(r1, r, es, id);
    ConfirmsHolder(p, Run(p, r1, es));
  }

  // A success report confirms the device that stands in the offered entry.
  lemma ConfirmsHolder(p: Plan, r: Register)
    requires Inv(p, r) && r.offered == r.free
    ensures var s := EndStep(r, true, CONFIG_OPCODE);
            && s.free == r.free + 1 && r.free < |s.nodes| && s.nodes[r.free].isAllotted
            && s.nodes[r.free].deviceId == Holder(r.nodes, r.free)
  {
  }

  // ---------------------------------------------------------------- two devices told the same slot

  // An input: one device asks, its answer fails, another asks and its answer goes through. Both
  // were told the same slot, and it is the second one's.
  lemma TwoToldTheSameSlot(p: Plan, r: Register, a: nat, b: nat)
    requires Inv(p, r) && r.free < p.maxNode - p.reserveSlot && a != b && a != 0 && b != 0
    requires forall i :: 0 <= i < |r.nodes| ==> r.nodes[i].deviceId != a && r.nodes[i].deviceId != b
    ensures var (r1, slotA) := ConfigStep(p, r, a);
            var r2 := EndStep(r1, false, CONFIG_OPCODE);
            var (r3, slotB) := ConfigStep(p, r2, b);
            var r4 := EndStep(r3, true, CONFIG_OPCODE);
            && slotA == slotB == r.free && r4.free == r.free + 1
            && r4.nodes[r.free] == Node(b, r.free, true)
            && forall i :: 0 <= i < |r4.nodes| ==> r4.nodes[i].deviceId != a
  {
    TellsStranger(p, r, a);
    ConfigKeeps(p, r, a);
    TellsStranger(p, ConfigStep(p, r, a).0, b);
  }

  // The entry that a device in no entry is given.
  lemma TellsStranger(p: Plan, r: Register, id: nat)
    requires Inv(p, r) && id != 0 && r.free < p.maxNode - p.reserveSlot
    requires forall i :: 0 <= i < |r.nodes| ==> r.nodes[i].deviceId != id
    ensures ConfigStep(p, r, id)
         == (r.(nodes := r.nodes[r.free := r.nodes[r.free].(deviceId := id, slotNo := r.free)], offered := r.free), r.free)
  {
    Search(r.nodes, r.free, p.maxNode - p.reserveSlot, id);
  }

  // A device that names a slot which is not its own hears from its next ping that its
  // configuration has changed, unless the current node is its own.
  lemma LoserIsToldExactly(nodes: seq<Node>, current: nat, id: nat, slot: nat)
    requires current < |nodes| < NO_SLOT && slot < |nodes|
    ensures PongFor(nodes, current, id, slot).isConfigChanged <==>
              nodes[slot].deviceId != id && nodes[current].deviceId != id
  {
  }
}

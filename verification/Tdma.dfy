// The protocol end to end: a device works out its own windows by modular arithmetic, the base
// station counts slots with its timer, and the two agree about whose turn it is.
module Tdma {
  import opened Arith
  import opened TdmSpec
  import opened TdmClock
  import opened TdmRegister

  // The start that the device computes for its window after the second unix.
  function WindowStart(p: Plan, slot: nat, unix: nat): nat
    requires p.Valid()
  {
    CalcNextSlotUnix(unix, p.PerNodeInterval(), slot, p.momentDuration)
  }

  ghost predicate InWindow(p: Plan, slot: nat, unix: nat, t: nat)
    requires p.Valid()
  {
    WindowStart(p, slot, unix) <= t < WindowStart(p, slot, unix) + p.PerNodeInterval()
  }

  // No 32-bit overflow within two moments of unix.
  predicate InRange(p: Plan, unix: nat) {
    unix + 2 * p.momentDuration < 0x1_0000_0000
  }

  lemma SlotOffset(p: Plan, slot: nat)
    requires p.Valid() && p.Even() && slot < p.maxNode
    ensures p.PerNodeInterval() * slot + p.PerNodeInterval() <= p.momentDuration
    ensures p.PerNodeInterval() * slot % 0x1_0000 == p.PerNodeInterval() * slot
  {
    PlanFacts(p);
    Offset(p.PerNodeInterval(), slot, p.maxNode);
  }

  lemma Offset(i: nat, slot: nat, n: nat)
    requires slot < n
    ensures i * slot + i <= i * n
  {
    MulSum(n, slot, i);
    MulOrder(n - slot, i);
  }

  // What the device adds to unix, by the two branches of its computation.
  lemma WindowStartValue(p: Plan, slot: nat, unix: nat)
    requires p.Valid() && p.Even() && slot < p.maxNode && InRange(p, unix)
    ensures var cur, off := unix % p.momentDuration, p.PerNodeInterval() * slot;
            WindowStart(p, slot, unix) == unix + off - cur + if cur < off then 0 else p.momentDuration
  {
    SlotOffset(p, slot);
  }

  // The computed start is the first second after unix at which the device's slot begins.
  lemma WindowStartIsNext(p: Plan, slot: nat, unix: nat)
    requires p.Valid() && p.Even() && slot < p.maxNode && InRange(p, unix)
    ensures var start := WindowStart(p, slot, unix);
            && unix < start <= unix + p.momentDuration
            && start % p.momentDuration == p.PerNodeInterval() * slot
            && forall t :: unix < t < start ==> t % p.momentDuration != p.PerNodeInterval() * slot
  {
    SlotOffset(p, slot);
    WindowStartValue(p, slot, unix);
    NextAt(unix, p.momentDuration, p.PerNodeInterval() * slot);
  }

  lemma NextAt(unix: nat, d: nat, off: nat)
    requires off < d
    ensures var cur := unix % d;
            var start := unix + off - cur + if cur < off then 0 else d;
            && unix < start <= unix + d
            && start % d == off
            && forall t :: unix < t < start ==> t % d != off
  {
    var cur := unix % d;
    var start := unix + off - cur + if cur < off then 0 else d;
    ModFrom(unix, d, start);
    forall t | unix < t < start
      ensures t % d != off
    {
      ModFrom(unix, d, t);
    }
  }

  // Near the end of 32-bit time as well: what is computed is the next second at which the slot
  // begins, cut to 32 bits, so that it is right exactly if that second still fits.
  lemma WindowStartCut(p: Plan, slot: nat, unix: nat) returns (start: nat)
    requires p.Valid() && p.Even() && slot < p.maxNode
    ensures unix < start <= unix + p.momentDuration && start % p.momentDuration == p.PerNodeInterval() * slot
    ensures forall t :: unix < t < start ==> t % p.momentDuration != p.PerNodeInterval() * slot
    ensures WindowStart(p, slot, unix) == start % 0x1_0000_0000
    ensures WindowStart(p, slot, unix) == start <==> start < 0x1_0000_0000
  {
    SlotOffset(p, slot);
    NextAt(unix, p.momentDuration, p.PerNodeInterval() * slot);
    var cur, off := unix % p.momentDuration, p.PerNodeInterval() * slot;
    start := unix + off - cur + if cur < off then 0 else p.momentDuration;
    DivModBounds(start, 0x1_0000_0000);
  }

  // The station sees a slot begin exactly when a window begins for the devices of that slot.
  lemma SlotBeginsWithWindow(p: Plan, slot: nat, t: nat)
    requires p.Valid() && p.Even() && slot < p.maxNode && 0 < t && InRange(p, t - 1)
    ensures StartsSlot(p, t % p.momentDuration, slot) <==> WindowStart(p, slot, t - 1) == t
  {
    WindowStartIsNext(p, slot, t - 1);
  }

  // Throughout a window the slot of unix time is the device's.
  lemma WindowIsSlot(p: Plan, slot: nat, unix: nat, t: nat)
    requires p.Valid() && p.Even() && slot < p.maxNode && InRange(p, unix) && InWindow(p, slot, unix, t)
    ensures p.PerNodeInterval() > 0 && t % p.momentDuration / p.PerNodeInterval() == slot
  {
    PlanFacts(p);
    SlotOffset(p, slot);
    WindowStartIsNext(p, slot, unix);
    var start, d, i := WindowStart(p, slot, unix), p.momentDuration, p.PerNodeInterval();
    ModFrom(start, d, t);
    DivModUnique(t % d, i, slot, t - start);
  }

  // Windows of different slots never meet, whenever they were computed.
  lemma WindowsAreDisjoint(p: Plan, slot1: nat, slot2: nat, unix1: nat, unix2: nat, t: nat)
    requires p.Valid() && p.Even() && slot1 < p.maxNode && slot2 < p.maxNode && slot1 != slot2
    requires InRange(p, unix1) && InRange(p, unix2)
    ensures !(InWindow(p, slot1, unix1, t) && InWindow(p, slot2, unix2, t))
  {
    if InWindow(p, slot1, unix1, t) {
      WindowIsSlot(p, slot1, unix1, t);
      if InWindow(p, slot2, unix2, t) {
        WindowIsSlot(p, slot2, unix2, t);
      }
    }
  }

  // The send loop tests second() <= start + interval. At that last second the slot is over:
  // with more than one slot it is another device's.
  lemma InclusiveTestOverrunsByOne(p: Plan, slot: nat, unix: nat, t: nat)
    requires p.Valid() && p.Even() && slot < p.maxNode && 1 < p.maxNode && InRange(p, unix)
    requires WindowStart(p, slot, unix) <= t <= WindowStart(p, slot, unix) + p.PerNodeInterval()
    ensures p.PerNodeInterval() > 0
    ensures t % p.momentDuration / p.PerNodeInterval() == slot <==>
              t != WindowStart(p, slot, unix) + p.PerNodeInterval()
  {
    PlanFacts(p);
    var start, d, i := WindowStart(p, slot, unix), p.momentDuration, p.PerNodeInterval();
    if t < start + i {
      WindowIsSlot(p, slot, unix, t);
    } else {
      SlotOffset(p, slot);
      WindowStartIsNext(p, slot, unix);
      ModFrom(start, d, t);
      MulSum(slot, 1, i);
      if slot + 1 < p.maxNode {
        SlotOffset(p, slot + 1);
        ModOfMultiple(slot + 1, i);
      } else {
        SmallMod(0, i);
      }
    }
  }

  // While slot current runs, a ping is answered isMySlot exactly if it comes from the device of
  // that slot, for whom alone the station is free, and no confirmed device is told that its configuration has changed.
  ghost predicate AnswersOnly(nodes: seq<Node>, free: nat, current: nat, slot: nat) {
    && current < |nodes| && slot < free <= |nodes|
    && (forall id: nat, s: nat :: s < |nodes| ==>
          && (PongFor(nodes, current, id, s).isMySlot <==> id == nodes[slot].deviceId)
          && (PongFor(nodes, current, id, s).isBsFree <==> id == nodes[slot].deviceId))
    && (forall j :: 0 <= j < free ==>
          && (PongFor(nodes, current, nodes[j].deviceId, j).isMySlot <==> j == slot)
          && !PongFor(nodes, current, nodes[j].deviceId, j).isConfigChanged)
  }

  // A device confirmed in some slot, a base station that has been running since any time and is
  // synced, and a second inside the window that the device computed at any earlier time: the
  // station answers isMySlot to a ping from that device and to no other.
  lemma PongMatchesWindow(p: Plan, r: Register, es: seq<Event>, slot: nat, k: Clock, powerOn: nat, n: nat, unix: nat)
    requires Inv(p, r) && p.Even() && EventsOk(es) && slot < Run(p, r, es).free
    requires !k.isSync && n > 0 && Ticks(p, k, powerOn, n).isSync
    requires InRange(p, unix) && InWindow(p, slot, unix, powerOn + n - 1)
    ensures AnswersOnly(Run(p, r, es).nodes, Run(p, r, es).free, Ticks(p, k, powerOn, n).slot, slot)
  {
    RegistrationIsSafe(p, r, es);
    SlotNow(p, slot, k, powerOn, n, unix);
    ConfirmedAnswers(Run(p, r, es).nodes, Run(p, r, es).free, slot);
  }

  lemma SlotNow(p: Plan, slot: nat, k: Clock, powerOn: nat, n: nat, unix: nat)
    requires p.Valid() && p.Even() && slot < p.maxNode
    requires !k.isSync && n > 0 && Ticks(p, k, powerOn, n).isSync
    requires InRange(p, unix) && InWindow(p, slot, unix, powerOn + n - 1)
    ensures Ticks(p, k, powerOn, n).slot == slot
  {
    ClockShowsUnixTime(p, k, powerOn, n);
    WindowIsSlot(p, slot, unix, powerOn + n - 1);
  }

  lemma ConfirmedAnswers(nodes: seq<Node>, free: nat, slot: nat)
    requires slot < free <= |nodes| < NO_SLOT
    requires forall i, j :: 0 <= i < j < free ==> nodes[i].deviceId != nodes[j].deviceId
    ensures AnswersOnly(nodes, free, slot, slot)
  {
  }
}

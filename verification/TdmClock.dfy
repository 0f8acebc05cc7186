// The slot clock counts seconds by itself; what it counts is the closed form of unix time,
// exactly when the slots fill the moment.
module TdmClock {
  import opened Arith
  import opened TdmSpec

  // A synced clock at second m of its own cycle.
  function At(p: Plan, m: nat): Clock
    requires p.Valid()
  {
    Interval(p);
    SlotStart(p.PerNodeInterval(), m)
  }

  function SlotStart(i: nat, m: nat): Clock
    requires i > 0
  {
    DivModBounds(m, i);
    Clock(true, m, m - m % i, m / i)
  }

  lemma Interval(p: Plan)
    requires p.Valid()
    ensures 0 < p.PerNodeInterval() == p.momentDuration / p.maxNode < 256
  {
  }

  function Cycle(p: Plan): nat
    requires p.Valid()
  {
    p.PerNodeInterval() * p.maxNode
  }

  lemma PlanFacts(p: Plan)
    requires p.Valid()
    ensures p.PerNodeInterval() == p.momentDuration / p.maxNode > 0
    ensures 0 < Cycle(p) <= p.momentDuration
    ensures Cycle(p) == p.momentDuration <==> p.Even()
  {
    MulOrder(p.maxNode, p.PerNodeInterval());
    assert p.momentDuration == p.momentDuration / p.maxNode * p.maxNode + p.momentDuration % p.maxNode;
  }

  // Inside the cycle, division by the interval gives a slot below maxNode.
  lemma SlotBound(p: Plan, m: nat)
    requires p.Valid() && m < Cycle(p)
    ensures p.PerNodeInterval() > 0 && m / p.PerNodeInterval() < p.maxNode
  {
    PlanFacts(p);
    var i := p.PerNodeInterval();
    MulSum(p.maxNode, m / i, i);
    MulOrder(m / i - p.maxNode, i);
  }

  // One tick of a synced clock in slot q, r seconds into it.
  lemma TickOfParts(p: Plan, m: nat, q: nat, r: nat)
    requires p.Valid() && r <= m && r < p.PerNodeInterval() && q < p.maxNode && m + 1 < 0x1_0000
    ensures TickStep(p, Clock(true, m, m - r, q), 0) ==
              if r + 1 < p.PerNodeInterval() then Clock(true, m + 1, m - r, q)
              else if q + 1 < p.maxNode then Clock(true, m + 1, m + 1, q + 1)
              else Clock(true, 0, 0, 0)
  {
  }

  // The last second of the last slot is the last of the cycle.
  lemma CycleEnds(p: Plan, m: nat)
    requires p.Valid() && m < Cycle(p)
    ensures p.PerNodeInterval() > 0
    ensures var i := p.PerNodeInterval();
            m + 1 == Cycle(p) <==> m % i + 1 == i && m / i + 1 == p.maxNode
  {
    PlanFacts(p);
    var i := p.PerNodeInterval();
    DivModBounds(m, i);
    if m + 1 == Cycle(p) {
      MulSum(p.maxNode, 1, i);
      DivModUnique(m, i, p.maxNode - 1, i - 1);
    } else if m / i + 1 == p.maxNode {
      MulSum(p.maxNode, 1, i);
    }
  }

  lemma TickCounts(p: Plan, m: nat, unix: nat)
    requires p.Valid() && m < Cycle(p)
    ensures TickStep(p, At(p, m), unix) == At(p, if m + 1 == Cycle(p) then 0 else m + 1)
  {
    PlanFacts(p);
    SlotBound(p, m);
    CycleEnds(p, m);
    var i := p.PerNodeInterval();
    DivModBounds(m, i);
    TickOfParts(p, m, m / i, m % i);
    NextMod(m, i);
    SmallMod(0, i);
    assert At(p, m) == Clock(true, m, m - m % i, m / i);
  }

  // A clock that is off follows unix time and starts when a slot begins.
  lemma TickOff(p: Plan, k: Clock, unix: nat)
    requires p.Valid() && p.Even() && !k.isSync
    ensures p.PerNodeInterval() > 0
    ensures TickStep(p, k, unix) ==
              if unix % p.momentDuration % p.PerNodeInterval() == 0 then At(p, unix % p.momentDuration)
              else k.(moment := unix % p.momentDuration)
  {
    PlanFacts(p);
    DivModBounds(unix, p.momentDuration);
    SlotBound(p, unix % p.momentDuration);
  }

  // The tick from second x to second x + 1 of a synced clock, counted without end.
  lemma TickAdvances(p: Plan, c: nat, x: nat, unix: nat)
    requires p.Valid() && c == Cycle(p) && c > 0
    ensures TickStep(p, At(p, x % c), unix) == At(p, (x + 1) % c)
  {
    DivModBounds(x, c);
    NextMod(x, c);
    TickCounts(p, x % c, unix);
  }

  // From a synced clock on, n ticks advance the cycle by n.
  lemma {:induction false} SyncedTicks(p: Plan, m: nat, unix: nat, n: nat)
    requires p.Valid() && m < Cycle(p)
    ensures Ticks(p, At(p, m), unix, n) == At(p, (m + n) % Cycle(p))
    ensures (m + n) % Cycle(p) < Cycle(p)
  {
    var c := Cycle(p);
    DivModBounds(m + n, c);
    if n == 0 {
      SmallMod(m, c);
    } else {
      SyncedTicks(p, m, unix, n - 1);
      TickAdvances(p, c, m + n - 1, unix + n - 1);
    }
  }

  // What a clock should show at a given second.
  ghost predicate Shows(p: Plan, k: Clock, unix: nat)
    requires p.Valid()
  {
    PlanFacts(p);
    && k.moment == unix % p.momentDuration
    && k.slot == unix % p.momentDuration / p.PerNodeInterval()
    && k.slot < p.maxNode
  }

  // The first second of a slot at or after unix, counted from unix.
  ghost predicate SlotBegins(p: Plan, unix: nat, j: nat)
    requires p.Valid()
  {
    PlanFacts(p);
    (unix + j) % p.momentDuration % p.PerNodeInterval() == 0
  }

  ghost predicate StartsSlot(p: Plan, m: nat, slot: nat)
    requires p.Valid()
  {
    slot < p.maxNode && m == p.PerNodeInterval() * slot
  }

  // The remainder is zero exactly when one of the slots begins.
  lemma BeginsExactly(p: Plan, unix: nat)
    requires p.Valid() && p.Even()
    ensures SlotBegins(p, unix, 0) <==> exists slot: nat :: StartsSlot(p, unix % p.momentDuration, slot)
  {
    PlanFacts(p);
    var m, i := unix % p.momentDuration, p.PerNodeInterval();
    SlotBound(p, m);
    DivModBounds(m, i);
    if m % i == 0 {
      assert StartsSlot(p, m, m / i);
    }
    if slot: nat :| StartsSlot(p, m, slot) {
      ModOfMultiple(slot, i);
    }
  }

  lemma AtShows(p: Plan, unix: nat)
    requires p.Valid() && p.Even()
    ensures Shows(p, At(p, unix % p.momentDuration), unix)
  {
    PlanFacts(p);
    SlotBound(p, unix % p.momentDuration);
  }

  // From power-on, the clock is off until the first slot boundary and shows unix time from then
  // on; the second of the moment is right from the first tick.
  lemma {:induction false} ClockShowsUnixTime(p: Plan, k: Clock, unix: nat, n: nat)
    requires p.Valid() && p.Even() && !k.isSync && n > 0
    ensures Ticks(p, k, unix, n).isSync <==> exists j :: 0 <= j < n && SlotBegins(p, unix, j)
    ensures Ticks(p, k, unix, n).moment == (unix + n - 1) % p.momentDuration
    ensures Ticks(p, k, unix, n).isSync ==>
              && Shows(p, Ticks(p, k, unix, n), unix + n - 1)
              && Ticks(p, k, unix, n) == At(p, (unix + n - 1) % p.momentDuration)
  {
    var before, t := Ticks(p, k, unix, n - 1), unix + n - 1;
    AtShows(p, t);
    if n > 1 {
      ClockShowsUnixTime(p, k, unix, n - 1);
    }
    if before.isSync {
      TickOn(p, t - 1);
    } else {
      TickOff(p, before, t);
      assert SlotBegins(p, unix, n - 1) <==> Ticks(p, k, unix, n).isSync;
    }
  }

  lemma TickOn(p: Plan, unix: nat)
    requires p.Valid() && p.Even()
    ensures TickStep(p, At(p, unix % p.momentDuration), unix + 1) == At(p, (unix + 1) % p.momentDuration)
  {
    PlanFacts(p);
    NextMod(unix, p.momentDuration);
    TickCounts(p, unix % p.momentDuration, unix + 1);
  }

  // Within one interval a slot begins, so a fresh clock is synced after that many ticks.
  lemma {:induction false} SyncsWithinInterval(p: Plan, k: Clock, unix: nat, n: nat)
    requires p.Valid() && p.Even() && !k.isSync && n >= p.PerNodeInterval()
    ensures Ticks(p, k, unix, n).isSync
  {
    PlanFacts(p);
    var i := p.PerNodeInterval();
    var m := unix % p.momentDuration;
    var j := if m % i == 0 then 0 else i - m % i;
    ClockShowsUnixTime(p, k, unix, n);
    SlotBoundary(unix, p.momentDuration, i, p.maxNode);
    assert SlotBegins(p, unix, j);
  }

  // The next multiple of i above m, below or at another multiple d.
  lemma NextMultiple(m: nat, i: nat, n: nat)
    requires i > 0 && m < i * n && m % i != 0
    ensures (m + i - m % i) % i == 0 && m + i - m % i <= i * n
  {
    DivModBounds(m, i);
    MultipleAbove(m / i, m % i, i, n);
    ModOfMultiple(m / i + 1, i);
  }

  lemma MultipleAbove(q: nat, r: nat, i: nat, n: nat)
    requires 0 < r < i && q * i + r < i * n
    ensures (q + 1) * i == q * i + i <= i * n
  {
    MulSum(q, 1, i);
    MulSum(n, q + 1, i);
    MulOrder(q + 1 - n, i);
  }

  // The distance to the next multiple of i, on a cycle that is itself a multiple of i.
  lemma SlotBoundary(unix: nat, d: nat, i: nat, n: nat)
    requires i > 0 && d > 0 && d == i * n
    ensures var j := if unix % d % i == 0 then 0 else i - unix % d % i;
            j < i && (unix + j) % d % i == 0
  {
    var m := unix % d;
    if m % i != 0 {
      NextMultiple(m, i, n);
      ModFrom(unix, d, unix + i - m % i);
      SmallMod(0, i);
    }
  }

  // For which plans the clock never leaves unix time: the slots must fill the moment.
  lemma ShowsUnixTimeExactlyWhenEven(p: Plan)
    requires p.Valid()
    ensures (forall unix: nat, n: nat, k: Clock | !k.isSync && n > 0 && Ticks(p, k, unix, n).isSync ::
               Shows(p, Ticks(p, k, unix, n), unix + n - 1)) <==> p.Even()
  {
    if p.Even() {
      forall unix: nat, n: nat, k: Clock | !k.isSync && n > 0 && Ticks(p, k, unix, n).isSync
        ensures Shows(p, Ticks(p, k, unix, n), unix + n - 1)
      {
        ClockShowsUnixTime(p, k, unix, n);
      }
    } else {
      PlanFacts(p);
      var off, c := Clock(false, 0, 0, 0), Cycle(p);
      BackToZero(p, off);
      SmallMod(c, p.momentDuration);
      assert !Shows(p, Ticks(p, off, 0, c + 1), 0 + (c + 1) - 1);
    }
  }

  // Switched on at second 0, the clock is back at 0 when the slots are over.
  lemma BackToZero(p: Plan, off: Clock)
    requires p.Valid() && !off.isSync
    ensures Ticks(p, off, 0, Cycle(p) + 1) == At(p, 0)
  {
    PlanFacts(p);
    var c := Cycle(p);
    SyncAtZero(p, off);
    TicksJoin(p, off, 0, 1, c);
    SyncedTicks(p, 0, 1, c);
    AddModulus(0, c);
    SmallMod(0, c);
  }

  lemma SyncAtZero(p: Plan, off: Clock)
    requires p.Valid() && !off.isSync
    ensures Ticks(p, off, 0, 1) == At(p, 0)
  {
    PlanFacts(p);
    SmallMod(0, p.momentDuration);
    SmallMod(0, p.PerNodeInterval());
    assert Ticks(p, off, 0, 0) == off;
  }

  lemma {:induction false} TicksJoin(p: Plan, k: Clock, unix: nat, a: nat, b: nat)
    requires p.Valid()
    ensures Ticks(p, Ticks(p, k, unix, a), unix + a, b) == Ticks(p, k, unix, a + b)
  {
    if b > 0 {
      TicksJoin(p, k, unix, a, b - 1);
    }
  }
}

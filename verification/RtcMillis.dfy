// The software clock RTC_Millis: whole seconds are taken from a 32-bit millisecond counter
// that rolls over, and the rest of a second is carried along in lastMillis.
module RtcMillis {
  import opened Arith

  const WORD: nat := 0x1_0000_0000

  datatype Clock = Clock(lastMillis: nat, lastUnix: nat)

  function AdjustStep(millis: nat, unix: nat): Clock {
    Clock(millis % WORD, unix % WORD)
  }

  function NowStep(k: Clock, millis: nat): Clock {
    var elapsedSeconds := (millis + WORD - k.lastMillis) % WORD / 1000;
    Clock((k.lastMillis + elapsedSeconds * 1000) % WORD, (k.lastUnix + elapsedSeconds) % WORD)
  }

  // A clock set at counter value m0, after true elapsed milliseconds: what it must hold.
  function Exact(m0: nat, start: nat, elapsed: nat): Clock {
    Clock((m0 + (elapsed - elapsed % 1000)) % WORD, (start + elapsed / 1000) % WORD)
  }

  // The counter when elapsed milliseconds have passed since m0.
  function Millis(m0: nat, elapsed: nat): nat {
    (m0 + elapsed) % WORD
  }

  // One call, gap milliseconds after the one before.
  function Call(m0: nat, k: Clock, elapsed: nat, gap: nat): Clock {
    NowStep(k, Millis(m0, elapsed + gap))
  }

  // What the subtraction of counters sees: the time since the last full second, modulo 2^32.
  lemma SeenElapsed(m0: nat, start: nat, elapsed: nat, gap: nat)
    ensures var k := Exact(m0, start, elapsed);
            (Millis(m0, elapsed + gap) + WORD - k.lastMillis) % WORD == (elapsed % 1000 + gap) % WORD
  {
    Difference(m0 + elapsed + gap, m0 + elapsed - elapsed % 1000);
  }

  lemma Difference(a: nat, b: nat)
    requires b <= a
    ensures (a % WORD + WORD - b % WORD) % WORD == (a - b) % WORD
  {
    var q := a / WORD - b / WORD;
    AddMultiple(a - b, 1 - q, WORD);
    assert a % WORD + WORD - b % WORD == a - b + (1 - q) * WORD;
  }

  // A call is exact if and only if less than 2^32 milliseconds have passed since the last full
  // second that the clock counted. The gaps here are shorter than one rollover themselves.
  lemma CallIsExact(m0: nat, start: nat, elapsed: nat, gap: nat)
    requires gap < WORD
    ensures elapsed % 1000 + gap < WORD <==>
              Call(m0, Exact(m0, start, elapsed), elapsed, gap).lastUnix == Exact(m0, start, elapsed + gap).lastUnix
    ensures elapsed % 1000 + gap < WORD ==>
              Call(m0, Exact(m0, start, elapsed), elapsed, gap) == Exact(m0, start, elapsed + gap)
  {
    if elapsed % 1000 + gap < WORD {
      SoonEnough(m0, start, elapsed, gap);
    } else {
      TooLate(m0, start, elapsed, gap);
    }
  }

  lemma SoonEnough(m0: nat, start: nat, elapsed: nat, gap: nat)
    requires elapsed % 1000 + gap < WORD
    ensures Call(m0, Exact(m0, start, elapsed), elapsed, gap) == Exact(m0, start, elapsed + gap)
  {
    var x := elapsed % 1000 + gap;
    SeenElapsed(m0, start, elapsed, gap);
    SecondsAdd(elapsed, gap);
    SmallMod(x, WORD);
    WrapTwice(m0 + (elapsed - elapsed % 1000), x / 1000 * 1000);
    WrapTwice(start + elapsed / 1000, x / 1000);
  }

  // One round of the counter, 4294967 whole seconds, is missing.
  lemma TooLate(m0: nat, start: nat, elapsed: nat, gap: nat)
    requires gap < WORD <= elapsed % 1000 + gap
    ensures Call(m0, Exact(m0, start, elapsed), elapsed, gap).lastUnix != Exact(m0, start, elapsed + gap).lastUnix
  {
    var x := elapsed % 1000 + gap;
    SeenElapsed(m0, start, elapsed, gap);
    SecondsAdd(elapsed, gap);
    WrapTwice(start + elapsed / 1000, (x - WORD) / 1000);
    assert x % WORD == x - WORD;
    Apart(start + elapsed / 1000 + (x - WORD) / 1000, x / 1000 - (x - WORD) / 1000);
  }

  lemma SecondsAdd(elapsed: nat, gap: nat)
    ensures (elapsed + gap) / 1000 == elapsed / 1000 + (elapsed % 1000 + gap) / 1000
    ensures elapsed + gap - (elapsed + gap) % 1000
         == elapsed - elapsed % 1000 + (elapsed % 1000 + gap) / 1000 * 1000
  {
    AddMultiple(elapsed % 1000 + gap, elapsed / 1000, 1000);
  }

  lemma WrapTwice(a: nat, b: nat)
    ensures (a % WORD + b) % WORD == (a + b) % WORD
  {
    AddMultiple(a % WORD + b, a / WORD, WORD);
  }

  lemma Apart(a: nat, d: nat)
    requires 0 < d < WORD
    ensures a % WORD != (a + d) % WORD
  {
  }

  // ---------------------------------------------------------------- runs

  // A run of calls by the gaps between them.
  function Run(m0: nat, k: Clock, elapsed: nat, gaps: seq<nat>): Clock
    decreases |gaps|
  {
    if gaps == [] then k else Run(m0, Call(m0, k, elapsed, gaps[0]), elapsed + gaps[0], gaps[1..])
  }

  function Total(gaps: seq<nat>): nat {
    if gaps == [] then 0 else gaps[0] + Total(gaps[1..])
  }

  // Every call comes within 2^32 ms of the last full second before it.
  predicate OftenEnough(elapsed: nat, gaps: seq<nat>)
    decreases |gaps|
  {
    gaps == [] || (elapsed % 1000 + gaps[0] < WORD && OftenEnough(elapsed + gaps[0], gaps[1..]))
  }

  // However many calls and rollovers: the clock has advanced by the whole seconds that passed.
  lemma {:induction false} NeverDrifts(m0: nat, start: nat, elapsed: nat, gaps: seq<nat>)
    requires OftenEnough(elapsed, gaps)
    ensures Run(m0, Exact(m0, start, elapsed), elapsed, gaps) == Exact(m0, start, elapsed + Total(gaps))
    decreases |gaps|
  {
    if gaps != [] {
      CallIsExact(m0, start, elapsed, gaps[0]);
      NeverDrifts(m0, start, elapsed + gaps[0], gaps[1..]);
    }
  }

  // The clock is right after every call of a run.
  predicate AlwaysRight(m0: nat, start: nat, k: Clock, elapsed: nat, gaps: seq<nat>)
    decreases |gaps|
  {
    gaps == [] ||
    var k1 := Call(m0, k, elapsed, gaps[0]);
    && k1.lastUnix == (start + (elapsed + gaps[0]) / 1000) % WORD
    && AlwaysRight(m0, start, k1, elapsed + gaps[0], gaps[1..])
  }

  // For runs of gaps below 2^32 ms the condition is exact: the clock is right after every call
  // if and only if every call comes often enough. Gaps below 2^32 alone are not enough.
  lemma {:induction false} RightExactlyWhenOftenEnough(m0: nat, start: nat, elapsed: nat, gaps: seq<nat>)
    requires forall i :: 0 <= i < |gaps| ==> gaps[i] < WORD
    ensures AlwaysRight(m0, start, Exact(m0, start, elapsed), elapsed, gaps) <==> OftenEnough(elapsed, gaps)
    decreases |gaps|
  {
    if gaps != [] {
      CallIsExact(m0, start, elapsed, gaps[0]);
      if elapsed % 1000 + gaps[0] < WORD {
        RightExactlyWhenOftenEnough(m0, start, elapsed + gaps[0], gaps[1..]);
      }
    }
  }

  // Two calls, less than 2^32 ms apart, that lose a whole round of the counter.
  lemma GapsBelowRolloverAreNotEnough(m0: nat, start: nat)
    ensures !AlwaysRight(m0, start, AdjustStep(m0, start), 0, [999, WORD - 1])
  {
    var gaps: seq<nat> := [999, WORD - 1];
    assert gaps[1..] == [WORD - 1];
    assert Exact(m0, start, 0) == AdjustStep(m0, start);
    RightExactlyWhenOftenEnough(m0, start, 0, gaps);
  }

  // The bound in milliseconds, half a second after the last full one: 2^32 - 501 is in time and
  // 2^32 - 500 is not.
  lemma BoundInMilliseconds(m0: nat, start: nat, elapsed: nat)
    requires elapsed % 1000 == 500
    ensures AlwaysRight(m0, start, Exact(m0, start, elapsed), elapsed, [4294966795])
    ensures !AlwaysRight(m0, start, Exact(m0, start, elapsed), elapsed, [4294966796])
  {
    RightExactlyWhenOftenEnough(m0, start, elapsed, [4294966795]);
    RightExactlyWhenOftenEnough(m0, start, elapsed, [4294966796]);
  }

  class RtcMillis {
    var lastMillis: nat
    var lastUnix: nat

    ghost function St(): Clock
      reads this
    {
      Clock(lastMillis, lastUnix)
    }

    method Adjust(millis: nat, unix: nat)
      requires millis < WORD && unix < WORD
      modifies this
      ensures St() == AdjustStep(millis, unix) == Exact(millis, unix, 0)
    {
      lastMillis := millis;
      lastUnix := unix;
    }

    method Now(millis: nat) returns (unix: nat)
      requires millis < WORD && lastMillis < WORD
      modifies this
      ensures St() == NowStep(old(St()), millis) && unix == lastUnix && lastMillis < WORD
    {
      var elapsedSeconds := (millis + WORD - lastMillis) % WORD / 1000;
      lastMillis := (lastMillis + elapsedSeconds * 1000) % WORD;
      lastUnix := (lastUnix + elapsedSeconds) % WORD;
      unix := lastUnix;
    }
  }
}

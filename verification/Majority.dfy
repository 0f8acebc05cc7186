// The vote over several readings of the network time: the value that more than half of them
// agree on, found with one counter.
module Majority {
  function Count(values: seq<nat>, x: nat): (n: nat)
    ensures n <= |values|
  {
    if values == [] then 0
    else Count(values[..|values| - 1], x) + if values[|values| - 1] == x then 1 else 0
  }

  predicate IsMajority(values: seq<nat>, x: nat) {
    2 * Count(values, x) > |values|
  }

  lemma {:induction false} TwoCounts(values: seq<nat>, x: nat, y: nat)
    requires x != y
    ensures Count(values, x) + Count(values, y) <= |values|
  {
    if values != [] {
      TwoCounts(values[..|values| - 1], x, y);
    }
  }

  lemma AtMostOne(values: seq<nat>, x: nat, y: nat)
    requires IsMajority(values, x) && IsMajority(values, y)
    ensures x == y
  {
    if x != y {
      TwoCounts(values, x, y);
    }
  }

  // What the single pass knows: apart from counter copies of the candidate, the values read so
  // far pair off into unequal ones.
  ghost predicate PairsOff(values: seq<nat>, candidate: nat, counter: nat) {
    && 2 * Count(values, candidate) <= |values| + counter
    && forall x :: x != candidate ==> 2 * Count(values, x) <= |values| - counter
  }

  lemma CountNext(values: seq<nat>, i: nat, x: nat)
    requires i < |values|
    ensures Count(values[..i + 1], x) == Count(values[..i], x) + if values[i] == x then 1 else 0
  {
    assert values[..i + 1][..i] == values[..i];
  }

  lemma PairsNext(values: seq<nat>, i: nat, candidate: nat, counter: nat)
    requires i < |values| && PairsOff(values[..i], candidate, counter)
    ensures var kept := if counter == 0 then values[i] else candidate;
            PairsOff(values[..i + 1], kept, if values[i] == kept then counter + 1 else counter - 1)
  {
    var kept := if counter == 0 then values[i] else candidate;
    var next := values[..i + 1];
    CountNext(values, i, kept);
    forall x | x != kept
      ensures 2 * Count(next, x) <= |next| - (if values[i] == kept then counter + 1 else counter - 1)
    {
      CountNext(values, i, x);
    }
  }

  // 8-bit counters: at most 127 values. A vote for 0 cannot be told from no majority.
  method MajorityElement(values: seq<nat>) returns (r: nat)
    requires 0 < |values| <= 127
    ensures forall x :: IsMajority(values, x) ==> r == x
    ensures (forall x :: !IsMajority(values, x)) ==> r == 0
  {
    var counter, candidate, i := 0, values[0], 0;
    while i < |values|
      invariant 0 <= i <= |values| && 0 <= counter <= i
      invariant PairsOff(values[..i], candidate, counter)
    {
      PairsNext(values, i, candidate, counter);
      if counter == 0 {
        candidate := values[i];
      }
      if values[i] == candidate {
        counter := counter + 1;
      } else {
        counter := counter - 1;
      }
      i := i + 1;
    }
    assert values[..i] == values;
    i := 0;
    var maxCount := 0;
    while i < |values|
      invariant 0 <= i <= |values|
      invariant maxCount == Count(values[..i], candidate)
    {
      CountNext(values, i, candidate);
      if values[i] == candidate {
        maxCount := maxCount + 1;
      }
      i := i + 1;
    }
    assert values[..i] == values;
    if maxCount > |values| / 2 {
      assert IsMajority(values, candidate);
      return candidate;
    } else {
      return 0;
    }
  }
}

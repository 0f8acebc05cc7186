// A check value that is folded over a message by adding each symbol and applying a linear
// step: what that says about corruptions, whatever the symbols are.
module LinearCode {
  // n steps from x; a count that is a constant is unrolled step by step only
  function Iterate<T>(step: T -> T, x: T, n: nat): T
    decreases n, [x]
  {
    if n == 0 then x else step(Iterate(step, x, n - 1))
  }

  // Each symbol is added to the register, and the register is stepped on rounds times.
  function Fold<T>(add: (T, T) -> T, step: T -> T, rounds: nat, x: T, data: seq<T>): T
    decreases |data|
  {
    if data == [] then x else Fold(add, step, rounds, Iterate(step, add(x, data[0]), rounds), data[1..])
  }

  function Add<T>(add: (T, T) -> T, a: seq<T>, b: seq<T>): (r: seq<T>)
    requires |a| == |b|
    ensures |r| == |a|
  {
    seq(|a|, i requires 0 <= i < |a| => add(a[i], b[i]))
  }

  ghost predicate Associates<T>(add: (T, T) -> T, a: T, b: T, c: T) {
    add(add(a, b), c) == add(a, add(b, c))
  }

  ghost predicate Commutes<T>(add: (T, T) -> T, a: T, b: T) {
    add(a, b) == add(b, a)
  }

  // What is needed of exclusive or.
  ghost predicate Additive<T(!new)>(add: (T, T) -> T, zero: T) {
    && (forall a, b, c :: Associates(add, a, b, c))
    && (forall a, b :: Commutes(add, a, b))
    && (forall a :: add(zero, a) == a)
    && (forall a, b :: add(a, b) == zero <==> a == b)
  }

  ghost predicate Linear<T(!new)>(add: (T, T) -> T, step: T -> T) {
    forall x, y :: step(add(x, y)) == add(step(x), step(y))
  }

  // Only zero goes to zero.
  ghost predicate Faithful<T(!new)>(step: T -> T, zero: T) {
    forall x :: step(x) == zero <==> x == zero
  }

  lemma Medial<T(!new)>(add: (T, T) -> T, zero: T, a: T, b: T, c: T, d: T)
    requires Additive(add, zero)
    ensures add(add(a, b), add(c, d)) == add(add(a, c), add(b, d))
  {
    assert Associates(add, a, b, add(c, d)) && Associates(add, b, c, d);
    assert Commutes(add, b, c);
    assert Associates(add, c, b, d) && Associates(add, a, c, add(b, d));
  }

  lemma {:induction false} IterateLinear<T(!new)>(add: (T, T) -> T, step: T -> T, x: T, y: T, n: nat)
    requires Linear(add, step)
    ensures Iterate(step, add(x, y), n) == add(Iterate(step, x, n), Iterate(step, y, n))
  {
    if n > 0 {
      IterateLinear(add, step, x, y, n - 1);
    }
  }

  // The check value of a sum of messages is the sum of their check values.
  lemma {:induction false} FoldLinear<T(!new)>(add: (T, T) -> T, zero: T, step: T -> T, n: nat,
                                               x: T, y: T, a: seq<T>, b: seq<T>)
    requires Additive(add, zero) && Linear(add, step) && |a| == |b|
    ensures Fold(add, step, n, add(x, y), Add(add, a, b)) == add(Fold(add, step, n, x, a), Fold(add, step, n, y, b))
    decreases |a|
  {
    if a != [] {
      var x1, y1 := add(x, a[0]), add(y, b[0]);
      Medial(add, zero, x, y, a[0], b[0]);
      IterateLinear(add, step, x1, y1, n);
      assert Add(add, a, b)[1..] == Add(add, a[1..], b[1..]);
      FoldLinear(add, zero, step, n, Iterate(step, x1, n), Iterate(step, y1, n), a[1..], b[1..]);
    }
  }

  lemma {:induction false} IterateFaithful<T(!new)>(step: T -> T, zero: T, x: T, n: nat)
    requires Faithful(step, zero)
    ensures Iterate(step, x, n) == zero <==> x == zero
  {
    if n > 0 {
      IterateFaithful(step, zero, x, n - 1);
    }
  }

  lemma {:induction false} FoldAppend<T>(add: (T, T) -> T, step: T -> T, n: nat, x: T, a: seq<T>, b: seq<T>)
    ensures Fold(add, step, n, x, a + b) == Fold(add, step, n, Fold(add, step, n, x, a), b)
    decreases |a|
  {
    if a == [] {
      assert a + b == b;
    } else {
      assert (a + b)[1..] == a[1..] + b;
      FoldAppend(add, step, n, Iterate(step, add(x, a[0]), n), a[1..], b);
    }
  }

  lemma FoldOne<T>(add: (T, T) -> T, step: T -> T, n: nat, x: T, b: T)
    ensures Fold(add, step, n, x, [b]) == Iterate(step, add(x, b), n)
  {
    assert [b][1..] == [];
  }

  // A message has a given check value exactly when both together have the check value zero.
  lemma CheckedWord<T(!new)>(add: (T, T) -> T, zero: T, step: T -> T, n: nat, data: seq<T>, check: T)
    requires Additive(add, zero) && Faithful(step, zero)
    ensures Fold(add, step, n, zero, data) == check <==> Fold(add, step, n, zero, data + [check]) == zero
  {
    var c := Fold(add, step, n, zero, data);
    FoldAppend(add, step, n, zero, data, [check]);
    FoldOne(add, step, n, c, check);
    IterateFaithful(step, zero, add(c, check), n);
  }

  // A corruption of a correct word goes unnoticed exactly when its own check value is zero.
  lemma UndetectedExactly<T(!new)>(add: (T, T) -> T, zero: T, step: T -> T, n: nat,
                                   data: seq<T>, check: T, flips: seq<T>, checkFlips: T)
    requires Additive(add, zero) && Linear(add, step) && Faithful(step, zero)
    requires Fold(add, step, n, zero, data) == check && |flips| == |data|
    ensures Fold(add, step, n, zero, flips + [checkFlips]) == zero <==>
              Fold(add, step, n, zero, Add(add, data, flips)) == add(check, checkFlips)
  {
    CheckedWord(add, zero, step, n, data, check);
    CheckedWord(add, zero, step, n, Add(add, data, flips), add(check, checkFlips));
    FoldLinear(add, zero, step, n, zero, zero, data + [check], flips + [checkFlips]);
    assert Add(add, data, flips) + [add(check, checkFlips)] == Add(add, data + [check], flips + [checkFlips]);
    assert add(zero, zero) == zero;
    assert add(zero, Fold(add, step, n, zero, flips + [checkFlips])) == Fold(add, step, n, zero, flips + [checkFlips]);
  }

  // ---------------------------------------------------------------- parity

  function Sum<T>(weight: T -> nat, data: seq<T>): nat {
    if data == [] then 0 else weight(data[0]) + Sum(weight, data[1..])
  }

  // The parity of the weight adds up, and the step keeps it.
  ghost predicate KeepsParity<T(!new)>(add: (T, T) -> T, step: T -> T, weight: T -> nat) {
    && (forall x, y :: weight(add(x, y)) % 2 == (weight(x) + weight(y)) % 2)
    && (forall x :: weight(step(x)) % 2 == weight(x) % 2)
  }

  lemma {:induction false} IterateKeepsParity<T(!new)>(add: (T, T) -> T, step: T -> T, weight: T -> nat, x: T, n: nat)
    requires KeepsParity(add, step, weight)
    ensures weight(Iterate(step, x, n)) % 2 == weight(x) % 2
  {
    if n > 0 {
      IterateKeepsParity(add, step, weight, x, n - 1);
    }
  }

  lemma SameParity(a: nat, b: nat, c: nat)
    requires a % 2 == b % 2
    ensures (a + c) % 2 == (b + c) % 2
  {
  }

  lemma {:induction false} FoldKeepsParity<T(!new)>(add: (T, T) -> T, step: T -> T, n: nat, weight: T -> nat,
                                                    x: T, data: seq<T>)
    requires KeepsParity(add, step, weight)
    ensures weight(Fold(add, step, n, x, data)) % 2 == (weight(x) + Sum(weight, data)) % 2
    decreases |data|
  {
    if data != [] {
      var y := Iterate(step, add(x, data[0]), n);
      IterateKeepsParity(add, step, weight, add(x, data[0]), n);
      FoldKeepsParity(add, step, n, weight, y, data[1..]);
      SameParity(weight(y), weight(x) + weight(data[0]), Sum(weight, data[1..]));
    }
  }

  lemma FoldParityFromZero<T(!new)>(add: (T, T) -> T, step: T -> T, n: nat, weight: T -> nat, zero: T, data: seq<T>)
    requires KeepsParity(add, step, weight) && weight(zero) == 0
    ensures weight(Fold(add, step, n, zero, data)) % 2 == Sum(weight, data) % 2
  {
    FoldKeepsParity(add, step, n, weight, zero, data);
  }
}

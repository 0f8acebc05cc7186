// How many flipped bits the humidity sensor's CRC always finds, by the length of the message:
// one, two or three in messages of up to 14 bytes, and no more than that.
module CrcDistance {
  import opened LinearCode
  import opened Crc8

  // a byte with one bit set
  predicate Single(x: bv8) {
    x != 0 && x & (x - 1) == 0
  }

  // ---------------------------------------------------------------- the register running freely

  // None of the n values from x on has a single bit.
  predicate Avoids(x: bv8, n: nat)
    decreases n
  {
    n == 0 || (!Single(x) && Avoids(ShiftStep(x), n - 1))
  }

  lemma {:induction false} IterateAdd(x: bv8, a: nat, b: nat)
    ensures Iterate(ShiftStep, Iterate(ShiftStep, x, a), b) == Iterate(ShiftStep, x, a + b)
  {
    if b > 0 {
      IterateAdd(x, a, b - 1);
    }
  }

  lemma IterateFirst(x: bv8, n: nat)
    ensures Iterate(ShiftStep, ShiftStep(x), n) == Iterate(ShiftStep, x, n + 1)
  {
    assert Iterate(ShiftStep, x, 1) == ShiftStep(x) by {
      assert Iterate(ShiftStep, x, 0) == x;
    }
    IterateAdd(x, 1, n);
  }

  lemma {:induction false} AvoidsAt(x: bv8, n: nat, i: nat)
    requires Avoids(x, n) && i < n
    ensures !Single(Iterate(ShiftStep, x, i))
    decreases i
  {
    if i > 0 {
      AvoidsAt(ShiftStep(x), n - 1, i - 1);
      IterateFirst(x, i - 1);
    }
  }

  lemma Steps7(x0: bv8, x1: bv8, x2: bv8, x3: bv8, x4: bv8, x5: bv8, x6: bv8, x7: bv8, n: nat)
    requires ShiftStep(x0) == x1 && ShiftStep(x1) == x2 && ShiftStep(x2) == x3 && ShiftStep(x3) == x4
    requires ShiftStep(x4) == x5 && ShiftStep(x5) == x6 && ShiftStep(x6) == x7
    requires !Single(x0) && !Single(x1) && !Single(x2) && !Single(x3) && !Single(x4) && !Single(x5) && !Single(x6)
    requires Avoids(x7, n) && Iterate(ShiftStep, x7, n) == 0x01
    ensures Avoids(x0, n + 7) && Iterate(ShiftStep, x0, n + 7) == 0x01
  {
    Back(x6, x7, n);
    Back(x5, x6, n + 1);
    Back(x4, x5, n + 2);
    Back(x3, x4, n + 3);
    Back(x2, x3, n + 4);
    Back(x1, x2, n + 5);
    Back(x0, x1, n + 6);
  }

  lemma Back(x: bv8, y: bv8, n: nat)
    requires ShiftStep(x) == y && !Single(x) && Avoids(y, n) && Iterate(ShiftStep, y, n) == 0x01
    ensures Avoids(x, n + 1) && Iterate(ShiftStep, x, n + 1) == 0x01
  {
    IterateFirst(x, n);
  }

  lemma Last21()
    ensures Avoids(0xB0, 21) && Iterate(ShiftStep, 0xB0, 21) == 0x01
  {
    Steps7(0x68, 0xD0, 0x91, 0x13, 0x26, 0x4C, 0x98, 0x01, 0);
    Steps7(0xC7, 0xBF, 0x4F, 0x9E, 0x0D, 0x1A, 0x34, 0x68, 7);
    Steps7(0xB0, 0x51, 0xA2, 0x75, 0xEA, 0xE5, 0xFB, 0xC7, 14);
  }

  lemma Last42()
    ensures Avoids(0xC8, 42) && Iterate(ShiftStep, 0xC8, 42) == 0x01
  {
    Last21();
    Steps7(0x6B, 0xD6, 0x9D, 0x0B, 0x16, 0x2C, 0x58, 0xB0, 21);
    Steps7(0x7F, 0xFE, 0xCD, 0xAB, 0x67, 0xCE, 0xAD, 0x6B, 28);
    Steps7(0xC8, 0xA1, 0x73, 0xE6, 0xFD, 0xCB, 0xA7, 0x7F, 35);
  }

  lemma Last63()
    ensures Avoids(0x49, 63) && Iterate(ShiftStep, 0x49, 63) == 0x01
  {
    Last42();
    Steps7(0x8A, 0x25, 0x4A, 0x94, 0x19, 0x32, 0x64, 0xC8, 42);
    Steps7(0xC2, 0xB5, 0x5B, 0xB6, 0x5D, 0xBA, 0x45, 0x8A, 49);
    Steps7(0x49, 0x92, 0x15, 0x2A, 0x54, 0xA8, 0x61, 0xC2, 56);
  }

  lemma Last84()
    ensures Avoids(0x3E, 84) && Iterate(ShiftStep, 0x3E, 84) == 0x01
  {
    Last63();
    Steps7(0xE3, 0xF7, 0xDF, 0x8F, 0x2F, 0x5E, 0xBC, 0x49, 63);
    Steps7(0x6D, 0xDA, 0x85, 0x3B, 0x76, 0xEC, 0xE9, 0xE3, 70);
    Steps7(0x3E, 0x7C, 0xF8, 0xC1, 0xB3, 0x57, 0xAE, 0x6D, 77);
  }

  lemma Last105()
    ensures Avoids(0x89, 105) && Iterate(ShiftStep, 0x89, 105) == 0x01
  {
    Last84();
    Steps7(0x38, 0x70, 0xE0, 0xF1, 0xD3, 0x97, 0x1F, 0x3E, 84);
    Steps7(0x79, 0xF2, 0xD5, 0x9B, 0x07, 0x0E, 0x1C, 0x38, 91);
    Steps7(0x89, 0x23, 0x46, 0x8C, 0x29, 0x52, 0xA4, 0x79, 98);
  }

  // The polynomial has period 127: from the first value behind the eight single bits on there
  // are 119 others, and then the single bits come again.
  lemma Orbit()
    ensures Avoids(0x31, 119) && Iterate(ShiftStep, 0x31, 119) == 0x01
  {
    Last105();
    Steps7(0x7A, 0xF4, 0xD9, 0x83, 0x37, 0x6E, 0xDC, 0x89, 105);
    Steps7(0x31, 0x62, 0xC4, 0xB9, 0x43, 0x86, 0x3D, 0x7A, 112);
  }

  // The value of single bit number a after 8 d steps is that of bit 0 after a + 8 d steps.
  lemma SingleBits(x: bv8) returns (a: nat)
    requires Single(x)
    ensures a < 8 && x == Iterate(ShiftStep, 0x01, a)
  {
    LowBits();
    a := if x == 0x01 then 0 else if x == 0x02 then 1 else if x == 0x04 then 2 else if x == 0x08 then 3
         else if x == 0x10 then 4 else if x == 0x20 then 5 else if x == 0x40 then 6 else 7;
    EightSingles(x);
  }

  lemma EightSingles(x: bv8)
    requires Single(x)
    ensures x == 0x01 || x == 0x02 || x == 0x04 || x == 0x08 || x == 0x10 || x == 0x20 || x == 0x40 || x == 0x80
  {
  }

  lemma LowBits()
    ensures Iterate(ShiftStep, 0x01, 0) == 0x01 && Iterate(ShiftStep, 0x01, 1) == 0x02
    ensures Iterate(ShiftStep, 0x01, 2) == 0x04 && Iterate(ShiftStep, 0x01, 3) == 0x08
    ensures Iterate(ShiftStep, 0x01, 4) == 0x10 && Iterate(ShiftStep, 0x01, 5) == 0x20
    ensures Iterate(ShiftStep, 0x01, 6) == 0x40 && Iterate(ShiftStep, 0x01, 7) == 0x80
    ensures Iterate(ShiftStep, 0x01, 8) == 0x31
  {
    assert Iterate(ShiftStep, 0x01, 1) == 0x02;
    assert Iterate(ShiftStep, 0x01, 2) == 0x04;
    assert Iterate(ShiftStep, 0x01, 3) == 0x08;
    assert Iterate(ShiftStep, 0x01, 4) == 0x10;
    assert Iterate(ShiftStep, 0x01, 5) == 0x20;
    assert Iterate(ShiftStep, 0x01, 6) == 0x40;
    assert Iterate(ShiftStep, 0x01, 7) == 0x80;
  }

  // A single bit is no single bit after 1 to 14 bytes.
  lemma NoSingleAgain(x: bv8, d: nat)
    requires Single(x) && 1 <= d <= 14
    ensures !Single(Iterate(ShiftStep, x, 8 * d))
  {
    var a := SingleBits(x);
    IterateAdd(0x01, a, 8 * d);
    LowBits();
    IterateAdd(0x01, 8, a + 8 * d - 8);
    Orbit();
    AvoidsAt(0x31, 119, a + 8 * d - 8);
  }

  // After 15 bytes the highest bit has become the lowest one.
  lemma SingleAfter15()
    ensures Iterate(ShiftStep, 0x80, 120) == 0x01
  {
    LowBits();
    IterateAdd(0x01, 7, 120);
    IterateAdd(0x01, 8, 119);
    Orbit();
  }

  // ---------------------------------------------------------------- words with two flipped bits

  lemma {:induction false} FoldThroughZeros(x: bv8, n: nat)
    ensures Fold(Xor, ShiftStep, 8, x, Zeros(n)) == Iterate(ShiftStep, x, 8 * n)
    decreases n
  {
    if n == 0 {
      assert Zeros(0) == [];
    } else {
      assert Zeros(n)[1..] == Zeros(n - 1) && Zeros(n)[0] == 0;
      XorWithZero(x);
      FoldThroughZeros(Iterate(ShiftStep, x, 8), n - 1);
      IterateAdd(x, 8, 8 * (n - 1));
    }
  }

  // Two bytes of a word that is otherwise zero.
  function Pair(before: nat, x: bv8, between: nat, y: bv8, after: nat): seq<bv8> {
    Zeros(before) + [x] + Zeros(between) + [y] + Zeros(after)
  }

  lemma PairCrcExactly(before: nat, x: bv8, between: nat, y: bv8, after: nat)
    ensures Crc(Pair(before, x, between, y, after)) == 0 <==> Iterate(ShiftStep, x, 8 * (between + 1)) == y
  {
    var w1 := Zeros(before) + [x];
    FirstOf(before, x);
    FoldAppend(Xor, ShiftStep, 8, 0, w1, Zeros(between));
    FoldThroughZeros(Iterate(ShiftStep, x, 8), between);
    IterateAdd(x, 8, 8 * between);
    var v := Iterate(ShiftStep, x, 8 * (between + 1));
    FoldAppend(Xor, ShiftStep, 8, 0, w1 + Zeros(between), [y]);
    FoldOne(Xor, ShiftStep, 8, v, y);
    FoldAppend(Xor, ShiftStep, 8, 0, w1 + Zeros(between) + [y], Zeros(after));
    FoldZeros(Iterate(ShiftStep, Xor(v, y), 8), after);
    ShiftStepFaithful();
    IterateFaithful(ShiftStep, 0, Xor(v, y), 8);
    XorZero(v, y);
  }

  // The register after one byte behind zeros.
  lemma FirstOf(before: nat, x: bv8)
    ensures Fold(Xor, ShiftStep, 8, 0, Zeros(before) + [x]) == Iterate(ShiftStep, x, 8)
  {
    FoldAppend(Xor, ShiftStep, 8, 0, Zeros(before), [x]);
    FoldZeros(0, before);
    FoldOne(Xor, ShiftStep, 8, 0, x);
    XorWithZero(x);
  }

  lemma OneByteFound(before: nat, x: bv8, after: nat)
    requires x != 0
    ensures Crc(Zeros(before) + [x] + Zeros(after)) != 0
  {
    FoldAppend(Xor, ShiftStep, 8, 0, Zeros(before) + [x], Zeros(after));
    FirstOf(before, x);
    FoldZeros(Iterate(ShiftStep, x, 8), after);
    ShiftStepFaithful();
    IterateFaithful(ShiftStep, 0, x, 8);
  }

  lemma OnesOfByte(x: bv8)
    ensures Ones(x) == 0 <==> x == 0
    ensures Ones(x) == 1 <==> Single(x)
  {
  }

  lemma {:induction false} NoOnes(w: seq<bv8>)
    requires Sum(Ones, w) == 0
    ensures w == Zeros(|w|)
    decreases |w|
  {
    if w != [] {
      OnesOfByte(w[0]);
      NoOnes(w[1..]);
      assert w == [w[0]] + w[1..];
    }
  }

  // The first byte of a word that is not zero.
  lemma {:induction false} FirstByte(w: seq<bv8>) returns (before: nat, x: bv8, rest: seq<bv8>)
    requires Sum(Ones, w) > 0
    ensures w == Zeros(before) + [x] + rest && x != 0 && Sum(Ones, w) == Ones(x) + Sum(Ones, rest)
    decreases |w|
  {
    OnesOfByte(w[0]);
    if w[0] != 0 {
      before, x, rest := 0, w[0], w[1..];
      assert w == [w[0]] + w[1..] && Zeros(0) == [];
    } else {
      before, x, rest := FirstByte(w[1..]);
      before := before + 1;
      assert Zeros(before) == [0] + Zeros(before - 1);
      assert w == [0] + w[1..];
    }
  }

  // A word whose only flips are single bits of two different bytes.
  lemma TwoBytesFound(before: nat, x: bv8, rest: seq<bv8>)
    requires Single(x) && Sum(Ones, rest) == 1 && before + 1 + |rest| <= 15
    ensures Crc(Zeros(before) + [x] + rest) != 0
  {
    var between, y, after := OnlyBit(rest);
    ApartFound(before, x, between, y, after);
    assert Zeros(before) + [x] + rest == Pair(before, x, between, y, after);
  }

  lemma OnlyBit(w: seq<bv8>) returns (before: nat, y: bv8, after: nat)
    requires Sum(Ones, w) == 1
    ensures Single(y) && w == Zeros(before) + [y] + Zeros(after)
  {
    var rest;
    before, y, rest := FirstByte(w);
    OnesOfByte(y);
    NoOnes(rest);
    after := |rest|;
  }

  lemma ApartFound(before: nat, x: bv8, between: nat, y: bv8, after: nat)
    requires Single(x) && Single(y) && before + between + after + 2 <= 15
    ensures Crc(Pair(before, x, between, y, after)) != 0
  {
    PairCrcExactly(before, x, between, y, after);
    NoSingleAgain(x, between + 1);
  }

  // Two flipped bits are found in every word of up to 15 bytes, checksum included.
  lemma TwoFlipsFound(w: seq<bv8>)
    requires Sum(Ones, w) == 2 && |w| <= 15
    ensures Crc(w) != 0
  {
    var before, x, rest := FirstByte(w);
    OnesOfByte(x);
    if Ones(x) == 2 {
      NoOnes(rest);
      OneByteFound(before, x, |rest|);
    } else {
      TwoBytesFound(before, x, rest);
    }
  }

  // ---------------------------------------------------------------- the exact length

  // One to three flipped bits in an accepted message of n bytes and its checksum.
  ghost predicate FewFlips(n: nat, data: seq<bv8>, checksum: bv8, flips: seq<bv8>, checkFlips: bv8) {
    && |data| == |flips| == n && Accepts(data, checksum)
    && 1 <= Sum(Ones, flips + [checkFlips]) <= 3
  }

  ghost predicate FindsFewFlips(n: nat) {
    forall data, checksum, flips, checkFlips :: FewFlips(n, data, checksum, flips, checkFlips) ==>
      !Accepts(Flipped(data, flips), checksum ^ checkFlips)
  }

  lemma FewFlipsFound(n: nat, data: seq<bv8>, checksum: bv8, flips: seq<bv8>, checkFlips: bv8)
    requires n <= 14 && FewFlips(n, data, checksum, flips, checkFlips)
    ensures !Accepts(Flipped(data, flips), checksum ^ checkFlips)
  {
    if Sum(Ones, flips + [checkFlips]) == 2 {
      CorruptionUnnoticedExactly(data, checksum, flips, checkFlips);
      TwoFlipsFound(flips + [checkFlips]);
    } else {
      OddFlipsRejected(data, checksum, flips, checkFlips);
    }
  }

  lemma {:induction false} SumOfZeros(n: nat, w: seq<bv8>)
    ensures Sum(Ones, Zeros(n) + w) == Sum(Ones, w)
    decreases n
  {
    NoOnesInZero();
    if n == 0 {
      assert Zeros(0) + w == w;
    } else {
      assert (Zeros(n) + w)[1..] == Zeros(n - 1) + w && (Zeros(n) + w)[0] == 0;
      SumOfZeros(n - 1, w);
    }
  }

  // From 15 bytes on: the highest bit of a byte and the lowest bit 15 bytes later go unnoticed.
  lemma TwoFlipsMissed(n: nat)
    requires n >= 15
    ensures var flips := Zeros(n - 15) + [0x80] + Zeros(14);
            && FewFlips(n, Zeros(n), 0, flips, 0x01)
            && Accepts(Flipped(Zeros(n), flips), 0 ^ 0x01)
  {
    var flips := Zeros(n - 15) + [0x80] + Zeros(14);
    FoldZeros(0, n);
    assert flips + [0x01] == Pair(n - 15, 0x80, 14, 0x01, 0);
    PairCrcExactly(n - 15, 0x80, 14, 0x01, 0);
    SingleAfter15();
    CorruptionUnnoticedExactly(Zeros(n), 0, flips, 0x01);
    TwoOnes(n);
  }

  lemma TwoOnes(n: nat)
    requires n >= 15
    ensures Sum(Ones, Zeros(n - 15) + [0x80] + Zeros(14) + [0x01]) == 2
  {
    var tail := [0x80] + (Zeros(14) + [0x01]);
    assert Zeros(n - 15) + [0x80] + Zeros(14) + [0x01] == Zeros(n - 15) + tail;
    SumOfZeros(n - 15, tail);
    SumOfZeros(14, [0x01]);
    assert tail[1..] == Zeros(14) + [0x01] && [0x01 as bv8][1..] == [];
    OnesOfByte(0x80);
    OnesOfByte(0x01);
  }

  // One, two or three flipped bits, in data and checksum, are found in every message of n bytes
  // if and only if n is at most 14.
  lemma FindsFewFlipsExactly(n: nat)
    ensures FindsFewFlips(n) <==> n <= 14
  {
    if n <= 14 {
      forall data, checksum, flips, checkFlips | FewFlips(n, data, checksum, flips, checkFlips)
        ensures !Accepts(Flipped(data, flips), checksum ^ checkFlips)
      {
        FewFlipsFound(n, data, checksum, flips, checkFlips);
      }
    } else {
      TwoFlipsMissed(n);
    }
  }
}

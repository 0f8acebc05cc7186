// The CRC-8 of the humidity sensor: which corruptions of a message and its checksum it finds.
module Crc8 {
  import opened LinearCode

  const POLYNOMIAL: bv16 := 0x131

  // One bit of the CRC register: shift, and subtract the polynomial when a one falls out.
  function ShiftStep(crc: bv8): bv8 {
    if crc & 0x80 != 0 then (crc << 1) ^ 0x31 else crc << 1
  }

  function Xor(a: bv8, b: bv8): bv8 {
    a ^ b
  }

  function Crc(data: seq<bv8>): bv8 {
    Fold(Xor, ShiftStep, 8, 0, data)
  }

  predicate Accepts(data: seq<bv8>, checksum: bv8) {
    Crc(data) == checksum
  }

  // The source forms the result in 16 bits, with the ninth bit of the polynomial, and cuts it.
  lemma CutShift(crc: bv8)
    ensures ((((crc as bv16) << 1) ^ POLYNOMIAL) & 0xFF) as bv8 == (crc << 1) ^ 0x31
  {
  }

  method ShiftOut(crc0: bv8) returns (crc: bv8)
    ensures crc == Iterate(ShiftStep, crc0, 8)
  {
    crc := crc0;
    var bit := 8;
    while bit > 0
      invariant 0 <= bit <= 8
      invariant crc == Iterate(ShiftStep, crc0, 8 - bit)
    {
      CutShift(crc);
      if crc & 0x80 != 0 {
        crc := ((((crc as bv16) << 1) ^ POLYNOMIAL) & 0xFF) as bv8;
      } else {
        crc := crc << 1;
      }
      bit := bit - 1;
    }
  }

  // The source returns 1 for a mismatch and 0 for a match.
  method CrcChecksum(data: array<bv8>, noOfBytes: nat, checksum: bv8) returns (r: nat)
    requires noOfBytes <= data.Length && noOfBytes < 256
    ensures r == if Accepts(data[..noOfBytes], checksum) then 0 else 1
  {
    var crc: bv8 := 0;
    var byteCtr := 0;
    assert data[..noOfBytes][0..] == data[..noOfBytes];
    while byteCtr < noOfBytes
      invariant 0 <= byteCtr <= noOfBytes
      invariant Fold(Xor, ShiftStep, 8, crc, data[byteCtr..noOfBytes]) == Crc(data[..noOfBytes])
    {
      assert data[byteCtr..noOfBytes][1..] == data[byteCtr + 1..noOfBytes];
      crc := crc ^ data[byteCtr];
      crc := ShiftOut(crc);
      byteCtr := byteCtr + 1;
    }
    r := if crc != checksum then 1 else 0;
  }

  // The register after the bytes of the humidity reading 0x683A, whose checksum is 0x7C.
  lemma KnownChecksum()
    ensures Accepts([0x68, 0x3A], 0x7C)
  {
    var data: seq<bv8> := [0x68, 0x3A];
    var half := ByteStep(0x68);
    ByteStepIsIterate(0x68);
    ByteStepIsIterate(half ^ 0x3A);
    assert data[1..] == [0x3A] && data[1..][1..] == [];
    assert Fold(Xor, ShiftStep, 8, half, [0x3A]) == ByteStep(half ^ 0x3A);
    assert ByteStep(half ^ 0x3A) == 0x7C;
  }

  // ---------------------------------------------------------------- linearity

  lemma XorZero(a: bv8, b: bv8)
    ensures a ^ b == 0 <==> a == b
    ensures 0 ^ a == a
  {
  }

  lemma XorAssociates(a: bv8, b: bv8, c: bv8)
    ensures Associates(Xor, a, b, c)
  {
  }

  lemma XorCommutes(a: bv8, b: bv8)
    ensures Commutes(Xor, a, b)
  {
  }

  lemma XorInverse()
    ensures forall a, b :: Xor(a, b) == 0 <==> a == b
  {
    forall a: bv8, b: bv8
      ensures Xor(a, b) == 0 <==> a == b
    {
      XorZero(a, b);
    }
  }

  lemma XorAdditive()
    ensures Additive(Xor, 0)
  {
    forall a: bv8, b: bv8, c: bv8
      ensures Associates(Xor, a, b, c)
    {
      XorAssociates(a, b, c);
    }
    forall a: bv8, b: bv8
      ensures Commutes(Xor, a, b)
    {
      XorCommutes(a, b);
    }
    XorInverse();
  }

  lemma ShiftOfXor(x: bv8, y: bv8)
    ensures (x ^ y) << 1 == (x << 1) ^ (y << 1)
  {
  }

  function Feedback(x: bv8): bv8 {
    if x & 0x80 != 0 then 0x31 else 0
  }

  lemma FeedbackOfXor(x: bv8, y: bv8)
    ensures Feedback(x ^ y) == Feedback(x) ^ Feedback(y)
  {
  }

  lemma ShiftStepSplit(x: bv8)
    ensures ShiftStep(x) == (x << 1) ^ Feedback(x)
  {
  }

  lemma XorSwap(a: bv8, b: bv8, c: bv8, d: bv8)
    ensures (a ^ b) ^ (c ^ d) == (a ^ c) ^ (b ^ d)
  {
  }

  lemma ShiftStepLinear()
    ensures Linear(Xor, ShiftStep)
  {
    forall x: bv8, y: bv8
      ensures ShiftStep(Xor(x, y)) == Xor(ShiftStep(x), ShiftStep(y))
    {
      ShiftStepSplit(x);
      ShiftStepSplit(y);
      ShiftStepSplit(x ^ y);
      ShiftOfXor(x, y);
      FeedbackOfXor(x, y);
      XorSwap(x << 1, y << 1, Feedback(x), Feedback(y));
    }
  }

  lemma ShiftStepFaithful()
    ensures Faithful(ShiftStep, 0)
  {
    forall x: bv8
      ensures ShiftStep(x) == 0 <==> x == 0
    {
    }
  }

  function Flipped(data: seq<bv8>, flips: seq<bv8>): seq<bv8>
    requires |data| == |flips|
  {
    Add(Xor, data, flips)
  }

  // A corruption of an accepted word goes unnoticed exactly when its own CRC is zero.
  lemma CorruptionUnnoticedExactly(data: seq<bv8>, checksum: bv8, flips: seq<bv8>, checkFlips: bv8)
    requires Accepts(data, checksum) && |flips| == |data|
    ensures Accepts(Flipped(data, flips), checksum ^ checkFlips) <==> Crc(flips + [checkFlips]) == 0
  {
    Unnoticed(data, checksum, flips, checkFlips, checksum ^ checkFlips);
  }

  lemma Unnoticed(data: seq<bv8>, checksum: bv8, flips: seq<bv8>, checkFlips: bv8, sum: bv8)
    requires Crc(data) == checksum && |flips| == |data| && sum == Xor(checksum, checkFlips)
    ensures Crc(flips + [checkFlips]) == 0 <==> Crc(Flipped(data, flips)) == sum
  {
    CrcIsCode();
    UndetectedExactly(Xor, 0, ShiftStep, 8, data, checksum, flips, checkFlips);
  }

  lemma CrcIsCode()
    ensures Additive(Xor, 0) && Linear(Xor, ShiftStep) && Faithful(ShiftStep, 0)
  {
    XorAdditive();
    ShiftStepLinear();
    ShiftStepFaithful();
  }

  // ---------------------------------------------------------------- an odd number of flipped bits

  function Bit(x: bv8, mask: bv8): nat {
    if x & mask != 0 then 1 else 0
  }

  // number of ones in a byte
  function Ones(x: bv8): nat {
    Bit(x, 0x01) + Bit(x, 0x02) + Bit(x, 0x04) + Bit(x, 0x08)
    + Bit(x, 0x10) + Bit(x, 0x20) + Bit(x, 0x40) + Bit(x, 0x80)
  }

  lemma BitOfXor(x: bv8, y: bv8, mask: bv8)
    requires mask & (mask - 1) == 0
    ensures Bit(x ^ y, mask) == Bit(x, mask) + Bit(y, mask) - 2 * Bit(x & y, mask)
  {
  }

  lemma OnesOfXor(x: bv8, y: bv8)
    ensures Ones(x ^ y) == Ones(x) + Ones(y) - 2 * Ones(x & y)
  {
    BitOfXor(x, y, 0x01);
    BitOfXor(x, y, 0x02);
    BitOfXor(x, y, 0x04);
    BitOfXor(x, y, 0x08);
    BitOfXor(x, y, 0x10);
    BitOfXor(x, y, 0x20);
    BitOfXor(x, y, 0x40);
    BitOfXor(x, y, 0x80);
  }

  lemma EvenDifference(o: nat, s: nat, c: nat)
    requires o == s - 2 * c
    ensures o % 2 == s % 2
  {
  }

  lemma ParityOfShift(x: bv8)
    ensures Ones(ShiftStep(x)) % 2 == Ones(x) % 2
  {
  }

  lemma ShiftStepKeepsParity()
    ensures KeepsParity(Xor, ShiftStep, Ones)
  {
    forall x: bv8, y: bv8
      ensures Ones(Xor(x, y)) % 2 == (Ones(x) + Ones(y)) % 2
    {
      OnesOfXor(x, y);
      EvenDifference(Ones(x ^ y), Ones(x) + Ones(y), Ones(x & y));
    }
    forall x: bv8
      ensures Ones(ShiftStep(x)) % 2 == Ones(x) % 2
    {
      ParityOfShift(x);
    }
  }

  lemma NoOnesInZero()
    ensures Ones(0) == 0
  {
  }

  // The CRC has an odd number of ones exactly when the message has, whatever its length.
  lemma CrcKeepsParity(data: seq<bv8>)
    ensures Ones(Crc(data)) % 2 == Sum(Ones, data) % 2
  {
    ShiftStepKeepsParity();
    NoOnesInZero();
    FoldParityFromZero(Xor, ShiftStep, 8, Ones, 0, data);
  }

  // A corruption of data and checksum that flips an odd number of bits is always rejected.
  lemma OddFlipsRejected(data: seq<bv8>, checksum: bv8, flips: seq<bv8>, checkFlips: bv8)
    requires Accepts(data, checksum) && |flips| == |data|
    requires Sum(Ones, flips + [checkFlips]) % 2 == 1
    ensures !Accepts(Flipped(data, flips), checksum ^ checkFlips)
  {
    CorruptionUnnoticedExactly(data, checksum, flips, checkFlips);
    CrcKeepsParity(flips + [checkFlips]);
  }

  // ---------------------------------------------------------------- bursts

  // The flipped bits of two neighbouring bytes lie within eight consecutive bits: in the first
  // byte only bits of mask, a run of low bits, in the second only the others.
  predicate Burst(x: bv8, y: bv8, mask: bv8) {
    mask & (mask + 1) == 0 && x & (mask ^ 0xFF) == 0 && y & mask == 0 && (x != 0 || y != 0)
  }

  function ByteStep(x: bv8): bv8 {
    ShiftStep(ShiftStep(ShiftStep(ShiftStep(ShiftStep(ShiftStep(ShiftStep(ShiftStep(x))))))))
  }

  lemma ByteStepIsIterate(x: bv8)
    ensures Iterate(ShiftStep, x, 8) == ByteStep(x)
  {
    var x1 := ShiftStep(x);
    assert Iterate(ShiftStep, x, 1) == x1;
    var x2 := ShiftStep(x1);
    assert Iterate(ShiftStep, x, 2) == x2;
    var x3 := ShiftStep(x2);
    assert Iterate(ShiftStep, x, 3) == x3;
    var x4 := ShiftStep(x3);
    assert Iterate(ShiftStep, x, 4) == x4;
    var x5 := ShiftStep(x4);
    assert Iterate(ShiftStep, x, 5) == x5;
    var x6 := ShiftStep(x5);
    assert Iterate(ShiftStep, x, 6) == x6;
    var x7 := ShiftStep(x6);
    assert Iterate(ShiftStep, x, 7) == x7;
  }

  lemma BurstLeavesTrace(x: bv8, y: bv8, mask: bv8)
    requires Burst(x, y, mask)
    ensures ByteStep(x) != y
  {
  }

  function Zeros(n: nat): (r: seq<bv8>)
    ensures |r| == n
  {
    seq(n, _ => 0)
  }

  // Zeros neither start nor end the register's nonzero life.
  lemma {:induction false} FoldZeros(x: bv8, n: nat)
    ensures Fold(Xor, ShiftStep, 8, x, Zeros(n)) == 0 <==> x == 0
    decreases n
  {
    if n > 0 {
      ShiftStepFaithful();
      IterateFaithful(ShiftStep, 0, x, 8);
      assert Zeros(n)[1..] == Zeros(n - 1) && Zeros(n)[0] == 0;
      XorWithZero(x);
      FoldZeros(Iterate(ShiftStep, x, 8), n - 1);
    }
  }

  lemma XorWithZero(x: bv8)
    ensures Xor(x, 0) == x && Xor(0, x) == x
  {
  }

  lemma BurstCrc(before: nat, x: bv8, y: bv8, mask: bv8, after: nat)
    requires Burst(x, y, mask)
    ensures Crc(Zeros(before) + [x, y] + Zeros(after)) != 0
  {
    var start := Fold(Xor, ShiftStep, 8, 0, Zeros(before));
    FoldZeros(0, before);
    FoldAppend(Xor, ShiftStep, 8, 0, Zeros(before) + [x, y], Zeros(after));
    FoldAppend(Xor, ShiftStep, 8, 0, Zeros(before), [x, y]);
    PairCrc(x, y);
    BurstLeavesTrace(x, y, mask);
    FoldZeros(Fold(Xor, ShiftStep, 8, 0, [x, y]), after);
  }

  lemma PairCrc(x: bv8, y: bv8)
    ensures Fold(Xor, ShiftStep, 8, 0, [x, y]) == 0 <==> ByteStep(x) == y
  {
    XorWithZero(x);
    ByteStepIsIterate(x);
    ShiftStepFaithful();
    assert [x, y][1..] == [y];
    FoldOne(Xor, ShiftStep, 8, Iterate(ShiftStep, x, 8), y);
    IterateFaithful(ShiftStep, 0, Xor(ByteStep(x), y), 8);
    XorZero(ByteStep(x), y);
  }

  // A burst of at most eight flipped bits anywhere in data and checksum, for every message
  // length, is always rejected.
  lemma BurstsRejected(data: seq<bv8>, checksum: bv8, flips: seq<bv8>, checkFlips: bv8,
                       before: nat, x: bv8, y: bv8, mask: bv8, after: nat)
    requires Accepts(data, checksum) && |flips| == |data|
    requires Burst(x, y, mask) && flips + [checkFlips] == Zeros(before) + [x, y] + Zeros(after)
    ensures !Accepts(Flipped(data, flips), checksum ^ checkFlips)
  {
    CorruptionUnnoticedExactly(data, checksum, flips, checkFlips);
    BurstCrc(before, x, y, mask, after);
  }
}

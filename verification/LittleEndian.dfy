// Numbers as the bytes that memcpy moves on a little-endian machine.
module LittleEndian {
  import opened Arith

  type Octet = x: int | 0 <= x < 256

  // n bytes of x, least significant first
  function Bytes(x: nat, n: nat): (b: seq<Octet>)
    ensures |b| == n
    decreases n, x
  {
    if n == 0 then [] else [x % 256] + Bytes(x / 256, n - 1)
  }

  function FromBytes(b: seq<Octet>): nat {
    if b == [] then 0 else b[0] as int + 256 * FromBytes(b[1..])
  }

  function Pow256(n: nat): nat {
    if n == 0 then 1 else 256 * Pow256(n - 1)
  }

  lemma {:induction false} BytesRoundTrip(x: nat, n: nat)
    requires x < Pow256(n)
    ensures FromBytes(Bytes(x, n)) == x
    decreases n
  {
    if n > 0 {
      BytesRoundTrip(x / 256, n - 1);
      assert Bytes(x, n)[1..] == Bytes(x / 256, n - 1);
    }
  }

  lemma {:induction false} FromBytesBound(b: seq<Octet>)
    ensures FromBytes(b) < Pow256(|b|)
  {
    if b != [] {
      FromBytesBound(b[1..]);
    }
  }

  // The bytes of a 32-bit number, and the number of four bytes.
  lemma FourBytes(x: nat, b: seq<Octet>)
    requires |b| == 4
    ensures Bytes(x, 4) == [x % 256, x / 0x100 % 256, x / 0x1_0000 % 256, x / 0x100_0000 % 256]
    ensures FromBytes(b) == b[0] as int + 0x100 * b[1] as int + 0x1_0000 * b[2] as int + 0x100_0000 * b[3] as int
  {
    BytesOfFour(x);
    NumberOfFour(b);
  }

  lemma BytesOfFour(x: nat)
    ensures Bytes(x, 4) == [x % 256, x / 0x100 % 256, x / 0x1_0000 % 256, x / 0x100_0000 % 256]
  {
    var x1, x2 := x / 256, x / 256 / 256;
    Quotients(x);
    TwoBytes(x2, [0, 0]);
    assert Bytes(x1, 3) == [x1 % 256] + Bytes(x2, 2);
    assert Bytes(x, 4) == [x % 256] + Bytes(x1, 3);
  }

  lemma Quotients(x: nat)
    ensures x / 256 / 256 == x / 0x1_0000 && x / 256 / 256 / 256 == x / 0x100_0000
  {
    var x1, x2 := x / 256, x / 256 / 256;
    DivModUnique(x, 0x1_0000, x2, x1 % 256 * 256 + x % 256);
    DivModUnique(x, 0x100_0000, x2 / 256, (x2 % 256 * 256 + x1 % 256) * 256 + x % 256);
  }

  lemma NumberOfFour(b: seq<Octet>)
    requires |b| == 4
    ensures FromBytes(b) == b[0] as int + 0x100 * b[1] as int + 0x1_0000 * b[2] as int + 0x100_0000 * b[3] as int
  {
    TwoBytes(0, b[2..]);
    assert b[1..][1..] == b[2..];
    assert FromBytes(b[1..]) == b[1] as int + 256 * FromBytes(b[2..]);
  }

  lemma TwoBytes(x: nat, b: seq<Octet>)
    requires |b| == 2
    ensures Bytes(x, 2) == [x % 256, x / 256 % 256]
    ensures FromBytes(b) == b[0] as int + 256 * b[1] as int
  {
    assert Bytes(x / 256, 1) == [x / 256 % 256] + Bytes(x / 256 / 256, 0);
    assert b[1..][1..] == [];
    assert FromBytes(b[1..]) == b[1] as int;
  }

  lemma Pow256Values()
    ensures Pow256(1) == 0x100 && Pow256(2) == 0x1_0000 && Pow256(4) == 0x1_0000_0000
  {
    assert Pow256(3) == 0x100_0000;
  }
}

// Multiplication and division facts that the address arithmetic of the queues rests on.
module Arith {
  lemma MulOrder(x: int, m: int)
    requires m >= 0
    ensures x >= 1 ==> x * m >= m
    ensures x <= -1 ==> x * m <= -m
  {
  }

  lemma MulSum(a: int, b: int, m: int)
    ensures (a + b) * m == a * m + b * m
    ensures (a - b) * m == a * m - b * m
  {
  }

  lemma DivModUnique(a: int, m: nat, q: int, r: nat)
    requires r < m && a == q * m + r
    ensures a / m == q && a % m == r
  {
    MulSum(a / m, q, m);
    MulOrder(a / m - q, m);
  }

  lemma ModOfMultiple(k: nat, m: nat)
    requires m > 0
    ensures (k * m) % m == 0 && (k * m) / m == k
  {
    DivModUnique(k * m, m, k, 0);
  }

  lemma AddModulus(a: int, m: nat)
    requires m > 0
    ensures (a + m) % m == a % m && (a + m) / m == a / m + 1
  {
    MulSum(a / m, 1, m);
    DivModUnique(a + m, m, a / m + 1, a % m);
  }

  // Counting up by one: the remainder goes back to zero exactly when it reaches the modulus.
  lemma NextMod(a: nat, m: nat)
    requires m > 0
    ensures (a + 1) % m == if a % m + 1 == m then 0 else a % m + 1
    ensures (a + 1) / m == if a % m + 1 == m then a / m + 1 else a / m
  {
    MulSum(a / m, 1, m);
    if a % m + 1 == m {
      DivModUnique(a + 1, m, a / m + 1, 0);
    } else {
      DivModUnique(a + 1, m, a / m, a % m + 1);
    }
  }

  // Adding multiples of the modulus leaves the remainder alone.
  lemma AddMultiple(a: int, k: int, m: nat)
    requires m > 0
    ensures (a + k * m) % m == a % m && (a + k * m) / m == a / m + k
  {
    MulSum(a / m, k, m);
    DivModUnique(a + k * m, m, a / m + k, a % m);
  }

  lemma MulAssoc(a: int, b: int, c: int)
    ensures a * b * c == a * (b * c)
  {
  }

  // Counting on from a multiple, at most twice round.
  lemma WrapMod(a: int, m: nat, x: nat)
    requires m > 0 && a % m == 0 && x < 2 * m
    ensures (a + x) % m == if x >= m then x - m else x
  {
    MulSum(a / m, 1, m);
    if x < m {
      DivModUnique(a + x, m, a / m, x);
    } else {
      DivModUnique(a + x, m, a / m + 1, x - m);
    }
  }

  // Where number i falls, seen from number r, when they are less than two rounds apart.
  lemma ModFrom(r: nat, m: nat, i: nat)
    requires m > 0 && 0 <= r % m + i - r < 2 * m
    ensures i % m == if r % m + i - r >= m then r % m + i - r - m else r % m + i - r
  {
    DivModUnique(r - r % m, m, r / m, 0);
    WrapMod(r - r % m, m, r % m + i - r);
  }

  lemma SmallMod(x: nat, m: nat)
    requires x < m
    ensures x % m == x && x / m == 0
  {
    DivModUnique(x, m, 0, x);
  }

  // A number of whole blocks and a rest, against block number k.
  lemma BlockOf(k: int, j: int, r: nat, m: nat)
    requires r < m
    ensures k * m <= j * m + r <==> k <= j
    ensures j * m + r < k * m + m <==> j <= k
  {
    MulSum(k, j, m);
    MulOrder(k - j, m);
    MulOrder(j - k, m);
  }

  // The largest multiple of m that is at most a.
  function RoundDown(a: nat, m: nat): (r: nat)
    requires m > 0
    ensures r <= a < r + m
  {
    a / m * m
  }

  lemma DivMono(a: nat, b: nat, m: nat)
    requires m > 0 && a <= b
    ensures a / m <= b / m
  {
    MulSum(a / m, b / m, m);
    MulOrder(a / m - b / m, m);
  }

  lemma DivModBounds(m: nat, i: nat)
    requires i > 0
    ensures 0 <= m % i < i && 0 <= m / i && m == m / i * i + m % i
    ensures m % i <= m
  {
    MulOrder(m / i, i);
  }
}

/** Machine integer types, powers, and congruences `a % m == b % m`. */
module Arith {

  // C's unsigned types. Assigning to a variable of one of these types makes the verifier show that the
  // exact value fits, so a verified assignment is one that neither overflows nor underflows in C.
  type u8 = x: int | 0 <= x < 0x100
  type u32 = x: int | 0 <= x < 0x1_0000_0000
  type u64 = x: int | 0 <= x < 0x1_0000_0000_0000_0000

  const WORD: int := 0x1_0000_0000

  function Min(a: int, b: int): int { if a <= b then a else b }

  function Pow(b: int, n: nat): int
  {
    if n == 0 then 1 else b * Pow(b, n - 1)
  }

  lemma {:induction false} PowPositive(b: int, n: nat)
    requires b > 0
    ensures Pow(b, n) > 0
  {
    if n > 0 {
      PowPositive(b, n - 1);
    }
  }

  lemma {:induction false} PowAdd(b: int, m: nat, n: nat)
    ensures Pow(b, m + n) == Pow(b, m) * Pow(b, n)
  {
    if m > 0 {
      PowAdd(b, m - 1, n);
      assert Pow(b, m + n) == b * (Pow(b, m - 1) * Pow(b, n));
    }
  }

  lemma {:induction false} PowMonotone(b: int, m: nat, n: nat)
    requires b >= 1 && m <= n
    ensures Pow(b, m) <= Pow(b, n)
    decreases n
  {
    if m < n {
      PowMonotone(b, m, n - 1);
      PowPositive(b, n - 1);
      assert Pow(b, n - 1) <= b * Pow(b, n - 1);
    }
  }

  lemma MulShuffle(a: int, b: int, c: int, d: int)
    ensures (a * b) * (c * d) == (a * c) * (b * d)
  {
    assert (a * b) * (c * d) == a * (b * (c * d)) == a * (c * (b * d));
  }

  lemma {:induction false} PowProduct(a: int, b: int, n: nat)
    ensures Pow(a * b, n) == Pow(a, n) * Pow(b, n)
  {
    if n > 0 {
      PowProduct(a, b, n - 1);
      MulShuffle(a, b, Pow(a, n - 1), Pow(b, n - 1));
    }
  }

  lemma {:induction false} PowPower(b: int, m: nat, n: nat)
    ensures m * n >= 0
    ensures Pow(Pow(b, m), n) == Pow(b, m * n)
  {
    if n > 0 {
      PowPower(b, m, n - 1);
      assert m * n == m + m * (n - 1);
      PowAdd(b, m, m * (n - 1));
    } else {
      assert m * n == 0;
    }
  }

  lemma NoSmallMultiple(d: int, m: int)
    requires m > 0 && -m < d * m < m
    ensures d == 0
  {
    assert d >= 1 ==> (d - 1) * m >= 0;
    assert d <= -1 ==> (-1 - d) * m >= 0;
  }

  /** Division with remainder has only one answer. */
  lemma DivModUnique(x: int, q: int, r: int, m: int)
    requires 0 <= r < m && x == q * m + r
    ensures x / m == q && x % m == r
  {
    var d := x / m - q;
    assert d * m == r - x % m;
    NoSmallMultiple(d, m);
  }

  lemma ModAddMultiple(a: int, k: int, m: int)
    requires m > 0
    ensures (a + k * m) % m == a % m
  {
    assert a + k * m == (a / m + k) * m + a % m;
    DivModUnique(a + k * m, a / m + k, a % m, m);
  }

  /** Congruent numbers differ by a multiple of the modulus, and the other way round. */
  lemma CongWitness(a: int, b: int, m: int) returns (k: int)
    requires m > 0 && a % m == b % m
    ensures a == b + k * m
  {
    k := a / m - b / m;
  }

  lemma CongAdd(a: int, b: int, c: int, d: int, m: int)
    requires m > 0 && a % m == b % m && c % m == d % m
    ensures (a + c) % m == (b + d) % m
  {
    var k := CongWitness(a, b, m);
    var l := CongWitness(c, d, m);
    assert a + c == (b + d) + (k + l) * m;
    ModAddMultiple(b + d, k + l, m);
  }

  lemma CongSub(a: int, b: int, c: int, d: int, m: int)
    requires m > 0 && a % m == b % m && c % m == d % m
    ensures (a - c) % m == (b - d) % m
  {
    var k := CongWitness(a, b, m);
    var l := CongWitness(c, d, m);
    assert a - c == (b - d) + (k - l) * m;
    ModAddMultiple(b - d, k - l, m);
  }

  lemma CongMul(a: int, b: int, c: int, d: int, m: int)
    requires m > 0 && a % m == b % m && c % m == d % m
    ensures (a * c) % m == (b * d) % m
  {
    var k := CongWitness(a, b, m);
    var l := CongWitness(c, d, m);
    assert a * c == (b + k * m) * (d + l * m) == b * d + b * (l * m) + k * m * (d + l * m);
    assert a * c == b * d + (b * l + k * (d + l * m)) * m;
    ModAddMultiple(b * d, b * l + k * (d + l * m), m);
  }

  lemma {:induction false} CongPow(a: int, b: int, n: nat, m: int)
    requires m > 0 && a % m == b % m
    ensures Pow(a, n) % m == Pow(b, n) % m
  {
    if n > 0 {
      CongPow(a, b, n - 1, m);
      CongMul(a, b, Pow(a, n - 1), Pow(b, n - 1), m);
    }
  }

  lemma MulMonotone(a: int, b: int, c: int, d: int)
    requires 0 <= a <= b && 0 <= c <= d
    ensures 0 <= a * c <= b * d
  {
    assert a * c <= b * c <= b * d;
  }

  /** Reducing a factor first does not change a product's residue. */
  lemma ModMul(a: int, b: int, m: int)
    requires m > 0
    ensures (a * (b % m)) % m == (a * b) % m
  {
    CongMul(a, a, b % m, b, m);
  }

  lemma MulAssoc(a: int, b: int, c: int)
    ensures a * (b * c) == a * b * c
  {
  }

  lemma NegatedFactor(d: int, p: int)
    ensures -d * p == -(d * p)
  {
  }

  /** A multiple of m is a multiple of each factor of m, and reducing by m keeps residues by a factor. */
  lemma ModOfFactor(x: int, k: int, d: int)
    requires d > 0 && k > 0
    ensures k * d > 0 && x % (k * d) % d == x % d
  {
    MulMonotone(1, k, d, d);
    var q := x / (k * d);
    MulAssoc(-q, k, d);
    assert x % (k * d) == x + -q * k * d;
    ModAddMultiple(x, -q * k, d);
  }

  lemma MultipleIsZero(k: int, m: int)
    requires m > 0
    ensures (k * m) % m == 0
  {
    ModAddMultiple(0, k, m);
    DivModUnique(0, 0, 0, m);
  }

  lemma DivBelow(a: int, p: int, b: int)
    requires p > 0 && a < b * p
    ensures a / p < b
  {
    assert a / p * p <= a;
  }

  lemma DivNonnegative(a: int, p: int)
    requires a >= 0 && p > 0
    ensures a / p >= 0
  {
  }

  lemma DivAddMultiple(x: int, k: int, m: int)
    requires m > 0
    ensures (x + k * m) / m == x / m + k
  {
    assert x + k * m == (x / m + k) * m + x % m;
    DivModUnique(x + k * m, x / m + k, x % m, m);
  }

  lemma DivDiv(a: int, p: int, q: int)
    requires p > 0 && q > 0
    ensures p * q > 0 && a / (p * q) == a / p / q
  {
    MulMonotone(1, p, 1, q);
    var b, r := a / p, a % p;
    var c, s := b / q, b % q;
    assert a == c * (p * q) + (s * p + r) by {
      assert b * p == c * q * p + s * p;
      assert c * q * p == c * (p * q);
    }
    assert (s + 1) * p <= q * p by {
      MulMonotone(s + 1, q, p, p);
    }
    DivModUnique(a, c, s * p + r, p * q);
  }
}

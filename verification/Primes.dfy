/** Prime moduli: Bezout, Euclid's lemma and Fermat's little theorem. */
module Primes {
  import opened Arith
  import opened InverseMath

  ghost predicate Prime(p: int)
  {
    p > 1 && forall d :: 1 < d < p ==> p % d != 0
  }

  /** Extended Euclid: a common divisor g with its cofactors and its Bezout coefficients. */
  lemma {:induction false} ExtendedGcd(a: nat, b: nat) returns (g: int, i: int, j: int, ka: int, kb: int)
    requires a > 0
    ensures g > 0 && a == ka * g && b == kb * g && i * a + j * b == g
    decreases b
  {
    if b == 0 {
      g, i, j, ka, kb := a, 1, 0, 1, 0;
    } else {
      var q, r := a / b, a % b;
      var i', j', kr;
      g, i', j', kb, kr := ExtendedGcd(b, r);
      i, j, ka := j', i' - j' * q, q * kb + kr;
      GcdStep(a, b, q, r, i', j', g, kb, kr);
    }
  }

  lemma GcdStep(a: int, b: int, q: int, r: int, i: int, j: int, g: int, kb: int, kr: int)
    requires a == q * b + r && i * b + j * r == g && b == kb * g && r == kr * g
    ensures j * a + (i - j * q) * b == g && a == (q * kb + kr) * g
  {
    assert j * a == j * (q * b) + j * r;
    assert (i - j * q) * b == i * b - j * q * b;
    MulAssoc(j, q, b);
    MulAssoc(q, kb, g);
    assert (q * kb + kr) * g == q * kb * g + kr * g;
  }

  /** A number that a prime does not divide is coprime to it. */
  lemma PrimeCoprime(p: int, x: int)
    requires Prime(p) && x % p != 0
    ensures Coprime(p, x)
  {
    var a := x % p;
    var g, i, j, kp, ka := ExtendedGcd(p, a);
    assert g == 1 by {
      DivisorOfSmaller(a, ka, g);
      if g > 1 {
        MultipleIsZero(kp, g);
      }
    }
    LiftBezout(p, x, i, j);
    assert Bezout(p, x, i - j * (x / p), j);
  }

  lemma DivisorOfSmaller(a: int, k: int, g: int)
    requires a > 0 && g > 0 && a == k * g
    ensures g <= a
  {
    if k >= 1 {
      MulMonotone(1, k, g, g);
    } else {
      MulMonotone(0, -k, g, g);
    }
  }

  lemma LiftBezout(p: int, x: int, i: int, j: int)
    requires p > 0 && i * p + j * (x % p) == 1
    ensures (i - j * (x / p)) * p + j * x == 1
  {
    var q := x / p;
    assert j * x == j * (q * p + x % p) == j * (q * p) + j * (x % p);
    MulAssoc(j, q, p);
    assert (i - j * q) * p == i * p - j * q * p;
  }

  /** Euclid's lemma. */
  lemma Euclid(p: int, a: int, b: int)
    requires Prime(p) && (a * b) % p == 0 && a % p != 0
    ensures b % p == 0
  {
    PrimeCoprime(p, a);
    var i, j :| Bezout(p, a, i, j);
    BezoutTimes(i, p, j, a, b);
    MultipleIsZero(0, p);
    CongMul(j, j, a * b, 0, p);
    ModAddMultiple(j * (a * b), i * b, p);
  }

  lemma BezoutTimes(i: int, p: int, j: int, a: int, b: int)
    requires i * p + j * a == 1
    ensures b == j * (a * b) + i * b * p
  {
    assert (i * p + j * a) * b == i * p * b + j * a * b;
    assert i * p * b == i * b * p && j * a * b == j * (a * b);
  }

  function Choose(n: nat, k: nat): nat
  {
    if k == 0 then 1 else if n == 0 then 0 else Choose(n - 1, k - 1) + Choose(n - 1, k)
  }

  lemma {:induction false} ChooseZero(n: nat, k: nat)
    requires k > n
    ensures Choose(n, k) == 0
  {
    if n > 0 {
      ChooseZero(n - 1, k - 1);
      ChooseZero(n - 1, k);
    }
  }

  lemma {:induction false} ChooseSelf(n: nat)
    ensures Choose(n, n) == 1
  {
    if n > 0 {
      ChooseSelf(n - 1);
      ChooseZero(n - 1, n);
    }
  }

  lemma {:induction false} ChooseAbsorb(n: nat, k: nat)
    requires n >= 1 && k >= 1
    ensures k * Choose(n, k) == n * Choose(n - 1, k - 1)
  {
    if n == 1 {
      if k > 1 {
        ChooseZero(1, k);
        ChooseZero(0, k - 1);
      }
    } else {
      ChooseAbsorb(n - 1, k);
      if k >= 2 {
        ChooseAbsorb(n - 1, k - 1);
      }
      AbsorbStep(n, k, Choose(n - 1, k - 1), Choose(n - 1, k), if k >= 2 then Choose(n - 2, k - 2) else 0,
        Choose(n - 2, k - 1));
    }
  }

  lemma AbsorbStep(n: int, k: int, a: int, b: int, c: int, d: int)
    requires k * b == (n - 1) * d && (k - 1) * a == (n - 1) * c && a == c + d
    ensures k * (a + b) == n * a
  {
    assert k * (a + b) == (k - 1) * a + a + k * b;
    assert (n - 1) * c + (n - 1) * d == (n - 1) * (c + d);
    assert (n - 1) * a == n * a - a;
  }

  /** The first `m` terms of the binomial expansion of (1 + a)^n. */
  function BinomialSum(a: int, n: nat, m: nat): int
  {
    if m == 0 then 0 else BinomialSum(a, n, m - 1) + Choose(n, m - 1) * Pow(a, m - 1)
  }

  lemma {:induction false} PascalSum(a: int, n: nat, m: nat)
    ensures BinomialSum(a, n + 1, m + 1) == BinomialSum(a, n, m + 1) + a * BinomialSum(a, n, m)
  {
    if m > 0 {
      PascalSum(a, n, m - 1);
      PascalStep(a, Choose(n, m - 1), Choose(n, m), Pow(a, m - 1), BinomialSum(a, n, m - 1));
    } else {
      assert BinomialSum(a, n + 1, 1) == 1 == BinomialSum(a, n, 1);
    }
  }

  lemma PascalStep(a: int, c: int, d: int, p: int, s: int)
    ensures (c + d) * (a * p) == a * (c * p) + d * (a * p)
    ensures a * (s + c * p) == a * s + a * (c * p)
  {
    assert (c + d) * (a * p) == c * (a * p) + d * (a * p);
    assert c * (a * p) == a * (c * p);
  }

  lemma {:induction false} BinomialTheorem(a: int, n: nat)
    ensures Pow(1 + a, n) == BinomialSum(a, n, n + 1)
  {
    if n > 0 {
      BinomialTheorem(a, n - 1);
      PascalSum(a, n - 1, n);
      ChooseZero(n - 1, n);
      assert BinomialSum(a, n - 1, n + 1) == BinomialSum(a, n - 1, n);
      assert (1 + a) * Pow(1 + a, n - 1) == Pow(1 + a, n - 1) + a * Pow(1 + a, n - 1);
    }
  }

  lemma PrimeDividesChoose(p: int, k: nat)
    requires Prime(p) && 0 < k < p
    ensures Choose(p, k) % p == 0
  {
    ChooseAbsorb(p, k);
    assert p * Choose(p - 1, k - 1) == Choose(p - 1, k - 1) * p;
    MultipleIsZero(Choose(p - 1, k - 1), p);
    DivModUnique(k, 0, k, p);
    Euclid(p, k, Choose(p, k));
  }

  lemma {:induction false} MiddleVanishes(a: int, p: int, m: nat)
    requires Prime(p) && 1 <= m <= p
    ensures BinomialSum(a, p, m) % p == 1
  {
    if m == 1 {
      assert BinomialSum(a, p, 1) == BinomialSum(a, p, 0) + Choose(p, 0) * Pow(a, 0) == 1;
      DivModUnique(1, 0, 1, p);
    } else {
      MiddleVanishes(a, p, m - 1);
      PrimeDividesChoose(p, m - 1);
      AddZeroTerm(BinomialSum(a, p, m - 1), Choose(p, m - 1), Pow(a, m - 1), p);
    }
  }

  lemma AddZeroTerm(s: int, c: int, w: int, p: int)
    requires p > 1 && s % p == 1 && c % p == 0
    ensures (s + c * w) % p == 1
  {
    assert c * w == (c / p * w) * p by {
      assert c == c / p * p;
      assert c / p * p * w == (c / p * w) * p;
    }
    ModAddMultiple(s, c / p * w, p);
  }

  lemma {:induction false} FermatNat(p: int, a: nat)
    requires Prime(p)
    ensures Pow(a, p) % p == a % p
  {
    if a == 0 {
      assert Pow(0, p) == 0 * Pow(0, p - 1);
    } else {
      FermatNat(p, a - 1);
      BinomialTheorem(a - 1, p);
      MiddleVanishes(a - 1, p, p);
      ChooseSelf(p);
      DivModUnique(1, 0, 1, p);
      CongAdd(BinomialSum(a - 1, p, p), 1, Pow(a - 1, p), a - 1, p);
    }
  }

  /** Fermat's little theorem. */
  lemma Fermat(p: int, a: int)
    requires Prime(p) && a % p != 0
    ensures Pow(a, p - 1) % p == 1
  {
    var b := a % p;
    FermatNat(p, b);
    DivModUnique(b, 0, b, p);
    CongPow(a, b, p - 1, p);
    var w := Pow(b, p - 1);
    assert (b * (w - 1)) % p == 0 by {
      assert b * (w - 1) == b * w - b;
      CongSub(b * w, b, b, b, p);
      MultipleIsZero(0, p);
    }
    Euclid(p, b, w - 1);
    CongAdd(w - 1, 0, 1, 1, p);
    MultipleIsZero(0, p);
    DivModUnique(1, 0, 1, p);
  }
}

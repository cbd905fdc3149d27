/** Square roots modulo a prime that is 3 modulo 4. */
module Squares {
  import opened Arith
  import opened Primes

  ghost predicate SquareOf(y: int, a: int, p: int)
    requires p > 0
  {
    (y * y) % p == a % p
  }

  ghost predicate IsSquare(a: int, p: int)
    requires p > 0
  {
    exists y :: SquareOf(y, a, p)
  }

  /** The exponent of Euler's criterion and the one that gives the root. */
  function EulerPower(a: int, p: int): int
    requires p > 0
  {
    Pow(a, (p - 1) / 2)
  }

  lemma {:induction false} PowZero(a: int, n: nat, p: int)
    requires p > 0 && n > 0 && a % p == 0
    ensures Pow(a, n) % p == 0
  {
    MultipleIsZero(0, p);
    CongMul(a, 0, Pow(a, n - 1), Pow(a, n - 1), p);
  }

  lemma {:induction false} PowNonzero(a: int, n: nat, p: int)
    requires Prime(p) && a % p != 0
    ensures Pow(a, n) % p != 0
  {
    if n == 0 {
      DivModUnique(1, 0, 1, p);
    } else {
      PowNonzero(a, n - 1, p);
      if Pow(a, n) % p == 0 {
        Euclid(p, a, Pow(a, n - 1));
      }
    }
  }

  /** A nonzero square has Euler power 1. */
  lemma SquareHasEulerOne(a: int, y: int, p: int)
    requires Prime(p) && p % 2 == 1 && a % p != 0 && SquareOf(y, a, p)
    ensures EulerPower(a, p) % p == 1
  {
    var h := (p - 1) / 2;
    if y % p == 0 {
      MultipleIsZero(0, p);
      CongMul(y, 0, y, 0, p);
    }
    Fermat(p, y);
    CongPow(a, y * y, h, p);
    PowProduct(y, y, h);
    PowAdd(y, h, h);
  }

  /** The square of a^((p+1)/4) is a * a^((p-1)/2). */
  lemma RootSquared(a: int, p: int)
    requires p > 0 && p % 4 == 3
    ensures var r := Pow(a, (p + 1) / 4); r * r == a * EulerPower(a, p)
  {
    var q := (p + 1) / 4;
    PowAdd(a, q, q);
    assert 2 * q == 1 + (p - 1) / 2;
    assert Pow(a, 1 + (p - 1) / 2) == a * Pow(a, (p - 1) / 2);
  }

  /** If a is a square, a^((p+1)/4) is one of its roots. */
  lemma RootOfSquare(a: int, p: int)
    requires Prime(p) && p % 4 == 3 && IsSquare(a, p)
    ensures SquareOf(Pow(a, (p + 1) / 4), a, p)
  {
    RootSquared(a, p);
    if a % p == 0 {
      MultipleIsZero(0, p);
      CongMul(a, 0, EulerPower(a, p), EulerPower(a, p), p);
    } else {
      var y :| SquareOf(y, a, p);
      SquareHasEulerOne(a, y, p);
      DivModUnique(1, 0, 1, p);
      CongMul(a, a, EulerPower(a, p), 1, p);
    }
  }

  /** The Euler power of a nonzero number is 1 or -1. */
  lemma EulerPowerIsUnit(a: int, p: int)
    requires Prime(p) && p % 2 == 1 && a % p != 0
    ensures EulerPower(a, p) % p == 1 || EulerPower(a, p) % p == p - 1
  {
    var e := EulerPower(a, p);
    PowAdd(a, (p - 1) / 2, (p - 1) / 2);
    Fermat(p, a);
    DivModUnique(1, 0, 1, p);
    assert ((e - 1) * (e + 1)) % p == 0 by {
      assert (e - 1) * (e + 1) == e * e - 1;
      CongSub(e * e, 1, 1, 1, p);
      MultipleIsZero(0, p);
    }
    if (e - 1) % p == 0 {
      CongAdd(e - 1, 0, 1, 1, p);
      MultipleIsZero(0, p);
    } else {
      Euclid(p, e - 1, e + 1);
      MultipleIsZero(0, p);
      CongSub(e + 1, 0, 1, 1, p);
      DivModUnique(-1, -1, p - 1, p);
    }
  }

  /** Two roots of the same number are equal or opposite. */
  lemma RootsAgree(y: int, z: int, p: int)
    requires Prime(p) && (y * y) % p == (z * z) % p
    ensures y % p == z % p || y % p == (-z) % p
  {
    MultipleIsZero(0, p);
    assert ((y - z) * (y + z)) % p == 0 by {
      assert (y - z) * (y + z) == y * y - z * z;
      CongSub(y * y, z * z, z * z, z * z, p);
    }
    if (y - z) % p == 0 {
      CongAdd(y - z, 0, z, z, p);
    } else {
      Euclid(p, y - z, y + z);
      CongSub(y + z, 0, z, z, p);
    }
  }
}

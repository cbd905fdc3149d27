/** Polynomials modulo a prime have no more roots than coefficients; Euler's criterion for every odd prime. */
module Roots {
  import opened Arith
  import opened Primes
  import opened Squares

  /** The value at x, the lowest coefficient first. */
  function Eval(c: seq<int>, x: int): int
  {
    if c == [] then 0 else c[0] + x * Eval(c[1..], x)
  }

  /** The quotient by X - r. */
  function Quotient(c: seq<int>, r: int): (q: seq<int>)
    ensures |q| == if c == [] then 0 else |c| - 1
  {
    if |c| <= 1 then [] else [Eval(c[1..], r)] + Quotient(c[1..], r)
  }

  lemma {:induction false} Division(c: seq<int>, r: int, x: int)
    ensures Eval(c, x) == (x - r) * Eval(Quotient(c, r), x) + Eval(c, r)
    decreases |c|
  {
    if |c| > 1 {
      var t := c[1..];
      Division(t, r, x);
      assert Quotient(c, r)[1..] == Quotient(t, r);
      DivisionStep(x, r, Eval(t, x), Eval(t, r), Eval(Quotient(t, r), x), c[0]);
    } else if |c| == 1 {
      assert Eval(c[1..], x) == 0 == Eval(c[1..], r);
    }
  }

  lemma DivisionStep(x: int, r: int, tx: int, tr: int, q: int, c0: int)
    requires tx == (x - r) * q + tr
    ensures c0 + x * tx == (x - r) * (tr + x * q) + (c0 + r * tr)
  {
    assert x * tx == x * ((x - r) * q) + x * tr;
    assert (x - r) * (tr + x * q) == x * tr - r * tr + (x - r) * (x * q);
    assert x * ((x - r) * q) == (x - r) * (x * q);
  }

  ghost predicate Distinct(rs: seq<int>, p: int)
    requires p > 0
  {
    forall i, j :: 0 <= i < j < |rs| ==> rs[i] % p != rs[j] % p
  }

  /** With as many roots as coefficients a polynomial vanishes everywhere. */
  lemma {:induction false} TooManyRoots(c: seq<int>, rs: seq<int>, p: int, x: int)
    requires Prime(p) && Distinct(rs, p) && |rs| >= |c|
    requires forall i :: 0 <= i < |rs| ==> Eval(c, rs[i]) % p == 0
    ensures Eval(c, x) % p == 0
    decreases |c|
  {
    MultipleIsZero(0, p);
    if c != [] {
      var r, q, rest := rs[0], Quotient(c, rs[0]), rs[1..];
      forall i | 0 <= i < |rest|
        ensures Eval(q, rest[i]) % p == 0
      {
        assert rest[i] == rs[i + 1];
        Division(c, r, rest[i]);
        RootOfQuotient(rest[i], r, Eval(q, rest[i]), Eval(c, rest[i]), Eval(c, r), p);
      }
      TooManyRoots(q, rest, p, x);
      Division(c, r, x);
      CongMul(x - r, x - r, Eval(q, x), 0, p);
      CongAdd((x - r) * Eval(q, x), 0, Eval(c, r), 0, p);
    }
  }

  lemma RootOfQuotient(s: int, r: int, q: int, cs: int, cr: int, p: int)
    requires Prime(p) && s % p != r % p && cs == (s - r) * q + cr && cs % p == 0 && cr % p == 0
    ensures q % p == 0
  {
    MultipleIsZero(0, p);
    CongSub(cs, 0, cr, 0, p);
    if (s - r) % p == 0 {
      CongAdd(s - r, 0, r, r, p);
    }
    Euclid(p, s - r, q);
  }

  /** X^n - 1 */
  function PowerMinusOne(n: nat): (c: seq<int>)
    requires n > 0
    ensures |c| == n + 1
  {
    [-1] + seq(n - 1, i => 0) + [1]
  }

  lemma {:induction false} EvalPower(n: nat, x: int)
    ensures Eval(seq(n, i => 0) + [1], x) == Pow(x, n)
  {
    var c := seq(n, i => 0) + [1];
    if n == 0 {
      assert c == [1] && Eval(c[1..], x) == 0;
    } else {
      EvalPower(n - 1, x);
      assert c[1..] == seq(n - 1, i => 0) + [1];
    }
  }

  lemma EvalPowerMinusOne(n: nat, x: int)
    requires n > 0
    ensures Eval(PowerMinusOne(n), x) == Pow(x, n) - 1
  {
    var c := PowerMinusOne(n);
    EvalPower(n - 1, x);
    assert c[1..] == seq(n - 1, i => 0) + [1];
  }

  /** 1, 4, 9, ..., n^2 */
  function SquaresTo(n: nat): (s: seq<int>)
    ensures |s| == n
  {
    seq(n, i => (i + 1) * (i + 1))
  }

  lemma SquaresDistinct(p: int)
    requires Prime(p) && p % 2 == 1
    ensures Distinct(SquaresTo((p - 1) / 2), p)
  {
    var s := SquaresTo((p - 1) / 2);
    forall i, j | 0 <= i < j < |s|
      ensures s[i] % p != s[j] % p
    {
      if s[i] % p == s[j] % p {
        RootsAgree(i + 1, j + 1, p);
        SmallRoots(i + 1, j + 1, p);
      }
    }
  }

  lemma SmallRoots(y: int, z: int, p: int)
    requires 0 < y < z && 2 * z < p
    ensures y % p != z % p && y % p != (-z) % p
  {
    DivModUnique(y, 0, y, p);
    DivModUnique(z, 0, z, p);
    DivModUnique(-z, -1, p - z, p);
  }

  lemma SmallSquareIsRoot(p: int, i: nat)
    requires Prime(p) && p % 2 == 1 && i < (p - 1) / 2
    ensures Pow((i + 1) * (i + 1), (p - 1) / 2) % p == 1
  {
    var y := i + 1;
    DivModUnique(y, 0, y, p);
    MultipleIsZero(0, p);
    if (y * y) % p == 0 {
      Euclid(p, y, y);
    }
    SquareHasEulerOne(y * y, y, p);
  }

  /** A nonzero number whose Euler power is 1 is a square: the squares are all the roots there can be. */
  lemma EulerOneIsSquare(a: int, p: int)
    requires Prime(p) && p % 2 == 1 && EulerPower(a, p) % p == 1
    ensures IsSquare(a, p)
  {
    if !IsSquare(a, p) {
      var h := (p - 1) / 2;
      var c, s := PowerMinusOne(h), SquaresTo(h);
      var rs := s + [a];
      SquaresDistinct(p);
      DivModUnique(1, 0, 1, p);
      MultipleIsZero(0, p);
      forall i | 0 <= i < |rs|
        ensures Eval(c, rs[i]) % p == 0
      {
        EvalPowerMinusOne(h, rs[i]);
        if i < h {
          SmallSquareIsRoot(p, i);
        }
        CongSub(Pow(rs[i], h), 1, 1, 1, p);
      }
      forall i | 0 <= i < h
        ensures rs[i] % p != a % p
      {
        assert rs[i] % p == a % p ==> SquareOf(i + 1, a, p);
      }
      TooManyRoots(c, rs, p, 0);
      EvalPowerMinusOne(h, 0);
      assert Pow(0, h) == 0 * Pow(0, h - 1) == 0;
      DivModUnique(-1, -1, p - 1, p);
      assert false;
    }
  }

  /** Euler's criterion. */
  lemma EulerCriterion(a: int, p: int)
    requires Prime(p) && p % 2 == 1 && a % p != 0
    ensures IsSquare(a, p) <==> EulerPower(a, p) % p == 1
    ensures !IsSquare(a, p) <==> EulerPower(a, p) % p == p - 1
  {
    EulerPowerIsUnit(a, p);
    if IsSquare(a, p) {
      var y :| SquareOf(y, a, p);
      SquareHasEulerOne(a, y, p);
    }
    if EulerPower(a, p) % p == 1 {
      EulerOneIsSquare(a, p);
    }
  }
}

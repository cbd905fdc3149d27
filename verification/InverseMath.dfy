/** The number theory behind the almost Montgomery inverse. */
module InverseMath {
  import opened Arith

  /** Coprimality, in Bezout's form. */
  ghost predicate Coprime(a: int, b: int)
  {
    exists i: int, j: int :: Bezout(a, b, i, j)
  }

  ghost predicate Bezout(a: int, b: int, i: int, j: int) { i * a + j * b == 1 }

  /** State of the loop: the four numbers, the number of halvings and the Bezout coefficients of u and v. */
  datatype State = State(u: int, v: int, r: int, s: int, k: nat, i: int, j: int)

  /** What every unfinished turn keeps, for x modulo p. */
  ghost predicate Inv(x: int, p: int, t: State)
  {
    && p > 0
    && 1 <= t.u && 1 <= t.v && 0 <= t.r && 1 <= t.s && Pow(2, t.k) > 0
    && t.u * t.s + t.v * t.r == p
    && (x * t.s) % p == (t.v * Pow(2, t.k)) % p
    && (x * t.r) % p == (-t.u * Pow(2, t.k)) % p
    && Bezout(t.u, t.v, t.i, t.j)
    && t.u * t.v * Pow(2, t.k) <= p * p
  }

  /** One unfinished turn, with the branches of the source. */
  function Turn(t: State): State
  {
    if t.u % 2 == 0 then State(t.u / 2, t.v, t.r, 2 * t.s, t.k + 1, 2 * t.i, t.j)
    else if t.v % 2 == 0 then State(t.u, t.v / 2, 2 * t.r, t.s, t.k + 1, t.i, 2 * t.j)
    else if t.v < t.u then State((t.u - t.v) / 2, t.v, t.r + t.s, 2 * t.s, t.k + 1, 2 * t.i, t.i + t.j)
    else State(t.u, (t.v - t.u) / 2, 2 * t.r, t.r + t.s, t.k + 1, t.i + t.j, 2 * t.j)
  }

  /** r and s stay below the modulus, so the limbs never overflow. */
  lemma InvBounds(x: int, p: int, t: State)
    requires Inv(x, p, t)
    ensures t.s <= p && t.r <= p
  {
    MulMonotone(1, t.u, t.s, t.s);
    MulMonotone(1, t.v, t.r, t.r);
    assert t.v * t.r >= 0 && t.u * t.s >= 0;
  }

  lemma InvStart(x: int, p: int, i: int, j: int)
    requires 0 < x < p && Bezout(p, x, i, j)
    ensures Inv(x, p, State(p, x, 0, 1, 0, i, j))
  {
    MultipleIsZero(-1, p);
    MultipleIsZero(0, p);
    MulMonotone(p, p, x, p);
  }

  /** The four kinds of step a congruence x * a = b * w (mod p) takes when w doubles. */
  lemma DoubleBoth(x: int, a: int, b: int, w: int, p: int)
    requires p > 0 && (x * a) % p == (b * w) % p
    ensures (x * (2 * a)) % p == (b * (2 * w)) % p
  {
    CongMul(2, 2, x * a, b * w, p);
    assert x * (2 * a) == 2 * (x * a) && b * (2 * w) == 2 * (b * w);
  }

  lemma AddBoth(x: int, r: int, s: int, u: int, v: int, w: int, p: int)
    requires p > 0 && (x * s) % p == (v * w) % p && (x * r) % p == (-u * w) % p
    ensures (x * (r + s)) % p == ((v - u) * w) % p
  {
    CongAdd(x * r, -u * w, x * s, v * w, p);
    assert x * (r + s) == x * r + x * s && (v - u) * w == -u * w + v * w;
  }

  lemma Regroup(h: int, b: int, w: int)
    ensures h * (2 * b) == 2 * h * b && h * (2 * w) == 2 * h * w
    ensures h * b * (2 * w) == 2 * h * b * w && b * h * (2 * w) == b * (2 * h) * w
  {
    assert h * (2 * b) == 2 * h * b && h * (2 * w) == 2 * h * w;
    assert h * b * (2 * w) == 2 * (h * b) * w;
    assert b * (2 * h) == 2 * (h * b);
    assert b * h * (2 * w) == 2 * (h * b) * w;
  }

  lemma HalveFirst(x: int, p: int, t: State)
    requires Inv(x, p, t) && t.u % 2 == 0
    ensures Inv(x, p, Turn(t))
  {
    var h, w := t.u / 2, Pow(2, t.k);
    Regroup(h, t.s, w);
    Regroup(h, t.v, w);
    DoubleBoth(x, t.s, t.v, w, p);
    assert -h * (2 * w) == -t.u * w;
    Regroup(h, t.i, w);
  }

  lemma HalveSecond(x: int, p: int, t: State)
    requires Inv(x, p, t) && t.u % 2 == 1 && t.v % 2 == 0
    ensures Inv(x, p, Turn(t))
  {
    var h, w := t.v / 2, Pow(2, t.k);
    Regroup(h, t.r, w);
    Regroup(h, t.u, w);
    DoubleBoth(x, t.r, -t.u, w, p);
    Regroup(h, t.j, w);
  }

  /** Replacing 2h + v by h: the weighted sum and the Bezout identity survive. */
  lemma KeepSum(h: int, v: int, r: int, s: int)
    ensures h * (2 * s) + v * (r + s) == (2 * h + v) * s + v * r
  {
    assert h * (2 * s) == 2 * h * s;
    assert (2 * h + v) * s == 2 * h * s + v * s;
    assert v * (r + s) == v * r + v * s;
  }

  lemma KeepBezout(h: int, v: int, i: int, j: int)
    ensures 2 * i * h + (i + j) * v == i * (2 * h + v) + j * v
  {
    assert i * (2 * h + v) == i * (2 * h) + i * v;
    assert i * (2 * h) == 2 * i * h;
    assert (i + j) * v == i * v + j * v;
  }

  lemma SubtractFirst(x: int, p: int, t: State)
    requires Inv(x, p, t) && t.u % 2 == 1 && t.v % 2 == 1 && t.v < t.u
    ensures Inv(x, p, Turn(t))
  {
    var h, w := (t.u - t.v) / 2, Pow(2, t.k);
    OddDifference(t.u, t.v);
    KeepSum(h, t.v, t.r, t.s);
    KeepBezout(h, t.v, t.i, t.j);
    assert (x * (2 * t.s)) % p == (t.v * (2 * w)) % p by {
      DoubleBoth(x, t.s, t.v, w, p);
    }
    assert (x * (t.r + t.s)) % p == (-h * (2 * w)) % p by {
      AddBoth(x, t.r, t.s, t.u, t.v, w, p);
      Regroup(-h, t.v, w);
    }
    assert h * t.v * (2 * w) <= p * p by {
      Regroup(h, t.v, w);
      Shrinks(2 * h, t.u, t.v, w);
    }
  }

  lemma SubtractSecond(x: int, p: int, t: State)
    requires Inv(x, p, t) && t.u % 2 == 1 && t.v % 2 == 1 && t.v >= t.u && t.v != 1
    ensures Inv(x, p, Turn(t))
  {
    var h, w := (t.v - t.u) / 2, Pow(2, t.k);
    assert t.v > t.u by {
      NotEqual(t.u, t.v, t.i, t.j);
    }
    OddDifference(t.v, t.u);
    KeepSum(h, t.u, t.s, t.r);
    KeepBezout(h, t.u, t.j, t.i);
    assert (x * (2 * t.r)) % p == (-t.u * (2 * w)) % p by {
      DoubleBoth(x, t.r, -t.u, w, p);
    }
    assert (x * (t.r + t.s)) % p == (h * (2 * w)) % p by {
      AddBoth(x, t.r, t.s, t.u, t.v, w, p);
      Regroup(h, t.v, w);
    }
    assert t.u * h * (2 * w) <= p * p by {
      Regroup(h, t.u, w);
      Commute(t.u, h, t.v);
      Shrinks(2 * h, t.v, t.u, w);
    }
  }

  lemma OddDifference(a: int, b: int)
    requires a % 2 == b % 2
    ensures a == 2 * ((a - b) / 2) + b
  {
  }

  lemma Commute(a: int, b: int, c: int)
    ensures a * (2 * b) == 2 * b * a && a * c == c * a
  {
  }

  lemma NotEqual(u: int, v: int, i: int, j: int)
    requires Bezout(u, v, i, j) && v >= u >= 1 && v != 1
    ensures v > u
  {
    if v == u {
      assert (i + j) * v == i * v + j * v;
      NoUnitFactor(i + j, v);
    }
  }

  lemma Shrinks(a: int, u: int, v: int, w: int)
    requires 0 <= a <= u && v >= 0 && w > 0
    ensures a * v * w <= u * v * w
  {
    MulMonotone(a, u, v, v);
    MulMonotone(a * v, u * v, w, w);
  }

  lemma NoUnitFactor(a: int, b: int)
    requires a * b == 1 && b >= 1
    ensures b == 1
  {
    if b > 1 {
      if a >= 1 {
        MulMonotone(1, a, 2, b);
      } else {
        MulMonotone(0, -a, b, b);
      }
    }
  }

  /** Every unfinished turn keeps the invariant. */
  lemma TurnKeepsInv(x: int, p: int, t: State)
    requires Inv(x, p, t) && t.v != 1
    ensures Inv(x, p, Turn(t)) && Turn(t).k == t.k + 1
  {
    if t.u % 2 == 0 {
      HalveFirst(x, p, t);
    } else if t.v % 2 == 0 {
      HalveSecond(x, p, t);
    } else if t.v < t.u {
      SubtractFirst(x, p, t);
    } else {
      SubtractSecond(x, p, t);
    }
  }

  /** The product u * v halves at every turn, so at most 512 turns fit under p^2 <= 2^512. */
  lemma TurnsBounded(x: int, p: int, t: State)
    requires Inv(x, p, t) && p <= Pow(2, 256)
    ensures t.k <= 512
  {
    MulMonotone(1, t.u, 1, t.v);
    MulMonotone(1, t.u * t.v, Pow(2, t.k), Pow(2, t.k));
    MulMonotone(p, Pow(2, 256), p, Pow(2, 256));
    PowAdd(2, 256, 256);
    PowPositive(2, 512);
    if t.k > 512 {
      PowMonotone(2, 513, t.k);
    }
  }

  /** An odd modulus lets a factor of two be cancelled. */
  lemma CancelTwo(a: int, b: int, p: int)
    requires p > 0 && p % 2 == 1 && (2 * a) % p == (2 * b) % p
    ensures a % p == b % p
  {
    var k := CongWitness(2 * a, 2 * b, p);
    OddFactor(k, p);
    var h := k / 2;
    assert k * p == 2 * (h * p);
    assert a == b + h * p;
    ModAddMultiple(b, h, p);
  }

  lemma OddFactor(k: int, p: int)
    requires p % 2 == 1 && (k * p) % 2 == 0
    ensures k % 2 == 0
  {
    var a, b := k / 2, p / 2;
    assert k * p == k % 2 + 2 * (a + k * b) by {
      assert k * p == k * (2 * b + 1) == 2 * (k * b) + k;
    }
  }

  lemma {:induction false} CancelPower(a: int, b: int, k: nat, p: int)
    requires p > 0 && p % 2 == 1 && (Pow(2, k) * a) % p == (Pow(2, k) * b) % p
    ensures a % p == b % p
  {
    if k > 0 {
      assert Pow(2, k) * a == 2 * (Pow(2, k - 1) * a) && Pow(2, k) * b == 2 * (Pow(2, k - 1) * b);
      CancelTwo(Pow(2, k - 1) * a, Pow(2, k - 1) * b, p);
      CancelPower(a, b, k - 1, p);
    }
  }

  /** When v reaches 1, s is the almost inverse, below the modulus. */
  lemma Finished(x: int, p: int, t: State)
    requires Inv(x, p, t) && t.v == 1 && p % 2 == 1 && p > 1
    ensures (x * t.s) % p == Pow(2, t.k) % p && 0 < t.s < p
  {
    InvBounds(x, p, t);
    if t.s == p {
      MultipleIsZero(x, p);
      MultipleIsZero(0, p);
      assert (Pow(2, t.k) * 1) % p == (Pow(2, t.k) * 0) % p;
      CancelPower(1, 0, t.k, p);
      DivModUnique(1, 0, 1, p);
    }
  }

  /** Dividing the almost inverse by 2^k gives the inverse. */
  lemma AlmostInverse(x: int, s0: int, s: int, k: nat, p: int)
    requires p > 1 && p % 2 == 1
    requires (x * s0) % p == Pow(2, k) % p && (Pow(2, k) * s) % p == s0 % p
    ensures (x * s) % p == 1
  {
    var w := Pow(2, k);
    assert (w * (x * s)) % p == w % p by {
      CongMul(x, x, w * s, s0, p);
      assert x * (w * s) == w * (x * s);
    }
    CancelPower(x * s, 1, k, p);
    DivModUnique(1, 0, 1, p);
  }
}

/** The simplified Shallue-van de Woestijne-Ulas map (crypto/hash_to_curve.c). */
module HashToCurve {
  import opened Arith
  import opened Limbs
  import opened Bignum
  import opened BignumBytes
  import opened BignumPower
  import opened BignumHalf
  import opened BignumReduce
  import opened Field
  import opened Primes
  import opened Roots
  import opened Squares
  import opened Curve
  import opened CurveLaw
  import opened Groups
  import opened CurveGroup
  import opened JacobianGroup
  import opened Numerals
  import opened Compression
  import opened Signatures

  function G(x: int, a: int, b: int): int { x * x * x + a * x + b }

  /** The abscissa section 6.6.2 of RFC 9380 calls x1, for t = z * u^2. */
  ghost predicate FirstCandidate(t: int, a: int, b: int, z: int, p: int, x: int)
  {
    p > 0 && if (t + t * t) % p == 0 then Same(x * a * z, b, p)
    else Same(x * a * (t + t * t), -b * (1 + (t + t * t)), p)
  }

  ghost predicate Chosen(t: int, a: int, b: int, p: int, x1: int, x: int)
  {
    p > 0 && Same(x, if IsSquare(G(x1, a, b), p) then x1 else t * x1, p)
  }

  /** The abscissa the map selects: the first candidate if its ordinate exists, else t times it. */
  ghost predicate Selected(u: int, a: int, b: int, z: int, p: int, x: int)
  {
    p > 0 && exists x1 :: FirstCandidate(z * (u * u), a, b, z, p, x1) && Chosen(z * (u * u), a, b, p, x1, x)
  }

  /** The selected abscissa in the terms of section 6.6.2 of RFC 9380, without the divisions. */
  lemma SelectedMeans(u: int, a: int, b: int, z: int, p: int, x: int) returns (x1: int)
    requires Selected(u, a, b, z, p, x)
    ensures var t := z * (u * u);
            && p > 0 && (if (t + t * t) % p == 0 then Same(x1 * a * z, b, p)
                         else Same(x1 * a * (t + t * t), -b * (1 + (t + t * t)), p))
            && Same(x, if IsSquare(x1 * x1 * x1 + a * x1 + b, p) then x1 else t * x1, p)
  {
    var t := z * (u * u);
    x1 :| FirstCandidate(t, a, b, z, p, x1) && Chosen(t, a, b, p, x1, x);
  }

  /** The assumptions on the constant z that the choice relies on. */
  ghost predicate GoodConstant(a: int, b: int, z: int, p: int)
  {
    p > 0 && z % p != 0 && !IsSquare(z, p) && forall x :: Same(x * a * z, b, p) ==> IsSquare(G(x, a, b), p)
  }

  // ---------- The map on paper ----------

  lemma ScaledCubic(x: int, t: int, a: int, b: int)
    ensures G(x, a, b) * (t * (t * t))
         == G(t * x, a, b) + (t - 1) * (x * a * (t + t * t) + b * (1 + (t + t * t)))
  {
    var s, t3 := t + t * t, t * (t * t);
    assert (t - 1) * s == t3 - t;
    assert (t - 1) * (1 + s) == t3 - 1;
    assert (t - 1) * (x * a * s + b * (1 + s)) == x * a * (t3 - t) + b * (t3 - 1) by {
      assert (t - 1) * (x * a * s) == x * a * ((t - 1) * s);
      assert (t - 1) * (b * (1 + s)) == b * ((t - 1) * (1 + s));
    }
    assert t * x * (t * x) * (t * x) == x * x * x * t3 by {
      MulShuffle(t, x, t, x);
      MulShuffle(t * t, x * x, t, x);
    }
    assert x * a * (t3 - t) == a * x * t3 - a * (t * x) by {
      assert x * a == a * x;
      assert a * x * (t3 - t) == a * x * t3 - a * x * t;
      assert a * x * t == a * (t * x);
    }
    assert (x * x * x + a * x + b) * t3 == x * x * x * t3 + a * x * t3 + b * t3;
  }

  /** g(t * x1) = t^3 * g(x1) for the first candidate. */
  lemma SecondCandidate(t: int, a: int, b: int, z: int, p: int, x: int)
    requires FirstCandidate(t, a, b, z, p, x) && (t + t * t) % p != 0
    ensures Same(G(t * x, a, b), G(x, a, b) * (t * (t * t)), p)
  {
    var s := t + t * t;
    var k := CongWitness(x * a * s, -b * (1 + s), p);
    ScaledCubic(x, t, a, b);
    NegatedFactor(b, 1 + s);
    MulAssoc(t - 1, k, p);
    ModAddMultiple(G(t * x, a, b), (t - 1) * k, p);
  }

  lemma ProductOfNonsquares(v: int, z: int, p: int)
    requires Prime(p) && p % 4 == 3 && !IsSquare(v, p) && !IsSquare(z, p)
    ensures IsSquare(v * z, p)
  {
    ZeroIsSquare(v, p);
    ZeroIsSquare(z, p);
    EulerCriterion(v, p);
    EulerCriterion(z, p);
    if (v * z) % p == 0 {
      Euclid(p, v, z);
    }
    EulerCriterion(v * z, p);
    PowProduct(v, z, (p - 1) / 2);
    DivModUnique(-1, -1, p - 1, p);
    CongMul(EulerPower(v, p), -1, EulerPower(z, p), -1, p);
    DivModUnique(1, 0, 1, p);
  }

  lemma ZeroIsSquare(v: int, p: int)
    requires p > 0
    ensures v % p == 0 ==> IsSquare(v, p)
  {
    if v % p == 0 {
      MultipleIsZero(0, p);
      assert SquareOf(0, v, p);
    }
  }

  lemma SquareTimesSquare(v: int, w: int, p: int)
    requires p > 0 && IsSquare(v, p)
    ensures IsSquare(v * (w * w), p)
  {
    var y :| SquareOf(y, v, p);
    CongMul(y * y, v, w * w, w * w, p);
    MulShuffle(y, w, y, w);
    assert SquareOf(y * w, v * (w * w), p);
  }

  /** When the first candidate has no ordinate, the second has one. */
  lemma SecondIsSquare(v: int, z: int, u: int, p: int)
    requires Prime(p) && p % 4 == 3 && !IsSquare(v, p) && !IsSquare(z, p)
    ensures var t := z * (u * u); IsSquare(v * (t * (t * t)), p)
  {
    var t, w := z * (u * u), z * (u * u) * u;
    ProductOfNonsquares(v, z, p);
    SquareTimesSquare(v * z, w, p);
    assert v * z * (w * w) == v * (t * (t * t)) by {
      assert w * w == t * t * (u * u) by {
        MulShuffle(t, u, t, u);
      }
      assert z * (t * t * (u * u)) == t * (t * t);
      assert v * z * (w * w) == v * (z * (w * w));
    }
  }

  // ---------- The code ----------

  /** Legendre symbol of a reduced number (bn_legendre). */
  method Legendre(x: int, p: int, ghost X: int) returns (r: int)
    requires 0 <= x < p && InRange(p) && Prime(p) && p % 4 == 3 && Same(x, X, p)
    ensures r >= 0 <==> IsSquare(X, p)
  {
    var xl := ToLimbs(x);
    var pl := ToLimbs(p);
    r := BnLegendre(xl, pl);
    SameSquares(x, X, p);
  }

  lemma SameSquares(x: int, X: int, p: int)
    requires Same(x, X, p)
    ensures IsSquare(x, p) <==> IsSquare(X, p)
  {
    if IsSquare(x, p) {
      var y :| SquareOf(y, x, p);
      assert SquareOf(y, X, p);
    }
    if IsSquare(X, p) {
      var y :| SquareOf(y, X, p);
      assert SquareOf(y, x, p);
    }
  }

  /** k * x, fully reduced. */
  method ReducedProduct(k: int, x: int, p: int, ghost K: int, ghost X: int) returns (r: int)
    requires 0 <= k < TWO256 && 0 <= x < TWO256 && InRange(p) && Same(k, K, p) && Same(x, X, p)
    ensures 0 <= r < p && Same(r, K * X, p)
  {
    r := Product(k, x, p, K, X);
    r := Reduce(r, p);
  }

  /** x + y, fully reduced. */
  method ReducedSum(x: int, y: int, p: int, ghost X: int, ghost Y: int) returns (r: int)
    requires 0 <= x < p && 0 <= y < p && InRange(p) && Same(x, X, p) && Same(y, Y, p)
    ensures 0 <= r < p && Same(r, X + Y, p)
  {
    r := Add(x, y, p, X, Y);
    r := Reduce(r, p);
  }

  /** -1 / x for a nonzero residue. */
  method NegatedInverse(x: int, p: int) returns (r: int)
    requires 0 <= x < p && x % p != 0 && InRange(p) && Prime(p) && p % 2 == 1
    ensures 0 <= r < p && Same(-x * r, 1, p)
  {
    var m := Subtract(p, x);
    ModAddMultiple(-x, 1, p);
    NegatedNonzero(x, p);
    PrimeCoprime(p, m);
    r := Inverse(m, p, -x);
  }

  lemma NegatedNonzero(x: int, p: int)
    requires p > 0 && x % p != 0
    ensures (-x) % p != 0
  {
    if (-x) % p == 0 {
      MultipleIsZero(0, p);
      CongSub(0, 0, -x, 0, p);
    }
  }

  /** c1 = -b / a. */
  method NegatedQuotient(a: int, b: int, p: int) returns (c1: int)
    requires 0 <= a < p && a % p != 0 && 0 <= b < p && InRange(p) && Prime(p) && p % 2 == 1
    ensures 0 <= c1 < p && Same(c1 * a, -b, p)
  {
    var i := NegatedInverse(a, p);
    c1 := ReducedProduct(b, i, p, b, i);
    CongMul(c1, b * i, a, a, p);
    assert b * i * a == -b * (-a * i);
    CongMul(-b, -b, -a * i, 1, p);
  }

  /** x1: the first candidate, with the exceptional case taken by a conditional move. */
  method FirstAbscissa(t1: int, t2: int, a: int, b: int, z: int, p: int, ghost t: int) returns (x1: int)
    requires 0 <= a < p && a % p != 0 && 0 <= b < p && 0 <= z < p && z % p != 0
    requires InRange(p) && Prime(p) && p % 2 == 1
    requires 0 <= t1 < p && 0 <= t2 < p && Same(t1, t, p) && Same(t2, t * t, p)
    ensures 0 <= x1 < p && FirstCandidate(t, a, b, z, p, x1)
  {
    var c1 := NegatedQuotient(a, b, p);
    var c2 := NegatedInverse(z, p);
    x1 := ReducedSum(t1, t2, p, t, t * t);
    if x1 % p != 0 {
      PrimeCoprime(p, x1);
    }
    x1 := Inverse(x1, p, t + t * t);
    ghost var i := x1;
    var e1 := x1 == 0;
    x1 := Add(x1, 1, p, i, 1);
    x1 := Reduce(x1, p);
    x1 := if e1 then c2 else x1;
    ghost var f := x1;
    x1 := ReducedProduct(c1, x1, p, c1, f);
    CandidateFound(x1, c1, c2, f, i, t + t * t, a, b, z, p);
  }

  lemma CandidateFound(x: int, c1: int, c2: int, f: int, i: int, s: int, a: int, b: int, z: int, p: int)
    requires p > 1 && Same(c1 * a, -b, p) && Same(-z * c2, 1, p) && Same(x, c1 * f, p)
    requires if i == 0 then f == c2 else Same(f, i + 1, p)
    requires if s % p == 0 then i == 0 else Same(s * i, 1, p)
    ensures if s % p == 0 then Same(x * a * z, b, p) else Same(x * a * s, -b * (1 + s), p)
  {
    CongMul(x, c1 * f, a, a, p);
    assert c1 * f * a == c1 * a * f;
    CongMul(c1 * a, -b, f, f, p);
    if s % p == 0 {
      CongMul(x * a, -b * f, z, z, p);
      assert -b * c2 * z == b * (-z * c2);
      CongMul(b, b, -z * c2, 1, p);
    } else {
      if i == 0 {
        DivModUnique(0, 0, 0, p);
        DivModUnique(1, 0, 1, p);
      }
      CongMul(x * a, -b * f, s, s, p);
      assert -b * f * s == -b * (f * s);
      CongMul(f, i + 1, s, s, p);
      assert (i + 1) * s == s * i + s;
      CongAdd(s * i, 1, s, s, p);
      CongMul(-b, -b, f * s, 1 + s, p);
    }
  }

  /** g(x), fully reduced. */
  method CurveValue(x: int, a: int, b: int, p: int) returns (g: int)
    requires 0 <= x < p && 0 <= a < p && 0 <= b < p && InRange(p)
    ensures 0 <= g < p && Same(g, G(x, a, b), p)
  {
    g := ReducedProduct(x, x, p, x, x);
    g := ReducedSum(g, a, p, x * x, a);
    g := ReducedProduct(x, g, p, x, x * x + a);
    g := ReducedSum(g, b, p, x * (x * x + a), b);
    assert x * (x * x + a) == x * x * x + a * x;
  }

  /** The map: a point of the curve, for every u, with the parity of u. */
  method SimpleSwu(u: int, a: int, b: int, p: int, z: int) returns (ok: bool, x: int, y: int)
    requires 0 <= u < TWO256 && 0 <= a < p && 0 <= b < p && 0 <= z < p
    requires InRange(p) && Prime(p) && p % 2 == 1 && GoodConstant(a, b, z, p)
    ensures ok <==> a != 0 && b != 0 && p % 4 == 3
    ensures ok ==> 0 <= x < p && 0 <= y <= p && Same(y * y, G(x, a, b), p) && y % 2 == u % 2
    ensures ok ==> Selected(u, a, b, z, p, x)
    ensures ok ==> (y == p <==> G(x, a, b) % p == 0 && u % 2 == 1)
  {
    ok, x, y := false, 0, 0;
    ModOfFactor(p, BASE / 4, 4);
    if a == 0 || b == 0 || p % BASE % 4 != 3 {
      return;
    }
    DivModUnique(a, 0, a, p);
    ghost var t := z * (u * u);
    var t1 := ReducedProduct(u, u, p, u, u);
    t1 := ReducedProduct(z, t1, p, z, u * u);
    var t2 := ReducedProduct(t1, t1, p, t, t);
    var x1 := FirstAbscissa(t1, t2, a, b, z, p, t);
    var gx1 := CurveValue(x1, a, b, p);
    var x2 := ReducedProduct(x1, t1, p, x1, t);
    t2 := ReducedProduct(t1, t2, p, t, t * t);
    var gx2 := ReducedProduct(t2, gx1, p, t * (t * t), G(x1, a, b));
    var legendre := Legendre(gx1, p, G(x1, a, b));
    var e2 := legendre >= 0;
    x := if e2 then x1 else x2;
    var y2 := if e2 then gx1 else gx2;
    SwuSquare(u, a, b, z, p, x1, x, y2, e2);
    y := SignedRoot(u, y2, p);
    ok := true;
  }

  /** The root of a square that has the parity of u; the other one is its complement. */
  method SignedRoot(u: int, y2: int, p: int) returns (y: int)
    requires 0 <= y2 < p && InRange(p) && Prime(p) && p % 4 == 3 && IsSquare(y2, p)
    ensures 0 <= y <= p && y % 2 == u % 2 && Same(y * y, y2, p)
    ensures y == p <==> y2 % p == 0 && u % 2 == 1
  {
    var r := Sqrt(y2, p, y2);
    var minus := Subtract(p, r);
    y := if u % 2 == r % 2 then r else minus;
    assert p % 2 == 1;
    if u % 2 != r % 2 {
      OtherParity(r, p, u);
      RootEither(r, p, y2);
    }
  }

  lemma RootEither(r: int, p: int, v: int)
    requires Same(r * r, v, p)
    ensures Same((p - r) * (p - r), v, p)
  {
    assert (p - r) * (p - r) == r * r + (p - 2 * r) * p;
    ModAddMultiple(r * r, p - 2 * r, p);
  }

  /** Whichever candidate is taken, the value whose root is taken is g of it, and a square. */
  lemma SwuSquare(u: int, a: int, b: int, z: int, p: int, x1: int, x: int, y2: int, e2: bool)
    requires Prime(p) && p % 4 == 3 && GoodConstant(a, b, z, p)
    requires FirstCandidate(z * (u * u), a, b, z, p, x1) && e2 == IsSquare(G(x1, a, b), p)
    requires Same(x, if e2 then x1 else x1 * (z * (u * u)), p)
    requires var t := z * (u * u);
             Same(y2, if e2 then G(x1, a, b) else t * (t * t) * G(x1, a, b), p)
    ensures IsSquare(y2, p) && Same(y2, G(x, a, b), p) && Selected(u, a, b, z, p, x)
  {
    var t, v := z * (u * u), G(x1, a, b);
    assert x1 * t == t * x1 && t * (t * t) * v == v * (t * (t * t));
    if e2 {
      SameSquares(y2, v, p);
      CubicCongruent(x, x1, a, b, p);
    } else {
      SecondCandidate(t, a, b, z, p, x1);
      SecondIsSquare(v, z, u, p);
      SameSquares(y2, v * (t * (t * t)), p);
      CubicCongruent(x, t * x1, a, b, p);
    }
  }

  // ---------- An ordinate that is not below the prime ----------

  lemma {:induction false} OddPowerOfMinusOne(n: nat)
    ensures Pow(-1, 2 * n) == 1 && Pow(-1, 2 * n + 1) == -1
  {
    if n > 0 {
      OddPowerOfMinusOne(n - 1);
    }
  }

  lemma MinusOneNoSquare(p: int)
    requires Prime(p) && p % 4 == 3
    ensures !IsSquare(p - 1, p)
  {
    hide Pow;
    DivModUnique(p - 1, 0, p - 1, p);
    DivModUnique(-1, -1, p - 1, p);
    CongPow(p - 1, -1, (p - 1) / 2, p);
    OddPowerOfMinusOne((p - 3) / 4);
    EulerCriterion(p - 1, p);
  }

  lemma CancelFactor(f: int, x: int, y: int, p: int)
    requires Prime(p) && 0 < f < p && Same(f * x, f * y, p)
    ensures Same(x, y, p)
  {
    DivModUnique(f, 0, f, p);
    MultipleIsZero(0, p);
    CongSub(f * x, f * y, f * y, f * y, p);
    assert f * x - f * y == f * (x - y);
    Euclid(p, f, x - y);
    CongAdd(x - y, 0, y, y, p);
  }

  // With a = -584 * 584 * 73 and b = -576 * a, the abscissa 584 is a root of the cubic, and the map takes 3 to it.

  const ROOT_FACTOR: int := 24_897_088
  const ROOT_CONSTANT: int := 14_340_722_688

  lemma RootCubic(x: int, p: int)
    requires p > 0
    ensures Same(x, 584, p) ==> G(x, p - ROOT_FACTOR, ROOT_CONSTANT) % p == 0
    ensures Same(x, 576, p) ==> IsSquare(G(x, p - ROOT_FACTOR, ROOT_CONSTANT), p)
  {
    var a, b := p - ROOT_FACTOR, ROOT_CONSTANT;
    if Same(x, 584, p) {
      CubicCongruent(x, 584, a, b, p);
      assert G(584, a, b) == 584 * p;
      MultipleIsZero(584, p);
    }
    if Same(x, 576, p) {
      CubicCongruent(x, 576, a, b, p);
      assert G(576, a, b) == 13824 * 13824 + 576 * p;
      ModAddMultiple(13824 * 13824, 576, p);
      assert SquareOf(13824, G(x, a, b), p);
    }
  }

  lemma RootConstantGood(p: int)
    requires Prime(p) && p % 4 == 3 && ROOT_CONSTANT < p
    ensures GoodConstant(p - ROOT_FACTOR, ROOT_CONSTANT, p - 1, p)
  {
    MinusOneNoSquare(p);
    DivModUnique(p - 1, 0, p - 1, p);
    var a := p - ROOT_FACTOR;
    forall x {:trigger G(x, a, ROOT_CONSTANT)} | Same(x * a * (p - 1), ROOT_CONSTANT, p)
      ensures IsSquare(G(x, a, ROOT_CONSTANT), p)
    {
      NegatedTwice(x, ROOT_FACTOR, p);
      CancelFactor(ROOT_FACTOR, x, 576, p);
      RootCubic(x, p);
    }
  }

  lemma NegatedTwice(x: int, f: int, p: int)
    requires p > 0
    ensures Same(x * (p - f) * (p - 1), f * x, p)
  {
    CongMul(x, x, p - f, p - f, p);
    assert x * (p - f) == -(f * x) + x * p;
    ModAddMultiple(-(f * x), x, p);
    ModAddMultiple(-1, 1, p);
    CongMul(x * (p - f), -(f * x), p - 1, -1, p);
  }

  lemma NegatedTimes(x: int, f: int, p: int)
    requires p > 0
    ensures Same(x * (p - f) * 72, -(72 * f * x), p)
  {
    assert x * (p - f) == x * p - x * f;
    assert x * (p - f) * 72 == -(72 * f * x) + 72 * x * p by {
      assert 72 * f * x == 72 * (x * f);
      assert 72 * x * p == 72 * (x * p);
    }
    ModAddMultiple(-(72 * f * x), 72 * x, p);
  }

  lemma RootCandidate(x: int, p: int)
    requires Prime(p) && ROOT_CONSTANT < p && FirstCandidate((p - 1) * 9, p - ROOT_FACTOR, ROOT_CONSTANT, p - 1, p, x)
    ensures Same(x, 584, p)
  {
    var t, a := (p - 1) * 9, p - ROOT_FACTOR;
    assert t + t * t == 72 + (81 * p - 153) * p;
    ModAddMultiple(72, 81 * p - 153, p);
    DivModUnique(72, 0, 72, p);
    CongMul(x * a, x * a, t + t * t, 72, p);
    CongAdd(1, 1, t + t * t, 72, p);
    CongMul(-ROOT_CONSTANT, -ROOT_CONSTANT, 1 + (t + t * t), 73, p);
    NegatedTimes(x, ROOT_FACTOR, p);
    CongSub(0, 0, -(72 * ROOT_FACTOR * x), -ROOT_CONSTANT * 73, p);
    CancelFactor(72 * ROOT_FACTOR, x, 584, p);
  }

  lemma RootSelected(x: int, p: int)
    requires Prime(p) && ROOT_CONSTANT < p && Selected(3, p - ROOT_FACTOR, ROOT_CONSTANT, p - 1, p, x)
    ensures G(x, p - ROOT_FACTOR, ROOT_CONSTANT) % p == 0
  {
    var t, a, b := (p - 1) * 9, p - ROOT_FACTOR, ROOT_CONSTANT;
    var x1 :| FirstCandidate(t, a, b, p - 1, p, x1) && Chosen(t, a, b, p, x1, x);
    RootCandidate(x1, p);
    RootCubic(x1, p);
    ZeroIsSquare(G(x1, a, b), p);
    RootCubic(x, p);
  }

  /** Over every such prime, on the curve above, the ordinate that goes with 3 comes out as the prime itself. */
  method OddRootMapped(p: int) returns (ok: bool, x: int, y: int)
    requires Prime(p) && InRange(p) && p % 4 == 3
    ensures ok && y == p
  {
    RootConstantGood(p);
    ok, x, y := SimpleSwu(3, p - ROOT_FACTOR, ROOT_CONSTANT, p, p - 1);
    RootSelected(x, p);
  }

  lemma CubicCongruent(x: int, w: int, a: int, b: int, p: int)
    requires Same(x, w, p)
    ensures Same(G(x, a, b), G(w, a, b), p)
  {
    CongMul(x, w, x, w, p);
    CongMul(x * x, w * w, x, w, p);
    CongMul(a, a, x, w, p);
    CongAdd(x * x * x, w * w * w, a * x, a * w, p);
    CongAdd(x * x * x + a * x, w * w * w + a * w, b, b, p);
  }

  // ---------- Wide inputs and the whole hash ----------

  /**
   * Eighteen limbs from two 256-bit halves (bn_read_be_512): five bits of the upper half fill the lower one's top limb.
   */
  method ReadWide(lower: array<u32>, upper: array<u32>, wide: array<u32>)
    requires IsBn(lower) && IsBn(upper) && wide.Length == 18 && lower != upper && lower != wide && upper != wide
    requires V(lower) < TWO256 && V(upper) < TWO256
    modifies lower, upper, wide
    ensures Digits(wide[..]) && Value(wide[..]) == old(V(lower) + TWO256 * V(upper))
  {
    ghost var ls, u := lower[..], V(upper);
    NormBound(upper[..]);
    LowBits(upper[..]);
    TopLimbOf(lower[..]);
    var shift: u32 := upper[0] % 32;
    for i := 0 to 5
      invariant IsBn(upper) && V(upper) == u / Pow(2, i) && lower[..] == ls
    {
      BnRShift(upper);
      HalveAgain(u, i);
    }
    lower[8] := lower[8] + shift * 0x100_0000;
    ghost var us := upper[..];
    ghost var ms := lower[..];
    for i := 0 to 9
      invariant lower[..] == ms && upper[..] == us
      invariant forall j :: 0 <= j < i ==> wide[j] == ms[j]
    {
      wide[i] := lower[i];
    }
    for i := 0 to 9
      invariant lower[..] == ms && upper[..] == us
      invariant forall j :: 0 <= j < 9 ==> wide[j] == ms[j]
      invariant forall j :: 0 <= j < i ==> wide[9 + j] == us[j]
    {
      wide[i + 9] := upper[i];
    }
    WideValue(ls, ms, us, wide[..], shift, u);
  }

  lemma HalveAgain(u: int, i: nat)
    requires u >= 0
    ensures Pow(2, i) > 0 && Pow(2, i + 1) > 0 && u / Pow(2, i) / 2 == u / Pow(2, i + 1)
  {
    PowPositive(2, i);
    DivDiv(u, Pow(2, i), 2);
    assert Pow(2, i) * 2 == Pow(2, i + 1);
  }

  lemma WideValue(ls: seq<int>, ms: seq<int>, us: seq<int>, w: seq<int>, shift: int, u: int)
    requires Norm(ls) && Norm(ms) && Norm(us) && |w| == 18
    requires ms[..8] == ls[..8] && ms[8] == ls[8] + shift * 0x100_0000
    requires forall j :: 0 <= j < 9 ==> w[j] == ms[j] && w[9 + j] == us[j]
    requires u >= 0 && shift == u % 32 && Value(us) == u / Pow(2, 5)
    ensures Digits(w) && Value(w) == Value(ls) + TWO256 * u
  {
    ValPrefix(w, ms, 9);
    ValPrefix(ms, ls, 8);
    ValHigh(w, 9);
    HighShifted(w, us, 0);
    ValHigh(us, 0);
    Powers();
    assert Pow(2, 5) == 32;
    assert Value(ms) == Value(ls) + shift * TWO256 by {
      assert Value(ms) == Val(ms, 8) + ms[8] * Pow(BASE, 8);
      assert Value(ls) == Val(ls, 8) + ls[8] * Pow(BASE, 8);
    }
    assert Value(w) == Value(ms) + TWO261 * Value(us) by {
      assert Val(ms, 9) == Value(ms) && High(w, 9) == High(us, 0) && Pow(BASE, 0) == 1;
    }
    assert u == 32 * (u / 32) + u % 32;
    forall j | 0 <= j < 18
      ensures 0 <= w[j] < BASE
    {
      if j >= 9 {
        assert w[j] == us[j - 9];
      }
    }
  }

  lemma {:induction false} HighShifted(w: seq<int>, us: seq<int>, n: nat)
    requires |w| == 18 && |us| == 9 && n <= 9 && forall j :: 0 <= j < 9 ==> w[9 + j] == us[j]
    ensures High(w, 9 + n) == High(us, n)
    decreases 9 - n
  {
    if n < 9 {
      HighShifted(w, us, n + 1);
    }
  }

  /** Eighteen limbs from 64 bytes, the highest first (bn_read_be_512). */
  method BnReadBe512(bytes: seq<u8>, wide: array<u32>)
    requires |bytes| == 64 && wide.Length == 18
    modifies wide
    ensures Digits(wide[..]) && Value(wide[..]) == Num(bytes, 256) && 0 <= Value(wide[..]) < TWO256 * TWO256
  {
    hide Num, Value;
    var lower, upper := new u32[9], new u32[9];
    BnReadBe(bytes[32..], lower);
    BnReadBe(bytes[..32], upper);
    TwoHalves(bytes);
    HalvesBelow(V(lower), V(upper));
    ReadWide(lower, upper, wide);
  }

  lemma TwoHalves(bytes: seq<u8>)
    requires |bytes| == 64
    ensures Num(bytes, 256) == Num(bytes[32..], 256) + TWO256 * Num(bytes[..32], 256)
  {
    hide Num, Pow;
    NumConcat(bytes[..32], bytes[32..], 256);
    assert bytes[..32] + bytes[32..] == bytes;
    WordWeight(8);
    SmallPowers();
    Powers();
  }

  lemma HalvesBelow(lower: int, upper: int)
    requires 0 <= lower < TWO256 && 0 <= upper < TWO256
    ensures 0 <= lower + TWO256 * upper < TWO256 * TWO256
  {
  }

  /** One field element: a 512-bit number modulo the prime. */
  method FieldElement(bytes: seq<u8>, prime: array<u32>) returns (out: array<u32>)
    requires |bytes| == 64 && Modulus(prime[..])
    ensures fresh(out) && IsBn(out) && V(prime) > 0 && V(out) == Num(bytes, 256) % V(prime)
  {
    hide Num;
    var wide := new u32[18];
    BnReadBe512(bytes, wide);
    BnReduce(wide, prime);
    out := new u32[9];
    ValNonnegative(wide[..]);
    BnCopyLower(wide, out);
    NormBound(out[..]);
    BnMod(out, prime);
  }

  /** The limbs hold block i of the expanded message, the highest byte first, modulo the prime. */
  ghost predicate IsElement(limbs: seq<int>, i: nat, expanded: seq<u8>, length: nat, p: int)
  {
    && Norm(limbs) && p > 0 && 0 <= i * length && i * length + length <= |expanded|
    && Value(limbs) == Num(expanded[i * length..i * length + length], 256) % p
  }

  lemma BlockInside(i: nat, length: nat, count: nat)
    requires i < count
    ensures 0 <= i * length && i * length + length <= count * length
  {
    MulMonotone(i + 1, count, length, length);
  }

  /** The raw number in front of whose last bytes there are zeros. */
  lemma ElementFound(limbs: seq<int>, i: nat, expanded: seq<u8>, length: nat, p: int, raw: seq<u8>)
    requires length <= 64 && 0 <= i * length && i * length + length <= |expanded|
    requires raw == Repeat(0, 64 - length) + expanded[i * length..i * length + length]
    requires Norm(limbs) && p > 0 && Value(limbs) == Num(raw, 256) % p
    ensures IsElement(limbs, i, expanded, length, p)
  {
    hide Num;
    ZeroDigits(64 - length, expanded[i * length..i * length + length], 256);
  }

  lemma ElementMeans(limbs: seq<int>, i: nat, expanded: seq<u8>, length: nat, p: int)
    requires IsElement(limbs, i, expanded, length, p)
    ensures && Norm(limbs) && p > 0 && 0 <= i * length && i * length + length <= |expanded|
            && Value(limbs) == Num(expanded[i * length..i * length + length], 256) % p
  {
  }

  lemma PositiveModulus(p: seq<int>)
    requires Modulus(p)
    ensures Value(p) > 0
  {
  }

  /**
   * As many field elements as asked for from the expanded message (hash_to_field). The expansion of the message to so
   * many bytes is a parameter; it may fail.
   */
  method HashToField(expand: nat -> (bool, seq<u8>), length: nat, count: nat, prime: array<u32>)
    returns (ok: bool, out: seq<seq<u32>>)
    requires Modulus(prime[..]) && count * length >= 0 && |expand(count * length).1| == count * length
    ensures ok <==> length <= 64 && expand(count * length).0
    ensures ok ==> |out| == count && V(prime) > 0
    ensures ok ==> forall i :: 0 <= i < count ==>
      && Norm(out[i]) && 0 <= i * length && i * length + length <= count * length
      && Value(out[i]) == Num(expand(count * length).1[i * length..i * length + length], 256) % V(prime)
  {
    hide Num, Value, IsElement, Modulus;
    ok, out := false, [];
    if length > 64 {
      return;
    }
    var expansion := expand(count * length);
    if !expansion.0 {
      return;
    }
    for i := 0 to count
      invariant |out| == i && Modulus(prime[..])
      invariant forall j :: 0 <= j < i ==> IsElement(out[j], j, expansion.1, length, V(prime))
    {
      BlockInside(i, length, count);
      var raw := seq(64 - length, k => 0) + expansion.1[i * length..i * length + length];
      var element := FieldElement(raw, prime);
      ElementFound(element[..], i, expansion.1, length, V(prime), raw);
      out := out + [element[..]];
    }
    ok := true;
    PositiveModulus(prime[..]);
    forall i | 0 <= i < count
      ensures && Norm(out[i]) && 0 <= i * length && i * length + length <= count * length
              && Value(out[i]) == Num(expansion.1[i * length..i * length + length], 256) % V(prime)
    {
      ElementMeans(out[i], i, expansion.1, length, V(prime));
    }
  }

  lemma ValNonnegative(s: seq<int>)
    requires Digits(s)
    ensures Value(s) >= 0
  {
    DigitsBound(s, |s|);
  }

  /** A 32-bit integer as a residue (bn_read_int32). */
  method ReadInt32(k: int, p: int) returns (r: int)
    requires -0x8000_0000 < k < 0x8000_0000 && InRange(p)
    ensures 0 <= r < p && r == if k < 0 then p + k else k
  {
    r := if k < 0 then -k else k;
    if k < 0 {
      r := Subtract(p, r);
    }
  }

  /** No point of odd order has ordinate zero. */
  lemma NoOrderTwo(curve: Curve, g: Point, n: int, x: int)
    requires Base(curve, g, n) && CofactorOne(curve, n)
    ensures !Valid(curve, Affine(x, 0))
  {
    BaseValid(curve, g, n);
    if Valid(curve, Affine(x, 0)) {
      var q := Affine(x, 0);
      AnyPointIsBase(curve, g, n, q);
      assert Opened(0);
      DivModUnique(2, 0, 2, n);
      MultipleFinite(curve, q, n, 2);
      MultipleAdd(curve, q, 1, 1);
      EcIsGroup(curve);
      TimesOne(EcGroup(curve), q);
      DivModUnique(0, 0, 0, curve.p);
      ZeroOrdinate(curve, q);
    }
  }

  /** What the map makes of u: a finite point on the curve, as section 6.6.2 of RFC 9380 selects it. */
  ghost predicate MapsTo(curve: Curve, z: int, u: int, q: Point)
  {
    && q.Affine? && Valid(curve, q) && q.y % 2 == u % 2
    && Selected(u, Residue(curve.a, curve.p), curve.b, Residue(z, curve.p), curve.p, q.x)
  }

  function Residue(k: int, p: int): int { if k < 0 then p + k else k }

  /** One application of the map on a curve whose points all have the odd order n. */
  method MapToPoint(curve: Curve, u: int, z: int, ghost g: Point, ghost n: int) returns (ok: bool, x: int, y: int)
    requires Base(curve, g, n) && CofactorOne(curve, n) && curve.p % 4 == 3 && 0 <= u < TWO256
    requires -0x8000_0000 < z < 0x8000_0000
    requires GoodConstant(Residue(curve.a, curve.p), curve.b, Residue(z, curve.p), curve.p)
    ensures ok <==> curve.a != 0
    ensures ok ==> MapsTo(curve, z, u, Affine(x, y))
  {
    BaseValid(curve, g, n);
    var p := curve.p;
    var bnZ := ReadInt32(z, p);
    var bnA := ReadInt32(curve.a, p);
    ok, x, y := SimpleSwu(u, bnA, curve.b, p, bnZ);
    if ok {
      ModAddMultiple(curve.a, 1, p);
      SameCoefficient(x, y * y, bnA, curve.a, curve.b, p);
      if y == p {
        WholeModulus(curve, x, y);
        NoOrderTwo(curve, g, n, x);
      }
    }
  }

  lemma SameCoefficient(x: int, v: int, a: int, k: int, b: int, p: int)
    requires Same(a, k, p) && Same(v, G(x, a, b), p)
    ensures Same(v, G(x, k, b), p)
  {
    CongMul(a, k, x, x, p);
    CongAdd(x * x * x, x * x * x, a * x, k * x, p);
    CongAdd(x * x * x + a * x, x * x * x + k * x, b, b, p);
  }

  lemma WholeModulus(curve: Curve, x: int, y: int)
    requires IsCurve(curve) && y == curve.p && OnCurve(curve, x, y)
    ensures OnCurve(curve, x, 0)
  {
    MultipleIsZero(0, curve.p);
    MultipleIsZero(curve.p, curve.p);
  }

  /** The sum of the images of two field elements (hash_to_curve after hash_to_field). */
  method SumOfImages(curve: Curve, u0: int, u1: int, z: int, ghost g: Point, ghost n: int)
    returns (ok: bool, x: int, y: int)
    requires Base(curve, g, n) && CofactorOne(curve, n) && curve.p % 4 == 3 && 0 <= u0 < TWO256 && 0 <= u1 < TWO256
    requires -0x8000_0000 < z < 0x8000_0000
    requires GoodConstant(Residue(curve.a, curve.p), curve.b, Residue(z, curve.p), curve.p)
    ensures ok <==> curve.a != 0
    ensures ok ==> Valid(curve, PointOf(x, y)) && exists q1, q2 ::
      MapsTo(curve, z, u0, q1) && MapsTo(curve, z, u1, q2) && PointOf(x, y) == AddPoints(curve, q1, q2)
  {
    BaseValid(curve, g, n);
    var x1, y1, x2, y2;
    x, y := 0, 0;
    ok, x1, y1 := MapToPoint(curve, u0, z, g, n);
    if !ok {
      return;
    }
    ok, x2, y2 := MapToPoint(curve, u1, z, g, n);
    NotOrigin(curve, Affine(x1, y1));
    NotOrigin(curve, Affine(x2, y2));
    x, y := PlusPoint(curve, x1, y1, x2, y2, Affine(x1, y1), Affine(x2, y2));
  }
}

/** Affine and Jacobian point arithmetic of crypto/ecdsa.c over a prime field. */
module Curve {
  import opened Arith
  import opened Limbs
  import opened Field
  import opened Primes
  import opened InverseMath

  /** The curve y^2 = x^3 + a x + b over the integers modulo p. */
  datatype Curve = Curve(p: int, a: int, b: int)

  ghost predicate IsCurve(c: Curve)
  {
    Prime(c.p) && InRange(c.p) && c.p % 2 == 1 && c.p % BASE > 3 && -3 <= c.a <= 0 && 0 < c.b < c.p
  }

  class JacobianPoint {
    var x: int
    var y: int
    var z: int

    constructor (x: int, y: int, z: int)
      ensures this.x == x && this.y == y && this.z == z
    {
      this.x, this.y, this.z := x, y, z;
    }
  }

  /** The Jacobian triple (x, y, z) stands for the affine point (a, b). */
  ghost predicate Stands(x: int, y: int, z: int, a: int, b: int, p: int)
  {
    Same(x, a * (z * z), p) && Same(y, b * (z * z * z), p) && z % p != 0
  }

  ghost predicate PartlyReduced(j: JacobianPoint, p: int)
    reads j
  {
    0 <= j.x < 2 * p && 0 <= j.y < 2 * p && 0 <= j.z < 2 * p
  }

  /** l is the slope of the line through (c, d) and (a, b), the tangent when the abscissas agree. */
  ghost predicate Slope(curve: Curve, c: int, d: int, a: int, b: int, l: int)
  {
    if Same(c, a, curve.p) then Same(d, b, curve.p) && b % curve.p != 0
      && Same(l * (2 * b), 3 * (a * a) + curve.a, curve.p)
    else Same(l * (c - a), d - b, curve.p)
  }

  /** The coordinates of the sum on a line of slope l. */
  function SumX(l: int, c: int, a: int): int { l * l - c - a }

  function SumY(l: int, c: int, d: int, x: int): int { l * (c - x) - d }

  /** On a common line both points satisfy the chord equation, also when they coincide. */
  lemma Chord(curve: Curve, c: int, d: int, a: int, b: int, l: int)
    requires curve.p > 0 && Slope(curve, c, d, a, b, l)
    ensures Same(l * (c - a), d - b, curve.p)
  {
    if Same(c, a, curve.p) {
      CongSub(c, a, a, a, curve.p);
      CongMul(l, l, c - a, 0, curve.p);
      CongSub(d, b, b, b, curve.p);
    }
  }

  /** First half of point_jacobian_add: numerator r and denominator h of the slope, and the sums of coordinates. */
  method JacobianLine(c: int, d: int, x: int, y: int, z: int, curve: Curve, ghost a: int, ghost b: int, ghost l: int)
    returns (xz: int, yz: int, r: int, h: int)
    requires IsCurve(curve) && 0 <= c < curve.p && 0 <= d < curve.p
    requires 0 <= x < 2 * curve.p && 0 <= y < 2 * curve.p && 0 <= z < 2 * curve.p
    requires Stands(x, y, z, a, b, curve.p) && Slope(curve, c, d, a, b, l)
    ensures 0 <= xz < 4 * curve.p && 0 <= yz < 4 * curve.p && 0 <= r < 4 * curve.p && 0 <= h < 4 * curve.p
    ensures Same(xz, (c + a) * (z * z), curve.p) && Same(yz, (d + b) * (z * z * z), curve.p)
    ensures h % curve.p != 0 && Same(r, l * (h * z), curve.p)
  {
    var p := curve.p;
    ghost var zz, zzz := z * z, z * z * z;
    xz := Product(z, z, p, z, z);
    yz := Product(xz, z, p, zz, z);
    var az := 0;
    if curve.a != 0 {
      az := Product(xz, xz, p, zz, zz);
      az := MultK(az, -curve.a, p, zz * zz);
    }
    xz := Product(c, xz, p, c, zz);
    h := SubtractMod(xz, x, p, c * zz, a * zz);
    ghost var h0 := h;
    h := FastMod(h, p);
    xz := Add(xz, x, p, c * zz, a * zz);
    var isDoubling := h == p;
    yz := Product(d, yz, p, d, zzz);
    r := SubtractMod(yz, y, p, d * zzz, b * zzz);
    yz := Add(yz, y, p, d * zzz, b * zzz);
    var r2 := Product(x, x, p, a * zz, a * zz);
    r2 := MultK(r2, 3, p, (a * zz) * (a * zz));
    if curve.a != 0 {
      r2 := SubtractMod(r2, az, p, 3 * ((a * zz) * (a * zz)), -curve.a * (zz * zz));
    }
    DoublingTest(h0, h, c, a, z, p);
    SumsDistribute(c, a, zz);
    SumsDistribute(d, b, zzz);
    if isDoubling {
      MinusNegated(3 * ((a * zz) * (a * zz)), curve.a, zz * zz);
      TangentSlope(yz, r2, curve, d, a, b, l, z);
    } else {
      ChordSlope(h, r, c, d, a, b, l, z, p);
    }
    r := if isDoubling then r2 else r;
    h := if isDoubling then yz else h;
  }

  lemma SumsDistribute(c: int, a: int, w: int)
    ensures c * w + a * w == (c + a) * w && c * w - a * w == (c - a) * w
  {
  }

  lemma NonzeroProduct(a: int, b: int, p: int)
    requires Prime(p) && a % p != 0 && b % p != 0
    ensures (a * b) % p != 0
  {
    if (a * b) % p == 0 {
      Euclid(p, a, b);
    }
  }

  /** The partly reduced difference equals the modulus exactly when the abscissas agree; it is never zero. */
  lemma DoublingTest(h0: int, h: int, c: int, a: int, z: int, p: int)
    requires Prime(p) && InRange(p) && p % 2 == 1 && z % p != 0
    requires 0 < h0 < 4 * p && h == h0 - h0 / TWO256 * p && Same(h0, c * (z * z) - a * (z * z), p)
    ensures h == p <==> Same(c, a, p)
  {
    MultipleIsZero(0, p);
    NonzeroProduct(z, z, p);
    SumsDistribute(c, a, z * z);
    ModAddMultiple(h0, -(h0 / TWO256), p);
    if Same(c, a, p) {
      CongSub(c, a, a, a, p);
      CongMul(c - a, 0, z * z, z * z, p);
      MultipleOnce(h0, p);
    } else {
      if (c - a) % p == 0 {
        CongAdd(c - a, 0, a, a, p);
      }
      NonzeroProduct(c - a, z * z, p);
      DivModUnique(p, 1, 0, p);
    }
  }

  lemma MultipleOnce(h: int, p: int)
    requires InRange(p) && p < TWO256 && 0 < h < 4 * p && h % p == 0
    ensures h - h / TWO256 * p == p
  {
    assert h == p || h == 2 * p || h == 3 * p by {
      var q := h / p;
      assert h == q * p;
      assert q >= 1 by {
        if q <= 0 {
          MulMonotone(0, -q, p, p);
        }
      }
      assert q < 4 by {
        if q >= 4 {
          MulMonotone(4, q, p, p);
        }
      }
    }
  }

  lemma MinusNegated(u: int, a: int, w: int)
    ensures u - -a * w == u + a * w
    ensures a == 0 ==> u == u + a * w
  {
  }

  lemma DifferentAbscissas(c: int, a: int, p: int)
    requires p > 0 && !Same(c, a, p)
    ensures (c - a) % p != 0
  {
    if (c - a) % p == 0 {
      MultipleIsZero(0, p);
      CongAdd(c - a, 0, a, a, p);
    }
  }

  lemma ChordSlope(h: int, r: int, c: int, d: int, a: int, b: int, l: int, z: int, p: int)
    requires Prime(p) && z % p != 0 && !Same(c, a, p)
    requires Same(h, c * (z * z) - a * (z * z), p) && Same(r, d * (z * z * z) - b * (z * z * z), p)
    requires Same(l * (c - a), d - b, p)
    ensures h % p != 0 && Same(r, l * (h * z), p)
  {
    var zz, zzz := z * z, z * z * z;
    SumsDistribute(c, a, zz);
    SumsDistribute(d, b, zzz);
    DifferentAbscissas(c, a, p);
    NonzeroProduct(z, z, p);
    NonzeroProduct(c - a, zz, p);
    ScaledLine(h, (c - a) * zz, l, z, p);
    assert l * ((c - a) * zz * z) == l * (c - a) * zzz by {
      MulAssoc(c - a, zz, z);
      MulAssoc(l, c - a, zzz);
    }
    CongMul(l * (c - a), d - b, zzz, zzz, p);
  }

  lemma ScaledLine(h: int, ideal: int, l: int, z: int, p: int)
    requires Same(h, ideal, p)
    ensures Same(l * (h * z), l * (ideal * z), p)
  {
    CongMul(h, ideal, z, z, p);
    CongMul(l, l, h * z, ideal * z, p);
  }

  lemma TangentSlope(yz: int, r2: int, curve: Curve, d: int, a: int, b: int, l: int, z: int)
    requires IsCurve(curve) && z % curve.p != 0 && b % curve.p != 0 && Same(d, b, curve.p)
    requires Same(yz, (d + b) * (z * z * z), curve.p)
    requires Same(r2, 3 * ((a * (z * z)) * (a * (z * z))) + curve.a * ((z * z) * (z * z)), curve.p)
    requires Same(l * (2 * b), 3 * (a * a) + curve.a, curve.p)
    ensures yz % curve.p != 0 && Same(r2, l * (yz * z), curve.p)
  {
    var p, zz, zzz := curve.p, z * z, z * z * z;
    assert Same(yz, 2 * b * zzz, p) by {
      CongAdd(d, b, b, b, p);
      CongMul(d + b, 2 * b, zzz, zzz, p);
    }
    assert (2 * b * zzz) % p != 0 by {
      DivModUnique(2, 0, 2, p);
      NonzeroProduct(z, z, p);
      NonzeroProduct(zz, z, p);
      NonzeroProduct(2, b, p);
      NonzeroProduct(2 * b, zzz, p);
    }
    ScaledLine(yz, 2 * b * zzz, l, z, p);
    assert l * (2 * b * zzz * z) == l * (2 * b) * (zz * zz) by {
      MulAssoc(2 * b, zzz, z);
      MulAssoc(zz, z, z);
      MulAssoc(l, 2 * b, zz * zz);
    }
    CongMul(l * (2 * b), 3 * (a * a) + curve.a, zz * zz, zz * zz, p);
    TangentScaled(a, curve.a, zz);
  }

  lemma TangentScaled(a: int, k: int, w: int)
    ensures (3 * (a * a) + k) * (w * w) == 3 * ((a * w) * (a * w)) + k * (w * w)
  {
    MulShuffle(a, w, a, w);
    assert 3 * (a * a) * (w * w) == 3 * ((a * a) * (w * w));
    assert (3 * (a * a) + k) * (w * w) == 3 * (a * a) * (w * w) + k * (w * w);
  }

  /** Second half of point_jacobian_add: the new coordinates over the denominator h * z. */
  method JacobianFinish(xz: int, yz: int, r: int, h: int, z: int, p: int,
                        ghost a: int, ghost b: int, ghost c: int, ghost d: int, ghost l: int)
    returns (x3: int, y3: int, z3: int)
    requires Prime(p) && InRange(p) && p % 2 == 1 && 0 <= z < 2 * p && z % p != 0
    requires 0 <= xz < 4 * p && 0 <= yz < 4 * p && 0 <= r < 4 * p && 0 <= h < 4 * p
    requires Same(xz, (c + a) * (z * z), p) && Same(yz, (d + b) * (z * z * z), p)
    requires h % p != 0 && Same(r, l * (h * z), p) && Same(l * (c - a), d - b, p)
    ensures 0 <= x3 < 2 * p && 0 <= y3 < 2 * p && 0 <= z3 < 2 * p
    ensures Stands(x3, y3, z3, SumX(l, c, a), SumY(l, c, d, SumX(l, c, a)), p)
  {
    ghost var w, x := h * z, SumX(l, c, a);
    var hsqx := Product(h, h, p, h, h);
    var hcby := Product(hsqx, h, p, h * h, h);
    hsqx := Product(xz, hsqx, p, (c + a) * (z * z), h * h);
    hcby := Product(yz, hcby, p, (d + b) * (z * z * z), h * h * h);
    CommonDenominator(c + a, d + b, h, z);
    z3 := Product(h, z, p, h, z);
    NonzeroProduct(h, z, p);
    x3 := Product(r, r, p, l * w, l * w);
    x3 := SubtractMod(x3, hsqx, p, (l * w) * (l * w), (c + a) * (w * w));
    x3 := FastMod(x3, p);
    NewAbscissa(l, c, a, w);
    assert Same(x3, x * (w * w), p);
    y3 := SubtractMod(hsqx, x3, p, (c + a) * (w * w), x * (w * w));
    y3 := SubtractMod(y3, x3, p, (c + a) * (w * w) - x * (w * w), x * (w * w));
    y3 := Product(r, y3, p, l * w, (c + a) * (w * w) - x * (w * w) - x * (w * w));
    y3 := SubtractMod(y3, hcby, p, l * w * ((c + a) * (w * w) - x * (w * w) - x * (w * w)), (d + b) * (w * w * w));
    ghost var twice := y3;
    y3 := MultHalf(y3, p);
    ghost var half := y3;
    y3 := FastMod(y3, p);
    CongMul(2, 2, y3, half, p);
    NewOrdinate(twice, y3, l, c, d, a, b, x, w, p);
    Rescale(x3, y3, z3, x, SumY(l, c, d, x), w, p);
  }

  lemma CommonDenominator(s: int, t: int, h: int, z: int)
    ensures s * (z * z) * (h * h) == s * ((h * z) * (h * z))
    ensures t * (z * z * z) * (h * h * h) == t * ((h * z) * (h * z) * (h * z))
  {
    MulShuffle(h, h, z, z);
    MulShuffle(h * h, h, z * z, z);
    MulAssoc(s, z * z, h * h);
    MulAssoc(t, z * z * z, h * h * h);
  }

  lemma NewAbscissa(l: int, c: int, a: int, w: int)
    ensures (l * w) * (l * w) - (c + a) * (w * w) == SumX(l, c, a) * (w * w)
  {
    MulShuffle(l, l, w, w);
    assert (l * l - (c + a)) * (w * w) == (l * l) * (w * w) - (c + a) * (w * w);
  }

  /** The symmetric formula of the source halves to the usual ordinate, because both points lie on the line. */
  lemma NewOrdinate(twice: int, y3: int, l: int, c: int, d: int, a: int, b: int, x: int, w: int, p: int)
    requires p > 0 && p % 2 == 1
    requires Same(twice, l * w * ((c + a) * (w * w) - x * (w * w) - x * (w * w)) - (d + b) * (w * w * w), p)
    requires Same(2 * y3, twice, p) && Same(l * (c - a), d - b, p)
    ensures Same(y3, SumY(l, c, d, x) * (w * w * w), p)
  {
    var w3, y, e := w * w * w, SumY(l, c, d, x), l * (c - a) - (d - b);
    OrdinateShape(l, c, d, a, b, x, w);
    assert Same(2 * y - e, 2 * y, p) by {
      CongSub(l * (c - a), d - b, d - b, d - b, p);
      CongSub(2 * y, 2 * y, e, 0, p);
    }
    CongMul(2 * y - e, 2 * y, w3, w3, p);
    assert 2 * y * w3 == 2 * (y * w3);
    CancelTwo(y3, y * w3, p);
  }

  lemma OrdinateShape(l: int, c: int, d: int, a: int, b: int, x: int, w: int)
    ensures l * w * ((c + a) * (w * w) - x * (w * w) - x * (w * w)) - (d + b) * (w * w * w)
         == (2 * SumY(l, c, d, x) - (l * (c - a) - (d - b))) * (w * w * w)
  {
    var m, w3 := c + a - 2 * x, w * w * w;
    assert (c + a) * (w * w) - x * (w * w) - x * (w * w) == m * (w * w);
    assert l * w * (m * (w * w)) == l * m * w3 by {
      MulShuffle(l, w, m, w * w);
      MulAssoc(w, w, w);
    }
    assert l * m * w3 - (d + b) * w3 == (l * m - (d + b)) * w3;
    assert l * m == 2 * (l * (c - x)) - l * (c - a);
  }

  /** Replacing the denominator by a congruent one. */
  lemma Rescale(x3: int, y3: int, z3: int, x: int, y: int, w: int, p: int)
    requires Same(z3, w, p) && w % p != 0 && Same(x3, x * (w * w), p) && Same(y3, y * (w * w * w), p)
    ensures Stands(x3, y3, z3, x, y, p)
  {
    CongMul(z3, w, z3, w, p);
    CongMul(z3 * z3, w * w, z3, w, p);
    CongMul(x, x, z3 * z3, w * w, p);
    CongMul(y, y, z3 * z3 * z3, w * w * w, p);
  }

  /** p2 = p1 + p2 for an affine p1 = (c, d), when the sum is finite. */
  method PointJacobianAdd(c: int, d: int, p2: JacobianPoint, curve: Curve, ghost a: int, ghost b: int, ghost l: int)
    requires IsCurve(curve) && 0 <= c < curve.p && 0 <= d < curve.p && PartlyReduced(p2, curve.p)
    requires Stands(p2.x, p2.y, p2.z, a, b, curve.p) && Slope(curve, c, d, a, b, l)
    modifies p2
    ensures PartlyReduced(p2, curve.p)
    ensures Stands(p2.x, p2.y, p2.z, SumX(l, c, a), SumY(l, c, d, SumX(l, c, a)), curve.p)
  {
    Chord(curve, c, d, a, b, l);
    var xz, yz, r, h := JacobianLine(c, d, p2.x, p2.y, p2.z, curve, a, b, l);
    var x3, y3, z3 := JacobianFinish(xz, yz, r, h, p2.z, curve.p, a, b, c, d, l);
    p2.x, p2.y, p2.z := x3, y3, z3;
  }

  /** p = p + p for a finite double. */
  method PointJacobianDouble(q: JacobianPoint, curve: Curve, ghost a: int, ghost b: int, ghost l: int)
    requires IsCurve(curve) && PartlyReduced(q, curve.p)
    requires Stands(q.x, q.y, q.z, a, b, curve.p) && Slope(curve, a, b, a, b, l)
    modifies q
    ensures PartlyReduced(q, curve.p)
    ensures Stands(q.x, q.y, q.z, SumX(l, a, a), SumY(l, a, b, SumX(l, a, a)), curve.p)
  {
    var p := curve.p;
    ghost var z, x := q.z, SumX(l, a, a);
    ghost var zz, zzz, w := z * z, z * z * z, b * ((z * z) * (z * z));
    var m := Product(q.x, q.x, p, a * zz, a * zz);
    m := MultK(m, 3, p, (a * zz) * (a * zz));
    var az4 := Product(q.z, q.z, p, z, z);
    az4 := Product(az4, az4, p, zz, zz);
    az4 := MultK(az4, -curve.a, p, zz * zz);
    m := SubtractMod(m, az4, p, 3 * ((a * zz) * (a * zz)), -curve.a * (zz * zz));
    ghost var twice := m;
    m := MultHalf(m, p);
    HalfSlope(twice, m, curve, a, b, l, z);
    var msq := Product(m, m, p, l * w, l * w);
    var ysq := Product(q.y, q.y, p, b * zzz, b * zzz);
    var xysq := Product(q.x, ysq, p, a * zz, (b * zzz) * (b * zzz));
    var z3 := Product(q.y, q.z, p, b * zzz, z);
    DoubleDenominators(a, b, z);
    var x3 := LShift(xysq, p, a * (w * w));
    ghost var shifted := x3;
    x3 := FastMod(x3, p);
    x3 := SubtractMod(msq, x3, p, (l * w) * (l * w), 2 * (a * (w * w)));
    x3 := FastMod(x3, p);
    NewAbscissa(l, a, a, w);
    assert 2 * (a * (w * w)) == (a + a) * (w * w);
    var y3 := SubtractMod(xysq, x3, p, a * (w * w), x * (w * w));
    y3 := Product(m, y3, p, l * w, a * (w * w) - x * (w * w));
    ysq := Product(ysq, ysq, p, (b * zzz) * (b * zzz), (b * zzz) * (b * zzz));
    y3 := SubtractMod(y3, ysq, p, l * w * (a * (w * w) - x * (w * w)), b * (w * w * w));
    y3 := FastMod(y3, p);
    DoubleOrdinate(l, a, b, x, w);
    DoubleNonzero(b, z, p);
    Rescale(x3, y3, z3, x, SumY(l, a, b, x), w, p);
    q.x, q.y, q.z := x3, y3, z3;
  }

  lemma HalfSlope(twice: int, m: int, curve: Curve, a: int, b: int, l: int, z: int)
    requires IsCurve(curve) && Slope(curve, a, b, a, b, l) && Same(2 * m, twice, curve.p)
    requires Same(twice, 3 * ((a * (z * z)) * (a * (z * z))) - -curve.a * ((z * z) * (z * z)), curve.p)
    ensures Same(m, l * (b * ((z * z) * (z * z))), curve.p)
  {
    TangentMeets(twice, m, a, curve.a, b, l, z * z, curve.p);
  }

  lemma TangentMeets(twice: int, m: int, a: int, k: int, b: int, l: int, zz: int, p: int)
    requires p > 0 && p % 2 == 1 && Same(l * (2 * b), 3 * (a * a) + k, p) && Same(2 * m, twice, p)
    requires Same(twice, 3 * ((a * zz) * (a * zz)) - -k * (zz * zz), p)
    ensures Same(m, l * (b * (zz * zz)), p)
  {
    var z4 := zz * zz;
    TangentScaled(a, k, zz);
    MinusNegated(3 * ((a * zz) * (a * zz)), k, z4);
    CongMul(l * (2 * b), 3 * (a * a) + k, z4, z4, p);
    TwiceOnTheLeft(l, b, z4);
    CancelTwo(m, l * (b * z4), p);
  }

  lemma TwiceOnTheLeft(l: int, b: int, w: int)
    ensures l * (2 * b) * w == 2 * (l * (b * w))
  {
    assert l * (2 * b) == 2 * (l * b);
    MulAssoc(l, b, w);
  }

  lemma DoubleDenominators(a: int, b: int, z: int)
    ensures var zz, zzz, w := z * z, z * z * z, b * ((z * z) * (z * z));
            && a * zz * ((b * zzz) * (b * zzz)) == a * (w * w)
            && b * zzz * z == w
            && (b * zzz) * (b * zzz) * ((b * zzz) * (b * zzz)) == b * (w * w * w)
  {
    var zz, zzz, z4 := z * z, z * z * z, (z * z) * (z * z);
    var w := b * z4;
    assert b * zzz * z == w by {
      MulAssoc(b, zzz, z);
      MulAssoc(zz, z, z);
    }
    assert zz * (zzz * zzz) == z4 * z4 by {
      assert zzz * zzz == zz * z4 by {
        MulShuffle(zz, z, zz, z);
        MulAssoc(zz, zz, zz);
      }
      MulAssoc(zz, zz, z4);
    }
    assert (b * zzz) * (b * zzz) == (b * b) * (zzz * zzz) by {
      MulShuffle(b, zzz, b, zzz);
    }
    assert w * w == (b * b) * (z4 * z4) by {
      MulShuffle(b, z4, b, z4);
    }
    assert a * zz * ((b * b) * (zzz * zzz)) == a * ((b * b) * (zz * (zzz * zzz))) by {
      Exchange(a, zz, b * b, zzz * zzz);
    }
    FourthPower(b, z, w);
  }

  lemma Exchange(a: int, u: int, v: int, t: int)
    ensures a * u * (v * t) == a * (v * (u * t))
  {
    MulAssoc(a, u, v * t);
    assert u * (v * t) == v * (u * t);
  }

  lemma FourthPower(b: int, z: int, w: int)
    requires w == b * ((z * z) * (z * z))
    ensures (b * (z * z * z)) * (b * (z * z * z)) * ((b * (z * z * z)) * (b * (z * z * z))) == b * (w * w * w)
  {
    var zz, zzz, z4 := z * z, z * z * z, (z * z) * (z * z);
    var s := (b * zzz) * (b * zzz);
    assert zzz * zzz == zz * z4 by {
      MulShuffle(zz, z, zz, z);
      MulAssoc(zz, zz, zz);
    }
    assert s == b * w * zz by {
      MulShuffle(b, zzz, b, zzz);
      MulAssoc(b * b, z4, zz);
      assert b * w == b * b * z4;
      assert zz * z4 == z4 * zz;
    }
    assert s * s == (b * w) * (b * w) * z4 by {
      MulShuffle(b * w, zz, b * w, zz);
    }
    assert (b * w) * (b * w) * z4 == b * (w * w * w) by {
      MulShuffle(b, w, b, w);
      MulAssoc(b * b, w * w, z4);
      assert b * b * (w * w * z4) == b * (b * (w * w * z4));
      assert b * (w * w * z4) == w * w * (b * z4);
    }
  }

  lemma DoubleOrdinate(l: int, a: int, b: int, x: int, w: int)
    ensures l * w * (a * (w * w) - x * (w * w)) - b * (w * w * w) == SumY(l, a, b, x) * (w * w * w)
  {
    assert a * (w * w) - x * (w * w) == (a - x) * (w * w);
    MulShuffle(l, w, a - x, w * w);
    MulAssoc(w, w, w);
    assert (l * (a - x) - b) * (w * w * w) == l * (a - x) * (w * w * w) - b * (w * w * w);
  }

  lemma DoubleNonzero(b: int, z: int, p: int)
    requires Prime(p) && b % p != 0 && z % p != 0
    ensures (b * ((z * z) * (z * z))) % p != 0
  {
    NonzeroProduct(z, z, p);
    NonzeroProduct(z * z, z * z, p);
    NonzeroProduct(b, (z * z) * (z * z), p);
  }

  /** A Jacobian point for affine coordinates and a denominator drawn by the caller. */
  method CurveToJacobian(a: int, b: int, z: int, p: int) returns (j: JacobianPoint)
    requires Prime(p) && InRange(p) && 0 <= a < p && 0 <= b < p && 0 < z < p
    ensures fresh(j) && PartlyReduced(j, p) && Stands(j.x, j.y, j.z, a, b, p)
  {
    var x := Product(z, z, p, z, z);
    var y := Product(z, x, p, z, z * z);
    x := Product(a, x, p, a, z * z);
    y := Product(b, y, p, b, z * (z * z));
    MulAssoc(z, z, z);
    DivModUnique(z, 0, z, p);
    j := new JacobianPoint(x, y, z);
  }

  /** The affine coordinates, fully reduced. */
  method JacobianToCurve(j: JacobianPoint, p: int, ghost a: int, ghost b: int) returns (x: int, y: int)
    requires Prime(p) && InRange(p) && p % 2 == 1 && PartlyReduced(j, p)
    requires Stands(j.x, j.y, j.z, a, b, p)
    ensures x == a % p && y == b % p
  {
    ghost var z := j.z;
    PrimeCoprime(p, z);
    y := Inverse(j.z, p, z);
    ghost var i := y;
    x := Product(y, y, p, i, i);
    y := Product(x, y, p, i * i, i);
    x := Product(j.x, x, p, a * (z * z), i * i);
    y := Product(j.y, y, p, b * (z * z * z), i * i * i);
    Unscale(a, b, z, i, p);
    x := Reduce(x, p);
    y := Reduce(y, p);
  }

  lemma Unscale(a: int, b: int, z: int, i: int, p: int)
    requires Same(z * i, 1, p)
    ensures Same(a * (z * z) * (i * i), a, p)
    ensures Same(b * (z * z * z) * (i * i * i), b, p)
  {
    var t := z * i;
    CommonDenominator(a, b, i, z);
    assert i * z == t;
    CongMul(t, 1, t, 1, p);
    CongMul(t * t, 1, t, 1, p);
    CongMul(a, a, t * t, 1, p);
    CongMul(b, b, t * t * t, 1, p);
  }
}

/** The chord-and-tangent law on affine points, and the affine routines of crypto/ecdsa.c that compute it. */
module CurveLaw {
  import opened Arith
  import opened Limbs
  import opened Field
  import opened Primes
  import opened Curve
  import opened Squares

  datatype Point = Infinity | Affine(x: int, y: int)

  ghost predicate OnCurve(curve: Curve, x: int, y: int)
  {
    Same(y * y, x * x * x + curve.a * x + curve.b, curve.p)
  }

  ghost predicate Valid(curve: Curve, q: Point)
  {
    q.Affine? ==> 0 <= q.x < curve.p && 0 <= q.y < curve.p && OnCurve(curve, q.x, q.y)
  }

  ghost predicate Opposite(curve: Curve, q: Point, r: Point)
    requires q.Affine? && r.Affine?
  {
    Same(q.x, r.x, curve.p) && Same(q.y, -r.y, curve.p)
  }

  ghost predicate FiniteSum(curve: Curve, q: Point, r: Point, l: int, s: Point)
    requires q.Affine? && r.Affine? && curve.p > 0
  {
    && Slope(curve, q.x, q.y, r.x, r.y, l)
    && s == Affine(SumX(l, q.x, r.x) % curve.p, SumY(l, q.x, q.y, SumX(l, q.x, r.x)) % curve.p)
  }

  /** s is the sum of q and r under the chord-and-tangent law. */
  ghost predicate IsSum(curve: Curve, q: Point, r: Point, s: Point)
    requires curve.p > 0
  {
    if q.Infinity? then s == r
    else if r.Infinity? then s == q
    else if Opposite(curve, q, r) then s == Infinity
    else exists l :: FiniteSum(curve, q, r, l, s)
  }

  /** The cubic minus the squared line, with its three abscissas split off. */
  lemma CubicIdentity(t: int, l: int, c: int, d: int, a: int, ka: int, kb: int)
    ensures var x, m := l * l - c - a, d - l * c;
            t * t * t + ka * t + kb - (l * t + m) * (l * t + m)
            == (t - c) * (t - a) * (t - x) + (ka - 2 * l * m - (c * a + c * x + a * x)) * t + (kb - m * m + c * a * x)
  {
    var x, m := l * l - c - a, d - l * c;
    assert (l * t + m) * (l * t + m) == l * l * (t * t) + 2 * l * m * t + m * m by {
      assert (l * t + m) * (l * t + m) == (l * t) * (l * t) + 2 * ((l * t) * m) + m * m;
      MulShuffle(l, t, l, t);
      assert 2 * ((l * t) * m) == 2 * l * m * t;
    }
    assert l * l == c + a + x;
    ThreeRoots(t, c, a, x);
    assert (ka - 2 * l * m - (c * a + c * x + a * x)) * t == ka * t - 2 * l * m * t - (c * a + c * x + a * x) * t;
  }

  lemma ThreeRoots(t: int, c: int, a: int, x: int)
    ensures (t - c) * (t - a) * (t - x) == t * t * t - (c + a + x) * (t * t) + (c * a + c * x + a * x) * t - c * a * x
  {
    TwoRoots(t, c, a);
    ThirdRoot((t - c) * (t - a), t, c + a, c * a, x);
    assert c * a + (c + a) * x == c * a + c * x + a * x;
  }

  lemma TwoRoots(t: int, c: int, a: int)
    ensures (t - c) * (t - a) == t * t - (c + a) * t + c * a
  {
  }

  lemma ThirdRoot(u: int, t: int, s: int, p: int, x: int)
    requires u == t * t - s * t + p
    ensures u * (t - x) == t * t * t - (s + x) * (t * t) + (p + s * x) * t - p * x
  {
    assert u * (t - x) == u * t - u * x;
    assert u * t == t * t * t - s * (t * t) + p * t;
    assert u * x == x * (t * t) - s * x * t + p * x;
    assert (s + x) * (t * t) == s * (t * t) + x * (t * t);
  }

  /** The two coefficients left over when the known roots are split off. */
  function Leading(l: int, c: int, d: int, a: int, k: int): int
  {
    k - 2 * l * (d - l * c) - (c * a + c * SumX(l, c, a) + a * SumX(l, c, a))
  }

  function Constant(l: int, c: int, d: int, a: int, k: int): int
  {
    k - (d - l * c) * (d - l * c) + c * a * SumX(l, c, a)
  }

  /** At a root t of the split part the remainder is the cubic minus the squared ordinate of the line. */
  lemma AtRoot(curve: Curve, t: int, v: int, l: int, c: int, d: int, a: int)
    requires t == c || t == a || t == SumX(l, c, a)
    requires v == l * t + (d - l * c)
    ensures Leading(l, c, d, a, curve.a) * t + Constant(l, c, d, a, curve.b)
         == t * t * t + curve.a * t + curve.b - v * v
  {
    CubicIdentity(t, l, c, d, a, curve.a, curve.b);
    RootOfProduct(t - c, t - a, t - SumX(l, c, a));
  }

  lemma RootOfProduct(x: int, y: int, z: int)
    requires x == 0 || y == 0 || z == 0
    ensures x * y * z == 0
  {
  }

  lemma DifferenceVanishes(u: int, v: int, p: int)
    requires p > 0
    ensures Same(u, v, p) <==> (u - v) % p == 0
  {
    MultipleIsZero(0, p);
    if Same(u, v, p) {
      CongSub(u, v, v, v, p);
    }
    if (u - v) % p == 0 {
      CongAdd(u - v, 0, v, v, p);
    }
  }

  /** The leading coefficient of the remainder vanishes modulo p: two roots, or a double one. */
  lemma LeadingVanishes(curve: Curve, c: int, d: int, a: int, b: int, l: int)
    requires IsCurve(curve) && OnCurve(curve, c, d) && OnCurve(curve, a, b) && Slope(curve, c, d, a, b, l)
    requires (Leading(l, c, d, a, curve.a) * c + Constant(l, c, d, a, curve.b)) % curve.p == 0
    ensures Leading(l, c, d, a, curve.a) % curve.p == 0
  {
    var p, u, v := curve.p, Leading(l, c, d, a, curve.a), Constant(l, c, d, a, curve.b);
    if Same(c, a, p) {
      DoubleRoot(curve, c, d, a, b, l);
    } else {
      var w := l * a + (d - l * c);
      AtRoot(curve, a, w, l, c, d, a);
      assert Same(w, b, p) by {
        assert w == d - l * (c - a);
        CongSub(d, d, l * (c - a), d - b, p);
      }
      assert (u * a + v) % p == 0 by {
        CongMul(w, b, w, b, p);
        DifferenceVanishes(a * a * a + curve.a * a + curve.b, w * w, p);
      }
      assert (u * (c - a)) % p == 0 by {
        assert u * (c - a) == (u * c + v) - (u * a + v);
        DifferenceVanishes(u * c + v, u * a + v, p);
      }
      DifferentAbscissas(c, a, p);
      assert (c - a) * u == u * (c - a);
      Euclid(p, c - a, u);
    }
  }

  lemma DoubleRoot(curve: Curve, c: int, d: int, a: int, b: int, l: int)
    requires curve.p > 0 && Same(c, a, curve.p) && Slope(curve, c, d, a, b, l)
    ensures Leading(l, c, d, a, curve.a) % curve.p == 0
  {
    var p := curve.p;
    var k := CongWitness(a, c, p);
    DoubleRootIdentity(l, c, d, curve.a, k * p);
    assert Same(l * (2 * b), l * (2 * d), p) by {
      CongMul(2, 2, b, d, p);
      CongMul(l, l, 2 * b, 2 * d, p);
    }
    assert Same(3 * (a * a) + curve.a, 3 * (c * c) + curve.a, p) by {
      CongMul(a, c, a, c, p);
      CongMul(3, 3, a * a, c * c, p);
      CongAdd(3 * (a * a), 3 * (c * c), curve.a, curve.a, p);
    }
    DifferenceVanishes(3 * (c * c) + curve.a, l * (2 * d), p);
    var r := 3 * c - l * l + k * p;
    MulAssoc(r, k, p);
    ModAddMultiple(3 * (c * c) + curve.a - l * (2 * d), r * k, p);
  }

  lemma DoubleRootIdentity(l: int, c: int, d: int, k: int, e: int)
    ensures Leading(l, c, d, c + e, k) == (3 * (c * c) + k - l * (2 * d)) + (3 * c - l * l + e) * e
  {
    DoubleRootProducts(l * l, c, e);
    DoubleRootSlope(l, c, d);
  }

  lemma DoubleRootProducts(w: int, c: int, e: int)
    ensures var x := w - c - (c + e);
            c * (c + e) == c * c + c * e && c * x == c * w - 2 * (c * c) - c * e
            && (c + e) * x == c * x + e * w - 2 * (c * e) - e * e
    ensures (3 * c - w + e) * e == 3 * (c * e) - e * w + e * e
  {
  }

  lemma DoubleRootSlope(l: int, c: int, d: int)
    ensures 2 * l * (d - l * c) == l * (2 * d) - 2 * (c * (l * l))
  {
    assert l * (l * c) == c * (l * l);
    assert 2 * l * (d - l * c) == 2 * (l * d) - 2 * (l * (l * c));
  }

  /** The third point of the line, reflected, lies on the curve again. */
  lemma SumOnCurve(curve: Curve, c: int, d: int, a: int, b: int, l: int)
    requires IsCurve(curve) && OnCurve(curve, c, d) && OnCurve(curve, a, b) && Slope(curve, c, d, a, b, l)
    ensures OnCurve(curve, SumX(l, c, a), SumY(l, c, d, SumX(l, c, a)))
  {
    var p, x := curve.p, SumX(l, c, a);
    var u, v, y := Leading(l, c, d, a, curve.a), Constant(l, c, d, a, curve.b), SumY(l, c, d, x);
    AtRoot(curve, c, d, l, c, d, a);
    DifferenceVanishes(c * c * c + curve.a * c + curve.b, d * d, p);
    LeadingVanishes(curve, c, d, a, b, l);
    var w := l * x + (d - l * c);
    AtRoot(curve, x, w, l, c, d, a);
    assert w == -y && w * w == y * y;
    assert (u * x + v) % p == (u * c + v) % p by {
      MultipleIsZero(0, p);
      CongMul(u, 0, x, x, p);
      CongMul(u, 0, c, c, p);
      CongAdd(u * x, u * c, v, v, p);
    }
    DifferenceVanishes(x * x * x + curve.a * x + curve.b, y * y, p);
  }

  /** A line meets the curve where its slope was taken and in the third abscissa, each as often as it says. */
  lemma LineMeets(curve: Curve, c: int, d: int, a: int, b: int, l: int, t: int)
    requires IsCurve(curve) && OnCurve(curve, c, d) && OnCurve(curve, a, b) && Slope(curve, c, d, a, b, l)
    ensures Same(t * t * t + curve.a * t + curve.b - (d + l * (t - c)) * (d + l * (t - c)),
                 (t - c) * (t - a) * (t - SumX(l, c, a)), curve.p)
  {
    hide Slope;
    var p, u, v := curve.p, Leading(l, c, d, a, curve.a), Constant(l, c, d, a, curve.b);
    AtRoot(curve, c, d, l, c, d, a);
    DifferenceVanishes(c * c * c + curve.a * c + curve.b, d * d, p);
    LeadingVanishes(curve, c, d, a, b, l);
    CubicIdentity(t, l, c, d, a, curve.a, curve.b);
    assert l * t + (d - l * c) == d + l * (t - c);
    LinearVanishes(u, v, c, t, p);
    var w := (t - c) * (t - a) * (t - SumX(l, c, a));
    CongAdd(w, w, u * t + v, 0, p);
  }

  /** A linear form with a vanishing leading coefficient and a root vanishes. */
  lemma LinearVanishes(u: int, v: int, c: int, t: int, p: int)
    requires p > 0 && u % p == 0 && (u * c + v) % p == 0
    ensures Same(u * t + v, 0, p)
  {
    MultipleIsZero(0, p);
    CongMul(u, 0, t - c, t - c, p);
    CongAdd(u * (t - c), 0, u * c + v, 0, p);
    assert u * (t - c) + (u * c + v) == u * t + v;
  }

  /** Membership in terms of the coordinates. */
  lemma ValidMeans(curve: Curve, x: int, y: int)
    requires curve.p > 0
    ensures Valid(curve, Affine(x, y)) <==>
      0 <= x < curve.p && 0 <= y < curve.p && (y * y - (x * x * x + curve.a * x + curve.b)) % curve.p == 0
  {
    DifferenceVanishes(y * y, x * x * x + curve.a * x + curve.b, curve.p);
  }

  /** The source writes the point at infinity as (0, 0), which is not on the curve. */
  function PointOf(x: int, y: int): Point { if x == 0 && y == 0 then Infinity else Affine(x, y) }

  class CurvePoint {
    var x: int
    var y: int

    constructor (x: int, y: int)
      ensures this.x == x && this.y == y
    {
      this.x, this.y := x, y;
    }

    ghost function Value(): Point
      reads this
    {
      PointOf(x, y)
    }

    ghost predicate Ok(curve: Curve)
      reads this
    {
      Valid(curve, Value())
    }
  }

  lemma ReducedPoint(curve: Curve, x: int, y: int)
    requires IsCurve(curve) && OnCurve(curve, x, y)
    ensures Valid(curve, Affine(x % curve.p, y % curve.p)) && !(x % curve.p == 0 && y % curve.p == 0)
  {
    var p := curve.p;
    var u, v := x % p, y % p;
    DivModUnique(u, 0, u, p);
    DivModUnique(v, 0, v, p);
    CongMul(v, y, v, y, p);
    CongMul(u, x, u, x, p);
    CongMul(u * u, x * x, u, x, p);
    CongMul(curve.a, curve.a, u, x, p);
    CongAdd(u * u * u, x * x * x, curve.a * u, curve.a * x, p);
    CongAdd(u * u * u + curve.a * u, x * x * x + curve.a * x, curve.b, curve.b, p);
    if u == 0 && v == 0 {
      assert u * u * u + curve.a * u + curve.b == curve.b;
      DivModUnique(curve.b, 0, curve.b, p);
      DivModUnique(0, 0, 0, p);
    }
  }

  /** A finite sum is a valid point, written with coordinates other than (0, 0). */
  lemma FiniteSumValid(curve: Curve, q: Point, r: Point, l: int, s: Point)
    requires IsCurve(curve) && q.Affine? && r.Affine? && Valid(curve, q) && Valid(curve, r)
    requires FiniteSum(curve, q, r, l, s)
    ensures Valid(curve, s) && !(s.x == 0 && s.y == 0)
    ensures !Opposite(curve, q, r) && IsSum(curve, q, r, s)
  {
    SumOnCurve(curve, q.x, q.y, r.x, r.y, l);
    ReducedPoint(curve, SumX(l, q.x, r.x), SumY(l, q.x, q.y, SumX(l, q.x, r.x)));
    if Opposite(curve, q, r) {
      NotItsNegative(r.y, q.y, curve.p);
    }
  }

  lemma NotItsNegative(b: int, d: int, p: int)
    requires Prime(p) && p % 2 == 1 && b % p != 0 && Same(d, b, p)
    ensures !Same(d, -b, p)
  {
    if Same(d, -b, p) {
      CongAdd(d, b, d, -b, p);
      CongAdd(d, b, d, b, p);
      MultipleIsZero(0, p);
      DivModUnique(2, 0, 2, p);
      Euclid(p, 2, b);
    }
  }

  /** Last steps of point_add and point_double: the coordinates from the slope. */
  method FromSlope(l: int, c: int, d: int, a: int, s: int, p: int) returns (x: int, y: int)
    requires InRange(p) && 0 <= l < 2 * p && 0 <= c < p && 0 <= d < p && 0 <= a < p
    requires 0 <= s < 2 * p && Same(s, c + a, p)
    ensures x == SumX(l, c, a) % p && y == SumY(l, c, d, SumX(l, c, a)) % p
  {
    x := SlopeX(l, s, p, c + a);
    y := SlopeY(l, c, d, x, p, SumX(l, c, a));
  }

  method SlopeX(l: int, s: int, p: int, ghost sum: int) returns (x: int)
    requires InRange(p) && 0 <= l < 2 * p && 0 <= s < 2 * p && Same(s, sum, p)
    ensures x == (l * l - sum) % p && Same(x, l * l - sum, p) && 0 <= x < p
  {
    x := Product(l, l, p, l, l);
    x := SubtractMod(x, s, p, l * l, sum);
    x := FastMod(x, p);
    x := Reduce(x, p);
  }

  method SlopeY(l: int, c: int, d: int, x: int, p: int, ghost u: int) returns (y: int)
    requires InRange(p) && 0 <= l < 2 * p && 0 <= c < p && 0 <= d < p && 0 <= x < p && Same(x, u, p)
    ensures y == SumY(l, c, d, u) % p
  {
    y := SubtractMod(c, x, p, c, u);
    y := Product(l, y, p, l, c - u);
    y := SubtractMod(y, d, p, l * (c - u), d);
    y := FastMod(y, p);
    y := Reduce(y, p);
  }

  /** cp = cp + cp. */
  method PointDouble(curve: Curve, cp: CurvePoint)
    requires IsCurve(curve) && cp.Ok(curve)
    modifies cp
    ensures cp.Ok(curve) && IsSum(curve, old(cp.Value()), old(cp.Value()), cp.Value())
  {
    if cp.x == 0 && cp.y == 0 {
      return;
    }
    var p, x, y := curve.p, cp.x, cp.y;
    ghost var q := cp.Value();
    if cp.y == 0 {
      cp.x, cp.y := 0, 0;
      return;
    }
    DivModUnique(y, 0, y, p);
    var l := MultK(y, 2, p, y);
    l := FastMod(l, p);
    l := Reduce(l, p);
    TwiceNonzero(y, p);
    PrimeCoprime(p, l);
    l := Inverse(l, p, 2 * y);
    ghost var i := l;
    var xr := Product(x, x, p, x, x);
    xr := MultK(xr, 3, p, x * x);
    xr := SubI(xr, -curve.a, p, 3 * (x * x));
    l := Product(xr, l, p, 3 * (x * x) + curve.a, i);
    UnitSlope(l, 3 * (x * x) + curve.a, i, 2 * y, p);
    var yr := LShift(x, p, x);
    var x3, y3 := FromSlope(l, x, y, x, yr, p);
    FiniteSumValid(curve, q, q, l, Affine(x3, y3));
    cp.x, cp.y := x3, y3;
  }

  lemma TwiceNonzero(y: int, p: int)
    requires Prime(p) && p % 2 == 1 && y % p != 0
    ensures (2 * y) % p != 0
  {
    DivModUnique(2, 0, 2, p);
    NonzeroProduct(2, y, p);
  }

  /** numerator times inverse is a slope for the denominator. */
  lemma UnitSlope(l: int, n: int, i: int, m: int, p: int)
    requires Same(l, n * i, p) && Same(m * i, 1, p)
    ensures Same(l * m, n, p)
  {
    CongMul(l, n * i, m, m, p);
    CongMul(n, n, m * i, 1, p);
    assert n * i * m == n * (m * i);
  }

  /** cp2 = cp1 + cp2. */
  method PointAdd(curve: Curve, cp1: CurvePoint, cp2: CurvePoint)
    requires IsCurve(curve) && cp1.Ok(curve) && cp2.Ok(curve)
    modifies cp2
    ensures cp2.Ok(curve) && IsSum(curve, old(cp1.Value()), old(cp2.Value()), cp2.Value())
  {
    if cp1.x == 0 && cp1.y == 0 {
      return;
    }
    if cp2.x == 0 && cp2.y == 0 {
      cp2.x, cp2.y := cp1.x, cp1.y;
      return;
    }
    if cp1.x == cp2.x && cp1.y == cp2.y {
      PointDouble(curve, cp2);
      return;
    }
    var p, c, d, a, b := curve.p, cp1.x, cp1.y, cp2.x, cp2.y;
    ghost var q, r := cp1.Value(), cp2.Value();
    if c == a {
      SameAbscissa(curve, c, d, b);
    }
    if c == a && d != 0 && d != b {
      cp2.x, cp2.y := 0, 0;
      return;
    }
    var l := LineSlope(curve, c, d, a, b);
    var s := AddMod(c, a, p, c, a);
    var x3, y3 := FromSlope(l, c, d, a, s, p);
    FiniteSumValid(curve, q, r, l, Affine(x3, y3));
    cp2.x, cp2.y := x3, y3;
  }

  /** The slope of the line through two points with different abscissas. */
  method LineSlope(curve: Curve, c: nat, d: nat, a: nat, b: nat) returns (l: int)
    requires IsCurve(curve) && c < curve.p && d < curve.p && a < curve.p && b < curve.p && a != c
    ensures 0 <= l < 2 * curve.p && Slope(curve, c, d, a, b, l)
  {
    var p := curve.p;
    DistinctResidues(a, c, p);
    var inv := SubtractMod(a, c, p, a, c);
    DifferentAbscissas(a, c, p);
    PrimeCoprime(p, inv);
    inv := Inverse(inv, p, a - c);
    ghost var i := inv;
    l := SubtractMod(b, d, p, b, d);
    l := Product(inv, l, p, i, b - d);
    assert i * (b - d) == (b - d) * i;
    UnitSlope(l, b - d, i, a - c, p);
    TurnedSlope(l, a - c, b - d, p);
    DistinctResidues(c, a, p);
  }

  lemma TurnedSlope(l: int, m: int, n: int, p: int)
    requires p > 0 && Same(l * m, n, p)
    ensures Same(l * -m, -n, p)
  {
    CongSub(0, 0, l * m, n, p);
    NegatedFactor(m, l);
    assert l * -m == 0 - l * m;
  }

  lemma DistinctResidues(u: int, v: int, p: int)
    requires 0 <= u < p && 0 <= v < p && u != v
    ensures !Same(u, v, p)
  {
    DivModUnique(u, 0, u, p);
    DivModUnique(v, 0, v, p);
  }

  /** Two different points with one abscissa are opposite, and neither ordinate is zero. */
  lemma SameAbscissa(curve: Curve, x: int, d: int, b: int)
    requires IsCurve(curve) && OnCurve(curve, x, d) && OnCurve(curve, x, b)
    requires 0 <= d < curve.p && 0 <= b < curve.p && d != b
    ensures d != 0 && Same(d, -b, curve.p)
  {
    RootsAgree(d, b, curve.p);
    DistinctResidues(d, b, curve.p);
    if d == 0 {
      MultipleIsZero(0, curve.p);
      CongSub(0, 0, 0, -b, curve.p);
      DivModUnique(b, 0, b, curve.p);
    }
  }
}

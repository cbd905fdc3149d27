/** The points of a curve as a commutative group; only associativity of the law is taken as a hypothesis. */
module CurveGroup {
  import opened Arith
  import opened Field
  import opened Primes
  import opened InverseMath
  import opened Curve
  import opened CurveLaw
  import opened Groups

  /** Two finite points that are not opposite have a common line. */
  lemma SlopeExists(curve: Curve, q: Point, r: Point) returns (l: int)
    requires IsCurve(curve) && q.Affine? && r.Affine? && Valid(curve, q) && Valid(curve, r)
    requires !Opposite(curve, q, r)
    ensures Slope(curve, q.x, q.y, r.x, r.y, l)
  {
    var p := curve.p;
    var m, n;
    if q.x == r.x {
      if q.y != r.y {
        SameAbscissa(curve, q.x, q.y, r.y);
      }
      if r.y % p == 0 {
        MultipleIsZero(0, p);
        CongSub(0, 0, r.y, 0, p);
      }
      TwiceNonzero(r.y, p);
      m, n := 2 * r.y, 3 * (r.x * r.x) + curve.a;
    } else {
      DistinctResidues(q.x, r.x, p);
      DifferentAbscissas(q.x, r.x, p);
      m, n := q.x - r.x, q.y - r.y;
    }
    PrimeCoprime(p, m);
    var i, j :| Bezout(p, m, i, j);
    ModAddMultiple(j * m, i, p);
    assert m * j == j * m;
    l := n * j;
    UnitSlope(l, n, j, m, p);
  }

  lemma SumExists(curve: Curve, q: Point, r: Point) returns (s: Point)
    requires IsCurve(curve) && Valid(curve, q) && Valid(curve, r)
    ensures IsSum(curve, q, r, s) && Valid(curve, s)
  {
    if q.Infinity? {
      s := r;
    } else if r.Infinity? {
      s := q;
    } else if Opposite(curve, q, r) {
      s := Infinity;
    } else {
      var l := SlopeExists(curve, q, r);
      s := Affine(SumX(l, q.x, r.x) % curve.p, SumY(l, q.x, q.y, SumX(l, q.x, r.x)) % curve.p);
      FiniteSumValid(curve, q, r, l, s);
    }
  }

  /** Slopes of the same line are congruent, so any slope gives the same sum. */
  lemma SlopeUnique(curve: Curve, q: Point, r: Point, l: int, m: int)
    requires IsCurve(curve) && q.Affine? && r.Affine?
    requires Slope(curve, q.x, q.y, r.x, r.y, l) && Slope(curve, q.x, q.y, r.x, r.y, m)
    ensures Same(l, m, curve.p)
  {
    var p := curve.p;
    var e := if Same(q.x, r.x, p) then 2 * r.y else q.x - r.x;
    if Same(q.x, r.x, p) {
      TwiceNonzero(r.y, p);
    } else {
      DifferentAbscissas(q.x, r.x, p);
    }
    assert (e * (l - m)) % p == 0 by {
      assert e * (l - m) == l * e - m * e;
      DifferenceVanishes(l * e, m * e, p);
    }
    Euclid(p, e, l - m);
    DifferenceVanishes(l, m, p);
  }

  lemma SumFromAnySlope(curve: Curve, q: Point, r: Point, s: Point, l: int)
    requires IsCurve(curve) && q.Affine? && r.Affine? && Valid(curve, q) && Valid(curve, r)
    requires IsSum(curve, q, r, s) && Slope(curve, q.x, q.y, r.x, r.y, l)
    ensures FiniteSum(curve, q, r, l, s)
  {
    FiniteSumValid(curve, q, r, l,
      Affine(SumX(l, q.x, r.x) % curve.p, SumY(l, q.x, q.y, SumX(l, q.x, r.x)) % curve.p));
    var m :| FiniteSum(curve, q, r, m, s);
    SlopeUnique(curve, q, r, l, m);
    SlopeDecides(l, m, q.x, q.y, r.x, curve.p);
  }

  lemma SlopeDecides(l: int, m: int, c: int, d: int, a: int, p: int)
    requires Same(l, m, p)
    ensures Same(SumX(l, c, a), SumX(m, c, a), p)
    ensures Same(SumY(l, c, d, SumX(l, c, a)), SumY(m, c, d, SumX(m, c, a)), p)
  {
    var x, x' := SumX(l, c, a), SumX(m, c, a);
    CongMul(l, m, l, m, p);
    CongSub(l * l, m * m, c, c, p);
    CongSub(l * l - c, m * m - c, a, a, p);
    CongSub(c, c, x, x', p);
    CongMul(l, m, c - x, c - x', p);
    CongSub(l * (c - x), m * (c - x'), d, d, p);
  }

  lemma SumUnique(curve: Curve, q: Point, r: Point, s: Point, t: Point)
    requires IsCurve(curve) && Valid(curve, q) && Valid(curve, r)
    requires IsSum(curve, q, r, s) && IsSum(curve, q, r, t)
    ensures s == t
  {
    if q.Affine? && r.Affine? && !Opposite(curve, q, r) {
      var l :| FiniteSum(curve, q, r, l, s);
      SumFromAnySlope(curve, q, r, t, l);
    }
  }

  /** A sum is infinite exactly when the ordinates cancel over one abscissa. */
  lemma InfiniteSum(curve: Curve, q: Point, r: Point, s: Point)
    requires IsCurve(curve) && q.Affine? && r.Affine? && Valid(curve, q) && Valid(curve, r) && IsSum(curve, q, r, s)
    ensures s.Infinity? <==> q.x == r.x && (q.y + r.y) % curve.p == 0
  {
    if q.x != r.x {
      DistinctResidues(q.x, r.x, curve.p);
    }
    DifferenceVanishes(q.y, -r.y, curve.p);
  }

  /**
   * A finite sum of q and r is the reflected third point of the line through them, the tangent when they are equal:
   * that line meets the curve at the three abscissas, with their multiplicities, and passes through (s.x, -s.y).
   */
  lemma SumIsThirdPoint(curve: Curve, q: Point, r: Point, s: Point, l: int, t: int)
    requires IsCurve(curve) && q.Affine? && r.Affine? && Valid(curve, q) && Valid(curve, r)
    requires IsSum(curve, q, r, s) && s.Affine?
    requires if q == r then (l * (2 * q.y) - (3 * (q.x * q.x) + curve.a)) % curve.p == 0
             else (l * (q.x - r.x) - (q.y - r.y)) % curve.p == 0
    ensures (-s.y - (q.y + l * (s.x - q.x))) % curve.p == 0
    ensures (t * t * t + curve.a * t + curve.b - (q.y + l * (t - q.x)) * (q.y + l * (t - q.x))
             - (t - q.x) * (t - r.x) * (t - s.x)) % curve.p == 0
  {
    hide FiniteSum, IsSum;
    var p, x := curve.p, SumX(l, q.x, r.x);
    SlopeOfLine(curve, q, r, s, l);
    SumFromAnySlope(curve, q, r, s, l);
    SumCoordinates(curve, q, r, s, l);
    LineMeets(curve, q.x, q.y, r.x, r.y, l, t);
    CongSub(t, t, s.x, x, p);
    CongMul((t - q.x) * (t - r.x), (t - q.x) * (t - r.x), t - s.x, t - x, p);
    DifferenceVanishes(t * t * t + curve.a * t + curve.b - (q.y + l * (t - q.x)) * (q.y + l * (t - q.x)),
      (t - q.x) * (t - r.x) * (t - s.x), p);
  }

  lemma SumCoordinates(curve: Curve, q: Point, r: Point, s: Point, l: int)
    requires q.Affine? && r.Affine? && curve.p > 0 && FiniteSum(curve, q, r, l, s)
    ensures s.Affine? && Same(s.x, SumX(l, q.x, r.x), curve.p)
    ensures (-s.y - (q.y + l * (s.x - q.x))) % curve.p == 0
  {
    var p, x := curve.p, SumX(l, q.x, r.x);
    DivModUnique(s.x, 0, s.x, p);
    DivModUnique(s.y, 0, s.y, p);
    CongSub(s.x, x, q.x, q.x, p);
    CongMul(l, l, s.x - q.x, x - q.x, p);
    CongAdd(q.y, q.y, l * (s.x - q.x), l * (x - q.x), p);
    CongSub(0, 0, s.y, SumY(l, q.x, q.y, x), p);
    assert 0 - SumY(l, q.x, q.y, x) == q.y + l * (x - q.x);
    DifferenceVanishes(-s.y, q.y + l * (s.x - q.x), p);
  }

  /** Two points with a finite sum and one abscissa are equal, with an ordinate that is not zero. */
  lemma SlopeOfLine(curve: Curve, q: Point, r: Point, s: Point, l: int)
    requires IsCurve(curve) && q.Affine? && r.Affine? && Valid(curve, q) && Valid(curve, r)
    requires IsSum(curve, q, r, s) && s.Affine?
    requires if q == r then (l * (2 * q.y) - (3 * (q.x * q.x) + curve.a)) % curve.p == 0
             else (l * (q.x - r.x) - (q.y - r.y)) % curve.p == 0
    ensures Slope(curve, q.x, q.y, r.x, r.y, l)
  {
    var p := curve.p;
    DifferenceVanishes(l * (2 * q.y), 3 * (q.x * q.x) + curve.a, p);
    DifferenceVanishes(l * (q.x - r.x), q.y - r.y, p);
    var m :| FiniteSum(curve, q, r, m, s);
    assert Slope(curve, q.x, q.y, r.x, r.y, m);
    if Same(q.x, r.x, p) {
      if q.x != r.x {
        DistinctResidues(q.x, r.x, p);
      }
      if q.y != r.y {
        DistinctResidues(q.y, r.y, p);
      }
    }
  }

  /** The sum as a function. */
  ghost function AddPoints(curve: Curve, q: Point, r: Point): (s: Point)
    ensures IsCurve(curve) && Valid(curve, q) && Valid(curve, r) ==> IsSum(curve, q, r, s) && Valid(curve, s)
  {
    if IsCurve(curve) && Valid(curve, q) && Valid(curve, r) then
      assert exists s :: IsSum(curve, q, r, s) && Valid(curve, s) by {
        var s := SumExists(curve, q, r);
      }
      var s :| IsSum(curve, q, r, s) && Valid(curve, s);
      s
    else Infinity
  }

  ghost function NegPoint(curve: Curve, q: Point): Point
  {
    if q.Infinity? || curve.p <= 0 then Infinity else Affine(q.x, -q.y % curve.p)
  }

  lemma SumCommutes(curve: Curve, q: Point, r: Point)
    requires IsCurve(curve) && Valid(curve, q) && Valid(curve, r)
    ensures AddPoints(curve, q, r) == AddPoints(curve, r, q)
  {
    var s, p := AddPoints(curve, q, r), curve.p;
    if q.Affine? && r.Affine? {
      if Opposite(curve, q, r) {
        CongSub(0, 0, q.y, -r.y, p);
        assert Opposite(curve, r, q);
      } else {
        if Opposite(curve, r, q) {
          CongSub(0, 0, r.y, -q.y, p);
        }
        var l := SlopeExists(curve, q, r);
        SumFromAnySlope(curve, q, r, s, l);
        SwapLine(curve, q, r, l);
        assert FiniteSum(curve, r, q, l, s);
      }
    }
    SumUnique(curve, r, q, s, AddPoints(curve, r, q));
  }

  lemma SwapLine(curve: Curve, q: Point, r: Point, l: int)
    requires IsCurve(curve) && q.Affine? && r.Affine? && Valid(curve, q) && Valid(curve, r)
    requires Slope(curve, q.x, q.y, r.x, r.y, l)
    ensures Slope(curve, r.x, r.y, q.x, q.y, l)
    ensures SumX(l, q.x, r.x) == SumX(l, r.x, q.x)
    ensures Same(SumY(l, q.x, q.y, SumX(l, q.x, r.x)), SumY(l, r.x, r.y, SumX(l, q.x, r.x)), curve.p)
  {
    var p, x := curve.p, SumX(l, q.x, r.x);
    if Same(q.x, r.x, p) {
      if q.x != r.x {
        DistinctResidues(q.x, r.x, p);
      }
      if q.y != r.y {
        DistinctResidues(q.y, r.y, p);
      }
    } else {
      CongSub(0, 0, l * (q.x - r.x), q.y - r.y, p);
      assert 0 - l * (q.x - r.x) == l * (r.x - q.x);
      assert l * (q.x - x) - q.y == l * (r.x - x) - r.y + (l * (q.x - r.x) - (q.y - r.y));
      DifferenceVanishes(l * (q.x - r.x), q.y - r.y, p);
      MultipleIsZero(0, p);
      CongAdd(l * (r.x - x) - r.y, l * (r.x - x) - r.y, l * (q.x - r.x) - (q.y - r.y), 0, p);
    }
  }

  lemma NegValid(curve: Curve, q: Point)
    requires IsCurve(curve) && Valid(curve, q)
    ensures Valid(curve, NegPoint(curve, q)) && AddPoints(curve, q, NegPoint(curve, q)) == Infinity
  {
    if q.Affine? {
      var r := NegPoint(curve, q);
      NegatedOrdinate(q.y, r.y, curve.p);
      assert OnCurve(curve, r.x, r.y);
      assert Opposite(curve, q, r);
    }
  }

  lemma NegatedOrdinate(y: int, m: int, p: int)
    requires p > 0 && m == -y % p
    ensures 0 <= m < p && Same(m * m, y * y, p) && Same(y, -m, p)
  {
    DivModUnique(m, 0, m, p);
    CongMul(m, -y, m, -y, p);
    assert -y * -y == y * y;
    CongSub(0, 0, m, -y, p);
  }

  /** The one property of the chord-and-tangent law that is assumed here. */
  ghost predicate Associative(curve: Curve)
  {
    forall q: Point, r: Point, s: Point {:trigger Mark(q, r, s)} ::
      Mark(q, r, s) && Valid(curve, q) && Valid(curve, r) && Valid(curve, s) ==>
        AddPoints(curve, AddPoints(curve, q, r), s) == AddPoints(curve, q, AddPoints(curve, r, s))
  }

  ghost function EcGroup(curve: Curve): Group<Point>
  {
    Group(q => Valid(curve, q), (q, r) => AddPoints(curve, q, r), q => NegPoint(curve, q), Infinity)
  }

  lemma EcIsGroup(curve: Curve)
    requires IsCurve(curve) && Associative(curve)
    ensures IsGroup(EcGroup(curve))
  {
    var g := EcGroup(curve);
    forall x: Point, y: Point, z: Point {:trigger Mark(x, y, z)} | Mark(x, y, z)
      ensures Laws(g, x, y, z)
    {
      if Valid(curve, x) && Valid(curve, y) && Valid(curve, z) {
        SumCommutes(curve, x, y);
        NegValid(curve, x);
      }
    }
  }
}

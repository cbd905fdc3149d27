/** The Jacobian routines as group operations on the points they denote. */
module JacobianGroup {
  import opened Arith
  import opened Limbs
  import opened Field
  import opened Primes
  import opened InverseMath
  import opened Curve
  import opened CurveLaw
  import opened Groups
  import opened CurveGroup

  ghost predicate Denotes(j: JacobianPoint, curve: Curve, q: Point)
    reads j
  {
    q.Affine? && Valid(curve, q) && PartlyReduced(j, curve.p) && Stands(j.x, j.y, j.z, q.x, q.y, curve.p)
  }

  lemma StandsReduced(x: int, y: int, z: int, a: int, b: int, p: int)
    requires p > 0 && Stands(x, y, z, a, b, p)
    ensures Stands(x, y, z, a % p, b % p, p)
  {
    DivModUnique(a % p, 0, a % p, p);
    DivModUnique(b % p, 0, b % p, p);
    CongMul(a, a % p, z * z, z * z, p);
    CongMul(b, b % p, z * z * z, z * z * z, p);
  }

  /** Whatever finite point the chord-and-tangent law gives, point_jacobian_add gives it too. */
  method AddAffine(c: int, d: int, j: JacobianPoint, curve: Curve, ghost r: Point)
    requires IsCurve(curve) && Valid(curve, Affine(c, d)) && Denotes(j, curve, r)
    requires AddPoints(curve, Affine(c, d), r).Affine?
    modifies j
    ensures Denotes(j, curve, AddPoints(curve, Affine(c, d), r))
  {
    ghost var q := Affine(c, d);
    ghost var s := AddPoints(curve, q, r);
    ghost var l := SlopeExists(curve, q, r);
    SumFromAnySlope(curve, q, r, s, l);
    PointJacobianAdd(c, d, j, curve, r.x, r.y, l);
    StandsReduced(j.x, j.y, j.z, SumX(l, c, r.x), SumY(l, c, d, SumX(l, c, r.x)), curve.p);
  }

  method Double(j: JacobianPoint, curve: Curve, ghost q: Point)
    requires IsCurve(curve) && Denotes(j, curve, q) && AddPoints(curve, q, q).Affine?
    modifies j
    ensures Denotes(j, curve, AddPoints(curve, q, q))
  {
    ghost var s := AddPoints(curve, q, q);
    ghost var l := SlopeExists(curve, q, q);
    SumFromAnySlope(curve, q, q, s, l);
    PointJacobianDouble(j, curve, q.x, q.y, l);
    StandsReduced(j.x, j.y, j.z, SumX(l, q.x, q.x), SumY(l, q.x, q.y, SumX(l, q.x, q.x)), curve.p);
  }

  ghost function Signed(flip: bool, curve: Curve, q: Point): Point
  {
    if flip then NegPoint(curve, q) else q
  }

  lemma SignPowers(flip: bool, y: int, z: int, w: int)
    requires w == if flip then -z else z
    ensures w * w == z * z && y * (z * z * z) == (if flip then -y else y) * (w * w * w)
  {
    if flip {
      CubeSign(y, z);
    }
  }

  /** Changing the sign of the denominator negates the point. */
  method NegateZ(flip: bool, j: JacobianPoint, curve: Curve, ghost q: Point)
    requires IsCurve(curve) && Denotes(j, curve, q)
    modifies j
    ensures Denotes(j, curve, Signed(flip, curve, q))
  {
    var p := curve.p;
    ghost var z := j.z;
    j.z := CNegate(flip, j.z, p);
    ghost var w := if flip then -z else z;
    NegValid(curve, q);
    SignPowers(flip, q.y, z, w);
    if w % p == 0 {
      MultipleIsZero(0, p);
      CongSub(0, 0, w, 0, p);
    }
    Rescale(j.x, j.y, j.z, q.x, if flip then -q.y else q.y, w, p);
    StandsReduced(j.x, j.y, j.z, q.x, if flip then -q.y else q.y, p);
    DivModUnique(q.x, 0, q.x, p);
    DivModUnique(q.y, 0, q.y, p);
  }

  lemma CubeSign(y: int, z: int)
    ensures -y * (-z * -z * -z) == y * (z * z * z)
  {
    assert -z * -z == z * z;
    assert z * z * -z == -(z * z * z);
    assert -y * -(z * z * z) == y * (z * z * z);
  }

  /** Changing the sign of the ordinate negates the point, unless the ordinate is zero. */
  method NegateY(flip: bool, j: JacobianPoint, curve: Curve, ghost q: Point)
    requires IsCurve(curve) && Denotes(j, curve, q) && AddPoints(curve, q, q).Affine?
    modifies j
    ensures Denotes(j, curve, Signed(flip, curve, q))
  {
    var p := curve.p;
    ghost var y, z := j.y, j.z;
    NegValid(curve, q);
    OrdinateNonzero(curve, q, y, z);
    j.y := CNegate(flip, j.y, p);
    ghost var b := if flip then -q.y else q.y;
    if flip {
      CongSub(0, 0, y, q.y * (z * z * z), p);
      assert 0 - q.y * (z * z * z) == b * (z * z * z);
    }
    StandsReduced(j.x, j.y, j.z, q.x, b, p);
    DivModUnique(q.x, 0, q.x, p);
    DivModUnique(q.y, 0, q.y, p);
  }

  lemma ZeroOrdinate(curve: Curve, q: Point)
    requires IsCurve(curve) && q.Affine? && Valid(curve, q) && q.y % curve.p == 0
    ensures AddPoints(curve, q, q) == Infinity
  {
    MultipleIsZero(0, curve.p);
    CongSub(0, 0, q.y, 0, curve.p);
    assert Opposite(curve, q, q);
  }

  lemma OrdinateNonzero(curve: Curve, q: Point, y: int, z: int)
    requires IsCurve(curve) && q.Affine? && Valid(curve, q) && AddPoints(curve, q, q).Affine?
    requires Same(y, q.y * (z * z * z), curve.p) && z % curve.p != 0
    ensures y % curve.p != 0
  {
    var p := curve.p;
    if q.y % p == 0 {
      ZeroOrdinate(curve, q);
    }
    NonzeroProduct(z, z, p);
    NonzeroProduct(z * z, z, p);
    NonzeroProduct(q.y, z * z * z, p);
  }

  /** Multiples of a point whose order is the prime n. */
  ghost predicate HasOrder(curve: Curve, q: Point, n: int)
  {
    && IsCurve(curve) && Associative(curve) && Prime(n) && n % 2 == 1
    && q.Affine? && Valid(curve, q)
    && Times(EcGroup(curve), n, q) == Infinity
  }

  ghost function Multiple(curve: Curve, m: int, q: Point): Point
  {
    Times(EcGroup(curve), m, q)
  }

  /** No multiple is infinite but those by multiples of the order. */
  lemma MultipleFinite(curve: Curve, q: Point, n: int, m: int)
    requires HasOrder(curve, q, n) && m % n != 0
    ensures Multiple(curve, m, q).Affine? && Valid(curve, Multiple(curve, m, q))
  {
    var g := EcGroup(curve);
    EcIsGroup(curve);
    TimesIn(g, m, q);
    if Multiple(curve, m, q).Infinity? {
      PrimeCoprime(n, m);
      var i, j :| Bezout(n, m, i, j);
      TimesTimes(g, i, n, q);
      TimesTimes(g, j, m, q);
      TimesAdd(g, i * n, j * m, q);
      TimesZero(g, i);
      TimesZero(g, j);
      TimesOne(g, q);
      Law(g, Infinity, Infinity, Infinity);
    }
  }

  lemma {:induction false} TimesZero(g: Group<Point>, k: int)
    requires IsGroup(g)
    ensures Times(g, k, g.zero) == g.zero
    decreases if k < 0 then -k else k
  {
    Law(g, g.zero, g.zero, g.zero);
    if k > 0 {
      TimesZero(g, k - 1);
    } else if k < 0 {
      TimesZero(g, k + 1);
      NegUnique(g, g.zero, g.zero);
    }
  }

  lemma MultipleAdd(curve: Curve, q: Point, k: int, m: int)
    requires IsCurve(curve) && Associative(curve) && Valid(curve, q)
    ensures AddPoints(curve, Multiple(curve, k, q), Multiple(curve, m, q)) == Multiple(curve, k + m, q)
  {
    EcIsGroup(curve);
    TimesAdd(EcGroup(curve), k, m, q);
  }

  lemma MultipleNeg(curve: Curve, q: Point, k: int)
    requires IsCurve(curve) && Associative(curve) && Valid(curve, q)
    ensures NegPoint(curve, Multiple(curve, k, q)) == Multiple(curve, -k, q)
  {
    EcIsGroup(curve);
    TimesNeg(EcGroup(curve), k, q);
  }

  lemma OddTwice(n: int, m: int)
    requires Prime(n) && n % 2 == 1 && m % n != 0
    ensures (2 * m) % n != 0
  {
    TwiceNonzero(m, n);
  }

  // The loops below only need to know which multiple of one point a variable holds. The predicates At and EntryAt
  // say so; they are stated for marked integers, so that a proof that wants their meaning asks for it.
  predicate Opened(i: int) { true }

  /** What the loops need to know about the point and its order. */
  ghost predicate Base(curve: Curve, q: Point, n: int)
  {
    forall i {:trigger Opened(i)} :: Opened(i) ==> HasOrder(curve, q, n) && InRange(n)
  }

  /** j denotes m * q. */
  ghost predicate At(j: JacobianPoint, curve: Curve, q: Point, m: int)
    reads j
  {
    forall i {:trigger Opened(i)} :: Opened(i) ==> Denotes(j, curve, Multiple(curve, m, q))
  }

  /** The finite point (x, y) is m * q. */
  ghost predicate EntryAt(x: int, y: int, curve: Curve, q: Point, m: int)
  {
    forall i {:trigger Opened(i)} :: Opened(i) ==>
      Valid(curve, Affine(x, y)) && !(x == 0 && y == 0) && Affine(x, y) == Multiple(curve, m, q)
  }

  method StartAt(x: int, y: int, z: int, curve: Curve, ghost q: Point, ghost n: int, ghost m: int)
    returns (j: JacobianPoint)
    requires Base(curve, q, n) && EntryAt(x, y, curve, q, m) && 0 < z < curve.p
    ensures fresh(j) && At(j, curve, q, m)
  {
    assert Opened(0);
    j := CurveToJacobian(x, y, z, curve.p);
  }

  method DoubleAt(j: JacobianPoint, curve: Curve, ghost q: Point, ghost n: int, ghost m: int)
    requires Base(curve, q, n) && n > 0 && m % n != 0 && At(j, curve, q, m)
    modifies j
    ensures (2 * m) % n != 0 && At(j, curve, q, 2 * m)
  {
    assert Opened(0);
    MultipleAdd(curve, q, m, m);
    OddTwice(n, m);
    MultipleFinite(curve, q, n, 2 * m);
    Double(j, curve, Multiple(curve, m, q));
  }

  method AddAt(x: int, y: int, j: JacobianPoint, curve: Curve, ghost q: Point, ghost n: int, ghost e: int, ghost m: int)
    requires Base(curve, q, n) && n > 0 && (e + m) % n != 0
    requires EntryAt(x, y, curve, q, e) && At(j, curve, q, m)
    modifies j
    ensures At(j, curve, q, e + m)
  {
    assert Opened(0);
    MultipleAdd(curve, q, e, m);
    MultipleFinite(curve, q, n, e + m);
    AddAffine(x, y, j, curve, Multiple(curve, m, q));
  }

  method NegateZAt(flip: bool, j: JacobianPoint, curve: Curve, ghost q: Point, ghost n: int, ghost m: int)
    requires Base(curve, q, n) && At(j, curve, q, m)
    modifies j
    ensures At(j, curve, q, if flip then -m else m)
  {
    assert Opened(0);
    MultipleNeg(curve, q, m);
    NegateZ(flip, j, curve, Multiple(curve, m, q));
  }

  method NegateYAt(flip: bool, j: JacobianPoint, curve: Curve, ghost q: Point, ghost n: int, ghost m: int)
    requires Base(curve, q, n) && n > 0 && m % n != 0 && At(j, curve, q, m)
    modifies j
    ensures At(j, curve, q, if flip then -m else m)
  {
    assert Opened(0);
    MultipleNeg(curve, q, m);
    MultipleAdd(curve, q, m, m);
    OddTwice(n, m);
    MultipleFinite(curve, q, n, 2 * m);
    NegateY(flip, j, curve, Multiple(curve, m, q));
  }

  /** Back to affine coordinates; factors that differ by the order name the same point. */
  method ToEntry(j: JacobianPoint, curve: Curve, ghost q: Point, ghost n: int, ghost u: int, ghost k: int)
    returns (x: int, y: int)
    requires Base(curve, q, n) && At(j, curve, q, u) && (u == k || u == k - n)
    ensures EntryAt(x, y, curve, q, k)
  {
    assert Opened(0);
    ModAddMultiple(k, -1, n);
    SameMultiple(curve, q, n, k, u);
    x, y := JacobianToCurve(j, curve.p, Multiple(curve, u, q).x, Multiple(curve, u, q).y);
    FiniteValue(curve, x, y, Multiple(curve, u, q));
  }

  /** Factors with the same residue modulo the order name the same multiple. */
  lemma SameMultiple(curve: Curve, q: Point, n: int, k: int, u: int)
    requires HasOrder(curve, q, n) && Same(k, u, n)
    ensures Multiple(curve, u, q) == Multiple(curve, k, q)
  {
    var g := EcGroup(curve);
    var t := CongWitness(k, u, n);
    EcIsGroup(curve);
    TimesTimes(g, t, n, q);
    TimesZero(g, t);
    TimesAdd(g, u, t * n, q);
    TimesIn(g, u, q);
    Law(g, Multiple(curve, u, q), q, q);
  }

  lemma NotOrigin(curve: Curve, q: Point)
    requires IsCurve(curve) && q.Affine? && Valid(curve, q)
    ensures !(q.x == 0 && q.y == 0)
  {
    ReducedPoint(curve, q.x, q.y);
    DivModUnique(q.x, 0, q.x, curve.p);
    DivModUnique(q.y, 0, q.y, curve.p);
  }

  lemma FiniteValue(curve: Curve, x: int, y: int, q: Point)
    requires IsCurve(curve) && q.Affine? && Valid(curve, q) && x == q.x % curve.p && y == q.y % curve.p
    ensures Affine(x, y) == q && !(x == 0 && y == 0)
  {
    NotOrigin(curve, q);
    DivModUnique(q.x, 0, q.x, curve.p);
    DivModUnique(q.y, 0, q.y, curve.p);
  }

  /** The same for points in affine form: doubling and adding finite multiples. */
  method DoubleEntry(x: int, y: int, curve: Curve, ghost q: Point, ghost n: int, ghost m: int)
    returns (x2: int, y2: int)
    requires Base(curve, q, n) && n > 0 && (2 * m) % n != 0 && EntryAt(x, y, curve, q, m)
    ensures EntryAt(x2, y2, curve, q, 2 * m)
  {
    assert Opened(0);
    var cp := new CurvePoint(x, y);
    PointDouble(curve, cp);
    MultipleAdd(curve, q, m, m);
    SumUnique(curve, Affine(x, y), Affine(x, y), cp.Value(), Multiple(curve, 2 * m, q));
    MultipleFinite(curve, q, n, 2 * m);
    x2, y2 := cp.x, cp.y;
  }

  method AddEntries(x: int, y: int, u: int, v: int, curve: Curve, ghost q: Point, ghost n: int, ghost e: int,
    ghost m: int)
    returns (x2: int, y2: int)
    requires Base(curve, q, n) && n > 0 && (e + m) % n != 0
    requires EntryAt(x, y, curve, q, e) && EntryAt(u, v, curve, q, m)
    ensures EntryAt(x2, y2, curve, q, e + m)
  {
    assert Opened(0);
    var cp1 := new CurvePoint(x, y);
    var cp2 := new CurvePoint(u, v);
    PointAdd(curve, cp1, cp2);
    MultipleAdd(curve, q, e, m);
    SumUnique(curve, Affine(x, y), Affine(u, v), cp2.Value(), Multiple(curve, e + m, q));
    MultipleFinite(curve, q, n, e + m);
    x2, y2 := cp2.x, cp2.y;
  }

  lemma BaseFacts(curve: Curve, q: Point, n: int)
    requires Base(curve, q, n)
    ensures Prime(n) && n % 2 == 1 && InRange(n) && q.Affine? && EntryAt(q.x, q.y, curve, q, 1)
  {
    assert Opened(0);
    EcIsGroup(curve);
    TimesOne(EcGroup(curve), q);
    NotOrigin(curve, q);
  }
}

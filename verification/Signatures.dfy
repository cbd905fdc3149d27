/** ECDSA in terms of the group: what a signature is, and what verification and recovery ask of it. */
module Signatures {
  import opened Arith
  import opened Limbs
  import opened Field
  import opened Primes
  import opened InverseMath
  import opened Curve
  import opened CurveLaw
  import opened Groups
  import opened CurveGroup
  import opened JacobianGroup
  import opened Compression

  /** u * g + v * q */
  ghost function Combine(curve: Curve, u: int, g: Point, v: int, q: Point): Point
  {
    AddPoints(curve, Multiple(curve, u, g), Multiple(curve, v, q))
  }

  predicate InOrder(x: int, n: int) { 0 < x < n }

  /** R is the point that r and the recovery byte name. */
  ghost predicate Named(r: int, recid: int, n: int, R: Point)
  {
    R.Affine? && R.x == r + (if recid / 2 % 2 == 1 then n else 0) && R.y % 2 == recid % 2
  }

  ghost predicate SignedWith(curve: Curve, g: Point, n: int, d: int, z: int, r: int, s: int, recid: int, k: int)
  {
    Same(s * k, z + r * d, n) && Named(r, recid, n, Multiple(curve, k, g))
  }

  /** (r, s) with recovery byte `recid` signs z under the private key d (section 4.1.3 of SEC 1). */
  ghost predicate IsSignature(curve: Curve, g: Point, n: int, d: int, z: int, r: int, s: int, recid: int)
  {
    InOrder(r, n) && InOrder(s, n) && exists k :: SignedWith(curve, g, n, d, z, r, s, recid, k)
  }

  ghost predicate AcceptsWith(curve: Curve, g: Point, n: int, q: Point, r: int, s: int, z: int, w: int)
  {
    && Same(w * s, 1, n)
    && var R := Combine(curve, w * z, g, r * w, q);
       R.Affine? && R.x % n == r
  }

  /** (r, s) verifies for z under the public key q (section 4.1.4 of SEC 1, with zero digests refused). */
  ghost predicate Accepts(curve: Curve, g: Point, n: int, q: Point, r: int, s: int, z: int)
  {
    InOrder(r, n) && InOrder(s, n) && z != 0 && exists w :: AcceptsWith(curve, g, n, q, r, s, z, w)
  }

  /** A signature in terms of a nonce: s * k = z + r * d, and r and the recovery byte name k * g. */
  lemma SignatureMeans(curve: Curve, g: Point, n: int, d: int, z: int, r: int, s: int, recid: int) returns (k: int)
    requires IsSignature(curve, g, n, d, z, r, s, recid)
    ensures 0 < r < n && 0 < s < n && (s * k) % n == (z + r * d) % n
    ensures var R := Multiple(curve, k, g);
            R.Affine? && R.x == r + (if recid / 2 % 2 == 1 then n else 0) && R.y % 2 == recid % 2
  {
    k :| SignedWith(curve, g, n, d, z, r, s, recid, k);
  }

  ghost predicate VanishesWith(curve: Curve, g: Point, n: int, q: Point, r: int, s: int, z: int, w: int)
  {
    Same(w * s, 1, n) && Combine(curve, w * z, g, r * w, q) == Infinity
  }

  /** The combination that verification compares with r is infinity. */
  ghost predicate Vanishes(curve: Curve, g: Point, n: int, q: Point, r: int, s: int, z: int)
  {
    exists w :: VanishesWith(curve, g, n, q, r, s, z, w)
  }

  ghost predicate RecoversWith(curve: Curve, g: Point, n: int, r: int, s: int, z: int, recid: int, R: Point, i: int,
    q: Point)
  {
    && Valid(curve, R) && Named(r, recid, n, R) && Same(i * r, 1, n)
    && q == Combine(curve, i * -z, g, i * s, R) && q.Affine?
  }

  /** Only the two lowest bits of the recovery byte count. */
  lemma LowBitsOfByte(r: int, recid: int, n: int, R: Point)
    ensures Named(r, recid, n, R) <==> Named(r, recid % 4, n, R)
  {
  }

  /** q is the public key recovered from (r, s), z and the recovery byte (section 4.1.6 of SEC 1). */
  ghost predicate Recovers(curve: Curve, g: Point, n: int, r: int, s: int, z: int, recid: int, q: Point)
  {
    InOrder(r, n) && InOrder(s, n) && exists R, i :: RecoversWith(curve, g, n, r, s, z, recid, R, i, q)
  }

  /** Every point of the curve is annihilated by the order of the generator. */
  ghost predicate CofactorOne(curve: Curve, n: int)
  {
    forall i {:trigger Opened(i)} :: Opened(i) ==>
      forall q {:trigger Multiple(curve, n, q)} :: Valid(curve, q) ==> Multiple(curve, n, q) == Infinity
  }

  lemma AnyPointIsBase(curve: Curve, g: Point, n: int, q: Point)
    requires Base(curve, g, n) && CofactorOne(curve, n) && Valid(curve, q) && q.Affine?
    ensures Base(curve, q, n)
  {
    assert Opened(0);
    assert Multiple(curve, n, q) == Infinity;
  }

  lemma BaseValid(curve: Curve, g: Point, n: int)
    requires Base(curve, g, n)
    ensures IsCurve(curve) && Associative(curve) && Valid(curve, g) && Prime(n) && n > 1 && n % 2 == 1 && InRange(n)
  {
    assert Opened(0);
  }

  lemma MultipleSame(curve: Curve, g: Point, n: int, k: int, u: int)
    requires Base(curve, g, n) && Same(k, u, n)
    ensures Multiple(curve, k, g) == Multiple(curve, u, g)
  {
    assert Opened(0);
    SameMultiple(curve, g, n, k, u);
  }

  lemma CombineSame(curve: Curve, g: Point, n: int, q: Point, u: int, v: int, u': int, v': int)
    requires Base(curve, g, n) && Base(curve, q, n) && Same(u, u', n) && Same(v, v', n)
    ensures Combine(curve, u, g, v, q) == Combine(curve, u', g, v', q)
  {
    MultipleSame(curve, g, n, u, u');
    MultipleSame(curve, q, n, v, v');
  }

  /** Combining a combination: the factors multiply out. */
  lemma CombineAgain(curve: Curve, g: Point, R: Point, a: int, b: int, u: int, v: int)
    requires IsCurve(curve) && Associative(curve) && Valid(curve, g) && Valid(curve, R)
    ensures Combine(curve, a, g, b, Combine(curve, u, g, v, R)) == Combine(curve, a + b * u, g, b * v, R)
  {
    var e := EcGroup(curve);
    EcIsGroup(curve);
    var ug, vr := Times(e, u, g), Times(e, v, R);
    TimesIn(e, u, g);
    TimesIn(e, v, R);
    TimesIn(e, a, g);
    TimesIn(e, b * u, g);
    TimesIn(e, b * v, R);
    TimesSum(e, b, ug, vr);
    TimesTimes(e, b, u, g);
    TimesTimes(e, b, v, R);
    TimesAdd(e, a, b * u, g);
    Law(e, Times(e, a, g), Times(e, b * u, g), Times(e, b * v, R));
  }

  lemma CombineUnit(curve: Curve, g: Point, q: Point)
    requires IsCurve(curve) && Associative(curve) && Valid(curve, g) && Valid(curve, q)
    ensures Combine(curve, 0, g, 1, q) == q
  {
    var e := EcGroup(curve);
    EcIsGroup(curve);
    TimesOne(e, q);
    Law(e, q, q, q);
    Law(e, Infinity, q, q);
  }

  lemma CombineMultiple(curve: Curve, g: Point, u: int, v: int, k: int)
    requires IsCurve(curve) && Associative(curve) && Valid(curve, g)
    ensures Combine(curve, u, g, v, Multiple(curve, k, g)) == Multiple(curve, u + v * k, g)
  {
    var e := EcGroup(curve);
    EcIsGroup(curve);
    TimesTimes(e, v, k, g);
    TimesAdd(e, u, v * k, g);
  }

  lemma InverseExists(n: int, s: int) returns (w: int)
    requires Prime(n) && InOrder(s, n)
    ensures Same(w * s, 1, n)
  {
    DivModUnique(s, 0, s, n);
    PrimeCoprime(n, s);
    var i, j :| Bezout(n, s, i, j);
    w := j;
    ModAddMultiple(j * s, i, n);
  }

  lemma InverseUnique(w: int, v: int, s: int, n: int)
    requires Same(w * s, 1, n) && Same(v * s, 1, n)
    ensures Same(w, v, n)
  {
    CongMul(w * s, 1, v, v, n);
    CongMul(v * s, 1, w, w, n);
    assert w * s * v == v * s * w;
  }

  /** i * (w * (s * z)) with s * w = 1. */
  lemma InverseTurn(s: int, w: int, i: int, z: int, n: int)
    requires Same(w * s, 1, n)
    ensures Same((i * s) * (w * z), i * z, n)
  {
    assert (i * s) * (w * z) == (w * s) * (i * z) by {
      MulShuffle(i, s, w, z);
      MulShuffle(w, s, i, z);
      assert i * w == w * i;
    }
    CongMul(w * s, 1, i * z, i * z, n);
  }

  /** A signature leads recovery back to the signer's public key. */
  lemma SignatureRecovers(curve: Curve, g: Point, n: int, d: int, z: int, r: int, s: int, recid: int)
    requires Base(curve, g, n) && InOrder(d, n) && IsSignature(curve, g, n, d, z, r, s, recid)
    ensures Recovers(curve, g, n, r, s, z, recid, Multiple(curve, d, g))
  {
    BaseValid(curve, g, n);
    var k :| SignedWith(curve, g, n, d, z, r, s, recid, k);
    var i := InverseExists(n, r);
    var R := Multiple(curve, k, g);
    CombineMultiple(curve, g, i * -z, i * s, k);
    SignerFactor(i, r, s, k, z, d, n);
    MultipleSame(curve, g, n, i * -z + i * s * k, d);
    FiniteMultiple(curve, g, n, d);
    FiniteValid(curve, g, n, k);
    assert RecoversWith(curve, g, n, r, s, z, recid, R, i, Multiple(curve, d, g));
  }

  lemma SignerFactor(i: int, r: int, s: int, k: int, z: int, d: int, n: int)
    requires Same(i * r, 1, n) && Same(s * k, z + r * d, n)
    ensures Same(i * -z + i * s * k, d, n)
  {
    CongMul(i, i, s * k, z + r * d, n);
    assert i * (s * k) == i * s * k;
    assert i * (z + r * d) == i * z + i * r * d;
    CongAdd(i * -z, i * -z, i * s * k, i * z + i * r * d, n);
    assert i * -z == -(i * z);
    CongMul(i * r, 1, d, d, n);
  }

  lemma FiniteMultiple(curve: Curve, g: Point, n: int, k: int)
    requires Base(curve, g, n) && InOrder(k, n)
    ensures Multiple(curve, k, g).Affine?
  {
    assert Opened(0);
    DivModUnique(k, 0, k, n);
    MultipleFinite(curve, g, n, k);
  }

  lemma FiniteValid(curve: Curve, g: Point, n: int, k: int)
    requires Base(curve, g, n)
    ensures Valid(curve, Multiple(curve, k, g))
  {
    assert Opened(0);
    EcIsGroup(curve);
    TimesIn(EcGroup(curve), k, g);
  }

  /** A recovered key verifies the signature it was recovered from. */
  lemma RecoveredAccepted(curve: Curve, g: Point, n: int, r: int, s: int, z: int, recid: int, q: Point)
    requires Base(curve, g, n) && CofactorOne(curve, n) && z != 0 && Recovers(curve, g, n, r, s, z, recid, q)
    ensures Accepts(curve, g, n, q, r, s, z)
  {
    BaseValid(curve, g, n);
    var R, i :| RecoversWith(curve, g, n, r, s, z, recid, R, i, q);
    AnyPointIsBase(curve, g, n, R);
    var w := InverseExists(n, s);
    CombineAgain(curve, g, R, w * z, r * w, i * -z, i * s);
    RecoveryFactors(r, i, s, w, z, n);
    CombineSame(curve, g, n, R, w * z + r * w * (i * -z), r * w * (i * s), 0, 1);
    CombineUnit(curve, g, R);
    NamedResidue(r, recid, n, R);
    assert AcceptsWith(curve, g, n, q, r, s, z, w);
  }

  lemma RecoveryFactors(r: int, i: int, s: int, w: int, z: int, n: int)
    requires Same(i * r, 1, n) && Same(w * s, 1, n)
    ensures Same(w * z + r * w * (i * -z), 0, n)
    ensures Same(r * w * (i * s), 1, n)
  {
    InverseTurn(r, i, w, -z, n);
    CongAdd(w * z, w * z, (w * r) * (i * -z), w * -z, n);
    assert w * z + w * -z == 0;
    assert w * r == r * w;
    InverseTurn(r, i, w, s, n);
  }

  lemma NamedResidue(r: int, recid: int, n: int, R: Point)
    requires InOrder(r, n) && Named(r, recid, n, R)
    ensures R.x % n == r
  {
    DivModUnique(R.x, if recid / 2 % 2 == 1 then 1 else 0, r, n);
  }

  /** Whoever's key verifies a signature can be recovered from it with one of the four recovery bytes. */
  lemma AcceptedRecovers(curve: Curve, g: Point, n: int, r: int, s: int, z: int, q: Point)
    returns (recid: int)
    requires Base(curve, g, n) && CofactorOne(curve, n) && q.Affine? && Valid(curve, q)
    requires Accepts(curve, g, n, q, r, s, z)
    ensures 0 <= recid < 4 && Recovers(curve, g, n, r, s, z, recid, q)
  {
    BaseValid(curve, g, n);
    AnyPointIsBase(curve, g, n, q);
    var w :| AcceptsWith(curve, g, n, q, r, s, z, w);
    var R := Combine(curve, w * z, g, r * w, q);
    CombineValid(curve, g, n, q, w * z, r * w);
    recid := ByteNames(r, n, R, curve.p);
    var i := InverseExists(n, r);
    assert Combine(curve, i * -z, g, i * s, R) == q by {
      KeyFromAccepted(curve, g, n, q, r, s, z, w, i);
    }
    assert RecoversWith(curve, g, n, r, s, z, recid, R, i, q);
  }

  lemma KeyFromAccepted(curve: Curve, g: Point, n: int, q: Point, r: int, s: int, z: int, w: int, i: int)
    requires Base(curve, g, n) && Base(curve, q, n) && Same(i * r, 1, n) && Same(w * s, 1, n)
    ensures q == Combine(curve, i * -z, g, i * s, Combine(curve, w * z, g, r * w, q))
  {
    BaseValid(curve, g, n);
    BaseValid(curve, q, n);
    CombineAgain(curve, g, q, i * -z, i * s, w * z, r * w);
    UndoFactors(r, i, s, w, z, n);
    CombineSame(curve, g, n, q, i * -z + i * s * (w * z), i * s * (r * w), 0, 1);
    CombineUnit(curve, g, q);
  }

  lemma UndoFactors(r: int, i: int, s: int, w: int, z: int, n: int)
    requires Same(i * r, 1, n) && Same(w * s, 1, n)
    ensures Same(i * -z + i * s * (w * z), 0, n)
    ensures Same(i * s * (r * w), 1, n)
  {
    InverseTurn(s, w, i, z, n);
    CongAdd(i * -z, i * -z, (i * s) * (w * z), i * z, n);
    assert i * -z + i * z == 0;
    InverseTurn(s, w, i, r, n);
    assert r * w == w * r;
  }

  lemma CombineValid(curve: Curve, g: Point, n: int, q: Point, u: int, v: int)
    requires Base(curve, g, n) && Base(curve, q, n)
    ensures Valid(curve, Combine(curve, u, g, v, q))
  {
    BaseValid(curve, g, n);
    FiniteValid(curve, g, n, u);
    FiniteValid(curve, q, n, v);
  }

  lemma ByteNames(r: int, n: int, R: Point, p: int) returns (recid: int)
    requires R.Affine? && 0 <= R.x < p && InRange(p) && InRange(n) && R.x % n == r
    ensures 0 <= recid < 4 && Named(r, recid, n, R)
  {
    DivModUnique(R.x, if R.x < n then 0 else 1, if R.x < n then R.x else R.x - n, n);
    recid := (if R.x < n then 0 else 2) + R.y % 2;
  }

  /** Recovery has at most one answer. */
  lemma RecoveryUnique(curve: Curve, g: Point, n: int, r: int, s: int, z: int, recid: int, q: Point, q': Point)
    requires Base(curve, g, n) && CofactorOne(curve, n)
    requires Recovers(curve, g, n, r, s, z, recid, q) && Recovers(curve, g, n, r, s, z, recid, q')
    ensures q == q'
  {
    BaseValid(curve, g, n);
    var R, i :| RecoversWith(curve, g, n, r, s, z, recid, R, i, q);
    var R', i' :| RecoversWith(curve, g, n, r, s, z, recid, R', i', q');
    LiftUnique(curve, R.x, recid, R.y, R'.y);
    AnyPointIsBase(curve, g, n, R);
    InverseUnique(i, i', r, n);
    CongMul(i, i', -z, -z, n);
    CongMul(i, i', s, s, n);
    CombineSame(curve, g, n, R, i * -z, i * s, i' * -z, i' * s);
  }

  lemma LiftUnique(curve: Curve, x: int, odd: int, v: int, w: int)
    requires IsCurve(curve) && Lifts(curve, x, odd, v) && Lifts(curve, x, odd, w)
    ensures v == w
  {
    RootIsOrdinate(curve, x, odd, w, v);
  }

  /** (x, y) is the point q, with (0, 0) for infinity. */
  ghost predicate Holds(x: int, y: int, curve: Curve, q: Point)
  {
    PointOf(x, y) == q && Valid(curve, q)
  }

  /** The sum of two points given by coordinates. */
  method PlusPoint(curve: Curve, x1: int, y1: int, x2: int, y2: int, ghost q1: Point, ghost q2: Point)
    returns (x: int, y: int)
    requires IsCurve(curve) && Holds(x1, y1, curve, q1) && Holds(x2, y2, curve, q2)
    ensures Holds(x, y, curve, AddPoints(curve, q1, q2))
  {
    var cp1 := new CurvePoint(x1, y1);
    var cp2 := new CurvePoint(x2, y2);
    PointAdd(curve, cp1, cp2);
    SumUnique(curve, q1, q2, cp2.Value(), AddPoints(curve, q1, q2));
    x, y := cp2.x, cp2.y;
  }
}

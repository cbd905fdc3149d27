/** Signing, verifying and public key recovery (crypto/ecdsa.c). */
module Ecdsa {
  import opened Arith
  import opened Limbs
  import opened Field
  import opened Primes
  import opened InverseMath
  import opened Curve
  import opened CurveLaw
  import opened CurveGroup
  import opened JacobianGroup
  import opened ScalarMultiply
  import opened Compression
  import opened Signatures

  /** A curve with generator g of prime order n, its table of multiples, and no other subgroups. */
  ghost predicate Setup(curve: Curve, g: Point, n: int, cp: seq<seq<(int, int)>>)
  {
    Base(curve, g, n) && CofactorOne(curve, n) && IsBigTable(curve, g, cp)
  }

  /** k * G. */
  method TimesGenerator(curve: Curve, n: int, k: int, cp: seq<seq<(int, int)>>, z: int, ghost g: Point)
    returns (x: int, y: int)
    requires Base(curve, g, n) && IsBigTable(curve, g, cp) && 0 <= k < n && 0 < z < curve.p
    ensures Holds(x, y, curve, Multiple(curve, k, g))
  {
    BaseValid(curve, g, n);
    var kl := ToLimbs(k);
    var order := ToLimbs(n);
    var res := new CurvePoint(0, 0);
    var status := ScalarMultiply.ScalarMultiply(curve, order, kl, cp, z, g, res);
    x, y := res.x, res.y;
    if k > 0 {
      assert Opened(0);
    }
  }

  /** k * (x, y). */
  method TimesPoint(curve: Curve, n: int, k: int, x: int, y: int, z: int) returns (x': int, y': int)
    requires Base(curve, Affine(x, y), n) && 0 < k < n && 0 < z < curve.p
    ensures Holds(x', y', curve, Multiple(curve, k, Affine(x, y)))
  {
    BaseFacts(curve, Affine(x, y), n);
    assert !(x == 0 && y == 0) by {
      assert Opened(0);
    }
    var kl := ToLimbs(k);
    var order := ToLimbs(n);
    var res := new CurvePoint(x, y);
    var status := PointMultiply(curve, order, kl, res, z, res);
    x', y' := res.x, res.y;
    assert Opened(0);
  }

  // ---------- Signing ----------

  ghost predicate Solves(n: int, d: int, z: int, k: int, r: int, s: int)
  {
    0 <= s < n && Same(s * k, z + r * d, n)
  }

  /** The signature that the nonce k gives, in its low form. */
  ghost predicate NonceSigns(curve: Curve, g: Point, n: int, d: int, z: int, k: int, r: int, s: int, recid: int)
  {
    && n > 0
    && var R := Multiple(curve, k, g);
       && R.Affine? && r == R.x % n
       && exists t :: Solves(n, d, z, k, r, t) && IsLowForm(n, R, t, s, recid)
  }

  ghost predicate IsLowForm(n: int, R: Point, t: int, s: int, recid: int)
    requires R.Affine?
  {
    var high := n / 2 < t;
    && s == (if high then n - t else t)
    && recid == (if R.x < n then 0 else 2) + (if high then 1 - R.y % 2 else R.y % 2)
  }

  /** The nonce is in range and its r is not zero, so that the private key is looked at. */
  ghost predicate Usable(curve: Curve, g: Point, n: int, k: int)
  {
    InOrder(k, n) && var R := Multiple(curve, k, g); R.Affine? && R.x % n != 0
  }

  /** Both halves of what the nonce gives are nonzero: r, and the number z + r * d that s is in proportion to. */
  ghost predicate Solvable(curve: Curve, g: Point, n: int, d: int, z: int, k: int)
  {
    Usable(curve, g, n, k) && (z + Multiple(curve, k, g).x % n * d) % n != 0
  }

  /** Under a valid key the nonce gives a signature, and its low form is canonical. */
  ghost predicate Acceptable(curve: Curve, g: Point, n: int, d: int, z: int, canonical: (int, int, int) -> bool, k: int)
  {
    && InOrder(d, n) && Solvable(curve, g, n, d, z, k)
    && exists r, s, recid :: NonceSigns(curve, g, n, d, z, k, r, s, recid) && canonical(recid, r, s)
  }

  /** No test for canonical signatures. */
  ghost predicate AcceptsAll(canonical: (int, int, int) -> bool) { forall b, r, s :: canonical(b, r, s) }

  lemma ZeroSolution(n: int, d: int, z: int, k: int, r: int, t: int)
    requires Prime(n) && InOrder(k, n) && Solves(n, d, z, k, r, t)
    ensures t == 0 <==> (z + r * d) % n == 0
  {
    DivModUnique(0, 0, 0, n);
    DivModUnique(t, 0, t, n);
    DivModUnique(k, 0, k, n);
    if t != 0 {
      NonzeroProduct(t, k, n);
    }
  }

  /** Some number solves for every nonce. */
  lemma SolutionExists(n: int, d: int, z: int, k: int, r: int) returns (t: int)
    requires Prime(n) && InOrder(k, n)
    ensures Solves(n, d, z, k, r, t)
  {
    var w := InverseExists(n, k);
    var m := z + r * d;
    t := m * w % n;
    DivModUnique(t, 0, t, n);
    CongMul(t, m * w, k, k, n);
    MulAssoc(m, w, k);
    CongMul(m, m, w * k, 1, n);
  }

  /** Without a test for canonical signatures the numbers alone decide, whether s comes out high or low. */
  lemma SolvableIsAcceptable(curve: Curve, g: Point, n: int, d: int, z: int, canonical: (int, int, int) -> bool, k: int)
    requires Base(curve, g, n) && InOrder(d, n) && AcceptsAll(canonical)
    ensures Acceptable(curve, g, n, d, z, canonical, k) <==> Solvable(curve, g, n, d, z, k)
  {
    if Solvable(curve, g, n, d, z, k) {
      BaseValid(curve, g, n);
      var R := Multiple(curve, k, g);
      var t := SolutionExists(n, d, z, k, R.x % n);
      var high := n / 2 < t;
      var s := if high then n - t else t;
      var recid := (if R.x < n then 0 else 2) + (if high then 1 - R.y % 2 else R.y % 2);
      OnlySignature(curve, g, n, d, z, k, R.x % n, t, s, recid);
      assert canonical(recid, R.x % n, s);
    }
  }

  lemma SolutionUnique(n: int, d: int, z: int, k: int, r: int, s: int, t: int)
    requires Prime(n) && InOrder(k, n) && Solves(n, d, z, k, r, s) && Solves(n, d, z, k, r, t)
    ensures s == t
  {
    var w := InverseExists(n, k);
    CongMul(s * k, t * k, w, w, n);
    assert s * k * w == s * (w * k) && t * k * w == t * (w * k);
    CongMul(s, s, w * k, 1, n);
    CongMul(t, t, w * k, 1, n);
    DivModUnique(s, 0, s, n);
    DivModUnique(t, 0, t, n);
  }

  /** The blinding factor cancels. */
  lemma Unblind(b: int, k: int, i: int, m: int, s: int, n: int)
    requires Same((b * k) * i, 1, n) && Same(s, b * (i * m), n)
    ensures Same(s * k, m, n)
  {
    CongMul(s, b * (i * m), k, k, n);
    assert b * (i * m) * k == (b * k) * i * m by {
      MulAssoc(b, i, m);
      assert b * i * m * k == b * i * k * m;
      assert b * i * k == b * k * i;
    }
    CongMul((b * k) * i, 1, m, m, n);
  }

  lemma NoncesInverse(b: int, k: int, n: int, kb: int)
    requires Prime(n) && InOrder(b, n) && InOrder(k, n) && Same(kb, b * k, n)
    ensures kb % n != 0 && Coprime(n, kb)
  {
    DivModUnique(b, 0, b, n);
    DivModUnique(k, 0, k, n);
    NonzeroProduct(b, k, n);
    PrimeCoprime(n, kb);
  }

  /** The arithmetic on s with its blinding factor. */
  method BlindedSolution(n: int, k: int, b: int, r: int, d: int, z: int) returns (s: int)
    requires Prime(n) && n % 2 == 1 && InRange(n) && InOrder(k, n) && InOrder(b, n)
    requires 0 <= r < n && 0 <= d < n && 0 <= z < TWO256
    ensures Solves(n, d, z, k, r, s)
  {
    var kb := Product(b, k, n, b, k);
    NoncesInverse(b, k, n, kb);
    var i := Inverse(kb, n, b * k);
    s := Product(r, d, n, r, d);
    s := Add(s, z, n, r * d, z);
    s := Product(i, s, n, i, r * d + z);
    s := Product(b, s, n, b, i * (r * d + z));
    s := Reduce(s, n);
    Unblind(b, k, i, r * d + z, s, n);
  }

  lemma AbscissaResidue(x: int, n: int, p: int)
    requires 0 <= x < p && InRange(p) && InRange(n)
    ensures x % n == if x < n then x else x - n
  {
    DivModUnique(x, if x < n then 0 else 1, if x < n then x else x - n, n);
  }

  /** The low form of the solution is what the test for canonical signatures decides about. */
  lemma LowFormDecides(curve: Curve, g: Point, n: int, d: int, z: int, canonical: (int, int, int) -> bool, k: int,
                       r: int, t: int, s: int, recid: int)
    requires Prime(n) && InOrder(d, n) && InOrder(k, n) && Multiple(curve, k, g).Affine? && r != 0 && t != 0
    requires r == Multiple(curve, k, g).x % n && Solves(n, d, z, k, r, t)
    requires IsLowForm(n, Multiple(curve, k, g), t, s, recid)
    ensures s != 0 && NonceSigns(curve, g, n, d, z, k, r, s, recid)
    ensures Acceptable(curve, g, n, d, z, canonical, k) <==> canonical(recid, r, s)
  {
    hide Multiple, Prime;
    ZeroSolution(n, d, z, k, r, t);
    OnlySignature(curve, g, n, d, z, k, r, t, s, recid);
  }

  /** One turn of the signing loop: 0 for a signature, 2 for an invalid key, -1 to go on with the next nonce. */
  method SignWithNonce(curve: Curve, n: int, cp: seq<seq<(int, int)>>, d: int, z: int, k: int, b: int, zc: int,
                       canonical: (int, int, int) -> bool, ghost g: Point)
    returns (status: int, r: int, s: int, recid: int)
    requires Base(curve, g, n) && IsBigTable(curve, g, cp) && InOrder(b, n) && 0 < zc < curve.p
    requires 0 <= k < TWO256 && 0 <= d < TWO256 && 0 <= z < TWO256
    ensures status == 0 || status == 2 || status == -1
    ensures status == 0 ==>
      && InOrder(d, n) && InOrder(k, n) && NonceSigns(curve, g, n, d, z, k, r, s, recid)
      && r != 0 && s != 0 && canonical(recid, r, s)
    ensures status == 2 <==> !InOrder(d, n) && Usable(curve, g, n, k)
    ensures status == 0 <==> Acceptable(curve, g, n, d, z, canonical, k)
    ensures AcceptsAll(canonical) && InOrder(d, n) && InOrder(k, n) ==>
      var R := Multiple(curve, k, g);
      R.Affine? && (status == 0 <==> R.x % n != 0 && (z + R.x % n * d) % n != 0)
  {
    hide Base, IsBigTable, Multiple, IsCurve, OnCurve, Prime, AcceptsAll, NonceSigns;
    if AcceptsAll(canonical) && InOrder(d, n) && InOrder(k, n) {
      FiniteMultiple(curve, g, n, k);
      SolvableIsAcceptable(curve, g, n, d, z, canonical, k);
    }
    status, r, s, recid := -1, 0, 0, 0;
    if k == 0 || !(k < n) {
      return;
    }
    BaseValid(curve, g, n);
    OddPrime(curve);
    FiniteMultiple(curve, g, n, k);
    var x, y := TimesGenerator(curve, n, k, cp, zc, g);
    ghost var R := Multiple(curve, k, g);
    recid := y % 2;
    r := x;
    AbscissaResidue(x, n, curve.p);
    if !(r < n) {
      r := Subtract(r, n);
      recid := recid + 2;
    }
    if r == 0 {
      return;
    }
    if d == 0 || !(d < n) {
      status := 2;
      return;
    }
    s := BlindedSolution(n, k, b, r, d, z);
    ghost var t := s;
    ZeroSolution(n, d, z, k, r, t);
    if s == 0 {
      return;
    }
    if n / 2 < s {
      s := Subtract(n, s);
      recid := if recid % 2 == 0 then recid + 1 else recid - 1;
    }
    LowFormDecides(curve, g, n, d, z, canonical, k, r, t, s, recid);
    if !canonical(recid, r, s) {
      return;
    }
    status := 0;
  }

  /** A nonce gives one signature only. */
  lemma OnlySignature(curve: Curve, g: Point, n: int, d: int, z: int, k: int, r: int, t: int, s: int, recid: int)
    requires Prime(n) && InOrder(k, n) && Multiple(curve, k, g).Affine? && r == Multiple(curve, k, g).x % n
    requires Solves(n, d, z, k, r, t) && IsLowForm(n, Multiple(curve, k, g), t, s, recid)
    ensures NonceSigns(curve, g, n, d, z, k, r, s, recid)
    ensures forall r', s', recid' :: NonceSigns(curve, g, n, d, z, k, r', s', recid') ==>
      r' == r && s' == s && recid' == recid
  {
    forall r', s', recid' | NonceSigns(curve, g, n, d, z, k, r', s', recid')
      ensures r' == r && s' == s && recid' == recid
    {
      var t' :| Solves(n, d, z, k, r', t') && IsLowForm(n, Multiple(curve, k, g), t', s', recid');
      SolutionUnique(n, d, z, k, r, t, t');
    }
  }

  lemma AllFinite(curve: Curve, n: int, nonces: seq<int>, g: Point)
    requires Base(curve, g, n)
    ensures forall i :: 0 <= i < |nonces| && InOrder(nonces[i], n) ==> Multiple(curve, nonces[i], g).Affine?
  {
    forall i | 0 <= i < |nonces| && InOrder(nonces[i], n)
      ensures Multiple(curve, nonces[i], g).Affine?
    {
      FiniteMultiple(curve, g, n, nonces[i]);
    }
  }

  /** Signs with the first nonce that gives an acceptable signature (tc_ecdsa_sign_digest). */
  method SignDigest(curve: Curve, n: int, cp: seq<seq<(int, int)>>, d: int, z: int,
                    nonces: seq<int>, blinds: seq<int>, zcs: seq<int>, canonical: (int, int, int) -> bool,
                    ghost g: Point)
    returns (status: int, r: int, s: int, recid: int)
    requires Base(curve, g, n) && IsBigTable(curve, g, cp) && 0 <= d < TWO256 && 0 <= z < TWO256
    requires |nonces| == |blinds| == |zcs| == 10000
    requires forall i :: 0 <= i < 10000 ==> 0 <= nonces[i] < TWO256 && InOrder(blinds[i], n) && 0 < zcs[i] < curve.p
    ensures status == 0 || status == 1 || status == 2 || status == -1
    ensures status == 1 <==> z == 0
    ensures status == 0 ==>
      && InOrder(d, n) && r != 0 && s != 0 && canonical(recid, r, s)
      && exists i :: 0 <= i < 10000 && InOrder(nonces[i], n) && NonceSigns(curve, g, n, d, z, nonces[i], r, s, recid)
                     && forall j :: 0 <= j < i ==> !Acceptable(curve, g, n, d, z, canonical, nonces[j])
    ensures status == 0 <==> z != 0 && exists i :: 0 <= i < 10000 && Acceptable(curve, g, n, d, z, canonical, nonces[i])
    ensures AcceptsAll(canonical) && status == 0 ==>
      exists i :: 0 <= i < 10000 && Solvable(curve, g, n, d, z, nonces[i])
                  && NonceSigns(curve, g, n, d, z, nonces[i], r, s, recid)
                  && forall j :: 0 <= j < i ==> !Solvable(curve, g, n, d, z, nonces[j])
    ensures AcceptsAll(canonical) && z != 0 && InOrder(d, n) ==>
      forall i :: 0 <= i < 10000 && InOrder(nonces[i], n) ==>
        var R := Multiple(curve, nonces[i], g);
        R.Affine? && (R.x % n != 0 && (z + R.x % n * d) % n != 0 ==> status == 0)
    ensures status == 2 <==>
      z != 0 && !InOrder(d, n) && exists i :: 0 <= i < 10000 && Usable(curve, g, n, nonces[i])
  {
    status, r, s, recid := 1, 0, 0, 0;
    if z == 0 {
      return;
    }
    AllFinite(curve, n, nonces, g);
    for i := 0 to 10000
      invariant forall j :: 0 <= j < i ==> !Acceptable(curve, g, n, d, z, canonical, nonces[j])
      invariant AcceptsAll(canonical) && InOrder(d, n) ==>
        forall j :: 0 <= j < i ==> !Solvable(curve, g, n, d, z, nonces[j])
      invariant InOrder(d, n) || forall j :: 0 <= j < i ==> !Usable(curve, g, n, nonces[j])
    {
      status, r, s, recid := SignWithNonce(curve, n, cp, d, z, nonces[i], blinds[i], zcs[i], canonical, g);
      if status != -1 {
        return;
      }
    }
    status := -1;
  }

  lemma OrdinateOfMultiple(curve: Curve, g: Point, n: int, k: int)
    requires Base(curve, g, n) && InOrder(k, n)
    ensures Multiple(curve, k, g).Affine? && Multiple(curve, k, g).y % curve.p != 0
  {
    assert Opened(0);
    DivModUnique(k, 0, k, n);
    MultipleFinite(curve, g, n, k);
    OddTwice(n, k);
    MultipleAdd(curve, g, k, k);
    MultipleFinite(curve, g, n, 2 * k);
    if Multiple(curve, k, g).y % curve.p == 0 {
      ZeroOrdinate(curve, Multiple(curve, k, g));
    }
  }

  /** What a nonce gives is a signature, and in low form: the nonce, or its negative, stands behind it. */
  lemma NonceGivesSignature(curve: Curve, g: Point, n: int, d: int, z: int, k: int, r: int, s: int, recid: int)
    requires Base(curve, g, n) && InOrder(k, n) && r != 0 && s != 0
    requires NonceSigns(curve, g, n, d, z, k, r, s, recid)
    ensures IsSignature(curve, g, n, d, z, r, s, recid) && 2 * s <= n && 0 <= recid < 4
  {
    hide Base, IsCurve, OnCurve, SignedWith, Multiple, IsSignature, Prime;
    BaseValid(curve, g, n);
    OddPrime(curve);
    FiniteValid(curve, g, n, k);
    var R := Multiple(curve, k, g);
    var t :| Solves(n, d, z, k, r, t) && IsLowForm(n, R, t, s, recid);
    AbscissaResidue(R.x, n, curve.p);
    if n / 2 < t {
      HighSolution(curve, g, n, d, z, k, r, t, recid);
      Behind(curve, g, n, d, z, -k, r, s, recid);
    } else {
      LowSolution(curve, g, n, d, z, k, r, t, recid);
      Behind(curve, g, n, d, z, k, r, s, recid);
    }
  }

  lemma OddPrime(curve: Curve)
    requires IsCurve(curve)
    ensures curve.p % 2 == 1 && InRange(curve.p)
  {
  }

  lemma LowSolution(curve: Curve, g: Point, n: int, d: int, z: int, k: int, r: int, t: int, recid: int)
    requires Same(t * k, z + r * d, n)
    requires var R := Multiple(curve, k, g);
             R.Affine? && Valid(curve, R) && r == (if R.x < n then R.x else R.x - n)
             && recid == (if R.x < n then 0 else 2) + R.y % 2
    ensures SignedWith(curve, g, n, d, z, r, t, recid, k)
  {
    hide Multiple, OnCurve;
  }

  lemma Behind(curve: Curve, g: Point, n: int, d: int, z: int, k: int, r: int, s: int, recid: int)
    requires InOrder(r, n) && InOrder(s, n) && SignedWith(curve, g, n, d, z, r, s, recid, k)
    ensures IsSignature(curve, g, n, d, z, r, s, recid)
  {
  }

  /** The negated nonce stands behind a negated solution. */
  lemma HighSolution(curve: Curve, g: Point, n: int, d: int, z: int, k: int, r: int, t: int, recid: int)
    requires Base(curve, g, n) && n > 0 && InOrder(k, n) && Same(t * k, z + r * d, n)
    requires var R := Multiple(curve, k, g);
             R.Affine? && Valid(curve, R) && curve.p % 2 == 1 && r == (if R.x < n then R.x else R.x - n)
             && recid == (if R.x < n then 0 else 2) + (1 - R.y % 2)
    ensures SignedWith(curve, g, n, d, z, r, n - t, recid, -k)
  {
    var R := Multiple(curve, k, g);
    NegatedSolution(t, k, z + r * d, n);
    OrdinateOfMultiple(curve, g, n, k);
    NegatedPoint(curve, g, n, k);
    OtherOrdinate(R.y, curve.p);
  }

  lemma NegatedSolution(t: int, k: int, m: int, n: int)
    requires Same(t * k, m, n)
    ensures Same((n - t) * -k, m, n)
  {
    assert (n - t) * -k == t * k + -k * n;
    ModAddMultiple(t * k, -k, n);
  }

  lemma NegatedPoint(curve: Curve, g: Point, n: int, k: int)
    requires Base(curve, g, n) && Multiple(curve, k, g).Affine?
    ensures Multiple(curve, -k, g) == Affine(Multiple(curve, k, g).x, -Multiple(curve, k, g).y % curve.p)
  {
    assert Opened(0);
    MultipleNeg(curve, g, k);
  }

  lemma OtherOrdinate(y: int, p: int)
    requires p % 2 == 1 && 0 <= y < p && y % p != 0
    ensures -y % p % 2 == 1 - y % 2
  {
    if y == 0 {
      DivModUnique(0, 0, 0, p);
    } else {
      DivModUnique(-y, -1, p - y, p);
    }
  }

  // ---------- Verifying ----------

  lemma ReducedFactor(x: int, i: int, s: int, n: int)
    requires Prime(n) && InOrder(x, n) && Same(i * s, 1, n)
    ensures (x * i) % n != 0
  {
    DivModUnique(x, 0, x, n);
    if i % n == 0 {
      MultipleIsZero(0, n);
      CongMul(i, 0, s, s, n);
      DivModUnique(1, 0, 1, n);
    }
    NonzeroProduct(x, i, n);
  }

  /** The two multiplications and the comparison: 0 when (r, s) verifies, 4 for infinity, 5 for a mismatch. */
  method CompareAbscissas(curve: Curve, n: int, cp: seq<seq<(int, int)>>, x: int, y: int, r: int, s: int, z: int,
                          z1: int, z2: int, ghost g: Point)
    returns (result: int)
    requires Base(curve, g, n) && IsBigTable(curve, g, cp) && Base(curve, Affine(x, y), n)
    requires InOrder(r, n) && InOrder(s, n) && 0 < z < TWO256 && 0 < z1 < curve.p && 0 < z2 < curve.p
    ensures result == 0 || result == 4 || result == 5
    ensures result == 0 <==> Accepts(curve, g, n, Affine(x, y), r, s, z)
    ensures result == 4 <==> Vanishes(curve, g, n, Affine(x, y), r, s, z)
  {
    BaseValid(curve, g, n);
    DivModUnique(s, 0, s, n);
    PrimeCoprime(n, s);
    var w := Inverse(s, n, s);
    var u := Product(w, z, n, w, z);
    u := Reduce(u, n);
    var v := Product(r, w, n, r, w);
    v := Reduce(v, n);
    assert w * s == s * w;
    ReducedFactor(r, w, s, n);
    DivModUnique(0, 0, 0, n);
    var x1, y1 := TimesGenerator(curve, n, u, cp, z1, g);
    var x2, y2 := TimesPoint(curve, n, v, x, y, z2);
    ghost var q := Affine(x, y);
    var x3, y3 := PlusPoint(curve, x2, y2, x1, y1, Multiple(curve, v, q), Multiple(curve, u, g));
    SumCommutes(curve, Multiple(curve, v, q), Multiple(curve, u, g));
    CombineSame(curve, g, n, q, u, v, w * z, r * w);
    AcceptsByAny(curve, g, n, q, r, s, z, w);
    VanishesByAny(curve, g, n, q, r, s, z, w);
    if x3 == 0 && y3 == 0 {
      return 4;
    }
    x3 := Reduce(x3, n);
    result := if x3 == r then 0 else 5;
  }

  /** Which inverse of s is taken makes no difference. */
  lemma AcceptsByAny(curve: Curve, g: Point, n: int, q: Point, r: int, s: int, z: int, w: int)
    requires Base(curve, g, n) && Base(curve, q, n) && Same(w * s, 1, n) && z != 0 && InOrder(r, n) && InOrder(s, n)
    ensures Accepts(curve, g, n, q, r, s, z) <==> AcceptsWith(curve, g, n, q, r, s, z, w)
  {
    if Accepts(curve, g, n, q, r, s, z) {
      var v :| AcceptsWith(curve, g, n, q, r, s, z, v);
      InverseUnique(w, v, s, n);
      CongMul(w, v, z, z, n);
      CongMul(r, r, w, v, n);
      CombineSame(curve, g, n, q, w * z, r * w, v * z, r * v);
    }
  }

  /** Verification in terms of any inverse w of s: the abscissa of (w * z) * g + (r * w) * q is r modulo n. */
  lemma AcceptsMeans(curve: Curve, g: Point, n: int, q: Point, r: int, s: int, z: int, w: int)
    requires Base(curve, g, n) && Base(curve, q, n) && Same(w * s, 1, n)
    ensures Accepts(curve, g, n, q, r, s, z) <==>
      && 0 < r < n && 0 < s < n && z != 0
      && var R := AddPoints(curve, Multiple(curve, w * z, g), Multiple(curve, r * w, q)); R.Affine? && R.x % n == r
  {
    hide Base, Multiple, AddPoints;
    if 0 < r < n && 0 < s < n && z != 0 {
      AcceptsByAny(curve, g, n, q, r, s, z, w);
    }
  }

  lemma VanishesByAny(curve: Curve, g: Point, n: int, q: Point, r: int, s: int, z: int, w: int)
    requires Base(curve, g, n) && Base(curve, q, n) && Same(w * s, 1, n)
    ensures Vanishes(curve, g, n, q, r, s, z) <==> VanishesWith(curve, g, n, q, r, s, z, w)
  {
    if Vanishes(curve, g, n, q, r, s, z) {
      var v :| VanishesWith(curve, g, n, q, r, s, z, v);
      InverseUnique(w, v, s, n);
      CongMul(w, v, z, z, n);
      CongMul(r, r, w, v, n);
      CombineSame(curve, g, n, q, w * z, r * w, v * z, r * v);
    }
  }

  /**
   * Verification of (r, s) for the digest z under the public key with the given tag and numbers
   * (tc_ecdsa_verify_digest).
   */
  method VerifyDigest(curve: Curve, n: int, cp: seq<seq<(int, int)>>, tag: int, a: int, b: int, r: int, s: int, z: int,
                      z1: int, z2: int, ghost g: Point)
    returns (result: int, x: int, y: int)
    requires Setup(curve, g, n, cp) && curve.p % 4 == 3 && 0 < z1 < curve.p && 0 < z2 < curve.p
    requires 0 <= a < TWO256 && 0 <= b < TWO256 && 0 <= r < TWO256 && 0 <= s < TWO256 && 0 <= z < TWO256
    ensures 0 <= result <= 5
    ensures result != 1 ==> Valid(curve, Affine(x, y)) && x == a
    ensures tag == 4 ==> (result != 1 <==> Valid(curve, Affine(a, b))) && (result != 1 ==> y == b)
    ensures tag == 2 || tag == 3 ==> forall v :: Lifts(curve, a, tag, v) ==> result != 1 && y == v
    ensures tag == 2 || tag == 3 ==> result == 1 || Lifts(curve, a, tag, y)
    ensures !(2 <= tag <= 4) ==> result == 1
    ensures result == 3 <==> result != 1 && z == 0
    ensures result == 2 <==> result != 1 && z != 0 && !(InOrder(r, n) && InOrder(s, n))
    ensures result == 0 <==> result != 1 && Accepts(curve, g, n, Affine(x, y), r, s, z)
    ensures result == 4 <==>
      && result != 1 && z != 0 && InOrder(r, n) && InOrder(s, n)
      && Vanishes(curve, g, n, Affine(x, y), r, s, z)
  {
    BaseValid(curve, g, n);
    result := 0;
    var ok;
    ok, x, y := ReadPubkey(curve, tag, a, b);
    if !ok {
      result := 1;
    }
    if result == 0 {
      if r == 0 || s == 0 || !(r < n) || !(s < n) {
        result := 2;
      }
      if z == 0 {
        result := 3;
      }
    }
    if result == 0 {
      AnyPointIsBase(curve, g, n, Affine(x, y));
      result := CompareAbscissas(curve, n, cp, x, y, r, s, z, z1, z2, g);
    }
  }

  // ---------- Recovery ----------

  /** i * (s * R - z * G) for the inverse i of r. */
  method KeyFromPoint(curve: Curve, n: int, cp: seq<seq<(int, int)>>, cx: int, cy: int, r: int, s: int, z: int,
                      z1: int, z2: int, ghost g: Point)
    returns (x: int, y: int, ghost i: int)
    requires Base(curve, g, n) && IsBigTable(curve, g, cp) && Base(curve, Affine(cx, cy), n)
    requires InOrder(r, n) && InOrder(s, n) && 0 <= z < TWO256 && 0 < z1 < curve.p && 0 < z2 < curve.p
    ensures Same(i * r, 1, n) && Holds(x, y, curve, Combine(curve, i * -z, g, i * s, Affine(cx, cy)))
  {
    BaseValid(curve, g, n);
    var e := Reduce(z, n);
    e := Subtract(n, e);
    assert Same(e, -z, n) by {
      CongSub(n, 0, z % n, z, n);
    }
    DivModUnique(r, 0, r, n);
    PrimeCoprime(n, r);
    var r' := Inverse(r, n, r);
    i := r';
    e := Product(r', e, n, i, -z);
    e := Reduce(e, n);
    var u := Product(r', s, n, i, s);
    u := Reduce(u, n);
    assert i * r == r * i && i * s == s * i;
    ReducedFactor(s, i, r, n);
    DivModUnique(0, 0, 0, n);
    var x1, y1 := TimesPoint(curve, n, u, cx, cy, z1);
    var x2, y2 := TimesGenerator(curve, n, e, cp, z2, g);
    x, y := PlusPoint(curve, x2, y2, x1, y1, Multiple(curve, e, g), Multiple(curve, u, Affine(cx, cy)));
    CombineSame(curve, g, n, Affine(cx, cy), e, u, i * -z, i * s);
  }

  /** The abscissa that r and the recovery byte name has no point, or leads to infinity: nothing is recovered. */
  lemma NothingRecovered(curve: Curve, g: Point, n: int, r: int, s: int, z: int, recid: int, cx: int, cy: int, i: int)
    requires Base(curve, g, n) && CofactorOne(curve, n) && cx == r + (if recid / 2 % 2 == 1 then n else 0)
    requires forall v :: Lifts(curve, cx, recid, v) ==> cy == v
    requires Valid(curve, Affine(cx, cy)) ==>
      Same(i * r, 1, n) && Combine(curve, i * -z, g, i * s, Affine(cx, cy)).Infinity?
    ensures forall q :: !Recovers(curve, g, n, r, s, z, recid, q)
  {
    forall q
      ensures !Recovers(curve, g, n, r, s, z, recid, q)
    {
      if Recovers(curve, g, n, r, s, z, recid, q) {
        var R, j :| RecoversWith(curve, g, n, r, s, z, recid, R, j, q);
        assert Lifts(curve, cx, recid, R.y);
        AnyPointIsBase(curve, g, n, R);
        InverseUnique(i, j, r, n);
        CongMul(i, j, -z, -z, n);
        CongMul(i, j, s, s, n);
        CombineSame(curve, g, n, R, i * -z, i * s, j * -z, j * s);
      }
    }
  }

  /** The public key behind a signature (tc_ecdsa_recover_pub_from_sig). */
  method RecoverPub(curve: Curve, n: int, cp: seq<seq<(int, int)>>, r: int, s: int, z: int, recid: int,
                    z1: int, z2: int, ghost g: Point)
    returns (status: int, x: int, y: int)
    requires Setup(curve, g, n, cp) && curve.p % 4 == 3 && 0 < z1 < curve.p && 0 < z2 < curve.p
    requires 0 <= r < TWO256 && 0 <= s < TWO256 && 0 <= z < TWO256
    ensures status == 0 || status == 1
    ensures status == 0 ==> Recovers(curve, g, n, r, s, z, recid, Affine(x, y))
    ensures status == 1 ==> forall q :: !Recovers(curve, g, n, r, s, z, recid, q)
  {
    status, x, y := 1, 0, 0;
    BaseValid(curve, g, n);
    if !(r < n) || r == 0 {
      return;
    }
    if !(s < n) || s == 0 {
      return;
    }
    var cx := r;
    if recid / 2 % 2 == 1 {
      cx := Add(cx, n, n, r, n);
      if !(cx < curve.p) {
        return;
      }
    }
    var cy := UncompressCoords(curve, recid, cx);
    var ok := ValidatePubkey(curve, cx, cy);
    if !ok {
      NothingRecovered(curve, g, n, r, s, z, recid, cx, cy, 0);
      return;
    }
    AnyPointIsBase(curve, g, n, Affine(cx, cy));
    ghost var i;
    x, y, i := KeyFromPoint(curve, n, cp, cx, cy, r, s, z, z1, z2, g);
    if x == 0 && y == 0 {
      NothingRecovered(curve, g, n, r, s, z, recid, cx, cy, i);
      return;
    }
    assert RecoversWith(curve, g, n, r, s, z, recid, Affine(cx, cy), i, Affine(x, y));
    status := 0;
  }

  // ---------- End to end ----------

  /** Signing, then verifying under the public key d * G, then recovering that key from the signature. */
  method SignVerifyRecover(curve: Curve, n: int, cp: seq<seq<(int, int)>>, d: int, z: int,
                           nonces: seq<int>, blinds: seq<int>, zcs: seq<int>, canonical: (int, int, int) -> bool,
                           z0: int, z1: int, z2: int, ghost g: Point)
    returns (status: int, verified: int, recovered: int, x: int, y: int)
    requires Setup(curve, g, n, cp) && curve.p % 4 == 3 && InOrder(d, n) && 0 <= z < TWO256
    requires |nonces| == |blinds| == |zcs| == 10000
    requires forall i :: 0 <= i < 10000 ==> 0 <= nonces[i] < TWO256 && InOrder(blinds[i], n) && 0 < zcs[i] < curve.p
    requires 0 < z0 < curve.p && 0 < z1 < curve.p && 0 < z2 < curve.p
    ensures status == 0 ==> verified == 0 && recovered == 0 && Affine(x, y) == Multiple(curve, d, g)
  {
    BaseValid(curve, g, n);
    verified, recovered, x, y := 0, 0, 0, 0;
    var r, s, recid;
    status, r, s, recid := SignDigest(curve, n, cp, d, z, nonces, blinds, zcs, canonical, g);
    if status == 0 {
      FiniteMultiple(curve, g, n, d);
      FiniteValid(curve, g, n, d);
      ghost var q := Multiple(curve, d, g);
      SignatureFacts(curve, g, n, d, z, nonces, r, s, recid);
      var px, py := TimesGenerator(curve, n, d, cp, z0, g);
      var vx, vy;
      verified, vx, vy := VerifyDigest(curve, n, cp, 4, px, py, r, s, z, z1, z2, g);
      recovered, x, y := RecoverPub(curve, n, cp, r, s, z, recid, z1, z2, g);
      RecoveryUnique(curve, g, n, r, s, z, recid, q, Affine(x, y));
    }
  }

  lemma SignatureFacts(curve: Curve, g: Point, n: int, d: int, z: int, nonces: seq<int>, r: int, s: int, recid: int)
    requires Base(curve, g, n) && CofactorOne(curve, n) && InOrder(d, n) && z != 0 && r != 0 && s != 0
    requires exists i ::
      0 <= i < |nonces| && InOrder(nonces[i], n) && NonceSigns(curve, g, n, d, z, nonces[i], r, s, recid)
    ensures IsSignature(curve, g, n, d, z, r, s, recid)
    ensures Recovers(curve, g, n, r, s, z, recid, Multiple(curve, d, g))
    ensures Accepts(curve, g, n, Multiple(curve, d, g), r, s, z)
  {
    var i :| 0 <= i < |nonces| && InOrder(nonces[i], n) && NonceSigns(curve, g, n, d, z, nonces[i], r, s, recid);
    NonceGivesSignature(curve, g, n, d, z, nonces[i], r, s, recid);
    SignatureRecovers(curve, g, n, d, z, r, s, recid);
    RecoveredAccepted(curve, g, n, r, s, z, recid, Multiple(curve, d, g));
  }
}

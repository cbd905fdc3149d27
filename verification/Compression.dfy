/** Compressed points and public keys (crypto/ecdsa.c), over primes that are 3 modulo 4. */
module Compression {
  import opened Arith
  import opened Limbs
  import opened BignumPower
  import opened Field
  import opened Primes
  import opened Squares
  import opened Curve
  import opened CurveLaw

  /** v is the ordinate that the lowest bit of `odd` selects for the abscissa x. */
  ghost predicate Lifts(curve: Curve, x: int, odd: int, v: int)
  {
    Valid(curve, Affine(x, v)) && v % 2 == odd % 2
  }

  function Cubic(curve: Curve, x: int): int { x * x * x + curve.a * x + curve.b }

  /** Square root modulo the prime (bn_sqrt). */
  method Sqrt(x: int, p: int, ghost X: int) returns (r: int)
    requires 0 <= x < TWO259 && InRange(p) && Prime(p) && p % 4 == 3 && Same(x, X, p)
    ensures 0 <= r < p
    ensures IsSquare(X, p) ==> Same(r * r, X, p)
    ensures r == 0 <==> X % p == 0
  {
    var xl := ToLimbs(x);
    var pl := ToLimbs(p);
    BnSqrt(xl, pl);
    r := Value(xl[..]);
    if IsSquare(X, p) {
      ghost var y :| SquareOf(y, X, p);
      assert SquareOf(y, x, p);
    }
  }

  /** x^3 + ax, partly reduced. */
  method CubeTerms(curve: Curve, x: int) returns (y: int)
    requires IsCurve(curve) && 0 <= x < 2 * TWO256
    ensures 0 <= y < 2 * curve.p && Same(y, x * x * x + curve.a * x, curve.p)
  {
    y := Product(x, x, curve.p, x, x);
    y := SubI(y, -curve.a, curve.p, x * x);
    y := Product(x, y, curve.p, x, x * x - -curve.a);
    Horner(x, curve.a);
  }

  lemma Horner(x: int, a: int)
    ensures x * (x * x - -a) == x * x * x + a * x
  {
    assert x * (x * x - -a) == x * (x * x) + x * a;
  }

  /** A root with the wanted parity is the ordinate itself; the other root is its complement. */
  lemma RootIsOrdinate(curve: Curve, x: int, odd: int, v: int, r: int)
    requires IsCurve(curve) && Lifts(curve, x, odd, v) && 0 <= r < curve.p
    requires IsSquare(Cubic(curve, x), curve.p) ==> Same(r * r, Cubic(curve, x), curve.p)
    ensures (if r % 2 == odd % 2 then r else curve.p - r) == v
  {
    assert SquareOf(v, Cubic(curve, x), curve.p);
    RootsAgree(r, v, curve.p);
    ParityPicks(v, r, curve.p);
  }

  lemma ParityPicks(v: int, r: int, p: int)
    requires 0 <= v < p && 0 <= r < p && p % 2 == 1 && (r % p == v % p || r % p == (-v) % p)
    ensures (if r % 2 == v % 2 then r else p - r) == v
  {
    DivModUnique(r, 0, r, p);
    DivModUnique(v, 0, v, p);
    DivModUnique(-v, if v == 0 then 0 else -1, if v == 0 then 0 else p - v, p);
  }

  lemma OtherParity(r: int, p: int, odd: int)
    requires p % 2 == 1 && r % 2 != odd % 2
    ensures (p - r) % 2 == odd % 2
  {
  }

  lemma OnlyOrdinate(curve: Curve, x: int, odd: int, r: int, y: int)
    requires IsCurve(curve) && 0 <= r < curve.p && y == if r % 2 == odd % 2 then r else curve.p - r
    requires IsSquare(Cubic(curve, x), curve.p) ==> Same(r * r, Cubic(curve, x), curve.p)
    ensures y % 2 == odd % 2
    ensures forall v :: Lifts(curve, x, odd, v) ==> y == v
  {
    if r % 2 != odd % 2 {
      OtherParity(r, curve.p, odd);
    }
    forall v | Lifts(curve, x, odd, v)
      ensures y == v
    {
      RootIsOrdinate(curve, x, odd, v, r);
    }
  }

  /** The ordinate of the given parity, when there is one (uncompress_coords). */
  method UncompressCoords(curve: Curve, odd: int, x: int) returns (y: int)
    requires IsCurve(curve) && curve.p % 4 == 3 && 0 <= x < 2 * TWO256
    ensures 0 <= y <= curve.p && y % 2 == odd % 2
    ensures forall v :: Lifts(curve, x, odd, v) ==> y == v
    ensures y == curve.p <==> Cubic(curve, x) % curve.p == 0 && odd % 2 == 1
  {
    y := CubeTerms(curve, x);
    y := Add(y, curve.b, curve.p, x * x * x + curve.a * x, curve.b);
    var r := Sqrt(y, curve.p, Cubic(curve, x));
    y := r;
    if odd % 2 != y % 2 {
      y := Subtract(curve.p, y);
    }
    OnlyOrdinate(curve, x, odd, r, y);
  }

  /** On y^2 = x^3 - 2x + 1, over every such prime, the odd ordinate over 1 comes out as the prime itself. */
  method OddRootOfZero(p: int) returns (y: int)
    requires Prime(p) && InRange(p) && p % 4 == 3 && p % BASE > 3
    ensures y == p
  {
    var curve := Curve(p, -2, 1);
    assert Cubic(curve, 1) == 0;
    y := UncompressCoords(curve, 1, 1);
  }

  /** Accepts exactly the finite points of the curve with reduced coordinates (ecdsa_validate_pubkey). */
  method ValidatePubkey(curve: Curve, x: int, y: int) returns (ok: bool)
    requires IsCurve(curve) && Fits(x) && Fits(y)
    ensures ok <==> Valid(curve, Affine(x, y))
  {
    var p := curve.p;
    if x == 0 && y == 0 {
      OriginOff(curve);
      return false;
    }
    if !(x < p) || !(y < p) {
      return false;
    }
    var y2 := Product(y, y, p, y, y);
    y2 := Reduce(y2, p);
    var cubic := CubeTerms(curve, x);
    cubic := AddMod(cubic, curve.b, p, x * x * x + curve.a * x, curve.b);
    cubic := Reduce(cubic, p);
    ok := cubic == y2;
  }

  lemma OriginOff(curve: Curve)
    requires IsCurve(curve)
    ensures !Valid(curve, Affine(0, 0))
  {
    DivModUnique(curve.b, 0, curve.b, curve.p);
    DivModUnique(0, 0, 0, curve.p);
  }

  /** The tag byte of the compressed form (compress_coords). */
  method CompressCoords(x: int, y: int) returns (tag: int, abscissa: int)
    ensures abscissa == x && (tag == 2 || tag == 3) && (tag == 3 <==> y % 2 == 1)
  {
    tag := if y % 2 == 1 then 3 else 2;
    abscissa := x;
  }

  /** Reads a public key given by its tag byte and its one or two 32-byte numbers. */
  method ReadPubkey(curve: Curve, tag: int, a: int, b: int) returns (ok: bool, x: int, y: int)
    requires IsCurve(curve) && curve.p % 4 == 3 && 0 <= a < TWO256 && 0 <= b < TWO256
    ensures ok ==> Valid(curve, Affine(x, y)) && x == a
    ensures tag == 4 ==> (ok <==> Valid(curve, Affine(a, b))) && (ok ==> y == b)
    ensures tag == 2 || tag == 3 ==>
      (forall v :: Lifts(curve, a, tag, v) ==> ok && y == v) && (ok ==> Lifts(curve, a, tag, y))
    ensures ok ==> 2 <= tag <= 4
  {
    x, y := a, b;
    if tag == 4 {
      ok := ValidatePubkey(curve, x, y);
      return;
    }
    if tag == 2 || tag == 3 {
      y := UncompressCoords(curve, tag, x);
      ok := ValidatePubkey(curve, x, y);
      return;
    }
    ok := false;
  }

  /** Compressing a point of the curve and reading it back gives the point (SEC 1, sections 2.3.3 and 2.3.4). */
  method CompressThenRead(curve: Curve, x: int, y: int) returns (ok: bool, x': int, y': int)
    requires IsCurve(curve) && curve.p % 4 == 3 && Valid(curve, Affine(x, y))
    ensures ok && x' == x && y' == y
  {
    var tag, a := CompressCoords(x, y);
    assert Lifts(curve, x, tag, y);
    ok, x', y' := ReadPubkey(curve, tag, a, 0);
  }
}

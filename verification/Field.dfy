/**
 * The modular operations on bignum values. A normalized bignum256 is determined by the number it holds, so the
 * curve code works on those numbers; every method here runs the limb code on freshly made limbs. The ghost
 * arguments are integers with the same residues as the operands, so that results are known as polynomials.
 */
module Field {
  import opened Arith
  import opened Limbs
  import opened Bignum
  import opened BignumModular
  import opened BignumHalf
  import opened BignumReduce
  import opened BignumInverse
  import opened InverseMath

  /** a and b have the same residue modulo p. */
  ghost predicate Same(a: int, b: int, p: int) { p > 0 && a % p == b % p }

  predicate Fits(x: int) { 0 <= x < TWO261 }

  /** The limbs of a number below 2^261. */
  method ToLimbs(n: int) returns (x: array<u32>)
    requires Fits(n)
    ensures fresh(x) && IsBn(x) && V(x) == n
  {
    x := new u32[9];
    var rest := n;
    Powers();
    for i := 0 to 9
      invariant forall j :: 0 <= j < i ==> x[j] < BASE
      invariant rest >= 0 && Val(x[..], i) + rest * Pow(BASE, i) == n
    {
      ghost var prev := rest;
      StoreLimb(x[..], i, prev, prev, 0);
      x[i] := rest % BASE;
      rest := rest / BASE;
    }
    NormBound(x[..]);
    SplitUnique(V(x), rest, TWO261, 0, n);
  }

  /** r = k * x, partly reduced (bn_multiply). */
  method Multiply(k: int, x: int, p: int, ghost K: int, ghost X: int) returns (r: int)
    requires Fits(k) && Fits(x) && InRange(p) && k * x < TWO519
    requires Same(k, K, p) && Same(x, X, p)
    ensures 0 <= r < 2 * p && Same(r, K * X, p)
  {
    var kl := ToLimbs(k);
    var xl := ToLimbs(x);
    var pl := ToLimbs(p);
    BnMultiply(kl, xl, pl);
    r := Value(xl[..]);
    NormBound(xl[..]);
    CongMul(k, K, x, X, p);
  }

  /** Products of small multiples of the modulus are within bn_multiply's range. */
  lemma SmallProduct(k: int, x: int)
    requires 0 <= k < 8 * TWO256 && 0 <= x < 8 * TWO256
    ensures k * x < TWO519
  {
    MulMonotone(k, 8 * TWO256, x, 8 * TWO256);
  }

  /** r = k * x for operands below 2^259, the usual case in the curve code. */
  method Product(k: int, x: int, p: int, ghost K: int, ghost X: int) returns (r: int)
    requires 0 <= k < 8 * TWO256 && 0 <= x < 8 * TWO256 && InRange(p)
    requires Same(k, K, p) && Same(x, X, p)
    ensures 0 <= r < 2 * p && Same(r, K * X, p)
  {
    SmallProduct(k, x);
    r := Multiply(k, x, p, K, X);
  }

  /** Partial reduction of a normalized number (bn_fast_mod). */
  method FastMod(x: int, p: int) returns (r: int)
    requires Fits(x) && InRange(p)
    ensures 0 <= r < 2 * p && Same(r, x, p)
    ensures r == x - x / TWO256 * p
  {
    var xl := ToLimbs(x);
    var pl := ToLimbs(p);
    TopBits(xl[..]);
    BnFastMod(xl, pl);
    r := Value(xl[..]);
    NormBound(xl[..]);
  }

  lemma TopBits(s: seq<int>)
    requires Norm(s)
    ensures s[8] / TWO24 == Value(s) / TWO256
  {
    DigitsBound(s, 8);
    Powers();
    assert Value(s) == Val(s, 8) + s[8] * TWO232;
  }

  /** Full reduction of a partly reduced number (bn_mod). */
  method Reduce(x: int, p: int) returns (r: int)
    requires 0 <= x < 2 * p && InRange(p)
    ensures r == x % p && Same(r, x, p) && 0 <= r < p
  {
    var xl := ToLimbs(x);
    var pl := ToLimbs(p);
    BnMod(xl, pl);
    r := Value(xl[..]);
    DivModUnique(r, 0, r, p);
  }

  /** r = k * x, partly reduced (bn_mult_k). */
  method MultK(x: int, k: u8, p: int, ghost X: int) returns (r: int)
    requires Fits(x) && k <= 8 && InRange(p) && Same(x, X, p)
    ensures 0 <= r < 2 * p && Same(r, k * X, p)
  {
    var xl := ToLimbs(x);
    var pl := ToLimbs(p);
    BnMultK(xl, k, pl);
    r := Value(xl[..]);
    NormBound(xl[..]);
    CongMul(k, k, x, X, p);
  }

  /** r = x + y, partly reduced (bn_addmod). */
  method AddMod(x: int, y: int, p: int, ghost X: int, ghost Y: int) returns (r: int)
    requires Fits(x) && Fits(y) && InRange(p) && Same(x, X, p) && Same(y, Y, p)
    ensures 0 <= r < 2 * p && Same(r, X + Y, p)
  {
    var xl := ToLimbs(x);
    var yl := ToLimbs(y);
    var pl := ToLimbs(p);
    BnAddMod(xl, yl, pl);
    r := Value(xl[..]);
    NormBound(xl[..]);
    CongAdd(x, X, y, Y, p);
  }

  /** r = x + y without reduction (bn_add). */
  method Add(x: int, y: int, p: int, ghost X: int, ghost Y: int) returns (r: int)
    requires Fits(x) && Fits(y) && x + y < TWO261 && Same(x, X, p) && Same(y, Y, p)
    ensures r == x + y && Same(r, X + Y, p)
  {
    var xl := ToLimbs(x);
    var yl := ToLimbs(y);
    BnAdd(xl, yl);
    r := Value(xl[..]);
    CongAdd(x, X, y, Y, p);
  }

  /** r = x - y (bn_subtract). */
  method Subtract(x: int, y: int) returns (r: int)
    requires Fits(x) && Fits(y) && x >= y
    ensures r == x - y
  {
    var xl := ToLimbs(x);
    var yl := ToLimbs(y);
    BnSubtract(xl, yl, xl);
    r := Value(xl[..]);
  }

  /** r = x + 2p - y (bn_subtractmod). */
  method SubtractMod(x: int, y: int, p: int, ghost X: int, ghost Y: int) returns (r: int)
    requires Fits(x) && InRange(p) && 0 <= y <= 2 * p && x + 2 * p - y < TWO261
    requires Same(x, X, p) && Same(y, Y, p)
    ensures r == x + 2 * p - y && Same(r, X - Y, p)
  {
    var xl := ToLimbs(x);
    var yl := ToLimbs(y);
    var pl := ToLimbs(p);
    BnSubtractMod(xl, yl, xl, pl);
    r := Value(xl[..]);
    CongSub(x, X, y, Y, p);
    ModAddMultiple(x - y, 2, p);
  }

  /** r = x + p - y for a small y (bn_subi). */
  method SubI(x: int, y: u32, p: int, ghost X: int) returns (r: int)
    requires Fits(x) && InRange(p) && y < p % BASE && x + p - y < TWO261 && Same(x, X, p)
    ensures r == x + p - y && Same(r, X - y, p)
  {
    var xl := ToLimbs(x);
    var pl := ToLimbs(p);
    LowLimb(pl[..]);
    BnSubI(xl, y, pl);
    r := Value(xl[..]);
    CongSub(x, X, y, y, p);
    ModAddMultiple(x - y, 1, p);
  }

  lemma LowLimb(s: seq<int>)
    requires Norm(s)
    ensures Value(s) % BASE == s[0]
  {
    hide Value;
    ValHigh(s, 0);
    DivModUnique(Value(s), High(s, 1), s[0], BASE);
  }

  /** Halving modulo an odd number (bn_mult_half). */
  method MultHalf(x: int, p: int) returns (r: int)
    requires 0 <= x && 0 < p && p % 2 == 1 && x + p < TWO261
    ensures 2 * r == x || 2 * r == x + p
    ensures Same(2 * r, x, p)
  {
    var xl := ToLimbs(x);
    var pl := ToLimbs(p);
    BnMultHalf(xl, pl);
    r := Value(xl[..]);
    ModAddMultiple(x, 1, p);
  }

  /** The negative, or the number itself, both at least p (bn_cnegate). */
  method CNegate(cond: bool, x: int, p: int) returns (r: int)
    requires InRange(p) && 0 <= x < 2 * p
    ensures 0 <= r <= 2 * p && (x % p != 0 ==> r < 2 * p)
    ensures Same(r, if cond then -x else x, p)
  {
    var xl := ToLimbs(x);
    var pl := ToLimbs(p);
    BnCNegate(cond, xl, pl);
    r := Value(xl[..]);
    var m := x % p;
    DivModUnique(m, 0, m, p);
    if cond {
      CongSub(0, 0, m, x, p);
      ModAddMultiple(-m, 2, p);
    } else {
      ModAddMultiple(m, 1, p);
    }
  }

  /** Doubling without reduction (bn_lshift). */
  method LShift(x: int, p: int, ghost X: int) returns (r: int)
    requires 0 <= x && 2 * x < TWO261 && Same(x, X, p)
    ensures r == 2 * x && Same(r, 2 * X, p)
  {
    var xl := ToLimbs(x);
    BnLShift(xl);
    r := Value(xl[..]);
    CongMul(2, 2, x, X, p);
  }

  /** The inverse, or 0 for multiples of p (bn_inverse). */
  method Inverse(x: int, p: int, ghost X: int) returns (r: int)
    requires Fits(x) && InRange(p) && p % 2 == 1 && Same(x, X, p)
    requires x % p != 0 ==> Coprime(p, x)
    ensures 0 <= r < p
    ensures x % p != 0 ==> Same(X * r, 1, p)
    ensures x % p == 0 ==> r == 0
  {
    var xl := ToLimbs(x);
    var pl := ToLimbs(p);
    BnInverse(xl, pl);
    r := Value(xl[..]);
    NormBound(xl[..]);
    CongMul(x, X, r, r, p);
    DivModUnique(1, 0, 1, p);
  }
}

/** Modular exponentiation, square roots and the Legendre symbol (crypto/bignum.c). */
module BignumPower {
  import opened Arith
  import opened Limbs
  import opened Bignum
  import opened BignumHalf
  import opened BignumDivide
  import opened BignumReduce
  import opened Primes
  import opened Roots
  import opened Squares

  const TWO259: int := 8 * TWO256

  /** What the loop keeps: acc^r * res is the wanted power, and the next products stay below 2^519. */
  ghost predicate Powered(acc: int, res: int, r: int, target: int, p: int)
  {
    && p > 0 && r >= 0
    && (Pow(acc, r) * res) % p == target % p
    && 0 <= acc < TWO259 && 0 <= res < 2 * TWO256
  }

  lemma {:induction false} PowSquare(a: int, n: nat)
    ensures Pow(a, 2 * n) == Pow(a * a, n)
  {
    if n > 0 {
      PowSquare(a, n - 1);
      assert Pow(a, 2 * n) == a * (a * Pow(a, 2 * n - 2));
    }
  }

  lemma OddPower(acc: int, res: int, r: nat)
    ensures Pow(acc, 2 * r + 1) * res == Pow(acc * acc, r) * (acc * res)
  {
    PowSquare(acc, r);
    var w := Pow(acc * acc, r);
    assert Pow(acc, 2 * r + 1) == acc * w;
    assert acc * w * res == w * (acc * res) by {
      hide Pow;
    }
  }

  /** One bit of the exponent: the accumulator is squared, and multiplied in when the bit is set. */
  lemma PowerTurn(acc: int, res: int, r: nat, odd: bool, acc': int, res': int, target: int, p: int)
    requires Powered(acc, res, 2 * r + (if odd then 1 else 0), target, p) && p <= TWO256
    requires 0 <= acc' < 2 * p && acc' % p == (acc * acc) % p
    requires if odd then 0 <= res' < 2 * p && res' % p == (acc * res) % p else res' == res
    ensures Powered(acc', res', r, target, p)
  {
    hide Pow;
    var w := Pow(acc * acc, r);
    PowSquare(acc, r);
    CongPow(acc', acc * acc, r, p);
    if odd {
      OddPower(acc, res, r);
      CongMul(Pow(acc', r), w, res', acc * res, p);
    } else {
      CongMul(Pow(acc', r), w, res', res, p);
    }
  }

  lemma ProductFits519(a: int, b: int)
    requires 0 <= a < TWO259 && 0 <= b < TWO259
    ensures a * b < TWO519
  {
    MulMonotone(a, TWO259, b, TWO259);
  }

  /** res = x^e modulo prime, partly reduced; x may be res. */
  method BnPowerMod(x: array<u32>, e: array<u32>, prime: array<u32>, res: array<u32>)
    requires IsBn(x) && IsBn(e) && Modulus(prime[..]) && res.Length == 9
    requires V(x) < TWO259 && e != res && prime != res
    modifies res
    ensures IsBn(res) && V(res) < 2 * V(prime)
    ensures old(V(e)) >= 0 && V(res) % V(prime) == Pow(old(V(x)), old(V(e))) % V(prime)
  {
    hide Value, High, Powered;
    ghost var p, target := V(prime), Pow(V(x), Exponent(e[..]));
    NormBound(x[..]);
    var acc := new u32[9];
    BnCopy(x, acc);
    BnReadSmall(1, res);
    ghost var r := V(e);
    ValHigh(e[..], 0);
    NothingHigh(e[..]);
    PowerStart(V(acc), r, target, p);
    for i := 0 to 9
      invariant IsBn(acc) && IsBn(res) && r == High(e[..], i)
      invariant Powered(V(acc), V(res), r, target, p) && V(res) < 2 * p
    {
      var limb: u32 := e[i];
      ghost var h := High(e[..], i + 1);
      HighNonnegative(e[..], i + 1);
      HighUnfold(e[..], i);
      PowerOfTwo29();
      for j := 0 to 29
        invariant IsBn(acc) && IsBn(res)
        invariant limb < Pow(2, 29 - j) && r == limb + Pow(2, 29 - j) * h
        invariant Powered(V(acc), V(res), r, target, p) && V(res) < 2 * p
      {
        if i == 8 && limb == 0 {
          break;
        }
        HalveExponent(limb, Pow(2, 28 - j), h);
        r := limb / 2 + Pow(2, 28 - j) * h;
        PowerBit(acc, res, prime, limb % 2 == 1, r, target);
        limb := limb / 2;
      }
      assert r == h;
    }
    PowerEnd(V(acc), V(res), target, p);
  }

  /** One bit of the exponent, in place. */
  method PowerBit(acc: array<u32>, res: array<u32>, prime: array<u32>, odd: bool, ghost r: nat, ghost target: int)
    requires IsBn(acc) && IsBn(res) && Modulus(prime[..]) && acc != res && acc != prime && res != prime
    requires Powered(V(acc), V(res), 2 * r + (if odd then 1 else 0), target, V(prime)) && V(res) < 2 * V(prime)
    modifies acc, res
    ensures IsBn(acc) && IsBn(res) && prime[..] == old(prime[..])
    ensures Powered(V(acc), V(res), r, target, V(prime)) && V(res) < 2 * V(prime)
  {
    hide Value, Powered;
    ghost var acc0, res0, p := V(acc), V(res), V(prime);
    PoweredBounds(acc0, res0, 2 * r + (if odd then 1 else 0), target, p);
    ProductFits519(acc0, res0);
    ProductFits519(acc0, acc0);
    if odd {
      BnMultiply(acc, res, prime);
    }
    BnMultiply(acc, acc, prime);
    NormBound(acc[..]);
    NormBound(res[..]);
    PowerTurn(acc0, res0, r, odd, V(acc), V(res), target, p);
  }

  lemma NothingHigh(s: seq<int>)
    ensures High(s, |s|) == 0
  {
  }

  lemma PowerStart(acc: int, r: nat, target: int, p: int)
    requires 0 <= acc < TWO259 && p > 0 && target == Pow(acc, r)
    ensures Powered(acc, 1, r, target, p)
  {
  }

  lemma PoweredBounds(acc: int, res: int, r: int, target: int, p: int)
    requires Powered(acc, res, r, target, p)
    ensures 0 <= acc < TWO259 && 0 <= res < 2 * TWO256
  {
  }

  lemma PowerEnd(acc: int, res: int, target: int, p: int)
    requires Powered(acc, res, 0, target, p)
    ensures p > 0 && res % p == target % p
  {
  }

  /** An exponent as a natural number. */
  ghost function Exponent(s: seq<int>): nat
    requires Norm(s)
  {
    NormBound(s);
    Value(s)
  }

  lemma HalveExponent(limb: int, w: int, h: int)
    requires 0 <= limb < 2 * w && h >= 0
    ensures limb / 2 < w && limb / 2 + w * h >= 0
    ensures limb + 2 * w * h == 2 * (limb / 2 + w * h) + limb % 2
  {
    MulMonotone(0, w, h, h);
    assert 2 * w * h == 2 * (w * h);
  }

  /** x = x^((prime + 1) / 4), fully reduced: a root of x whenever x has one. */
  method BnSqrt(x: array<u32>, prime: array<u32>)
    requires IsBn(x) && Modulus(prime[..]) && x != prime && V(x) < TWO259
    requires Prime(V(prime)) && V(prime) % 4 == 3
    modifies x
    ensures IsBn(x) && 0 <= V(x) < V(prime)
    ensures V(x) % V(prime) == Pow(old(V(x)), (V(prime) + 1) / 4) % V(prime)
    ensures IsSquare(old(V(x)), V(prime)) ==> SquareOf(V(x), old(V(x)), V(prime))
    ensures V(x) == 0 <==> old(V(x)) % V(prime) == 0
  {
    ghost var x0, p := V(x), V(prime);
    var e := new u32[9];
    BnCopy(prime, e);
    BnAddI(e, 1);
    BnRShift(e);
    BnRShift(e);
    assert V(e) == (p + 1) / 4;
    BnPowerMod(x, e, prime, x);
    ghost var r := Pow(x0, (p + 1) / 4);
    BnMod(x, prime);
    ReducedRoot(V(x), r, x0, p);
    NormBound(x[..]);
  }

  lemma ReducedRoot(y: int, r: int, x: int, p: int)
    requires Prime(p) && p % 4 == 3 && y == r % p && r == Pow(x, (p + 1) / 4)
    ensures y % p == r % p
    ensures IsSquare(x, p) ==> SquareOf(y, x, p)
    ensures y == 0 <==> x % p == 0
  {
    if x % p == 0 {
      PowZero(x, (p + 1) / 4, p);
    } else {
      PowNonzero(x, (p + 1) / 4, p);
    }
    DivModUnique(y, 0, y, p);
    CongMul(y, r, y, r, p);
    if IsSquare(x, p) {
      RootOfSquare(x, p);
    }
  }

  /** 0 for multiples of the prime, 1 for the other squares, -1 for the rest (bn_legendre). */
  method BnLegendre(x: array<u32>, prime: array<u32>) returns (r: int)
    requires IsBn(x) && Modulus(prime[..]) && V(x) < TWO259
    requires Prime(V(prime)) && V(prime) % 2 == 1
    ensures r == -1 || r == 0 || r == 1
    ensures r == 0 <==> V(x) % V(prime) == 0
    ensures r == -1 <==> !IsSquare(V(x), V(prime))
  {
    ghost var x0, p := V(x), V(prime);
    var e := new u32[9];
    BnCopy(prime, e);
    BnRShift(e);
    var res := new u32[9];
    BnPowerMod(x, e, prime, res);
    BnMod(res, prime);
    assert V(res) == EulerPower(x0, p) % p;
    LegendreCases(x0, p);
    var isOne := BnIsOne(res);
    var isZero := BnIsZero(res);
    r := if isOne then 1 else if isZero then 0 else -1;
  }

  lemma ZeroCase(x: int, p: int)
    requires Prime(p) && p % 2 == 1 && x % p == 0
    ensures EulerPower(x, p) % p == 0 && IsSquare(x, p)
  {
    PowZero(x, (p - 1) / 2, p);
    MultipleIsZero(0, p);
    assert SquareOf(0, x, p);
  }

  lemma LegendreCases(x: int, p: int)
    requires Prime(p) && p % 2 == 1
    ensures var e := EulerPower(x, p) % p;
            && (x % p == 0 ==> e == 0 && IsSquare(x, p))
            && (x % p != 0 ==> e == if IsSquare(x, p) then 1 else p - 1)
  {
    hide EulerPower, Prime;
    if x % p == 0 {
      ZeroCase(x, p);
    } else {
      EulerCriterion(x, p);
    }
  }
}

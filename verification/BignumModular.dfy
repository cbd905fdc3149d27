/** Lazy reduction, halving and related in-place operations of crypto/bignum.c. */
module BignumModular {
  import opened Arith
  import opened Limbs
  import opened Bignum


  /**
   * x = x - (x / 2^256) * prime, the quotient being read off the top limb. Limbs of x may be any 32-bit words.
   */
  method BnFastMod(x: array<u32>, prime: array<u32>)
    requires x.Length == 9 && Modulus(prime[..]) && x != prime
    modifies x
    ensures IsBn(x) && V(x) < 2 * V(prime)
    ensures V(x) == old(V(x)) - old(x[8]) / TWO24 * V(prime)
    ensures V(x) % V(prime) == old(V(x)) % V(prime)
  {
    ghost var xs, ps := x[..], prime[..];
    var coef: u32 := x[8] / TWO24;
    ghost var d := seq(9, j requires 0 <= j < 9 => (BASE - 1) * 256 + xs[j] - ps[j] * coef);
    var acc: u64 := 256;
    for i := 0 to 9
      invariant acc <= 264
      invariant forall j :: i <= j < 9 ==> x[j] == xs[j]
      invariant forall j :: 0 <= j < i ==> x[j] < BASE
      invariant Val(x[..], i) + acc * Pow(BASE, i) == 256 + Val(d, i)
    {
      BorrowFits(acc, 256, x[i], prime[i], coef);
      ghost var prev := acc;
      assert d[i] == (BASE - 1) * 256 + x[i] - prime[i] * coef;
      acc := acc + ((BASE - 1) * 256 + x[i] - prime[i] * coef);
      Store(x[..], i, prev, acc, d);
      x[i] := acc % BASE;
      acc := acc / BASE;
    }
    FastModFinish(xs, ps, coef, d, x[..], acc);
  }

  lemma FastModFinish(xs: seq<u32>, ps: seq<int>, coef: int, d: seq<int>, out: seq<int>, acc: int)
    requires |xs| == |d| == 9 && Modulus(ps) && coef == xs[8] / TWO24 && Norm(out)
    requires forall j :: 0 <= j < 9 ==> d[j] == (BASE - 1) * 256 + xs[j] - ps[j] * coef
    requires Val(out, 9) + acc * Pow(BASE, 9) == 256 + Val(d, 9)
    ensures Value(out) == Value(xs) - coef * Value(ps) && Value(out) < 2 * Value(ps)
    ensures Value(out) % Value(ps) == Value(xs) % Value(ps)
  {
    hide Val, Pow;
    QuotientFits(xs, coef, Value(ps));
    ValLinear(d, 9, 1, xs, -coef, ps, 256);
    NegatedFactor(coef, Value(ps));
    Finish(out, acc, 256, Value(xs) - coef * Value(ps));
    ModAddMultiple(Value(xs), -coef, Value(ps));
  }

  /** The bias of `m` per limb outweighs the product taken away, and the carry stays near the bias. */
  lemma BorrowFits(acc: int, m: int, x: u32, p: int, coef: int)
    requires 0 <= acc <= m + 8 && 0 <= p < BASE && 0 <= coef < m <= 0x8000_0000
    ensures 0 <= acc + ((BASE - 1) * m + x - p * coef) < (m + 9) * BASE
  {
    MulMonotone(p, BASE - 1, coef, m - 1);
  }

  /** Subtracting the estimated quotient leaves less than twice the modulus, whatever the limbs. */
  lemma QuotientFits(xs: seq<u32>, coef: int, p: int)
    requires |xs| == 9 && coef == xs[8] / TWO24 && InRange(p)
    ensures 0 <= coef < 256 && 0 <= Value(xs) - coef * p < 2 * p
  {
    ValBound(xs, 8, 0xFFFF_FFFF);
    Powers();
    assert Value(xs) == Val(xs, 8) + xs[8] * TWO232;
    MulMonotone(coef, 255, TWO256 - p, TWO224);
    assert coef * p == coef * TWO256 - coef * (TWO256 - p);
  }

  /** x = k * x, partly reduced. */
  method BnMultK(x: array<u32>, k: u8, prime: array<u32>)
    requires IsBn(x) && Modulus(prime[..]) && x != prime && k <= 8
    modifies x
    ensures IsBn(x) && V(x) < 2 * V(prime)
    ensures V(x) % V(prime) == (k * old(V(x))) % V(prime)
  {
    ghost var xs := x[..];
    for i := 0 to 9
      invariant forall j :: 0 <= j < i ==> x[j] == k * xs[j]
      invariant forall j :: i <= j < 9 ==> x[j] == xs[j]
    {
      MulMonotone(k, 8, x[i], BASE - 1);
      x[i] := k * x[i];
    }
    ValLinear(x[..], 9, k, xs, 0, xs, 0);
    BnFastMod(x, prime);
  }

  /** x = x + y, partly reduced; y may be x. */
  method BnAddMod(x: array<u32>, y: array<u32>, prime: array<u32>)
    requires IsBn(x) && IsBn(y) && Modulus(prime[..]) && x != prime
    modifies x
    ensures IsBn(x) && V(x) < 2 * V(prime)
    ensures V(x) % V(prime) == old(V(x) + V(y)) % V(prime)
  {
    ghost var xs, ys := x[..], y[..];
    for i := 0 to 9
      invariant forall j :: 0 <= j < i ==> x[j] == xs[j] + ys[j]
      invariant forall j :: i <= j < 9 ==> x[j] == xs[j] && y[j] == ys[j]
    {
      x[i] := x[i] + y[i];
    }
    ValLinear(x[..], 9, 1, xs, 1, ys, 0);
    BnFastMod(x, prime);
  }

  /** res = x + 2 * prime - y for a partly reduced y; res may be x or y. */
  method BnSubtractMod(x: array<u32>, y: array<u32>, res: array<u32>, prime: array<u32>)
    requires IsBn(x) && IsBn(y) && IsBn(prime) && res.Length == 9 && res != prime
    requires V(y) <= 2 * V(prime)
    requires V(x) + 2 * V(prime) - V(y) < TWO261
    modifies res
    ensures IsBn(res) && V(res) == old(V(x) + 2 * V(prime) - V(y))
  {
    ghost var xs, ys, ps := x[..], y[..], prime[..];
    ghost var d := seq(9, j requires 0 <= j < 9 => xs[j] - ys[j] + 2 * ps[j] + (BASE - 1));
    ghost var e := seq(9, j requires 0 <= j < 9 => xs[j] - ys[j]);
    var acc: u32 := 1;
    for i := 0 to 9
      invariant acc <= 7
      invariant forall j :: i <= j < 9 ==> x[j] == xs[j] && y[j] == ys[j]
      invariant forall j :: 0 <= j < i ==> res[j] < BASE
      invariant Val(res[..], i) + acc * Pow(BASE, i) == 1 + Val(d, i)
    {
      ghost var prev := acc;
      acc := acc + ((BASE - 1) + x[i] + 2 * prime[i] - y[i]);
      Store(res[..], i, prev, acc, d);
      res[i] := acc % BASE;
      acc := acc / BASE;
    }
    ValLinear(e, 9, 1, xs, -1, ys, 0);
    NormBound(xs);
    ValLinear(d, 9, 1, e, 2, ps, 1);
    Finish(res[..], acc, 1, Value(xs) + 2 * Value(ps) - Value(ys));
  }

  /** x = x + prime - y for a machine word y below the low limb of the modulus. */
  method BnSubI(x: array<u32>, y: u32, prime: array<u32>)
    requires IsBn(x) && IsBn(prime) && x != prime
    requires y < prime[0] && V(x) + V(prime) - y < TWO261
    modifies x
    ensures IsBn(x) && V(x) == old(V(x)) + V(prime) - y
  {
    ghost var xs, ps := x[..], prime[..];
    ghost var d := seq(9, j requires 0 <= j < 9 => xs[j] + ps[j]);
    // acc starts as -y in 32-bit arithmetic; the first sum wraps back into range.
    ghost var carry: int := 0;
    carry := carry - y;
    var acc: u32 := if y == 0 then 0 else 0x1_0000_0000 - y;
    for i := 0 to 9
      invariant i == 0 ==> carry + y == 0 && (acc == carry || acc == carry + 0x1_0000_0000)
      invariant i > 0 ==> acc == carry && acc <= 7
      invariant forall j :: i <= j < 9 ==> x[j] == xs[j]
      invariant forall j :: 0 <= j < i ==> x[j] < BASE
      invariant Val(x[..], i) + carry * Pow(BASE, i) == Val(d, i) - y
    {
      WrapBack(acc, carry, x[i] + prime[i]);
      acc := (acc + (x[i] + prime[i])) % 0x1_0000_0000;
      Store(x[..], i, carry, acc, d);
      x[i] := acc % BASE;
      acc := acc / BASE;
      carry := acc;
    }
    SubIFinish(xs, ps, y, d, x[..], carry);
  }

  lemma WrapBack(acc: int, carry: int, s: int)
    requires acc == carry || acc == carry + 0x1_0000_0000
    requires 0 <= carry + s < 0x1_0000_0000
    ensures (acc + s) % 0x1_0000_0000 == carry + s
  {
  }

  lemma SubIFinish(xs: seq<int>, ps: seq<int>, y: int, d: seq<int>, out: seq<int>, acc: int)
    requires Norm(xs) && Norm(ps) && Norm(out) && |d| == 9
    requires forall j :: 0 <= j < 9 ==> d[j] == xs[j] + ps[j]
    requires y < ps[0] && Value(xs) + Value(ps) - y < TWO261
    requires Val(out, 9) + acc * Pow(BASE, 9) == Val(d, 9) - y
    ensures Value(out) == Value(xs) + Value(ps) - y
  {
    ValLinear(d, 9, 1, xs, 1, ps, 0);
    Powers();
    NormBound(xs);
    NormBound(out);
    LowLimbAtMost(ps);
    SplitUnique(Value(out), acc, TWO261, 0, Value(xs) + Value(ps) - y);
  }

  lemma LowLimbAtMost(s: seq<int>)
    requires Norm(s)
    ensures s[0] <= Value(s)
  {
    ValHigh(s, 1);
    HighNonnegative(s, 1);
    Powers();
    assert Val(s, 1) == s[0];
  }

  /** x = 2 * prime - x mod prime, or prime + x mod prime, for a partly reduced x. */
  method BnCNegate(cond: bool, x: array<u32>, prime: array<u32>)
    requires IsBn(x) && IsBn(prime) && x != prime
    requires 0 < V(prime) < TWO261 / 2 && V(x) < 2 * V(prime)
    modifies x
    ensures IsBn(x)
    ensures cond ==> V(x) == 2 * V(prime) - old(V(x)) % V(prime)
    ensures !cond ==> V(x) == V(prime) + old(V(x)) % V(prime)
  {
    BnMod(x, prime);
    ghost var xs, ps := x[..], prime[..];
    ghost var d1 := seq(9, j requires 0 <= j < 9 => 2 * ps[j] - xs[j] + (BASE - 1));
    ghost var d2 := seq(9, j requires 0 <= j < 9 => ps[j] + xs[j]);
    ghost var d := if cond then d1 else d2;
    ghost var start := if cond then 1 else 0;
    var acc1: u32, acc2: u32 := 1, 0;
    for i := 0 to 9
      invariant acc1 <= 7 && acc2 <= 7
      invariant forall j :: i <= j < 9 ==> x[j] == xs[j]
      invariant forall j :: 0 <= j < i ==> x[j] < BASE
      invariant Val(x[..], i) + (if cond then acc1 else acc2) * Pow(BASE, i) == start + Val(d, i)
    {
      ghost var prev := if cond then acc1 else acc2;
      acc1 := acc1 + ((BASE - 1) + 2 * prime[i] - x[i]);
      acc2 := acc2 + (prime[i] + x[i]);
      ghost var acc := if cond then acc1 else acc2;
      Store(x[..], i, prev, acc, d);
      x[i] := (if cond then acc1 else acc2) % BASE;
      acc1 := acc1 / BASE;
      acc2 := acc2 / BASE;
    }
    NormBound(xs);
    if cond {
      ValLinear(d, 9, 2, ps, -1, xs, 1);
      Finish(x[..], acc1, 1, 2 * Value(ps) - Value(xs));
    } else {
      ValLinear(d, 9, 1, ps, 1, xs, 0);
      Finish(x[..], acc2, 0, Value(ps) + Value(xs));
    }
  }
}

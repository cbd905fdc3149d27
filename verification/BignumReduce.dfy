/** Reduction of an 18-limb product, one limb at a time, and modular multiplication (crypto/bignum.c). */
module BignumReduce {
  import opened Arith
  import opened Limbs
  import opened Bignum
  import opened BignumMultiply
  import opened BignumModular

  /** The limbs from position `d` on are a window of `n` limbs and what lies above it. */
  lemma {:induction false} WindowHigh(s: seq<int>, d: nat, n: nat)
    requires d + n <= |s|
    ensures High(s, d) == Val(s[d..d + n], n) + Pow(BASE, n) * High(s, d + n)
  {
    if n > 0 {
      WindowHigh(s, d, n - 1);
      ValPrefix(s[d..d + n], s[d..d + n - 1], n - 1);
      WindowStep(s[d + n - 1], High(s, d + n), Pow(BASE, n - 1));
    }
  }

  lemma WindowStep(x: int, h: int, p: int)
    ensures p * (x + BASE * h) == x * p + BASE * p * h
  {
  }

  lemma {:induction false} HighSame(s: seq<int>, t: seq<int>, n: nat)
    requires n <= |s| == |t| && s[n..] == t[n..]
    ensures High(s, n) == High(t, n)
    decreases |s| - n
  {
    if n < |s| {
      assert s[n] == s[n..][0] && t[n] == t[n..][0];
      assert s[n + 1..] == s[n..][1..] && t[n + 1..] == t[n..][1..];
      HighSame(s, t, n + 1);
    }
  }

  function Coef(s: seq<int>, d: nat): int
    requires d + 10 <= |s|
  {
    s[d + 8] / TWO24 + s[d + 9] * 32
  }

  /** The two shifted limbs are the quotient by 2^256 * BASE^d, and leave less than twice the modulus. */
  lemma CoefFits(s: seq<int>, d: nat, p: int)
    requires |s| == 18 && d <= 8 && Digits(s) && InRange(p)
    requires Value(s) < TWO31 * TWO256 * Pow(BASE, d)
    ensures High(s, d + 10) == 0 && s[d + 9] < 0x400_0000
    ensures 0 <= Coef(s, d) < TWO31 && 0 <= High(s, d) - Coef(s, d) * p < 2 * p
  {
    hide High, Value, Pow, InRange;
    HighBelow(s, d, TWO31 * TWO256);
    HighNonnegative(s, d + 10);
    WindowHigh(s, d, 8);
    DigitsBound(s[d..d + 8], 8);
    Powers();
    TwoLimbs(s, d + 8);
    TakeQuotient(High(s, d), High(s, d + 8), Coef(s, d), p);
  }

  lemma TwoLimbs(s: seq<int>, n: nat)
    requires n + 2 <= |s|
    ensures High(s, n) == s[n] + BASE * (s[n + 1] + BASE * High(s, n + 2))
  {
  }

  lemma HighBelow(s: seq<int>, d: nat, b: nat)
    requires d <= |s| && Digits(s) && Value(s) < b * Pow(BASE, d)
    ensures High(s, d) < b
  {
    ValHigh(s, d);
    DigitsBound(s, d);
    if High(s, d) >= b {
      MulMonotone(b, High(s, d), Pow(BASE, d), Pow(BASE, d));
    }
  }

  lemma TakeQuotient(h: int, top: int, coef: int, p: int)
    requires InRange(p) && 0 <= h - TWO232 * top < TWO232
    requires 0 <= coef < TWO31 && coef == top / TWO24
    ensures 0 <= h - coef * p < 2 * p
  {
    MulMonotone(coef, TWO31 - 1, TWO256 - p, TWO224);
    assert coef * p == coef * TWO256 - coef * (TWO256 - p);
  }

  /** What the loop adds at every limb: the difference, with a bias that keeps it positive. */
  ghost function Addends(w: seq<int>, ps: seq<int>, coef: int): (e: seq<int>)
    requires |w| == |ps| == 9
    ensures |e| == 9
  {
    seq(9, j requires 0 <= j < 9 => (BASE - 1) * TWO31 + w[j] - ps[j] * coef)
  }

  /** res = res - (res / (2^256 * BASE^d)) * prime * BASE^d. */
  method BnMultiplyReduceStep(res: array<u32>, prime: array<u32>, d: nat) returns (ghost coef: nat)
    requires res.Length == 18 && d <= 8 && Digits(res[..]) && Modulus(prime[..]) && res != prime
    requires Value(res[..]) < TWO31 * TWO256 * Pow(BASE, d)
    modifies res
    ensures Digits(res[..])
    ensures Value(res[..]) == old(Value(res[..])) - coef * V(prime) * Pow(BASE, d)
    ensures Value(res[..]) < 2 * V(prime) * Pow(BASE, d)
  {
    ghost var rs, ps := res[..], prime[..];
    CoefFits(rs, d, Value(ps));
    var c: u32 := res[d + 8] / TWO24 + res[d + 9] * 32;
    coef := c;
    ghost var e := Addends(rs[d..d + 9], ps, c);
    var acc: u64 := TWO31;
    for i := 0 to 9
      invariant acc <= TWO31 + 8
      invariant prime[..] == ps
      invariant forall j :: 0 <= j < 18 ==> res[j] < BASE
      invariant forall j :: 0 <= j < d || d + i <= j < 18 ==> res[j] == rs[j]
      invariant Val(res[d..d + 9], i) + acc * Pow(BASE, i) == TWO31 + Val(e, i)
    {
      ghost var prev: int := acc;
      ghost var w: seq<int> := res[d..d + 9];
      BorrowFits(acc, TWO31, res[d + i], prime[i], c);
      acc := acc + ((BASE - 1) * TWO31 + res[d + i] - prime[i] * (c as u64));
      StoreLimb(w, i, prev, acc, e[i]);
      res[d + i] := acc % BASE;
      assert res[d..d + 9] == w[i := acc % BASE];
      acc := acc / BASE;
    }
    StepFinish(rs, d, ps, c, e, res[..], acc);
    res[d + 9] := 0;
  }

  lemma StepFinish(rs: seq<int>, d: nat, ps: seq<int>, coef: int, e: seq<int>, s: seq<int>, acc: int)
    requires |rs| == |s| == 18 && d <= 8 && Digits(rs) && Digits(s) && Modulus(ps)
    requires High(rs, d + 10) == 0 && 0 <= High(rs, d) - coef * Value(ps) < 2 * Value(ps)
    requires forall j :: 0 <= j < d || d + 9 <= j < 18 ==> s[j] == rs[j]
    requires e == Addends(rs[d..d + 9], ps, coef)
    requires Val(s[d..d + 9], 9) + acc * Pow(BASE, 9) == TWO31 + Val(e, 9)
    ensures var t := s[d + 9 := 0];
            && Digits(t)
            && Value(t) == Value(rs) - coef * Value(ps) * Pow(BASE, d)
            && Value(t) < 2 * Value(ps) * Pow(BASE, d)
  {
    hide Pow, Val;
    var t, q, h, cp := s[d + 9 := 0], Pow(BASE, d), High(rs, d), coef * Value(ps);
    assert High(t, d) == h - cp by {
      assert t[d..d + 9] == s[d..d + 9] && t[d + 10..] == rs[d + 10..];
      HighSame(t, rs, d + 10);
      WindowHigh(t, d, 9);
      WindowReduced(rs, d, ps, coef, e, s[d..d + 9], acc);
    }
    assert Value(t) == Val(rs, d) + q * (h - cp) by {
      ValPrefix(rs, t, d);
      ValHigh(t, d);
    }
    ValHigh(rs, d);
    DigitsBound(rs, d);
    BelowDouble(Val(rs, d), h - cp, Value(ps), q);
    TakeFrom(q, h, cp);
  }

  lemma TakeFrom(q: int, h: int, cp: int)
    ensures q * (h - cp) == q * h - cp * q
  {
  }

  /** The window receives the difference, and the bias is carried out of it. */
  lemma WindowReduced(rs: seq<int>, d: nat, ps: seq<int>, coef: int, e: seq<int>, w: seq<int>, acc: int)
    requires |rs| == 18 && d <= 8 && Modulus(ps) && Norm(w)
    requires High(rs, d + 10) == 0 && 0 <= High(rs, d) - coef * Value(ps) < 2 * Value(ps)
    requires e == Addends(rs[d..d + 9], ps, coef)
    requires Val(w, 9) + acc * Pow(BASE, 9) == TWO31 + Val(e, 9)
    ensures Val(w, 9) == High(rs, d) - coef * Value(ps)
  {
    var top, cp, low := rs[d + 9], coef * Value(ps), Val(rs[d..d + 9], 9);
    assert Val(e, 9) == low - cp + TWO31 * (Pow(BASE, 9) - 1) by {
      AddendsValue(rs[d..d + 9], ps, coef, e);
    }
    assert High(rs, d) == low + Pow(BASE, 9) * top by {
      WindowHigh(rs, d, 9);
      assert High(rs, d + 9) == top;
    }
    Powers();
    NormBound(w);
    SplitUnique(Val(w, 9), acc + top - TWO31, TWO261, 0, High(rs, d) - cp);
  }

  lemma AddendsValue(w: seq<int>, ps: seq<int>, coef: int, e: seq<int>)
    requires |w| == |ps| == 9 && e == Addends(w, ps, coef)
    ensures Val(e, 9) == Value(w) - coef * Value(ps) + TWO31 * (Pow(BASE, 9) - 1)
  {
    forall j | 0 <= j < 9
      ensures e[j] == 1 * w[j] + -coef * ps[j] + TWO31 * (BASE - 1)
    {
      NegatedFactor(coef, ps[j]);
    }
    ValLinear(e, 9, 1, w, -coef, ps, TWO31);
    NegatedFactor(coef, Value(ps));
  }

  lemma BelowDouble(low: int, r: int, p: int, q: int)
    requires 0 <= low < q && 0 <= r < 2 * p
    ensures 0 <= low + r * q < 2 * p * q
  {
    MulMonotone(r, 2 * p - 1, q, q);
  }

  /** Partly reduces an 18-limb number below 2^519. */
  method BnReduce(x: array<u32>, prime: array<u32>)
    requires x.Length == 18 && Digits(x[..]) && Modulus(prime[..]) && x != prime
    requires Value(x[..]) < TWO519
    modifies x
    ensures Digits(x[..]) && Value(x[..]) < 2 * V(prime)
    ensures Value(x[..]) % V(prime) == old(Value(x[..])) % V(prime)
  {
    ghost var p, x0 := V(prime), Value(x[..]);
    Powers();
    var i := 9;
    while i > 0
      invariant 0 <= i <= 9 && prime[..] == old(prime[..])
      invariant Digits(x[..]) && Value(x[..]) % p == x0 % p
      invariant i > 0 ==> Value(x[..]) < TWO31 * TWO256 * Pow(BASE, i - 1)
      invariant i < 9 ==> Value(x[..]) < 2 * p * Pow(BASE, i)
    {
      i := i - 1;
      ghost var before := Value(x[..]);
      ghost var coef := BnMultiplyReduceStep(x, prime, i);
      StepCongruent(before, Value(x[..]), coef, p, Pow(BASE, i));
      if i > 0 {
        NextRound(p, i);
      }
    }
  }

  lemma StepCongruent(before: int, after: int, coef: int, p: int, q: int)
    requires p > 0 && after == before - coef * p * q
    ensures after % p == before % p
  {
    assert coef * p * q == coef * q * p;
    ModAddMultiple(after, coef * q, p);
  }

  lemma NextRound(p: int, i: nat)
    requires 0 <= p <= TWO256 && i > 0
    ensures 2 * p * Pow(BASE, i) <= TWO31 * TWO256 * Pow(BASE, i - 1)
  {
    PowPositive(BASE, i - 1);
    MulMonotone(2 * p * BASE, TWO31 * TWO256, Pow(BASE, i - 1), Pow(BASE, i - 1));
    assert 2 * p * Pow(BASE, i) == 2 * p * BASE * Pow(BASE, i - 1);
  }

  method BnCopyLower(x: array<u32>, y: array<u32>)
    requires x.Length == 18 && y.Length == 9 && Digits(x[..]) && Value(x[..]) < TWO261
    modifies y
    ensures IsBn(y) && V(y) == old(Value(x[..]))
  {
    ghost var xs := x[..];
    for i := 0 to 9
      invariant x[..] == xs
      invariant forall j :: 0 <= j < i ==> y[j] == xs[j]
    {
      y[i] := x[i];
    }
    ValPrefix(xs, y[..], 9);
    Powers();
    HighBelow(xs, 9, 1);
    HighNonnegative(xs, 9);
    ValHigh(xs, 9);
  }

  /** x = k * x, partly reduced; k may be x. */
  method BnMultiply(k: array<u32>, x: array<u32>, prime: array<u32>)
    requires IsBn(k) && IsBn(x) && Modulus(prime[..]) && x != prime
    requires V(k) * V(x) < TWO519
    modifies x
    ensures IsBn(x) && V(x) < 2 * V(prime)
    ensures V(x) % V(prime) == old(V(k) * V(x)) % V(prime)
  {
    var res := new u32[18];
    BnMultiplyLong(k, x, res);
    BnReduce(res, prime);
    BnCopyLower(res, x);
  }
}

/** Shifts and exact divisions by powers of two modulo an odd prime (crypto/bignum.c). */
module BignumHalf {
  import opened Arith
  import opened Limbs
  import opened Bignum

  const HALF: int := 0x1000_0000

  /** A limb shifted left by one, with the top bit of the limb below moving in. */
  function LimbDouble(limb: int, below: int): int { 2 * limb % BASE + below / HALF }

  /** A limb shifted right by one, with the low bit of the limb above moving in. */
  function LimbHalf(limb: int, above: int): int { limb / 2 + above % 2 * HALF }

  lemma ShiftedLimbFits(limb: int, other: int)
    requires 0 <= limb < BASE && 0 <= other < BASE
    ensures 0 <= LimbDouble(limb, other) < BASE && 0 <= LimbHalf(limb, other) < BASE
  {
  }

  /** x = 2 * x, dropping what leaves the top limb. */
  method BnLShift(x: array<u32>)
    requires IsBn(x)
    modifies x
    ensures IsBn(x) && V(x) == (2 * old(V(x))) % TWO261
  {
    ghost var xs := x[..];
    var i := 8;
    while i > 0
      invariant 0 <= i <= 8
      invariant forall j :: 0 <= j <= i ==> x[j] == xs[j]
      invariant forall j :: i < j < 9 ==> x[j] == LimbDouble(xs[j], xs[j - 1])
      invariant forall j :: i < j < 9 ==> x[j] < BASE
    {
      ShiftedLimbFits(x[i], x[i - 1]);
      x[i] := LimbDouble(x[i], x[i - 1]);
      i := i - 1;
    }
    ShiftedLimbFits(x[0], 0);
    x[0] := LimbDouble(x[0], 0);
    DoubleFinish(xs, x[..]);
  }

  lemma DoubleFinish(s: seq<int>, t: seq<int>)
    requires Norm(s) && Norm(t) && t[0] == LimbDouble(s[0], 0)
    requires forall j :: 1 <= j < 9 ==> t[j] == LimbDouble(s[j], s[j - 1])
    ensures Value(t) == 2 * Value(s) % TWO261
  {
    DoubledLimbs(s, t, 9);
    Powers();
    NormBound(t);
    DivModUnique(2 * Value(s), s[8] / HALF, Value(t), TWO261);
  }

  lemma {:induction false} DoubledLimbs(s: seq<int>, t: seq<int>, n: nat)
    requires 1 <= n <= |s| && n <= |t| && Digits(s)
    requires t[0] == LimbDouble(s[0], 0)
    requires forall j :: 1 <= j < n ==> t[j] == LimbDouble(s[j], s[j - 1])
    ensures Val(t, n) + (s[n - 1] / HALF) * Pow(BASE, n) == 2 * Val(s, n)
  {
    var below := if n > 1 then s[n - 2] else 0;
    if n > 1 {
      DoubledLimbs(s, t, n - 1);
    }
    DoubleStep(s[n - 1], below, Pow(BASE, n - 1));
  }

  lemma DoubleStep(limb: int, below: int, p: int)
    ensures LimbDouble(limb, below) * p + (limb / HALF) * (BASE * p) == 2 * (limb * p) + (below / HALF) * p
  {
    var a, b, c := 2 * limb % BASE, limb / HALF, below / HALF;
    assert 2 * limb == a + BASE * b;
    assert (a + c) * p == a * p + c * p;
    assert b * (BASE * p) == (BASE * b) * p;
    assert (a + BASE * b) * p == a * p + (BASE * b) * p;
    assert 2 * (limb * p) == (2 * limb) * p;
  }

  /** x = floor(x / 2). */
  method BnRShift(x: array<u32>)
    requires IsBn(x)
    modifies x
    ensures IsBn(x) && V(x) == old(V(x)) / 2
  {
    ghost var xs := x[..];
    for i := 0 to 8
      invariant forall j :: i <= j < 9 ==> x[j] == xs[j]
      invariant forall j :: 0 <= j < i ==> x[j] == LimbHalf(xs[j], xs[j + 1])
      invariant forall j :: 0 <= j < i ==> x[j] < BASE
    {
      ShiftedLimbFits(x[i], x[i + 1]);
      x[i] := LimbHalf(x[i], x[i + 1]);
    }
    ShiftedLimbFits(x[8], 0);
    x[8] := LimbHalf(x[8], 0);
    HalvedLimbs(xs, x[..], 0);
    ValHigh(xs, 0);
    ValHigh(x[..], 0);
  }

  lemma {:induction false} HalvedLimbs(s: seq<int>, t: seq<int>, n: nat)
    requires n < |s| == |t|
    requires forall j :: n <= j < |s| - 1 ==> t[j] == LimbHalf(s[j], s[j + 1])
    requires t[|s| - 1] == LimbHalf(s[|s| - 1], 0)
    ensures High(s, n) == 2 * High(t, n) + s[n] % 2
    decreases |s| - n
  {
    if n < |s| - 1 {
      HalvedLimbs(s, t, n + 1);
    } else {
      assert High(s, n) == s[n] + BASE * High(s, n + 1);
      assert High(t, n) == t[n] + BASE * High(t, n + 1);
    }
  }

  /** x = x / 2 modulo an odd prime: half of x, or of x + prime when x is odd. */
  method BnMultHalf(x: array<u32>, prime: array<u32>)
    requires IsBn(x) && IsBn(prime) && x != prime
    requires V(prime) % 2 == 1 && V(x) + V(prime) < TWO261
    modifies x
    ensures IsBn(x)
    ensures 2 * V(x) == old(V(x)) + (if old(V(x)) % 2 == 1 then V(prime) else 0)
  {
    hide Val, Pow, Value;
    ghost var xs, ps := x[..], prime[..];
    ParityOfLow(xs);
    ParityOfLow(ps);
    var odd := x[0] % 2 == 1;
    ghost var d := seq(9, j requires 0 <= j < 9 => xs[j] + Masked(ps[j], odd));
    var acc: u32 := (x[0] + Masked(prime[0], odd)) / 2;
    ghost var w: int := acc;
    HalfStart(xs, d, acc, prime[0], ps, odd);
    for i := 0 to 8
      invariant acc < 2 * BASE
      invariant forall j :: i < j < 9 ==> x[j] == xs[j]
      invariant forall j :: 0 <= j < i ==> x[j] < BASE
      invariant w == Val(x[..], i) + acc * Pow(BASE, i)
      invariant 2 * w == Val(d, i + 1)
    {
      var temp: u32 := x[i + 1] + Masked(prime[i + 1], odd);
      ghost var prev := acc;
      HalfBounds(acc, temp);
      acc := acc + temp % 2 * HALF;
      w := HalfStep(x[..], i, prev, acc, d, temp, w);
      x[i] := acc % BASE;
      acc := acc / BASE;
      acc := acc + temp / 2;
    }
    HalfFinish(xs, ps, odd, d, x[..], acc);
    x[8] := acc;
  }

  lemma HalfStart(xs: seq<int>, d: seq<int>, acc: int, low: int, ps: seq<int>, odd: bool)
    requires |xs| == |ps| == |d| == 9 && ps[0] == low && Digits(xs) && Digits(ps) && low % 2 == 1
    requires d[0] == xs[0] + Masked(low, odd) && (odd <==> xs[0] % 2 == 1) && acc == d[0] / 2
    ensures 0 <= acc < 2 * BASE && acc == Val(xs, 0) + acc * Pow(BASE, 0) && 2 * acc == Val(d, 1)
  {
    assert Val(d, 1) == d[0] * Pow(BASE, 0) == d[0];
  }

  lemma HalfBounds(acc: int, temp: int)
    requires 0 <= acc < 2 * BASE && 0 <= temp < 2 * BASE
    ensures acc + temp % 2 * HALF < 0x1_0000_0000 && 0 <= (acc + temp % 2 * HALF) / BASE + temp / 2 < 2 * BASE
  {
  }

  lemma HalfStep(s: seq<int>, i: nat, acc: int, t: int, d: seq<int>, temp: int, w: int) returns (w': int)
    requires i < |s| && i + 1 < |d| && temp == d[i + 1] && t == acc + temp % 2 * HALF
    requires w == Val(s, i) + acc * Pow(BASE, i) && 2 * w == Val(d, i + 1)
    ensures w' == Val(s[i := t % BASE], i + 1) + (t / BASE + temp / 2) * Pow(BASE, i + 1)
    ensures 2 * w' == Val(d, i + 2)
  {
    var p, h := Pow(BASE, i), temp % 2 * HALF;
    StoreLimb(s, i, acc, t, h);
    w' := w + h * p + (temp / 2) * (BASE * p);
    assert (t / BASE + temp / 2) * (BASE * p) == (t / BASE) * (BASE * p) + (temp / 2) * (BASE * p);
    assert temp == temp % 2 + 2 * (temp / 2);
    assert temp * (BASE * p) == (temp % 2) * (BASE * p) + 2 * ((temp / 2) * (BASE * p));
    assert 2 * (h * p) == (temp % 2) * (BASE * p);
  }

  lemma HalfFinish(xs: seq<int>, ps: seq<int>, odd: bool, d: seq<int>, s: seq<int>, acc: int)
    requires Norm(xs) && Norm(ps) && |s| == |d| == 9
    requires forall j :: 0 <= j < 9 ==> d[j] == xs[j] + Masked(ps[j], odd)
    requires Value(xs) + Value(ps) < TWO261
    requires forall j :: 0 <= j < 8 ==> 0 <= s[j] < BASE
    requires acc >= 0 && 2 * (Val(s, 8) + acc * Pow(BASE, 8)) == Val(d, 9)
    ensures var out := s[8 := acc];
            Norm(out) && 2 * Value(out) == Value(xs) + Masked(Value(ps), odd)
  {
    ValPrefix(s, s[8 := acc], 8);
    ValLinear(d, 9, 1, xs, if odd then 1 else 0, ps, 0);
    NormBound(xs);
    NormBound(ps);
    ValBound(s, 8, BASE - 1);
    Powers();
  }
}

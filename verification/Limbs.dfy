/** Little-endian numbers in base 2^29, the representation behind `bignum256` and `bignum512`. */
module Limbs {
  import opened Arith

  const BASE: int := 0x2000_0000
  const TWO232: int := 0x100000000_00000000_00000000_00000000_00000000_00000000_00000000_00
  const TWO24: int := 0x100_0000
  const TWO256: int := 0x1_00000000_00000000_00000000_00000000_00000000_00000000_00000000_00000000
  const TWO224: int := 0x1_00000000_00000000_00000000_00000000_00000000_00000000_00000000
  const TWO261: int := 32 * TWO256
  const TWO519: int := 4 * TWO261 * TWO256

  /** The number held by the first `n` limbs of `s`. */
  function Val(s: seq<int>, n: nat): int
    requires n <= |s|
  {
    if n == 0 then 0 else Val(s, n - 1) + s[n - 1] * Pow(BASE, n - 1)
  }

  /** The number held by the limbs of `s` from position `n` on. */
  function High(s: seq<int>, n: nat): int
    requires n <= |s|
    decreases |s| - n
  {
    if n == |s| then 0 else s[n] + BASE * High(s, n + 1)
  }

  function Value(s: seq<int>): int { Val(s, |s|) }

  /** A limb, or zero (limb & mask for a mask of all ones or none). */
  function Masked(limb: int, mask: bool): int { if mask then limb else 0 }

  ghost predicate Digits(s: seq<int>)
  {
    forall j :: 0 <= j < |s| ==> 0 <= s[j] < BASE
  }

  /** A normalized bignum256. */
  ghost predicate Norm(s: seq<int>) { |s| == 9 && Digits(s) }

  /** What `bn_multiply` and its relatives ask of a modulus. */
  predicate InRange(p: int) { TWO256 - TWO224 <= p <= TWO256 }

  ghost predicate Modulus(p: seq<int>) { Norm(p) && InRange(Value(p)) }

  lemma Powers()
    ensures Pow(BASE, 1) == BASE
    ensures Pow(BASE, 8) == TWO232
    ensures Pow(BASE, 9) == TWO261
  {
    assert Pow(BASE, 4) == BASE * BASE * BASE * BASE;
    assert Pow(BASE, 8) == BASE * (BASE * (BASE * (BASE * Pow(BASE, 4))));
  }

  lemma {:induction false} ValPrefix(s: seq<int>, t: seq<int>, n: nat)
    requires n <= |s| && n <= |t|
    requires forall j :: 0 <= j < n ==> s[j] == t[j]
    ensures Val(s, n) == Val(t, n)
  {
    if n > 0 {
      ValPrefix(s, t, n - 1);
    }
  }

  /** Limbs of at most `m` give at most `m` times the repunit. */
  lemma {:induction false} ValBound(s: seq<int>, n: nat, m: int)
    requires n <= |s| && forall j :: 0 <= j < n ==> 0 <= s[j] <= m
    ensures 0 <= Val(s, n) && Val(s, n) * (BASE - 1) <= m * (Pow(BASE, n) - 1)
  {
    if n > 0 {
      ValBound(s, n - 1, m);
      PowPositive(BASE, n - 1);
      MulMonotone(s[n - 1], m, Pow(BASE, n - 1), Pow(BASE, n - 1));
      assert m * (Pow(BASE, n) - 1) == m * (Pow(BASE, n - 1) - 1) + (BASE - 1) * (m * Pow(BASE, n - 1));
    }
  }

  lemma DigitsBound(s: seq<int>, n: nat)
    requires n <= |s| && Digits(s)
    ensures 0 <= Val(s, n) < Pow(BASE, n)
  {
    ValBound(s, n, BASE - 1);
  }

  lemma NormBound(s: seq<int>)
    requires Norm(s)
    ensures 0 <= Value(s) < TWO261
  {
    DigitsBound(s, 9);
    Powers();
  }

  lemma {:induction false} ValHigh(s: seq<int>, n: nat)
    requires n <= |s|
    ensures Val(s, n) + Pow(BASE, n) * High(s, n) == Value(s)
    decreases |s| - n
  {
    if n < |s| {
      ValHigh(s, n + 1);
      assert Pow(BASE, n) * (s[n] + BASE * High(s, n + 1)) == s[n] * Pow(BASE, n) + Pow(BASE, n + 1) * High(s, n + 1);
    }
  }

  lemma {:induction false} HighNonnegative(s: seq<int>, n: nat)
    requires n <= |s| && Digits(s)
    ensures High(s, n) >= 0
    decreases |s| - n
  {
    if n < |s| {
      HighNonnegative(s, n + 1);
    }
  }

  lemma HighUnfold(s: seq<int>, i: nat)
    requires i < |s|
    ensures High(s, i) == s[i] + BASE * High(s, i + 1)
  {
  }

  lemma LowBits(s: seq<int>)
    requires Norm(s)
    ensures s[0] % 32 == Value(s) % 32
  {
    hide Value;
    ValHigh(s, 0);
    ModAddMultiple(s[0], TWO24 * High(s, 1), 32);
  }

  lemma TopLimbOf(s: seq<int>)
    requires Norm(s) && Value(s) < TWO256
    ensures s[8] < 0x100_0000
  {
    DigitsBound(s, 8);
    Powers();
    assert Value(s) == Val(s, 8) + s[8] * TWO232;
  }

  /** Storing the low limb of an accumulator and carrying the rest keeps its weight. */
  lemma Carry(acc: int, n: nat)
    ensures (acc % BASE) * Pow(BASE, n) + (acc / BASE) * Pow(BASE, n + 1) == acc * Pow(BASE, n)
  {
    var p := Pow(BASE, n);
    assert (acc / BASE) * (BASE * p) == (acc / BASE * BASE) * p;
    assert (acc % BASE) * p + (acc / BASE * BASE) * p == (acc % BASE + acc / BASE * BASE) * p;
  }

  /**
   * One turn of a carry loop: limb `i` of `s` receives the low part of `t`, the accumulator plus `e`; the rest
   * is carried on. What has been stored and carried grows by `e` at the weight of that limb.
   */
  lemma StoreLimb(s: seq<int>, i: nat, acc: int, t: int, e: int)
    requires i < |s| && t == acc + e
    ensures Val(s[i := t % BASE], i + 1) + (t / BASE) * Pow(BASE, i + 1)
            == Val(s, i) + acc * Pow(BASE, i) + e * Pow(BASE, i)
  {
    ValPrefix(s, s[i := t % BASE], i);
    Carry(t, i);
    assert t * Pow(BASE, i) == acc * Pow(BASE, i) + e * Pow(BASE, i);
  }

  /** The same turn with the addends given as a sequence. */
  lemma Store(s: seq<int>, i: nat, acc: int, t: int, d: seq<int>)
    requires i < |s| && i < |d| && t == acc + d[i]
    ensures Val(s[i := t % BASE], i + 1) + (t / BASE) * Pow(BASE, i + 1) - Val(d, i + 1)
            == Val(s, i) + acc * Pow(BASE, i) - Val(d, i)
  {
    StoreLimb(s, i, acc, t, d[i]);
  }

  /** The value of a limb-wise combination, with a bias of `m` borrowed from above at every limb. */
  lemma {:induction false} ValLinear(d: seq<int>, n: nat, a: int, x: seq<int>, b: int, y: seq<int>, m: int)
    requires n <= |d| && n <= |x| && n <= |y|
    requires forall j :: 0 <= j < n ==> d[j] == a * x[j] + b * y[j] + m * (BASE - 1)
    ensures Val(d, n) == a * Val(x, n) + b * Val(y, n) + m * (Pow(BASE, n) - 1)
  {
    if n > 0 {
      ValLinear(d, n - 1, a, x, b, y, m);
      LinearStep(a, x[n - 1], Val(x, n - 1), b, y[n - 1], Val(y, n - 1), m, Pow(BASE, n - 1));
    }
  }

  lemma LinearStep(a: int, x: int, u: int, b: int, y: int, v: int, m: int, p: int)
    ensures a * u + b * v + m * (p - 1) + (a * x + b * y + m * (BASE - 1)) * p
         == a * (u + x * p) + b * (v + y * p) + m * (BASE * p - 1)
  {
    assert (a * x + b * y + m * (BASE - 1)) * p == a * (x * p) + b * (y * p) + m * (BASE * p) - m * p;
    assert a * (u + x * p) == a * u + a * (x * p);
    assert b * (v + y * p) == b * v + b * (y * p);
    assert m * (p - 1) == m * p - m;
    assert m * (BASE * p - 1) == m * (BASE * p) - m;
  }

  /** A value below the weight of its limbs leaves no other way to split it. */
  lemma SplitUnique(v: int, acc: int, w: int, bias: int, r: int)
    requires 0 <= v < w && 0 <= r < w
    requires v + acc * w == bias * w + r
    ensures v == r && acc == bias
  {
    DivModUnique(v + acc * w, acc, v, w);
    DivModUnique(v + acc * w, bias, r, w);
  }

  /** What a carry loop over nine limbs leaves behind: the combination itself, wrapped if it was negative. */
  lemma Finish(out: seq<int>, acc: int, m: int, r: int)
    requires Norm(out) && Val(out, 9) + acc * Pow(BASE, 9) == m * Pow(BASE, 9) + r
    requires -TWO261 <= r < TWO261
    ensures Value(out) == if r >= 0 then r else r + TWO261
  {
    Powers();
    NormBound(out);
    if r >= 0 {
      SplitUnique(Value(out), acc, TWO261, m, r);
    } else {
      SplitUnique(Value(out), acc, TWO261, m - 1, r + TWO261);
    }
  }
}

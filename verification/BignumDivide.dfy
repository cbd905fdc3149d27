/** Division by 2^29 modulo an odd number (crypto/bignum.c). */
module BignumDivide {
  import opened Arith
  import opened Limbs
  import opened Bignum

  lemma PowerOfTwo32()
    ensures Pow(2, 32) == WORD
  {
    PowAdd(2, 16, 16);
    PowAdd(2, 8, 8);
    assert Pow(2, 8) == 2 * (2 * (2 * (2 * Pow(2, 4))));
  }

  lemma ModOfPower(x: int, k: nat, n: nat)
    requires k <= n
    ensures Pow(2, k) > 0 && Pow(2, n) > 0
    ensures x % Pow(2, n) % Pow(2, k) == x % Pow(2, k)
  {
    PowPositive(2, k);
    PowPositive(2, n - k);
    PowAdd(2, n - k, k);
    ModOfFactor(x, Pow(2, n - k), Pow(2, k));
  }

  /** Masking a wrapped word keeps it modulo 2^n. */
  lemma MaskIsModulus(x: int, n: nat)
    requires n <= 32
    ensures 0 < Pow(2, n) <= WORD && x % WORD % Pow(2, n) == x % Pow(2, n)
  {
    PowMonotone(2, n, 32);
    PowerOfTwo32();
    ModOfPower(x, n, 32);
  }

  /** With a * acc = 1 - F, one step gives a * (acc * (1 + g)) = 1 - g^2 for g = F mod m. */
  lemma NewtonStep(a: int, acc: int, f2: int, m: int)
    requires m > 0 && (a * acc) % m == (1 - f2) % m
    ensures var g := f2 % m;
            (a * (acc * (1 + g) % m)) % m == (1 - g * g) % m
  {
    CongSub(1, 1, f2 % m, f2, m);
    NewtonProduct(a, acc, f2 % m, a * acc, acc * (1 + f2 % m), m);
  }

  lemma NewtonProduct(a: int, acc: int, g: int, t: int, q: int, m: int)
    requires m > 0 && t == a * acc && q == acc * (1 + g) && t % m == (1 - g) % m
    ensures (a * (q % m)) % m == (1 - g * g) % m
  {
    MulAssoc(a, acc, 1 + g);
    CongMul(t, 1 - g, 1 + g, 1 + g, m);
    SquareDifference(g);
    ModMul(a, q, m);
  }

  lemma SquareDifference(g: int)
    ensures (1 - g) * (1 + g) == 1 - g * g
  {
  }

  /** If 2^i divides f, then 2^(2i), as far as it fits in n bits, divides f^2 mod 2^n. */
  lemma SquareGainsFactors(f: int, i: nat, n: nat)
    requires i < n && Pow(2, i) > 0 && f % Pow(2, i) == 0
    ensures Pow(2, n) > 0 && Pow(2, Min(2 * i, n)) > 0
    ensures (f * f % Pow(2, n)) % Pow(2, Min(2 * i, n)) == 0
  {
    SquareMultiple(f, i, Min(2 * i, n));
    ModOfPower(f * f, Min(2 * i, n), n);
  }

  lemma SquareMultiple(f: int, i: nat, k: nat)
    requires Pow(2, i) > 0 && f % Pow(2, i) == 0 && k <= 2 * i
    ensures Pow(2, k) > 0 && (f * f) % Pow(2, k) == 0
  {
    hide Pow;
    PowPositive(2, k);
    PowAdd(2, i, i);
    PowAdd(2, 2 * i - k, k);
    var c := ExactQuotient(f, Pow(2, i));
    SquaredFactor(f, c, Pow(2, i), Pow(2, 2 * i - k), Pow(2, k));
  }

  lemma ExactQuotient(f: int, p: int) returns (c: int)
    requires p > 0 && f % p == 0
    ensures f == c * p
  {
    c := f / p;
  }

  lemma SquaredFactor(f: int, c: int, p: int, r: int, q: int)
    requires q > 0 && f == c * p && p * p == r * q
    ensures (f * f) % q == 0
  {
    MulShuffle(c, p, c, p);
    MulAssoc(c * c, r, q);
    MultipleIsZero(c * c * r, q);
  }

  /** a = 1 / a modulo 2^n by Newton steps, in 32-bit arithmetic that wraps. */
  method InverseModPowerTwo(a: int, n: nat) returns (acc: int)
    requires 0 < a < WORD && a % 2 == 1 && 1 <= n <= 32
    ensures 0 <= acc < WORD && (n > 1 ==> acc < Pow(2, n))
    ensures Pow(2, n) > 0 && (a * acc) % Pow(2, n) == 1
  {
    acc := (2 - a) % WORD;
    var f := a - 1;
    var i: nat := 1;
    hide Pow, Newton;
    NewtonStart(a, n);
    while i < n
      invariant 0 <= f < WORD && 0 <= acc < WORD && Newton(a, acc, f, i, n)
      decreases 2 * n - i
    {
      NewtonTurn(a, acc, f, i, n);
      f := f * f % WORD % Pow(2, n);
      acc := acc * (1 + f) % WORD % Pow(2, n);
      i := 2 * i;
    }
    NewtonEnd(a, acc, f, i, n);
  }

  /** acc inverts a but for the square of f, which has gained i factors of two. */
  ghost predicate Newton(a: int, acc: int, f: int, i: nat, n: nat)
  {
    && i >= 1 && Pow(2, n) > 0 && Pow(2, Min(i, n)) > 0 && (i > 1 ==> acc < Pow(2, n))
    && (a * acc) % Pow(2, n) == (1 - f * f) % Pow(2, n) && f % Pow(2, Min(i, n)) == 0
  }

  lemma NewtonStart(a: int, n: nat)
    requires a % 2 == 1 && 1 <= n <= 32
    ensures Newton(a, (2 - a) % WORD, a - 1, 1, n)
  {
    hide Pow;
    var acc, f := (2 - a) % WORD, a - 1;
    assert Min(1, n) == 1 && f % 2 == 0;
    InverseStart(a, acc, f, n);
  }

  lemma NewtonEnd(a: int, acc: int, f: int, i: nat, n: nat)
    requires Newton(a, acc, f, i, n) && i >= n >= 1
    ensures Pow(2, n) > 0 && (a * acc) % Pow(2, n) == 1 && (n > 1 ==> acc < Pow(2, n))
  {
    hide Pow;
    InverseEnd(f, n);
  }

  lemma NewtonTurn(a: int, acc: int, f: int, i: nat, n: nat)
    requires Newton(a, acc, f, i, n) && i < n <= 32
    ensures 0 < Pow(2, n) <= WORD
    ensures var f' := f * f % WORD % Pow(2, n); Newton(a, acc * (1 + f') % WORD % Pow(2, n), f', 2 * i, n)
  {
    hide Pow;
    var f' := f * f % WORD % Pow(2, n);
    MaskIsModulus(f * f, n);
    NewtonStep(a, acc, f * f, Pow(2, n));
    SquareGainsFactors(f, i, n);
    MaskIsModulus(acc * (1 + f'), n);
  }

  lemma InverseStart(a: int, acc: int, f: int, n: nat)
    requires acc == (2 - a) % WORD && f == a - 1 && 1 <= n <= 32
    ensures Pow(2, n) > 0 && Pow(2, 1) == 2 && (a * acc) % Pow(2, n) == (1 - f * f) % Pow(2, n)
  {
    assert Pow(2, 1) == 2;
    hide Pow;
    MaskIsModulus(2 - a, n);
    CongMul(a, a, acc, 2 - a, Pow(2, n));
    OneLessSquare(a);
  }

  lemma OneLessSquare(a: int)
    ensures a * (2 - a) == 1 - (a - 1) * (a - 1)
  {
  }

  lemma InverseEnd(f: int, n: nat)
    requires n >= 1 && Pow(2, n) > 0 && f % Pow(2, n) == 0
    ensures (1 - f * f) % Pow(2, n) == 1
  {
    var m := Pow(2, n);
    assert (f * f) % m == 0 by {
      CongMul(f, 0, f, 0, m);
      MultipleIsZero(0, m);
    }
    assert m >= 2 by {
      PowMonotone(2, 1, n);
    }
    assert (1 - f * f) % m == 1 % m by {
      CongSub(1, 1, f * f, 0, m);
      MultipleIsZero(0, m);
    }
    DivModUnique(1, 0, 1, m);
  }

  /**
   * x = x / 2^29 modulo an odd prime: a multiple of the prime clears the low limb, the rest moves down.
   * Partly and fully reduced numbers stay so.
   */
  method BnDivideBase(x: array<u32>, prime: array<u32>)
    requires IsBn(x) && IsBn(prime) && x != prime && V(prime) % 2 == 1
    modifies x
    ensures IsBn(x) && V(prime) > 0
    ensures (BASE * V(x)) % V(prime) == old(V(x)) % V(prime)
    ensures old(V(x)) < V(prime) ==> V(x) < V(prime)
    ensures old(V(x)) < 2 * V(prime) ==> V(x) < 2 * V(prime)
  {
    ghost var xs, ps := x[..], prime[..];
    ParityOfLow(ps);
    PowerOfTwo29();
    var inv := InverseModPowerTwo(prime[0], 29);
    var m: u32 := x[0] * (BASE - inv) % WORD % BASE;
    ClearsLowLimb(xs[0], ps[0], inv);
    ProductFits(0, x[0], m, prime[0]);
    NormBound(ps);
    ghost var d := seq(9, j requires 0 <= j < 9 => xs[j] + m * (ps[j] as int));
    var acc: u64 := x[0] + m * (prime[0] as u64);
    acc := acc / BASE;
    ghost var w: int := acc;
    assert Val(d, 1) == d[0] && BASE * w == d[0];
    for i := 1 to 9
      invariant acc <= BASE
      invariant forall j :: i <= j < 9 ==> x[j] == xs[j]
      invariant forall j :: 0 <= j < i - 1 ==> x[j] < BASE
      invariant w == Val(x[..], i - 1) + acc * Pow(BASE, i - 1)
      invariant BASE * w == Val(d, i)
    {
      ghost var prev := acc;
      ProductFits(acc, x[i], m, prime[i]);
      acc := acc + x[i] + m * (prime[i] as u64);
      w := DivideStep(x[..], i, prev, acc, d, w);
      x[i - 1] := acc % BASE;
      acc := acc / BASE;
    }
    DivideFinish(xs, ps, m, d, x[..], acc);
    x[8] := acc;
  }

  lemma PowerOfTwo29()
    ensures Pow(2, 29) == BASE
  {
    PowerOfTwo32();
    PowAdd(2, 3, 29);
    assert Pow(2, 3) == 8;
  }

  /** The chosen multiplier makes the low limb vanish. */
  lemma ClearsLowLimb(x: int, p: int, inv: int)
    requires (p * inv) % BASE == 1
    ensures (x + (x * (BASE - inv) % WORD % BASE) * p) % BASE == 0
  {
    var y := x * (BASE - inv);
    ModOfFactor(y, 8, BASE);
    NegatedProduct(x, p, inv, BASE);
    Cancels(x, p, y, y % WORD % BASE, BASE);
  }

  lemma Cancels(x: int, p: int, y: int, m: int, b: int)
    requires b > 0 && m % b == y % b && (p * y) % b == (-x) % b
    ensures (x + m * p) % b == 0
  {
    CongMul(p, p, m, y, b);
    assert p * m == m * p;
    CongAdd(x, x, m * p, -x, b);
    DivModUnique(0, 0, 0, b);
  }

  lemma NegatedProduct(x: int, p: int, inv: int, b: int)
    requires b > 1 && (p * inv) % b == 1
    ensures (p * (x * (b - inv))) % b == (-x) % b
  {
    var t := p * inv;
    NegatedFactors(p, x, b, inv);
    ModAddMultiple(-x * t, p * x, b);
    DivModUnique(1, 0, 1, b);
    CongMul(-x, -x, t, 1, b);
  }

  lemma NegatedFactors(p: int, x: int, b: int, inv: int)
    ensures p * (x * (b - inv)) == -x * (p * inv) + p * x * b
  {
    assert x * (b - inv) == x * b - x * inv;
    assert p * (x * b - x * inv) == p * (x * b) - p * (x * inv);
    MulAssoc(p, x, b);
    assert p * (x * inv) == x * (p * inv);
  }

  lemma ProductFits(acc: int, x: int, m: int, p: int)
    requires 0 <= acc <= BASE && 0 <= x < BASE && 0 <= m < BASE && 0 <= p < BASE
    ensures 0 <= m * p && acc + x + m * p < (BASE + 1) * BASE
  {
    MulMonotone(m, BASE - 1, p, BASE - 1);
  }

  lemma DivideFinish(xs: seq<int>, ps: seq<int>, m: int, d: seq<int>, s: seq<int>, acc: int)
    requires Norm(xs) && Norm(ps) && Value(ps) > 0 && |s| == |d| == 9 && 0 <= m < BASE
    requires forall j :: 0 <= j < 9 ==> d[j] == xs[j] + m * ps[j]
    requires forall j :: 0 <= j < 8 ==> 0 <= s[j] < BASE
    requires acc >= 0 && BASE * (Val(s, 8) + acc * Pow(BASE, 8)) == Val(d, 9)
    ensures var t := s[8 := acc];
            && Norm(t)
            && (BASE * Value(t)) % Value(ps) == Value(xs) % Value(ps)
            && (Value(xs) < Value(ps) ==> Value(t) < Value(ps))
            && (Value(xs) < 2 * Value(ps) ==> Value(t) < 2 * Value(ps))
  {
    var t := s[8 := acc];
    ValPrefix(s, t, 8);
    ValLinear(d, 9, 1, xs, m, ps, 0);
    NormBound(xs);
    NormBound(ps);
    DivideRange(Value(xs), m, Value(ps), Value(t));
    ValBound(s, 8, BASE - 1);
    Powers();
  }

  lemma DivideRange(x: int, m: int, p: int, v: int)
    requires 0 <= x < TWO261 && 0 <= m < BASE && 0 < p < TWO261 && BASE * v == x + m * p
    ensures v < TWO261
    ensures (BASE * v) % p == x % p
    ensures x < p ==> v < p
    ensures x < 2 * p ==> v < 2 * p
  {
    ModAddMultiple(x, m, p);
    assert m * p <= (BASE - 1) * p by {
      MulMonotone(m, BASE - 1, p, p);
    }
  }

  lemma DivideStep(s: seq<int>, i: nat, acc: int, t: int, d: seq<int>, w: int) returns (w': int)
    requires 1 <= i < |s| && i < |d| && t == acc + d[i]
    requires w == Val(s, i - 1) + acc * Pow(BASE, i - 1) && BASE * w == Val(d, i)
    ensures w' == Val(s[i - 1 := t % BASE], i) + (t / BASE) * Pow(BASE, i)
    ensures BASE * w' == Val(d, i + 1)
  {
    StoreLimb(s, i - 1, acc, t, d[i]);
    w' := w + d[i] * Pow(BASE, i - 1);
    assert BASE * (d[i] * Pow(BASE, i - 1)) == d[i] * Pow(BASE, i);
  }
}

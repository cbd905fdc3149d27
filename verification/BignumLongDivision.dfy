/** Division of a bignum by a small number (bn_long_division in crypto/bignum.c). */
module BignumLongDivision {
  import opened Arith
  import opened Limbs
  import opened Bignum

  lemma {:induction false} HighSuffix(s: seq<int>, t: seq<int>, n: nat)
    requires |s| == |t| && n <= |s| && forall j :: n <= j < |s| ==> s[j] == t[j]
    ensures High(s, n) == High(t, n)
    decreases |s| - n
  {
    if n < |s| {
      HighSuffix(s, t, n + 1);
    }
  }

  /** The accumulator stays below 2^32, and the next limb of the quotient is a limb. */
  lemma StepBounds(r: int, d: int, x: int)
    requires 1 <= d < 61304 && 0 <= r < d && 0 <= x < BASE
    ensures 0 <= r * (BASE % d) && r * (BASE % d) + x < 0x1_0000_0000
    ensures 0 <= r * (BASE / d) && r * (BASE / d) + (r * (BASE % d) + x) / d < BASE
    ensures (r * (BASE / d) + (r * (BASE % d) + x) / d) * d + (r * (BASE % d) + x) % d == r * BASE + x
  {
    var u, v := BASE / d, BASE % d;
    assert BASE == u * d + v && 0 <= v < d;
    DivNonnegative(BASE, d);
    MulMonotone(r, 61303, v, 61303);
    MulMonotone(0, r, u, u);
    var acc := r * v + x;
    LimbStep(r, d, x, u, v, acc / d, acc % d);
  }

  lemma LimbStep(r: int, d: int, x: int, u: int, v: int, a: int, b: int)
    requires d > 0 && 0 <= r < d && 0 <= x < BASE && BASE == u * d + v && r * v + x == a * d + b && 0 <= b < d
    ensures (r * u + a) * d + b == r * BASE + x && r * u + a < BASE
  {
    assert (r * u + a) * d == r * (u * d) + a * d;
    assert r * BASE == r * (u * d) + r * v;
    MulMonotone(r + 1, d, BASE, BASE);
    if r * u + a >= BASE {
      MulMonotone(BASE, r * u + a, d, d);
    }
  }

  lemma HornerStep(h: int, g: int, d: int, r: int, x: int, q: int, r': int)
    requires h == g * d + r && q * d + r' == r * BASE + x
    ensures x + BASE * h == (q + BASE * g) * d + r'
  {
    assert BASE * (g * d) == BASE * g * d;
    assert (q + BASE * g) * d == q * d + BASE * g * d;
  }

  /** One limb of the quotient and the remainder so far; the accumulator fits 32 bits. */
  method DivideLimb(r: u32, d: u32, x: u32) returns (q: u32, r': u32)
    requires 1 <= d < 61304 && r < d && x < BASE
    ensures q < BASE && r' < d && q as int * d as int + r' as int == r as int * BASE + x as int
  {
    StepBounds(r, d, x);
    var acc: u32 := r * (BASE % d) + x;
    q := r * (BASE / d) + acc / d;
    r' := acc % d;
  }

  /** The limbs from position i on, divided. */
  lemma DivisionStep(xs: seq<int>, before: seq<int>, after: seq<int>, i: nat, d: int, r: int, r': int)
    requires i < |xs| == |before| == |after| && forall j :: i < j < |before| ==> before[j] == after[j]
    requires High(xs, i + 1) == High(before, i + 1) * d + r && after[i] * d + r' == r * BASE + xs[i]
    ensures High(xs, i) == High(after, i) * d + r'
  {
    hide High;
    HighSuffix(before, after, i + 1);
    HighUnfold(xs, i);
    HighUnfold(after, i);
    HornerStep(High(xs, i + 1), High(before, i + 1), d, r, xs[i], after[i], r');
  }

  /** q = x / d, r = x % d; q may be x. */
  method BnLongDivision(x: array<u32>, d: u32, q: array<u32>) returns (r: u32)
    requires IsBn(x) && q.Length == 9 && 1 <= d < 61304
    modifies q
    ensures IsBn(q) && V(q) == old(V(x)) / d && r == old(V(x)) % d
  {
    hide High, Value;
    ghost var xs := x[..];
    TopOf(xs, d);
    r := x[8] % d;
    q[8] := x[8] / d;
    TopOf(q[..], d);
    var i := 8;
    while i > 0
      invariant 0 <= i <= 8 && r < d
      invariant forall j :: 0 <= j < i ==> x[j] == xs[j]
      invariant forall j :: i <= j < 9 ==> q[j] < BASE
      invariant High(xs, i) == High(q[..], i) * d + r
    {
      i := i - 1;
      ghost var before, r0 := q[..], r;
      var limb;
      limb, r := DivideLimb(r, d, x[i]);
      q[i] := limb;
      DivisionStep(xs, before, q[..], i, d, r0, r);
    }
    ValueIsHigh(xs);
    ValueIsHigh(q[..]);
    DivModUnique(Value(xs), Value(q[..]), r, d);
  }

  lemma TopOf(s: seq<int>, d: int)
    requires |s| == 9 && d > 0
    ensures High(s, 8) == s[8] == s[8] / d * d + s[8] % d
    ensures 0 <= s[8] ==> 0 <= s[8] / d
    ensures 0 <= s[8] < BASE ==> s[8] / d < BASE
  {
    assert High(s, 9) == 0;
    if 0 <= s[8] {
      DivNonnegative(s[8], d);
      MulMonotone(s[8] / d, s[8] / d, 1, d);
    }
  }

  lemma ValueIsHigh(s: seq<int>)
    ensures Value(s) == High(s, 0)
  {
    ValHigh(s, 0);
    assert Pow(BASE, 0) * High(s, 0) == High(s, 0);
  }

  /** x = x / 10, r = x % 10 (bn_divmod10) */
  method BnDivmod10(x: array<u32>) returns (r: u32)
    requires IsBn(x)
    modifies x
    ensures IsBn(x) && V(x) == old(V(x)) / 10 && r == old(V(x)) % 10
  {
    r := BnLongDivision(x, 10, x);
  }
}

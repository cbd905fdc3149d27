/** The basic in-place operations of crypto/bignum.c on nine-limb arrays. */
module Bignum {
  import opened Arith
  import opened Limbs

  ghost predicate IsBn(x: array<u32>)
    reads x
  {
    Norm(x[..])
  }

  ghost function V(x: array<u32>): int
    reads x
  {
    Value(x[..])
  }

  method BnCopy(x: array<u32>, y: array<u32>)
    requires x.Length == y.Length == 9
    modifies y
    ensures y[..] == old(x[..])
  {
    for i := 0 to 9
      invariant forall j :: 0 <= j < i ==> y[j] == old(x[j])
      invariant forall j :: i <= j < 9 ==> x[j] == old(x[j])
    {
      y[i] := x[i];
    }
  }

  method BnReadSmall(n: u32, x: array<u32>)
    requires x.Length == 9
    modifies x
    ensures IsBn(x) && V(x) == n
  {
    x[0] := n % BASE;
    x[1] := n / BASE;
    for i := 2 to 9
      invariant x[0] == n % BASE && x[1] == n / BASE
      invariant forall j :: 2 <= j < i ==> x[j] == 0
    {
      x[i] := 0;
    }
    assert Pow(BASE, 0) == 1 && Pow(BASE, 1) == BASE;
    assert Val(x[..], 0) == 0;
    assert Val(x[..], 1) == n % BASE;
    assert Val(x[..], 2) == n % BASE + n / BASE * BASE;
    ValZeros(x[..], 2);
  }

  /** Zero limbs above position `n` add nothing. */
  lemma ValZeros(s: seq<int>, n: nat)
    requires n <= |s| && forall j :: n <= j < |s| ==> s[j] == 0
    ensures Value(s) == Val(s, n)
    decreases |s| - n
  {
    HighZero(s, n);
    ValHigh(s, n);
  }

  lemma {:induction false} HighZero(s: seq<int>, n: nat)
    requires n <= |s|
    requires forall j :: n <= j < |s| ==> s[j] == 0
    ensures High(s, n) == 0
    decreases |s| - n
  {
    if n < |s| {
      HighZero(s, n + 1);
    }
  }

  method BnIsZero(x: array<u32>) returns (r: bool)
    requires IsBn(x)
    ensures r <==> V(x) == 0
  {
    r := true;
    for i := 0 to 9
      invariant r <==> Val(x[..], i) == 0
    {
      DigitsBound(x[..], i);
      PowPositive(BASE, i);
      assert x[i] > 0 ==> x[i] * Pow(BASE, i) > 0;
      r := r && x[i] == 0;
    }
  }

  method BnIsOne(x: array<u32>) returns (r: bool)
    requires IsBn(x)
    ensures r <==> V(x) == 1
  {
    r := x[0] == 1;
    for i := 1 to 9
      invariant r <==> x[0] == 1 && forall j :: 1 <= j < i ==> x[j] == 0
    {
      r := r && x[i] == 0;
    }
    ValHigh(x[..], 0);
    HighNonnegative(x[..], 1);
    if forall j :: 1 <= j < 9 ==> x[j] == 0 {
      HighZero(x[..], 1);
    } else {
      var k :| 1 <= k < 9 && x[k] != 0;
      HighPositive(x[..], 1, k);
    }
  }

  lemma {:induction false} HighPositive(s: seq<int>, n: nat, k: nat)
    requires n <= k < |s| && Digits(s) && s[k] > 0
    ensures High(s, n) > 0
    decreases k - n
  {
    if n < k {
      HighPositive(s, n + 1, k);
    } else {
      HighNonnegative(s, n + 1);
    }
  }

  method BnIsEven(x: array<u32>) returns (r: bool)
    requires IsBn(x)
    ensures r <==> V(x) % 2 == 0
  {
    r := x[0] % 2 == 0;
    ParityOfLow(x[..]);
  }

  lemma ParityOfLow(s: seq<int>)
    requires |s| > 0
    ensures Value(s) % 2 == s[0] % 2
  {
    ValHigh(s, 0);
    assert Value(s) == s[0] + BASE * High(s, 1);
  }

  /** The comparison keeps one bit a limb in two masks; the masks compare as the numbers do. */
  method BnIsLess(x: array<u32>, y: array<u32>) returns (less: bool)
    requires IsBn(x) && IsBn(y)
    ensures less <==> V(x) < V(y)
  {
    var res1: u32, res2: u32 := 0, 0;
    var i := 9;
    while i > 0
      invariant 0 <= i <= 9
      invariant 0 <= res1 < Pow(2, 9 - i) && 0 <= res2 < Pow(2, 9 - i)
      invariant res1 > res2 <==> High(x[..], i) < High(y[..], i)
      invariant res1 < res2 <==> High(x[..], i) > High(y[..], i)
    {
      i := i - 1;
      PowMonotone(2, 9 - i, 9);
      assert Pow(2, 9) == 2 * 2 * 2 * 2 * 2 * Pow(2, 4);
      res1 := 2 * res1 + (if x[i] < y[i] then 1 else 0);
      res2 := 2 * res2 + (if x[i] > y[i] then 1 else 0);
    }
    ValHigh(x[..], 0);
    ValHigh(y[..], 0);
    less := res1 > res2;
  }

  method BnCmov(res: array<u32>, cond: bool, t: array<u32>, f: array<u32>)
    requires res.Length == t.Length == f.Length == 9
    modifies res
    ensures res[..] == old(if cond then t[..] else f[..])
  {
    for i := 0 to 9
      invariant forall j :: 0 <= j < i ==> res[j] == old(if cond then t[j] else f[j])
      invariant forall j :: i <= j < 9 ==> t[j] == old(t[j]) && f[j] == old(f[j])
    {
      res[i] := if cond then t[i] else f[i];
    }
  }

  /** x = x + y; the arguments may be the same array. */
  method BnAdd(x: array<u32>, y: array<u32>)
    requires IsBn(x) && IsBn(y) && V(x) + V(y) < TWO261
    modifies x
    ensures IsBn(x) && V(x) == old(V(x) + V(y))
  {
    ghost var xs, ys := x[..], y[..];
    ghost var d := seq(9, j requires 0 <= j < 9 => xs[j] + ys[j]);
    var acc: u32 := 0;
    for i := 0 to 9
      invariant acc <= 7
      invariant forall j :: i <= j < 9 ==> x[j] == xs[j] && y[j] == ys[j]
      invariant forall j :: 0 <= j < i ==> x[j] < BASE
      invariant Val(x[..], i) + acc * Pow(BASE, i) == Val(d, i)
    {
      ghost var prev := acc;
      acc := acc + (x[i] + y[i]);
      Store(x[..], i, prev, acc, d);
      x[i] := acc % BASE;
      acc := acc / BASE;
    }
    NormBound(xs);
    NormBound(ys);
    ValLinear(d, 9, 1, xs, 1, ys, 0);
    Finish(x[..], acc, 0, Value(xs) + Value(ys));
  }

  /** x = x + y for a machine word y. */
  method BnAddI(x: array<u32>, y: u32)
    requires IsBn(x) && y <= 0x1_0000_0000 - BASE && V(x) + y < TWO261
    modifies x
    ensures IsBn(x) && V(x) == old(V(x)) + y
  {
    ghost var xs := x[..];
    var acc: u32 := y;
    for i := 0 to 9
      invariant i > 0 ==> acc <= 7
      invariant acc <= 0x1_0000_0000 - BASE
      invariant forall j :: i <= j < 9 ==> x[j] == xs[j]
      invariant forall j :: 0 <= j < i ==> x[j] < BASE
      invariant Val(x[..], i) + acc * Pow(BASE, i) == Val(xs, i) + y
    {
      ghost var prev := acc;
      acc := acc + x[i];
      Store(x[..], i, prev, acc, xs);
      x[i] := acc % BASE;
      acc := acc / BASE;
    }
    Powers();
    NormBound(x[..]);
    SplitUnique(V(x), acc, TWO261, 0, Value(xs) + y);
  }

  /** res = x - y, modulo 2^261 when x < y; any of the arrays may coincide. */
  method BnSubtract(x: array<u32>, y: array<u32>, res: array<u32>)
    requires IsBn(x) && IsBn(y) && res.Length == 9
    modifies res
    ensures IsBn(res)
    ensures V(res) == old(if V(x) >= V(y) then V(x) - V(y) else V(x) - V(y) + TWO261)
  {
    ghost var xs, ys := x[..], y[..];
    ghost var d := seq(9, j requires 0 <= j < 9 => xs[j] - ys[j] + (BASE - 1));
    var acc: u32 := 1;
    for i := 0 to 9
      invariant acc <= 7
      invariant forall j :: i <= j < 9 ==> x[j] == xs[j] && y[j] == ys[j]
      invariant forall j :: 0 <= j < i ==> res[j] < BASE
      invariant Val(res[..], i) + acc * Pow(BASE, i) == 1 + Val(d, i)
    {
      ghost var prev := acc;
      acc := acc + ((BASE - 1) + x[i] - y[i]);
      Store(res[..], i, prev, acc, d);
      res[i] := acc % BASE;
      acc := acc / BASE;
    }
    NormBound(xs);
    NormBound(ys);
    ValLinear(d, 9, 1, xs, -1, ys, 1);
    Finish(res[..], acc, 1, Value(xs) - Value(ys));
  }

  lemma PartlyReduced(x: int, p: int)
    requires x >= 0
    ensures x < 2 * p ==> x % p == if x < p then x else x - p
  {
    if x < 2 * p {
      DivModUnique(x, if x < p then 0 else 1, if x < p then x else x - p, p);
    }
  }

  /** Full reduction of a partly reduced number. */
  method BnMod(x: array<u32>, prime: array<u32>)
    requires IsBn(x) && IsBn(prime) && x != prime
    modifies x
    ensures IsBn(x)
    ensures V(x) == (if old(V(x)) < V(prime) then old(V(x)) else old(V(x)) - V(prime))
    ensures V(prime) > 0 && old(V(x)) < 2 * V(prime) ==> V(x) == old(V(x)) % V(prime)
  {
    NormBound(x[..]);
    PartlyReduced(V(x), V(prime));
    var less := BnIsLess(x, prime);
    var temp := new u32[9];
    BnSubtract(x, prime, temp);
    BnCmov(x, less, x, temp);
  }
}

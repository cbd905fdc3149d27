/** Long multiplication and word-by-word reduction (crypto/bignum.c). */
module BignumMultiply {
  import opened Arith
  import opened Limbs
  import opened Bignum

  const TWO31: int := 0x8000_0000

  function Clamp(i: int): nat { if i < 0 then 0 else if i > 9 then 9 else i }

  /**
   * The part of the product k * x made of limb pairs whose positions add up to less than `i`, k's first `m` limbs only.
   */
  function Partial(k: seq<int>, x: seq<int>, i: nat, m: nat): int
    requires |k| == |x| == 9 && m <= 9
  {
    if m == 0 then 0
    else Partial(k, x, i, m - 1) + k[m - 1] * Pow(BASE, m - 1) * Val(x, Clamp(i - (m - 1)))
  }

  /** The products of column `i` that use the first `m` limbs of k. */
  function Column(k: seq<int>, x: seq<int>, i: nat, m: nat): int
    requires |k| == |x| == 9 && m <= 9
  {
    if m == 0 then 0
    else Column(k, x, i, m - 1) + (if 0 <= i - (m - 1) < 9 then k[m - 1] * x[i - (m - 1)] else 0)
  }

  lemma {:induction false} ColumnAdvances(k: seq<int>, x: seq<int>, i: nat, m: nat)
    requires |k| == |x| == 9 && m <= 9
    ensures Partial(k, x, i + 1, m) == Partial(k, x, i, m) + Column(k, x, i, m) * Pow(BASE, i)
  {
    if m > 0 {
      ColumnAdvances(k, x, i, m - 1);
      var c := i - (m - 1);
      if 0 <= c < 9 {
        assert Pow(BASE, i) == Pow(BASE, m - 1) * Pow(BASE, c) by {
          PowAdd(BASE, m - 1, c);
        }
        Reweigh(k[m - 1], x[c], Val(x, c), Pow(BASE, m - 1), Pow(BASE, c));
        Distribute(Column(k, x, i, m - 1), k[m - 1] * x[c], Pow(BASE, i));
      }
    }
  }

  lemma Distribute(u: int, v: int, w: int)
    ensures (u + v) * w == u * w + v * w
  {
  }

  lemma Reweigh(k: int, x: int, v: int, p: int, q: int)
    ensures k * p * (v + x * q) == k * p * v + k * x * (p * q)
  {
    assert k * p * (v + x * q) == k * p * v + k * p * (x * q);
    assert k * p * (x * q) == k * (p * (x * q)) == k * (x * (p * q));
  }

  lemma {:induction false} PartialIsProduct(k: seq<int>, x: seq<int>, m: nat)
    requires |k| == |x| == 9 && m <= 9
    ensures Partial(k, x, 17, m) == Val(k, m) * Value(x)
    ensures Partial(k, x, 0, m) == 0
  {
    if m > 0 {
      PartialIsProduct(k, x, m - 1);
      assert Clamp(17 - (m - 1)) == 9;
    }
  }

  lemma ColumnBound(k: seq<int>, x: seq<int>, i: nat, m: nat)
    requires Norm(k) && Norm(x) && m <= 9
    ensures 0 <= Column(k, x, i, m) <= m * ((BASE - 1) * (BASE - 1))
  {
    if m > 0 {
      ColumnBound(k, x, i, m - 1);
      if 0 <= i - (m - 1) < 9 {
        MulMonotone(k[m - 1], BASE - 1, x[i - (m - 1)], BASE - 1);
      }
    }
  }

  /** Columns below `n` start from limb 0, later ones from limb i - 8; earlier limbs contribute nothing. */
  lemma ColumnEmpty(k: seq<int>, x: seq<int>, i: nat, m: nat)
    requires |k| == |x| == 9 && m <= 9 && m + 8 <= i
    ensures Column(k, x, i, m) == 0
  {
    if m > 0 {
      ColumnEmpty(k, x, i, m - 1);
    }
  }

  lemma ColumnFull(k: seq<int>, x: seq<int>, i: nat, m: nat)
    requires |k| == |x| == 9 && i < m <= 9
    ensures Column(k, x, i, m) == Column(k, x, i, i + 1)
  {
    if m > i + 1 {
      ColumnFull(k, x, i, m - 1);
    }
  }

  /** Adding one finished column to the stored limbs. */
  lemma StoreColumn(s: seq<int>, k: seq<int>, x: seq<int>, i: nat, acc: int, t: int)
    requires |s| == 18 && |k| == |x| == 9 && i < 18
    requires Val(s, i) + acc * Pow(BASE, i) == Partial(k, x, i, 9)
    requires t == acc + Column(k, x, i, 9)
    ensures Val(s[i := t % BASE], i + 1) + (t / BASE) * Pow(BASE, i + 1) == Partial(k, x, i + 1, 9)
  {
    ColumnAdvances(k, x, i, 9);
    StoreLimb(s, i, acc, t, Column(k, x, i, 9));
  }

  /** The inner loops of the long multiplication: limbs lo..hi of k meet column i. */
  method AddColumn(k: array<u32>, x: array<u32>, i: nat, lo: nat, hi: nat, acc0: u64) returns (acc: u64)
    requires IsBn(k) && IsBn(x) && acc0 < 0x8_0000_0000
    requires lo <= hi <= 9 && lo + 8 >= i && hi <= i + 1
    requires Column(k[..], x[..], i, lo) == 0
    ensures acc == acc0 + Column(k[..], x[..], i, hi)
  {
    ghost var ks, xs := k[..], x[..];
    acc := acc0;
    for j := lo to hi
      invariant acc == acc0 + Column(ks, xs, i, j)
    {
      ColumnStep(ks, xs, i, j);
      acc := acc + k[j] * (x[i - j] as u64);
    }
  }

  lemma ColumnStep(k: seq<int>, x: seq<int>, i: nat, j: nat)
    requires Norm(k) && Norm(x) && j < 9 && 0 <= i - j < 9
    ensures Column(k, x, i, j + 1) == Column(k, x, i, j) + k[j] * x[i - j]
    ensures 0 <= Column(k, x, i, j + 1) < 0x2400_0000_0000_0000
  {
    ColumnBound(k, x, i, j + 1);
  }

  /** res = k * x in 18 limbs; k and x may be the same array. */
  method BnMultiplyLong(k: array<u32>, x: array<u32>, res: array<u32>)
    requires IsBn(k) && IsBn(x) && res.Length == 18
    modifies res
    ensures Digits(res[..]) && Value(res[..]) == old(V(k) * V(x))
  {
    ghost var ks, xs := k[..], x[..];
    PartialIsProduct(ks, xs, 9);
    var acc: u64 := 0;
    for i := 0 to 17
      invariant k[..] == ks && x[..] == xs
      invariant acc < 0x8_0000_0000
      invariant forall j :: 0 <= j < i ==> res[j] < BASE
      invariant Val(res[..], i) + acc * Pow(BASE, i) == Partial(ks, xs, i, 9)
    {
      ghost var start := acc;
      if i < 9 {
        acc := AddColumn(k, x, i, 0, i + 1, acc);
        ColumnFull(ks, xs, i, 9);
      } else {
        ColumnEmpty(ks, xs, i, i - 8);
        acc := AddColumn(k, x, i, i - 8, 9, acc);
      }
      ColumnBound(ks, xs, i, 9);
      StoreColumn(res[..], ks, xs, i, start, acc);
      res[i] := acc % BASE;
      acc := acc / BASE;
    }
    ProductFinish(res[..], ks, xs, acc);
    res[17] := acc;
  }

  lemma ProductFinish(s: seq<int>, k: seq<int>, x: seq<int>, acc: int)
    requires |s| == 18 && Norm(k) && Norm(x) && acc >= 0
    requires forall j :: 0 <= j < 17 ==> 0 <= s[j] < BASE
    requires Val(s, 17) + acc * Pow(BASE, 17) == Value(k) * Value(x)
    ensures acc < BASE && Value(s[17 := acc]) == Value(k) * Value(x)
  {
    ValPrefix(s, s[17 := acc], 17);
    ValBound(s, 17, BASE - 1);
    NormBound(k);
    NormBound(x);
    MulMonotone(Value(k), TWO261 - 1, Value(x), TWO261 - 1);
    PowAdd(BASE, 9, 8);
    Powers();
    assert acc * (TWO261 * TWO232) <= (TWO261 - 1) * (TWO261 - 1);
  }
}

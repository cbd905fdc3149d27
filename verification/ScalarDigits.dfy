/** The signed odd-digit recoding of crypto/ecdsa.c. */
module ScalarDigits {
  import opened Arith

  /** The low five bits of a, shifted by 4 * i. */
  function Window(a: nat, i: nat): (w: nat)
    ensures w < 32
  {
    PowPositive(16, i);
    a / Pow(16, i) % 32
  }

  /** Index of the odd multiple selected by a window: |digit| = 2 * index + 1. */
  function Index(w: nat): (n: nat)
    requires w < 32
    ensures n < 8
  {
    (if w >= 16 then w - 16 else 15 - w) / 2
  }

  function Digit(a: nat, i: nat): int
  {
    var w := Window(a, i);
    if w >= 16 then 2 * Index(w) + 1 else -(2 * Index(w) + 1)
  }

  /** Bit 4 * i of a. */
  function Bit(a: nat, i: nat): nat
  {
    PowPositive(16, i);
    a / Pow(16, i) % 2
  }

  /** All 64 digits, lowest first. */
  function Recode(a: nat): (ds: seq<int>)
    ensures |ds| == 64
  {
    seq(64, i requires 0 <= i < 64 => Digit(a, i))
  }

  /** The digits from position i up, as the number they stand for at that position. */
  function Upper(ds: seq<int>, i: nat): int
    requires i <= |ds|
    decreases |ds| - i
  {
    if i == |ds| then 0 else ds[i] + 16 * Upper(ds, i + 1)
  }

  /** The digits below position i. */
  function Lower(ds: seq<int>, i: nat): int
    requires i <= |ds|
  {
    if i == 0 then 0 else Lower(ds, i - 1) + ds[i - 1] * Pow(16, i - 1)
  }

  lemma ShiftFour(a: nat, i: nat)
    ensures Pow(16, i) > 0 && Pow(16, i + 1) > 0
    ensures a / Pow(16, i + 1) == a / Pow(16, i) / 16
  {
    PowPositive(16, i);
    var p := Pow(16, i);
    var q, r := a / p, a % p;
    assert a == (q / 16) * (16 * p) + (q % 16 * p + r) by {
      assert (q / 16) * (16 * p) == (q / 16 * 16) * p;
      assert q * p == (q / 16 * 16) * p + q % 16 * p;
    }
    MulMonotone(q % 16, 15, p, p);
    DivModUnique(a, q / 16, q % 16 * p + r, 16 * p);
  }

  /** A digit is its nibble with the lowest bit forced to one, less 16 when the next bit is zero. */
  lemma DigitShape(a: nat, i: nat)
    ensures Pow(16, i) > 0
    ensures Digit(a, i) == a / Pow(16, i) % 16 + (1 - Bit(a, i)) - 16 * (1 - Bit(a, i + 1))
  {
    ShiftFour(a, i);
    NibbleCases(a / Pow(16, i));
  }

  lemma NibbleCases(t: nat)
    ensures var w := t % 32;
            (if w >= 16 then 2 * Index(w) + 1 else -(2 * Index(w) + 1))
            == t % 16 + (1 - t % 2) - 16 * (1 - t / 16 % 2)
  {
    var q, w := t / 32, t % 32;
    var high := if w >= 16 then 1 else 0;
    DivModUnique(t, 2 * q + high, w - 16 * high, 16);
    DivModUnique(2 * q + high, q, high, 2);
    DivModUnique(t, 16 * q + w / 2, w % 2, 2);
    SignedNibble(w);
  }

  lemma SignedNibble(w: nat)
    requires w < 32
    ensures w >= 16 ==> 2 * Index(w) + 1 == w - 16 + (1 - w % 2)
    ensures w < 16 ==> -(2 * Index(w) + 1) == w + (1 - w % 2) - 16
  {
  }

  /** The value of the upper digits: the shifted scalar made odd, less the bias of 2^256. */
  lemma {:induction false} UpperValue(a: nat, i: nat)
    requires i <= 64 && a < 2 * Pow(16, 64)
    ensures Pow(16, i) > 0
    ensures Upper(Recode(a), i) == a / Pow(16, i) + (1 - Bit(a, i)) - Pow(16, 64 - i)
    decreases 64 - i
  {
    PowPositive(16, i);
    if i == 64 {
      TopBit(a, Pow(16, 64));
    } else {
      UpperValue(a, i + 1);
      DigitShape(a, i);
      ShiftFour(a, i);
      assert Pow(16, 64 - i) == 16 * Pow(16, 64 - (i + 1));
    }
  }

  lemma TopBit(a: nat, p: nat)
    requires p > 0 && a < 2 * p
    ensures a / p + (1 - a / p % 2) - 1 == 0
  {
    DivModUnique(a, if a < p then 0 else 1, if a < p then a else a - p, p);
  }

  /** The upper digits never sum to an even number, and stay below the weight of the next position. */
  lemma UpperOdd(a: nat, i: nat)
    requires i < 64 && a < 2 * Pow(16, 64)
    ensures Upper(Recode(a), i) % 2 == 1 && -Pow(16, 64 - i) < Upper(Recode(a), i) < Pow(16, 64 - i)
  {
    PowPositive(16, i);
    var u, e, q, m := Upper(Recode(a), i), a / Pow(16, i), Pow(16, 64 - i), Pow(16, 63 - i);
    assert u == e + (1 - e % 2) - q by {
      UpperValue(a, i);
    }
    assert e < 2 * q by {
      ShiftBound(a, i);
    }
    DivNonnegative(a, Pow(16, i));
    OddBelow(u, e, q, m);
  }

  lemma OddBelow(u: int, e: int, q: int, m: int)
    requires 0 <= e < 2 * q && q == 16 * m && u == e + (1 - e % 2) - q
    ensures u % 2 == 1 && -q < u < q
  {
    var h := e / 2;
    assert u == (h - 8 * m) * 2 + 1;
    DivModUnique(u, h - 8 * m, 1, 2);
  }

  lemma ShiftBound(a: nat, i: nat)
    requires i <= 64 && a < 2 * Pow(16, 64)
    ensures Pow(16, i) > 0 && a / Pow(16, i) < 2 * Pow(16, 64 - i)
  {
    hide Pow;
    PowPositive(16, i);
    PowAdd(16, 64 - i, i);
    QuotientBelow(a, Pow(16, i), Pow(16, 64 - i));
  }

  lemma QuotientBelow(a: int, p: int, q: int)
    requires p > 0 && a < 2 * (q * p)
    ensures a / p < 2 * q
  {
    assert 2 * q * p == 2 * (q * p);
    DivBelow(a, p, 2 * q);
  }

  /** All digits together: the scalar less 2^256. */
  lemma DigitsSum(a: nat)
    requires a < 2 * Pow(16, 64) && a % 2 == 1
    ensures Upper(Recode(a), 0) == a - Pow(16, 64)
  {
    UpperValue(a, 0);
    assert Pow(16, 0) == 1 && a / 1 == a;
  }

  /** Reading the digits from below gives the same number. */
  lemma {:induction false} LowerMeetsUpper(ds: seq<int>, i: nat)
    requires i <= |ds|
    ensures Lower(ds, i) + Pow(16, i) * Upper(ds, i) == Upper(ds, 0)
  {
    if i > 0 {
      LowerMeetsUpper(ds, i - 1);
      Regroup(Lower(ds, i - 1), ds[i - 1], Pow(16, i - 1), Upper(ds, i));
    }
  }

  lemma Regroup(low: int, d: int, p: int, u: int)
    ensures low + d * p + (16 * p) * u == low + p * (d + 16 * u)
  {
    assert p * (d + 16 * u) == p * d + p * (16 * u);
    assert p * (16 * u) == (16 * p) * u;
  }

  /** Odd digits below 16 give odd partial sums below the weight of the next position. */
  lemma {:induction false} LowerOdd(ds: seq<int>, i: nat)
    requires 0 < i <= |ds| && forall j :: 0 <= j < |ds| ==> -15 <= ds[j] <= 15 && ds[j] % 2 == 1
    ensures Lower(ds, i) % 2 == 1 && -Pow(16, i) < Lower(ds, i) < Pow(16, i)
  {
    var d, p := ds[i - 1], Pow(16, i - 1);
    PowPositive(16, i - 1);
    if i > 1 {
      LowerOdd(ds, i - 1);
      OddSum(Lower(ds, i - 1), d, p, 8 * Pow(16, i - 2));
    }
    BelowNext(Lower(ds, i - 1), d, p);
  }

  lemma OddSum(low: int, d: int, p: int, h: int)
    requires low % 2 == 1 && p == 2 * h
    ensures (low + d * p) % 2 == 1
  {
    assert d * p == 2 * (d * h);
  }

  lemma BelowNext(low: int, d: int, p: int)
    requires -15 <= d <= 15 && -p < low < p
    ensures -(16 * p) < low + d * p < 16 * p
  {
    assert d * p <= 15 * p && d * p >= -15 * p;
  }

  lemma DigitsAreOdd(a: nat, i: nat)
    requires i < 64
    ensures -15 <= Recode(a)[i] <= 15 && Recode(a)[i] % 2 == 1
  {
  }
}

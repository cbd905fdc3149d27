/** Numerals in any base, the highest digit first, and the change from one base to another. */
module Numerals {
  import opened Arith

  /** The number with digits s in base b, the highest first. */
  function Num(s: seq<int>, b: int): int
  {
    if s == [] then 0 else Num(s[..|s| - 1], b) * b + s[|s| - 1]
  }

  ghost predicate InBase(s: seq<int>, b: int) { forall i :: 0 <= i < |s| ==> 0 <= s[i] < b }

  lemma {:induction false} DigitsUnique(s: seq<int>, t: seq<int>, b: int)
    requires |s| == |t| && b > 0 && InBase(s, b) && InBase(t, b) && Num(s, b) == Num(t, b)
    ensures s == t
    decreases |s|
  {
    if s != [] {
      var n := |s| - 1;
      DivModUnique(Num(s, b), Num(s[..n], b), s[n], b);
      DivModUnique(Num(s, b), Num(t[..n], b), t[n], b);
      DigitsUnique(s[..n], t[..n], b);
      assert s == s[..n] + [s[n]] && t == t[..n] + [t[n]];
    }
  }

  lemma {:induction false} NumNonnegative(s: seq<int>, b: int)
    requires b > 0 && InBase(s, b)
    ensures Num(s, b) >= 0
    decreases |s|
  {
    if s != [] {
      NumNonnegative(s[..|s| - 1], b);
      MulMonotone(0, Num(s[..|s| - 1], b), b, b);
    }
  }

  lemma {:induction false} NumConcat(s: seq<int>, t: seq<int>, b: int)
    ensures Num(s + t, b) == Num(s, b) * Pow(b, |t|) + Num(t, b)
    decreases |t|
  {
    if t == [] {
      assert s + t == s;
    } else {
      var n := |t| - 1;
      assert (s + t)[..|s + t| - 1] == s + t[..n];
      NumConcat(s, t[..n], b);
      Factor(Num(s, b), Pow(b, n), Num(t[..n], b), b);
    }
  }

  lemma Factor(x: int, p: int, y: int, b: int)
    ensures (x * p + y) * b == x * (b * p) + y * b
  {
    MulAssoc(x, b, p);
    assert (x * p + y) * b == x * p * b + y * b;
    assert x * b * p == x * p * b;
  }

  /** A numeral is below the power with as many digits as it has. */
  lemma {:induction false} NumBelow(s: seq<int>, b: int)
    requires b > 0 && InBase(s, b)
    ensures 0 <= Num(s, b) < Pow(b, |s|)
    decreases |s|
  {
    if s != [] {
      var n := |s| - 1;
      NumBelow(s[..n], b);
      StepBelow(Num(s[..n], b), Pow(b, n), s[n], b);
    }
  }

  lemma StepBelow(x: int, p: int, d: int, b: int)
    requires 0 <= x < p && 0 <= d < b
    ensures 0 <= x * b + d < b * p
  {
    MulMonotone(x + 1, p, b, b);
    MulMonotone(0, x, b, b);
  }

  function Repeat(c: int, n: nat): (s: seq<int>)
    ensures |s| == n
  {
    seq(n, i => c)
  }

  lemma {:induction false} ZeroDigits(n: nat, s: seq<int>, b: int)
    ensures Num(Repeat(0, n) + s, b) == Num(s, b)
  {
    if n == 0 {
      assert Repeat(0, 0) + s == s;
    } else {
      var z := Repeat(0, n - 1);
      assert Repeat(0, n) + s == [0] + (z + s);
      ZeroDigits(n - 1, s, b);
      NumConcat([0], z + s, b);
      assert Num([0], b) == 0;
    }
  }

  /** How many leading elements are c. */
  function Leading(s: seq<int>, c: int): (n: nat)
    ensures n <= |s| && (forall i :: 0 <= i < n ==> s[i] == c) && (n < |s| ==> s[n] != c)
  {
    if s == [] || s[0] != c then 0 else 1 + Leading(s[1..], c)
  }

  lemma LeadingIs(s: seq<int>, c: int, n: nat)
    requires n <= |s| && (forall i :: 0 <= i < n ==> s[i] == c) && (n < |s| ==> s[n] != c)
    ensures Leading(s, c) == n
  {
  }

  /** The digits of n, without leading zeros. */
  function DigitsOf(n: int, b: int): seq<int>
    decreases n
  {
    if n <= 0 || b < 2 then []
    else
      QuotientSmaller(n, b);
      DigitsOf(n / b, b) + [n % b]
  }

  lemma QuotientSmaller(n: int, b: int)
    requires n > 0 && b >= 2
    ensures 0 <= n / b < n && n == n / b * b + n % b
  {
    DivNonnegative(n, b);
    MulMonotone(2, b, n / b, n / b);
  }

  lemma {:induction false} DigitsOfNum(n: int, b: int)
    requires n >= 0 && b >= 2
    ensures InBase(DigitsOf(n, b), b) && Num(DigitsOf(n, b), b) == n
    ensures DigitsOf(n, b) != [] ==> DigitsOf(n, b)[0] != 0
    decreases n
  {
    if n > 0 {
      var q, r := n / b, n % b;
      QuotientSmaller(n, b);
      DigitsOfNum(q, b);
      assert DigitsOf(n, b)[..|DigitsOf(n, b)| - 1] == DigitsOf(q, b);
    }
  }

  lemma LeadingDigit(s: seq<int>, b: int)
    requires b >= 2 && InBase(s, b) && s != [] && s[0] != 0
    ensures Num(s, b) >= Pow(b, |s| - 1)
  {
    assert s == [s[0]] + s[1..];
    NumConcat([s[0]], s[1..], b);
    assert Num([s[0]], b) == s[0];
    NumBelow(s[1..], b);
    PowPositive(b, |s| - 1);
    MulMonotone(1, s[0], Pow(b, |s| - 1), Pow(b, |s| - 1));
  }

  /** Only one numeral without leading zeros stands for each number. */
  lemma OnlyDigits(s: seq<int>, b: int)
    requires b >= 2 && InBase(s, b) && (s != [] ==> s[0] != 0)
    ensures DigitsOf(Num(s, b), b) == s
  {
    NumNonnegative(s, b);
    var t := DigitsOf(Num(s, b), b);
    DigitsOfNum(Num(s, b), b);
    if |s| < |t| {
      LeadingDigit(t, b);
      NumBelow(s, b);
      PowMonotone(b, |s|, |t| - 1);
      assert false;
    } else if |t| < |s| {
      LeadingDigit(s, b);
      NumBelow(t, b);
      PowMonotone(b, |t|, |s| - 1);
      assert false;
    }
    DigitsUnique(s, t, b);
  }

  /** The same number in base c, with as many leading zeros as before. */
  function Rebased(s: seq<int>, b: int, c: int): seq<int>
  {
    Repeat(0, Leading(s, 0)) + DigitsOf(Num(s, b), c)
  }

  lemma RebasedShape(s: seq<int>, b: int, c: int)
    requires b >= 2 && c >= 2 && InBase(s, b)
    ensures InBase(Rebased(s, b, c), c) && Num(Rebased(s, b, c), c) == Num(s, b)
    ensures Leading(Rebased(s, b, c), 0) == Leading(s, 0)
  {
    NumNonnegative(s, b);
    var t := DigitsOf(Num(s, b), c);
    DigitsOfNum(Num(s, b), c);
    ZeroDigits(Leading(s, 0), t, c);
    LeadingIs(Rebased(s, b, c), 0, Leading(s, 0));
  }

  /** Going to another base and back is the identity. */
  lemma RebasedBack(s: seq<int>, b: int, c: int)
    requires b >= 2 && c >= 2 && InBase(s, b)
    ensures Rebased(Rebased(s, b, c), c, b) == s
  {
    RebasedShape(s, b, c);
    var z := Leading(s, 0);
    assert s == Repeat(0, z) + s[z..];
    ZeroDigits(z, s[z..], b);
    OnlyDigits(s[z..], b);
  }

  // ---------- Multiplying a numeral in place, the lowest digit first ----------

  /**
   * The number that stands half way: the digits of s from position j on are final, those of s0 before j are
   * still to be multiplied by m, and `carry` goes into digit j - 1.
   */
  ghost function Running(s0: seq<int>, s: seq<int>, j: nat, carry: int, m: int, b: int): int
    requires j <= |s0| == |s|
  {
    (Num(s0[..j], b) * m + carry) * Pow(b, |s| - j) + Num(s[j..], b)
  }

  lemma RunningStart(s: seq<int>, carry: int, m: int, b: int)
    ensures Running(s, s, |s|, carry, m, b) == Num(s, b) * m + carry
  {
    assert s[..|s|] == s;
  }

  lemma RunningEnd(s0: seq<int>, s: seq<int>, carry: int, m: int, b: int)
    requires |s0| == |s|
    ensures Running(s0, s, 0, carry, m, b) == carry * Pow(b, |s|) + Num(s, b)
  {
    assert s[0..] == s;
  }

  lemma RunningStep(s0: seq<int>, s: seq<int>, j: nat, carry: int, m: int, b: int, digit: int, carry': int)
    requires 0 < j <= |s0| == |s| && s0[j - 1] * m + carry == carry' * b + digit
    ensures Running(s0, s[j - 1 := digit], j - 1, carry', m, b) == Running(s0, s, j, carry, m, b)
  {
    var t, k := s[j - 1 := digit], |s| - j;
    assert s0[..j][..j - 1] == s0[..j - 1];
    assert t[j - 1..] == [digit] + s[j..];
    NumConcat([digit], s[j..], b);
    assert Num([digit], b) == digit;
    RunningAlgebra(Num(s0[..j - 1], b), s0[j - 1], m, b, carry, carry', digit, Pow(b, k), Num(s[j..], b));
    assert Pow(b, k + 1) == b * Pow(b, k);
  }

  lemma RunningAlgebra(x: int, d: int, m: int, b: int, carry: int, carry': int, digit: int, p: int, rest: int)
    requires d * m + carry == carry' * b + digit
    ensures (x * m + carry') * (b * p) + (digit * p + rest) == ((x * b + d) * m + carry) * p + rest
  {
    assert (x * m + carry') * b + digit == (x * b + d) * m + carry by {
      assert x * m * b == x * b * m;
      assert (x * m + carry') * b == x * m * b + carry' * b;
      assert (x * b + d) * m == x * b * m + d * m;
    }
    MulAssoc(x * m + carry', b, p);
    assert ((x * m + carry') * b + digit) * p == (x * m + carry') * b * p + digit * p;
  }

  /** When only zeros are left to multiply and nothing to carry, the work is done. */
  lemma RunningStop(s0: seq<int>, s: seq<int>, j: nat, m: int, b: int)
    requires j <= |s0| == |s| && forall k :: 0 <= k < j ==> s0[k] == 0 == s[k]
    ensures Running(s0, s, j, 0, m, b) == Num(s, b)
  {
    assert s0[..j] == Repeat(0, j) + [] && s == Repeat(0, j) + s[j..];
    ZeroDigits(j, [], b);
    ZeroDigits(j, s[j..], b);
  }

  lemma {:induction false} NumPrefix(s: seq<int>, n: nat, b: int)
    requires b >= 1 && InBase(s, b) && n <= |s|
    ensures 0 <= Num(s[..n], b) <= Num(s, b)
    decreases |s|
  {
    NumNonnegative(s[..n], b);
    if n == |s| {
      assert s[..n] == s;
    } else {
      var m := |s| - 1;
      assert s[..m][..n] == s[..n];
      NumPrefix(s[..m], n, b);
      MulMonotone(Num(s[..m], b), Num(s[..m], b), 1, b);
    }
  }

  lemma NumExtend(s: seq<int>, n: nat, b: int)
    requires n < |s|
    ensures Num(s[..n + 1], b) == Num(s[..n], b) * b + s[n]
  {
    assert s[..n + 1][..n] == s[..n];
  }
}

/** Formatted amounts read back (bn_format in crypto/bignum.c): what the digits, the point and the separators mean. */
module AmountReading {
  import opened Arith
  import opened Numerals
  import opened AmountFormat

  predicate IsDigit(c: int) { 48 <= c <= 57 }

  predicate AllDigits(s: seq<int>) { forall i :: 0 <= i < |s| ==> IsDigit(s[i]) }

  /** The values of the digits in a text, whatever stands between them. */
  function DigitsIn(s: seq<int>): (ds: seq<int>)
    ensures |ds| <= |s|
  {
    if s == [] then []
    else DigitsIn(s[..|s| - 1]) + (if IsDigit(s[|s| - 1]) then [s[|s| - 1] - 48] else [])
  }

  /** The number that a text shows when point and separators are passed over. */
  function Shown(s: seq<int>): int { Num(DigitsIn(s), 10) }

  lemma {:induction false} DigitsInConcat(s: seq<int>, t: seq<int>)
    ensures DigitsIn(s + t) == DigitsIn(s) + DigitsIn(t)
    decreases |t|
  {
    if t == [] {
      assert s + t == s;
    } else {
      assert (s + t)[..|s + t| - 1] == s + t[..|t| - 1];
      DigitsInConcat(s, t[..|t| - 1]);
    }
  }

  lemma OneCharacter(c: int)
    ensures DigitsIn([c]) == if IsDigit(c) then [c - 48] else []
  {
    assert DigitsIn([]) == [];
  }

  lemma {:induction false} AsManyDigits(s: seq<int>)
    requires AllDigits(s)
    ensures |DigitsIn(s)| == |s|
    decreases |s|
  {
    if s != [] {
      AsManyDigits(s[..|s| - 1]);
    }
  }

  // ---------- Scaling ----------

  /** A negative exponent divides, and the remainder is dropped. */
  lemma ScaledIsFloor(amount: int, exponent: int)
    requires amount >= 0 && exponent <= 0
    ensures Scaled(amount, exponent) >= 0
    ensures var s, p := Scaled(amount, exponent), Pow(10, -exponent); s * p <= amount < (s + 1) * p
  {
    PowPositive(10, -exponent);
    FloorBounds(amount, Pow(10, -exponent));
    if exponent == 0 {
      assert Pow(10, 0) == 1;
    }
  }

  lemma FloorBounds(a: int, p: int)
    requires a >= 0 && p > 0
    ensures a / p >= 0 && a / p * p <= a < (a / p + 1) * p
  {
    DivNonnegative(a, p);
    assert (a / p + 1) * p == a / p * p + p;
  }

  lemma ScaledUp(amount: int, e: nat)
    requires amount >= 0
    ensures Scaled(amount, e) == amount * Pow(10, e) >= 0
  {
    PowPositive(10, e);
    MulMonotone(0, amount, Pow(10, e), Pow(10, e));
  }

  // ---------- Digits ----------

  /** The digits of a number show it, without a zero in front. */
  lemma {:induction false} DecimalShows(n: int)
    requires n >= 0
    ensures AllDigits(Decimal(n)) && Shown(Decimal(n)) == n
    ensures |Decimal(n)| >= 1 && (n > 0 ==> Decimal(n)[0] != 48)
    decreases n
  {
    if n < 10 {
      OneCharacter(48 + n);
      NumExtend([n], 0, 10);
      assert [n][..1] == [n] && [n][..0] == [];
    } else {
      DecimalShows(n / 10);
      LastShown(Decimal(n / 10), 48 + n % 10);
    }
  }

  lemma LastShown(s: seq<int>, c: int)
    requires IsDigit(c)
    ensures Shown(s + [c]) == Shown(s) * 10 + (c - 48)
  {
    assert (s + [c])[..|s|] == s;
    NumExtend(DigitsIn(s) + [c - 48], |DigitsIn(s)|, 10);
    assert (DigitsIn(s) + [c - 48])[..|DigitsIn(s)|] == DigitsIn(s);
    assert (DigitsIn(s) + [c - 48])[..|DigitsIn(s)| + 1] == DigitsIn(s) + [c - 48];
  }

  /** The decimal digits show the remainder. */
  lemma {:induction false} LastDigitsShow(m: int, decimals: nat)
    requires m >= 0
    ensures Pow(10, decimals) > 0
    ensures AllDigits(LastDigits(m, decimals)) && Shown(LastDigits(m, decimals)) == m % Pow(10, decimals)
    decreases decimals
  {
    PowPositive(10, decimals);
    if decimals == 0 {
      assert DigitsIn([]) == [] && m % 1 == 0;
    } else {
      PowPositive(10, decimals - 1);
      LastDigitsShow(m / 10, decimals - 1);
      LastShown(LastDigits(m / 10, decimals - 1), 48 + m % 10);
      SplitRemainder(m, Pow(10, decimals - 1));
      var r := m % Pow(10, decimals);
      assert r == r / 10 * 10 + r % 10;
    }
  }

  // ---------- Separators ----------

  lemma {:induction false} GroupsShow(s: seq<int>, sep: int)
    requires !IsDigit(sep)
    ensures DigitsIn(Groups(s, sep)) == DigitsIn(s)
    decreases |s|
  {
    if |s| > 3 && sep != 0 {
      var n := |s| - 3;
      GroupsShow(s[..n], sep);
      DigitsInConcat(Groups(s[..n], sep) + [sep], s[n..]);
      DigitsInConcat(Groups(s[..n], sep), [sep]);
      OneCharacter(sep);
      DigitsInConcat(s[..n], s[n..]);
      assert s[..n] + s[n..] == s;
    }
  }

  lemma {:induction false} GroupsLength(s: seq<int>, sep: int)
    requires s != [] && sep != 0
    ensures |Groups(s, sep)| == |s| + (|s| - 1) / 3
    decreases |s|
  {
    if |s| > 3 {
      GroupsLength(s[..|s| - 3], sep);
    }
  }

  /** Counted from the right, every fourth character is a separator, and none stands in front. */
  lemma {:induction false} GroupsAt(s: seq<int>, sep: int, k: nat)
    requires s != [] && sep != 0 && k < |Groups(s, sep)|
    ensures k - k / 4 < |s|
    ensures Groups(s, sep)[|Groups(s, sep)| - 1 - k] == if k % 4 == 3 then sep else s[|s| - 1 - (k - k / 4)]
    decreases |s|
  {
    if |s| > 3 {
      var n := |s| - 3;
      var g := Groups(s[..n], sep);
      assert Groups(s, sep) == g + [sep] + s[n..];
      if k >= 4 {
        GroupsAt(s[..n], sep, k - 4);
      }
    }
  }

  // ---------- Zeros at the end ----------

  /** Only zeros are taken off, and all of them. */
  lemma {:induction false} StrippedIs(s: seq<int>)
    ensures |Stripped(s)| <= |s| && s == Stripped(s) + Repeat(48, |s| - |Stripped(s)|)
    ensures Stripped(s) != [] ==> Stripped(s)[|Stripped(s)| - 1] != 48
    decreases |s|
  {
    if s != [] && s[|s| - 1] == 48 {
      StrippedIs(s[..|s| - 1]);
      assert s == s[..|s| - 1] + [48];
    }
  }

  // ---------- The text ----------

  /** Prefix and suffix stand around the text of the amount. */
  lemma Surrounded(amount: int, prefix: seq<int>, suffix: seq<int>, decimals: nat, exponent: int, trailing: bool,
                   thousands: int)
    ensures Formatted(amount, prefix, suffix, decimals, exponent, trailing, thousands)
         == prefix + Formatted(amount, [], [], decimals, exponent, trailing, thousands) + suffix
  {
    hide Scaled, Groups, Decimal, Fraction;
  }

  /** With all decimals the text shows the scaled amount, and the point stands before the last `decimals` digits. */
  lemma TextShows(amount: int, decimals: nat, exponent: int, thousands: int)
    requires Scaled(amount, exponent) >= 0 && !IsDigit(thousands)
    ensures var text := Formatted(amount, [], [], decimals, exponent, true, thousands);
            && Shown(text) == Scaled(amount, exponent)
            && (decimals > 0 ==> |text| > decimals + 1 && text[|text| - 1 - decimals] == 46
                                 && AllDigits(text[|text| - decimals..]))
  {
    hide Scaled, Groups, Decimal, LastDigits, DigitsIn, Num;
    var m, p := Scaled(amount, exponent), Pow(10, decimals);
    PowPositive(10, decimals);
    DivNonnegative(m, p);
    DecimalShows(m / p);
    LastDigitsShow(m % p, decimals);
    DivModUnique(m % p, 0, m % p, p);
    GroupsShow(Decimal(m / p), thousands);
    GroupsNonempty(Decimal(m / p), thousands);
    var whole, last := Groups(Decimal(m / p), thousands), LastDigits(m % p, decimals);
    AsManyDigits(last);
    var text := Formatted(amount, [], [], decimals, exponent, true, thousands);
    if decimals > 0 {
      assert text == whole + [46] + last;
      JoinedAtPoint(whole, last, m / p, m % p, decimals);
      assert m == m / p * p + m % p;
    } else {
      assert text == whole;
      assert p == 1;
    }
  }

  lemma GroupsNonempty(s: seq<int>, sep: int)
    requires s != []
    ensures Groups(s, sep) != []
  {
  }

  lemma JoinedAtPoint(whole: seq<int>, last: seq<int>, q: int, r: int, decimals: nat)
    requires Shown(whole) == q && Shown(last) == r && |DigitsIn(last)| == decimals
    ensures Shown(whole + [46] + last) == q * Pow(10, decimals) + r
  {
    hide Num, Pow;
    DigitsInConcat(whole + [46], last);
    DigitsInConcat(whole, [46]);
    OneCharacter(46);
    assert DigitsIn(whole) + [] + DigitsIn(last) == DigitsIn(whole) + DigitsIn(last);
    NumConcat(DigitsIn(whole), DigitsIn(last), 10);
  }

  /**
   * Without trailing zeros the text is the same up to the last decimal that is not zero, or up to the point
   * when all of them are.
   */
  lemma TextWithoutZeros(amount: int, decimals: nat, exponent: int, thousands: int)
    ensures var short, long := Formatted(amount, [], [], decimals, exponent, false, thousands),
                               Formatted(amount, [], [], decimals, exponent, true, thousands);
            || short == long
            || long == short + [46] + Repeat(48, decimals)
            || exists k :: 0 < k < decimals && long == short + Repeat(48, k) && short[|short| - 1] != 48
  {
    hide Scaled, Groups, Decimal, LastDigits, Stripped;
    var m, p := Scaled(amount, exponent), Pow(10, decimals);
    PowPositive(10, decimals);
    var whole, last := Groups(Decimal(m / p), thousands), LastDigits(m % p, decimals);
    StrippedIs(last);
    var short, long := Formatted(amount, [], [], decimals, exponent, false, thousands),
                       Formatted(amount, [], [], decimals, exponent, true, thousands);
    if decimals > 0 {
      assert long == whole + [46] + last;
      var k := decimals - |Stripped(last)|;
      if Stripped(last) == [] {
        assert short == whole && last == Repeat(48, decimals);
      } else if k > 0 {
        assert short == whole + [46] + Stripped(last);
        assert long == short + Repeat(48, k);
      } else {
        assert Stripped(last) == last;
      }
    }
  }

  /** An amount scaled down: the digits are its quotient by the power of ten. */
  lemma ScaledDownShows(amount: int, decimals: nat, exponent: int, thousands: int)
    requires amount >= 0 && exponent <= 0 && !IsDigit(thousands)
    ensures var shown, p := Shown(Formatted(amount, [], [], decimals, exponent, true, thousands)), Pow(10, -exponent);
            shown * p <= amount < (shown + 1) * p
  {
    hide Formatted, Scaled, Pow, DigitsIn, Num;
    ScaledIsFloor(amount, exponent);
    TextShows(amount, decimals, exponent, thousands);
  }

  /** An amount scaled up: the digits are its product with the power of ten. */
  lemma ScaledUpShows(amount: int, decimals: nat, e: nat, thousands: int)
    requires amount >= 0 && !IsDigit(thousands)
    ensures Shown(Formatted(amount, [], [], decimals, e, true, thousands)) == amount * Pow(10, e)
  {
    hide Formatted, Scaled, Pow, DigitsIn, Num;
    ScaledUp(amount, e);
    TextShows(amount, decimals, e, thousands);
  }
}

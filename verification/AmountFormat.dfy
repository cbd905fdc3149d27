/**
 * Formatting of an amount into a character buffer, from the last character to the first (bn_format in crypto/bignum.c).
 */
module AmountFormat {
  import opened Arith
  import opened Limbs
  import opened Bignum
  import opened BignumLongDivision

  // ---------- The Python prototype in the comment of bn_format ----------

  /** The amount times 10^exponent, rounded down. */
  function Scaled(amount: int, exponent: int): int
  {
    if exponent >= 0 then amount * Pow(10, exponent)
    else
      PowPositive(10, -exponent);
      amount / Pow(10, -exponent)
  }

  /** The decimal digits of n. */
  function Decimal(n: int): seq<int>
    decreases n
  {
    if n < 10 then [48 + n] else Decimal(n / 10) + [48 + n % 10]
  }

  /** Groups of three digits, counted from the right. */
  function Groups(s: seq<int>, sep: int): seq<int>
  {
    if |s| <= 3 || sep == 0 then s else Groups(s[..|s| - 3], sep) + [sep] + s[|s| - 3..]
  }

  /** The last `decimals` digits of m. */
  function LastDigits(m: int, decimals: nat): (s: seq<int>)
    ensures |s| == decimals
    decreases decimals
  {
    if decimals == 0 then [] else LastDigits(m / 10, decimals - 1) + [48 + m % 10]
  }

  /** Without zeros at the end. */
  function Stripped(s: seq<int>): seq<int>
  {
    if s != [] && s[|s| - 1] == 48 then Stripped(s[..|s| - 1]) else s
  }

  /** The point and the decimal digits, or nothing. */
  function Fraction(m: int, decimals: nat, trailing: bool): seq<int>
  {
    var s := if trailing then LastDigits(m, decimals) else Stripped(LastDigits(m, decimals));
    if s == [] then [] else [46] + s
  }

  function Formatted(amount: int, prefix: seq<int>, suffix: seq<int>, decimals: nat, exponent: int, trailing: bool,
    thousands: int): seq<int>
  {
    var m, d := Scaled(amount, exponent), Pow(10, decimals);
    PowPositive(10, decimals);
    prefix + Groups(Decimal(m / d), thousands) + Fraction(m % d, decimals, trailing) + suffix
  }

  // ---------- The same from right to left ----------

  /** The digits with separators, when k digits stand to the right of them. */
  function Grouped(s: seq<int>, sep: int, k: nat): seq<int>
  {
    if |s| <= 1 then s
    else Grouped(s[..|s| - 1], sep, k + 1) + (if sep != 0 && (k + 1) % 3 == 0 then [sep] else []) + [s[|s| - 1]]
  }

  lemma {:induction false} GroupedIsGroups(s: seq<int>, sep: int, k: nat)
    requires k % 3 == 0
    ensures Grouped(s, sep, k) == Groups(s, sep)
    decreases |s|
  {
    if |s| > 3 {
      GroupedIsGroups(s[..|s| - 3], sep, k + 3);
      ThreeDigits(s, sep, k);
      assert s == s[..|s| - 3] + s[|s| - 3..];
    } else if |s| == 3 {
      assert s[..2][..1] == [s[0]];
      assert Grouped(s[..2], sep, k + 1) == [s[0]] + [s[1]];
      assert s == [s[0]] + [s[1]] + [s[2]];
    }
  }

  lemma ThreeDigits(s: seq<int>, sep: int, k: nat)
    requires k % 3 == 0 && |s| > 3
    ensures Grouped(s, sep, k) == Grouped(s[..|s| - 3], sep, k + 3) + (if sep != 0 then [sep] else []) + s[|s| - 3..]
  {
    var n := |s|;
    var t, u, v := s[..n - 1], s[..n - 2], s[..n - 3];
    assert t[..n - 2] == u && u[..n - 3] == v;
    assert Grouped(s, sep, k) == Grouped(t, sep, k + 1) + [s[n - 1]];
    assert Grouped(t, sep, k + 1) == Grouped(u, sep, k + 2) + [s[n - 2]];
    assert Grouped(u, sep, k + 2) == Grouped(v, sep, k + 3) + (if sep != 0 then [sep] else []) + [s[n - 3]];
    assert s[n - 3..] == [s[n - 3]] + [s[n - 2]] + [s[n - 1]];
  }

  lemma {:induction false} DigitsOfRemainder(m: int, decimals: nat)
    requires m >= 0
    ensures Pow(10, decimals) > 0 && LastDigits(m % Pow(10, decimals), decimals) == LastDigits(m, decimals)
    decreases decimals
  {
    PowPositive(10, decimals);
    if decimals > 0 {
      var p := Pow(10, decimals - 1);
      PowPositive(10, decimals - 1);
      DigitsOfRemainder(m / 10, decimals - 1);
      SplitRemainder(m, p);
    }
  }

  lemma SplitRemainder(m: int, p: int)
    requires m >= 0 && p > 0
    ensures m % (10 * p) / 10 == m / 10 % p && m % (10 * p) % 10 == m % 10
  {
    var q, r := m / 10 / p, m / 10 % p;
    assert m / 10 == q * p + r;
    assert m == q * (10 * p) + (10 * r + m % 10) by {
      assert 10 * (q * p) == q * (10 * p);
    }
    DivModUnique(m, q, 10 * r + m % 10, 10 * p);
    DivModUnique(10 * r + m % 10, r, m % 10, 10);
  }

  /** What still stands before the text written so far, while the decimal digits of m are written. */
  function Head(prefix: seq<int>, m: int, decimals: nat, started: bool, trailing: bool, sep: int): seq<int>
  {
    PowPositive(10, decimals);
    prefix + Grouped(Decimal(m / Pow(10, decimals)), sep, 0)
      + if started then [46] + LastDigits(m, decimals) else Fraction(m, decimals, trailing)
  }

  lemma NextQuotient(m: int, decimals: nat)
    requires m >= 0 && decimals > 0
    ensures Pow(10, decimals) > 0 && Pow(10, decimals - 1) > 0
      && m / Pow(10, decimals) == m / 10 / Pow(10, decimals - 1)
  {
    PowPositive(10, decimals);
    PowPositive(10, decimals - 1);
    DivDiv(m, 10, Pow(10, decimals - 1));
  }

  lemma {:induction false} StripZero(s: seq<int>)
    ensures Stripped(s + [48]) == Stripped(s)
  {
    assert (s + [48])[..|s|] == s;
  }

  /** One decimal digit: it is written if it is not zero, or if something must be or has been written. */
  lemma HeadStep(prefix: seq<int>, m: int, decimals: nat, started: bool, trailing: bool, sep: int)
    requires m >= 0 && decimals > 0
    ensures started || m % 10 != 0 || trailing ==>
      Head(prefix, m, decimals, started, trailing, sep) == Head(prefix, m / 10, decimals - 1, true, trailing,
        sep) + [48 + m % 10]
    ensures !(started || m % 10 != 0 || trailing) ==>
      Head(prefix, m, decimals, false, trailing, sep) == Head(prefix, m / 10, decimals - 1, false, trailing, sep)
  {
    hide Decimal, Grouped, Pow;
    NextQuotient(m, decimals);
    var s, digit := LastDigits(m / 10, decimals - 1), 48 + m % 10;
    assert LastDigits(m, decimals) == s + [digit];
    StripZero(s);
    var g := prefix + Grouped(Decimal(m / Pow(10, decimals)), sep, 0);
    assert g + ([46] + (s + [digit])) == g + ([46] + s) + [digit];
  }

  lemma {:induction false} NoDigits(decimals: nat)
    ensures Stripped(LastDigits(0, decimals)) == []
  {
    if decimals > 0 {
      NoDigits(decimals - 1);
      StripZero(LastDigits(0, decimals - 1));
    }
  }

  /** When nothing is left of the number, no digit is left to write. */
  lemma HeadZero(prefix: seq<int>, decimals: nat, sep: int)
    ensures Head(prefix, 0, decimals, false, false, sep) == Head(prefix, 0, 0, false, false, sep)
  {
    hide Decimal, Grouped;
    NoDigits(decimals);
    PowPositive(10, decimals);
    DivModUnique(0, 0, 0, Pow(10, decimals));
  }

  /** The number with `exponent` zeros at the end. */
  lemma LastZero(t: int, exponent: nat)
    requires t >= 0 && exponent > 0
    ensures t * Pow(10, exponent) >= 0 && t * Pow(10, exponent) % 10 == 0
    ensures t * Pow(10, exponent) / 10 == t * Pow(10, exponent - 1)
    ensures t > 0 ==> t * Pow(10, exponent) >= 10
  {
    var p := Pow(10, exponent - 1);
    PowPositive(10, exponent - 1);
    assert t * (10 * p) == t * p * 10 + 0;
    MulMonotone(0, t, p, p);
    DivModUnique(t * (10 * p), t * p, 0, 10);
    if t > 0 {
      MulMonotone(1, t, 1, p);
    }
  }

  lemma {:induction false} SkipZeros(prefix: seq<int>, t: int, exponent: nat, decimals: nat, zeros: nat, sep: int)
    requires t >= 0 && zeros <= exponent && zeros <= decimals
    ensures Head(prefix, t * Pow(10, exponent), decimals, false, false, sep)
         == Head(prefix, t * Pow(10, exponent - zeros), decimals - zeros, false, false, sep)
    decreases zeros
  {
    hide Head, Pow;
    if zeros > 0 {
      LastZero(t, exponent);
      HeadStep(prefix, t * Pow(10, exponent), decimals, false, false, sep);
      SkipZeros(prefix, t, exponent - 1, decimals - 1, zeros - 1, sep);
    }
  }

  lemma HeadStarted(prefix: seq<int>, m: int, decimals: nat, sep: int)
    requires decimals > 0
    ensures Head(prefix, m, decimals, false, true, sep) == Head(prefix, m, decimals, true, true, sep)
  {
  }

  /** One digit of the integer part, with the separator that precedes it when more follow. */
  lemma GroupStep(m: int, sep: int, k: nat)
    requires m >= 10
    ensures Grouped(Decimal(m), sep, k)
         == Grouped(Decimal(m / 10), sep, k + 1) + (if sep != 0 && (k + 1) % 3 == 0 then [sep] else []) + [48 + m % 10]
  {
    hide Grouped;
    assert Decimal(m) == Decimal(m / 10) + [48 + m % 10];
    LastGrouped(Decimal(m / 10), 48 + m % 10, sep, k);
  }

  lemma LastGrouped(t: seq<int>, c: int, sep: int, k: nat)
    requires |t| >= 1
    ensures Grouped(t + [c], sep, k)
         == Grouped(t, sep, k + 1) + (if sep != 0 && (k + 1) % 3 == 0 then [sep] else []) + [c]
  {
    assert (t + [c])[..|t|] == t;
  }

  lemma DigitStep(m: int, sep: int, k: nat)
    requires m >= 0
    ensures Grouped(Decimal(m), sep, k)
         == (if m / 10 == 0 then [] else Grouped(Decimal(m / 10), sep, k + 1))
            + (if sep != 0 && m / 10 != 0 && (k + 1) % 3 == 0 then [sep] else []) + [48 + m % 10]
  {
    if m >= 10 {
      GroupStep(m, sep, k);
    }
  }

  lemma NoScale(t: int, e: nat)
    requires t == 0 || e == 0
    ensures t * Pow(10, e) == t
  {
  }

  // ---------- Writing ----------

  /** One more character before the others; without room the buffer is cleared (BN_FORMAT_ADD_OUTPUT_CHAR). */
  method Add(output: array<int>, position: nat, c: int, ghost head: seq<int>,
    ghost target: seq<int>) returns (ok: bool, next: nat)
    requires position <= output.Length && target == head + [c] + output[position..]
    modifies output
    ensures next <= output.Length && (ok ==> target == head + output[next..])
    ensures !ok ==> |target| > output.Length && forall k :: 0 <= k < output.Length ==> output[k] == 0
  {
    if position > 0 {
      ok, next := true, position - 1;
      output[next] := c;
      assert output[next..] == [c] + old(output[position..]);
    } else {
      ok, next := false, 0;
      for k := 0 to output.Length
        invariant forall j :: 0 <= j < k ==> output[j] == 0
      {
        output[k] := 0;
      }
    }
  }

  /** A whole string, from its last character on. */
  method AddText(output: array<int>, position: nat, text: seq<int>, ghost head: seq<int>,
    ghost target: seq<int>) returns (ok: bool, next: nat)
    requires position <= output.Length && target == head + text + output[position..]
    modifies output
    ensures next <= output.Length && (ok ==> target == head + output[next..])
    ensures !ok ==> |target| > output.Length && forall k :: 0 <= k < output.Length ==> output[k] == 0
  {
    ok, next := true, position;
    var i := |text|;
    assert text[..i] == text;
    while i > 0
      invariant 0 <= i <= |text| && ok && next <= output.Length && target == head + text[..i] + output[next..]
    {
      i := i - 1;
      assert text[..i + 1] == text[..i] + [text[i]];
      assert head + text[..i + 1] == head + text[..i] + [text[i]];
      ok, next := Add(output, next, text[i], head + text[..i], target);
      if !ok {
        return;
      }
    }
    assert head + text[..0] == head;
  }

  /** Divides by ten for each step of a negative exponent, unless nothing is left to divide. */
  method ScaleDown(temp: array<u32>, exponent: int) returns (exponent': nat)
    requires IsBn(temp)
    modifies temp
    ensures IsBn(temp) && V(temp) >= 0 && V(temp) * Pow(10, exponent') == Scaled(old(V(temp)), exponent)
  {
    hide Value, Pow;
    ghost var amount := V(temp);
    NormBound(temp[..]);
    var e := exponent;
    TimesOne(amount);
    while e < 0
      invariant IsBn(temp) && V(temp) >= 0 && exponent <= e && (exponent < 0 ==> e <= 0)
        && (exponent >= 0 ==> e == exponent)
      invariant Pow(10, e - exponent) > 0 && V(temp) == amount / Pow(10, e - exponent)
    {
      var zero := BnIsZero(temp);
      if zero {
        Vanished(amount, e - exponent, -exponent);
        e := 0;
        break;
      }
      var digit := BnDivmod10(temp);
      Tenth(amount, e - exponent);
      e := e + 1;
    }
    TimesOne(V(temp));
    exponent' := e;
  }

  lemma TimesOne(n: int)
    ensures Pow(10, 0) == 1 && n * Pow(10, 0) == n && n / 1 == n
  {
  }

  lemma Tenth(amount: int, k: nat)
    requires amount >= 0
    ensures Pow(10, k) > 0 && Pow(10, k + 1) > 0 && amount / Pow(10, k) / 10 == amount / Pow(10, k + 1)
      && amount / Pow(10, k + 1) >= 0
  {
    PowPositive(10, k);
    PowPositive(10, k + 1);
    DivDiv(amount, Pow(10, k), 10);
    DivNonnegative(amount, Pow(10, k + 1));
  }

  lemma {:induction false} Vanished(amount: int, j: nat, k: nat)
    requires amount >= 0 && j <= k && Pow(10, j) > 0 && amount / Pow(10, j) == 0
    ensures Pow(10, k) > 0 && amount / Pow(10, k) == 0
    decreases k
  {
    if j < k {
      Vanished(amount, j, k - 1);
      Tenth(amount, k - 1);
    }
  }

  /** The fractional digits: zeros of the exponent first, then those of the number. */
  method AddFraction(temp: array<u32>, output: array<int>, position: nat, decimals: nat, exponent: nat, trailing: bool,
                     ghost prefix: seq<int>, ghost sep: int, ghost target: seq<int>)
    returns (ok: bool, next: nat, exponent': nat, started: bool)
    requires IsBn(temp) && position <= output.Length && V(temp) >= 0
    requires target == Head(prefix, V(temp) * Pow(10, exponent), decimals, false, trailing, sep) + output[position..]
    modifies temp, output
    ensures IsBn(temp) && V(temp) >= 0 && next <= output.Length
    ensures ok ==> target == Head(prefix, V(temp) * Pow(10, exponent'), 0, started, trailing, sep) + output[next..]
    ensures !ok ==> |target| > output.Length && forall k :: 0 <= k < output.Length ==> output[k] == 0
  {
    hide Head, Value, Pow;
    ghost var t := V(temp);
    ok, next, started := true, position, false;
    var zeros := if decimals < exponent then decimals else exponent;
    var d := decimals - zeros;
    exponent' := exponent - zeros;
    if trailing && zeros > 0 {
      started := true;
      HeadStarted(prefix, t * Pow(10, exponent), decimals, sep);
      while zeros > 0
        invariant ok && next <= output.Length && IsBn(temp) && V(temp) == t
        invariant 0 <= zeros && target == Head(prefix, t * Pow(10, exponent' + zeros), d + zeros, true, true,
          sep) + output[next..]
      {
        LastZero(t, exponent' + zeros);
        HeadStep(prefix, t * Pow(10, exponent' + zeros), d + zeros, true, true, sep);
        zeros := zeros - 1;
        ok, next := Add(output, next, 48, Head(prefix, t * Pow(10, exponent' + zeros), d + zeros, true, true, sep),
          target);
        if !ok {
          return;
        }
      }
    } else if zeros > 0 {
      SkipZeros(prefix, t, exponent, decimals, zeros, sep);
    }
    ok, next, started := AddDigits(temp, output, next, d, exponent', trailing, started, prefix, sep, target);
  }

  /** The fractional digits of the number itself. */
  method AddDigits(temp: array<u32>, output: array<int>, position: nat, decimals: nat, exponent: nat, trailing: bool,
    begun: bool, ghost prefix: seq<int>, ghost sep: int, ghost target: seq<int>)
    returns (ok: bool, next: nat, started: bool)
    requires IsBn(temp) && position <= output.Length && V(temp) >= 0 && (exponent == 0 || decimals == 0)
    requires target == Head(prefix, V(temp) * Pow(10, exponent), decimals, begun, trailing, sep) + output[position..]
    modifies temp, output
    ensures IsBn(temp) && V(temp) >= 0 && next <= output.Length
    ensures ok ==> target == Head(prefix, V(temp) * Pow(10, exponent), 0, started, trailing, sep) + output[next..]
    ensures !ok ==> |target| > output.Length && forall k :: 0 <= k < output.Length ==> output[k] == 0
  {
    hide Head, Value, Pow;
    ok, next, started := true, position, begun;
    var d := decimals;
    while d > 0
      invariant ok && next <= output.Length && IsBn(temp) && V(temp) >= 0 && 0 <= d <= decimals
      invariant target == Head(prefix, V(temp) * Pow(10, exponent), d, started, trailing, sep) + output[next..]
    {
      ghost var m := V(temp);
      TimesOne(m);
      HeadStep(prefix, m, d, started, trailing, sep);
      Tenth(m, 0);
      var digit := BnDivmod10(temp);
      TimesOne(V(temp));
      if started || digit != 0 || trailing {
        started := true;
        ok, next := Add(output, next, 48 + digit as int, Head(prefix, V(temp), d - 1, true, trailing, sep), target);
        if !ok {
          return;
        }
      } else {
        var zero := BnIsZero(temp);
        if zero {
          HeadZero(prefix, d - 1, sep);
          return;
        }
      }
      d := d - 1;
    }
  }

  /** The zeros that the exponent puts behind the integer part, with separators. */
  method AddScale(output: array<int>, position: nat, exponent: nat, sep: int, ghost t: int, ghost prefix: seq<int>,
                  ghost target: seq<int>)
    returns (ok: bool, next: nat, digits: nat)
    requires position <= output.Length && t > 0
    requires target == prefix + Grouped(Decimal(t * Pow(10, exponent)), sep, 0) + output[position..]
    modifies output
    ensures next <= output.Length
    ensures ok ==> target == prefix + Grouped(Decimal(t * Pow(10, 0)), sep, digits) + output[next..]
    ensures !ok ==> |target| > output.Length && forall k :: 0 <= k < output.Length ==> output[k] == 0
  {
    hide Pow, Grouped, Decimal;
    ok, next, digits := true, position, 0;
    var e := exponent;
    while e > 0
      invariant ok && next <= output.Length
      invariant target == prefix + Grouped(Decimal(t * Pow(10, e)), sep, digits) + output[next..]
    {
      LastZero(t, e);
      GroupStep(t * Pow(10, e), sep, digits);
      e := e - 1;
      digits := digits + 1;
      ok, next := AddDigit(output, next, 48, sep != 0 && digits % 3 == 0, sep,
                           prefix + Grouped(Decimal(t * Pow(10, e)), sep, digits), target);
      if !ok {
        return;
      }
    }
  }

  /** The digits of the integer part, with separators. */
  method AddInteger(temp: array<u32>, output: array<int>, position: nat, exponent: nat, sep: int,
    ghost prefix: seq<int>, ghost target: seq<int>)
    returns (ok: bool, next: nat)
    requires IsBn(temp) && position <= output.Length && V(temp) >= 0
    requires target == prefix + Grouped(Decimal(V(temp) * Pow(10, exponent)), sep, 0) + output[position..]
    modifies temp, output
    ensures next <= output.Length && (ok ==> target == prefix + output[next..])
    ensures !ok ==> |target| > output.Length && forall k :: 0 <= k < output.Length ==> output[k] == 0
  {
    hide Value, Pow, Grouped, Decimal;
    ok, next := true, position;
    var digits := 0;
    var isZero := BnIsZero(temp);
    if !isZero {
      ok, next, digits := AddScale(output, position, exponent, sep, V(temp), prefix, target);
      if !ok {
        return;
      }
    }
    NoScale(V(temp), if isZero then exponent else 0);
    isZero := false;
    while !isZero
      invariant ok && next <= output.Length && IsBn(temp) && V(temp) >= 0 && 0 <= digits
      invariant target == prefix + (if isZero then [] else Grouped(Decimal(V(temp)), sep, digits)) + output[next..]
      decreases if isZero then 0 else 1, V(temp)
    {
      ghost var m := V(temp);
      Tenth(m, 0);
      TimesOne(m);
      digits := digits + 1;
      var digit := BnDivmod10(temp);
      isZero := BnIsZero(temp);
      DigitStep(m, sep, digits - 1);
      ok, next := AddDigit(output, next, 48 + digit as int, sep != 0 && !isZero && digits % 3 == 0, sep,
                           prefix + if isZero then [] else Grouped(Decimal(V(temp)), sep, digits), target);
      if !ok {
        return;
      }
    }
    assert prefix + [] == prefix;
  }

  /** A digit, and a separator before it where one belongs. */
  method AddDigit(output: array<int>, position: nat, digit: int, separated: bool, sep: int, ghost head: seq<int>,
    ghost target: seq<int>)
    returns (ok: bool, next: nat)
    requires position <= output.Length
      && target == head + (if separated then [sep] else []) + [digit] + output[position..]
    modifies output
    ensures next <= output.Length && (ok ==> target == head + output[next..])
    ensures !ok ==> |target| > output.Length && forall k :: 0 <= k < output.Length ==> output[k] == 0
  {
    ok, next := Add(output, position, digit, head + (if separated then [sep] else []), target);
    if ok && separated {
      ok, next := Add(output, next, sep, head, target);
    } else {
      assert head + [] == head;
    }
  }

  lemma FormattedIsHead(amount: int, prefix: seq<int>, suffix: seq<int>, decimals: nat, exponent: int, trailing: bool,
    thousands: int)
    requires Scaled(amount, exponent) >= 0
    ensures Formatted(amount, prefix, suffix, decimals, exponent, trailing, thousands)
         == Head(prefix, Scaled(amount, exponent), decimals, false, trailing, thousands) + suffix
  {
    hide Scaled, Decimal, Grouped, Groups, LastDigits, Stripped;
    var m := Scaled(amount, exponent);
    DigitsOfRemainder(m, decimals);
    GroupedIsGroups(Decimal(m / Pow(10, decimals)), thousands, 0);
  }

  lemma HeadAtPoint(prefix: seq<int>, m: int, started: bool, trailing: bool, sep: int)
    ensures Head(prefix, m, 0, started, trailing, sep) == prefix + Grouped(Decimal(m), sep,
      0) + if started then [46] else []
  {
    hide Decimal, Grouped;
    TimesOne(m);
  }

  /** Moves the text from `position` to the start of the buffer (memmove). */
  method MoveToStart(output: array<int>, position: nat) returns (length: nat)
    requires position <= output.Length
    modifies output
    ensures length == output.Length - position && output[..length] == old(output[position..])
  {
    length := output.Length - position;
    for k := 0 to length
      invariant forall j :: 0 <= j < k ==> output[j] == old(output[position + j])
      invariant forall j :: k <= j < output.Length ==> output[j] == old(output[j])
    {
      output[k] := output[position + k];
    }
    assert old(output[position..]) == output[..length];
  }

  /**
   * Formats an amount (bn_format): the text of the prototype with a terminator when there is room for both,
   * otherwise 0 and a cleared buffer.
   */
  method BnFormat(amount: array<u32>, prefix: seq<int>, suffix: seq<int>, decimals: nat, exponent: int, trailing: bool,
                  thousands: int, output: array<int>) returns (length: nat)
    requires IsBn(amount)
    modifies output
    ensures var text := Formatted(V(amount), prefix, suffix, decimals, exponent, trailing, thousands);
            if |text| < output.Length then length == |text| && output[..length + 1] == text + [0]
            else length == 0 && forall k :: 0 <= k < output.Length ==> output[k] == 0
  {
    hide Value, Pow, Head, Formatted, Scaled, Grouped, Decimal;
    var temp := new u32[9];
    BnCopy(amount, temp);
    ghost var a := V(amount);
    assert V(temp) == a;
    length := 0;
    ghost var text := Formatted(a, prefix, suffix, decimals, exponent, trailing, thousands);
    ghost var target := text + [0];
    assert output[output.Length..] == [] && target == text + [0] + [];
    var ok, position := Add(output, output.Length, 0, text, target);
    if !ok {
      return;
    }
    var e := ScaleDown(temp, exponent);
    ghost var m := V(temp) * Pow(10, e);
    PowPositive(10, e);
    MulMonotone(0, V(temp), Pow(10, e), Pow(10, e));
    FormattedIsHead(a, prefix, suffix, decimals, exponent, trailing, thousands);
    ok, position := AddText(output, position, suffix, Head(prefix, m, decimals, false, trailing, thousands), target);
    if !ok {
      return;
    }
    ok, position := AddNumber(temp, output, position, decimals, e, trailing, thousands, prefix, target);
    if !ok {
      return;
    }
    assert [] + prefix == prefix;
    ok, position := AddText(output, position, prefix, [], target);
    if !ok {
      return;
    }
    assert target == output[position..];
    length := MoveToStart(output, position);
    length := length - 1;
  }

  /** The fractional part, the point, and the integer part. */
  method AddNumber(temp: array<u32>, output: array<int>, position: nat, decimals: nat, exponent: nat, trailing: bool,
    thousands: int,
                   ghost prefix: seq<int>, ghost target: seq<int>)
    returns (ok: bool, next: nat)
    requires IsBn(temp) && position <= output.Length && V(temp) >= 0
    requires target == Head(prefix, V(temp) * Pow(10, exponent), decimals, false, trailing,
      thousands) + output[position..]
    modifies temp, output
    ensures next <= output.Length && (ok ==> target == prefix + output[next..])
    ensures !ok ==> |target| > output.Length && forall k :: 0 <= k < output.Length ==> output[k] == 0
  {
    hide Value, Pow, Head, Grouped, Decimal;
    var e, started;
    ok, next, e, started := AddFraction(temp, output, position, decimals, exponent, trailing, prefix, thousands,
      target);
    if !ok {
      return;
    }
    ghost var head := prefix + Grouped(Decimal(V(temp) * Pow(10, e)), thousands, 0);
    HeadAtPoint(prefix, V(temp) * Pow(10, e), started, trailing, thousands);
    if started {
      ok, next := Add(output, next, 46, head, target);
      if !ok {
        return;
      }
    }
    assert head + [] == head;
    ok, next := AddInteger(temp, output, next, e, thousands, prefix, target);
  }
}

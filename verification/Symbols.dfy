/** Five-bit symbols, their characters, and the regrouping of bits, shared by Bech32 and CashAddr. */
module Symbols {
  import opened Arith
  import opened Numerals

  // ---------- Characters ----------

  /** The character of each symbol, as codes: qpzry9x8gf2tvdw0s3jn54khce6mua7l. */
  const CHARSET: seq<int> := [
    113, 112, 122, 114, 121, 57, 120, 56, 103, 102, 50, 116, 118, 100, 119, 48,
    115, 51, 106, 110, 53, 52, 107, 104, 99, 101, 54, 109, 117, 97, 55, 108]

  lemma CharsetIs(d: int)
    requires 0 <= d < 32
    ensures CHARSET[d] == "qpzry9x8gf2tvdw0s3jn54khce6mua7l"[d] as int
  {
  }

  /** The symbols of the characters with codes 16 * r to 16 * r + 15, -1 for none. */
  function ReverseRow(r: int): (s: seq<int>)
    ensures |s| == 16
  {
    if r == 3 then [15, -1, 10, 17, 21, 20, 26, 30, 7, 5, -1, -1, -1, -1, -1, -1]
    else if r == 4 || r == 6 then [-1, 29, -1, 24, 13, 25, 9, 8, 23, -1, 18, 22, 31, 27, 19, -1]
    else if r == 5 || r == 7 then [1, 0, 3, 16, 11, 28, 12, 14, 6, 4, 2, -1, -1, -1, -1, -1]
    else [-1, -1, -1, -1, -1, -1, -1, -1, -1, -1, -1, -1, -1, -1, -1, -1]
  }

  function Char(d: int): int { if 0 <= d < 32 then CHARSET[d] else 0 }

  /** The symbol of a character code, or -1. */
  function Symbol(c: int): int { if 0 <= c < 128 then ReverseRow(c / 16)[c % 16] else -1 }

  predicate IsUpper(c: int) { 65 <= c <= 90 }

  predicate IsLower(c: int) { 97 <= c <= 122 }

  function Lower(c: int): int { if IsUpper(c) then c + 32 else c }

  /** The two tables agree on one symbol. */
  predicate Matches(d: int)
  {
    48 <= Char(d) < 123 && Symbol(Char(d)) == d && !IsUpper(Char(d)) && Char(d) != 49 && Char(d) != 58
  }

  lemma CharacterTable0(d: int)
    requires 0 <= d < 8
    ensures Matches(d)
  {
    assert Char(0) == 113 && ReverseRow(7)[1] == 0;
    assert Char(1) == 112 && ReverseRow(7)[0] == 1;
    assert Char(2) == 122 && ReverseRow(7)[10] == 2;
    assert Char(3) == 114 && ReverseRow(7)[2] == 3;
    assert Char(4) == 121 && ReverseRow(7)[9] == 4;
    assert Char(5) == 57 && ReverseRow(3)[9] == 5;
    assert Char(6) == 120 && ReverseRow(7)[8] == 6;
    assert Char(7) == 56 && ReverseRow(3)[8] == 7;
  }

  lemma CharacterTable1(d: int)
    requires 8 <= d < 16
    ensures Matches(d)
  {
    assert Char(8) == 103 && ReverseRow(6)[7] == 8;
    assert Char(9) == 102 && ReverseRow(6)[6] == 9;
    assert Char(10) == 50 && ReverseRow(3)[2] == 10;
    assert Char(11) == 116 && ReverseRow(7)[4] == 11;
    assert Char(12) == 118 && ReverseRow(7)[6] == 12;
    assert Char(13) == 100 && ReverseRow(6)[4] == 13;
    assert Char(14) == 119 && ReverseRow(7)[7] == 14;
    assert Char(15) == 48 && ReverseRow(3)[0] == 15;
  }

  lemma CharacterTable2(d: int)
    requires 16 <= d < 24
    ensures Matches(d)
  {
    assert Char(16) == 115 && ReverseRow(7)[3] == 16;
    assert Char(17) == 51 && ReverseRow(3)[3] == 17;
    assert Char(18) == 106 && ReverseRow(6)[10] == 18;
    assert Char(19) == 110 && ReverseRow(6)[14] == 19;
    assert Char(20) == 53 && ReverseRow(3)[5] == 20;
    assert Char(21) == 52 && ReverseRow(3)[4] == 21;
    assert Char(22) == 107 && ReverseRow(6)[11] == 22;
    assert Char(23) == 104 && ReverseRow(6)[8] == 23;
  }

  lemma CharacterTable3(d: int)
    requires 24 <= d < 32
    ensures Matches(d)
  {
    assert Char(24) == 99 && ReverseRow(6)[3] == 24;
    assert Char(25) == 101 && ReverseRow(6)[5] == 25;
    assert Char(26) == 54 && ReverseRow(3)[6] == 26;
    assert Char(27) == 109 && ReverseRow(6)[13] == 27;
    assert Char(28) == 117 && ReverseRow(7)[5] == 28;
    assert Char(29) == 97 && ReverseRow(6)[1] == 29;
    assert Char(30) == 55 && ReverseRow(3)[7] == 30;
    assert Char(31) == 108 && ReverseRow(6)[12] == 31;
  }

  lemma CharacterTable(d: int)
    requires 0 <= d < 32
    ensures 48 <= Char(d) < 123 && Symbol(Char(d)) == d && !IsUpper(Char(d)) && Char(d) != 49 && Char(d) != 58
  {
    hide Char, Symbol, ReverseRow, IsUpper;
    if d < 8 {
      CharacterTable0(d);
    } else if d < 16 {
      CharacterTable1(d);
    } else if d < 24 {
      CharacterTable2(d);
    } else {
      CharacterTable3(d);
    }
  }

  lemma SymbolRange(c: int)
    ensures -1 <= Symbol(c) < 32
  {
    if 0 <= c < 128 {
      RowRange(c / 16, c % 16);
    }
  }

  lemma RowRange(r: int, k: int)
    requires 0 <= k < 16
    ensures -1 <= ReverseRow(r)[k] < 32
  {
  }

  function Chars(ds: seq<int>): (s: seq<int>)
    ensures |s| == |ds|
  {
    seq(|ds|, i requires 0 <= i < |ds| => Char(ds[i]))
  }

  function Values(s: seq<int>): (vs: seq<int>)
    ensures |vs| == |s|
  {
    seq(|s|, i requires 0 <= i < |s| => Symbol(s[i]))
  }

  lemma ValuesOfChars(ds: seq<int>)
    requires forall i :: 0 <= i < |ds| ==> 0 <= ds[i] < 32
    ensures Values(Chars(ds)) == ds
    ensures forall i :: 0 <= i < |ds| ==> Chars(ds)[i] != 49 && Chars(ds)[i] != 58 && !IsUpper(Chars(ds)[i])
  {
    forall i | 0 <= i < |ds|
      ensures Values(Chars(ds))[i] == ds[i] && Chars(ds)[i] != 49 && Chars(ds)[i] != 58 && !IsUpper(Chars(ds)[i])
    {
      CharacterTable(ds[i]);
    }
  }

  /** The last position of a character, or -1. */
  function LastIndex(s: seq<int>, c: int): (i: int)
    ensures -1 <= i < |s|
    ensures i >= 0 ==> s[i] == c
    ensures forall j :: i < j < |s| ==> s[j] != c
  {
    if s == [] then -1
    else if s[|s| - 1] == c then |s| - 1
    else LastIndex(s[..|s| - 1], c)
  }

  // ---------- Regrouping bits ----------

  /** `out` holds the bits of `inp`, all but the last `bits`, which make the number `rest`. */
  ghost predicate Regrouped(inp: seq<int>, inbits: nat, out: seq<int>, outbits: nat, bits: int, rest: int)
  {
    && bits >= 0 && |inp| * inbits == |out| * outbits + bits && InBase(out, Pow(2, outbits))
    && 0 <= rest < Pow(2, bits)
    && Num(inp, Pow(2, inbits)) == Num(out, Pow(2, outbits)) * Pow(2, bits) + rest
  }

  /** The low a + b bits of a number are its low b bits and the a bits above. */
  lemma ModSplit(v: int, a: nat, b: nat)
    ensures Pow(2, a) > 0 && Pow(2, b) > 0 && Pow(2, a + b) > 0
    ensures v % Pow(2, a + b) == v / Pow(2, b) % Pow(2, a) * Pow(2, b) + v % Pow(2, b)
  {
    PowPositive(2, a);
    PowPositive(2, b);
    PowAdd(2, a, b);
    SplitAt(v, Pow(2, a), Pow(2, b));
  }

  lemma SplitAt(v: int, p: int, q: int)
    requires p > 0 && q > 0
    ensures p * q > 0 && v % (p * q) == v / q % p * q + v % q
  {
    MulMonotone(1, p, 1, q);
    var t, r := v / q, v % q;
    var u, s := t / p, t % p;
    assert v == u * (p * q) + (s * q + r) by {
      assert t * q == u * p * q + s * q;
      MulAssoc(u, p, q);
    }
    assert s * q + r < p * q by {
      MulMonotone(s + 1, p, q, q);
    }
    MulMonotone(0, s, q, q);
    DivModUnique(v, u, s * q + r, p * q);
  }

  /** Shifting in a group, in a word that wraps: the low bits are as wide as they should be. */
  lemma ShiftIn(val: int, bits: nat, inbits: nat, v: int)
    requires bits + inbits <= 32 && 0 <= v < Pow(2, inbits) && val >= 0
    ensures Pow(2, bits) > 0 && Pow(2, bits + inbits) > 0
    ensures (val * Pow(2, inbits) % WORD + v) % Pow(2, bits + inbits) == val % Pow(2, bits) * Pow(2, inbits) + v
  {
    var p, q := Pow(2, bits), Pow(2, inbits);
    PowPositive(2, bits);
    PowPositive(2, inbits);
    PowAdd(2, bits, inbits);
    TwoTo32(bits + inbits);
    var k := Pow(2, 32 - (bits + inbits));
    PowPositive(2, 32 - (bits + inbits));
    ModOfFactor(val * q, k, p * q);
    assert (val * q % WORD + v) % (p * q) == (val * q + v) % (p * q) by {
      CongAdd(val * q % WORD, val * q, v, v, p * q);
    }
    ShiftExact(val, p, q, v);
  }

  lemma TwoTo16()
    ensures Pow(2, 16) == 65536
  {
    assert Pow(2, 16) == 2 * (2 * (2 * (2 * Pow(2, 12))));
    assert Pow(2, 12) == 2 * (2 * (2 * (2 * Pow(2, 8))));
    assert Pow(2, 8) == 2 * (2 * (2 * (2 * Pow(2, 4))));
  }

  lemma TwoTo32(n: nat)
    requires n <= 32
    ensures Pow(2, 32 - n) * Pow(2, n) == WORD
  {
    hide Pow;
    PowAdd(2, 32 - n, n);
    PowAdd(2, 16, 16);
    TwoTo16();
  }

  lemma ShiftExact(val: int, p: int, q: int, v: int)
    requires p > 0 && q > 0 && 0 <= v < q && val >= 0
    ensures p * q > 0 && (val * q + v) % (p * q) == val % p * q + v
  {
    MulMonotone(1, p, 1, q);
    var u, s := val / p, val % p;
    assert val * q + v == u * (p * q) + (s * q + v) by {
      assert val * q == u * p * q + s * q;
      MulAssoc(u, p, q);
    }
    MulMonotone(s + 1, p, q, q);
    MulMonotone(0, s, q, q);
    DivModUnique(val * q + v, u, s * q + v, p * q);
  }

  /** One group shifted into the accumulator, before anything is taken out. */
  lemma GroupIn(inp: seq<int>, i: nat, inbits: nat, out: seq<int>, outbits: nat, bits: nat, val: int, val': int)
    requires 1 <= inbits && 1 <= outbits && bits + inbits <= 32 && i < |inp| && InBase(inp, Pow(2, inbits)) && val >= 0
    requires Pow(2, bits) > 0 && Regrouped(inp[..i], inbits, out, outbits, bits, val % Pow(2, bits))
    requires val' == val * Pow(2, inbits) % WORD + inp[i]
    ensures Pow(2, bits + inbits) > 0
    ensures Regrouped(inp[..i + 1], inbits, out, outbits, bits + inbits, val' % Pow(2, bits + inbits))
  {
    var p, q := Pow(2, bits), Pow(2, inbits);
    ShiftIn(val, bits, inbits, inp[i]);
    assert inp[..i + 1][..i] == inp[..i];
    assert Pow(2, bits + inbits) == p * q by {
      PowAdd(2, bits, inbits);
    }
    InStep(Num(inp[..i], q), Num(out, Pow(2, outbits)), p, q, val % p, inp[i], val' % Pow(2, bits + inbits));
    OneMore(i, inbits);
    assert val % p * q + inp[i] < p * q by {
      assert 0 <= val' % Pow(2, bits + inbits) < Pow(2, bits + inbits);
    }
  }

  lemma OneMore(n: int, k: int)
    ensures (n + 1) * k == n * k + k
  {
  }

  lemma InStep(n: int, o: int, p: int, q: int, r: int, v: int, s: int)
    requires n == o * p + r && s == r * q + v
    ensures n * q + v == o * (p * q) + s
  {
    assert (o * p + r) * q == o * (p * q) + r * q;
  }

  lemma OutStep(o: int, p: int, q: int, d: int, r: int, m: int)
    requires m == d * p + r
    ensures o * (q * p) + m == (o * q + d) * p + r
  {
    assert (o * q + d) * p == o * (q * p) + d * p;
  }

  /** One group taken out of the top of the accumulator. */
  lemma GroupOut(inp: seq<int>, inbits: nat, out: seq<int>, outbits: nat, bits: nat, val: int)
    requires 1 <= inbits && 1 <= outbits && val >= 0 && Pow(2, bits + outbits) > 0
    requires Regrouped(inp, inbits, out, outbits, bits + outbits, val % Pow(2, bits + outbits))
    ensures Pow(2, bits) > 0 && Pow(2, outbits) > 0
    ensures Regrouped(inp, inbits, out + [val / Pow(2, bits) % Pow(2, outbits)], outbits, bits, val % Pow(2, bits))
  {
    PowPositive(2, bits);
    PowPositive(2, outbits);
    var m, p, q := val % Pow(2, bits + outbits), Pow(2, bits), Pow(2, outbits);
    var d, r := val / p % q, val % p;
    assert m == d * p + r && Pow(2, bits + outbits) == q * p by {
      ModSplit(val, outbits, bits);
      PowAdd(2, outbits, bits);
    }
    assert (out + [d])[..|out|] == out;
    OutStep(Num(out, q), p, q, d, r, m);
    OneMore(|out|, outbits);
  }

  /** What convert_bits leaves: everything regrouped, zeros added at the end. */
  ghost predicate Padded(inp: seq<int>, inbits: nat, out: seq<int>, outbits: nat, pad: int)
  {
    && 0 <= pad < outbits && |out| * outbits == |inp| * inbits + pad && InBase(out, Pow(2, outbits))
    && Num(out, Pow(2, outbits)) == Num(inp, Pow(2, inbits)) * Pow(2, pad)
  }

  lemma PadOut(inp: seq<int>, inbits: nat, out: seq<int>, outbits: nat, bits: nat, val: int)
    requires 1 <= inbits && 1 <= outbits && 0 < bits < outbits && val >= 0 && Pow(2, bits) > 0
    requires Regrouped(inp, inbits, out, outbits, bits, val % Pow(2, bits))
    ensures Pow(2, outbits) > 0
    ensures Padded(inp, inbits, out + [val * Pow(2, outbits - bits) % Pow(2, outbits)], outbits, outbits - bits)
  {
    var p, q := Pow(2, bits), Pow(2, outbits - bits);
    PowPositive(2, outbits - bits);
    assert Pow(2, outbits) == p * q by {
      PowAdd(2, bits, outbits - bits);
    }
    var d := val * q % Pow(2, outbits);
    assert 0 <= d < Pow(2, outbits) && d == val % p * q by {
      ShiftExact(val, p, q, 0);
    }
    assert (out + [d])[..|out|] == out;
    InStep(Num(inp, Pow(2, inbits)), Num(out, Pow(2, outbits)), p, q, val % p, 0, d);
    OneMore(|out|, outbits);
  }

  lemma NothingLeft(inp: seq<int>, inbits: nat, out: seq<int>, outbits: nat, rest: int)
    requires outbits > 0 && Regrouped(inp, inbits, out, outbits, 0, rest)
    ensures Padded(inp, inbits, out, outbits, 0)
  {
    assert Pow(2, 0) == 1;
  }

  /** The leftover bits, shifted to the top of a group, vanish exactly when they are zero. */
  lemma LeftoverTest(val: int, bits: nat, outbits: nat)
    requires bits < outbits && val >= 0
    ensures Pow(2, bits) > 0 && Pow(2, outbits) > 0
    ensures val * Pow(2, outbits - bits) % Pow(2, outbits) == 0 <==> val % Pow(2, bits) == 0
  {
    var p, q := Pow(2, bits), Pow(2, outbits - bits);
    PowPositive(2, bits);
    PowPositive(2, outbits - bits);
    PowAdd(2, bits, outbits - bits);
    ShiftExact(val, p, q, 0);
    if val % p > 0 {
      MulMonotone(1, val % p, q, q);
    }
  }

  /** Groups of `inbits` bits into groups of `outbits` bits (convert_bits). */
  method ConvertBits(inp: seq<int>, inbits: nat, outbits: nat, pad: bool)
    returns (ok: bool, out: seq<int>, ghost bits: int, ghost rest: int)
    requires 1 <= inbits <= 8 && 1 <= outbits <= 8 && InBase(inp, Pow(2, inbits))
    ensures pad ==> ok && 0 <= bits < outbits && Padded(inp, inbits, out, outbits, bits)
    ensures !pad ==> 0 <= bits < outbits && Regrouped(inp, inbits, out, outbits, bits, rest)
    ensures !pad ==> (ok <==> rest == 0 && bits < inbits)
  {
    var val, held := 0, 0;
    out := [];
    assert Pow(2, 0) == 1 && inp[..0] == [];
    for i := 0 to |inp|
      invariant 0 <= held < outbits && 0 <= val < WORD && Pow(2, held) > 0
      invariant Regrouped(inp[..i], inbits, out, outbits, held, val % Pow(2, held))
    {
      ghost var before := val;
      WordFits(val, inbits, inp[i]);
      val := val * Pow(2, inbits) % WORD + inp[i];
      GroupIn(inp, i, inbits, out, outbits, held, before, val);
      held := held + inbits;
      while held >= outbits
        invariant 0 <= held < 32 && Pow(2, held) > 0
        invariant Regrouped(inp[..i + 1], inbits, out, outbits, held, val % Pow(2, held))
      {
        held := held - outbits;
        GroupOut(inp[..i + 1], inbits, out, outbits, held, val);
        out := out + [val / Pow(2, held) % Pow(2, outbits)];
      }
    }
    assert inp[..|inp|] == inp;
    bits, rest := held, val % Pow(2, held);
    ok := true;
    LeftoverTest(val, held, outbits);
    if pad {
      if held > 0 {
        PadOut(inp, inbits, out, outbits, held, val);
        out := out + [val * Pow(2, outbits - held) % Pow(2, outbits)];
        bits := outbits - held;
      } else {
        NothingLeft(inp, inbits, out, outbits, rest);
      }
    } else if val * Pow(2, outbits - held) % Pow(2, outbits) != 0 || held >= inbits {
      ok := false;
    }
  }

  /** The low bits are clear after a shift, so the group can be or-ed in without a carry. */
  lemma WordFits(val: int, inbits: nat, v: int)
    requires 0 <= val < WORD && inbits <= 32 && 0 <= v < Pow(2, inbits)
    ensures 0 <= val * Pow(2, inbits) % WORD + v < WORD
  {
    var q, k := Pow(2, inbits), Pow(2, 32 - inbits);
    TwoTo32(inbits);
    PowPositive(2, 32 - inbits);
    PowPositive(2, inbits);
    ShiftExact(val, k, q, 0);
    BelowProduct(val % k, k, q, v);
  }

  lemma BelowProduct(s: int, k: int, q: int, v: int)
    requires 0 <= s < k && 0 <= v < q
    ensures 0 <= s * q + v < k * q
  {
    MulMonotone(s + 1, k, q, q);
    MulMonotone(0, s, q, q);
    OneMore(s, q);
  }

  // ---------- Strings and programs ----------

  function LowBits(hrp: seq<int>): (s: seq<int>)
    ensures |s| == |hrp|
  {
    seq(|hrp|, i requires 0 <= i < |hrp| => hrp[i] % 32)
  }

  predicate Printable(c: int) { 33 <= c <= 126 }

  function Lowered(s: seq<int>): (t: seq<int>)
    ensures |t| == |s|
  {
    seq(|s|, i requires 0 <= i < |s| => Lower(s[i]))
  }

  predicate HasLower(s: seq<int>) { exists i :: 0 <= i < |s| && IsLower(s[i]) }

  predicate HasUpper(s: seq<int>) { exists i :: 0 <= i < |s| && IsUpper(s[i]) }

  lemma LowerKeepsLowBits(c: int)
    ensures Lower(c) % 32 == c % 32
  {
  }

  /** Where the last separator is, counted from the end. */
  method LengthAfter(input: seq<int>, separator: int) returns (dataLen: nat)
    ensures dataLen <= |input| && LastIndex(input, separator) == |input| - 1 - dataLen
  {
    dataLen := 0;
    while dataLen < |input| && input[|input| - 1 - dataLen] != separator
      invariant dataLen <= |input|
      invariant forall i :: |input| - dataLen <= i < |input| ==> input[i] != separator
    {
      dataLen := dataLen + 1;
    }
  }

  lemma SplitCase(input: seq<int>, sep: nat)
    requires sep < |input| && !IsLower(input[sep]) && !IsUpper(input[sep])
    ensures HasLower(input) <==> HasLower(input[..sep]) || HasLower(input[sep + 1..])
    ensures HasUpper(input) <==> HasUpper(input[..sep]) || HasUpper(input[sep + 1..])
  {
    var a, b := input[..sep], input[sep + 1..];
    assert forall i :: 0 <= i < sep ==> a[i] == input[i];
    assert forall i :: sep < i < |input| ==> input[i] == b[i - sep - 1];
    assert forall i :: 0 <= i < |b| ==> b[i] == input[sep + 1 + i];
  }

  lemma SameLowBits(s: seq<int>)
    ensures LowBits(Lowered(s)) == LowBits(s)
  {
    forall i | 0 <= i < |s|
      ensures Lower(s[i]) % 32 == s[i] % 32
    {
      LowerKeepsLowBits(s[i]);
    }
  }

  lemma NoCase()
    ensures !HasLower([]) && !HasUpper([])
  {
  }

  lemma Seen(s: seq<int>, i: nat)
    requires i < |s|
    ensures HasLower(s[..i + 1]) <==> HasLower(s[..i]) || IsLower(s[i])
    ensures HasUpper(s[..i + 1]) <==> HasUpper(s[..i]) || IsUpper(s[i])
  {
    var t := s[..i + 1];
    assert t[..i] == s[..i] && t[i] == s[i];
    if HasLower(s[..i]) {
      var j :| 0 <= j < i && IsLower(s[..i][j]);
      assert IsLower(t[j]);
    }
    if HasUpper(s[..i]) {
      var j :| 0 <= j < i && IsUpper(s[..i][j]);
      assert IsUpper(t[j]);
    }
    if HasLower(t) {
      var j :| 0 <= j < |t| && IsLower(t[j]);
      assert j < i ==> IsLower(s[..i][j]);
    }
    if HasUpper(t) {
      var j :| 0 <= j < |t| && IsUpper(t[j]);
      assert j < i ==> IsUpper(s[..i][j]);
    }
    assert IsLower(s[i]) ==> IsLower(t[i]);
    assert IsUpper(s[i]) ==> IsUpper(t[i]);
  }

  lemma RowCharacters3(k: int)
    requires 0 <= k < 16 && ReverseRow(3)[k] != -1
    ensures Char(ReverseRow(3)[k]) == 48 + k
  {
    assert ReverseRow(3)[0] == 15 && Char(15) == 48 && ReverseRow(3)[2] == 10 && Char(10) == 50
      && ReverseRow(3)[3] == 17 && Char(17) == 51;
    assert ReverseRow(3)[4] == 21 && Char(21) == 52 && ReverseRow(3)[5] == 20 && Char(20) == 53
      && ReverseRow(3)[6] == 26 && Char(26) == 54;
    assert ReverseRow(3)[7] == 30 && Char(30) == 55 && ReverseRow(3)[8] == 7 && Char(7) == 56 && ReverseRow(3)[9] == 5
      && Char(5) == 57;
  }

  lemma RowCharacters6(k: int)
    requires 0 <= k < 16 && ReverseRow(6)[k] != -1
    ensures Char(ReverseRow(6)[k]) == 96 + k
  {
    assert ReverseRow(6)[1] == 29 && Char(29) == 97 && ReverseRow(6)[3] == 24 && Char(24) == 99
      && ReverseRow(6)[4] == 13 && Char(13) == 100;
    assert ReverseRow(6)[5] == 25 && Char(25) == 101 && ReverseRow(6)[6] == 9 && Char(9) == 102 && ReverseRow(6)[7] == 8
      && Char(8) == 103;
    assert ReverseRow(6)[8] == 23 && Char(23) == 104 && ReverseRow(6)[10] == 18 && Char(18) == 106
      && ReverseRow(6)[11] == 22 && Char(22) == 107;
    assert ReverseRow(6)[12] == 31 && Char(31) == 108 && ReverseRow(6)[13] == 27 && Char(27) == 109
      && ReverseRow(6)[14] == 19 && Char(19) == 110;
  }

  lemma RowCharacters7(k: int)
    requires 0 <= k < 16 && ReverseRow(7)[k] != -1
    ensures Char(ReverseRow(7)[k]) == 112 + k
  {
    assert ReverseRow(7)[0] == 1 && Char(1) == 112 && ReverseRow(7)[1] == 0 && Char(0) == 113 && ReverseRow(7)[2] == 3
      && Char(3) == 114;
    assert ReverseRow(7)[3] == 16 && Char(16) == 115 && ReverseRow(7)[4] == 11 && Char(11) == 116
      && ReverseRow(7)[5] == 28 && Char(28) == 117;
    assert ReverseRow(7)[6] == 12 && Char(12) == 118 && ReverseRow(7)[7] == 14 && Char(14) == 119
      && ReverseRow(7)[8] == 6 && Char(6) == 120;
    assert ReverseRow(7)[9] == 4 && Char(4) == 121 && ReverseRow(7)[10] == 2 && Char(2) == 122;
  }

  /** The character of a character's symbol is that character in lower case. */
  lemma SymbolCharacter(c: int)
    requires Symbol(c) != -1
    ensures Char(Symbol(c)) == Lower(c)
  {
    hide Char;
    var r, k := c / 16, c % 16;
    SameRows();
    if r == 3 {
      RowCharacters3(k);
    } else if r == 4 || r == 6 {
      RowCharacters6(k);
    } else {
      RowCharacters7(k);
    }
  }

  lemma SameRows()
    ensures ReverseRow(4) == ReverseRow(6) && ReverseRow(5) == ReverseRow(7)
  {
  }

  lemma CharsOfValues(s: seq<int>)
    requires forall i :: 0 <= i < |s| ==> Symbol(s[i]) != -1
    ensures Chars(Values(s)) == Lowered(s)
  {
    hide Symbol, Char, Lower;
    forall i | 0 <= i < |s|
      ensures Char(Symbol(s[i])) == Lower(s[i])
    {
      SymbolCharacter(s[i]);
    }
  }

  /** A string in lower case, from its parts around a separator that is no letter. */
  lemma LoweredParts(s: seq<int>, sep: nat)
    requires sep < |s| && !IsUpper(s[sep])
    ensures Lowered(s) == Lowered(s[..sep]) + [s[sep]] + Lowered(s[sep + 1..])
  {
    hide Lower;
    assert Lower(s[sep]) == s[sep] by {
      NoCapital(s[sep]);
    }
  }

  lemma NoCapital(c: int)
    requires !IsUpper(c)
    ensures Lower(c) == c
  {
  }

  lemma CharsConcat(a: seq<int>, b: seq<int>)
    ensures Chars(a + b) == Chars(a) + Chars(b)
  {
  }

  lemma ValuesAreSymbols(input: seq<int>)
    requires forall i :: 0 <= i < |input| ==> Symbol(input[i]) != -1
    ensures InBase(Values(input), 32)
  {
    forall i | 0 <= i < |input|
      ensures 0 <= Symbol(input[i]) < 32
    {
      SymbolRange(input[i]);
    }
  }

  lemma TailSymbols(input: seq<int>, sep: nat)
    requires sep < |input| && forall j :: sep < j < |input| ==> Symbol(input[j]) != -1
    ensures InBase(Values(input[sep + 1..]), 32)
  {
    hide Symbol;
    var tail := input[sep + 1..];
    forall j | 0 <= j < |tail|
      ensures Symbol(tail[j]) != -1
    {
      assert tail[j] == input[sep + 1 + j];
    }
    ValuesAreSymbols(tail);
  }

  lemma TailCharacters(input: seq<int>, sep: nat)
    requires sep < |input| && forall j :: sep < j < |input| ==> Symbol(input[j]) != -1
    ensures Chars(Values(input[sep + 1..])) == Lowered(input[sep + 1..])
  {
    hide Symbol;
    var tail := input[sep + 1..];
    forall j | 0 <= j < |tail|
      ensures Symbol(tail[j]) != -1
    {
      assert tail[j] == input[sep + 1 + j];
    }
    CharsOfValues(tail);
  }

  /** Changing a character after the separator changes one symbol and nothing before. */
  lemma TailUpdate(input: seq<int>, sep: nat, i: nat, c: int)
    requires sep < i < |input|
    ensures input[i := c][..sep] == input[..sep]
    ensures Values(input[i := c][sep + 1..]) == Values(input[sep + 1..])[i - sep - 1 := Symbol(c)]
  {
    hide Symbol;
  }

  lemma LastIndexOf(s: seq<int>, c: int, i: nat)
    requires i < |s| && s[i] == c && forall j :: i < j < |s| ==> s[j] != c
    ensures LastIndex(s, c) == i
  {
  }

  lemma LoweredPrintable(s: seq<int>)
    requires forall i :: 0 <= i < |s| ==> Printable(s[i])
    ensures forall i :: 0 <= i < |s| ==> Printable(Lowered(s)[i])
  {
  }

  lemma Bytes()
    ensures Pow(2, 8) == 256 && Pow(2, 5) == 32
  {
    assert Pow(2, 5) == 2 * (2 * (2 * (2 * 2)));
    assert Pow(2, 8) == 2 * (2 * (2 * Pow(2, 5)));
  }

  lemma PaddedSymbols(program: seq<int>, symbols: seq<int>, pad: int)
    requires Padded(program, 8, symbols, 5, pad)
    ensures InBase(symbols, 32)
  {
    Bytes();
  }

  /** The regrouping of symbols into bytes is determined by the symbols. */
  lemma AnyRegrouping(data: seq<int>, back: seq<int>, bits: int, rest: int)
    requires 0 <= bits < 8 && Regrouped(data, 5, back, 8, bits, rest)
    ensures forall back', bits', rest' :: 0 <= bits' < 8 && Regrouped(data, 5, back', 8, bits', rest') ==>
      back' == back && bits' == bits && rest' == rest
  {
    forall back', bits', rest' | 0 <= bits' < 8 && Regrouped(data, 5, back', 8, bits', rest')
      ensures back' == back && bits' == bits && rest' == rest
    {
      var p := Pow(2, bits);
      PowPositive(2, bits);
      PowPositive(2, 8);
      assert bits == bits' && |back| == |back'|;
      DivModUnique(Num(data, Pow(2, 5)), Num(back, Pow(2, 8)), rest, p);
      DivModUnique(Num(data, Pow(2, 5)), Num(back', Pow(2, 8)), rest', p);
      DigitsUnique(back, back', Pow(2, 8));
    }
  }

  /** The symbols of a padded program regroup to the program, with the padding left over. */
  lemma BackToBytes(program: seq<int>, symbols: seq<int>, pad: int)
    requires InBase(program, 256) && Padded(program, 8, symbols, 5, pad)
    ensures Regrouped(symbols, 5, program, 8, pad, 0) && |symbols| == (8 * |program| + 4) / 5
  {
    Bytes();
    PowPositive(2, pad);
  }
}

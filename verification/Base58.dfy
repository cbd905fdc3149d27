/** Base58 encoding and decoding (crypto/base58.c). */
module Base58 {
  import opened Arith
  import opened Numerals

  // ---------- The alphabet ----------

  /** The character of each digit (b58digits_ordered): 1-9, A-H, J-N, P-Z, a-k, m-z. */
  function Ordered(d: int): int
  {
    if d < 9 then 49 + d
    else if d < 17 then 56 + d
    else if d < 22 then 57 + d
    else if d < 33 then 58 + d
    else if d < 44 then 64 + d
    else 65 + d
  }

  /** The digit of a character (b58digits_map), or -1. */
  function DigitOf(c: int): int
  {
    if 49 <= c <= 57 then c - 49
    else if 65 <= c <= 72 then c - 56
    else if 74 <= c <= 78 then c - 57
    else if 80 <= c <= 90 then c - 58
    else if 97 <= c <= 107 then c - 64
    else if 109 <= c <= 122 then c - 65
    else -1
  }

  lemma Alphabet(c: int, d: int)
    ensures 0 <= d < 58 ==> DigitOf(Ordered(d)) == d
    ensures DigitOf(c) != -1 ==> 0 <= DigitOf(c) < 58 && Ordered(DigitOf(c)) == c
  {
  }

  /** The characters in order: digits and letters without 0, O, I and l. */
  lemma OrderedIsAlphabet(d: int)
    ensures 0 <= d < 33 ==> Ordered(d) == "123456789ABCDEFGHJKLMNPQRSTUVWXYZ"[d] as int
    ensures 33 <= d < 58 ==> Ordered(d) == "abcdefghijkmnopqrstuvwxyz"[d - 33] as int
  {
    if 0 <= d < 33 {
      FirstCharacters(d);
    } else if 33 <= d < 58 {
      LastCharacters(d);
    }
  }

  lemma FirstCharacters(d: int)
    requires 0 <= d < 33
    ensures Ordered(d) == "123456789ABCDEFGHJKLMNPQRSTUVWXYZ"[d] as int
  {
  }

  lemma LastCharacters(d: int)
    requires 33 <= d < 58
    ensures Ordered(d) == "abcdefghijkmnopqrstuvwxyz"[d - 33] as int
  {
  }

  lemma OrderedIncreases(d: int, e: int)
    requires 0 <= d < e < 58
    ensures Ordered(d) < Ordered(e)
  {
  }

  predicate IsAlphanumeric(c: int) { 48 <= c <= 57 || 65 <= c <= 90 || 97 <= c <= 122 }

  lemma AcceptedCharacters(c: int)
    ensures DigitOf(c) != -1 <==> IsAlphanumeric(c) && c != 48 && c != 73 && c != 79 && c != 108
  {
  }

  predicate Valid(s: seq<int>) { forall i :: 0 <= i < |s| ==> DigitOf(s[i]) != -1 }

  function Characters(ds: seq<int>): (s: seq<int>)
    ensures |s| == |ds|
  {
    seq(|ds|, i requires 0 <= i < |ds| => Ordered(ds[i]))
  }

  function Digits(s: seq<int>): (ds: seq<int>)
    ensures |ds| == |s|
  {
    seq(|s|, i requires 0 <= i < |s| => DigitOf(s[i]))
  }

  /** The Base58 string of some bytes: the digits of their number, and one character for each leading zero byte. */
  function Encoded(data: seq<int>): seq<int> { Characters(Rebased(data, 256, 58)) }

  /** The bytes of a Base58 string. */
  function Decoded(s: seq<int>): seq<int> { Rebased(Digits(s), 58, 256) }

  lemma DigitsOfCharacters(ds: seq<int>)
    requires InBase(ds, 58)
    ensures Valid(Characters(ds)) && Digits(Characters(ds)) == ds
  {
    forall i | 0 <= i < |ds|
      ensures DigitOf(Ordered(ds[i])) == ds[i]
    {
      Alphabet(0, ds[i]);
    }
  }

  lemma CharactersOfDigits(s: seq<int>)
    requires Valid(s)
    ensures InBase(Digits(s), 58) && Characters(Digits(s)) == s
  {
    forall i | 0 <= i < |s|
      ensures 0 <= DigitOf(s[i]) < 58 && Ordered(DigitOf(s[i])) == s[i]
    {
      Alphabet(s[i], 0);
    }
  }

  /** The characters write the number of the bytes, after a 1 for each leading zero byte and no other. */
  lemma EncodedMeans(data: seq<int>)
    requires InBase(data, 256)
    ensures var s := Encoded(data);
            Num(Digits(s), 58) == Num(data, 256) && Leading(s, 49) == Leading(data, 0)
  {
    RebasedShape(data, 256, 58);
    DigitsOfCharacters(Rebased(data, 256, 58));
    LeadingCharacters(Rebased(data, 256, 58));
  }

  lemma {:induction false} LeadingCharacters(ds: seq<int>)
    requires InBase(ds, 58)
    ensures Leading(Characters(ds), 49) == Leading(ds, 0)
  {
    if ds != [] {
      Alphabet(0, ds[0]);
      assert Characters(ds)[1..] == Characters(ds[1..]);
      LeadingCharacters(ds[1..]);
    }
  }

  /** Decoding undoes encoding, for every byte string. */
  lemma DecodedEncoded(data: seq<int>)
    requires InBase(data, 256)
    ensures Valid(Encoded(data)) && Decoded(Encoded(data)) == data
  {
    RebasedShape(data, 256, 58);
    DigitsOfCharacters(Rebased(data, 256, 58));
    RebasedBack(data, 256, 58);
  }

  /** Encoding undoes decoding, for every string over the alphabet. */
  lemma EncodedDecoded(s: seq<int>)
    requires Valid(s)
    ensures InBase(Decoded(s), 256) && Encoded(Decoded(s)) == s
  {
    CharactersOfDigits(s);
    RebasedShape(Digits(s), 58, 256);
    RebasedBack(Digits(s), 58, 256);
  }

  // ---------- The size of the buffer ----------

  lemma {:induction false} PowBases(n: nat)
    ensures Pow(256, 8 * n) <= Pow(58, 11 * n)
  {
    PowPower(256, 8, n);
    PowPower(58, 11, n);
    EighthPower();
    PowOrdered(Pow(256, 8), Pow(58, 11), n);
  }

  lemma EighthPower()
    ensures 0 < Pow(256, 8) <= Pow(58, 11)
  {
    assert Pow(256, 4) == 0x1_0000_0000 && Pow(256, 8) == 256 * (256 * (256 * (256 * Pow(256, 4))));
    assert Pow(58, 4) == 11316496 && Pow(58, 8) == 58 * (58 * (58 * (58 * Pow(58, 4))));
    assert Pow(58, 11) == 58 * (58 * (58 * Pow(58, 8)));
  }

  lemma {:induction false} PowOrdered(a: int, b: int, n: nat)
    requires 0 < a <= b
    ensures 0 < Pow(a, n) <= Pow(b, n)
  {
    if n > 0 {
      PowOrdered(a, b, n - 1);
      MulMonotone(a, b, Pow(a, n - 1), Pow(b, n - 1));
      PowPositive(a, n);
    }
  }

  lemma {:induction false} PowStrict(a: int, b: int, n: nat)
    requires 0 < a < b && n > 0
    ensures Pow(a, n) < Pow(b, n)
  {
    PowOrdered(a, b, n - 1);
    MulMonotone(a + 1, b, Pow(a, n - 1), Pow(b, n - 1));
    PowPositive(a, n - 1);
  }

  /** Enough digits: 256^n <= 58^s as soon as s / n is at least 11 / 8. */
  lemma EnoughDigits(n: nat, s: nat)
    requires 8 * s >= 11 * n
    ensures Pow(256, n) <= Pow(58, s)
  {
    PowPositive(256, n);
    PowPositive(58, s);
    if Pow(58, s) < Pow(256, n) {
      PowStrict(Pow(58, s), Pow(256, n), 8);
      PowPower(58, s, 8);
      PowPower(256, n, 8);
      PowBases(n);
      PowMonotone(58, 11 * n, 8 * s);
      assert false;
    }
  }

  /** The buffer holds n bytes, and one digit less holds n - 1. */
  lemma BufferSuffices(n: nat)
    ensures Pow(256, n) <= Pow(58, n * 138 / 100 + 1)
    ensures n > 0 ==> Pow(256, n - 1) <= Pow(58, n * 138 / 100)
  {
    EnoughDigits(n, n * 138 / 100 + 1);
    if n > 0 {
      EnoughDigits(n - 1, n * 138 / 100);
    }
  }

  // ---------- Encoding ----------

  /** One more byte: buf = 256 * buf + byte, for digits up to the last one that can change. */
  method Absorb(buf: array<u8>, high: nat, byte: int) returns (next: nat)
    requires high < buf.Length && 0 <= byte < 256 && InBase(buf[..], 58)
    requires forall k :: 0 <= k <= high ==> buf[k] == 0
    requires Num(buf[..], 58) * 256 + byte < Pow(58, buf.Length)
    modifies buf
    ensures InBase(buf[..], 58) && Num(buf[..], 58) == old(Num(buf[..], 58)) * 256 + byte
    ensures next <= high && (next > 0 ==> forall k :: 0 <= k <= next ==> buf[k] == 0)
  {
    hide Running, Num, Pow;
    ghost var s0, total := buf[..], Num(buf[..], 58) * 256 + byte;
    ghost var stopped := false;
    var carry, j := byte, buf.Length - 1;
    RunningStart(s0, byte, 256, 58);
    while j > high || carry != 0
      invariant !stopped && 0 <= j < buf.Length && 0 <= carry < 256 && InBase(buf[..], 58)
      invariant Running(s0, buf[..], j + 1, carry, 256, 58) == total
      invariant forall k :: 0 <= k <= j ==> buf[k] == s0[k]
      decreases j
    {
      ghost var before := buf[..];
      carry := carry + 256 * (buf[j] as int);
      CarryStep(carry);
      RunningStep(s0, before, j + 1, carry - 256 * (buf[j] as int), 256, 58, carry % 58, carry / 58);
      buf[j] := carry % 58;
      carry := carry / 58;
      assert buf[..] == before[j := buf[j]];
      if j == 0 {
        RunningEnd(s0, buf[..], carry, 256, 58);
        NumNonnegative(buf[..], 58);
        PowPositive(58, buf.Length);
        NothingCarried(carry, Pow(58, buf.Length), Num(buf[..], 58));
        stopped := true;
        break;
      }
      j := j - 1;
    }
    if !stopped {
      RunningStop(s0, buf[..], j + 1, 256, 58);
    }
    next := j;
  }

  lemma CarryStep(carry: int)
    requires 0 <= carry < 256 + 256 * 57
    ensures 0 <= carry / 58 < 256 && carry == carry / 58 * 58 + carry % 58
  {
  }

  lemma NothingCarried(carry: int, p: int, rest: int)
    requires carry >= 0 && rest >= 0 && p > 0 && carry * p + rest < p
    ensures carry == 0
  {
    if carry >= 1 {
      MulMonotone(1, carry, p, p);
    }
  }

  /** With room for one digit more than the number needs, the first digit stays zero. */
  lemma FirstDigitZero(s: seq<int>)
    requires s != [] && InBase(s, 58) && Num(s, 58) < Pow(58, |s| - 1)
    ensures s[0] == 0
  {
    if s[0] != 0 {
      LeadingDigit(s, 58);
    }
  }

  /** What has been absorbed of n bytes always fits, with a digit to spare until the last byte. */
  lemma PrefixFits(s: seq<int>, i: nat)
    requires i <= |s| && InBase(s, 256)
    ensures 0 <= Num(s[..i], 256) < Pow(58, |s| * 138 / 100 + 1)
    ensures i < |s| ==> Num(s[..i], 256) < Pow(58, |s| * 138 / 100)
  {
    hide Pow;
    BufferSuffices(|s|);
    NumBelow(s[..i], 256);
    PowMonotone(256, i, |s|);
    if i < |s| {
      PowMonotone(256, i, |s| - 1);
    }
  }

  /** The digits of the bytes after the leading zeros. */
  method Convert(data: seq<int>, zcount: nat, buf: array<u8>)
    requires InBase(data, 256) && zcount <= |data|
    requires buf.Length == (|data| - zcount) * 138 / 100 + 1 && forall k :: 0 <= k < buf.Length ==> buf[k] == 0
    modifies buf
    ensures InBase(buf[..], 58) && Num(buf[..], 58) == Num(data[zcount..], 256)
  {
    hide Num, Pow;
    ghost var s := data[zcount..];
    var i, high := zcount, buf.Length - 1;
    assert buf[..] == Repeat(0, buf.Length) + [];
    ZeroDigits(buf.Length, [], 58);
    EmptyNumeral(58);
    EmptyNumeral(256);
    assert s[..0] == [];
    while i < |data|
      invariant zcount <= i <= |data| && 0 <= high < buf.Length && InBase(buf[..], 58)
      invariant Num(buf[..], 58) == Num(s[..i - zcount], 256)
      invariant i < |data| ==> forall k :: 0 <= k <= high ==> buf[k] == 0
    {
      NumExtend(s, i - zcount, 256);
      PrefixFits(s, i + 1 - zcount);
      high := Absorb(buf, high, data[i]);
      i := i + 1;
      if i < |data| {
        FirstDigitZero(buf[..]);
      }
    }
    assert s[..|data| - zcount] == s;
  }

  lemma EmptyNumeral(b: int)
    ensures Num([], b) == 0
  {
  }

  /** Encodes the bytes into b58; size is the capacity needed, terminator included (b58enc). */
  method B58Enc(b58: array<int>, capacity: nat, data: seq<int>) returns (ok: bool, size: nat)
    requires capacity <= b58.Length && InBase(data, 256)
    modifies b58
    ensures size == |Encoded(data)| + 1 && (ok <==> capacity >= size)
    ensures ok ==> b58[..size] == Encoded(data) + [0]
    ensures forall k :: (if ok then size else 0) <= k < b58.Length ==> b58[k] == old(b58[k])
  {
    hide Num, Pow;
    var zcount := 0;
    while zcount < |data| && data[zcount] == 0
      invariant zcount <= |data| && forall k :: 0 <= k < zcount ==> data[k] == 0
    {
      zcount := zcount + 1;
    }
    var n := (|data| - zcount) * 138 / 100 + 1;
    var buf := new u8[n](k => 0);
    Convert(data, zcount, buf);
    var j := 0;
    while j < n && buf[j] == 0
      invariant j <= n && forall k :: 0 <= k < j ==> buf[k] == 0
    {
      j := j + 1;
    }
    EncodedIs(data, zcount, buf[..], j);
    if capacity <= zcount + n - j {
      return false, zcount + n - j + 1;
    }
    var i := WriteCharacters(b58, zcount, buf, j);
    b58[i] := 0;
    assert b58[..i] == Encoded(data);
    ok, size := true, i + 1;
  }

  /** The characters of the leading zeros and of the digits from `first` on. */
  method WriteCharacters(b58: array<int>, zcount: nat, buf: array<u8>, first: nat) returns (i: nat)
    requires first <= buf.Length && zcount + buf.Length - first < b58.Length
    modifies b58
    ensures i == zcount + buf.Length - first && b58[..i] == Characters(Repeat(0, zcount) + buf[first..])
    ensures forall k :: i <= k < b58.Length ==> b58[k] == old(b58[k])
  {
    ghost var digits := Repeat(0, zcount) + buf[first..];
    i := 0;
    while i < zcount
      invariant i <= zcount && forall k :: 0 <= k < i ==> b58[k] == Ordered(digits[k])
      invariant forall k :: zcount <= k < b58.Length ==> b58[k] == old(b58[k])
    {
      b58[i] := 49;
      i := i + 1;
    }
    var j := first;
    i := zcount;
    while j < buf.Length
      invariant first <= j <= buf.Length && i == zcount + j - first
      invariant forall k :: 0 <= k < i ==> b58[k] == Ordered(digits[k])
      invariant forall k :: |digits| <= k < b58.Length ==> b58[k] == old(b58[k])
    {
      assert digits[i] == buf[j];
      b58[i] := Ordered(buf[j]);
      i, j := i + 1, j + 1;
    }
  }

  /** The digits in the buffer, without its leading zeros, are those of the encoding. */
  lemma EncodedIs(data: seq<int>, zcount: nat, buf: seq<int>, j: nat)
    requires InBase(data, 256) && InBase(buf, 58) && zcount <= |data| && j <= |buf|
    requires (forall k :: 0 <= k < zcount ==> data[k] == 0) && (zcount < |data| ==> data[zcount] != 0)
    requires (forall k :: 0 <= k < j ==> buf[k] == 0) && (j < |buf| ==> buf[j] != 0)
    requires Num(buf, 58) == Num(data[zcount..], 256)
    ensures Rebased(data, 256, 58) == Repeat(0, zcount) + buf[j..]
  {
    hide Num, Pow, DigitsOf, Leading;
    LeadingIs(data, 0, zcount);
    assert data == Repeat(0, zcount) + data[zcount..];
    ZeroDigits(zcount, data[zcount..], 256);
    assert buf == Repeat(0, j) + buf[j..];
    ZeroDigits(j, buf[j..], 58);
    OnlyDigits(buf[j..], 58);
  }

  // ---------- Decoding ----------

  lemma WordPower(n: nat)
    ensures Pow(WORD, n) == Pow(256, 4 * n)
  {
    PowPower(256, 4, n);
    assert Pow(256, 4) == WORD;
  }

  /** outi = 58 * outi + c; what does not fit is returned. */
  method MultiplyAdd(outi: array<u32>, digit: int) returns (c: u32)
    requires 0 <= digit < 58
    modifies outi
    ensures c * Pow(WORD, outi.Length) + Num(outi[..], WORD) == old(Num(outi[..], WORD)) * 58 + digit
  {
    hide Running, Num, Pow;
    ghost var s0 := outi[..];
    c := digit;
    RunningStart(s0, digit, 58, WORD);
    var j := outi.Length;
    while j > 0
      invariant 0 <= j <= outi.Length && c < 58
      invariant Running(s0, outi[..], j, c, 58, WORD) == Num(s0, WORD) * 58 + digit
      invariant forall k :: 0 <= k < j ==> outi[k] == s0[k]
    {
      j := j - 1;
      ghost var before := outi[..];
      var t: u64 := outi[j] as u64 * 58 + c as u64;
      WordStep(t);
      RunningStep(s0, before, j + 1, c, 58, WORD, t % WORD, t / WORD);
      c := t / WORD;
      outi[j] := t % WORD;
      assert outi[..] == before[j := outi[j]];
    }
    RunningEnd(s0, outi[..], c, 58, WORD);
  }

  lemma WordStep(t: int)
    requires 0 <= t < 58 * WORD
    ensures 0 <= t / WORD < 58 && t == t / WORD * WORD + t % WORD
  {
  }

  /** The bound that the carry and the mask test: binsz bytes are enough. */
  lemma FitsBytes(outi: seq<int>, binsz: nat, bytesleft: nat)
    requires |outi| == (binsz + 3) / 4 && binsz > 0 && bytesleft == binsz % 4 && InBase(outi, WORD)
    ensures Pow(256, bytesleft) > 0
    ensures Num(outi, WORD) < Pow(256, binsz) <==> bytesleft == 0 || outi[0] / Pow(256, bytesleft) == 0
    ensures Pow(256, binsz) <= Pow(WORD, |outi|)
  {
    hide Num, Pow;
    var n := |outi|;
    PowPositive(256, bytesleft);
    NumBelow(outi, WORD);
    WordPower(n);
    WordCount(binsz, bytesleft, n);
    PowMonotone(256, binsz, 4 * n);
    if bytesleft > 0 {
      FitsPartWord(outi, bytesleft);
    }
  }

  lemma WordCount(binsz: nat, bytesleft: nat, n: nat)
    requires binsz > 0 && bytesleft == binsz % 4 && n == (binsz + 3) / 4
    ensures n > 0 && binsz <= 4 * n && binsz == if bytesleft > 0 then bytesleft + 4 * (n - 1) else 4 * n
  {
  }

  lemma FitsPartWord(outi: seq<int>, bytesleft: nat)
    requires outi != [] && InBase(outi, WORD)
    ensures Pow(256, bytesleft) > 0
    ensures Num(outi, WORD) < Pow(256, bytesleft + 4 * (|outi| - 1)) <==> outi[0] / Pow(256, bytesleft) == 0
  {
    hide Num, Pow;
    var n := |outi|;
    assert outi == [outi[0]] + outi[1..];
    NumConcat([outi[0]], outi[1..], WORD);
    SingleDigit(outi[0], WORD);
    NumBelow(outi[1..], WORD);
    WordPower(n - 1);
    PowPositive(256, bytesleft);
    PowAdd(256, bytesleft, 4 * (n - 1));
    TopWord(outi[0], Pow(WORD, n - 1), Num(outi[1..], WORD), Pow(256, bytesleft));
  }

  lemma SingleDigit(d: int, b: int)
    ensures Num([d], b) == d
  {
    assert Num([d], b) == Num([], b) * b + d;
  }

  lemma TopWord(w: int, p: int, rest: int, q: int)
    requires w >= 0 && 0 <= rest < p && q > 0
    ensures w * p + rest < q * p <==> w / q == 0
  {
    if w < q {
      DivModUnique(w, 0, w, q);
      MulMonotone(w + 1, q, p, p);
    } else {
      MulMonotone(q, w, p, p);
      DivBelow(-w, q, 1);
      QuotientPositive(w, q);
    }
  }

  lemma QuotientPositive(w: int, q: int)
    requires 0 < q <= w
    ensures w / q > 0
  {
    if w / q <= 0 {
      MulMonotone(0, 0 - w / q, q, q);
    }
  }

  /** The `count` low bytes of w, the highest first. */
  method WriteWord(bin: array<u8>, pos: nat, w: u32, count: nat)
    requires pos + count <= bin.Length && w < Pow(256, count)
    modifies bin
    ensures Num(bin[..pos + count], 256) == old(Num(bin[..pos], 256)) * Pow(256, count) + w
    ensures forall k :: 0 <= k < pos ==> bin[k] == old(bin[k])
  {
    hide Num;
    ghost var head := Num(bin[..pos], 256);
    var i := count;
    PowPositive(256, count);
    DivModUnique(w, 0, w, Pow(256, count));
    OneStep(head);
    while i > 0
      invariant 0 <= i <= count && Pow(256, i) > 0
      invariant Num(bin[..pos + count - i], 256) == head * Pow(256, count - i) + w / Pow(256, i)
      invariant forall k :: 0 <= k < pos ==> bin[k] == old(bin[k])
    {
      PowPositive(256, i - 1);
      var p := pos + count - i;
      ghost var before := bin[..p];
      bin[p] := w / Pow(256, i - 1) % 256;
      NumExtend(bin[..], p, 256);
      assert bin[..][..p] == before && bin[..][..p + 1] == bin[..p + 1];
      ByteStep(head, w, count, i);
      i := i - 1;
    }
    assert w / Pow(256, 0) == w;
  }

  lemma OneStep(head: int)
    ensures head * Pow(256, 0) == head
  {
  }

  lemma ByteStep(head: int, w: int, count: nat, i: nat)
    requires 0 < i <= count && w >= 0 && Pow(256, i) > 0 && Pow(256, i - 1) > 0
    ensures (head * Pow(256, count - i) + w / Pow(256, i)) * 256 + w / Pow(256, i - 1) % 256
         == head * Pow(256, count - i + 1) + w / Pow(256, i - 1)
  {
    var q := Pow(256, i - 1);
    DivDiv(w, q, 256);
    assert q * 256 == Pow(256, i);
    assert head * Pow(256, count - i + 1) == head * (256 * Pow(256, count - i));
  }

  /** Copies the words to the end of a byte buffer; a first word of fewer than four bytes is cut. */
  method WriteBytes(bin: array<u8>, outi: array<u32>)
    requires bin.Length > 0 && outi.Length == (bin.Length + 3) / 4 && Num(outi[..], WORD) < Pow(256, bin.Length)
    modifies bin
    ensures Num(bin[..], 256) == Num(outi[..], WORD)
  {
    hide Num, Pow;
    var bytesleft := bin.Length % 4;
    var pos, j := 0, 0;
    ghost var words: seq<int> := outi[..];
    EmptyNumeral(WORD);
    EmptyNumeral(256);
    FourBytes();
    assert bin[..0] == [] && words[..0] == [];
    if bytesleft > 0 {
      assert outi[0] < Pow(256, bytesleft) by {
        FitsBytes(words, bin.Length, bytesleft);
        NoQuotient(outi[0], Pow(256, bytesleft));
      }
      WriteWord(bin, 0, outi[0], bytesleft);
      NumExtend(words, 0, WORD);
      pos, j := bytesleft, 1;
    }
    while j < outi.Length
      invariant j <= outi.Length && pos == bin.Length - 4 * (outi.Length - j)
      invariant Num(bin[..pos], 256) == Num(words[..j], WORD)
      invariant outi[..] == words
    {
      WriteWord(bin, pos, outi[j], 4);
      NumExtend(words, j, WORD);
      pos, j := pos + 4, j + 1;
    }
    assert words[..j] == words && bin[..pos] == bin[..];
  }

  lemma FourBytes()
    ensures Pow(256, 4) == WORD
  {
  }

  lemma NoQuotient(w: int, q: int)
    requires w >= 0 && q > 0 && w / q == 0
    ensures w < q
  {
    if w >= q {
      QuotientPositive(w, q);
    }
  }

  /** Reads the characters from `start` on, until one is bad or the number is too big for binsz bytes. */
  method Accumulate(outi: array<u32>, b58: seq<int>, start: nat, binsz: nat) returns (ok: bool)
    requires start <= |b58| && binsz > 0 && outi.Length == (binsz + 3) / 4
    requires forall k :: 0 <= k < outi.Length ==> outi[k] == 0
    modifies outi
    ensures ok <==> Valid(b58[start..]) && Num(Digits(b58[start..]), 58) < Pow(256, binsz)
    ensures ok ==> Num(outi[..], WORD) == Num(Digits(b58[start..]), 58)
  {
    hide Num, Pow, DigitOf;
    ghost var s := Digits(b58[start..]);
    var bytesleft := binsz % 4;
    assert outi[..] == Repeat(0, outi.Length) + [];
    ZeroDigits(outi.Length, [], WORD);
    EmptyNumeral(WORD);
    EmptyNumeral(58);
    assert s[..0] == [];
    PowPositive(256, binsz);
    var i := start;
    while i < |b58|
      invariant start <= i <= |b58| && forall k :: start <= k < i ==> DigitOf(b58[k]) != -1
      invariant Num(outi[..], WORD) == Num(s[..i - start], 58) < Pow(256, binsz)
    {
      if DigitOf(b58[i]) == -1 {
        assert b58[start..][i - start] == b58[i];
        return false;
      }
      Alphabet(b58[i], 0);
      NumExtend(s, i - start, 58);
      var c := MultiplyAdd(outi, DigitOf(b58[i]));
      FitsBytes(outi[..], binsz, bytesleft);
      if c != 0 {
        Carried(c, Pow(WORD, outi.Length), outi[..], Pow(256, binsz));
        Reject(b58[start..], i + 1 - start, binsz);
        return false;
      }
      if bytesleft > 0 && outi[0] / Pow(256, bytesleft) != 0 {
        Reject(b58[start..], i + 1 - start, binsz);
        return false;
      }
      i := i + 1;
    }
    assert s[..i - start] == s;
    ok := true;
    AllValid(b58, start);
  }

  lemma AllValid(b58: seq<int>, start: nat)
    requires start <= |b58| && forall k :: start <= k < |b58| ==> DigitOf(b58[k]) != -1
    ensures Valid(b58[start..])
  {
  }

  lemma Carried(c: int, p: int, outi: seq<int>, bound: int)
    requires c > 0 && p >= bound > 0 && InBase(outi, WORD)
    ensures c * p + Num(outi, WORD) >= bound
  {
    NumNonnegative(outi, WORD);
    MulMonotone(1, c, p, p);
  }

  lemma Reject(s: seq<int>, n: nat, binsz: nat)
    requires n <= |s| && Num(Digits(s)[..n], 58) >= Pow(256, binsz)
    ensures Valid(s) ==> Num(Digits(s), 58) >= Pow(256, binsz)
  {
    if Valid(s) {
      CharactersOfDigits(s);
      NumPrefix(Digits(s), n, 58);
    }
  }

  /** What is decoded, from the position of the first character other than 1 and the number of the rest. */
  lemma DecodedIs(b58: seq<int>, zerocount: nat, bytes: seq<int>, i: nat)
    requires Valid(b58) && InBase(bytes, 256) && zerocount <= |b58| && i <= |bytes|
    requires (forall k :: 0 <= k < zerocount ==> b58[k] == 49) && (zerocount < |b58| ==> b58[zerocount] != 49)
    requires (forall k :: 0 <= k < i ==> bytes[k] == 0) && (i < |bytes| ==> bytes[i] != 0)
    requires Num(bytes, 256) == Num(Digits(b58[zerocount..]), 58)
    ensures Decoded(b58) == Repeat(0, zerocount) + bytes[i..]
  {
    hide Num, DigitsOf, Leading;
    StartOf(b58, zerocount);
    assert bytes == Repeat(0, i) + bytes[i..];
    ZeroDigits(i, bytes[i..], 256);
    OnlyDigits(bytes[i..], 256);
  }

  /** Leading ones are leading zero digits, which do not change the number. */
  lemma StartOf(b58: seq<int>, zerocount: nat)
    requires Valid(b58) && zerocount <= |b58|
    requires (forall k :: 0 <= k < zerocount ==> b58[k] == 49) && (zerocount < |b58| ==> b58[zerocount] != 49)
    ensures Leading(Digits(b58), 0) == zerocount && Num(Digits(b58), 58) == Num(Digits(b58[zerocount..]), 58)
  {
    hide Num, Leading;
    var ds := Digits(b58);
    CharactersOfDigits(b58);
    if zerocount < |b58| {
      Alphabet(b58[zerocount], 0);
    }
    LeadingIs(ds, 0, zerocount);
    assert ds == Repeat(0, zerocount) + Digits(b58[zerocount..]);
    ZeroDigits(zerocount, Digits(b58[zerocount..]), 58);
  }

  /** A number of at least 256^n takes more than n bytes. */
  lemma TooLong(b58: seq<int>, zerocount: nat, n: nat)
    requires Valid(b58) && zerocount <= |b58|
    requires (forall k :: 0 <= k < zerocount ==> b58[k] == 49) && (zerocount < |b58| ==> b58[zerocount] != 49)
    requires Num(Digits(b58[zerocount..]), 58) >= Pow(256, n)
    ensures |Decoded(b58)| > n
  {
    hide Num, DigitsOf, Leading, Pow;
    StartOf(b58, zerocount);
    CharactersOfDigits(b58);
    NumNonnegative(Digits(b58), 58);
    var t := DigitsOf(Num(Digits(b58), 58), 256);
    DigitsOfNum(Num(Digits(b58), 58), 256);
    NumBelow(t, 256);
    if |t| <= n {
      PowMonotone(256, |t|, n);
    }
  }

  /** Leading ones are over: validity is that of the rest. */
  lemma ValidRest(b58: seq<int>, zerocount: nat)
    requires zerocount <= |b58| && forall k :: 0 <= k < zerocount ==> b58[k] == 49
    ensures Valid(b58) <==> Valid(b58[zerocount..])
  {
    assert forall k :: zerocount <= k < |b58| ==> b58[k] == b58[zerocount..][k - zerocount];
  }

  /** Decodes a string into the last bytes of bin (b58tobin). */
  method B58ToBin(bin: array<u8>, b58: seq<int>) returns (ok: bool, size: nat)
    modifies bin
    ensures ok <==> bin.Length > 0 && Valid(b58) && |Decoded(b58)| <= bin.Length
    ensures ok ==> size == |Decoded(b58)| && bin[bin.Length - size..] == Decoded(b58)
    ensures ok ==> forall k :: 0 <= k < bin.Length - size ==> bin[k] == 0
    ensures !ok ==>
      if bin.Length > 0 && Valid(b58) && Num(Digits(b58), 58) < Pow(256, bin.Length)
      then Num(bin[..], 256) == Num(Digits(b58), 58)
      else bin[..] == old(bin[..])
  {
    hide Num, Pow, DigitOf, Decoded;
    var binsz := bin.Length;
    if binsz == 0 {
      return false, 0;
    }
    var outi := new u32[(binsz + 3) / 4](k => 0);
    var zerocount := 0;
    while zerocount < |b58| && b58[zerocount] == 49
      invariant zerocount <= |b58| && forall k :: 0 <= k < zerocount ==> b58[k] == 49
    {
      zerocount := zerocount + 1;
    }
    ValidRest(b58, zerocount);
    if Valid(b58) {
      StartOf(b58, zerocount);
    }
    var accepted := Accumulate(outi, b58, zerocount, binsz);
    if !accepted {
      if Valid(b58) {
        TooLong(b58, zerocount, binsz);
      }
      return false, 0;
    }
    WriteBytes(bin, outi);
    var i := 0;
    while i < binsz && bin[i] == 0
      invariant i <= binsz && forall k :: 0 <= k < i ==> bin[k] == 0
    {
      i := i + 1;
    }
    DecodedIs(b58, zerocount, bin[..], i);
    if zerocount > i {
      return false, 0;
    }
    ok, size := true, binsz - i + zerocount;
    SomeZeros(bin[..], zerocount, i);
  }

  lemma SomeZeros(bytes: seq<int>, zerocount: nat, i: nat)
    requires zerocount <= i <= |bytes| && forall k :: 0 <= k < i ==> bytes[k] == 0
    ensures bytes[i - zerocount..] == Repeat(0, zerocount) + bytes[i..]
  {
  }

  /** Encoding with enough room and decoding into a buffer with enough room gives the bytes back. */
  method EncodeThenDecode(data: seq<int>, b58: array<int>, bin: array<u8>) returns (ok: bool, size: nat)
    requires InBase(data, 256) && |data| <= bin.Length && bin.Length > 0 && b58.Length > |Encoded(data)|
    modifies b58, bin
    ensures ok && size == |data| && bin[bin.Length - size..] == data
  {
    hide Encoded, Decoded;
    var encoded, length := B58Enc(b58, b58.Length, data);
    DecodedEncoded(data);
    assert b58[..length - 1] == Encoded(data);
    ok, size := B58ToBin(bin, b58[..length - 1]);
  }
}

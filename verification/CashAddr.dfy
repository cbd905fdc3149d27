/** Cash addresses (crypto/cash_addr.c). Strings are sequences of character codes. */
module CashAddr {
  import opened Arith
  import opened Numerals
  import opened Symbols
  import opened Checksum
  import P = Polymod

  const MAX_CASHADDR_SIZE := 129
  const MAX_BASE32_SIZE := 104
  const MAX_DATA_SIZE := 65
  const MAX_HRP_SIZE := 20
  const CHECKSUM_SIZE := 8

  /** What the prefix contributes to the checksum. */
  function Expanded(hrp: seq<int>): seq<int> { LowBits(hrp) + [0] }

  ghost function StateAfter(hrp: seq<int>, symbols: seq<int>): bv64
  {
    Fold(P.TheCode(P.OfCashAddr), 1, Expanded(hrp) + symbols)
  }

  // ---------- Encoding ----------

  predicate Encodable(hrp: seq<int>, data: seq<int>)
  {
    && (forall i :: 0 <= i < |hrp| ==> Printable(hrp[i]))
    && |hrp| + 1 + |data| + CHECKSUM_SIZE <= MAX_CASHADDR_SIZE
    && forall i :: 0 <= i < |data| ==> 0 <= data[i] < 32
  }

  /** Printable ASCII, 5-bit symbols, and at most 129 characters with separator and checksum. */
  lemma EncodableMeans(hrp: seq<int>, data: seq<int>)
    ensures Encodable(hrp, data) <==>
      && (forall i :: 0 <= i < |hrp| ==> 33 <= hrp[i] <= 126)
      && (forall i :: 0 <= i < |data| ==> 0 <= data[i] <= 31) && |hrp| + 1 + |data| + 8 <= 129
  {
  }

  /** The symbols of the checksum. */
  ghost function ChecksumOf(hrp: seq<int>, data: seq<int>): seq<int>
  {
    Digits(P.TheCode(P.OfCashAddr), Closing(P.TheCode(P.OfCashAddr), StateAfter(hrp, data), 1))
  }

  ghost function CashString(hrp: seq<int>, data: seq<int>): seq<int>
  {
    hrp + [58] + Chars(data) + Chars(ChecksumOf(hrp, data))
  }

  lemma FoldPrefix(x: bv64, vs: seq<int>, i: nat)
    requires i < |vs|
    ensures Fold(P.TheCode(P.OfCashAddr), x, vs[..i + 1])
         == P.Xor(P.Step(P.OfCashAddr, Fold(P.TheCode(P.OfCashAddr), x, vs[..i])), P.Word(vs[i]))
  {
    hide P.Xor, P.Step, P.Word;
    assert vs[..i + 1][..i] == vs[..i];
  }

  /** The same for the next element of a sequence that comes after `before`. */
  lemma FoldAt(x: bv64, before: seq<int>, vs: seq<int>, i: nat)
    requires i < |vs|
    ensures Fold(P.TheCode(P.OfCashAddr), x, before + vs[..i + 1])
         == P.Xor(P.Step(P.OfCashAddr, Fold(P.TheCode(P.OfCashAddr), x, before + vs[..i])), P.Word(vs[i]))
  {
    hide P.Xor, P.Step, P.Word;
    var all := before + vs;
    assert before + vs[..i + 1] == all[..|before| + i + 1] && before + vs[..i] == all[..|before| + i];
    FoldPrefix(x, all, |before| + i);
  }

  /** The zero symbol after the prefix. */
  lemma FoldZero(x: bv64, vs: seq<int>)
    ensures Fold(P.TheCode(P.OfCashAddr), x, vs + [0]) == P.Step(P.OfCashAddr, Fold(P.TheCode(P.OfCashAddr), x, vs))
  {
    hide P.Step;
    assert (vs + [0])[..|vs|] == vs;
    P.XorUnits(P.Step(P.OfCashAddr, Fold(P.TheCode(P.OfCashAddr), x, vs)));
    assert P.Word(0) == 0;
  }

  lemma FoldNothing(x: bv64)
    ensures Fold(P.TheCode(P.OfCashAddr), x, []) == x
  {
  }

  /** The prefix, when it is printable. */
  method AbsorbPrefix(hrp: seq<int>) returns (ok: bool, chk: bv64, output: seq<int>)
    ensures ok <==> forall i :: 0 <= i < |hrp| ==> Printable(hrp[i])
    ensures ok ==> chk == Fold(P.TheCode(P.OfCashAddr), 1, LowBits(hrp)) && output == hrp
  {
    hide P.Xor, P.Step, P.Word, P.TheCode, Fold;
    ok, chk, output := false, 1, [];
    FoldNothing(1);
    assert LowBits(hrp)[..0] == [];
    for i := 0 to |hrp|
      invariant chk == Fold(P.TheCode(P.OfCashAddr), 1, LowBits(hrp)[..i]) && output == hrp[..i]
      invariant forall j :: 0 <= j < i ==> Printable(hrp[j])
    {
      var ch := hrp[i];
      if ch < 33 || ch > 126 {
        return;
      }
      output := output + [ch];
      FoldPrefix(1, LowBits(hrp), i);
      chk := P.Xor(P.Step(P.OfCashAddr, chk), P.Word(ch % 32));
    }
    assert LowBits(hrp)[..|hrp|] == LowBits(hrp);
    ok := true;
  }

  /** The data symbols, written as characters. */
  method AbsorbData(data: seq<int>, start: bv64, ghost hrp: seq<int>) returns (ok: bool, chk: bv64, output: seq<int>)
    requires start == StateAfter(hrp, []) && forall i :: 0 <= i < |data| ==> data[i] >= 0
    ensures ok <==> forall i :: 0 <= i < |data| ==> data[i] < 32
    ensures ok ==> chk == StateAfter(hrp, data) && output == Chars(data)
  {
    hide P.Xor, P.Step, P.Word, P.TheCode, Fold, Char;
    ok, chk, output := false, start, [];
    assert data[..0] == [];
    for i := 0 to |data|
      invariant chk == StateAfter(hrp, data[..i]) && output == Chars(data[..i])
      invariant forall j :: 0 <= j < i ==> data[j] < 32
    {
      if data[i] / 32 != 0 {
        return;
      }
      FoldAt(1, Expanded(hrp), data, i);
      chk := P.Xor(P.Step(P.OfCashAddr, chk), P.Word(data[i]));
      output := output + [Char(data[i])];
      assert Chars(data[..i + 1]) == Chars(data[..i]) + [Char(data[i])];
    }
    assert data[..|data|] == data;
    ok := true;
  }

  /** The eight closing characters. */
  method CloseChecksum(state: bv64) returns (output: seq<int>)
    ensures output == Chars(Digits(P.TheCode(P.OfCashAddr), Closing(P.TheCode(P.OfCashAddr), state, 1)))
  {
    hide P.Xor, P.Step, P.DigitOf;
    var chk := state;
    for i := 0 to 8
      invariant chk == Steps(P.TheCode(P.OfCashAddr), state, i)
    {
      chk := P.Step(P.OfCashAddr, chk);
    }
    chk := P.Xor(chk, 1);
    ghost var sum := Digits(P.TheCode(P.OfCashAddr), chk);
    output := [];
    for i := 0 to 8
      invariant output == Chars(sum[..i])
    {
      output := output + [Char(P.DigitOf(P.OfCashAddr, chk, i))];
      assert Chars(sum[..i + 1]) == Chars(sum[..i]) + [Char(sum[i])];
    }
    assert sum[..8] == sum;
  }

  /** The encoding, when there is one (cash_encode). */
  method Encode(hrp: seq<int>, data: seq<int>) returns (ok: bool, output: seq<int>)
    requires forall i :: 0 <= i < |data| ==> data[i] >= 0
    ensures ok <==> Encodable(hrp, data)
    ensures ok ==> output == CashString(hrp, data)
  {
    hide P.Xor, P.Step, P.TheCode;
    var chk, chars, closing;
    ok, chk, output := AbsorbPrefix(hrp);
    if !ok {
      return;
    }
    if |hrp| + 1 + |data| + CHECKSUM_SIZE > MAX_CASHADDR_SIZE {
      return false, [];
    }
    FoldZero(1, LowBits(hrp));
    chk := P.Step(P.OfCashAddr, chk);
    assert Expanded(hrp) + [] == LowBits(hrp) + [0];
    output := output + [58];
    ok, chk, chars := AbsorbData(data, chk, hrp);
    if !ok {
      return;
    }
    closing := CloseChecksum(chk);
    output := output + chars + closing;
  }

  // ---------- Decoding ----------

  datatype Decoded = Invalid | Valid(hrp: seq<int>, data: seq<int>)

  predicate WellFormed(input: seq<int>)
  {
    var sep := LastIndex(input, 58);
    && CHECKSUM_SIZE <= |input| <= MAX_CASHADDR_SIZE && 1 <= sep <= MAX_HRP_SIZE
    && CHECKSUM_SIZE <= |input| - 1 - sep <= CHECKSUM_SIZE + MAX_BASE32_SIZE
    && (forall i :: 0 <= i < sep ==> Printable(input[i]))
    && (forall i :: sep < i < |input| ==> Symbol(input[i]) != -1)
    && !(HasLower(input) && HasUpper(input))
  }

  /** What a string decodes to. */
  ghost function Decoding(input: seq<int>): Decoded
  {
    if !WellFormed(input) then Invalid
    else
      var sep := LastIndex(input, 58);
      var hrp, symbols := Lowered(input[..sep]), Values(input[sep + 1..]);
      if StateAfter(hrp, symbols) == 1 then Valid(hrp, symbols[..|symbols| - CHECKSUM_SIZE]) else Invalid
  }

  /** What is accepted has a prefix of 1 to 20 characters, a separator, at most 104 symbols and eight behind them. */
  lemma AcceptedShape(input: seq<int>)
    requires Decoding(input).Valid?
    ensures var d := Decoding(input);
            && 1 <= |d.hrp| <= 20 && |d.data| <= 104 && |input| == |d.hrp| + 1 + |d.data| + 8 <= 129
            && input[|d.hrp|] == 58
  {
    hide StateAfter, HasUpper, HasLower, Symbol;
  }

  /** The prefix: checked, lowered and absorbed, with the case flags. */
  method DecodePrefix(input: seq<int>) returns (ok: bool, chk: bv64, hrp: seq<int>, haveLower: bool, haveUpper: bool)
    ensures ok <==> forall i :: 0 <= i < |input| ==> Printable(input[i])
    ensures ok ==> hrp == Lowered(input) && chk == Fold(P.TheCode(P.OfCashAddr), 1, LowBits(hrp))
    ensures ok ==> (haveLower <==> HasLower(input)) && (haveUpper <==> HasUpper(input))
  {
    hide P.Xor, P.Step, P.Word, P.TheCode, Fold, HasLower, HasUpper;
    FoldNothing(1);
    NoCase();
    assert input[..0] == [];
    ok, chk, hrp, haveLower, haveUpper := false, 1, [], false, false;
    ghost var low := Lowered(input);
    assert LowBits(low)[..0] == [];
    for i := 0 to |input|
      invariant chk == Fold(P.TheCode(P.OfCashAddr), 1, LowBits(low)[..i]) && hrp == low[..i]
      invariant forall j :: 0 <= j < i ==> Printable(input[j])
      invariant haveLower <==> HasLower(input[..i])
      invariant haveUpper <==> HasUpper(input[..i])
    {
      var ch := input[i];
      if ch < 33 || ch > 126 {
        return;
      }
      Seen(input, i);
      if 97 <= ch <= 122 {
        haveLower := true;
      } else if 65 <= ch <= 90 {
        haveUpper := true;
        ch := (ch - 65) + 97;
      }
      hrp := hrp + [ch];
      FoldPrefix(1, LowBits(low), i);
      chk := P.Xor(P.Step(P.OfCashAddr, chk), P.Word(ch % 32));
    }
    assert LowBits(low)[..|input|] == LowBits(low) && input[..|input|] == input;
    ok := true;
  }

  /** The characters after the separator: values absorbed, all but the last eight kept. */
  method DecodeData(input: seq<int>, start: bv64, ghost hrp: seq<int>)
    returns (ok: bool, chk: bv64, data: seq<int>, haveLower: bool, haveUpper: bool)
    requires |input| >= 8 && start == StateAfter(hrp, [])
    ensures ok <==> forall i :: 0 <= i < |input| ==> Symbol(input[i]) != -1
    ensures ok ==> chk == StateAfter(hrp, Values(input)) && data == Values(input)[..|input| - 8]
    ensures ok ==> (haveLower <==> HasLower(input)) && (haveUpper <==> HasUpper(input))
  {
    hide P.Xor, P.Step, P.Word, P.TheCode, Fold, HasLower, HasUpper, Symbol;
    NoCase();
    assert input[..0] == [];
    ok, chk, data, haveLower, haveUpper := false, start, [], false, false;
    ghost var symbols := Values(input);
    assert symbols[..0] == [];
    for i := 0 to |input|
      invariant chk == StateAfter(hrp, symbols[..i]) && data == symbols[..Min(i, |input| - 8)]
      invariant forall j :: 0 <= j < i ==> Symbol(input[j]) != -1
      invariant haveLower <==> HasLower(input[..i])
      invariant haveUpper <==> HasUpper(input[..i])
    {
      Seen(input, i);
      var v := Symbol(input[i]);
      if 97 <= input[i] <= 122 {
        haveLower := true;
      }
      if 65 <= input[i] <= 90 {
        haveUpper := true;
      }
      if v == -1 {
        return;
      }
      FoldAt(1, Expanded(hrp), symbols, i);
      chk := P.Xor(P.Step(P.OfCashAddr, chk), P.Word(v));
      if i + CHECKSUM_SIZE < |input| {
        data := data + [v];
      }
    }
    assert input[..|input|] == input && symbols[..|input|] == symbols;
    ok := true;
  }

  /** Decoding (cash_decode). */
  method Decode(input: seq<int>) returns (ok: bool, hrp: seq<int>, data: seq<int>)
    ensures ok <==> Decoding(input) != Invalid
    ensures ok ==> Decoding(input) == Valid(hrp, data)
  {
    hide P.Xor, P.Step, P.Word, P.TheCode, HasLower, HasUpper, Fold, Symbol, Lower;
    ok, hrp, data := false, [], [];
    if |input| < CHECKSUM_SIZE || |input| > MAX_CASHADDR_SIZE {
      return;
    }
    var dataLen := LengthAfter(input, 58);
    var hrpLen := |input| - (1 + dataLen);
    if 1 + dataLen >= |input| || hrpLen > MAX_HRP_SIZE || dataLen < CHECKSUM_SIZE
       || dataLen > CHECKSUM_SIZE + MAX_BASE32_SIZE {
      return;
    }
    var chk, lower1, upper1, lower2, upper2;
    ok, chk, hrp, lower1, upper1 := DecodePrefix(input[..hrpLen]);
    if !ok {
      return;
    }
    FoldZero(1, LowBits(hrp));
    chk := P.Step(P.OfCashAddr, chk);
    assert Expanded(hrp) + [] == LowBits(hrp) + [0];
    ghost var tail := input[hrpLen + 1..];
    assert forall i :: hrpLen < i < |input| ==> input[i] == tail[i - hrpLen - 1];
    ok, chk, data, lower2, upper2 := DecodeData(input[hrpLen + 1..], chk, hrp);
    if !ok {
      return;
    }
    SplitCase(input, hrpLen);
    if (lower1 || lower2) && (upper1 || upper2) {
      ok := false;
      return;
    }
    ok := chk == 1;
  }

  // ---------- What the string functions promise ----------

  lemma StateIn(hrp: seq<int>, symbols: seq<int>)
    requires AllSymbols(symbols)
    ensures StateAfter(hrp, symbols) < P.Limit(P.OfCashAddr) && AllSymbols(Expanded(hrp) + symbols)
  {
    hide P.Step, P.Xor, P.Word, P.DigitOf;
    P.IsACode(P.OfCashAddr);
    FoldIn(P.TheCode(P.OfCashAddr), 1, Expanded(hrp) + symbols);
  }

  /** The closing symbols take the state to one. */
  lemma ChecksumCloses(hrp: seq<int>, data: seq<int>)
    requires AllSymbols(data)
    ensures AllSymbols(ChecksumOf(hrp, data)) && |ChecksumOf(hrp, data)| == CHECKSUM_SIZE
    ensures StateAfter(hrp, data + ChecksumOf(hrp, data)) == 1
  {
    hide P.Step, P.Xor, P.Word, P.DigitOf;
    var sum := ChecksumOf(hrp, data);
    StateIn(hrp, data);
    P.IsACode(P.OfCashAddr);
    ClosingReachesTarget(P.TheCode(P.OfCashAddr), StateAfter(hrp, data), 1);
    FoldConcat(P.TheCode(P.OfCashAddr), 1, Expanded(hrp) + data, sum);
    assert Expanded(hrp) + (data + sum) == (Expanded(hrp) + data) + sum;
  }

  lemma PartsOfCashString(hrp: seq<int>, symbols: seq<int>)
    requires AllSymbols(symbols)
    ensures var s := hrp + [58] + Chars(symbols);
            && LastIndex(s, 58) == |hrp| && s[..|hrp|] == hrp && s[|hrp| + 1..] == Chars(symbols)
            && Values(Chars(symbols)) == symbols && (HasUpper(s) <==> HasUpper(hrp))
            && forall i :: |hrp| < i < |s| ==> Symbol(s[i]) != -1
  {
    hide Symbol;
    var s := hrp + [58] + Chars(symbols);
    ValuesOfChars(symbols);
    forall i | |hrp| < i < |s|
      ensures s[i] != 58 && !IsUpper(s[i]) && Symbol(s[i]) != -1
    {
      assert s[i] == Chars(symbols)[i - |hrp| - 1];
      assert Symbol(s[i]) == Values(Chars(symbols))[i - |hrp| - 1];
    }
    assert s[|hrp|] == 58;
    assert forall i :: 0 <= i < |hrp| ==> s[i] == hrp[i];
  }

  lemma LoweredSame(s: seq<int>)
    ensures Lowered(s) == s <==> !HasUpper(s)
  {
    if HasUpper(s) {
      var i :| 0 <= i < |s| && IsUpper(s[i]);
      assert Lowered(s)[i] != s[i];
    }
  }

  /** The prefixes and data that survive a decoding: the encoder accepts more than the decoder. */
  predicate Decodable(hrp: seq<int>, data: seq<int>)
  {
    1 <= |hrp| <= MAX_HRP_SIZE && |data| <= MAX_BASE32_SIZE && !HasUpper(hrp)
  }

  /** Decoding undoes encoding exactly for prefixes without capitals that fit the decoder's buffers. */
  lemma DecodingUndoesEncoding(hrp: seq<int>, data: seq<int>)
    requires Encodable(hrp, data)
    ensures Decoding(CashString(hrp, data)) == Valid(hrp, data) <==> Decodable(hrp, data)
  {
    hide P.Step, P.Xor, P.Word, P.DigitOf, P.TheCode, Fold, Expanded, Chars, Values, HasUpper, HasLower, Symbol;
    var sum := ChecksumOf(hrp, data);
    ChecksumCloses(hrp, data);
    var symbols := data + sum;
    CharsConcat(data, sum);
    var s := hrp + [58] + Chars(symbols);
    assert CashString(hrp, data) == s;
    PartsOfCashString(hrp, symbols);
    LoweredSame(hrp);
    assert symbols[..|symbols| - CHECKSUM_SIZE] == data;
  }

  /** No other symbols close the checksum. */
  lemma ChecksumIs(hrp: seq<int>, data: seq<int>, sum: seq<int>)
    requires (forall i :: 0 <= i < |hrp| ==> Printable(hrp[i])) && AllSymbols(data) && AllSymbols(sum)
      && |sum| == CHECKSUM_SIZE
    requires StateAfter(hrp, data + sum) == 1
    ensures sum == ChecksumOf(hrp, data)
  {
    hide P.Step, P.Xor, P.Word, P.DigitOf;
    StateIn(hrp, data);
    P.IsACode(P.OfCashAddr);
    FoldConcat(P.TheCode(P.OfCashAddr), 1, Expanded(hrp) + data, sum);
    assert Expanded(hrp) + (data + sum) == (Expanded(hrp) + data) + sum;
    P.DigitsOfFold(P.OfCashAddr, sum);
    ClosingUnique(P.TheCode(P.OfCashAddr), StateAfter(hrp, data), 1, sum);
  }

  /** Accepted strings are canonical: in lower case they are the encoding of what they decode to. */
  lemma EncodingUndoesDecoding(input: seq<int>)
    requires Decoding(input).Valid?
    ensures var d := Decoding(input);
            Lowered(input) == CashString(d.hrp, d.data)
  {
    hide StateAfter, ChecksumOf, Chars, Values, HasUpper, HasLower, Symbol;
    var d, sep := Decoding(input), LastIndex(input, 58);
    var symbols := Values(input[sep + 1..]);
    var sum := symbols[|symbols| - CHECKSUM_SIZE..];
    TailSymbols(input, sep);
    TailCharacters(input, sep);
    LoweredParts(input, sep);
    LoweredPrintable(input[..sep]);
    assert symbols == d.data + sum;
    ChecksumIs(d.hrp, d.data, sum);
    CharsConcat(d.data, sum);
  }

  /** The encoder accepts capitals and prefixes of more than 20 characters, which the decoder does not give back. */
  lemma UndecodablePrefixes()
    ensures Encodable([65], []) && Decoding(CashString([65], [])) != Valid([65], [])
    ensures var long := Repeat(97, 21);
            Encodable(long, []) && Decoding(CashString(long, [])) != Valid(long, [])
  {
    hide Decoding, CashString;
    assert IsUpper([65][0]);
    DecodingUndoesEncoding([65], []);
    DecodingUndoesEncoding(Repeat(97, 21), []);
  }

  /** Changing one symbol changes the state. */
  lemma OneSymbolChangesState(hrp: seq<int>, vs: seq<int>, k: nat, d: int)
    requires (forall i :: 0 <= i < |hrp| ==> Printable(hrp[i])) && InBase(vs, 32) && k < |vs| && IsSymbol(d)
      && d != vs[k]
    ensures StateAfter(hrp, vs[k := d]) != StateAfter(hrp, vs)
  {
    hide P.Step, P.Xor, P.Word, P.DigitOf, Expanded;
    StateIn(hrp, vs);
    P.IsACode(P.OfCashAddr);
    var all := Expanded(hrp) + vs;
    assert all[|Expanded(hrp)| + k := d] == Expanded(hrp) + vs[k := d];
    OneSymbolDetected(P.TheCode(P.OfCashAddr), 1, all, |Expanded(hrp)| + k, d);
  }

  /** Changing one character after the separator to one of another value is always noticed. */
  lemma OneCharacterNoticed(input: seq<int>, i: nat, c: int)
    requires Decoding(input).Valid? && LastIndex(input, 58) < i < |input|
    requires c != 58 && Symbol(c) != Symbol(input[i])
    ensures Decoding(input[i := c]) == Invalid
  {
    hide StateAfter, HasUpper, HasLower, Symbol;
    var changed, sep := input[i := c], LastIndex(input, 58);
    LastIndexOf(changed, 58, sep);
    if WellFormed(changed) {
      TailSymbols(input, sep);
      TailUpdate(input, sep, i, c);
      SymbolRange(c);
      assert changed[i] == c;
      LoweredPrintable(input[..sep]);
      OneSymbolChangesState(Lowered(input[..sep]), Values(input[sep + 1..]), i - sep - 1, Symbol(c));
    }
  }

  // ---------- Addresses ----------

  lemma EncodableSymbols(hrp: seq<int>, symbols: seq<int>)
    requires InBase(symbols, 32)
    ensures forall i :: 0 <= i < |symbols| ==> symbols[i] >= 0
    ensures Encodable(hrp, symbols) <==>
      |hrp| + 9 + |symbols| <= MAX_CASHADDR_SIZE && forall i :: 0 <= i < |hrp| ==> Printable(hrp[i])
  {
  }

  /** The address of a payload (cash_addr_encode). */
  method CashAddrEncode(hrp: seq<int>, payload: seq<int>) returns (ok: bool, output: seq<int>, ghost symbols: seq<int>)
    requires InBase(payload, 256)
    ensures ok <==> 2 <= |payload| <= 65 && |hrp| + 9 + (8 * |payload| + 4) / 5 <= 129
                    && forall i :: 0 <= i < |hrp| ==> Printable(hrp[i])
    ensures ok ==> (exists pad :: Padded(payload, 8, symbols, 5, pad)) && Encodable(hrp, symbols)
    ensures ok ==> output == CashString(hrp, symbols)
  {
    hide CashString, Padded, Num, Encodable, InBase, Printable;
    ok, output, symbols := false, [], [];
    if |payload| < 2 || |payload| > MAX_DATA_SIZE {
      return;
    }
    Bytes();
    var converted, base32;
    ghost var bits, rest;
    converted, base32, bits, rest := ConvertBits(payload, 8, 5, true);
    symbols := base32;
    BackToBytes(payload, symbols, bits);
    PaddedSymbols(payload, symbols, bits);
    EncodableSymbols(hrp, symbols);
    ok, output := Encode(hrp, base32);
  }

  /** `back` is what the symbols of an address regroup to, whatever is left over. */
  ghost predicate Regrouping(address: seq<int>, hrp: seq<int>, data: seq<int>, back: seq<int>, bits: int, rest: int)
  {
    data != [] && Decoding(address) == Valid(hrp, data) && 0 <= bits < 8 && Regrouped(data, 5, back, 8, bits, rest)
  }

  /** The payload of an address (cash_addr_decode). */
  method CashAddrDecode(hrp: seq<int>, address: seq<int>) returns (ok: bool, payload: seq<int>)
    ensures ok ==> 2 <= |payload| <= 65 && InBase(payload, 256)
    ensures ok ==> exists data, bits :: Regrouping(address, hrp, data, payload, bits, 0) && bits < 5
    ensures forall data, back, bits, rest :: Regrouping(address, hrp, data, back, bits, rest) ==>
      (ok <==> rest == 0 && bits < 5 && 2 <= |back| <= 65) && (ok ==> payload == back)
  {
    hide P.TheCode, Fold, Num, WellFormed, Pow;
    ok, payload := false, [];
    var decoded, actual, data := Decode(address);
    if !decoded {
      return;
    }
    DecodedSymbols(address);
    if |data| == 0 || |data| > MAX_BASE32_SIZE {
      return;
    }
    if hrp != actual {
      return;
    }
    Bytes();
    ghost var bits, rest;
    var converted, back;
    converted, back, bits, rest := ConvertBits(data, 5, 8, false);
    AnyRegrouping(data, back, bits, rest);
    if !converted {
      return;
    }
    if |back| < 2 || |back| > MAX_DATA_SIZE {
      return;
    }
    ok, payload := true, back;
    assert Regrouping(address, hrp, data, payload, bits, 0);
  }

  lemma DecodedSymbols(address: seq<int>)
    requires Decoding(address).Valid?
    ensures InBase(Decoding(address).data, 32) && |Decoding(address).data| <= MAX_BASE32_SIZE
  {
    hide StateAfter, HasUpper, HasLower, Symbol;
    TailSymbols(address, LastIndex(address, 58));
  }

  /** Decoding an address gives back the payload it was made from. */
  method EncodeThenDecode(hrp: seq<int>, payload: seq<int>)
    returns (encoded: bool, address: seq<int>, decoded: bool, payload': seq<int>)
    requires 1 <= |hrp| <= 20 && !HasUpper(hrp) && InBase(payload, 256)
    ensures encoded ==> decoded && payload' == payload
  {
    hide Decoding, CashString, Regrouped, Encodable, Num, HasUpper;
    decoded, payload' := false, [];
    ghost var symbols;
    encoded, address, symbols := CashAddrEncode(hrp, payload);
    if encoded {
      ghost var pad :| Padded(payload, 8, symbols, 5, pad);
      BackToBytes(payload, symbols, pad);
      DecodingUndoesEncoding(hrp, symbols);
      assert Regrouping(address, hrp, symbols, payload, pad, 0);
      decoded, payload' := CashAddrDecode(hrp, address);
    }
  }
}

/** Bech32, Bech32m and segwit addresses (crypto/segwit_addr.c). Strings are sequences of character codes. */
module Segwit {
  import opened Arith
  import opened Numerals
  import opened Symbols
  import opened Checksum
  import P = Polymod

  datatype Encoding = None | Bech32 | Bech32m

  const MAX_HRP_LEN := 83

  function FinalConstant(enc: Encoding): bv64
  {
    match enc
    case Bech32 => 1
    case Bech32m => 0x2bc8_30a3
    case None => 0
  }

  function HighBits(hrp: seq<int>): (s: seq<int>)
    ensures |s| == |hrp|
  {
    seq(|hrp|, i requires 0 <= i < |hrp| => hrp[i] / 32)
  }

  /** What the human-readable part contributes to the checksum. */
  function Expanded(hrp: seq<int>): seq<int> { HighBits(hrp) + [0] + LowBits(hrp) }

  ghost function StateAfter(hrp: seq<int>, symbols: seq<int>): bv64
  {
    Fold(P.TheCode(P.OfBech32), 1, Expanded(hrp) + symbols)
  }

  // ---------- Encoding ----------

  predicate Encodable(hrp: seq<int>, data: seq<int>)
  {
    && (forall i :: 0 <= i < |hrp| ==> Printable(hrp[i]) && !IsUpper(hrp[i]))
    && |hrp| + 7 + |data| <= 90
    && forall i :: 0 <= i < |data| ==> 0 <= data[i] < 32
  }

  /** Printable ASCII without capitals, 5-bit symbols, and at most 90 characters with separator and checksum. */
  lemma EncodableMeans(hrp: seq<int>, data: seq<int>)
    ensures Encodable(hrp, data) <==>
      && (forall i :: 0 <= i < |hrp| ==> 33 <= hrp[i] <= 126 && !(65 <= hrp[i] <= 90))
      && (forall i :: 0 <= i < |data| ==> 0 <= data[i] <= 31) && |hrp| + 7 + |data| <= 90
  {
  }

  /** The symbols of the checksum. */
  ghost function ChecksumOf(hrp: seq<int>, data: seq<int>, enc: Encoding): seq<int>
  {
    Digits(P.TheCode(P.OfBech32), Closing(P.TheCode(P.OfBech32), StateAfter(hrp, data), FinalConstant(enc)))
  }

  ghost function BechString(hrp: seq<int>, data: seq<int>, enc: Encoding): seq<int>
  {
    hrp + [49] + Chars(data) + Chars(ChecksumOf(hrp, data, enc))
  }

  lemma {:induction false} FoldNext(x: bv64, vs: seq<int>, v: int)
    ensures Fold(P.TheCode(P.OfBech32), x, vs + [v])
         == P.Xor(P.Step(P.OfBech32, Fold(P.TheCode(P.OfBech32), x, vs)), P.Word(v))
  {
    assert (vs + [v])[..|vs|] == vs;
  }

  /** The same for the next element of a sequence that comes after `before`. */
  lemma FoldAt(x: bv64, before: seq<int>, vs: seq<int>, i: nat)
    requires i < |vs|
    ensures Fold(P.TheCode(P.OfBech32), x, before + vs[..i + 1])
         == P.Xor(P.Step(P.OfBech32, Fold(P.TheCode(P.OfBech32), x, before + vs[..i])), P.Word(vs[i]))
  {
    hide P.Xor, P.Step, P.Word;
    assert before + vs[..i + 1] == (before + vs[..i]) + [vs[i]];
    FoldNext(x, before + vs[..i], vs[i]);
  }

  lemma FoldPrefix(x: bv64, vs: seq<int>, i: nat)
    requires i < |vs|
    ensures Fold(P.TheCode(P.OfBech32), x, vs[..i + 1])
         == P.Xor(P.Step(P.OfBech32, Fold(P.TheCode(P.OfBech32), x, vs[..i])), P.Word(vs[i]))
  {
    hide P.Xor, P.Step, P.Word;
    assert vs[..i + 1][..i] == vs[..i];
  }

  lemma ZeroWord(x: bv64)
    ensures P.Xor(x, P.Word(0)) == x
  {
    P.XorUnits(x);
    assert P.Word(0) == 0;
  }

  /** The zero symbol between the two halves of the human-readable part, and its low bits. */
  method AbsorbLow(hrp: seq<int>, start: bv64, ghost high: seq<int>) returns (chk: bv64)
    requires start == Fold(P.TheCode(P.OfBech32), 1, high)
    ensures chk == Fold(P.TheCode(P.OfBech32), 1, high + [0] + LowBits(hrp))
  {
    hide P.Xor, P.Step, P.Word, P.TheCode;
    FoldNext(1, high, 0);
    ZeroWord(P.Step(P.OfBech32, start));
    chk := P.Step(P.OfBech32, start);
    assert high + [0] + LowBits(hrp)[..0] == high + [0];
    for i := 0 to |hrp|
      invariant chk == Fold(P.TheCode(P.OfBech32), 1, high + [0] + LowBits(hrp)[..i])
    {
      FoldAt(1, high + [0], LowBits(hrp), i);
      chk := P.Xor(P.Step(P.OfBech32, chk), P.Word(hrp[i] % 32));
    }
    assert LowBits(hrp)[..|hrp|] == LowBits(hrp);
  }

  /** The high bits of an acceptable human-readable part. */
  method AbsorbHigh(hrp: seq<int>) returns (ok: bool, chk: bv64)
    ensures ok <==> forall i :: 0 <= i < |hrp| ==> Printable(hrp[i]) && !IsUpper(hrp[i])
    ensures ok ==> chk == Fold(P.TheCode(P.OfBech32), 1, HighBits(hrp))
  {
    hide P.Xor, P.Step, P.Word, P.TheCode;
    ok, chk := false, 1;
    for i := 0 to |hrp|
      invariant chk == Fold(P.TheCode(P.OfBech32), 1, HighBits(hrp)[..i])
      invariant forall j :: 0 <= j < i ==> Printable(hrp[j]) && !IsUpper(hrp[j])
    {
      var ch := hrp[i];
      if ch < 33 || ch > 126 {
        return;
      }
      if 65 <= ch <= 90 {
        return;
      }
      FoldPrefix(1, HighBits(hrp), i);
      chk := P.Xor(P.Step(P.OfBech32, chk), P.Word(ch / 32));
    }
    assert HighBits(hrp)[..|hrp|] == HighBits(hrp);
    ok := true;
  }

  /** The data symbols, written as characters. */
  method AbsorbData(data: seq<int>, start: bv64, ghost hrp: seq<int>) returns (ok: bool, chk: bv64, output: seq<int>)
    requires start == StateAfter(hrp, []) && forall i :: 0 <= i < |data| ==> data[i] >= 0
    ensures ok <==> forall i :: 0 <= i < |data| ==> data[i] < 32
    ensures ok ==> chk == StateAfter(hrp, data) && output == Chars(data)
  {
    hide P.Xor, P.Step, P.Word, P.TheCode, Fold, Char;
    ok, chk, output := false, start, [];
    assert data[..0] == [];
    for i := 0 to |data|
      invariant chk == StateAfter(hrp, data[..i]) && output == Chars(data[..i])
      invariant forall j :: 0 <= j < i ==> data[j] < 32
    {
      if data[i] / 32 != 0 {
        return;
      }
      FoldAt(1, Expanded(hrp), data, i);
      chk := P.Xor(P.Step(P.OfBech32, chk), P.Word(data[i]));
      output := output + [Char(data[i])];
      assert Chars(data[..i + 1]) == Chars(data[..i]) + [Char(data[i])];
    }
    assert data[..|data|] == data;
    ok := true;
  }

  /** The six closing characters. */
  method CloseChecksum(state: bv64, enc: Encoding) returns (output: seq<int>)
    ensures output == Chars(Digits(P.TheCode(P.OfBech32), Closing(P.TheCode(P.OfBech32), state, FinalConstant(enc))))
  {
    hide P.Xor, P.Step, P.DigitOf;
    var chk := state;
    for i := 0 to 6
      invariant chk == Steps(P.TheCode(P.OfBech32), state, i)
    {
      chk := P.Step(P.OfBech32, chk);
    }
    chk := P.Xor(chk, FinalConstant(enc));
    ghost var sum := Digits(P.TheCode(P.OfBech32), chk);
    output := [];
    for i := 0 to 6
      invariant output == Chars(sum[..i])
    {
      output := output + [Char(P.DigitOf(P.OfBech32, chk, i))];
      assert Chars(sum[..i + 1]) == Chars(sum[..i]) + [Char(sum[i])];
    }
    assert sum[..6] == sum;
  }

  /** The encoding, when there is one (bech32_encode). */
  method Encode(hrp: seq<int>, data: seq<int>, enc: Encoding) returns (ok: bool, output: seq<int>)
    requires forall i :: 0 <= i < |data| ==> data[i] >= 0
    ensures ok <==> Encodable(hrp, data)
    ensures ok ==> output == BechString(hrp, data, enc)
  {
    hide P.Xor, P.Step, P.TheCode;
    var chk;
    output := [];
    ok, chk := AbsorbHigh(hrp);
    if !ok {
      return;
    }
    if |hrp| + 7 + |data| > 90 {
      return false, [];
    }
    chk := AbsorbLow(hrp, chk, HighBits(hrp));
    assert Expanded(hrp) + [] == HighBits(hrp) + [0] + LowBits(hrp);
    var chars, closing;
    ok, chk, chars := AbsorbData(data, chk, hrp);
    if !ok {
      return;
    }
    closing := CloseChecksum(chk, enc);
    output := hrp + [49] + chars + closing;
  }

  // ---------- Decoding ----------

  datatype Decoded = Invalid | Valid(hrp: seq<int>, data: seq<int>, enc: Encoding)

  /** The part of the string after the separator as symbols, and the shape of the string otherwise. */
  predicate WellFormed(input: seq<int>)
  {
    var sep := LastIndex(input, 49);
    && |input| >= 8 && 1 <= sep <= MAX_HRP_LEN && |input| - 1 - sep >= 6
    && (forall i :: 0 <= i < sep ==> Printable(input[i]))
    && (forall i :: sep < i < |input| ==> Symbol(input[i]) != -1)
    && !(HasLower(input) && HasUpper(input))
  }

  /** What a string decodes to. */
  ghost function Decoding(input: seq<int>): Decoded
  {
    if !WellFormed(input) then Invalid
    else
      var sep := LastIndex(input, 49);
      var hrp, symbols := Lowered(input[..sep]), Values(input[sep + 1..]);
      var state := StateAfter(hrp, symbols);
      var data := symbols[..|symbols| - 6];
      if state == FinalConstant(Bech32) then Valid(hrp, data, Bech32)
      else if state == FinalConstant(Bech32m) then Valid(hrp, data, Bech32m)
      else Invalid
  }

  /** The human-readable part: checked, lowered and absorbed, with the case flags. */
  method DecodeHigh(input: seq<int>) returns (ok: bool, chk: bv64, hrp: seq<int>, haveLower: bool, haveUpper: bool)
    ensures ok <==> forall i :: 0 <= i < |input| ==> Printable(input[i])
    ensures ok ==> hrp == Lowered(input) && chk == Fold(P.TheCode(P.OfBech32), 1, HighBits(hrp))
    ensures ok ==> (haveLower <==> HasLower(input)) && (haveUpper <==> HasUpper(input))
  {
    hide P.Xor, P.Step, P.Word, P.TheCode, Fold, HasLower, HasUpper;
    assert Fold(P.TheCode(P.OfBech32), 1, []) == 1 by {
      FoldNothing(1);
    }
    assert !HasLower(input[..0]) && !HasUpper(input[..0]) by {
      NoCase();
      assert input[..0] == [];
    }
    ok, chk, hrp, haveLower, haveUpper := false, 1, [], false, false;
    ghost var low := Lowered(input);
    assert HighBits(low)[..0] == [];
    for i := 0 to |input|
      invariant chk == Fold(P.TheCode(P.OfBech32), 1, HighBits(low)[..i]) && hrp == low[..i]
      invariant forall j :: 0 <= j < i ==> Printable(input[j])
      invariant haveLower <==> HasLower(input[..i])
      invariant haveUpper <==> HasUpper(input[..i])
    {
      var ch := input[i];
      if ch < 33 || ch > 126 {
        return;
      }
      Seen(input, i);
      if 97 <= ch <= 122 {
        haveLower := true;
      } else if 65 <= ch <= 90 {
        haveUpper := true;
        ch := (ch - 65) + 97;
      }
      hrp := hrp + [ch];
      FoldPrefix(1, HighBits(low), i);
      chk := P.Xor(P.Step(P.OfBech32, chk), P.Word(ch / 32));
    }
    assert HighBits(low)[..|input|] == HighBits(low) && input[..|input|] == input;
    ok := true;
  }

  /** The characters after the separator: values absorbed, all but the last six kept. */
  method DecodeData(input: seq<int>, start: bv64, ghost hrp: seq<int>)
    returns (ok: bool, chk: bv64, data: seq<int>, haveLower: bool, haveUpper: bool)
    requires |input| >= 6 && start == StateAfter(hrp, [])
    ensures ok <==> forall i :: 0 <= i < |input| ==> Symbol(input[i]) != -1
    ensures ok ==> chk == StateAfter(hrp, Values(input)) && data == Values(input)[..|input| - 6]
    ensures ok ==> (haveLower <==> HasLower(input)) && (haveUpper <==> HasUpper(input))
  {
    hide P.Xor, P.Step, P.Word, P.TheCode, Fold, HasLower, HasUpper, Symbol;
    assert !HasLower(input[..0]) && !HasUpper(input[..0]) by {
      NoCase();
      assert input[..0] == [];
    }
    ok, chk, data, haveLower, haveUpper := false, start, [], false, false;
    ghost var symbols := Values(input);
    assert symbols[..0] == [];
    for i := 0 to |input|
      invariant chk == StateAfter(hrp, symbols[..i]) && data == symbols[..Min(i, |input| - 6)]
      invariant forall j :: 0 <= j < i ==> Symbol(input[j]) != -1
      invariant haveLower <==> HasLower(input[..i])
      invariant haveUpper <==> HasUpper(input[..i])
    {
      Seen(input, i);
      var v := Symbol(input[i]);
      if 97 <= input[i] <= 122 {
        haveLower := true;
      }
      if 65 <= input[i] <= 90 {
        haveUpper := true;
      }
      if v == -1 {
        return;
      }
      FoldAt(1, Expanded(hrp), symbols, i);
      chk := P.Xor(P.Step(P.OfBech32, chk), P.Word(v));
      if i + 6 < |input| {
        data := data + [v];
      }
    }
    assert input[..|input|] == input && symbols[..|input|] == symbols;
    ok := true;
  }

  /** Decoding (bech32_decode). */
  method Decode(input: seq<int>) returns (enc: Encoding, hrp: seq<int>, data: seq<int>)
    ensures enc == None <==> Decoding(input) == Invalid
    ensures enc != None ==> Decoding(input) == Valid(hrp, data, enc)
  {
    hide P.Xor, P.Step, P.Word, P.TheCode, HasLower, HasUpper, Fold, Symbol, Lower;
    enc, hrp, data := None, [], [];
    if |input| < 8 {
      return;
    }
    var dataLen := LengthAfter(input, 49);
    var hrpLen := |input| - (1 + dataLen);
    if 1 + dataLen >= |input| || dataLen < 6 || hrpLen > MAX_HRP_LEN {
      return;
    }
    var ok, chk, lower1, upper1, lower2, upper2;
    ok, chk, hrp, lower1, upper1 := DecodeHigh(input[..hrpLen]);
    if !ok {
      return;
    }
    chk := AbsorbLow(input[..hrpLen], chk, HighBits(hrp));
    SameLowBits(input[..hrpLen]);
    assert Expanded(hrp) + [] == HighBits(hrp) + [0] + LowBits(hrp);
    ghost var tail := input[hrpLen + 1..];
    assert forall i :: hrpLen < i < |input| ==> input[i] == tail[i - hrpLen - 1];
    ok, chk, data, lower2, upper2 := DecodeData(input[hrpLen + 1..], chk, hrp);
    if !ok {
      return;
    }
    SplitCase(input, hrpLen);
    if (lower1 || lower2) && (upper1 || upper2) {
      return;
    }
    if chk == FinalConstant(Bech32) {
      enc := Bech32;
    } else if chk == FinalConstant(Bech32m) {
      enc := Bech32m;
    }
  }

  lemma FoldNothing(x: bv64)
    ensures Fold(P.TheCode(P.OfBech32), x, []) == x
  {
  }

  // ---------- What the string functions promise ----------

  lemma ExpandedSymbols(hrp: seq<int>)
    requires forall i :: 0 <= i < |hrp| ==> Printable(hrp[i])
    ensures AllSymbols(Expanded(hrp))
  {
  }

  lemma StateIn(hrp: seq<int>, symbols: seq<int>)
    requires (forall i :: 0 <= i < |hrp| ==> Printable(hrp[i])) && AllSymbols(symbols)
    ensures StateAfter(hrp, symbols) < P.Limit(P.OfBech32) && AllSymbols(Expanded(hrp) + symbols)
  {
    hide P.Step, P.Xor, P.Word, P.DigitOf;
    ExpandedSymbols(hrp);
    P.IsACode(P.OfBech32);
    FoldIn(P.TheCode(P.OfBech32), 1, Expanded(hrp) + symbols);
  }

  /** The closing symbols take the state to the final constant. */
  lemma ChecksumCloses(hrp: seq<int>, data: seq<int>, enc: Encoding)
    requires (forall i :: 0 <= i < |hrp| ==> Printable(hrp[i])) && AllSymbols(data)
    ensures AllSymbols(ChecksumOf(hrp, data, enc)) && |ChecksumOf(hrp, data, enc)| == 6
    ensures StateAfter(hrp, data + ChecksumOf(hrp, data, enc)) == FinalConstant(enc)
  {
    hide P.Step, P.Xor, P.Word, P.DigitOf;
    var sum := ChecksumOf(hrp, data, enc);
    StateIn(hrp, data);
    P.IsACode(P.OfBech32);
    assert FinalConstant(enc) < P.Limit(P.OfBech32);
    ClosingReachesTarget(P.TheCode(P.OfBech32), StateAfter(hrp, data), FinalConstant(enc));
    FoldConcat(P.TheCode(P.OfBech32), 1, Expanded(hrp) + data, sum);
    assert Expanded(hrp) + (data + sum) == (Expanded(hrp) + data) + sum;
  }

  lemma NoUpperInBechString(hrp: seq<int>, symbols: seq<int>)
    requires forall i :: 0 <= i < |hrp| ==> Printable(hrp[i]) && !IsUpper(hrp[i])
    requires AllSymbols(symbols)
    ensures var s := hrp + [49] + Chars(symbols);
            && !HasUpper(s) && LastIndex(s, 49) == |hrp|
            && s[..|hrp|] == hrp && s[|hrp| + 1..] == Chars(symbols)
            && Lowered(hrp) == hrp && Values(Chars(symbols)) == symbols
  {
    var s := hrp + [49] + Chars(symbols);
    ValuesOfChars(symbols);
    forall i | 0 <= i < |s|
      ensures !IsUpper(s[i]) && (i > |hrp| ==> s[i] != 49)
    {
      if i > |hrp| {
        assert s[i] == Chars(symbols)[i - |hrp| - 1];
      }
    }
    assert s[|hrp|] == 49;
  }

  lemma ShapeOfBechString(hrp: seq<int>, symbols: seq<int>)
    requires forall i :: 0 <= i < |hrp| ==> Printable(hrp[i]) && !IsUpper(hrp[i])
    requires AllSymbols(symbols) && 1 <= |hrp| <= MAX_HRP_LEN && |symbols| >= 6
    ensures WellFormed(hrp + [49] + Chars(symbols))
  {
    hide HasUpper, HasLower;
    var s := hrp + [49] + Chars(symbols);
    NoUpperInBechString(hrp, symbols);
    forall i | |hrp| < i < |s|
      ensures Symbol(s[i]) != -1
    {
      assert s[i] == Chars(symbols)[i - |hrp| - 1];
      assert Symbol(s[i]) == Values(Chars(symbols))[i - |hrp| - 1];
    }
  }

  /** Decoding undoes encoding, for both encodings and exactly the non-empty human-readable parts (BIP-173, BIP-350). */
  lemma DecodingUndoesEncoding(hrp: seq<int>, data: seq<int>, enc: Encoding)
    requires Encodable(hrp, data) && enc != None
    ensures Decoding(BechString(hrp, data, enc)) == Valid(hrp, data, enc) <==> hrp != []
  {
    hide P.Step, P.Xor, P.Word, P.DigitOf, P.TheCode, Fold, Expanded, Chars, Values, HasUpper, HasLower;
    var sum := ChecksumOf(hrp, data, enc);
    ChecksumCloses(hrp, data, enc);
    var symbols := data + sum;
    CharsConcat(data, sum);
    assert BechString(hrp, data, enc) == hrp + [49] + Chars(symbols);
    NoUpperInBechString(hrp, symbols);
    if hrp != [] {
      ShapeOfBechString(hrp, symbols);
      assert symbols[..|symbols| - 6] == data;
      DistinctConstants();
    }
  }

  lemma DistinctConstants()
    ensures FinalConstant(Bech32) != FinalConstant(Bech32m)
  {
  }

  /** No other symbols close the checksum. */
  lemma ChecksumIs(hrp: seq<int>, data: seq<int>, sum: seq<int>, enc: Encoding)
    requires (forall i :: 0 <= i < |hrp| ==> Printable(hrp[i])) && AllSymbols(data) && AllSymbols(sum) && |sum| == 6
    requires StateAfter(hrp, data + sum) == FinalConstant(enc)
    ensures sum == ChecksumOf(hrp, data, enc)
  {
    hide P.Step, P.Xor, P.Word, P.DigitOf;
    StateIn(hrp, data);
    P.IsACode(P.OfBech32);
    FoldConcat(P.TheCode(P.OfBech32), 1, Expanded(hrp) + data, sum);
    assert Expanded(hrp) + (data + sum) == (Expanded(hrp) + data) + sum;
    P.DigitsOfFold(P.OfBech32, sum);
    ClosingUnique(P.TheCode(P.OfBech32), StateAfter(hrp, data), FinalConstant(enc), sum);
  }

  /** Accepted strings are canonical: in lower case they are the encoding of what they decode to. */
  lemma EncodingUndoesDecoding(input: seq<int>)
    requires Decoding(input).Valid?
    ensures var d := Decoding(input);
            Lowered(input) == BechString(d.hrp, d.data, d.enc)
  {
    hide StateAfter, ChecksumOf, Chars, Values, HasUpper, HasLower, Symbol;
    var d, sep := Decoding(input), LastIndex(input, 49);
    var symbols := Values(input[sep + 1..]);
    var sum := symbols[|symbols| - 6..];
    TailSymbols(input, sep);
    TailCharacters(input, sep);
    LoweredParts(input, sep);
    LoweredPrintable(input[..sep]);
    assert symbols == d.data + sum;
    ChecksumIs(d.hrp, d.data, sum, d.enc);
    CharsConcat(d.data, sum);
  }

  /** What is accepted has a part of 1 to 83 characters, a separator, and six symbols behind the data. */
  lemma AcceptedShape(input: seq<int>)
    requires Decoding(input).Valid?
    ensures var d := Decoding(input);
            1 <= |d.hrp| <= 83 && |input| == |d.hrp| + 1 + |d.data| + 6 >= 8 && input[|d.hrp|] == 49
  {
    hide StateAfter, HasUpper, HasLower, Symbol;
  }

  /** The encoder accepts an empty human-readable part, the decoder does not. */
  lemma EmptyPartFails()
    ensures Encodable([], []) && Decoding(BechString([], [], Bech32)) != Valid([], [], Bech32)
  {
    DecodingUndoesEncoding([], [], Bech32);
  }

  /** Changing one symbol changes the state. */
  lemma OneSymbolChangesState(hrp: seq<int>, vs: seq<int>, k: nat, d: int)
    requires (forall i :: 0 <= i < |hrp| ==> Printable(hrp[i])) && InBase(vs, 32) && k < |vs| && IsSymbol(d)
      && d != vs[k]
    ensures StateAfter(hrp, vs[k := d]) != StateAfter(hrp, vs)
  {
    hide P.Step, P.Xor, P.Word, P.DigitOf, Expanded;
    StateIn(hrp, vs);
    P.IsACode(P.OfBech32);
    var all := Expanded(hrp) + vs;
    assert all[|Expanded(hrp)| + k := d] == Expanded(hrp) + vs[k := d];
    OneSymbolDetected(P.TheCode(P.OfBech32), 1, all, |Expanded(hrp)| + k, d);
  }

  /** Changing one character after the separator to one of another value is always noticed. */
  lemma OneCharacterNoticed(input: seq<int>, i: nat, c: int)
    requires Decoding(input).Valid? && LastIndex(input, 49) < i < |input|
    requires c != 49 && Symbol(c) != Symbol(input[i])
    ensures Decoding(input[i := c]) == Invalid || Decoding(input[i := c]).enc != Decoding(input).enc
  {
    hide StateAfter, HasUpper, HasLower, Symbol;
    var changed, sep := input[i := c], LastIndex(input, 49);
    LastIndexOf(changed, 49, sep);
    if WellFormed(changed) {
      TailSymbols(input, sep);
      TailUpdate(input, sep, i, c);
      SymbolRange(c);
      assert changed[i] == c;
      LoweredPrintable(input[..sep]);
      OneSymbolChangesState(Lowered(input[..sep]), Values(input[sep + 1..]), i - sep - 1, Symbol(c));
    }
  }

  // ---------- Segwit addresses ----------

  ghost predicate IsProgram(version: int, program: seq<int>)
  {
    && 0 <= version <= 16 && 2 <= |program| <= 40 && (version == 0 ==> |program| == 20 || |program| == 32)
    && InBase(program, 256)
  }

  function EncodingFor(version: int): Encoding { if version > 0 then Bech32m else Bech32 }

  /** The address of a witness program (segwit_addr_encode). */
  method SegwitEncode(hrp: seq<int>, version: int, program: seq<int>) returns (ok: bool, output: seq<int>,
    ghost symbols: seq<int>)
    requires InBase(program, 256)
    ensures ok ==> (exists pad :: Padded(program, 8, symbols, 5, pad)) && Encodable(hrp, [version % 256] + symbols)
    ensures ok ==> output == BechString(hrp, [version % 256] + symbols, EncodingFor(version))
    ensures version >= 0 ==> (ok ==> IsProgram(version, program))
    ensures IsProgram(version, program) ==>
      (ok <==> |hrp| + 8 + (8 * |program| + 4) / 5 <= 90
               && forall i :: 0 <= i < |hrp| ==> Printable(hrp[i]) && !IsUpper(hrp[i]))
    ensures version >= 0 && ok ==>
      version <= 16 && 2 <= |program| <= 40 && (version == 0 ==> |program| == 20 || |program| == 32)
    ensures hrp != [] && version >= 0 && ok ==>
      && Decoding(output).Valid? && Decoding(output).hrp == hrp && Decoding(output).data == [version] + symbols
      && Decoding(output).enc == if version == 0 then Bech32 else Bech32m
  {
    hide BechString, Padded, Num, Encodable, InBase, Printable, IsUpper, Decoding;
    ok, output, symbols := false, [], [];
    if version > 16 {
      return;
    }
    if version == 0 && |program| != 20 && |program| != 32 {
      return;
    }
    if |program| < 2 || |program| > 40 {
      return;
    }
    var enc := if version > 0 then Bech32m else Bech32;
    Bytes();
    var converted, data;
    ghost var bits, rest;
    converted, data, bits, rest := ConvertBits(program, 8, 5, true);
    symbols := data;
    BackToBytes(program, symbols, bits);
    PaddedSymbols(program, data, bits);
    EncodableData(hrp, version % 256, data);
    ok, output := Encode(hrp, [version % 256] + data, enc);
    if ok && version >= 0 && hrp != [] {
      DecodingUndoesEncoding(hrp, [version] + data, enc);
    }
  }

  lemma EncodableData(hrp: seq<int>, first: int, rest: seq<int>)
    requires first >= 0 && InBase(rest, 32)
    ensures forall i :: 0 <= i < |[first] + rest| ==> ([first] + rest)[i] >= 0
    ensures Encodable(hrp, [first] + rest) <==>
      && first < 32 && |hrp| + 8 + |rest| <= 90
      && forall i :: 0 <= i < |hrp| ==> Printable(hrp[i]) && !IsUpper(hrp[i])
  {
    var data := [first] + rest;
    assert data[0] == first && forall i :: 0 <= i < |rest| ==> data[i + 1] == rest[i];
    assert forall i :: 0 < i < |data| ==> data[i] == rest[i - 1];
  }

  /** The version and program of an address (segwit_addr_decode). */
  method SegwitDecode(hrp: seq<int>, address: seq<int>) returns (ok: bool, version: int, program: seq<int>)
    ensures ok ==> |address| <= 90 && IsProgram(version, program)
    ensures ok ==>
      && 0 <= version <= 16 && 2 <= |program| <= 40 && (version == 0 ==> |program| == 20 || |program| == 32)
      && Decoding(address).Valid? && Decoding(address).hrp == hrp
      && Decoding(address).enc == if version == 0 then Bech32 else Bech32m
    ensures ok ==> exists data, bits ::
      && Decoding(address) == Valid(hrp, data, EncodingFor(version)) && |data| <= 65
      && data != [] && data[0] == version && Regrouped(data[1..], 5, program, 8, bits, 0) && bits < 5
    ensures forall data, back, bits, rest ::
      && Regrouping(address, hrp, data, back, bits, rest) && IsProgram(data[0], back) && rest == 0 && bits < 5 ==>
        ok && version == data[0] && program == back
  {
    ok, version, program := false, 0, [];
    if |address| > 90 {
      return;
    }
    var enc, actual, data := Decode(address);
    if enc == None {
      return;
    }
    if |data| == 0 || |data| > 65 {
      return;
    }
    if hrp != actual {
      return;
    }
    if data[0] > 16 {
      return;
    }
    if data[0] == 0 && enc != Bech32 {
      return;
    }
    if data[0] > 0 && enc != Bech32m {
      return;
    }
    DecodedSymbols(address);
    Bytes();
    ghost var bits, rest;
    var converted, back;
    converted, back, bits, rest := ConvertBits(data[1..], 5, 8, false);
    AnyRegrouping(data[1..], back, bits, rest);
    if !converted {
      return;
    }
    if |back| < 2 || |back| > 40 {
      return;
    }
    if data[0] == 0 && |back| != 20 && |back| != 32 {
      return;
    }
    ok, version, program := true, data[0], back;
  }

  /** `back` is what the symbols of an address regroup to, whatever is left over. */
  ghost predicate Regrouping(address: seq<int>, hrp: seq<int>, data: seq<int>, back: seq<int>, bits: int, rest: int)
  {
    && |address| <= 90 && data != [] && |data| <= 65 && Decoding(address) == Valid(hrp, data, EncodingFor(data[0]))
    && 0 <= bits < 8 && Regrouped(data[1..], 5, back, 8, bits, rest)
  }

  lemma DecodedSymbols(address: seq<int>)
    requires Decoding(address).Valid?
    ensures AllSymbols(Decoding(address).data)
  {
    hide StateAfter, HasUpper, HasLower, Symbol;
    TailSymbols(address, LastIndex(address, 49));
  }

  /** Decoding an address gives back the version and program it was made from. */
  method EncodeThenDecode(hrp: seq<int>, version: int, program: seq<int>)
    returns (encoded: bool, address: seq<int>, decoded: bool, version': int, program': seq<int>)
    requires hrp != [] && IsProgram(version, program)
    ensures encoded ==> decoded && version' == version && program' == program
  {
    hide Decoding, BechString, Regrouped, Encodable, Num;
    decoded, version', program' := false, 0, [];
    ghost var symbols;
    encoded, address, symbols := SegwitEncode(hrp, version, program);
    if encoded {
      Bytes();
      ghost var pad :| Padded(program, 8, symbols, 5, pad);
      ghost var data := [version] + symbols;
      DecodingUndoesEncoding(hrp, data, EncodingFor(version));
      assert data[1..] == symbols;
      BackToBytes(program, symbols, pad);
      LengthOfAddress(hrp, data, EncodingFor(version));
      LengthFits(hrp, data);
      assert Regrouping(address, hrp, data, program, pad, 0);
      decoded, version', program' := SegwitDecode(hrp, address);
    }
  }

  lemma LengthFits(hrp: seq<int>, data: seq<int>)
    requires Encodable(hrp, data)
    ensures |hrp| + 7 + |data| <= 90
  {
  }

  lemma LengthOfAddress(hrp: seq<int>, data: seq<int>, enc: Encoding)
    ensures |BechString(hrp, data, enc)| == |hrp| + 7 + |data|
  {
  }
}

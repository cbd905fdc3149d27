/** Known answers: short addresses of BIP-173, BIP-350 and the CashAddr specification, and what they decode to. */
module KnownAddresses {
  import opened Symbols
  import opened Checksum
  import P = Polymod
  import Segwit
  import CashAddr

  lemma FoldStep(k: P.Kind, vs: seq<int>, i: nat, s: bv64, v: int, t: bv64)
    requires i < |vs| && vs[i] == v && Fold(P.TheCode(k), 1, vs[..i]) == s && P.Xor(P.Step(k, s), P.Word(v)) == t
    ensures Fold(P.TheCode(k), 1, vs[..i + 1]) == t
  {
    hide P.Xor, P.Step, P.Word;
    assert vs[..i + 1][..i] == vs[..i];
  }

  lemma FoldStart(k: P.Kind, vs: seq<int>)
    ensures Fold(P.TheCode(k), 1, vs[..0]) == 1
  {
  }

  /** An input of one lower-case letter, a separator, and the characters of some symbols. */
  lemma OneLetter(input: seq<int>, separator: int, symbols: seq<int>)
    requires |input| == |symbols| + 2 && IsLower(input[0]) && input[1] == separator
    requires forall i :: 0 <= i < |symbols| ==> 0 <= symbols[i] < 32 && input[i + 2] == Char(symbols[i])
    requires separator == 49 || separator == 58
    ensures LastIndex(input, separator) == 1 && Lowered(input[..1]) == input[..1] && Values(input[2..]) == symbols
    ensures !HasUpper(input) && Printable(input[0])
    ensures forall i :: 1 < i < |input| ==> Symbol(input[i]) != -1 && input[i] != separator
  {
    hide Char, Symbol;
    forall i | 1 < i < |input|
      ensures Symbol(input[i]) == symbols[i - 2] && input[i] != separator && !IsUpper(input[i])
    {
      CharacterTable(symbols[i - 2]);
      assert input[i] == Char(symbols[i - 2]);
    }
    LastIndexOf(input, separator, 1);
    assert input[..1] == [input[0]];
  }

  lemma Bech32After3(vs: seq<int>)
    requires vs == [3, 0, 1, 10, 28, 25, 31, 20, 31]
    ensures Fold(P.TheCode(P.OfBech32), 1, vs[..3]) == 0x8c01
  {
    hide P.TheCode, Fold;
    FoldStart(P.OfBech32, vs);
    FoldStep(P.OfBech32, vs, 0, 0x1, 3, 0x23);
    FoldStep(P.OfBech32, vs, 1, 0x23, 0, 0x460);
    FoldStep(P.OfBech32, vs, 2, 0x460, 1, 0x8c01);
  }

  lemma Bech32After6(vs: seq<int>)
    requires vs == [3, 0, 1, 10, 28, 25, 31, 20, 31]
    ensures Fold(P.TheCode(P.OfBech32), 1, vs[..6]) == 0x3d6a_fc2b
  {
    hide P.TheCode, Fold;
    Bech32After3(vs);
    FoldStep(P.OfBech32, vs, 3, 0x8c01, 10, 0x11_802a);
    FoldStep(P.OfBech32, vs, 4, 0x11_802a, 28, 0x230_055c);
    FoldStep(P.OfBech32, vs, 5, 0x230_055c, 25, 0x3d6a_fc2b);
  }

  lemma Bech32After7(vs: seq<int>)
    requires vs == [3, 0, 1, 10, 28, 25, 31, 20, 31]
    ensures Fold(P.TheCode(P.OfBech32), 1, vs[..7]) == 0x2f8_4386
  {
    hide P.TheCode, Fold;
    Bech32After6(vs);
    FoldStep(P.OfBech32, vs, 6, 0x3d6a_fc2b, 31, 0x2f8_4386);
  }

  lemma Bech32After8(vs: seq<int>)
    requires vs == [3, 0, 1, 10, 28, 25, 31, 20, 31]
    ensures Fold(P.TheCode(P.OfBech32), 1, vs[..8]) == 0x2462_2766
  {
    hide P.TheCode, Fold;
    Bech32After7(vs);
    FoldStep(P.OfBech32, vs, 7, 0x2f8_4386, 20, 0x2462_2766);
  }

  lemma Bech32After9(vs: seq<int>)
    requires vs == [3, 0, 1, 10, 28, 25, 31, 20, 31]
    ensures Fold(P.TheCode(P.OfBech32), 1, vs[..9]) == 0x1
  {
    hide P.TheCode, Fold;
    Bech32After8(vs);
    FoldStep(P.OfBech32, vs, 8, 0x2462_2766, 31, 0x1);
  }

  lemma Bech32State(vs: seq<int>)
    requires vs == [3, 0, 1, 10, 28, 25, 31, 20, 31]
    ensures Fold(P.TheCode(P.OfBech32), 1, vs) == 0x1
  {
    hide P.TheCode, Fold;
    Bech32After9(vs);
    assert vs[..9] == vs;
  }

  lemma Bech32mAfter3(vs: seq<int>)
    requires vs == [3, 0, 1, 31, 0, 9, 19, 17, 29]
    ensures Fold(P.TheCode(P.OfBech32), 1, vs[..3]) == 0x8c01
  {
    hide P.TheCode, Fold;
    FoldStart(P.OfBech32, vs);
    FoldStep(P.OfBech32, vs, 0, 0x1, 3, 0x23);
    FoldStep(P.OfBech32, vs, 1, 0x23, 0, 0x460);
    FoldStep(P.OfBech32, vs, 2, 0x460, 1, 0x8c01);
  }

  lemma Bech32mAfter6(vs: seq<int>)
    requires vs == [3, 0, 1, 31, 0, 9, 19, 17, 29]
    ensures Fold(P.TheCode(P.OfBech32), 1, vs[..6]) == 0x3d6a_abbb
  {
    hide P.TheCode, Fold;
    Bech32mAfter3(vs);
    FoldStep(P.OfBech32, vs, 3, 0x8c01, 31, 0x11_803f);
    FoldStep(P.OfBech32, vs, 4, 0x11_803f, 0, 0x230_07e0);
    FoldStep(P.OfBech32, vs, 5, 0x230_07e0, 9, 0x3d6a_abbb);
  }

  lemma Bech32mAfter7(vs: seq<int>)
    requires vs == [3, 0, 1, 31, 0, 9, 19, 17, 29]
    ensures Fold(P.TheCode(P.OfBech32), 1, vs[..7]) == 0x2f2_b18a
  {
    hide P.TheCode, Fold;
    Bech32mAfter6(vs);
    FoldStep(P.OfBech32, vs, 6, 0x3d6a_abbb, 19, 0x2f2_b18a);
  }

  lemma Bech32mAfter8(vs: seq<int>)
    requires vs == [3, 0, 1, 31, 0, 9, 19, 17, 29]
    ensures Fold(P.TheCode(P.OfBech32), 1, vs[..8]) == 0x253c_66e3
  {
    hide P.TheCode, Fold;
    Bech32mAfter7(vs);
    FoldStep(P.OfBech32, vs, 7, 0x2f2_b18a, 17, 0x253c_66e3);
  }

  lemma Bech32mAfter9(vs: seq<int>)
    requires vs == [3, 0, 1, 31, 0, 9, 19, 17, 29]
    ensures Fold(P.TheCode(P.OfBech32), 1, vs[..9]) == 0x2bc8_30a3
  {
    hide P.TheCode, Fold;
    Bech32mAfter8(vs);
    FoldStep(P.OfBech32, vs, 8, 0x253c_66e3, 29, 0x2bc8_30a3);
  }

  lemma Bech32mState(vs: seq<int>)
    requires vs == [3, 0, 1, 31, 0, 9, 19, 17, 29]
    ensures Fold(P.TheCode(P.OfBech32), 1, vs) == 0x2bc8_30a3
  {
    hide P.TheCode, Fold;
    Bech32mAfter9(vs);
    assert vs[..9] == vs;
  }

  lemma CashAfter3(vs: seq<int>)
    requires vs == [16, 0, 8, 1, 9, 7, 27, 21, 23, 30]
    ensures Fold(P.TheCode(P.OfCashAddr), 1, vs[..3]) == 0xc008
  {
    hide P.TheCode, Fold;
    FoldStart(P.OfCashAddr, vs);
    FoldStep(P.OfCashAddr, vs, 0, 0x1, 16, 0x30);
    FoldStep(P.OfCashAddr, vs, 1, 0x30, 0, 0x600);
    FoldStep(P.OfCashAddr, vs, 2, 0x600, 8, 0xc008);
  }

  lemma CashAfter6(vs: seq<int>)
    requires vs == [16, 0, 8, 1, 9, 7, 27, 21, 23, 30]
    ensures Fold(P.TheCode(P.OfCashAddr), 1, vs[..6]) == 0x6004_0527
  {
    hide P.TheCode, Fold;
    CashAfter3(vs);
    FoldStep(P.OfCashAddr, vs, 3, 0xc008, 1, 0x18_0101);
    FoldStep(P.OfCashAddr, vs, 4, 0x18_0101, 9, 0x300_2029);
    FoldStep(P.OfCashAddr, vs, 5, 0x300_2029, 7, 0x6004_0527);
  }

  lemma CashAfter7(vs: seq<int>)
    requires vs == [16, 0, 8, 1, 9, 7, 27, 21, 23, 30]
    ensures Fold(P.TheCode(P.OfCashAddr), 1, vs[..7]) == 0xc_0080_a4fb
  {
    hide P.TheCode, Fold;
    CashAfter6(vs);
    FoldStep(P.OfCashAddr, vs, 6, 0x6004_0527, 27, 0xc_0080_a4fb);
  }

  lemma CashAfter8(vs: seq<int>)
    requires vs == [16, 0, 8, 1, 9, 7, 27, 21, 23, 30]
    ensures Fold(P.TheCode(P.OfCashAddr), 1, vs[..8]) == 0x18_e2a8_1114
  {
    hide P.TheCode, Fold;
    CashAfter7(vs);
    FoldStep(P.OfCashAddr, vs, 7, 0xc_0080_a4fb, 21, 0x18_e2a8_1114);
  }

  lemma CashAfter9(vs: seq<int>)
    requires vs == [16, 0, 8, 1, 9, 7, 27, 21, 23, 30]
    ensures Fold(P.TheCode(P.OfCashAddr), 1, vs[..9]) == 0xfd_10d3_3514
  {
    hide P.TheCode, Fold;
    CashAfter8(vs);
    FoldStep(P.OfCashAddr, vs, 8, 0x18_e2a8_1114, 23, 0xfd_10d3_3514);
  }

  lemma CashAfter10(vs: seq<int>)
    requires vs == [16, 0, 8, 1, 9, 7, 27, 21, 23, 30]
    ensures Fold(P.TheCode(P.OfCashAddr), 1, vs[..10]) == 0x1
  {
    hide P.TheCode, Fold;
    CashAfter9(vs);
    FoldStep(P.OfCashAddr, vs, 9, 0xfd_10d3_3514, 30, 0x1);
  }

  lemma CashState(vs: seq<int>)
    requires vs == [16, 0, 8, 1, 9, 7, 27, 21, 23, 30]
    ensures Fold(P.TheCode(P.OfCashAddr), 1, vs) == 0x1
  {
    hide P.TheCode, Fold;
    CashAfter10(vs);
    assert vs[..10] == vs;
  }

  /** a12uel5l (BIP-173): no data under Bech32. */
  lemma KnownBech32()
    ensures Segwit.Decoding([97, 49, 50, 117, 101, 108, 53, 108]) == Segwit.Valid([97], [], Segwit.Bech32)
  {
    hide P.TheCode, Fold, Lowered, Values, LastIndex, Symbol, HasUpper, HasLower, Char;
    var input, symbols := [97, 49, 50, 117, 101, 108, 53, 108], [10, 28, 25, 31, 20, 31];
    Bech32Characters(input, symbols);
    OneLetter(input, 49, symbols);
    ExpandedLetter();
    assert Segwit.Expanded([97]) + symbols == [3, 0, 1, 10, 28, 25, 31, 20, 31];
    Bech32State(Segwit.Expanded([97]) + symbols);
    assert input[..1] == [97] && symbols[..0] == [];
  }

  lemma Bech32Characters(input: seq<int>, symbols: seq<int>)
    requires input == [97, 49, 50, 117, 101, 108, 53, 108] && symbols == [10, 28, 25, 31, 20, 31]
    ensures forall i :: 0 <= i < |symbols| ==> input[i + 2] == Char(symbols[i])
  {
  }

  /** a1lqfn3a (BIP-350): no data under Bech32m. */
  lemma KnownBech32m()
    ensures Segwit.Decoding([97, 49, 108, 113, 102, 110, 51, 97]) == Segwit.Valid([97], [], Segwit.Bech32m)
  {
    hide P.TheCode, Fold, Lowered, Values, LastIndex, Symbol, HasUpper, HasLower, Char;
    var input, symbols := [97, 49, 108, 113, 102, 110, 51, 97], [31, 0, 9, 19, 17, 29];
    Bech32mCharacters(input, symbols);
    OneLetter(input, 49, symbols);
    ExpandedLetter();
    assert Segwit.Expanded([97]) + symbols == [3, 0, 1, 31, 0, 9, 19, 17, 29];
    Bech32mState(Segwit.Expanded([97]) + symbols);
    assert input[..1] == [97] && symbols[..0] == [];
  }

  lemma Bech32mCharacters(input: seq<int>, symbols: seq<int>)
    requires input == [97, 49, 108, 113, 102, 110, 51, 97] && symbols == [31, 0, 9, 19, 17, 29]
    ensures forall i :: 0 <= i < |symbols| ==> input[i + 2] == Char(symbols[i])
  {
  }

  lemma ExpandedLetter()
    ensures Segwit.Expanded([97]) == [3, 0, 1]
  {
    assert Segwit.HighBits([97]) == [3] && LowBits([97]) == [1];
  }

  /** p:gpf8m4h7 (the CashAddr specification): no data under the prefix p. */
  lemma KnownCashAddr()
    ensures CashAddr.Decoding([112, 58, 103, 112, 102, 56, 109, 52, 104, 55]) == CashAddr.Valid([112], [])
  {
    hide P.TheCode, Fold, Lowered, Values, LastIndex, Symbol, HasUpper, HasLower, Char;
    var input, symbols := [112, 58, 103, 112, 102, 56, 109, 52, 104, 55], [8, 1, 9, 7, 27, 21, 23, 30];
    CashCharacters(input, symbols);
    OneLetter(input, 58, symbols);
    assert LowBits([112]) == [16];
    assert CashAddr.Expanded([112]) + symbols == [16, 0, 8, 1, 9, 7, 27, 21, 23, 30];
    CashState(CashAddr.Expanded([112]) + symbols);
    assert input[..1] == [112] && symbols[..0] == [];
  }

  lemma CashCharacters(input: seq<int>, symbols: seq<int>)
    requires input == [112, 58, 103, 112, 102, 56, 109, 52, 104, 55] && symbols == [8, 1, 9, 7, 27, 21, 23, 30]
    ensures forall i :: 0 <= i < |symbols| ==> input[i + 2] == Char(symbols[i])
  {
  }
}

/**
 * What the checksum steps of Bech32 and CashAddr compute: the product with x modulo a polynomial over the field of 32
 * elements (BIP-173, and the CashAddr specification). The field is that of a root a of x^5 + x^3 + 1.
 */
module PolymodField {
  import opened Polymod

  /** The product with a: bits move up, and a^5 is a^3 + 1. */
  function TimesA(w: bv64): bv64 { ((w & 15) << 1) ^ (if w & 16 != 0 then 9 else 0) }

  /** The product in the field: b selects among g, g a, g a^2, g a^3 and g a^4. */
  function Times(b: bv64, g: bv64): bv64
  {
    Chosen(b, g, TimesA(g), TimesA(TimesA(g)), TimesA(TimesA(TimesA(g))), TimesA(TimesA(TimesA(TimesA(g)))))
  }

  /**
   * The coefficients below the leading one: x^6 + 29 x^5 + 22 x^4 + 20 x^3 + 21 x^2 + 29 x + 18 for Bech32, and
   * x^8 + 19 x^7 + 3 x^6 + 25 x^5 + 11 x^4 + 25 x^3 + 3 x^2 + 19 x + 1 for CashAddr.
   */
  function Coefficient(k: Kind, n: nat): bv64
    requires n < Size(k)
  {
    if k.OfBech32? then [18, 29, 21, 20, 22, 29][n] else [1, 19, 3, 25, 11, 25, 3, 19][n]
  }

  /** Symbol n of a word, the lowest first. */
  function SymbolAt(w: bv64, n: nat): bv64 { Low(DownBy(w, n)) }

  lemma DownAdds(x: bv64, y: bv64)
    ensures Down(Xor(x, y)) == Xor(Down(x), Down(y))
  {
  }

  lemma {:induction false} DownByAdds(x: bv64, y: bv64, n: nat)
    ensures DownBy(Xor(x, y), n) == Xor(DownBy(x, n), DownBy(y, n))
  {
    hide Down, Xor;
    if n > 0 {
      DownByAdds(x, y, n - 1);
      DownAdds(DownBy(x, n - 1), DownBy(y, n - 1));
    }
  }

  lemma SymbolAdds(x: bv64, y: bv64, n: nat)
    ensures SymbolAt(Xor(x, y), n) == Xor(SymbolAt(x, n), SymbolAt(y, n))
  {
    hide Xor, Low, DownBy;
    DownByAdds(x, y, n);
    LowAdds(DownBy(x, n), DownBy(y, n));
  }

  lemma {:induction false} NoSymbols(n: nat)
    ensures DownBy(0, n) == 0 && SymbolAt(0, n) == 0
  {
    hide Down;
    if n > 0 {
      NoSymbols(n - 1);
      DownZero();
    }
  }

  lemma SymbolOfMasked(b: bv64, g: bv64, n: nat)
    ensures SymbolAt(Masked(b, g), n) == Masked(b, SymbolAt(g, n))
  {
    hide Masked, Odd, SymbolAt;
    MaskedIs(b, g);
    MaskedIs(b, SymbolAt(g, n));
    NoSymbols(n);
  }

  lemma SymbolOfChosen(b: bv64, g0: bv64, g1: bv64, g2: bv64, g3: bv64, g4: bv64, n: nat)
    ensures SymbolAt(Chosen(b, g0, g1, g2, g3, g4), n)
         == Chosen(b, SymbolAt(g0, n), SymbolAt(g1, n), SymbolAt(g2, n), SymbolAt(g3, n), SymbolAt(g4, n))
  {
    hide Masked, Xor, Shr1, Shr2, Shr3, Shr4, SymbolAt;
    var m0, m1, m2, m3, m4 := Masked(b, g0), Masked(Shr1(b), g1), Masked(Shr2(b), g2), Masked(Shr3(b), g3),
                              Masked(Shr4(b), g4);
    SymbolAdds(m0, m1, n);
    SymbolAdds(Xor(m0, m1), m2, n);
    SymbolAdds(Xor(Xor(m0, m1), m2), m3, n);
    SymbolAdds(Xor(Xor(Xor(m0, m1), m2), m3), m4, n);
    SymbolOfMasked(b, g0, n);
    SymbolOfMasked(Shr1(b), g1, n);
    SymbolOfMasked(Shr2(b), g2, n);
    SymbolOfMasked(Shr3(b), g3, n);
    SymbolOfMasked(Shr4(b), g4, n);
  }

  // ---------- The five constants ----------

  lemma DownIsShift(w: bv64)
    ensures DownBy(w, 0) == w && DownBy(w, 1) == w >> 5 && DownBy(w, 2) == w >> 10 && DownBy(w, 3) == w >> 15
    ensures DownBy(w, 4) == w >> 20 && DownBy(w, 5) == w >> 25 && DownBy(w, 6) == w >> 30 && DownBy(w, 7) == w >> 35
  {
    assert (w >> 5) >> 5 == w >> 10 && (w >> 10) >> 5 == w >> 15 && (w >> 15) >> 5 == w >> 20;
    assert (w >> 20) >> 5 == w >> 25 && (w >> 25) >> 5 == w >> 30 && (w >> 30) >> 5 == w >> 35;
    assert DownBy(w, 1) == w >> 5;
    assert DownBy(w, 2) == w >> 10;
    assert DownBy(w, 3) == w >> 15;
    assert DownBy(w, 4) == w >> 20;
    assert DownBy(w, 5) == w >> 25;
    assert DownBy(w, 6) == w >> 30;
  }

  /** The generators are the polynomial's coefficients times the powers of a, symbol by symbol. */
  lemma GeneratorSymbols(k: Kind, n: nat)
    requires n < Size(k)
    ensures SymbolAt(Generator(k, 0), n) == Coefficient(k, n)
    ensures SymbolAt(Generator(k, 1), n) == TimesA(SymbolAt(Generator(k, 0), n))
    ensures SymbolAt(Generator(k, 2), n) == TimesA(SymbolAt(Generator(k, 1), n))
    ensures SymbolAt(Generator(k, 3), n) == TimesA(SymbolAt(Generator(k, 2), n))
    ensures SymbolAt(Generator(k, 4), n) == TimesA(SymbolAt(Generator(k, 3), n))
  {
    DownIsShift(Generator(k, 0));
    DownIsShift(Generator(k, 1));
    DownIsShift(Generator(k, 2));
    DownIsShift(Generator(k, 3));
    DownIsShift(Generator(k, 4));
  }

  // ---------- The step ----------

  lemma NothingBelow(m: bv64)
    ensures Low(Up(m)) == 0
  {
  }

  lemma KeptIsShifted(k: Kind, x: bv64)
    ensures Down(Up(Keep(k, x))) == Keep(k, x)
  {
    hide Down, Up, Keep25, Keep35;
    DownUp25(x);
    DownUp35(x);
  }

  lemma ShiftedSymbols(k: Kind, x: bv64, n: nat)
    ensures SymbolAt(Shifted(k, x), n) == if n == 0 then 0 else SymbolAt(Keep(k, x), n - 1)
  {
    hide Down, Up, Low, Keep;
    if n == 0 {
      NothingBelow(Keep(k, x));
    } else {
      DownFirst(Up(Keep(k, x)), n - 1);
      KeptIsShifted(k, x);
    }
  }

  /**
   * One step multiplies the state by x: every symbol moves up one place, and the one that falls off, times the
   * coefficients of the polynomial, is added in the field.
   */
  lemma StepMultiplies(k: Kind, x: bv64, n: nat)
    requires n < Size(k)
    ensures SymbolAt(Step(k, x), n)
         == Xor(if n == 0 then 0 else SymbolAt(Keep(k, x), n - 1), Times(Top(k, x), Coefficient(k, n)))
  {
    hide Step, Shifted, Top, Keep, SymbolAt, Xor, Generator, TimesA, Chosen;
    StepIs(k, x);
    SymbolAdds(Shifted(k, x), Selected(k, Top(k, x)), n);
    ShiftedSymbols(k, x, n);
    SymbolOfChosen(Top(k, x), Generator(k, 0), Generator(k, 1), Generator(k, 2), Generator(k, 3), Generator(k, 4), n);
    GeneratorSymbols(k, n);
  }

  /** The symbol that falls off and the rest make up the state. */
  lemma TopAndRest(k: Kind, x: bv64)
    requires IsState(k, x)
    ensures Top(k, x) < 32 && x == Xor(Lift(k, Top(k, x)), Keep(k, x)) && SymbolAt(x, Size(k) - 1) == Top(k, x)
  {
    hide Xor, Lift, Keep;
    Parts(k, x);
    DownIsShift(x);
    TopIsLast(k, x);
  }

  lemma TopIsLast(k: Kind, x: bv64)
    requires IsState(k, x)
    ensures Low(if k.OfBech32? then x >> 25 else x >> 35) == Top(k, x)
  {
  }
}

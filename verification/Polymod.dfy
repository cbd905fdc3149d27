/**
 * The checksum steps of Bech32 (crypto/segwit_addr.c), with six symbols of state, and of CashAddr
 * (crypto/cash_addr.c), with eight. Both are taken on 64-bit words: no bit of a Bech32 state leaves its 30 bits.
 */
module Polymod {
  import opened Checksum

  datatype Kind = OfBech32 | OfCashAddr

  function Size(k: Kind): nat { if k.OfBech32? then 6 else 8 }

  /** States are below this number. */
  function Limit(k: Kind): bv64 { if k.OfBech32? then 0x4000_0000 else 0x100_0000_0000 }

  predicate IsState(k: Kind, x: bv64) { x < Limit(k) }

  predicate IsLower(k: Kind, m: bv64) { m < Lower(k) }

  predicate IsLast(b: bv64) { b < 32 }

  predicate EndsInZero(w: bv64) { Low(w) == 0 }

  /** States below this number have nothing in their first symbol. */
  function Lower(k: Kind): bv64 { if k.OfBech32? then 0x200_0000 else 0x8_0000_0000 }

  function Generator(k: Kind, i: int): bv64
  {
    if k.OfBech32? then
      if i == 0 then 0x3b6a_57b2 else if i == 1 then 0x2650_8e6d else if i == 2 then 0x1ea1_19fa
      else if i == 3 then 0x3d42_33dd else 0x2a14_62b3
    else
      if i == 0 then 0x98_f2bc_8e61 else if i == 1 then 0x79_b76d_99e2 else if i == 2 then 0xf3_3e5f_b3c4
      else if i == 3 then 0xae_2eab_e2a8 else 0x1e_4f43_e470
  }

  // The operations on words are functions, so that the algebra below does not look into them.
  function Xor(a: bv64, b: bv64): bv64 { a ^ b }

  function Masked(b: bv64, generator: bv64): bv64 { (0 - (b & 1)) & generator }

  function Shr25(b: bv64): bv64 { b >> 25 }

  function Shr35(b: bv64): bv64 { b >> 35 }

  function Shl25(b: bv64): bv64 { b << 25 }

  function Shl35(b: bv64): bv64 { b << 35 }

  function Keep25(b: bv64): bv64 { b & 0x1ff_ffff }

  function Keep35(b: bv64): bv64 { b & 0x7_ffff_ffff }

  function Top(k: Kind, pre: bv64): bv64 { if k.OfBech32? then Shr25(pre) else Shr35(pre) }

  function Keep(k: Kind, pre: bv64): bv64 { if k.OfBech32? then Keep25(pre) else Keep35(pre) }

  function Lift(k: Kind, b: bv64): bv64 { if k.OfBech32? then Shl25(b) else Shl35(b) }

  function Shr1(b: bv64): bv64 { b >> 1 }

  function Shr2(b: bv64): bv64 { b >> 2 }

  function Shr3(b: bv64): bv64 { b >> 3 }

  function Shr4(b: bv64): bv64 { b >> 4 }

  function Shifted(k: Kind, pre: bv64): bv64 { Up(Keep(k, pre)) }

  /** One step of the checksum (bech32_polymod_step, cashaddr_polymod_step). */
  function Step(k: Kind, pre: bv64): bv64
  {
    var b := Top(k, pre);
    var s0 := Xor(Shifted(k, pre), Masked(b, Generator(k, 0)));
    var s1 := Xor(s0, Masked(Shr1(b), Generator(k, 1)));
    var s2 := Xor(s1, Masked(Shr2(b), Generator(k, 2)));
    var s3 := Xor(s2, Masked(Shr3(b), Generator(k, 3)));
    Xor(s3, Masked(Shr4(b), Generator(k, 4)))
  }

  function Word(d: int): (w: bv64)
    ensures w < 32
  {
    Bit(d / 16 % 2, 16) | Bit(d / 8 % 2, 8) | Bit(d / 4 % 2, 4) | Bit(d / 2 % 2, 2) | Bit(d % 2, 1)
  }

  function Bit(b: int, w: bv64): bv64 { if b == 1 then w else 0 }

  function Number(w: bv64): int
  {
    (if w & 16 != 0 then 16 else 0) + (if w & 8 != 0 then 8 else 0) + (if w & 4 != 0 then 4 else 0)
      + (if w & 2 != 0 then 2 else 0) + (if w & 1 != 0 then 1 else 0)
  }

  /** Symbol i of a state, the highest first. */
  function DigitOf(k: Kind, x: bv64, i: int): int { Number(Low(Part(k, x, i))) }

  /** x >> (5 * (Size(k) - 1 - i)) */
  function Part(k: Kind, x: bv64, i: int): bv64
    decreases Size(k) - 1 - i
  {
    if i >= Size(k) - 1 then x else Down(Part(k, x, i + 1))
  }

  function Down(w: bv64): bv64 { w >> 5 }

  function Up(w: bv64): bv64 { w << 5 }

  function Low(w: bv64): bv64 { w & 31 }

  ghost function TheCode(k: Kind): Code<bv64>
  {
    Code(x => IsState(k, x), (x, y) => Xor(x, y), 0, x => Step(k, x), d => Word(d), (x, i) => DigitOf(k, x, i), Size(k))
  }

  /** An odd word selects the whole generator, an even one nothing of it. */
  lemma MaskedIs(b: bv64, g: bv64)
    ensures Masked(b, g) == if Odd(b) then g else 0
  {
    if Odd(b) {
      assert 0 - (b & 1) == 0xffff_ffff_ffff_ffff;
    } else {
      LowBit(b);
      assert 0 - (b & 1) == 0;
    }
  }

  lemma LowBit(b: bv64)
    ensures b & 1 == 0 || b & 1 == 1
  {
  }

  predicate Odd(b: bv64) { b & 1 == 1 }

  lemma OddAdds(x: bv64, y: bv64)
    ensures Odd(Xor(x, y)) == (Odd(x) != Odd(y))
  {
  }

  lemma MaskedAdds(x: bv64, y: bv64, g: bv64)
    ensures Masked(Xor(x, y), g) == Xor(Masked(x, g), Masked(y, g))
  {
    hide Masked, Odd, Xor;
    MaskedIs(x, g);
    MaskedIs(y, g);
    MaskedIs(Xor(x, y), g);
    OddAdds(x, y);
    XorUnits(g);
    XorUnits(0);
    XorCommutes(0, g);
  }

  lemma UpAdds(x: bv64, y: bv64)
    ensures Up(Xor(x, y)) == Xor(Up(x), Up(y))
  {
  }

  lemma Keep25Adds(x: bv64, y: bv64)
    ensures Keep25(Xor(x, y)) == Xor(Keep25(x), Keep25(y))
  {
  }

  lemma Keep35Adds(x: bv64, y: bv64)
    ensures Keep35(Xor(x, y)) == Xor(Keep35(x), Keep35(y))
  {
  }

  lemma Shr25Adds(x: bv64, y: bv64)
    ensures Shr25(Xor(x, y)) == Xor(Shr25(x), Shr25(y))
  {
  }

  lemma Shr35Adds(x: bv64, y: bv64)
    ensures Shr35(Xor(x, y)) == Xor(Shr35(x), Shr35(y))
  {
  }

  lemma ShiftedAdds(k: Kind, x: bv64, y: bv64)
    ensures Shifted(k, Xor(x, y)) == Xor(Shifted(k, x), Shifted(k, y))
  {
    hide Xor, Up, Keep25, Keep35;
    Keep25Adds(x, y);
    Keep35Adds(x, y);
    UpAdds(Keep(k, x), Keep(k, y));
  }

  lemma TopAdds(k: Kind, x: bv64, y: bv64)
    ensures Top(k, Xor(x, y)) == Xor(Top(k, x), Top(k, y))
  {
    hide Xor, Shr25, Shr35;
    Shr25Adds(x, y);
    Shr35Adds(x, y);
  }

  lemma Shr1Adds(x: bv64, y: bv64)
    ensures Shr1(Xor(x, y)) == Xor(Shr1(x), Shr1(y))
  {
  }

  lemma Shr2Adds(x: bv64, y: bv64)
    ensures Shr2(Xor(x, y)) == Xor(Shr2(x), Shr2(y))
  {
  }

  lemma Shr3Adds(x: bv64, y: bv64)
    ensures Shr3(Xor(x, y)) == Xor(Shr3(x), Shr3(y))
  {
  }

  lemma Shr4Adds(x: bv64, y: bv64)
    ensures Shr4(Xor(x, y)) == Xor(Shr4(x), Shr4(y))
  {
  }

  lemma XorCommutes(x: bv64, y: bv64)
    ensures Xor(x, y) == Xor(y, x)
  {
  }

  lemma XorAssociates(x: bv64, y: bv64, z: bv64)
    ensures Xor(Xor(x, y), z) == Xor(x, Xor(y, z))
  {
    assert (x ^ y) ^ z == x ^ (y ^ z);
  }

  lemma XorUnits(x: bv64)
    ensures Xor(x, 0) == x && Xor(x, x) == 0
  {
  }

  lemma Interchange(a: bv64, b: bv64, c: bv64, d: bv64)
    ensures Xor(Xor(a, b), Xor(c, d)) == Xor(Xor(a, c), Xor(b, d))
  {
    hide Xor;
    XorAssociates(a, b, Xor(c, d));
    XorAssociates(b, c, d);
    XorCommutes(b, c);
    XorAssociates(c, b, d);
    XorAssociates(a, c, Xor(b, d));
  }

  /** What the five lowest bits of b select among five words, added up. */
  function Chosen(b: bv64, g0: bv64, g1: bv64, g2: bv64, g3: bv64, g4: bv64): bv64
  {
    Xor(Xor(Xor(Xor(Masked(b, g0), Masked(Shr1(b), g1)), Masked(Shr2(b), g2)), Masked(Shr3(b), g3)),
        Masked(Shr4(b), g4))
  }

  /** The generators that a removed top symbol selects. */
  function Selected(k: Kind, b: bv64): bv64
  {
    Chosen(b, Generator(k, 0), Generator(k, 1), Generator(k, 2), Generator(k, 3), Generator(k, 4))
  }

  /** The top symbol that a step must have removed to leave y with these five low bits. */
  function Removed(k: Kind, y: bv64): bv64
  {
    if k == OfCashAddr then Low(y) else Chosen(y, 0x11, 0xb, 0x16, 0x5, 0xa)
  }

  /** The step undone: the top symbol found, its generators taken off, and everything shifted down. */
  function StepBack(k: Kind, y: bv64): bv64
  {
    var b := Removed(k, y);
    Xor(Lift(k, b), Down(Xor(y, Selected(k, b))))
  }

  lemma ChosenAdds(x: bv64, y: bv64, g0: bv64, g1: bv64, g2: bv64, g3: bv64, g4: bv64)
    ensures Chosen(Xor(x, y), g0, g1, g2, g3, g4) == Xor(Chosen(x, g0, g1, g2, g3, g4), Chosen(y, g0, g1, g2, g3, g4))
  {
    hide Xor, Masked, Shr1, Shr2, Shr3, Shr4;
    Shr1Adds(x, y);
    Shr2Adds(x, y);
    Shr3Adds(x, y);
    Shr4Adds(x, y);
    MaskedAdds(x, y, g0);
    MaskedAdds(Shr1(x), Shr1(y), g1);
    MaskedAdds(Shr2(x), Shr2(y), g2);
    MaskedAdds(Shr3(x), Shr3(y), g3);
    MaskedAdds(Shr4(x), Shr4(y), g4);
    var a0, a1, a2, a3 := Masked(x, g0), Masked(Shr1(x), g1), Masked(Shr2(x), g2), Masked(Shr3(x), g3);
    var b0, b1, b2, b3 := Masked(y, g0), Masked(Shr1(y), g1), Masked(Shr2(y), g2), Masked(Shr3(y), g3);
    Interchange(a0, b0, a1, b1);
    Interchange(Xor(a0, a1), Xor(b0, b1), a2, b2);
    Interchange(Xor(Xor(a0, a1), a2), Xor(Xor(b0, b1), b2), a3, b3);
    Interchange(Xor(Xor(Xor(a0, a1), a2), a3), Xor(Xor(Xor(b0, b1), b2), b3), Masked(Shr4(x), g4), Masked(Shr4(y), g4));
  }

  lemma StepIs(k: Kind, x: bv64)
    ensures Step(k, x) == Xor(Shifted(k, x), Selected(k, Top(k, x)))
  {
    hide Xor, Masked, Top, Shr1, Shr2, Shr3, Shr4, Shifted, Generator;
    var b, s := Top(k, x), Shifted(k, x);
    var m0, m1, m2 := Masked(b, Generator(k, 0)), Masked(Shr1(b), Generator(k, 1)), Masked(Shr2(b), Generator(k, 2));
    var m3, m4 := Masked(Shr3(b), Generator(k, 3)), Masked(Shr4(b), Generator(k, 4));
    XorAssociates(s, m0, m1);
    XorAssociates(s, Xor(m0, m1), m2);
    XorAssociates(s, Xor(Xor(m0, m1), m2), m3);
    XorAssociates(s, Xor(Xor(Xor(m0, m1), m2), m3), m4);
  }

  lemma StepAdds(k: Kind, x: bv64, y: bv64)
    ensures Step(k, Xor(x, y)) == Xor(Step(k, x), Step(k, y))
  {
    hide Xor, Top, Shifted, Step, Chosen, Generator;
    StepIs(k, x);
    StepIs(k, y);
    StepIs(k, Xor(x, y));
    TopAdds(k, x, y);
    ShiftedAdds(k, x, y);
    ChosenAdds(Top(k, x), Top(k, y),
               Generator(k, 0), Generator(k, 1), Generator(k, 2), Generator(k, 3), Generator(k, 4));
    Interchange(Shifted(k, x), Shifted(k, y), Selected(k, Top(k, x)), Selected(k, Top(k, y)));
  }

  lemma RemovedAdds(k: Kind, x: bv64, y: bv64)
    ensures Removed(k, Xor(x, y)) == Xor(Removed(k, x), Removed(k, y))
  {
    hide Xor, Chosen, Low;
    LowAdds(x, y);
    ChosenAdds(x, y, 0x11, 0xb, 0x16, 0x5, 0xa);
  }

  lemma LowAdds(x: bv64, y: bv64)
    ensures Low(Xor(x, y)) == Xor(Low(x), Low(y))
  {
  }

  lemma RemovedNothing(k: Kind, m: bv64)
    ensures Removed(k, Up(m)) == 0
  {
  }

  // Whatever adds up can be taken inside the selection.

  lemma ChosenNothing(g0: bv64, g1: bv64, g2: bv64, g3: bv64, g4: bv64)
    ensures Chosen(0, g0, g1, g2, g3, g4) == 0
  {
    hide Masked, Shr1, Shr2, Shr3, Shr4, Xor;
    ShrZero();
    MaskedZero(g0);
    MaskedZero(g1);
    MaskedZero(g2);
    MaskedZero(g3);
    MaskedZero(g4);
    XorUnits(0);
  }

  lemma ChosenOfMasked(b: bv64, g: bv64, h0: bv64, h1: bv64, h2: bv64, h3: bv64, h4: bv64)
    ensures Chosen(Masked(b, g), h0, h1, h2, h3, h4) == Masked(b, Chosen(g, h0, h1, h2, h3, h4))
  {
    hide Masked, Chosen, Odd;
    MaskedIs(b, g);
    MaskedIs(b, Chosen(g, h0, h1, h2, h3, h4));
    ChosenNothing(h0, h1, h2, h3, h4);
  }

  /** Choosing among words and then by the result is choosing among the chosen words. */
  lemma ChosenTwice(b: bv64, g0: bv64, g1: bv64, g2: bv64, g3: bv64, g4: bv64,
                    h0: bv64, h1: bv64, h2: bv64, h3: bv64, h4: bv64)
    ensures Chosen(Chosen(b, g0, g1, g2, g3, g4), h0, h1, h2, h3, h4)
         == Chosen(b, Chosen(g0, h0, h1, h2, h3, h4), Chosen(g1, h0, h1, h2, h3, h4), Chosen(g2, h0, h1, h2, h3, h4),
                   Chosen(g3, h0, h1, h2, h3, h4), Chosen(g4, h0, h1, h2, h3, h4))
  {
    var m0, m1, m2, m3, m4 := Masked(b, g0), Masked(Shr1(b), g1), Masked(Shr2(b), g2), Masked(Shr3(b), g3),
                              Masked(Shr4(b), g4);
    hide Masked, Xor, Shr1, Shr2, Shr3, Shr4;
    ChosenAdds(m0, m1, h0, h1, h2, h3, h4);
    ChosenAdds(Xor(m0, m1), m2, h0, h1, h2, h3, h4);
    ChosenAdds(Xor(Xor(m0, m1), m2), m3, h0, h1, h2, h3, h4);
    ChosenAdds(Xor(Xor(Xor(m0, m1), m2), m3), m4, h0, h1, h2, h3, h4);
    ChosenOfMasked(b, g0, h0, h1, h2, h3, h4);
    ChosenOfMasked(Shr1(b), g1, h0, h1, h2, h3, h4);
    ChosenOfMasked(Shr2(b), g2, h0, h1, h2, h3, h4);
    ChosenOfMasked(Shr3(b), g3, h0, h1, h2, h3, h4);
    ChosenOfMasked(Shr4(b), g4, h0, h1, h2, h3, h4);
  }

  /** The last symbol is chosen among its bits. */
  lemma LowIsChosen(y: bv64)
    ensures Low(y) == Chosen(y, 1, 2, 4, 8, 16)
  {
  }

  lemma LowOfLast(b: bv64)
    requires IsLast(b)
    ensures Low(b) == b
  {
  }

  lemma LowIsLast(w: bv64)
    ensures IsLast(Low(w))
  {
  }

  /** The last symbols of the generators of CashAddr are single bits. */
  lemma LastSymbols()
    ensures Low(Generator(OfCashAddr, 0)) == 1 && Low(Generator(OfCashAddr, 1)) == 2
    ensures Low(Generator(OfCashAddr, 2)) == 4 && Low(Generator(OfCashAddr, 3)) == 8
    ensures Low(Generator(OfCashAddr, 4)) == 16
  {
  }

  /** The words that find the removed symbol of Bech32 are dual to its generators. */
  lemma RemovedFromGenerators()
    ensures Removed(OfBech32, Generator(OfBech32, 0)) == 1 && Removed(OfBech32, Generator(OfBech32, 1)) == 2
    ensures Removed(OfBech32, Generator(OfBech32, 2)) == 4 && Removed(OfBech32, Generator(OfBech32, 3)) == 8
    ensures Removed(OfBech32, Generator(OfBech32, 4)) == 16
  {
  }

  lemma LowFromRemovers()
    ensures Low(Selected(OfBech32, 0x11)) == 1 && Low(Selected(OfBech32, 0xb)) == 2
    ensures Low(Selected(OfBech32, 0x16)) == 4 && Low(Selected(OfBech32, 0x5)) == 8
    ensures Low(Selected(OfBech32, 0xa)) == 16
  {
  }

  lemma LowOfChosen(y: bv64, s0: bv64, s1: bv64, s2: bv64, s3: bv64, s4: bv64)
    ensures Low(Chosen(y, s0, s1, s2, s3, s4)) == Chosen(y, Low(s0), Low(s1), Low(s2), Low(s3), Low(s4))
  {
    hide Chosen, Low;
    LowIsChosen(Chosen(y, s0, s1, s2, s3, s4));
    LowIsChosen(s0);
    LowIsChosen(s1);
    LowIsChosen(s2);
    LowIsChosen(s3);
    LowIsChosen(s4);
    ChosenTwice(y, s0, s1, s2, s3, s4, 1, 2, 4, 8, 16);
  }

  /** The five generators are independent in their lowest symbol. */
  lemma RemovedSelected(k: Kind, b: bv64)
    requires IsLast(b)
    ensures Removed(k, Selected(k, b)) == b
  {
    hide Chosen, Low, Generator, IsLast;
    LowOfLast(b);
    LowIsChosen(b);
    if k.OfBech32? {
      RemovedFromGenerators();
      ChosenTwice(b, Generator(k, 0), Generator(k, 1), Generator(k, 2), Generator(k, 3), Generator(k, 4),
                  0x11, 0xb, 0x16, 0x5, 0xa);
    } else {
      LowOfChosen(b, Generator(k, 0), Generator(k, 1), Generator(k, 2), Generator(k, 3), Generator(k, 4));
      LastSymbols();
    }
  }

  lemma MaskedIsLast(b: bv64, g: bv64)
    requires IsLast(g)
    ensures IsLast(Masked(b, g))
  {
    hide Masked, Odd;
    MaskedIs(b, g);
  }

  lemma XorIsLast(a: bv64, b: bv64)
    requires IsLast(a) && IsLast(b)
    ensures IsLast(Xor(a, b))
  {
  }

  lemma ChosenIsLast(b: bv64, g0: bv64, g1: bv64, g2: bv64, g3: bv64, g4: bv64)
    requires IsLast(g0) && IsLast(g1) && IsLast(g2) && IsLast(g3) && IsLast(g4)
    ensures IsLast(Chosen(b, g0, g1, g2, g3, g4))
  {
    hide Masked, Xor, IsLast, Shr1, Shr2, Shr3, Shr4;
    var m0, m1, m2, m3, m4 := Masked(b, g0), Masked(Shr1(b), g1), Masked(Shr2(b), g2), Masked(Shr3(b), g3),
                              Masked(Shr4(b), g4);
    MaskedIsLast(b, g0);
    MaskedIsLast(Shr1(b), g1);
    MaskedIsLast(Shr2(b), g2);
    MaskedIsLast(Shr3(b), g3);
    MaskedIsLast(Shr4(b), g4);
    XorIsLast(m0, m1);
    XorIsLast(Xor(m0, m1), m2);
    XorIsLast(Xor(Xor(m0, m1), m2), m3);
    XorIsLast(Xor(Xor(Xor(m0, m1), m2), m3), m4);
  }

  lemma RemovedIsLast(k: Kind, y: bv64)
    ensures IsLast(Removed(k, y))
  {
    hide Chosen, Low;
    LowIsLast(y);
    ChosenIsLast(y, 0x11, 0xb, 0x16, 0x5, 0xa);
  }

  lemma RemovedLow(k: Kind, y: bv64)
    ensures Low(Selected(k, Removed(k, y))) == Low(y)
  {
    hide Chosen, Low, Generator, IsLast;
    LowIsChosen(y);
    if k.OfBech32? {
      ChosenTwice(y, 0x11, 0xb, 0x16, 0x5, 0xa,
                  Generator(k, 0), Generator(k, 1), Generator(k, 2), Generator(k, 3), Generator(k, 4));
      LowFromRemovers();
      LowOfChosen(y, Selected(k, 0x11), Selected(k, 0xb), Selected(k, 0x16), Selected(k, 0x5), Selected(k, 0xa));
    } else {
      LowOfChosen(Low(y), Generator(k, 0), Generator(k, 1), Generator(k, 2), Generator(k, 3), Generator(k, 4));
      LastSymbols();
      LowIsChosen(Low(y));
      LowIsLast(y);
      LowOfLast(Low(y));
    }
  }

  lemma Top25(x: bv64)
    requires x < 0x4000_0000
    ensures Shr25(x) < 32
  {
  }

  lemma Join25(x: bv64)
    ensures Xor(Shl25(Shr25(x)), Keep25(x)) == x
  {
  }

  lemma DownUp25(x: bv64)
    ensures Down(Up(Keep25(x))) == Keep25(x)
  {
  }

  lemma Lifted25(b: bv64)
    requires b < 32
    ensures Shr25(Shl25(b)) == b && Keep25(Shl25(b)) == 0 && Shl25(b) < 0x4000_0000
  {
  }

  lemma Lower25(m: bv64)
    requires m < 0x200_0000
    ensures Shr25(m) == 0 && Keep25(m) == m && m < 0x4000_0000
  {
  }

  lemma Top35(x: bv64)
    requires x < 0x100_0000_0000
    ensures Shr35(x) < 32
  {
  }

  lemma Join35(x: bv64)
    ensures Xor(Shl35(Shr35(x)), Keep35(x)) == x
  {
  }

  lemma DownUp35(x: bv64)
    ensures Down(Up(Keep35(x))) == Keep35(x)
  {
  }

  lemma Lifted35(b: bv64)
    requires b < 32
    ensures Shr35(Shl35(b)) == b && Keep35(Shl35(b)) == 0 && Shl35(b) < 0x100_0000_0000
  {
  }

  lemma Lower35(m: bv64)
    requires m < 0x8_0000_0000
    ensures Shr35(m) == 0 && Keep35(m) == m && m < 0x100_0000_0000
  {
  }

  lemma Parts(k: Kind, x: bv64)
    requires IsState(k, x)
    ensures IsLast(Top(k, x)) && Xor(Lift(k, Top(k, x)), Keep(k, x)) == x && Down(Up(Keep(k, x))) == Keep(k, x)
  {
    hide Shr25, Shr35, Shl25, Shl35, Keep25, Keep35, Up, Down, Xor;
    if k.OfBech32? {
      Top25(x);
      Join25(x);
      DownUp25(x);
    } else {
      Top35(x);
      Join35(x);
      DownUp35(x);
    }
  }

  lemma Reassembled(k: Kind, b: bv64, m: bv64)
    requires IsLast(b) && IsLower(k, m)
    ensures Top(k, Xor(Lift(k, b), m)) == b && Keep(k, Xor(Lift(k, b), m)) == m && IsState(k, Xor(Lift(k, b), m))
  {
    hide Shr25, Shr35, Shl25, Shl35, Keep25, Keep35, Xor;
    XorUnits(b);
    XorUnits(m);
    XorCommutes(0, m);
    if k.OfBech32? {
      Lifted25(b);
      Lower25(m);
      Shr25Adds(Shl25(b), m);
      Keep25Adds(Shl25(b), m);
    } else {
      Lifted35(b);
      Lower35(m);
      Shr35Adds(Shl35(b), m);
      Keep35Adds(Shl35(b), m);
    }
    XorClosed(k, Lift(k, b), m);
  }

  lemma UpDown(w: bv64)
    requires EndsInZero(w)
    ensures Up(Down(w)) == w
  {
  }

  lemma SelectedClosed(k: Kind, b: bv64)
    ensures IsState(k, Selected(k, b))
  {
  }

  /** Stepping back undoes a step. */
  lemma BackAfterStep(k: Kind, x: bv64)
    requires IsState(k, x)
    ensures IsState(k, Step(k, x)) && StepBack(k, Step(k, x)) == x
  {
    hide Xor, Selected, Removed, Top, Keep, Lift, Down, Up, Step, IsState, IsLast;
    StepClosed(k, x);
    StepIs(k, x);
    Parts(k, x);
    var b, s := Top(k, x), Selected(k, Top(k, x));
    RemovedAdds(k, Shifted(k, x), s);
    RemovedNothing(k, Keep(k, x));
    RemovedSelected(k, b);
    XorUnits(b);
    XorCommutes(b, 0);
    XorAssociates(Shifted(k, x), s, s);
    XorUnits(s);
    XorUnits(Shifted(k, x));
  }

  /** Taking the selected generators off clears the last symbol. */
  lemma Cleared(k: Kind, y: bv64)
    requires IsState(k, y)
    ensures var w := Xor(y, Selected(k, Removed(k, y)));
            IsState(k, w) && EndsInZero(w) && Xor(w, Selected(k, Removed(k, y))) == y
  {
    hide Xor, Selected, Removed, IsState, EndsInZero;
    var s := Selected(k, Removed(k, y));
    ClearsLast(k, y);
    SelectedClosed(k, Removed(k, y));
    XorClosed(k, y, s);
    Undone(y, s);
  }

  lemma ClearsLast(k: Kind, y: bv64)
    ensures EndsInZero(Xor(y, Selected(k, Removed(k, y))))
  {
    hide Xor, Selected, Removed, Low;
    RemovedLow(k, y);
    LowAdds(y, Selected(k, Removed(k, y)));
    XorUnits(Low(y));
  }

  lemma Undone(y: bv64, s: bv64)
    ensures Xor(Xor(y, s), s) == y
  {
    hide Xor;
    XorAssociates(y, s, s);
    XorUnits(s);
    XorUnits(y);
  }

  lemma DownIsLower(k: Kind, w: bv64)
    requires IsState(k, w)
    ensures IsLower(k, Down(w))
  {
    DownClosed(k, w);
  }

  /** A state put together from a top symbol and what the shift left of w. */
  lemma PutTogether(k: Kind, b: bv64, w: bv64, x: bv64)
    requires IsLast(b) && IsState(k, w) && EndsInZero(w) && x == Xor(Lift(k, b), Down(w))
    ensures IsState(k, x) && Top(k, x) == b && Shifted(k, x) == w
  {
    hide Xor, Top, Keep, Lift, Down, Up, IsState, IsLower, IsLast, EndsInZero;
    DownIsLower(k, w);
    Reassembled(k, b, Down(w));
    UpDown(w);
  }

  /** Stepping undoes a step back. */
  lemma StepAfterBack(k: Kind, y: bv64)
    requires IsState(k, y)
    ensures IsState(k, StepBack(k, y)) && Step(k, StepBack(k, y)) == y
  {
    hide Xor, Selected, Removed, Top, Shifted, Step, Lift, Down, IsState, IsLast, EndsInZero;
    RemovedIsLast(k, y);
    Cleared(k, y);
    PutTogether(k, Removed(k, y), Xor(y, Selected(k, Removed(k, y))), StepBack(k, y));
    StepIs(k, StepBack(k, y));
  }

  /** The step is a bijection on the states. */
  lemma StepBijective(k: Kind, x: bv64)
    requires IsState(k, x)
    ensures IsState(k, Step(k, x)) && StepBack(k, Step(k, x)) == x
    ensures IsState(k, StepBack(k, x)) && Step(k, StepBack(k, x)) == x
  {
    hide Step, StepBack, IsState;
    BackAfterStep(k, x);
    StepAfterBack(k, x);
  }

  /** Nothing but zero steps to zero. */
  lemma StepKernel(k: Kind, x: bv64)
    requires IsState(k, x) && Step(k, x) == 0
    ensures x == 0
  {
    hide Step, StepBack;
    StepBijective(k, x);
    StepBijective(k, 0);
    NothingOnTop(k, 0);
  }

  lemma StepClosed(k: Kind, x: bv64)
    ensures IsState(k, Step(k, x))
  {
    hide Step, Shifted, Selected, IsState;
    StepIs(k, x);
    ShiftedClosed(k, x);
    SelectedClosed(k, Top(k, x));
    XorClosed(k, Shifted(k, x), Selected(k, Top(k, x)));
  }

  lemma ShiftedClosed(k: Kind, x: bv64)
    ensures IsState(k, Shifted(k, x))
  {
  }

  lemma XorClosed(k: Kind, x: bv64, y: bv64)
    requires IsState(k, x) && IsState(k, y)
    ensures IsState(k, Xor(x, y))
  {
  }

  lemma NothingOnTop(k: Kind, x: bv64)
    requires IsLower(k, x)
    ensures Step(k, x) == Up(x)
  {
    hide Masked, Shr1, Shr2, Shr3, Shr4, Xor, Up, Top, Keep, Generator;
    LowStates(k, x);
    MaskedZero(Generator(k, 0));
    MaskedZero(Generator(k, 1));
    MaskedZero(Generator(k, 2));
    MaskedZero(Generator(k, 3));
    MaskedZero(Generator(k, 4));
    ShrZero();
    XorUnits(Up(x));
  }

  lemma LowStates(k: Kind, x: bv64)
    requires x < Lower(k)
    ensures Top(k, x) == 0 && Keep(k, x) == x
  {
    hide Shr25, Shr35, Keep25, Keep35;
    if k.OfBech32? {
      Lower25(x);
    } else {
      Lower35(x);
    }
  }

  lemma MaskedZero(g: bv64)
    ensures Masked(0, g) == 0
  {
  }

  lemma ShrZero()
    ensures Shr1(0) == 0 && Shr2(0) == 0 && Shr3(0) == 0 && Shr4(0) == 0
  {
  }

  lemma WordNumber(d: int)
    requires IsSymbol(d)
    ensures Number(Word(d)) == d
  {
    var w := Word(d);
    assert (w & 16 != 0) == (d / 16 % 2 == 1) && (w & 8 != 0) == (d / 8 % 2 == 1) && (w & 4 != 0) == (d / 4 % 2 == 1);
    assert (w & 2 != 0) == (d / 2 % 2 == 1) && (w & 1 != 0) == (d % 2 == 1);
  }

  lemma NumberBits(w: bv64)
    requires w < 32
    ensures var d := Number(w);
            && IsSymbol(d)
            && (d / 16 % 2 == 1) == (w & 16 != 0) && (d / 8 % 2 == 1) == (w & 8 != 0)
              && (d / 4 % 2 == 1) == (w & 4 != 0)
            && (d / 2 % 2 == 1) == (w & 2 != 0) && (d % 2 == 1) == (w & 1 != 0)
  {
  }

  lemma NumberWord(w: bv64)
    requires w < 32
    ensures Word(Number(w)) == w
  {
    NumberBits(w);
    var d := Number(w);
    assert Word(d) == (w & 16) | (w & 8) | (w & 4) | (w & 2) | (w & 1);
  }

  /** The symbols of x above symbol i. */
  function Before(k: Kind, x: bv64, i: int): bv64 { if i <= 0 then 0 else Part(k, x, i - 1) }

  lemma Joined(w: bv64)
    ensures Xor(Up(Down(w)), Low(w)) == w
  {
  }

  lemma DownClosed(k: Kind, w: bv64)
    requires w < Limit(k)
    ensures Down(w) < Lower(k)
  {
  }

  lemma {:induction false} PartClosed(k: Kind, x: bv64, i: int)
    requires IsState(k, x) && 0 <= i < Size(k)
    ensures IsState(k, Part(k, x, i))
    decreases Size(k) - i
  {
    hide IsState, IsLower, Down;
    if i < Size(k) - 1 {
      PartClosed(k, x, i + 1);
      DownIsLower(k, Part(k, x, i + 1));
      LowerIsState(k, Part(k, x, i));
    }
  }

  lemma LowerIsState(k: Kind, m: bv64)
    requires IsLower(k, m)
    ensures IsState(k, m)
  {
  }

  lemma BeforeIs(k: Kind, x: bv64, i: int)
    requires IsState(k, x) && 0 <= i < Size(k)
    ensures Before(k, x, i) == Down(Part(k, x, i))
  {
    hide Down, IsState;
    if i == 0 {
      NothingAbove(k, x);
    }
  }

  lemma NextSymbol(k: Kind, x: bv64, i: int)
    requires IsState(k, x) && 0 <= i < Size(k)
    ensures IsLower(k, Before(k, x, i)) && Xor(Up(Before(k, x, i)), Low(Part(k, x, i))) == Part(k, x, i)
  {
    hide Xor, Up, Down, Low, Part, Before, IsState, IsLower;
    PartClosed(k, x, i);
    DownIsLower(k, Part(k, x, i));
    Joined(Part(k, x, i));
    BeforeIs(k, x, i);
  }

  /** x >> (5 * n) */
  function DownBy(x: bv64, n: nat): bv64 { if n == 0 then x else Down(DownBy(x, n - 1)) }

  lemma {:induction false} PartIsDown(k: Kind, x: bv64, n: nat)
    requires n < Size(k)
    ensures Part(k, x, Size(k) - 1 - n) == DownBy(x, n)
  {
    hide Down;
    if n > 0 {
      PartIsDown(k, x, n - 1);
    }
  }

  lemma NothingAbove(k: Kind, x: bv64)
    requires IsState(k, x)
    ensures Down(Part(k, x, 0)) == 0
  {
    hide Down;
    PartIsDown(k, x, Size(k) - 1);
    DownSix(x);
    if k == OfCashAddr {
      DownEight(x);
    } else {
      AllSix(x);
    }
  }

  lemma DownSix(x: bv64)
    ensures DownBy(x, 6) == Down(Down(Down(Down(Down(Down(x))))))
    ensures DownBy(x, 5) == Down(Down(Down(Down(Down(x)))))
    ensures DownBy(x, 7) == Down(DownBy(x, 6)) && DownBy(x, 8) == Down(Down(DownBy(x, 6)))
  {
    hide Down;
    assert DownBy(x, 1) == Down(x);
    assert DownBy(x, 2) == Down(Down(x));
    assert DownBy(x, 3) == Down(Down(Down(x)));
    assert DownBy(x, 4) == Down(Down(Down(Down(x))));
    assert DownBy(x, 5) == Down(Down(Down(Down(Down(x)))));
    assert DownBy(x, 7) == Down(DownBy(x, 6));
  }

  lemma AllSix(x: bv64)
    requires x < 0x4000_0000
    ensures Down(Down(Down(Down(Down(Down(x)))))) == 0
  {
  }

  lemma DownEight(x: bv64)
    requires x < 0x100_0000_0000
    ensures Down(Down(Down(Down(Down(Down(Down(Down(x)))))))) == 0
  {
  }

  /** Feeding the symbols of a state rebuilds it. */
  lemma {:induction false} Rebuilt(k: Kind, x: bv64, n: nat)
    requires IsState(k, x) && n <= Size(k)
    ensures Fold(TheCode(k), 0, Digits(TheCode(k), x)[..n]) == Before(k, x, n)
  {
    hide Step, Xor, Word, Number, Part, Up, Down, Low, IsState;
    if n > 0 {
      Rebuilt(k, x, n - 1);
      assert Digits(TheCode(k), x)[..n][..n - 1] == Digits(TheCode(k), x)[..n - 1];
      LastSymbol(k, x, n - 1);
    }
  }

  lemma LastSymbol(k: Kind, x: bv64, i: int)
    requires IsState(k, x) && 0 <= i < Size(k)
    ensures Xor(Step(k, Before(k, x, i)), Word(DigitOf(k, x, i))) == Before(k, x, i + 1)
  {
    hide Step, Xor, Word, Number, Part, Up, Down, Low, IsState, IsLower;
    NextSymbol(k, x, i);
    NothingOnTop(k, Before(k, x, i));
    LowIsLast(Part(k, x, i));
    NumberWord(Low(Part(k, x, i)));
  }

  lemma WholePart(k: Kind, x: bv64)
    ensures Before(k, x, Size(k)) == x
  {
  }

  lemma DigitsLaw(k: Kind, x: bv64)
    requires IsState(k, x)
    ensures Fold(TheCode(k), 0, Digits(TheCode(k), x)) == x
    ensures forall i :: 0 <= i < Size(k) ==> IsSymbol(DigitOf(k, x, i))
  {
    hide Step, Xor, Word, Number, Part, Low, IsState;
    Rebuilt(k, x, Size(k));
    WholePart(k, x);
    assert Digits(TheCode(k), x)[..Size(k)] == Digits(TheCode(k), x);
    forall i | 0 <= i < Size(k)
      ensures IsSymbol(DigitOf(k, x, i))
    {
      LowIsLast(Part(k, x, i));
      NumberBits(Low(Part(k, x, i)));
    }
  }

  /** The state of as many symbols as it holds has just these symbols. */
  lemma DigitsOfFold(k: Kind, ds: seq<int>)
    requires AllSymbols(ds) && |ds| == Size(k)
    ensures Digits(TheCode(k), Fold(TheCode(k), 0, ds)) == ds
  {
    hide Step, Xor, Word, DigitOf, Fold;
    forall i | 0 <= i < Size(k)
      ensures DigitOf(k, Fold(TheCode(k), 0, ds), i) == ds[i]
    {
      DigitAt(k, ds, i);
    }
  }

  lemma DigitAt(k: Kind, ds: seq<int>, i: nat)
    requires AllSymbols(ds) && |ds| == Size(k) && i < Size(k)
    ensures DigitOf(k, Fold(TheCode(k), 0, ds), i) == ds[i]
  {
    hide TheCode, Fold, Word, Number, Part, Down, Low, DownBy;
    PartIsDown(k, Fold(TheCode(k), 0, ds), Size(k) - 1 - i);
    Prefixes(k, ds, Size(k) - 1 - i);
    OneMoreSymbol(k, ds, i + 1);
    WordNumber(ds[i]);
  }

  lemma {:induction false} Prefixes(k: Kind, ds: seq<int>, n: nat)
    requires AllSymbols(ds) && |ds| == Size(k) && n <= Size(k)
    ensures DownBy(Fold(TheCode(k), 0, ds), n) == Fold(TheCode(k), 0, ds[..Size(k) - n])
  {
    hide Step, Xor, Word, Down, Low, TheCode, Fold;
    if n > 0 {
      Prefixes(k, ds, n - 1);
      OneMoreSymbol(k, ds, Size(k) - n + 1);
    } else {
      assert ds[..Size(k)] == ds;
    }
  }

  /** Up to the size of a state, a symbol is appended and nothing falls off. */
  lemma {:induction false} OneMoreSymbol(k: Kind, ds: seq<int>, n: nat)
    requires AllSymbols(ds) && |ds| == Size(k) && n <= Size(k)
    ensures var y := Fold(TheCode(k), 0, ds[..n]);
            && DownBy(y, n) == 0
            && (n > 0 ==> Down(y) == Fold(TheCode(k), 0, ds[..n - 1]) && Low(y) == Word(ds[n - 1]))
  {
    hide Step, Xor, Word, Down, Low, IsLower;
    if n > 0 {
      var m := Fold(TheCode(k), 0, ds[..n - 1]);
      OneMoreSymbol(k, ds, n - 1);
      FewSymbols(k, m, n - 1);
      NothingOnTop(k, m);
      assert ds[..n][..n - 1] == ds[..n - 1];
      Appended(k, m, Word(ds[n - 1]));
      DownFirst(Xor(Up(m), Word(ds[n - 1])), n - 1);
    }
  }

  lemma Appended(k: Kind, m: bv64, w: bv64)
    requires IsLower(k, m) && w < 32
    ensures Down(Xor(Up(m), w)) == m && Low(Xor(Up(m), w)) == w
  {
    assert m < 0x8_0000_0000;
  }

  lemma {:induction false} DownFirst(y: bv64, n: nat)
    ensures DownBy(y, n + 1) == DownBy(Down(y), n)
  {
    hide Down;
    if n > 0 {
      DownFirst(y, n - 1);
    }
  }

  lemma {:induction false} StaysZero(m: bv64, i: nat, n: nat)
    requires i <= n && DownBy(m, i) == 0
    ensures DownBy(m, n) == 0
    decreases n
  {
    hide Down;
    if i < n {
      StaysZero(m, i, n - 1);
      DownZero();
    }
  }

  lemma DownZero()
    ensures Down(0) == 0
  {
  }

  lemma FewSymbols(k: Kind, m: bv64, n: nat)
    requires n < Size(k) && DownBy(m, n) == 0
    ensures IsLower(k, m)
  {
    hide Down, DownBy;
    StaysZero(m, n, Size(k) - 1);
    DownSix(m);
    if k.OfBech32? {
      FiveDown(m);
    } else {
      SevenDown(m);
    }
  }

  lemma FiveDown(m: bv64)
    requires Down(Down(Down(Down(Down(m))))) == 0
    ensures m < 0x200_0000
  {
  }

  lemma SevenDown(m: bv64)
    requires Down(Down(Down(Down(Down(Down(Down(m))))))) == 0
    ensures m < 0x8_0000_0000
  {
  }

  lemma StateLaws(k: Kind, x: bv64, y: bv64, z: bv64)
    ensures Laws(TheCode(k), x, y, z)
  {
    hide Step, Xor, DigitOf, IsState, Fold, Digits;
    if IsState(k, x) && IsState(k, y) && IsState(k, z) {
      XorClosed(k, x, y);
      StepClosed(k, x);
      XorCommutes(x, y);
      XorAssociates(x, y, z);
      XorUnits(x);
      StepAdds(k, x, y);
      if Step(k, x) == 0 {
        StepKernel(k, x);
      }
      DigitsLaw(k, x);
    }
  }

  lemma IsACode(k: Kind)
    ensures IsCode(TheCode(k))
  {
    forall x: bv64, y: bv64, z: bv64 {:trigger Mark(x, y, z)} | Mark(x, y, z)
      ensures Laws(TheCode(k), x, y, z)
    {
      StateLaws(k, x, y, z);
    }
    forall d, e {:trigger MarkSymbols(d, e)} | MarkSymbols(d, e)
      ensures SymbolLaws(TheCode(k), d, e)
    {
      if IsSymbol(d) && IsSymbol(e) {
        WordNumber(d);
        WordNumber(e);
      }
    }
  }
}

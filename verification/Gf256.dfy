/** The field of 256 elements: polynomials over two elements modulo x^8 + x^4 + x^3 + x + 1. */
module Gf256 {
  import opened Peasant

  /** The coefficients of a polynomial of degree less than 8. */
  datatype Element = Element(c0: bool, c1: bool, c2: bool, c3: bool, c4: bool, c5: bool, c6: bool, c7: bool)

  /** The number of elements. */
  const ORDER: nat := 256

  const ZERO := Element(false, false, false, false, false, false, false, false)
  const ONE := Element(true, false, false, false, false, false, false, false)

  function Add(a: Element, b: Element): Element
  {
    Element(a.c0 != b.c0, a.c1 != b.c1, a.c2 != b.c2, a.c3 != b.c3, a.c4 != b.c4, a.c5 != b.c5, a.c6 != b.c6,
      a.c7 != b.c7)
  }

  /** a times x, with x^8 replaced by x^4 + x^3 + x + 1. */
  function TimesX(a: Element): Element
  {
    Element(a.c7, a.c0 != a.c7, a.c1, a.c2 != a.c7, a.c3 != a.c7, a.c4, a.c5, a.c6)
  }

  function Coefficients(a: Element): seq<bool> { [a.c0, a.c1, a.c2, a.c3, a.c4, a.c5, a.c6, a.c7] }

  function Polynomials(): Shifts<Element>
  {
    Shifts((a, b) => Add(a, b), ZERO, ONE, a => TimesX(a), a => Coefficients(a))
  }

  /** a, a x, a x^2, ... added up where the coefficients are one. */
  function Terms(a: Element, s: seq<bool>): Element
    decreases |s|
  {
    if s == [] then ZERO else Add(if s[0] then a else ZERO, Terms(TimesX(a), s[1..]))
  }

  /** The product modulo x^8 + x^4 + x^3 + x + 1. */
  function Mul(a: Element, b: Element): Element { Terms(a, Coefficients(b)) }

  /** x^8 is x^4 + x^3 + x + 1, and {57} times {83} is {c1} (section 4.2 of FIPS 197). */
  lemma KnownProducts()
    ensures TimesX(Element(false, false, false, false, false, false, false, true))
         == Element(true, true, false, true, true, false, false, false)
    ensures Mul(Element(true, true, true, false, true, false, true, false),
                Element(true, true, false, false, false, false, false, true))
         == Element(true, false, false, false, false, false, true, true)
  {
    var a0 := Element(true, true, true, false, true, false, true, false);
    var a1 := TimesX(a0);
    var a2 := TimesX(a1);
    var a3 := TimesX(a2);
    var a4 := TimesX(a3);
    var a5 := TimesX(a4);
    var a6 := TimesX(a5);
    var a7 := TimesX(a6);
    var t7 := Terms(a7, [true]);
    Prepend(a6, false, [true], t7, t7);
    Prepend(a5, false, [false, true], t7, t7);
    Prepend(a4, false, [false, false, true], t7, t7);
    Prepend(a3, false, [false, false, false, true], t7, t7);
    Prepend(a2, false, [false, false, false, false, true], t7, t7);
    Prepend(a1, true, [false, false, false, false, false, true], t7, Add(a1, t7));
    Prepend(a0, true, [true, false, false, false, false, false, true], Add(a1, t7), Add(a0, Add(a1, t7)));
  }

  lemma {:induction false} TermsAreSum(a: Element, s: seq<bool>)
    ensures Terms(a, s) == Sum(Polynomials(), a, s)
    decreases |s|
  {
    if s != [] {
      TermsAreSum(TimesX(a), s[1..]);
    }
  }

  lemma MulIsTimes(a: Element, b: Element)
    ensures Mul(a, b) == Times(Polynomials(), a, b)
  {
    TermsAreSum(a, Coefficients(b));
  }

  /** One more term in front. */
  lemma Prepend(a: Element, bit: bool, rest: seq<bool>, tail: Element, total: Element)
    requires Terms(TimesX(a), rest) == tail && total == Add(if bit then a else ZERO, tail)
    ensures Terms(a, [bit] + rest) == total
  {
    assert ([bit] + rest)[1..] == rest;
  }

  function Monomial(n: nat): Element
  {
    Element(n == 0, n == 1, n == 2, n == 3, n == 4, n == 5, n == 6, n == 7)
  }

  /** The terms of x from degree n on. */
  function From(x: Element, n: nat): Element
  {
    Element(n <= 0 && x.c0, n <= 1 && x.c1, n <= 2 && x.c2, n <= 3 && x.c3, n <= 4 && x.c4, n <= 5 && x.c5,
            n <= 6 && x.c6, n <= 7 && x.c7)
  }

  lemma MonomialFacts(x: Element, n: nat)
    requires n < 8
    ensures From(x, n) == Add(if Coefficients(x)[n] then Monomial(n) else ZERO, From(x, n + 1))
    ensures n < 7 ==> TimesX(Monomial(n)) == Monomial(n + 1)
  {
  }

  lemma {:induction false} SumOfPowers(x: Element, n: nat)
    requires n <= 8
    ensures Terms(if n == 8 then TimesX(Monomial(7)) else Monomial(n), Coefficients(x)[n..]) == From(x, n)
    decreases 8 - n
  {
    var s := Coefficients(x);
    if n < 8 {
      assert s[n..] == [s[n]] + s[n + 1..];
      SumOfPowers(x, n + 1);
      MonomialFacts(x, n);
      Prepend(Monomial(n), s[n], s[n + 1..], From(x, n + 1), From(x, n));
    } else {
      assert s[8..] == [] && From(x, 8) == ZERO;
    }
  }

  lemma XorAssociates(a: bool, b: bool, c: bool)
    ensures ((a != b) != c) == (a != (b != c))
  {
  }

  lemma AddAssociates(x: Element, y: Element, z: Element)
    ensures Add(Add(x, y), z) == Add(x, Add(y, z))
  {
    XorAssociates(x.c0, y.c0, z.c0);
    XorAssociates(x.c1, y.c1, z.c1);
    XorAssociates(x.c2, y.c2, z.c2);
    XorAssociates(x.c3, y.c3, z.c3);
    XorAssociates(x.c4, y.c4, z.c4);
    XorAssociates(x.c5, y.c5, z.c5);
    XorAssociates(x.c6, y.c6, z.c6);
    XorAssociates(x.c7, y.c7, z.c7);
  }

  lemma AddLaws(x: Element, y: Element)
    ensures Add(x, y) == Add(y, x) && Add(x, ZERO) == x && Add(x, x) == ZERO
  {
  }

  lemma TimesXAdds(x: Element, y: Element)
    ensures TimesX(Add(x, y)) == Add(TimesX(x), TimesX(y)) && TimesX(ZERO) == ZERO
  {
  }

  lemma FromZero(x: Element)
    ensures From(x, 0) == x && From(x, 8) == ZERO
  {
  }

  lemma SumOfCoefficients(x: Element)
    ensures Sum(Polynomials(), ONE, Coefficients(x)) == x
  {
    hide Add, TimesX, Terms, Sum;
    FromZero(x);
    SumOfPowers(x, 0);
    TermsAreSum(ONE, Coefficients(x));
    assert Coefficients(x)[0..] == Coefficients(x);
  }

  lemma PolynomialLaws(x: Element, y: Element, z: Element)
    ensures Laws(Polynomials(), x, y, z)
  {
    hide Add, TimesX, Coefficients, Sum;
    AddAssociates(x, y, z);
    AddLaws(x, y);
    TimesXAdds(x, y);
    SumOfCoefficients(x);
  }

  lemma PolynomialsLawful()
    ensures Lawful(Polynomials())
  {
    forall x: Element, y: Element, z: Element {:trigger Mark(x, y, z)} | Mark(x, y, z)
      ensures Laws(Polynomials(), x, y, z)
    {
      PolynomialLaws(x, y, z);
    }
  }

  /** The square in closed form: squaring is linear. */
  function Squared(a: Element): Element
  {
    var e46, e67, e57 := a.c4 != a.c6, a.c6 != a.c7, a.c5 != a.c7;
    Element(a.c0 != e46, e46 != a.c7, a.c1 != a.c5, e46 != e57,
            a.c2 != (a.c4 != a.c7), a.c5 != a.c6, a.c3 != a.c5, e67)
  }

  lemma SquaredAdds(a: Element, b: Element)
    ensures Squared(Add(a, b)) == Add(Squared(a), Squared(b))
  {
    Mix(a.c4, a.c6, b.c4, b.c6);
    Mix(a.c6, a.c7, b.c6, b.c7);
    Mix(a.c5, a.c7, b.c5, b.c7);
    Mix(a.c4, a.c7, b.c4, b.c7);
  }

  lemma Mix(a: bool, b: bool, c: bool, d: bool)
    ensures ((a != c) != (b != d)) == ((a != b) != (c != d))
  {
  }

  /** The power x^n. */
  function XPower(n: nat): Element { Doubled(Polynomials(), ONE, n) }

  lemma XPowerSquared(n: nat)
    ensures Mul(XPower(n), XPower(n)) == XPower(2 * n)
  {
    hide Mul, Add, TimesX, Coefficients, Lawful, Doubled;
    PolynomialsLawful();
    MulIsTimes(XPower(n), XPower(n));
    TimesDoubled(Polynomials(), n, XPower(n));
    DoubledTwice(Polynomials(), ONE, n, n);
  }

  lemma MonomialSquares(n: nat)
    requires n < 8
    ensures Monomial(n) == XPower(n) && Squared(Monomial(n)) == XPower(2 * n)
  {
    assert XPower(1) == Monomial(1) && XPower(2) == Monomial(2) && XPower(3) == Monomial(3);
    assert XPower(4) == Monomial(4) && XPower(5) == Monomial(5) && XPower(6) == Monomial(6) && XPower(7) == Monomial(7);
    assert XPower(8) == Element(true, true, false, true, true, false, false, false);
    assert XPower(10) == Element(false, false, true, true, false, true, true, false);
    assert XPower(12) == Element(true, true, false, true, false, true, false, true);
    assert XPower(14) == Element(false, true, false, true, true, false, false, true);
  }

  lemma SquareOfZero()
    ensures Squared(ZERO) == ZERO == Mul(ZERO, ZERO)
  {
    PolynomialsLawful();
    MulIsTimes(ZERO, ZERO);
    Unit(Polynomials(), ZERO);
  }

  lemma MulSquareAdds(a: Element, b: Element)
    ensures Mul(Add(a, b), Add(a, b)) == Add(Mul(a, a), Mul(b, b))
  {
    PolynomialsLawful();
    MulIsTimes(a, a);
    MulIsTimes(b, b);
    MulIsTimes(Add(a, b), Add(a, b));
    SquareAdds(Polynomials(), a, b);
  }

  /** Cross terms appear twice and cancel, so squares add; the powers of x settle the rest. */
  lemma {:induction false} SquaredFrom(a: Element, n: nat)
    requires n <= 8
    ensures Squared(From(a, n)) == Mul(From(a, n), From(a, n))
    decreases 8 - n
  {
    SquareOfZero();
    if n < 8 {
      var term, rest := if Coefficients(a)[n] then Monomial(n) else ZERO, From(a, n + 1);
      MonomialFacts(a, n);
      SquaredFrom(a, n + 1);
      MonomialSquares(n);
      XPowerSquared(n);
      SquaredAdds(term, rest);
      MulSquareAdds(term, rest);
    } else {
      assert From(a, 8) == ZERO;
    }
  }

  lemma SquaredIsMul(a: Element)
    ensures Squared(a) == Mul(a, a)
  {
    SquaredFrom(a, 0);
    assert From(a, 0) == a;
  }

  lemma SquaredIsSquare(a: Element)
    ensures Squared(a) == Square(Polynomials(), a)
  {
    SquaredIsMul(a);
    MulIsTimes(a, a);
  }

  /** The fourth power in closed form. */
  function Fourth(a: Element): Element
  {
    Element((a.c0 != (a.c2 != a.c3)) != (a.c5 != (a.c6 != a.c7)), (a.c2 != a.c3) != (a.c4 != (a.c5 != a.c6)),
      a.c4 != (a.c5 != a.c7),
            a.c2 != (a.c3 != a.c4), (a.c1 != a.c2) != (a.c4 != (a.c5 != a.c6)), a.c3 != a.c6,
            a.c4 != a.c7, (a.c3 != a.c5) != (a.c6 != a.c7))
  }

  /** The sixteenth power in closed form. */
  function Sixteenth(a: Element): Element
  {
    Element((a.c0 != a.c4) != (a.c5 != a.c6), a.c1, (a.c1 != a.c2) != (a.c4 != (a.c6 != a.c7)),
            (a.c1 != a.c3) != (a.c4 != (a.c6 != a.c7)), a.c1 != (a.c5 != a.c6), a.c2 != (a.c3 != a.c7),
            (a.c1 != a.c2) != (a.c3 != (a.c4 != a.c7)), a.c2 != (a.c3 != a.c5))
  }

  lemma FourthPower(a: Element)
    ensures Squared(Squared(a)) == Fourth(a)
  {
  }

  lemma SixteenthPower(a: Element)
    ensures Fourth(Fourth(a)) == Sixteenth(a)
  {
  }

  lemma SixteenthTwice(a: Element)
    ensures Sixteenth(Sixteenth(a)) == a
  {
  }

  /** Squaring eight times is the identity. */
  lemma Frobenius(a: Element)
    ensures Squared(Squared(Squared(Squared(Squared(Squared(Squared(Squared(a)))))))) == a
  {
    hide Squared, Fourth, Sixteenth;
    FourthPower(a);
    var b := Squared(Squared(a));
    FourthPower(b);
    SixteenthPower(a);
    var c := Squared(Squared(b));
    FourthPower(c);
    var d := Squared(Squared(c));
    FourthPower(d);
    SixteenthPower(c);
    SixteenthTwice(a);
  }

  lemma OwnSquare(a: Element)
    requires Squared(a) == a
    ensures a == ZERO || a == ONE
  {
  }

  lemma PowersMultiply(a: Element, m: nat, n: nat)
    ensures Mul(Power(Polynomials(), a, m), Power(Polynomials(), a, n)) == Power(Polynomials(), a, m + n)
  {
    PolynomialsLawful();
    PowerAdd(Polynomials(), a, m, n);
    MulIsTimes(Power(Polynomials(), a, m), Power(Polynomials(), a, n));
  }

  lemma FirstPower(a: Element)
    ensures Power(Polynomials(), a, 1) == a
  {
    PolynomialsLawful();
    PowerOne(Polynomials(), a);
  }

  /** The inverse, and zero for zero. */
  function Inverse(a: Element): Element { Power(Polynomials(), a, ORDER - 2) }

  lemma InverseWorks(a: Element)
    requires a != ZERO
    ensures Mul(a, Inverse(a)) == ONE
  {
    hide Squared, Mul, Add, TimesX, Square, Power, Times, Coefficients, Lawful;
    var g := Polynomials();
    PolynomialsLawful();
    Power256(g, a);
    EightSquares(a);
    MulIsTimes(a, Inverse(a));
    forall e | Square(g, e) == e
      ensures e == ZERO || e == ONE
    {
      SquaredIsSquare(e);
      OwnSquare(e);
    }
    PowerInverts(g, a);
  }

  lemma EightSquares(a: Element)
    ensures var g := Polynomials();
            var b := Square(g, Square(g, Square(g, Square(g, a))));
            Square(g, Square(g, Square(g, Square(g, b)))) == a
  {
    var b := Squared(a);
    var c := Squared(b);
    var d := Squared(c);
    var e := Squared(d);
    var f := Squared(e);
    var h := Squared(f);
    var i := Squared(h);
    SquaredIsSquare(a);
    SquaredIsSquare(b);
    SquaredIsSquare(c);
    SquaredIsSquare(d);
    SquaredIsSquare(e);
    SquaredIsSquare(f);
    SquaredIsSquare(h);
    SquaredIsSquare(i);
    Frobenius(a);
  }
}

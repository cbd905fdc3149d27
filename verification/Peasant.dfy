/** Russian peasant multiplication over any doubling: why adding up shifted copies is a commutative multiplication. */
module Peasant {
  /** Elements with an addition, a doubling, and an expansion into bits. */
  datatype Shifts<!T> = Shifts(add: (T, T) -> T, zero: T, one: T, double: T -> T, bits: T -> seq<bool>)

  // The laws are stated for marked triples only, so that they are used where a proof asks for them.
  predicate Mark<T>(x: T, y: T, z: T) { true }

  function Pick<T>(g: Shifts<T>, bit: bool, a: T): T { if bit then a else g.zero }

  /** The sum of the doublings of a that the bits select, lowest first. */
  function Sum<T>(g: Shifts<T>, a: T, bits: seq<bool>): T
  {
    if bits == [] then g.zero else g.add(Pick(g, bits[0], a), Sum(g, g.double(a), bits[1..]))
  }

  function Times<T>(g: Shifts<T>, a: T, b: T): T { Sum(g, a, g.bits(b)) }

  ghost predicate Laws<T>(g: Shifts<T>, x: T, y: T, z: T)
  {
    && g.add(x, y) == g.add(y, x)
    && g.add(g.add(x, y), z) == g.add(x, g.add(y, z))
    && g.add(x, g.zero) == x
    && g.add(x, x) == g.zero
    && g.double(g.add(x, y)) == g.add(g.double(x), g.double(y))
    && g.double(g.zero) == g.zero
    && Sum(g, g.one, g.bits(x)) == x
  }

  ghost predicate Lawful<T(!new)>(g: Shifts<T>)
  {
    forall x, y, z {:trigger Mark(x, y, z)} :: Mark(x, y, z) ==> Laws(g, x, y, z)
  }

  lemma Law<T(!new)>(g: Shifts<T>, x: T, y: T, z: T)
    requires Lawful(g)
    ensures Laws(g, x, y, z)
  {
    assert Mark(x, y, z);
  }

  lemma Interchange<T(!new)>(g: Shifts<T>, a: T, b: T, x: T, y: T)
    requires Lawful(g)
    ensures g.add(g.add(a, b), g.add(x, y)) == g.add(g.add(a, x), g.add(b, y))
  {
    Law(g, a, b, g.add(x, y));
    Law(g, b, x, y);
    Law(g, x, b, y);
    Law(g, a, x, g.add(b, y));
  }

  lemma {:induction false} SumAdd<T(!new)>(g: Shifts<T>, a: T, b: T, bits: seq<bool>)
    requires Lawful(g)
    ensures Sum(g, g.add(a, b), bits) == g.add(Sum(g, a, bits), Sum(g, b, bits))
    decreases |bits|
  {
    Law(g, g.zero, g.zero, g.zero);
    if bits != [] {
      Law(g, a, b, b);
      SumAdd(g, g.double(a), g.double(b), bits[1..]);
      Interchange(g, Pick(g, bits[0], a), Pick(g, bits[0], b), Sum(g, g.double(a), bits[1..]), Sum(g, g.double(b),
        bits[1..]));
    }
  }

  lemma {:induction false} SumZero<T(!new)>(g: Shifts<T>, bits: seq<bool>)
    requires Lawful(g)
    ensures Sum(g, g.zero, bits) == g.zero
    decreases |bits|
  {
    Law(g, g.zero, g.zero, g.zero);
    if bits != [] {
      SumZero(g, bits[1..]);
    }
  }

  lemma {:induction false} SumDouble<T(!new)>(g: Shifts<T>, a: T, bits: seq<bool>)
    requires Lawful(g)
    ensures Sum(g, g.double(a), bits) == g.double(Sum(g, a, bits))
    decreases |bits|
  {
    Law(g, g.zero, g.zero, g.zero);
    if bits != [] {
      SumDouble(g, g.double(a), bits[1..]);
      Law(g, Pick(g, bits[0], a), Sum(g, g.double(a), bits[1..]), a);
    }
  }

  /** Multiplying a sum of doublings multiplies what is doubled. */
  lemma {:induction false} TimesSum<T(!new)>(g: Shifts<T>, s: T, bits: seq<bool>, b: T)
    requires Lawful(g)
    ensures Times(g, Sum(g, s, bits), b) == Sum(g, Times(g, s, b), bits)
    decreases |bits|
  {
    SumZero(g, g.bits(b));
    if bits != [] {
      TimesSum(g, g.double(s), bits[1..], b);
      SumDouble(g, s, g.bits(b));
      SumAdd(g, Pick(g, bits[0], s), Sum(g, g.double(s), bits[1..]), g.bits(b));
    }
  }

  lemma Commutes<T(!new)>(g: Shifts<T>, a: T, b: T)
    requires Lawful(g)
    ensures Times(g, a, b) == Times(g, b, a)
  {
    Law(g, a, b, b);
    Law(g, b, a, a);
    TimesSum(g, g.one, g.bits(a), b);
  }

  lemma Associates<T(!new)>(g: Shifts<T>, a: T, b: T, c: T)
    requires Lawful(g)
    ensures Times(g, Times(g, a, b), c) == Times(g, a, Times(g, b, c))
  {
    Commutes(g, a, b);
    TimesSum(g, b, g.bits(a), c);
    Commutes(g, Times(g, b, c), a);
  }

  lemma Distributes<T(!new)>(g: Shifts<T>, a: T, b: T, c: T)
    requires Lawful(g)
    ensures Times(g, a, g.add(b, c)) == g.add(Times(g, a, b), Times(g, a, c))
  {
    Commutes(g, a, g.add(b, c));
    Commutes(g, a, b);
    Commutes(g, a, c);
    SumAdd(g, b, c, g.bits(a));
  }

  lemma Unit<T(!new)>(g: Shifts<T>, a: T)
    requires Lawful(g)
    ensures Times(g, a, g.one) == a && Times(g, a, g.zero) == g.zero
  {
    Commutes(g, a, g.one);
    Law(g, a, a, a);
    Commutes(g, a, g.zero);
    SumZero(g, g.bits(a));
  }

  /** a doubled n times. */
  function Doubled<T>(g: Shifts<T>, a: T, n: nat): T { if n == 0 then a else g.double(Doubled(g, a, n - 1)) }

  lemma {:induction false} TimesDoubled<T(!new)>(g: Shifts<T>, n: nat, b: T)
    requires Lawful(g)
    ensures Times(g, Doubled(g, g.one, n), b) == Doubled(g, b, n)
  {
    if n == 0 {
      Commutes(g, g.one, b);
      Unit(g, b);
    } else {
      TimesDoubled(g, n - 1, b);
      SumDouble(g, Doubled(g, g.one, n - 1), g.bits(b));
    }
  }

  lemma {:induction false} DoubledTwice<T>(g: Shifts<T>, a: T, m: nat, n: nat)
    ensures Doubled(g, Doubled(g, a, n), m) == Doubled(g, a, m + n)
  {
    if m > 0 {
      DoubledTwice(g, a, m - 1, n);
    }
  }

  function Square<T>(g: Shifts<T>, a: T): T { Times(g, a, a) }

  /** Where x + x = 0, the square of a sum is the sum of the squares. */
  lemma SquareAdds<T(!new)>(g: Shifts<T>, a: T, b: T)
    requires Lawful(g)
    ensures Square(g, g.add(a, b)) == g.add(Square(g, a), Square(g, b))
  {
    var ab, aa, bb := Times(g, a, b), Square(g, a), Square(g, b);
    Commutes(g, a, b);
    Distributes(g, g.add(a, b), a, b);
    Commutes(g, g.add(a, b), a);
    Commutes(g, g.add(a, b), b);
    Distributes(g, a, a, b);
    Distributes(g, b, a, b);
    Law(g, bb, ab, ab);
    Law(g, ab, bb, bb);
    Interchange(g, aa, ab, bb, ab);
    Law(g, ab, ab, ab);
    Law(g, g.add(aa, bb), ab, ab);
  }

  function Power<T>(g: Shifts<T>, a: T, n: nat): T
  {
    if n == 0 then g.one else Times(g, a, Power(g, a, n - 1))
  }

  lemma {:induction false} PowerAdd<T(!new)>(g: Shifts<T>, a: T, m: nat, n: nat)
    requires Lawful(g)
    ensures Power(g, a, m + n) == Times(g, Power(g, a, m), Power(g, a, n))
  {
    if m == 0 {
      Unit(g, Power(g, a, n));
      Commutes(g, g.one, Power(g, a, n));
    } else {
      PowerAdd(g, a, m - 1, n);
      Associates(g, a, Power(g, a, m - 1), Power(g, a, n));
    }
  }

  lemma PowerOne<T(!new)>(g: Shifts<T>, a: T)
    requires Lawful(g)
    ensures Power(g, a, 1) == a
  {
    Unit(g, a);
  }

  /** The 256th power is reached by squaring eight times. */
  lemma Power256<T(!new)>(g: Shifts<T>, a: T)
    requires Lawful(g)
    ensures var b := Square(g, Square(g, Square(g, Square(g, a))));
            Power(g, a, 256) == Square(g, Square(g, Square(g, Square(g, b))))
  {
    PowerOne(g, a);
    PowerAdd(g, a, 1, 1);
    PowerAdd(g, a, 2, 2);
    PowerAdd(g, a, 4, 4);
    PowerAdd(g, a, 8, 8);
    PowerAdd(g, a, 16, 16);
    PowerAdd(g, a, 32, 32);
    PowerAdd(g, a, 64, 64);
    PowerAdd(g, a, 128, 128);
  }

  /**
   * If the 256th power of a is a, and 0 and 1 are the only elements that are their own square, then the 254th
   * power is the inverse: the 255th is its own square, and not zero.
   */
  lemma PowerInverts<T(!new)>(g: Shifts<T>, a: T)
    requires Lawful(g) && Power(g, a, 256) == a && a != g.zero
    requires forall e :: Square(g, e) == e ==> e == g.zero || e == g.one
    ensures Times(g, a, Power(g, a, 254)) == g.one
  {
    var e := Power(g, a, 255);
    PowerOne(g, a);
    PowerAdd(g, a, 1, 254);
    PowerAdd(g, a, 1, 255);
    PowerAdd(g, a, 256, 254);
    PowerAdd(g, a, 255, 255);
    assert Square(g, e) == Power(g, a, 510) == Times(g, a, Power(g, a, 254)) == e;
    Unit(g, a);
  }
}

/** Commutative groups given by their operations, and integer multiples of their elements. */
module Groups {

  datatype Group<!T> = Group(has: T -> bool, add: (T, T) -> T, neg: T -> T, zero: T)

  // The laws are stated for marked triples only, so that they are used where a proof asks for them.
  predicate Mark<T>(x: T, y: T, z: T) { true }

  ghost predicate Laws<T>(g: Group<T>, x: T, y: T, z: T)
  {
    g.has(x) && g.has(y) && g.has(z) ==>
      && g.has(g.add(x, y)) && g.has(g.neg(x))
      && g.add(x, y) == g.add(y, x)
      && g.add(g.add(x, y), z) == g.add(x, g.add(y, z))
      && g.add(x, g.zero) == x
      && g.add(x, g.neg(x)) == g.zero
  }

  ghost predicate IsGroup<T(!new)>(g: Group<T>)
  {
    g.has(g.zero) && forall x, y, z {:trigger Mark(x, y, z)} :: Mark(x, y, z) ==> Laws(g, x, y, z)
  }

  lemma Law<T(!new)>(g: Group<T>, x: T, y: T, z: T)
    requires IsGroup(g) && g.has(x) && g.has(y) && g.has(z)
    ensures g.has(g.add(x, y)) && g.has(g.neg(x))
    ensures g.add(x, y) == g.add(y, x)
    ensures g.add(g.add(x, y), z) == g.add(x, g.add(y, z))
    ensures g.add(x, g.zero) == x
    ensures g.add(x, g.neg(x)) == g.zero
  {
    assert Mark(x, y, z);
  }

  /** The k-fold sum of x, for any integer k. */
  function Times<T>(g: Group<T>, k: int, x: T): T
    decreases if k < 0 then -k else k
  {
    if k == 0 then g.zero
    else if k > 0 then g.add(Times(g, k - 1, x), x)
    else g.add(Times(g, k + 1, x), g.neg(x))
  }

  lemma {:induction false} TimesIn<T(!new)>(g: Group<T>, k: int, x: T)
    requires IsGroup(g) && g.has(x)
    ensures g.has(Times(g, k, x))
    decreases if k < 0 then -k else k
  {
    Law(g, x, x, x);
    if k > 0 {
      TimesIn(g, k - 1, x);
      Law(g, Times(g, k - 1, x), x, x);
    } else if k < 0 {
      TimesIn(g, k + 1, x);
      Law(g, Times(g, k + 1, x), g.neg(x), x);
    }
  }

  /** Adding x once more raises the factor by one, on both sides of zero. */
  lemma TimesNext<T(!new)>(g: Group<T>, k: int, x: T)
    requires IsGroup(g) && g.has(x)
    ensures g.add(Times(g, k, x), x) == Times(g, k + 1, x)
  {
    if k < 0 {
      var t := Times(g, k + 1, x);
      TimesIn(g, k + 1, x);
      Law(g, x, x, x);
      Law(g, t, g.neg(x), x);
      Law(g, g.neg(x), x, x);
      Law(g, t, x, x);
    }
  }

  lemma {:induction false} TimesAdd<T(!new)>(g: Group<T>, k: int, m: int, x: T)
    requires IsGroup(g) && g.has(x)
    ensures g.add(Times(g, k, x), Times(g, m, x)) == Times(g, k + m, x)
    decreases if m < 0 then -m else m
  {
    TimesIn(g, k, x);
    Law(g, x, x, x);
    if m == 0 {
      Law(g, Times(g, k, x), x, x);
    } else if m > 0 {
      TimesAdd(g, k, m - 1, x);
      TimesIn(g, m - 1, x);
      Law(g, Times(g, k, x), Times(g, m - 1, x), x);
      TimesNext(g, k + m - 1, x);
    } else {
      TimesAdd(g, k, m + 1, x);
      TimesIn(g, m + 1, x);
      TimesIn(g, k + m, x);
      Law(g, Times(g, k, x), Times(g, m + 1, x), g.neg(x));
      TimesNext(g, k + m, x);
      Law(g, Times(g, k + m, x), x, g.neg(x));
      Law(g, Times(g, k + m, x), x, x);
    }
  }

  lemma TimesNeg<T(!new)>(g: Group<T>, k: int, x: T)
    requires IsGroup(g) && g.has(x)
    ensures Times(g, -k, x) == g.neg(Times(g, k, x))
  {
    var t, u := Times(g, k, x), Times(g, -k, x);
    TimesIn(g, k, x);
    TimesIn(g, -k, x);
    TimesAdd(g, k, -k, x);
    NegUnique(g, t, u);
  }

  lemma NegUnique<T(!new)>(g: Group<T>, t: T, u: T)
    requires IsGroup(g) && g.has(t) && g.has(u) && g.add(t, u) == g.zero
    ensures u == g.neg(t)
  {
    var n := g.neg(t);
    Law(g, t, t, t);
    Law(g, u, t, n);
    Law(g, t, u, u);
    Law(g, n, g.zero, t);
    Law(g, g.zero, n, n);
    Law(g, u, u, u);
  }

  lemma {:induction false} TimesTimes<T(!new)>(g: Group<T>, k: int, m: int, x: T)
    requires IsGroup(g) && g.has(x)
    ensures Times(g, k, Times(g, m, x)) == Times(g, k * m, x)
    decreases if k < 0 then -k else k
  {
    var y := Times(g, m, x);
    TimesIn(g, m, x);
    if k > 0 {
      TimesTimes(g, k - 1, m, x);
      TimesAdd(g, (k - 1) * m, m, x);
      assert (k - 1) * m + m == k * m;
    } else if k < 0 {
      TimesTimes(g, k + 1, m, x);
      TimesNeg(g, m, x);
      TimesAdd(g, (k + 1) * m, -m, x);
      assert (k + 1) * m + -m == k * m;
    }
  }

  lemma TimesOne<T(!new)>(g: Group<T>, x: T)
    requires IsGroup(g) && g.has(x)
    ensures Times(g, 1, x) == x
  {
    Law(g, x, x, x);
    Law(g, g.zero, x, x);
  }

  /** Four elements may be paired either way. */
  lemma Interchange<T(!new)>(g: Group<T>, a: T, b: T, x: T, y: T)
    requires IsGroup(g) && g.has(a) && g.has(b) && g.has(x) && g.has(y)
    ensures g.add(g.add(a, b), g.add(x, y)) == g.add(g.add(a, x), g.add(b, y))
  {
    Law(g, x, y, y);
    Law(g, a, x, y);
    Law(g, b, y, y);
    Law(g, a, b, g.add(x, y));
    Law(g, b, x, y);
    Law(g, x, b, y);
    Law(g, a, x, g.add(b, y));
  }

  lemma NegSum<T(!new)>(g: Group<T>, x: T, y: T)
    requires IsGroup(g) && g.has(x) && g.has(y)
    ensures g.neg(g.add(x, y)) == g.add(g.neg(x), g.neg(y))
  {
    Law(g, x, y, y);
    Law(g, y, y, y);
    Law(g, g.neg(x), g.neg(y), y);
    Interchange(g, x, y, g.neg(x), g.neg(y));
    Law(g, g.zero, g.zero, g.zero);
    NegUnique(g, g.add(x, y), g.add(g.neg(x), g.neg(y)));
  }

  /** Multiples of a sum. */
  lemma {:induction false} TimesSum<T(!new)>(g: Group<T>, k: int, x: T, y: T)
    requires IsGroup(g) && g.has(x) && g.has(y)
    ensures Times(g, k, g.add(x, y)) == g.add(Times(g, k, x), Times(g, k, y))
    decreases if k < 0 then -k else k
  {
    Law(g, x, y, y);
    Law(g, y, y, y);
    if k == 0 {
      Law(g, g.zero, g.zero, g.zero);
    } else {
      var k' := if k > 0 then k - 1 else k + 1;
      TimesSum(g, k', x, y);
      TimesIn(g, k', x);
      TimesIn(g, k', y);
      if k > 0 {
        Interchange(g, Times(g, k', x), Times(g, k', y), x, y);
      } else {
        NegSum(g, x, y);
        Interchange(g, Times(g, k', x), Times(g, k', y), g.neg(x), g.neg(y));
      }
    }
  }
}

/** Lagrange interpolation over a field where x + x = 0. */
module Interpolation {
  datatype Field<!T> = Field(add: (T, T) -> T, mul: (T, T) -> T, inv: T -> T, zero: T, one: T)

  // The laws are stated for marked triples only, so that they are used where a proof asks for them.
  predicate Mark<T>(x: T, y: T, z: T) { true }

  ghost predicate Laws<T>(f: Field<T>, x: T, y: T, z: T)
  {
    && f.add(x, y) == f.add(y, x)
    && f.add(f.add(x, y), z) == f.add(x, f.add(y, z))
    && f.add(x, f.zero) == x
    && f.add(x, x) == f.zero
    && f.mul(x, y) == f.mul(y, x)
    && f.mul(f.mul(x, y), z) == f.mul(x, f.mul(y, z))
    && f.mul(x, f.one) == x
    && f.mul(x, f.add(y, z)) == f.add(f.mul(x, y), f.mul(x, z))
    && (x != f.zero ==> f.mul(x, f.inv(x)) == f.one)
    && f.one != f.zero
  }

  ghost predicate IsField<T(!new)>(f: Field<T>)
  {
    forall x, y, z {:trigger Mark(x, y, z)} :: Mark(x, y, z) ==> Laws(f, x, y, z)
  }

  lemma Law<T(!new)>(f: Field<T>, x: T, y: T, z: T)
    requires IsField(f)
    ensures Laws(f, x, y, z)
  {
    assert Mark(x, y, z);
  }

  lemma MulZero<T(!new)>(f: Field<T>, x: T)
    requires IsField(f)
    ensures f.mul(x, f.zero) == f.zero && f.mul(f.zero, x) == f.zero
  {
    Law(f, x, f.zero, f.zero);
    Law(f, f.zero, f.zero, f.zero);
    Law(f, f.mul(x, f.zero), x, x);
  }

  lemma NoZeroDivisors<T(!new)>(f: Field<T>, x: T, y: T)
    requires IsField(f) && x != f.zero && f.mul(x, y) == f.zero
    ensures y == f.zero
  {
    var i := f.inv(x);
    Law(f, x, i, y);
    Law(f, i, x, y);
    Law(f, y, f.one, y);
    MulZero(f, i);
  }

  lemma EqualWhenSumZero<T(!new)>(f: Field<T>, x: T, y: T)
    requires IsField(f)
    ensures f.add(x, y) == f.zero <==> x == y
  {
    Law(f, x, y, y);
    Law(f, y, y, y);
    Law(f, f.zero, y, y);
    Law(f, x, x, x);
  }

  lemma AddSwap<T(!new)>(f: Field<T>, a: T, b: T, c: T, d: T)
    requires IsField(f)
    ensures f.add(f.add(a, b), f.add(c, d)) == f.add(f.add(a, c), f.add(b, d))
  {
    Law(f, a, b, f.add(c, d));
    Law(f, b, c, d);
    Law(f, c, b, d);
    Law(f, a, c, f.add(b, d));
  }

  /** The value at x of the polynomial with the given coefficients, lowest first. */
  function Eval<T>(f: Field<T>, p: seq<T>, x: T): T
  {
    if p == [] then f.zero else f.add(p[0], f.mul(x, Eval(f, p[1..], x)))
  }

  /** Division by X + a. */
  function Quotient<T>(f: Field<T>, p: seq<T>, a: T): (q: seq<T>)
    ensures |q| == if |p| <= 1 then 0 else |p| - 1
  {
    if |p| <= 1 then [] else [Eval(f, p[1..], a)] + Quotient(f, p[1..], a)
  }

  lemma {:induction false} Division<T(!new)>(f: Field<T>, p: seq<T>, a: T, x: T)
    requires IsField(f)
    ensures Eval(f, p, x) == f.add(Eval(f, p, a), f.mul(f.add(x, a), Eval(f, Quotient(f, p, a), x)))
    decreases |p|
  {
    MulZero(f, f.add(x, a));
    MulZero(f, a);
    MulZero(f, x);
    if p == [] {
      Law(f, f.zero, f.zero, f.zero);
    } else if |p| == 1 {
      assert p[1..] == [];
      Law(f, p[0], f.zero, f.zero);
    } else {
      Division(f, p[1..], a, x);
      var q := Quotient(f, p[1..], a);
      assert Quotient(f, p, a)[1..] == q;
      DivisionStep(f, p[0], Eval(f, p[1..], a), Eval(f, q, x), a, x);
    }
  }

  /** c + x (v + (x + a) w) = (c + a v) + (x + a) (v + x w) */
  lemma DivisionStep<T(!new)>(f: Field<T>, c: T, v: T, w: T, a: T, x: T)
    requires IsField(f)
    ensures f.add(c, f.mul(x, f.add(v, f.mul(f.add(x, a), w))))
         == f.add(f.add(c, f.mul(a, v)), f.mul(f.add(x, a), f.add(v, f.mul(x, w))))
  {
    var s := f.add(x, a);
    var av, xv, t := f.mul(a, v), f.mul(x, v), f.mul(x, f.mul(s, w));
    Law(f, x, v, f.mul(s, w));
    Law(f, s, v, f.mul(x, w));
    Law(f, v, x, a);
    Law(f, s, v, v);
    Law(f, a, v, v);
    Law(f, x, v, v);
    assert f.mul(s, f.mul(x, w)) == t by {
      Law(f, s, x, w);
      Law(f, x, s, w);
    }
    assert f.mul(s, v) == f.add(xv, av);
    Law(f, xv, av, t);
    Law(f, xv, av, av);
    Law(f, c, av, f.add(f.add(av, xv), t));
    Law(f, av, av, f.add(xv, t));
    Law(f, av, xv, t);
    Law(f, f.add(xv, t), f.zero, f.zero);
    Law(f, f.zero, f.add(xv, t), f.zero);
  }

  ghost predicate Distinct<T(!new)>(xs: seq<T>)
  {
    forall i, j :: 0 <= i < j < |xs| ==> xs[i] != xs[j]
  }

  /** A polynomial with as many roots as coefficients is zero everywhere. */
  lemma {:induction false} TooManyRoots<T(!new)>(f: Field<T>, p: seq<T>, xs: seq<T>, x: T)
    requires IsField(f) && Distinct(xs) && |p| <= |xs|
    requires forall i :: 0 <= i < |xs| ==> Eval(f, p, xs[i]) == f.zero
    ensures Eval(f, p, x) == f.zero
    decreases |p|
  {
    if p != [] {
      var a, q := xs[0], Quotient(f, p, xs[0]);
      forall i | 1 <= i < |xs|
        ensures Eval(f, q, xs[i]) == f.zero
      {
        Division(f, p, a, xs[i]);
        EqualWhenSumZero(f, xs[i], a);
        Law(f, f.zero, f.mul(f.add(xs[i], a), Eval(f, q, xs[i])), a);
        Law(f, f.mul(f.add(xs[i], a), Eval(f, q, xs[i])), f.zero, a);
        NoZeroDivisors(f, f.add(xs[i], a), Eval(f, q, xs[i]));
      }
      TooManyRoots(f, q, xs[1..], x);
      Division(f, p, a, x);
      MulZero(f, f.add(x, a));
      Law(f, f.zero, f.zero, f.zero);
    }
  }

  // ---------- Polynomial arithmetic ----------

  function Plus<T>(f: Field<T>, p: seq<T>, q: seq<T>): (r: seq<T>)
    ensures |r| == if |p| <= |q| then |q| else |p|
  {
    if p == [] then q else if q == [] then p else [f.add(p[0], q[0])] + Plus(f, p[1..], q[1..])
  }

  lemma {:induction false} EvalPlus<T(!new)>(f: Field<T>, p: seq<T>, q: seq<T>, x: T)
    requires IsField(f)
    ensures Eval(f, Plus(f, p, q), x) == f.add(Eval(f, p, x), Eval(f, q, x))
    decreases |p|
  {
    Law(f, Eval(f, p, x), f.zero, f.zero);
    Law(f, Eval(f, q, x), f.zero, f.zero);
    if p != [] && q != [] {
      EvalPlus(f, p[1..], q[1..], x);
      assert Plus(f, p, q)[1..] == Plus(f, p[1..], q[1..]);
      var u, v := Eval(f, p[1..], x), Eval(f, q[1..], x);
      Law(f, x, u, v);
      AddSwap(f, p[0], q[0], f.mul(x, u), f.mul(x, v));
    }
  }

  function Scale<T>(f: Field<T>, c: T, p: seq<T>): (r: seq<T>)
    ensures |r| == |p|
  {
    if p == [] then [] else [f.mul(c, p[0])] + Scale(f, c, p[1..])
  }

  lemma {:induction false} EvalScale<T(!new)>(f: Field<T>, c: T, p: seq<T>, x: T)
    requires IsField(f)
    ensures Eval(f, Scale(f, c, p), x) == f.mul(c, Eval(f, p, x))
    decreases |p|
  {
    MulZero(f, c);
    if p != [] {
      EvalScale(f, c, p[1..], x);
      assert Scale(f, c, p)[1..] == Scale(f, c, p[1..]);
      var u := Eval(f, p[1..], x);
      Law(f, c, p[0], f.mul(x, u));
      Law(f, c, x, u);
      Law(f, x, c, u);
    }
  }

  /** p * (X + a) */
  function TimesLinear<T>(f: Field<T>, p: seq<T>, a: T): (r: seq<T>)
    ensures |r| == |p| + 1
  {
    Plus(f, [f.zero] + p, Scale(f, a, p))
  }

  lemma EvalTimesLinear<T(!new)>(f: Field<T>, p: seq<T>, a: T, x: T)
    requires IsField(f)
    ensures Eval(f, TimesLinear(f, p, a), x) == f.mul(f.add(x, a), Eval(f, p, x))
  {
    var u := Eval(f, p, x);
    EvalPlus(f, [f.zero] + p, Scale(f, a, p), x);
    EvalScale(f, a, p, x);
    assert ([f.zero] + p)[1..] == p;
    Law(f, f.zero, f.mul(x, u), x);
    Law(f, f.mul(x, u), f.zero, x);
    Law(f, u, x, a);
    Law(f, u, f.add(x, a), a);
    Law(f, x, u, u);
    Law(f, a, u, u);
  }

  // ---------- Interpolation ----------

  /** The product of x - xs[j] over the first m points, point i left out. */
  function Others<T>(f: Field<T>, xs: seq<T>, i: int, m: nat, x: T): T
    requires m <= |xs|
  {
    if m == 0 then f.one
    else if m - 1 == i then Others(f, xs, i, m - 1, x)
    else f.mul(Others(f, xs, i, m - 1, x), f.add(x, xs[m - 1]))
  }

  /** The same product as a polynomial. */
  function Basis<T>(f: Field<T>, xs: seq<T>, i: int, m: nat): (p: seq<T>)
    requires m <= |xs|
    ensures |p| == m + 1 - (if 0 <= i < m then 1 else 0)
  {
    if m == 0 then [f.one]
    else if m - 1 == i then Basis(f, xs, i, m - 1)
    else TimesLinear(f, Basis(f, xs, i, m - 1), xs[m - 1])
  }

  lemma {:induction false} EvalBasis<T(!new)>(f: Field<T>, xs: seq<T>, i: int, m: nat, x: T)
    requires IsField(f) && m <= |xs|
    ensures Eval(f, Basis(f, xs, i, m), x) == Others(f, xs, i, m, x)
  {
    if m == 0 {
      assert [f.one][1..] == [];
      MulZero(f, x);
      Law(f, f.one, x, x);
    } else {
      EvalBasis(f, xs, i, m - 1, x);
      if m - 1 != i {
        EvalTimesLinear(f, Basis(f, xs, i, m - 1), xs[m - 1], x);
        Law(f, f.add(x, xs[m - 1]), Others(f, xs, i, m - 1, x), x);
      }
    }
  }

  lemma {:induction false} OthersVanish<T(!new)>(f: Field<T>, xs: seq<T>, i: int, m: nat, k: nat)
    requires IsField(f) && k < m <= |xs| && k != i
    ensures Others(f, xs, i, m, xs[k]) == f.zero
  {
    if k == m - 1 {
      Law(f, xs[k], xs[k], xs[k]);
      MulZero(f, Others(f, xs, i, m - 1, xs[k]));
    } else {
      OthersVanish(f, xs, i, m - 1, k);
      if m - 1 != i {
        MulZero(f, f.add(xs[k], xs[m - 1]));
      }
    }
  }

  lemma {:induction false} OthersNonzero<T(!new)>(f: Field<T>, xs: seq<T>, i: int, m: nat, x: T)
    requires IsField(f) && m <= |xs| && forall j :: 0 <= j < m && j != i ==> xs[j] != x
    ensures Others(f, xs, i, m, x) != f.zero
  {
    Law(f, x, x, x);
    if m > 0 {
      OthersNonzero(f, xs, i, m - 1, x);
      if m - 1 != i {
        EqualWhenSumZero(f, x, xs[m - 1]);
        if Others(f, xs, i, m, x) == f.zero {
          NoZeroDivisors(f, Others(f, xs, i, m - 1, x), f.add(x, xs[m - 1]));
        }
      }
    }
  }

  /** The term of point i in Lagrange's formula. */
  function Part<T>(f: Field<T>, xs: seq<T>, y: T, i: nat, x: T): T
    requires i < |xs|
  {
    f.mul(f.mul(y, f.inv(Others(f, xs, i, |xs|, xs[i]))), Others(f, xs, i, |xs|, x))
  }

  function Parts<T>(f: Field<T>, xs: seq<T>, ys: seq<T>, m: nat, x: T): T
    requires m <= |xs| == |ys|
  {
    if m == 0 then f.zero else f.add(Parts(f, xs, ys, m - 1, x), Part(f, xs, ys[m - 1], m - 1, x))
  }

  function PartsPolynomial<T>(f: Field<T>, xs: seq<T>, ys: seq<T>, m: nat): (p: seq<T>)
    requires m <= |xs| == |ys|
    ensures |p| <= |xs|
  {
    if m == 0 then []
    else
      var i := m - 1;
      Plus(f, PartsPolynomial(f, xs, ys, i),
        Scale(f, f.mul(ys[i], f.inv(Others(f, xs, i, |xs|, xs[i]))), Basis(f, xs, i, |xs|)))
  }

  lemma {:induction false} EvalParts<T(!new)>(f: Field<T>, xs: seq<T>, ys: seq<T>, m: nat, x: T)
    requires IsField(f) && m <= |xs| == |ys|
    ensures Eval(f, PartsPolynomial(f, xs, ys, m), x) == Parts(f, xs, ys, m, x)
  {
    if m > 0 {
      var i := m - 1;
      var c, b := f.mul(ys[i], f.inv(Others(f, xs, i, |xs|, xs[i]))), Basis(f, xs, i, |xs|);
      EvalParts(f, xs, ys, i, x);
      EvalPlus(f, PartsPolynomial(f, xs, ys, i), Scale(f, c, b), x);
      EvalScale(f, c, b, x);
      EvalBasis(f, xs, i, |xs|, x);
    }
  }

  /** At a point of its own the formula gives the value there. */
  lemma {:induction false} PartsAtPoint<T(!new)>(f: Field<T>, xs: seq<T>, ys: seq<T>, m: nat, k: nat)
    requires IsField(f) && m <= |xs| == |ys| && k < |xs| && Distinct(xs)
    ensures Parts(f, xs, ys, m, xs[k]) == if k < m then ys[k] else f.zero
  {
    if m > 0 {
      var i := m - 1;
      PartsAtPoint(f, xs, ys, i, k);
      if i == k {
        OwnPart(f, xs, ys[k], k);
        Law(f, ys[k], f.zero, f.zero);
      } else {
        OthersVanish(f, xs, i, |xs|, k);
        MulZero(f, f.mul(ys[i], f.inv(Others(f, xs, i, |xs|, xs[i]))));
        Law(f, ys[k], f.zero, f.zero);
        Law(f, f.zero, f.zero, f.zero);
      }
    }
  }

  lemma OwnPart<T(!new)>(f: Field<T>, xs: seq<T>, y: T, k: nat)
    requires IsField(f) && k < |xs| && Distinct(xs)
    ensures Part(f, xs, y, k, xs[k]) == y
  {
    var d := Others(f, xs, k, |xs|, xs[k]);
    OthersNonzero(f, xs, k, |xs|, xs[k]);
    Law(f, y, f.inv(d), d);
    Law(f, d, f.inv(d), d);
    Law(f, f.inv(d), d, d);
    Law(f, y, y, y);
  }

  /** Lagrange's formula recovers every polynomial with at most as many coefficients as there are points. */
  lemma LagrangeRecovers<T(!new)>(f: Field<T>, xs: seq<T>, ys: seq<T>, p: seq<T>, x: T)
    requires IsField(f) && Distinct(xs) && |xs| == |ys| && |p| <= |xs|
    requires forall i :: 0 <= i < |xs| ==> ys[i] == Eval(f, p, xs[i])
    ensures Parts(f, xs, ys, |xs|, x) == Eval(f, p, x)
  {
    var n := |xs|;
    var l := PartsPolynomial(f, xs, ys, n);
    var d := Plus(f, l, p);
    forall i | 0 <= i < n
      ensures Eval(f, d, xs[i]) == f.zero
    {
      EvalPlus(f, l, p, xs[i]);
      EvalParts(f, xs, ys, n, xs[i]);
      PartsAtPoint(f, xs, ys, n, i);
      EqualWhenSumZero(f, ys[i], Eval(f, p, xs[i]));
    }
    TooManyRoots(f, d, xs, x);
    EvalPlus(f, l, p, x);
    EvalParts(f, xs, ys, n, x);
    EqualWhenSumZero(f, Parts(f, xs, ys, n, x), Eval(f, p, x));
  }

  // ---------- The formula as it is computed ----------

  /** The product over all points is that over the others times the factor of point i. */
  lemma {:induction false} AllAndOthers<T(!new)>(f: Field<T>, xs: seq<T>, i: nat, m: nat, x: T)
    requires IsField(f) && i < |xs| && m <= |xs|
    ensures Others(f, xs, -1, m, x)
         == if i < m then f.mul(f.add(x, xs[i]), Others(f, xs, i, m, x)) else Others(f, xs, i, m, x)
  {
    if m > 0 {
      AllAndOthers(f, xs, i, m - 1, x);
      var o, s := Others(f, xs, i, m - 1, x), f.add(x, xs[m - 1]);
      if m - 1 == i {
        Law(f, o, s, s);
      } else if i < m - 1 {
        Law(f, f.add(x, xs[i]), o, s);
      }
    }
  }

  lemma InverseOfProduct<T(!new)>(f: Field<T>, a: T, b: T, o: T)
    requires IsField(f) && a != f.zero && b != f.zero
    ensures f.mul(f.inv(f.mul(a, b)), f.mul(a, o)) == f.mul(f.inv(b), o)
  {
    var ab := f.mul(a, b);
    var i, j := f.inv(ab), f.inv(b);
    if ab == f.zero {
      NoZeroDivisors(f, a, b);
    }
    assert f.mul(i, a) == j by {
      Law(f, ab, i, i);
      Law(f, a, b, i);
      Law(f, b, i, a);
      Law(f, i, a, b);
      Law(f, i, ab, ab);
      Law(f, a, i, b);
      assert f.mul(f.mul(i, a), b) == f.one;
      Law(f, f.mul(i, a), b, j);
      Law(f, b, j, j);
      Law(f, f.mul(i, a), f.one, j);
      Law(f, j, f.one, j);
      Law(f, f.one, j, j);
    }
    Law(f, i, a, o);
  }

  /** The scaled numerator that the code adds for point i, with its special case, is the part of point i. */
  lemma ComputedPart<T(!new)>(f: Field<T>, xs: seq<T>, y: T, i: nat, x: T, d: T)
    requires IsField(f) && i < |xs| && Others(f, xs, i, |xs|, xs[i]) != f.zero
    requires d == f.mul(if x == xs[i] then f.one else f.add(x, xs[i]), Others(f, xs, i, |xs|, xs[i]))
    ensures d != f.zero
    ensures f.add(if x == xs[i] then y else f.zero, f.mul(f.mul(f.inv(d), Others(f, xs, -1, |xs|, x)), y))
         == Part(f, xs, y, i, x)
  {
    var o, e := Others(f, xs, i, |xs|, x), Others(f, xs, i, |xs|, xs[i]);
    var all := Others(f, xs, -1, |xs|, x);
    AllAndOthers(f, xs, i, |xs|, x);
    EqualWhenSumZero(f, x, xs[i]);
    Law(f, f.one, e, e);
    Law(f, e, f.one, e);
    if x == xs[i] {
      MulZero(f, o);
      MulZero(f, f.inv(d));
      MulZero(f, y);
      Law(f, y, f.zero, f.zero);
      Law(f, y, f.inv(e), e);
      Law(f, e, f.inv(e), e);
      Law(f, f.inv(e), e, e);
      Law(f, y, y, y);
    } else {
      if d == f.zero {
        NoZeroDivisors(f, f.add(x, xs[i]), e);
      }
      InverseOfProduct(f, f.add(x, xs[i]), e, o);
      var v := f.mul(f.inv(e), o);
      Law(f, v, y, y);
      Law(f, y, f.inv(e), o);
      Law(f, f.mul(v, y), f.zero, f.zero);
      Law(f, f.zero, f.mul(v, y), f.zero);
    }
  }

  /** No denominator vanishes exactly when the points are distinct. */
  lemma DistinctDenominators<T(!new)>(f: Field<T>, xs: seq<T>)
    requires IsField(f)
    ensures Distinct(xs) <==> forall i :: 0 <= i < |xs| ==> Others(f, xs, i, |xs|, xs[i]) != f.zero
  {
    if Distinct(xs) {
      forall i | 0 <= i < |xs|
        ensures Others(f, xs, i, |xs|, xs[i]) != f.zero
      {
        OthersNonzero(f, xs, i, |xs|, xs[i]);
      }
    } else {
      var i, j :| 0 <= i < j < |xs| && xs[i] == xs[j];
      OthersVanish(f, xs, i, |xs|, j);
    }
  }
}

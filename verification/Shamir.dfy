/** Slicing, unslicing and Shamir interpolation (crypto/shamir.c). */
module Shamir {
  import opened Peasant
  import opened Gf256
  import opened BitslicedField
  import I = Interpolation

  const MAX_LEN := 32

  function FieldOfBytes(): I.Field<Element>
  {
    I.Field((a, b) => Add(a, b), (a, b) => Mul(a, b), a => Inverse(a), ZERO, ONE)
  }

  lemma FieldLaws(x: Element, y: Element, z: Element)
    ensures I.Laws(FieldOfBytes(), x, y, z)
  {
    hide Mul, Inverse, Add, FieldOfBytes;
    Operations(x, y, z);
    AddAssociates(x, y, z);
    AddLaws(x, y);
    MulLaws(x, y, z);
    InverseLaw(x);
  }

  lemma Operations(x: Element, y: Element, z: Element)
    ensures var f := FieldOfBytes();
            && f.zero == ZERO && f.one == ONE && f.one != f.zero
            && f.add(x, y) == Add(x, y) && f.add(y, x) == Add(y, x) && f.add(y, z) == Add(y, z)
              && f.add(x, x) == Add(x, x)
            && f.add(x, ZERO) == Add(x, ZERO) && f.add(Add(x, y), z) == Add(Add(x, y), z)
              && f.add(x, Add(y, z)) == Add(x, Add(y, z))
            && f.mul(x, y) == Mul(x, y) && f.mul(y, x) == Mul(y, x) && f.mul(y, z) == Mul(y, z)
              && f.mul(x, z) == Mul(x, z)
            && f.mul(x, ONE) == Mul(x, ONE) && f.mul(Mul(x, y), z) == Mul(Mul(x, y), z)
              && f.mul(x, Mul(y, z)) == Mul(x, Mul(y, z))
            && f.mul(x, Add(y, z)) == Mul(x, Add(y, z)) && f.add(Mul(x, y), Mul(x, z)) == Add(Mul(x, y), Mul(x, z))
            && f.inv(x) == Inverse(x) && f.mul(x, Inverse(x)) == Mul(x, Inverse(x))
  {
    hide Mul, Inverse, Add;
  }

  lemma InverseLaw(x: Element)
    ensures x != ZERO ==> Mul(x, Inverse(x)) == ONE
  {
    if x != ZERO {
      InverseWorks(x);
    }
  }

  lemma MulLaws(x: Element, y: Element, z: Element)
    ensures Mul(x, y) == Mul(y, x) && Mul(Mul(x, y), z) == Mul(x, Mul(y, z))
    ensures Mul(x, ONE) == x && Mul(x, Add(y, z)) == Add(Mul(x, y), Mul(x, z))
  {
    hide Mul, Terms, Add, Sum;
    var g := Polynomials();
    PolynomialsLawful();
    MulIsTimes(x, y);
    MulIsTimes(y, x);
    MulIsTimes(Mul(x, y), z);
    MulIsTimes(x, Mul(y, z));
    MulIsTimes(y, z);
    MulIsTimes(x, z);
    MulIsTimes(x, ONE);
    MulIsTimes(x, Add(y, z));
    Commutes(g, x, y);
    Associates(g, x, y, z);
    Unit(g, x);
    Distributes(g, x, y, z);
  }

  lemma FieldHolds()
    ensures I.IsField(FieldOfBytes())
  {
    forall x: Element, y: Element, z: Element {:trigger I.Mark(x, y, z)} | I.Mark(x, y, z)
      ensures I.Laws(FieldOfBytes(), x, y, z)
    {
      FieldLaws(x, y, z);
    }
  }

  // ---------- Slicing ----------

  /** w | (bit << k) */
  function OrBit(w: Word, bit: bool, k: nat): Word
    requires k < 32
  {
    w[k := w[k] || bit]
  }

  function Padded(x: seq<Element>, len: nat): Lanes
    requires len <= |x|
  {
    seq(32, k requires 0 <= k < 32 => if k < len then x[k] else ZERO)
  }

  lemma ElementFromCoefficients(a: Element, s: seq<bool>)
    requires |s| == 8 && Coefficients(a) == s
    ensures a == Element(s[0], s[1], s[2], s[3], s[4], s[5], s[6], s[7])
  {
  }

  lemma ElementsFromBits(r: seq<Word>, v: Lanes)
    requires |r| == 8 && forall j, k :: 0 <= j < 8 && 0 <= k < 32 ==> r[j][k] == Coefficients(v[k])[j]
    ensures Elements(r) == v
  {
    forall k | 0 <= k < 32
      ensures Elements(r)[k] == v[k]
    {
      ElementFromCoefficients(v[k], Coefficients(v[k]));
    }
  }

  /** Bit m of word i once the first k bytes are in. */
  predicate Sliced(x: seq<Element>, k: nat, i: nat, m: nat)
    requires k <= |x| && i < 8
  {
    m < k && Coefficients(x[m])[i]
  }

  /** Lane k receives byte k (bitslice). */
  method Bitslice(r: array<Word>, x: seq<Element>, len: nat)
    requires r.Length == 8 && len <= |x| && len <= 32
    modifies r
    ensures Elements(r[..]) == Padded(x, len)
  {
    for j := 0 to 8
      invariant forall i :: 0 <= i < j ==> r[i] == Filled(false)
    {
      r[j] := Filled(false);
    }
    for k := 0 to len
      invariant forall i, m :: 0 <= i < 8 && 0 <= m < 32 ==> r[i][m] == Sliced(x, k, i, m)
    {
      var cur := x[k];
      for j := 0 to 8
        invariant forall i, m :: 0 <= i < 8 && 0 <= m < 32 ==>
          r[i][m] == if i < j then Sliced(x, k + 1, i, m) else Sliced(x, k, i, m)
      {
        r[j] := OrBit(r[j], Coefficients(cur)[j], k);
      }
    }
    ElementsFromBits(r[..], Padded(x, len));
  }

  /** c | (bit << j) */
  function WithCoefficient(c: Element, j: nat, bit: bool): Element
    requires j < 8
  {
    Element(c.c0 || (j == 0 && bit), c.c1 || (j == 1 && bit), c.c2 || (j == 2 && bit), c.c3 || (j == 3 && bit),
            c.c4 || (j == 4 && bit), c.c5 || (j == 5 && bit), c.c6 || (j == 6 && bit), c.c7 || (j == 7 && bit))
  }

  /** The coefficients of e below degree j. */
  function Below(e: Element, j: nat): Element
  {
    Element(j > 0 && e.c0, j > 1 && e.c1, j > 2 && e.c2, j > 3 && e.c3, j > 4 && e.c4, j > 5 && e.c5,
            j > 6 && e.c6, j > 7 && e.c7)
  }

  lemma BelowNext(e: Element, j: nat)
    requires j < 8
    ensures WithCoefficient(Below(e, j), j, Coefficients(e)[j]) == Below(e, j + 1)
    ensures Below(e, 0) == ZERO && Below(e, 8) == e
  {
  }

  /** The first `len` lanes as bytes (unbitslice). */
  method Unbitslice(r: array<Element>, x: array<Word>, len: nat)
    requires x.Length == 8 && len <= r.Length && len <= 32
    modifies r
    ensures forall k :: 0 <= k < len ==> r[k] == Elements(x[..])[k]
    ensures forall k :: len <= k < r.Length ==> r[k] == old(r[k])
  {
    hide WithCoefficient, Below;
    ghost var v := Elements(x[..]);
    for k := 0 to len
      invariant forall m :: 0 <= m < k ==> r[m] == ZERO
      invariant forall m :: len <= m < r.Length ==> r[m] == old(r[m])
    {
      r[k] := ZERO;
    }
    BelowNext(ZERO, 0);
    forall m | 0 <= m < len
      ensures r[m] == Below(v[m], 0)
    {
      BelowNext(v[m], 0);
    }
    for j := 0 to 8
      invariant forall m :: 0 <= m < len ==> r[m] == Below(v[m], j)
      invariant forall m :: len <= m < r.Length ==> r[m] == old(r[m])
    {
      forall k | 0 <= k < len
        ensures x[j][k] == Coefficients(v[k])[j]
      {
        CoefficientAt(x[..], j, k);
      }
      AddCoefficients(r, x[j], j, len, v);
    }
    forall m | 0 <= m < len
      ensures r[m] == v[m]
    {
      BelowNext(v[m], 0);
    }
  }

  /** The coefficients of degree j of the first `len` bytes. */
  method AddCoefficients(r: array<Element>, cur: Word, j: nat, len: nat, ghost v: Lanes)
    requires j < 8 && len <= r.Length && len <= 32
    requires forall k :: 0 <= k < len ==> cur[k] == Coefficients(v[k])[j] && r[k] == Below(v[k], j)
    modifies r
    ensures forall k :: 0 <= k < len ==> r[k] == Below(v[k], j + 1)
    ensures forall k :: len <= k < r.Length ==> r[k] == old(r[k])
  {
    hide WithCoefficient, Below, Coefficients;
    for k := 0 to len
      invariant forall m :: 0 <= m < len ==> r[m] == if m < k then Below(v[m], j + 1) else Below(v[m], j)
      invariant forall m :: len <= m < r.Length ==> r[m] == old(r[m])
    {
      BelowNext(v[k], j);
      r[k] := WithCoefficient(r[k], j, cur[k]);
    }
  }

  function Constant(e: Element): Lanes { seq(32, k => e) }

  /** Every lane receives the same byte (bitslice_setall). */
  method BitsliceSetAll(r: array<Word>, x: Element)
    requires r.Length == 8
    modifies r
    ensures Elements(r[..]) == Constant(x)
  {
    for j := 0 to 8
      invariant forall i :: 0 <= i < j ==> r[i] == Filled(Coefficients(x)[i])
    {
      r[j] := Filled(Coefficients(x)[j]);
    }
    ElementsFromBits(r[..], Constant(x));
  }

  // ---------- Interpolation ----------

  function F(): I.Field<Element> { FieldOfBytes() }

  /** Each array of `rows` holds one byte in all its lanes. */
  ghost predicate Holds(rows: seq<array<Word>>, values: seq<Lanes>)
    reads set i | 0 <= i < |rows| :: rows[i]
  {
    |rows| == |values| && forall i :: 0 <= i < |rows| ==> rows[i].Length == 8 && Elements(rows[i][..]) == values[i]
  }

  function Constants(s: seq<Element>): (v: seq<Lanes>)
    ensures |v| == |s|
  {
    seq(|s|, i requires 0 <= i < |s| => Constant(s[i]))
  }

  function PaddedAll(s: seq<seq<Element>>, len: nat): (v: seq<Lanes>)
    requires forall i :: 0 <= i < |s| ==> len <= |s[i]|
    ensures |v| == |s|
  {
    seq(|s|, i requires 0 <= i < |s| => Padded(s[i], len))
  }

  /** The indices and the values of the shares, in bitsliced form. */
  method Collect(indices: seq<Element>, values: seq<seq<Element>>, len: nat)
    returns (xs: seq<array<Word>>, ys: seq<array<Word>>)
    requires |indices| == |values| && len <= 32 && forall i :: 0 <= i < |values| ==> len <= |values[i]|
    ensures Holds(xs, Constants(indices)) && Holds(ys, PaddedAll(values, len))
    ensures forall a :: a in xs || a in ys ==> fresh(a)
  {
    xs, ys := [], [];
    for i := 0 to |indices|
      invariant |xs| == |ys| == i
      invariant forall j :: 0 <= j < i ==>
        fresh(xs[j]) && xs[j].Length == 8 && Elements(xs[j][..]) == Constant(indices[j])
      invariant forall j :: 0 <= j < i ==>
        fresh(ys[j]) && ys[j].Length == 8 && Elements(ys[j][..]) == Padded(values[j], len)
    {
      var a := new Word[8];
      BitsliceSetAll(a, indices[i]);
      var b := new Word[8];
      Bitslice(b, values[i], len);
      xs, ys := xs + [a], ys + [b];
    }
  }

  lemma ConstantAdd(a: Element, b: Element)
    ensures AllAdd(Constant(a), Constant(b)) == Constant(Add(a, b))
  {
  }

  lemma ConstantMul(a: Element, b: Element)
    ensures AllMul(Constant(a), Constant(b)) == Constant(Mul(a, b))
  {
  }

  lemma ConstantInverse(a: Element)
    ensures AllPower(Constant(a), 254) == Constant(Inverse(a))
  {
  }

  /** tmp = a + b for rows of constants. */
  method Difference(tmp: array<Word>, a: array<Word>, b: array<Word>, ghost ea: Element, ghost eb: Element)
    requires tmp.Length == a.Length == b.Length == 8 && tmp != a && tmp != b
    requires Elements(a[..]) == Constant(ea) && Elements(b[..]) == Constant(eb)
    modifies tmp
    ensures Elements(tmp[..]) == Constant(Add(ea, eb))
  {
    Copy(a, tmp);
    ConstantAdd(ea, eb);
    GfAdd(tmp, b);
  }

  /** num is multiplied by the differences of x and every share index. */
  method Numerator(num: array<Word>, tmp: array<Word>, x: array<Word>, xs: seq<array<Word>>,
                   ghost indices: seq<Element>, ghost e: Element)
    requires num.Length == tmp.Length == x.Length == 8 && num != tmp && x != tmp && x != num && num !in xs && tmp !in xs
    requires Elements(num[..]) == Constant(ONE) && Elements(x[..]) == Constant(e) && Holds(xs, Constants(indices))
    modifies num, tmp
    ensures Elements(num[..]) == Constant(I.Others(F(), indices, -1, |indices|, e))
  {
    hide Elements, Add, Mul, AllMul, AllAdd, Constant;
    for i := 0 to |xs|
      invariant Elements(num[..]) == Constant(I.Others(F(), indices, -1, i, e))
      invariant Elements(x[..]) == Constant(e) && Holds(xs, Constants(indices))
    {
      Difference(tmp, x, xs[i], e, indices[i]);
      ConstantMul(I.Others(F(), indices, -1, i, e), Add(e, indices[i]));
      GfMul(num, num, tmp);
    }
  }

  /** denom is multiplied by the differences of share index i and the others. */
  method Denominator(denom: array<Word>, tmp: array<Word>, xs: seq<array<Word>>, i: nat,
                     ghost indices: seq<Element>, ghost start: Element)
    requires denom.Length == tmp.Length == 8 && denom != tmp && denom !in xs && tmp !in xs && i < |xs|
    requires Elements(denom[..]) == Constant(start) && Holds(xs, Constants(indices))
    modifies denom, tmp
    ensures Elements(denom[..]) == Constant(Mul(start, I.Others(F(), indices, i, |indices|, indices[i])))
  {
    hide Elements, Add, Mul, AllMul, AllAdd, Constant;
    FieldHolds();
    I.Law(F(), start, start, start);
    for j := 0 to |xs|
      invariant Elements(denom[..]) == Constant(Mul(start, I.Others(F(), indices, i, j, indices[i])))
      invariant Holds(xs, Constants(indices))
    {
      if i != j {
        ghost var o, s := I.Others(F(), indices, i, j, indices[i]), Add(indices[i], indices[j]);
        Difference(tmp, xs[i], xs[j], indices[i], indices[j]);
        ConstantMul(Mul(start, o), s);
        GfMul(denom, denom, tmp);
        I.Law(F(), start, o, s);
      }
    }
  }

  /** The bytes of the shares at one position. */
  function Column(values: seq<Lanes>, k: nat): (c: seq<Element>)
    requires k < 32
    ensures |c| == |values|
  {
    seq(|values|, i requires 0 <= i < |values| => values[i][k])
  }

  /** Lagrange's formula in every lane, over the first m shares. */
  function AllParts(indices: seq<Element>, values: seq<Lanes>, m: nat, e: Element): Lanes
    requires m <= |indices| == |values|
  {
    seq(32, k requires 0 <= k < 32 => I.Parts(F(), indices, Column(values, k), m, e))
  }

  function StartOf(indices: seq<Element>, i: nat, e: Element): Element
    requires i < |indices|
  {
    if e == indices[i] then ONE else Add(e, indices[i])
  }

  /** What share i contributes: the special case, then the scaled numerator. */
  lemma AllPartsStep(indices: seq<Element>, values: seq<Lanes>, i: nat, e: Element, d: Element, secret: Lanes,
    scaled: Lanes)
    requires i < |indices| == |values| && I.Others(F(), indices, i, |indices|, indices[i]) != ZERO
    requires d == Mul(StartOf(indices, i, e), I.Others(F(), indices, i, |indices|, indices[i]))
    requires secret == if e == indices[i] then AllAdd(AllParts(indices, values, i, e), values[i])
                       else AllParts(indices, values, i, e)
    requires scaled == AllMul(Constant(Mul(Inverse(d), I.Others(F(), indices, -1, |indices|, e))), values[i])
    ensures AllAdd(secret, scaled) == AllParts(indices, values, i + 1, e)
  {
    hide Add, Mul, Inverse, I.Others;
    FieldHolds();
    forall k | 0 <= k < 32
      ensures AllAdd(secret, scaled)[k] == AllParts(indices, values, i + 1, e)[k]
    {
      var y, sum := values[i][k], I.Parts(F(), indices, Column(values, k), i, e);
      I.ComputedPart(F(), indices, y, i, e, d);
      I.Law(F(), sum, if e == indices[i] then y else ZERO, scaled[k]);
      I.Law(F(), sum, ZERO, ZERO);
      I.Law(F(), ZERO, scaled[k], ZERO);
      I.Law(F(), scaled[k], ZERO, ZERO);
    }
  }

  lemma ZeroWords(r: seq<Word>, d: Element)
    requires |r| == 8 && Elements(r) == Constant(d)
    ensures (forall j :: 0 <= j < 8 ==> r[j] == Filled(false)) <==> d == ZERO
  {
    hide Elements;
    forall j | 0 <= j < 8
      ensures r[j] == Filled(false) <==> !Coefficients(d)[j]
    {
      FilledWord(r, d, j);
    }
    NoCoefficients(d);
  }

  lemma NoCoefficients(d: Element)
    ensures (forall j :: 0 <= j < 8 ==> !Coefficients(d)[j]) <==> d == ZERO
  {
    if forall j :: 0 <= j < 8 ==> !Coefficients(d)[j] {
      assert !Coefficients(d)[0] && !Coefficients(d)[1] && !Coefficients(d)[2] && !Coefficients(d)[3];
      assert !Coefficients(d)[4] && !Coefficients(d)[5] && !Coefficients(d)[6] && !Coefficients(d)[7];
    }
  }

  lemma FilledWord(r: seq<Word>, d: Element, j: nat)
    requires |r| == 8 && Elements(r) == Constant(d) && j < 8
    ensures r[j] == Filled(false) <==> !Coefficients(d)[j]
  {
    hide Elements;
    forall k | 0 <= k < 32
      ensures r[j][k] == Coefficients(d)[j]
    {
      CoefficientAt(r, j, k);
    }
    if Coefficients(d)[j] {
      assert r[j][0] != Filled(false)[0];
    }
  }

  /** The test for a vanishing denominator. */
  method IsZero(r: array<Word>, ghost d: Element) returns (zero: bool)
    requires r.Length == 8 && Elements(r[..]) == Constant(d)
    ensures zero <==> d == ZERO
  {
    zero := true;
    for j := 0 to 8
      invariant zero <==> forall i :: 0 <= i < j ==> r[i] == Filled(false)
    {
      zero := zero && r[j] == Filled(false);
    }
    ZeroWords(r[..], d);
  }

  /** Share i: its denominator and, unless that vanishes, its contribution to the secret. */
  method AddShare(secret: array<Word>, denom: array<Word>, tmp: array<Word>, num: array<Word>, x: array<Word>,
                  xs: seq<array<Word>>, ys: seq<array<Word>>, i: nat, indices: seq<Element>, e: Element,
                    ghost values: seq<Lanes>)
    returns (ok: bool)
    requires secret.Length == denom.Length == tmp.Length == num.Length == x.Length == 8
    requires secret != denom && secret != tmp && denom != tmp && num !in {secret, denom, tmp}
      && x !in {secret, denom, tmp}
    requires secret !in xs && denom !in xs && tmp !in xs && secret !in ys && denom !in ys && tmp !in ys
    requires i < |indices| == |values| && Holds(xs, Constants(indices)) && Holds(ys, values)
    requires Elements(x[..]) == Constant(e) && Elements(secret[..]) == AllParts(indices, values, i, e)
    requires Elements(num[..]) == Constant(I.Others(F(), indices, -1, |indices|, e))
    modifies secret, denom, tmp
    ensures ok <==> I.Others(F(), indices, i, |indices|, indices[i]) != ZERO
    ensures ok ==> Elements(secret[..]) == AllParts(indices, values, i + 1, e)
  {
    hide Elements, Add, Mul, Inverse, AllMul, AllAdd, AllPower, Constant, AllParts, I.Others;
    assert xs[i] in xs && ys[i] in ys && Constants(indices)[i] == Constant(indices[i]);
    if indices[i] != e {
      Difference(denom, x, xs[i], e, indices[i]);
    } else {
      BitsliceSetAll(denom, ONE);
      GfAdd(secret, ys[i]);
    }
    Denominator(denom, tmp, xs, i, indices, StartOf(indices, i, e));
    ghost var others := I.Others(F(), indices, i, |indices|, indices[i]);
    ghost var d := Mul(StartOf(indices, i, e), others);
    DenominatorZero(indices, i, e);
    var zero := IsZero(denom, d);
    if zero {
      return false;
    }
    ConstantInverse(d);
    GfInv(tmp, denom);
    ConstantMul(Inverse(d), I.Others(F(), indices, -1, |indices|, e));
    GfMul(tmp, tmp, num);
    GfMul(tmp, tmp, ys[i]);
    AllPartsStep(indices, values, i, e, d, Elements(secret[..]), Elements(tmp[..]));
    GfAdd(secret, tmp);
    return true;
  }

  lemma DenominatorZero(indices: seq<Element>, i: nat, e: Element)
    requires i < |indices|
    ensures var o := I.Others(F(), indices, i, |indices|, indices[i]);
            Mul(StartOf(indices, i, e), o) == ZERO <==> o == ZERO
  {
    hide Add, Mul, I.Others;
    var o, s := I.Others(F(), indices, i, |indices|, indices[i]), StartOf(indices, i, e);
    FieldHolds();
    I.EqualWhenSumZero(F(), e, indices[i]);
    I.Law(F(), s, s, s);
    I.MulZero(F(), s);
    if Mul(s, o) == ZERO {
      I.NoZeroDivisors(F(), s, o);
    }
  }

  /** The shares' bytes at position k are the values of the polynomial p at the share indices. */
  ghost predicate OnPolynomial(indices: seq<Element>, values: seq<seq<Element>>, k: nat, p: seq<Element>)
  {
    && |p| <= |indices| == |values|
    && forall i :: 0 <= i < |indices| ==> k < |values[i]| && values[i][k] == I.Eval(F(), p, indices[i])
  }

  /** The bytes of the shares at one position. */
  function BytesAt(values: seq<seq<Element>>, k: nat): (c: seq<Element>)
    requires forall i :: 0 <= i < |values| ==> k < |values[i]|
    ensures |c| == |values|
  {
    seq(|values|, i requires 0 <= i < |values| => values[i][k])
  }

  /** Lanes in use hold Lagrange's formula on the shares' bytes. */
  lemma LaneOfParts(indices: seq<Element>, values: seq<seq<Element>>, len: nat, k: nat, e: Element)
    requires |indices| == |values| && k < len <= 32 && forall i :: 0 <= i < |values| ==> len <= |values[i]|
    ensures AllParts(indices, PaddedAll(values, len), |indices|, e)[k]
         == I.Parts(F(), indices, BytesAt(values, k), |indices|, e)
  {
    assert Column(PaddedAll(values, len), k) == BytesAt(values, k);
  }

  /** With distinct indices the formula gives the value of the polynomial the shares lie on. */
  lemma PolynomialRecovered(indices: seq<Element>, values: seq<seq<Element>>, k: nat, p: seq<Element>, e: Element)
    requires OnPolynomial(indices, values, k, p) && I.Distinct(indices)
    ensures I.Parts(F(), indices, BytesAt(values, k), |indices|, e) == I.Eval(F(), p, e)
  {
    hide Add, Mul, Inverse;
    FieldHolds();
    I.LagrangeRecovers(F(), indices, BytesAt(values, k), p, e);
  }

  lemma NoParts(indices: seq<Element>, values: seq<Lanes>, e: Element)
    requires |indices| == |values|
    ensures AllParts(indices, values, 0, e) == ZEROS
  {
  }

  /** Lagrange's formula over all shares, or failure at the first share whose index is not unique. */
  method SumShares(secret: array<Word>, denom: array<Word>, tmp: array<Word>, num: array<Word>, x: array<Word>,
                   xs: seq<array<Word>>, ys: seq<array<Word>>, indices: seq<Element>, e: Element,
                     ghost values: seq<Lanes>)
    returns (ok: bool)
    requires secret.Length == denom.Length == tmp.Length == num.Length == x.Length == 8
    requires secret != denom && secret != tmp && denom != tmp && num !in {secret, denom, tmp}
      && x !in {secret, denom, tmp}
    requires secret !in xs && denom !in xs && tmp !in xs && secret !in ys && denom !in ys && tmp !in ys
    requires |indices| == |values| && Holds(xs, Constants(indices)) && Holds(ys, values)
    requires Elements(x[..]) == Constant(e) && Elements(secret[..]) == ZEROS
    requires Elements(num[..]) == Constant(I.Others(F(), indices, -1, |indices|, e))
    modifies secret, denom, tmp
    ensures ok <==> I.Distinct(indices)
    ensures ok ==> Elements(secret[..]) == AllParts(indices, values, |indices|, e)
  {
    hide Elements, Add, Mul, AllParts, Constant, I.Others;
    FieldHolds();
    I.DistinctDenominators(F(), indices);
    NoParts(indices, values, e);
    for i := 0 to |indices|
      invariant Elements(secret[..]) == AllParts(indices, values, i, e)
      invariant Elements(x[..]) == Constant(e)
        && Elements(num[..]) == Constant(I.Others(F(), indices, -1, |indices|, e))
      invariant Holds(xs, Constants(indices)) && Holds(ys, values)
      invariant forall j :: 0 <= j < i ==> I.Others(F(), indices, j, |indices|, indices[j]) != ZERO
    {
      var unique := AddShare(secret, denom, tmp, num, x, xs, ys, i, indices, e, values);
      if !unique {
        return false;
      }
    }
    ok := true;
  }

  /** The bitsliced inputs, and the initial numerator and secret. */
  method Prepare(e: Element, indices: seq<Element>, values: seq<seq<Element>>, len: nat)
    returns (x: array<Word>, num: array<Word>, secret: array<Word>, xs: seq<array<Word>>, ys: seq<array<Word>>)
    requires |indices| == |values| && len <= 32 && forall i :: 0 <= i < |values| ==> len <= |values[i]|
    ensures fresh(x) && fresh(num) && fresh(secret) && x.Length == num.Length == secret.Length == 8
    ensures x != num && x != secret && num != secret && num !in xs && num !in ys && secret !in xs && secret !in ys
    ensures Elements(x[..]) == Constant(e) && Elements(num[..]) == Constant(ONE) && Elements(secret[..]) == ZEROS
    ensures Holds(xs, Constants(indices)) && Holds(ys, PaddedAll(values, len))
    ensures forall a :: a in xs || a in ys ==> fresh(a)
  {
    hide Elements, Constant, Constants, PaddedAll;
    xs, ys := Collect(indices, values, len);
    x, num, secret := new Word[8], new Word[8], new Word[8];
    BitsliceSetAll(x, e);
    BitsliceSetAll(num, ONE);
    BitsliceSetAll(secret, ZERO);
    ZeroConstant();
  }

  /** All lanes, before the result is unsliced. */
  method SlicedSecret(e: Element, indices: seq<Element>, values: seq<seq<Element>>, len: nat)
    returns (ok: bool, secret: array<Word>)
    requires |indices| == |values| && len <= 32 && forall i :: 0 <= i < |values| ==> len <= |values[i]|
    ensures secret.Length == 8 && fresh(secret) && (ok <==> I.Distinct(indices))
    ensures ok ==> Elements(secret[..]) == AllParts(indices, PaddedAll(values, len), |indices|, e)
  {
    hide Elements, Add, Mul, AllParts, Constant, Constants, PaddedAll, I.Others;
    var denom := new Word[8];
    var tmp := new Word[8];
    var x, num, xs, ys;
    x, num, secret, xs, ys := Prepare(e, indices, values, len);
    Numerator(num, tmp, x, xs, indices, e);
    ok := SumShares(secret, denom, tmp, num, x, xs, ys, indices, e, PaddedAll(values, len));
  }

  /**
   * The value at `e` of the polynomials the shares lie on, byte by byte (shamir_interpolate). It fails exactly for
   * more than 32 bytes or repeated share indices; `e` may be a share index itself.
   */
  method ShamirInterpolate(result: array<Element>, e: Element, indices: seq<Element>, values: seq<seq<Element>>,
    len: nat)
    returns (ok: bool)
    requires |indices| == |values| && len <= result.Length
    requires forall i :: 0 <= i < |values| ==> len <= |values[i]|
    modifies result
    ensures ok <==> len <= 32 && forall i, j :: 0 <= i < j < |indices| ==> indices[i] != indices[j]
    ensures ok ==> forall k, p :: 0 <= k < len && OnPolynomial(indices, values, k, p) ==> result[k] == I.Eval(F(), p, e)
    ensures ok ==> forall k :: len <= k < result.Length ==> result[k] == old(result[k])
    ensures !ok ==> result[..] == old(result[..])
  {
    hide Elements, Add, Mul, AllParts, I.Parts, I.Eval, OnPolynomial;
    if len > MAX_LEN {
      return false;
    }
    var secret;
    ok, secret := SlicedSecret(e, indices, values, len);
    if ok {
      Unbitslice(result, secret, len);
      forall k, p | 0 <= k < len && OnPolynomial(indices, values, k, p)
        ensures result[k] == I.Eval(F(), p, e)
      {
        LaneOfParts(indices, values, len, k, e);
        PolynomialRecovered(indices, values, k, p, e);
      }
    }
  }

  lemma ZeroConstant()
    ensures Constant(ZERO) == ZEROS
  {
  }
}

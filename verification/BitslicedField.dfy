/** Thirty-two field elements at a time: arithmetic on bitsliced arrays (crypto/shamir.c). */
module BitslicedField {
  import opened Peasant
  import opened Gf256

  // ---------- Words and lanes ----------

  /** A 32-bit word, as its bits from the lowest up; the code uses bitwise operations only. */
  type Word = w: seq<bool> | |w| == 32 witness seq(32, k => false)

  /** One field element in each of the 32 lanes. */
  type Lanes = v: seq<Element> | |v| == 32 witness seq(32, k => ZERO)

  function Xor(a: Word, b: Word): Word { seq(32, k requires 0 <= k < 32 => a[k] != b[k]) }

  function And(a: Word, b: Word): Word { seq(32, k requires 0 <= k < 32 => a[k] && b[k]) }

  function Filled(bit: bool): Word { seq(32, k => bit) }

  /** The elements in a bitsliced array: word j holds the coefficients of degree j. */
  function Elements(r: seq<Word>): Lanes
    requires |r| == 8
  {
    seq(32, k requires 0 <= k < 32 => Element(r[0][k], r[1][k], r[2][k], r[3][k], r[4][k], r[5][k], r[6][k], r[7][k]))
  }

  // ---------- Addition ----------

  function AllAdd(v: Lanes, w: Lanes): Lanes { seq(32, k requires 0 <= k < 32 => Add(v[k], w[k])) }

  lemma XorAdds(r: seq<Word>, x: seq<Word>, t: seq<Word>)
    requires |r| == |x| == |t| == 8 && forall j :: 0 <= j < 8 ==> t[j] == Xor(r[j], x[j])
    ensures Elements(t) == AllAdd(Elements(r), Elements(x))
  {
  }

  /** r = r + x (gf256_add). */
  method GfAdd(r: array<Word>, x: array<Word>)
    requires r.Length == x.Length == 8
    modifies r
    ensures Elements(r[..]) == old(AllAdd(Elements(r[..]), Elements(x[..])))
  {
    ghost var rs, xs := r[..], x[..];
    for j := 0 to 8
      invariant forall i :: 0 <= i < j ==> r[i] == Xor(rs[i], xs[i])
      invariant forall i :: j <= i < 8 ==> r[i] == rs[i] && x[i] == xs[i]
    {
      r[j] := Xor(r[j], x[j]);
    }
    XorAdds(rs, xs, r[..]);
  }

  // ---------- Multiplication ----------

  /** The word that holds degree j after i reductions: the words stay in place and are renamed. */
  function Place(j: nat, i: nat): (p: nat)
    requires j < 8 && i <= 8
    ensures p < 8
  {
    if i <= j then j - i else j + 8 - i
  }

  function Renamed(a: seq<Word>, i: nat): (s: seq<Word>)
    requires |a| == 8 && i <= 8
    ensures |s| == 8
  {
    seq(8, j requires 0 <= j < 8 => a[Place(j, i)])
  }

  function AllMul(v: Lanes, w: Lanes): Lanes { seq(32, k requires 0 <= k < 32 => Mul(v[k], w[k])) }

  function AllTimesX(v: Lanes): Lanes { seq(32, k requires 0 <= k < 32 => TimesX(v[k])) }

  function Chosen(w: Element, i: nat, a: Element): Element
    requires i < 8
  {
    if Coefficients(w)[i] then a else ZERO
  }

  /** A row of the multiplication: a is added where the coefficient of degree i of the multiplier is one. */
  function RowSum(vr: Lanes, va: Lanes, vb: Lanes, i: nat): Lanes
    requires i < 8
  {
    seq(32, k requires 0 <= k < 32 => Add(vr[k], Chosen(vb[k], i, va[k])))
  }

  lemma CoefficientAt(b: seq<Word>, i: nat, k: nat)
    requires |b| == 8 && i < 8 && k < 32
    ensures Coefficients(Elements(b)[k])[i] == b[i][k]
  {
  }

  lemma RowAdds(r: seq<Word>, a: seq<Word>, b: seq<Word>, i: nat, t: seq<Word>)
    requires |r| == |a| == |b| == |t| == 8 && i < 8 && forall j :: 0 <= j < 8 ==> t[j] == Xor(r[j], And(a[j], b[i]))
    ensures Elements(t) == RowSum(Elements(r), Elements(a), Elements(b), i)
  {
    forall k | 0 <= k < 32
      ensures Elements(t)[k] == RowSum(Elements(r), Elements(a), Elements(b), i)[k]
    {
      CoefficientAt(b, i, k);
    }
  }

  /** r = r + a2 * b[i], the words of a2 renamed i times. */
  method AddRow(r: array<Word>, a2: array<Word>, b: array<Word>, i: nat)
    requires i < 8 && r != a2 && r != b && r.Length == a2.Length == b.Length == 8
    modifies r
    ensures Elements(r[..]) == RowSum(old(Elements(r[..])), Elements(Renamed(a2[..], i)), Elements(b[..]), i)
  {
    hide Xor, And, Elements, RowSum;
    ghost var rs := r[..];
    r[0] := Xor(r[0], And(a2[Place(0, i)], b[i]));
    r[1] := Xor(r[1], And(a2[Place(1, i)], b[i]));
    r[2] := Xor(r[2], And(a2[Place(2, i)], b[i]));
    r[3] := Xor(r[3], And(a2[Place(3, i)], b[i]));
    r[4] := Xor(r[4], And(a2[Place(4, i)], b[i]));
    r[5] := Xor(r[5], And(a2[Place(5, i)], b[i]));
    r[6] := Xor(r[6], And(a2[Place(6, i)], b[i]));
    r[7] := Xor(r[7], And(a2[Place(7, i)], b[i]));
    ghost var t, a, w := r[..], Renamed(a2[..], i), b[i];
    assert t[0] == Xor(rs[0], And(a[0], w)) && t[1] == Xor(rs[1], And(a[1], w));
    assert t[2] == Xor(rs[2], And(a[2], w)) && t[3] == Xor(rs[3], And(a[3], w));
    assert t[4] == Xor(rs[4], And(a[4], w)) && t[5] == Xor(rs[5], And(a[5], w));
    assert t[6] == Xor(rs[6], And(a[6], w)) && t[7] == Xor(rs[7], And(a[7], w));
    RowAdds(rs, a, b[..], i, t);
  }

  lemma Places(i: nat)
    requires i < 8
    ensures Place(0, i + 1) == Place(7, i) && forall j :: 0 <= j < 7 ==> Place(j + 1, i + 1) == Place(j, i)
    ensures forall j, m :: 0 <= j < m < 8 ==> Place(j, i) != Place(m, i)
  {
  }

  lemma ReducedWords(s: seq<Word>, t: seq<Word>)
    requires |s| == |t| == 8 && t[0] == s[7] && t[1] == Xor(s[0], s[7]) && t[2] == s[1] && t[3] == Xor(s[2], s[7])
    requires t[4] == Xor(s[3], s[7]) && t[5] == s[4] && t[6] == s[5] && t[7] == s[6]
    ensures Elements(t) == AllTimesX(Elements(s))
  {
  }

  /** a2 = a2 * x: three words change, and all are renamed once more. */
  method Reduce(a2: array<Word>, i: nat)
    requires i < 8 && a2.Length == 8
    modifies a2
    ensures Elements(Renamed(a2[..], i + 1)) == old(AllTimesX(Elements(Renamed(a2[..], i))))
  {
    ghost var s := Renamed(a2[..], i);
    Places(i);
    a2[Place(0, i)] := Xor(a2[Place(0, i)], a2[Place(7, i)]);
    a2[Place(2, i)] := Xor(a2[Place(2, i)], a2[Place(7, i)]);
    a2[Place(3, i)] := Xor(a2[Place(3, i)], a2[Place(7, i)]);
    ReducedWords(s, Renamed(a2[..], i + 1));
  }

  /** What has been added, and what the remaining rows will add. */
  function Outcome(vr: Lanes, va: Lanes, vb: Lanes, i: nat): Lanes
    requires i <= 8
  {
    seq(32, k requires 0 <= k < 32 => Add(vr[k], Terms(va[k], Coefficients(vb[k])[i..])))
  }

  /** A row and a reduction leave the outcome as it was. */
  lemma OutcomeKept(vr: Lanes, va: Lanes, vb: Lanes, i: nat)
    requires i < 8
    ensures Outcome(RowSum(vr, va, vb, i), AllTimesX(va), vb, i + 1) == Outcome(vr, va, vb, i)
  {
    forall k | 0 <= k < 32
      ensures Outcome(RowSum(vr, va, vb, i), AllTimesX(va), vb, i + 1)[k] == Outcome(vr, va, vb, i)[k]
    {
      LaneStep(vr[k], va[k], vb[k], i);
    }
  }

  lemma LaneStep(r: Element, a: Element, b: Element, i: nat)
    requires i < 8
    ensures Add(Add(r, Chosen(b, i, a)), Terms(TimesX(a), Coefficients(b)[i + 1..]))
         == Add(r, Terms(a, Coefficients(b)[i..]))
  {
    var s := Coefficients(b)[i..];
    assert s[0] == Coefficients(b)[i] && s[1..] == Coefficients(b)[i + 1..];
    AddAssociates(r, Chosen(b, i, a), Terms(TimesX(a), s[1..]));
  }

  lemma AddZero(a: Element)
    ensures Add(a, ZERO) == a && Add(ZERO, a) == a
  {
  }

  const ZEROS: Lanes := seq(32, k => ZERO)

  lemma OutcomeStart(va: Lanes, vb: Lanes)
    ensures Outcome(ZEROS, va, vb, 0) == AllMul(va, vb)
  {
    forall k | 0 <= k < 32
      ensures Outcome(ZEROS, va, vb, 0)[k] == AllMul(va, vb)[k]
    {
      assert Coefficients(vb[k])[0..] == Coefficients(vb[k]);
      AddZero(Mul(va[k], vb[k]));
    }
  }

  lemma OutcomeEnd(vr: Lanes, va: Lanes, vb: Lanes)
    ensures Outcome(vr, va, vb, 8) == vr
  {
    forall k | 0 <= k < 32
      ensures Outcome(vr, va, vb, 8)[k] == vr[k]
    {
      assert Coefficients(vb[k])[8..] == [];
      AddZero(vr[k]);
    }
  }

  lemma XorZero(w: Word)
    ensures Xor(Filled(false), w) == w
  {
  }

  /** The first row, which overwrites r. */
  method FirstRow(r: array<Word>, a2: array<Word>, b: array<Word>)
    requires r != a2 && r != b && r.Length == a2.Length == b.Length == 8
    modifies r
    ensures Elements(r[..]) == RowSum(ZEROS, Elements(a2[..]), Elements(b[..]), 0)
  {
    r[0] := And(a2[0], b[0]);
    r[1] := And(a2[1], b[0]);
    r[2] := And(a2[2], b[0]);
    r[3] := And(a2[3], b[0]);
    r[4] := And(a2[4], b[0]);
    r[5] := And(a2[5], b[0]);
    r[6] := And(a2[6], b[0]);
    r[7] := And(a2[7], b[0]);
    ghost var zeros: seq<Word> := seq(8, j => Filled(false));
    forall j | 0 <= j < 8
      ensures r[j] == Xor(zeros[j], And(a2[j], b[0]))
    {
      XorZero(And(a2[j], b[0]));
    }
    RowAdds(zeros, a2[..], b[..], 0, r[..]);
    assert Elements(zeros) == ZEROS;
  }

  method Copy(x: array<Word>, y: array<Word>)
    requires x.Length == y.Length == 8
    modifies y
    ensures y[..] == old(x[..])
  {
    for j := 0 to 8
      invariant forall i :: 0 <= i < j ==> y[i] == old(x[i])
      invariant forall i :: j <= i < 8 ==> x[i] == old(x[i])
    {
      y[j] := x[j];
    }
  }

  /** What the product will be, seen after i blocks. */
  ghost function Final(r: array<Word>, a2: array<Word>, b: array<Word>, i: nat): Lanes
    requires r.Length == a2.Length == b.Length == 8 && i <= 8
    reads r, a2, b
  {
    Outcome(Elements(r[..]), Elements(Renamed(a2[..], i)), Elements(b[..]), i)
  }

  /** One of the blocks of gf256_mul: add, then reduce. */
  method Block(r: array<Word>, a2: array<Word>, b: array<Word>, i: nat)
    requires i < 8 && r != a2 && r != b && a2 != b && r.Length == a2.Length == b.Length == 8
    modifies r, a2
    ensures Final(r, a2, b, i + 1) == old(Final(r, a2, b, i))
  {
    OutcomeKept(Elements(r[..]), Elements(Renamed(a2[..], i)), Elements(b[..]), i);
    AddRow(r, a2, b, i);
    Reduce(a2, i);
  }

  /** r = a * b; r may be a, but not b (gf256_mul, block by block). */
  method GfMul(r: array<Word>, a: array<Word>, b: array<Word>)
    requires r != b && r.Length == a.Length == b.Length == 8
    modifies r
    ensures Elements(r[..]) == old(AllMul(Elements(a[..]), Elements(b[..])))
  {
    hide AllMul, Outcome, Elements, RowSum, AllTimesX;
    ghost var va, vb := Elements(a[..]), Elements(b[..]);
    var a2 := new Word[8];
    Copy(a, a2);
    OutcomeStart(va, vb);
    OutcomeKept(ZEROS, va, vb, 0);
    FirstRow(r, a2, b);
    assert Renamed(a2[..], 0) == a2[..];
    Reduce(a2, 0);
    InnerBlocks(r, a2, b);
    LastBlock(r, a2, b);
  }

  method InnerBlocks(r: array<Word>, a2: array<Word>, b: array<Word>)
    requires r != a2 && r != b && a2 != b && r.Length == a2.Length == b.Length == 8
    modifies r, a2
    ensures Final(r, a2, b, 7) == old(Final(r, a2, b, 1))
  {
    hide Outcome, Elements, Renamed;
    Block(r, a2, b, 1);
    Block(r, a2, b, 2);
    Block(r, a2, b, 3);
    Block(r, a2, b, 4);
    Block(r, a2, b, 5);
    Block(r, a2, b, 6);
  }

  /** The last block, which needs no reduction. */
  method LastBlock(r: array<Word>, a2: array<Word>, b: array<Word>)
    requires r != a2 && r != b && r.Length == a2.Length == b.Length == 8
    modifies r
    ensures Elements(r[..]) == old(Final(r, a2, b, 7))
  {
    ghost var vr, va, vb := Elements(r[..]), Elements(Renamed(a2[..], 7)), Elements(b[..]);
    AddRow(r, a2, b, 7);
    OutcomeKept(vr, va, vb, 7);
    OutcomeEnd(RowSum(vr, va, vb, 7), AllTimesX(va), vb);
  }

  // ---------- Squaring and inverting ----------

  function AllSquared(v: Lanes): Lanes { seq(32, k requires 0 <= k < 32 => Squared(v[k])) }

  /** What the word operations of gf256_square come to. */
  lemma SquaredWords(x: seq<Word>, t: seq<Word>)
    requires |x| == |t| == 8
    requires var r10, r8 := Xor(x[5], x[7]), Xor(x[4], x[6]);
             && t[0] == Xor(x[0], r8) && t[1] == Xor(x[7], r8) && t[2] == Xor(Xor(x[1], r10), x[7])
             && t[3] == Xor(r10, r8) && t[4] == Xor(Xor(Xor(x[2], x[6]), x[7]), r8)
             && t[5] == Xor(Xor(x[6], r10), x[7]) && t[6] == Xor(Xor(x[3], x[7]), r10) && t[7] == Xor(x[7], x[6])
    ensures Elements(t) == AllSquared(Elements(x))
  {
  }

  /** r = x^2; r may be x (gf256_square). */
  method GfSquare(r: array<Word>, x: array<Word>)
    requires r.Length == x.Length == 8
    modifies r
    ensures Elements(r[..]) == old(AllSquared(Elements(x[..])))
  {
    hide Xor, Elements, AllSquared;
    ghost var s := x[..];
    var r14, r12, r10, r8 := x[7], x[6], x[5], x[4];
    r[6] := x[3];
    r[4] := x[2];
    r[2] := x[1];
    r[0] := x[0];
    r[7] := r14;
    r[6] := Xor(r[6], r14);
    r10 := Xor(r10, r14);
    r[4] := Xor(r[4], r12);
    r[5] := r12;
    r[7] := Xor(r[7], r12);
    r8 := Xor(r8, r12);
    FoldDown(r, r14, r10, r8);
    SquaredWords(s, r[..]);
  }

  /** The words of x^10, x^14 and x^8 are folded into the lower ones. */
  method FoldDown(r: array<Word>, r14: Word, r10: Word, r8: Word)
    requires r.Length == 8
    modifies r
    ensures r[0] == Xor(old(r[0]), r8) && r[1] == Xor(r14, r8) && r[2] == Xor(Xor(old(r[2]), r10), r14)
    ensures r[3] == Xor(r10, r8) && r[4] == Xor(Xor(old(r[4]), r14), r8)
    ensures r[5] == Xor(Xor(old(r[5]), r10), r14) && r[6] == Xor(old(r[6]), r10) && r[7] == old(r[7])
  {
    hide Xor;
    r[2] := Xor(r[2], r10);
    r[3] := r10;
    r[5] := Xor(r[5], r10);
    r[6] := Xor(r[6], r10);
    r[1] := r14;
    r[2] := Xor(r[2], r14);
    r[4] := Xor(r[4], r14);
    r[5] := Xor(r[5], r14);
    r[0] := Xor(r[0], r8);
    r[1] := Xor(r[1], r8);
    r[3] := Xor(r[3], r8);
    r[4] := Xor(r[4], r8);
  }

  function AllPower(v: Lanes, n: nat): Lanes { seq(32, k requires 0 <= k < 32 => Power(Polynomials(), v[k], n)) }

  lemma AllPowersMultiply(v: Lanes, m: nat, n: nat)
    ensures AllMul(AllPower(v, m), AllPower(v, n)) == AllPower(v, m + n)
  {
    hide Mul, Power;
    forall k | 0 <= k < 32
      ensures AllMul(AllPower(v, m), AllPower(v, n))[k] == AllPower(v, m + n)[k]
    {
      PowersMultiply(v[k], m, n);
    }
  }

  lemma AllPowerSquared(v: Lanes, n: nat)
    ensures AllSquared(AllPower(v, n)) == AllPower(v, 2 * n)
  {
    hide Squared, Mul, Power;
    forall k | 0 <= k < 32
      ensures AllSquared(AllPower(v, n))[k] == AllPower(v, 2 * n)[k]
    {
      PowersMultiply(v[k], n, n);
      SquaredIsMul(Power(Polynomials(), v[k], n));
    }
  }

  lemma AllPowerOne(v: Lanes)
    ensures AllPower(v, 1) == v
  {
    forall k | 0 <= k < 32
      ensures AllPower(v, 1)[k] == v[k]
    {
      FirstPower(v[k]);
    }
  }

  /** Squaring doubles the exponent. */
  method SquarePower(r: array<Word>, x: array<Word>, ghost v: Lanes, ghost n: nat)
    requires r.Length == x.Length == 8 && Elements(x[..]) == AllPower(v, n)
    modifies r
    ensures Elements(r[..]) == AllPower(v, 2 * n)
  {
    AllPowerSquared(v, n);
    GfSquare(r, x);
  }

  /** Multiplying adds the exponents. */
  method MulPowers(r: array<Word>, a: array<Word>, b: array<Word>, ghost v: Lanes, ghost m: nat, ghost n: nat)
    requires r != b && r.Length == a.Length == b.Length == 8
    requires Elements(a[..]) == AllPower(v, m) && Elements(b[..]) == AllPower(v, n)
    modifies r
    ensures Elements(r[..]) == AllPower(v, m + n)
  {
    AllPowersMultiply(v, m, n);
    GfMul(r, a, b);
  }

  /** r = x^254 by the addition chain of gf256_inv. */
  method GfInv(r: array<Word>, x: array<Word>)
    requires r != x && r.Length == x.Length == 8
    modifies r
    ensures Elements(r[..]) == AllPower(Elements(x[..]), 254)
  {
    hide Squared, Mul, AllSquared, AllMul, AllPower, Elements;
    ghost var v := Elements(x[..]);
    AllPowerOne(v);
    var y := new Word[8];
    var z := new Word[8];
    SquarePower(y, x, v, 1);
    SquarePower(y, y, v, 2);
    SquarePower(r, y, v, 4);
    MulPowers(z, r, x, v, 8, 1);
    SquarePower(r, r, v, 8);
    MulPowers(r, r, z, v, 16, 9);
    SquarePower(r, r, v, 25);
    SquarePower(z, r, v, 50);
    SquarePower(z, z, v, 100);
    MulPowers(r, r, z, v, 50, 200);
    MulPowers(r, r, y, v, 250, 4);
  }
}

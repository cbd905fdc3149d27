/** Scalar multiplication of crypto/ecdsa.c: top-down for any point, bottom-up over a table for the generator. */
module ScalarMultiply {
  import opened Arith
  import opened Limbs
  import opened Bignum
  import opened BignumDivide
  import opened Curve
  import opened CurveLaw
  import opened JacobianGroup
  import opened ScalarDigits

  /** a = k + 2^256, less the order when k is even: an odd number with the same residue modulo the order. */
  method MakeOdd(k: array<u32>, order: array<u32>, a: array<u32>) returns (nonzero: bool)
    requires IsBn(k) && IsBn(order) && a.Length == 9 && a != k && a != order
    requires V(order) % 2 == 1 && V(k) < V(order) <= TWO256
    modifies a
    ensures IsBn(a) && V(a) == V(k) + TWO256 - (if V(k) % 2 == 0 then V(order) else 0)
    ensures V(a) % 2 == 1 && 0 <= V(a) < 2 * TWO256
    ensures nonzero <==> V(k) != 0
  {
    ghost var ks, os := k[..], order[..];
    ParityOfLow(ks);
    ParityOfLow(os);
    NormBound(ks);
    var even := k[0] % 2 == 0;
    ghost var d := seq(9, j requires 0 <= j < 9 =>
      ks[j] - Masked(os[j], even) + (if j < 8 then BASE - 1 else TWO24 - 1));
    var tmp: u32 := 1;
    nonzero := false;
    for j := 0 to 8
      invariant tmp <= 7
      invariant k[..] == ks && order[..] == os
      invariant nonzero <==> Val(ks, j) != 0
      invariant forall i :: 0 <= i < j ==> a[i] < BASE
      invariant Val(a[..], j) + tmp * Pow(BASE, j) == 1 + Val(d, j)
    {
      LimbNonzero(ks, j);
      nonzero := nonzero || k[j] != 0;
      ghost var prev := tmp;
      tmp := tmp + ((BASE - 1) + k[j] - Masked(order[j], even));
      Store(a[..], j, prev, tmp, d);
      a[j] := tmp % BASE;
      tmp := tmp / BASE;
    }
    LimbNonzero(ks, 8);
    nonzero := nonzero || k[8] != 0;
    OddFinish(ks, os, even, d, a[..], tmp);
    a[8] := tmp + (TWO24 - 1) + k[8] - Masked(order[8], even);
    OddResult(V(k), V(order), V(a));
  }

  lemma OddResult(k: int, n: int, a: int)
    requires n % 2 == 1 && 0 <= k < n <= TWO256 && a == k + TWO256 - (if k % 2 == 0 then n else 0)
    ensures a % 2 == 1 && 0 <= a < 2 * TWO256
  {
  }


  lemma LimbNonzero(s: seq<int>, n: nat)
    requires Norm(s) && n < 9
    ensures Val(s, n + 1) != 0 <==> Val(s, n) != 0 || s[n] != 0
  {
    DigitsBound(s, n);
    PowPositive(BASE, n);
    MulMonotone(0, s[n], Pow(BASE, n), Pow(BASE, n));
    if s[n] >= 1 {
      MulMonotone(1, s[n], Pow(BASE, n), Pow(BASE, n));
    }
  }

  lemma NineLimbs(s: seq<int>)
    requires |s| == 9
    ensures Value(s) == Val(s, 8) + s[8] * TWO232
  {
    Powers();
  }

  lemma EightLimbs(s: seq<int>)
    requires |s| == 9 && forall j :: 0 <= j < 8 ==> 0 <= s[j] < BASE
    ensures 0 <= Val(s, 8) < TWO232
  {
    ValBound(s, 8, BASE - 1);
    Powers();
  }

  lemma LowerLimbs(ks: seq<int>, os: seq<int>, even: bool, d: seq<int>)
    requires |ks| == |os| == |d| == 9 && forall j :: 0 <= j < 8 ==> d[j] == ks[j] - Masked(os[j], even) + (BASE - 1)
    ensures Val(d, 8) == Val(ks, 8) - Masked(Val(os, 8), even) + (Pow(BASE, 8) - 1)
  {
    hide Val, Pow;
    if even {
      ValLinear(d, 8, 1, ks, -1, os, 1);
    } else {
      ValLinear(d, 8, 1, ks, 0, os, 1);
    }
  }

  lemma OddFinish(ks: seq<int>, os: seq<int>, even: bool, d: seq<int>, s: seq<int>, tmp: int)
    requires Norm(ks) && Norm(os) && |d| == |s| == 9
    requires forall j :: 0 <= j < 9 ==>
      d[j] == ks[j] - Masked(os[j], even) + (if j < 8 then BASE - 1 else TWO24 - 1)
    requires forall j :: 0 <= j < 8 ==> 0 <= s[j] < BASE
    requires 0 <= Value(ks) < Value(os) <= TWO256
    requires Val(s, 8) + tmp * Pow(BASE, 8) == 1 + Val(d, 8)
    ensures var top := tmp + (TWO24 - 1) + ks[8] - Masked(os[8], even);
            && 0 <= top < BASE
            && Value(s[8 := top]) == Value(ks) + TWO256 - Masked(Value(os), even)
  {
    var top := tmp + (TWO24 - 1) + ks[8] - Masked(os[8], even);
    hide Val, Pow, Value, Masked;
    NineLimbs(ks);
    NineLimbs(os);
    EightLimbs(s);
    assert Val(s, 8) + tmp * TWO232 == Val(ks, 8) - Masked(Val(os, 8), even) + TWO232 by {
      LowerLimbs(ks, os, even, d);
      Powers();
    }
    TopFits(Val(ks, 8), ks[8], Val(os, 8), os[8], Val(s, 8), tmp, top, even);
    assert Value(s[8 := top]) == Val(s, 8) + top * TWO232 by {
      NineLimbs(s[8 := top]);
      ValPrefix(s, s[8 := top], 8);
    }
  }

  lemma TopFits(kl: int, kt: int, ol: int, ot: int, low: int, tmp: int, top: int, even: bool)
    requires 0 <= low < TWO232 && top == tmp + (TWO24 - 1) + kt - Masked(ot, even)
    requires low + tmp * TWO232 == kl - Masked(ol, even) + TWO232
    requires 0 <= kl + kt * TWO232 < ol + ot * TWO232 <= TWO256
    ensures 0 <= top < BASE
    ensures low + top * TWO232 == kl + kt * TWO232 + TWO256 - Masked(ol + ot * TWO232, even)
  {
  }

  /** A shift by 29 * idx + sh bits, limb by limb. */
  lemma ShiftLimbs(s: seq<int>, idx: nat, sh: nat)
    requires Norm(s) && idx < 9 && sh <= 29
    ensures Pow(2, 29 * idx + sh) > 0 && Pow(2, sh) > 0
    ensures Value(s) / Pow(2, 29 * idx + sh) == s[idx] / Pow(2, sh) + Pow(2, 29 - sh) * High(s, idx + 1)
  {
    var p, q := Pow(2, 29 * idx), Pow(2, sh);
    HighIsShift(s, idx);
    PowPositive(2, 29 * idx);
    PowPositive(2, sh);
    PowAdd(2, 29 * idx, sh);
    DivDiv(Value(s), p, q);
    LimbShift(s[idx], High(s, idx + 1), sh);
  }

  lemma HighIsShift(s: seq<int>, idx: nat)
    requires Norm(s) && idx < 9
    ensures Pow(2, 29 * idx) > 0 && Value(s) / Pow(2, 29 * idx) == High(s, idx)
  {
    var p, h := Pow(2, 29 * idx), High(s, idx);
    PowPositive(2, 29 * idx);
    PowPower(2, 29, idx);
    PowerOfTwo29();
    ValHigh(s, idx);
    DigitsBound(s, idx);
    assert p * h == h * p;
    DivModUnique(Value(s), h, Val(s, idx), p);
  }

  lemma MulRotate(t: int, q: int, h: int)
    ensures t * q * h == t * h * q
  {
  }

  lemma LimbShift(limb: int, h: int, sh: nat)
    requires sh <= 29
    ensures Pow(2, sh) > 0 && (limb + BASE * h) / Pow(2, sh) == limb / Pow(2, sh) + Pow(2, 29 - sh) * h
  {
    var q, t := Pow(2, sh), Pow(2, 29 - sh);
    PowPositive(2, sh);
    PowerOfTwo29();
    PowAdd(2, 29 - sh, sh);
    assert BASE == t * q;
    assert BASE * h == t * h * q by {
      MulRotate(t, q, h);
    }
    DivAddMultiple(limb, t * h, q);
  }

  /** Five bits that lie within one limb. */
  lemma WindowWithin(s: seq<int>, idx: nat, sh: nat)
    requires Norm(s) && idx < 9 && sh <= 24
    ensures Pow(2, 29 * idx + sh) > 0 && Pow(2, sh) > 0
    ensures s[idx] / Pow(2, sh) % 32 == Value(s) / Pow(2, 29 * idx + sh) % 32
  {
    var h, t := High(s, idx + 1), Pow(2, 24 - sh);
    assert Pow(2, 29 - sh) == t * 32 by {
      PowAdd(2, 24 - sh, 5);
      assert Pow(2, 5) == 32;
    }
    ShiftLimbs(s, idx, sh);
    MulRotate(t, 32, h);
    ModAddMultiple(s[idx] / Pow(2, sh), t * h, 32);
  }

  /** Five bits that reach into the limb above. */
  lemma WindowAcross(s: seq<int>, idx: nat, sh: nat)
    requires Norm(s) && idx < 8 && 25 <= sh <= 28
    ensures Pow(2, 29 * idx + sh) > 0 && Pow(2, sh) > 0
    ensures (s[idx + 1] * Pow(2, 29 - sh) % WORD + s[idx] / Pow(2, sh)) % 32 == Value(s) / Pow(2, 29 * idx + sh) % 32
  {
    ShiftLimbs(s, idx, sh);
    var t, h2 := Pow(2, 29 - sh), High(s, idx + 2);
    assert t * High(s, idx + 1) == s[idx + 1] * t + BASE * (t * h2) by {
      assert High(s, idx + 1) == s[idx + 1] + BASE * h2;
      assert t * (s[idx + 1] + BASE * h2) == t * s[idx + 1] + t * (BASE * h2);
      assert t * (BASE * h2) == BASE * (t * h2);
    }
    AcrossMod(s[idx] / Pow(2, sh), s[idx + 1] * t, t * h2);
  }

  lemma AcrossMod(u: int, w: int, c: int)
    ensures (w % WORD + u) % 32 == (u + (w + BASE * c)) % 32
  {
    assert w == w / WORD * WORD + w % WORD;
  }

  lemma SixteenIsTwoToFour(i: nat)
    ensures Pow(16, i) == Pow(2, 4 * i)
  {
    PowPower(2, 4, i);
    assert Pow(2, 4) == 16;
  }

  /** The next lower window: moves to the limb below when five bits no longer fit. */
  method NextWindow(a: array<u32>, idx0: nat, shift0: nat, abits0: u32, i: nat)
    returns (idx: nat, shift: nat, abits: u32, bits: nat)
    requires IsBn(a) && idx0 < 9 && shift0 <= 28 && abits0 == a[idx0]
    requires 29 * idx0 + shift0 == 4 * (i + 1) && (idx0 == 8 ==> shift0 <= 20)
    ensures idx < 9 && shift <= 28 && abits == a[idx] && 29 * idx + shift == 4 * i && (idx == 8 ==> shift <= 20)
    ensures V(a) >= 0 && bits == Window(V(a), i)
  {
    NormBound(a[..]);
    SixteenIsTwoToFour(i);
    var ashift: int := shift0 - 4;
    var word: int;
    idx, abits := idx0, abits0;
    if ashift < 0 {
      word := abits * Pow(2, -ashift) % WORD;
      idx := idx - 1;
      abits := a[idx];
      ashift := ashift + 29;
      WindowAcross(a[..], idx, ashift);
      word := word + abits / Pow(2, ashift);
    } else {
      WindowWithin(a[..], idx, ashift);
      word := abits / Pow(2, ashift);
    }
    shift := ashift;
    bits := word % 32;
    assert bits == V(a) / Pow(2, 4 * i) % 32;
  }

  lemma SmallOdd(m: int, n: int)
    requires 0 < m < n
    ensures m % n != 0
  {
    DivModUnique(m, 0, m, n);
  }

  /** Entry i of the table is (2 * i + 1) * w * q. */
  ghost predicate IsTable(curve: Curve, q: Point, table: seq<(int, int)>, w: int)
  {
    forall i :: 0 <= i < |table| ==> EntryAt(table[i].0, table[i].1, curve, q, (2 * i + 1) * w)
  }

  lemma TableEntry(curve: Curve, q: Point, table: seq<(int, int)>, w: int, i: nat, e: int)
    requires IsTable(curve, q, table, w) && i < |table| && e == (2 * i + 1) * w
    ensures EntryAt(table[i].0, table[i].1, curve, q, e)
  {
  }

  /** The table of odd multiples q, 3q, ..., 15q. */
  method OddMultiples(curve: Curve, x: int, y: int, ghost q: Point, ghost n: int) returns (table: seq<(int, int)>)
    requires Base(curve, q, n) && n > 32 && EntryAt(x, y, curve, q, 1)
    ensures |table| == 8 && IsTable(curve, q, table, 1)
  {
    SmallOdd(2, n);
    var x2, y2 := DoubleEntry(x, y, curve, q, n, 1);
    table := [(x, y)];
    for i := 1 to 8
      invariant |table| == i && IsTable(curve, q, table, 1)
    {
      SmallOdd(2 * i + 1, n);
      var u, v := AddEntries(table[i - 1].0, table[i - 1].1, x2, y2, curve, q, n, 2 * i - 1, 2);
      table := table + [(u, v)];
    }
  }

  /** One round of the top-down loop: four doublings, a sign change when the signs differ, one odd multiple. */
  method Round(j: JacobianPoint, curve: Curve, flip: bool, x: int, y: int,
               ghost q: Point, ghost n: int, ghost m: int, ghost e: int, ghost next: int)
    requires Base(curve, q, n) && n > 0 && m % n != 0 && At(j, curve, q, m) && EntryAt(x, y, curve, q, e)
    requires next == e + (if flip then -(16 * m) else 16 * m) && next % n != 0
    modifies j
    ensures At(j, curve, q, next)
  {
    DoubleAt(j, curve, q, n, m);
    DoubleAt(j, curve, q, n, 2 * m);
    DoubleAt(j, curve, q, n, 2 * (2 * m));
    DoubleAt(j, curve, q, n, 2 * (2 * (2 * m)));
    NegateZAt(flip, j, curve, q, n, 2 * (2 * (2 * (2 * m))));
    AddAt(x, y, j, curve, q, n, e, if flip then -(16 * m) else 16 * m);
  }

  lemma SixteenTo64()
    ensures Pow(16, 64) == TWO256 && 16 * Pow(16, 63) == TWO256
  {
    PowAdd(16, 32, 32);
    PowAdd(16, 16, 16);
    PowAdd(16, 8, 8);
    assert Pow(16, 8) == 16 * (16 * (16 * (16 * Pow(16, 4))));
  }

  /** The scalar the recoding starts from. */
  ghost predicate Recoded(a: int, k: int, n: int)
  {
    0 < k < n && InRange(n) && n % 2 == 1 && a == k + TWO256 - (if k % 2 == 0 then n else 0)
  }

  /** Sums of upper digits are not multiples of the order: small odd numbers, and in the end k itself. */
  lemma HeldNonzero(a: nat, k: int, n: int, i: nat)
    requires Recoded(a, k, n) && a % 2 == 1 && a < 2 * TWO256 && i < 64
    ensures Held(a, i) % n != 0
  {
    SixteenTo64();
    var u := Upper(Recode(a), i);
    if i == 0 {
      DigitsSum(a);
      ModAddMultiple(k, if k % 2 == 0 then -1 else 0, n);
      SmallOdd(k, n);
    } else {
      UpperOdd(a, i);
      PowMonotone(16, 64 - i, 63);
      SmallNonzero(u, n);
    }
    NegNonzero(u, n);
  }

  lemma SmallNonzero(u: int, n: int)
    requires -n < u < n && u != 0
    ensures u % n != 0
  {
    if u > 0 {
      SmallOdd(u, n);
    } else {
      DivModUnique(u, -1, u + n, n);
    }
  }

  lemma NegNonzero(u: int, n: int)
    requires n > 0 && u % n != 0
    ensures (-u) % n != 0
  {
    if (-u) % n == 0 {
      MultipleIsZero(0, n);
      CongSub(0, 0, -u, 0, n);
    }
  }

  /** The multiple held before digit i - 1 is added: the upper digits with the sign of digit i. */
  function Held(a: nat, i: nat): int
    requires i < 64
  {
    if Window(a, i) >= 16 then Upper(Recode(a), i) else -Upper(Recode(a), i)
  }

  /** The window at the top holds all remaining bits. */
  lemma TopWindow(s: seq<int>)
    requires Norm(s) && 0 <= Value(s) < 2 * TWO256
    ensures s[8] / 0x10_0000 == Window(Value(s), 63)
  {
    SixteenTo64();
    DigitsBound(s, 8);
    Powers();
    assert Value(s) == Val(s, 8) + s[8] * TWO232;
    assert Value(s) / Pow(16, 63) == s[8] / 0x10_0000;
  }

  /** How the signed sum of digits moves on by one digit, and how it starts. */
  lemma SignedStep(a: nat, i: nat, flip: bool)
    requires i < 63 && flip == ((Window(a, i + 1) >= 16) != (Window(a, i) >= 16))
    ensures 2 * Index(Window(a, i)) + 1 + (if flip then -(16 * Held(a, i + 1)) else 16 * Held(a, i + 1)) == Held(a, i)
  {
    var d := Recode(a)[i];
    assert d == Digit(a, i);
    assert Upper(Recode(a), i) == d + 16 * Upper(Recode(a), i + 1);
  }

  lemma SignedStart(a: nat)
    ensures 2 * Index(Window(a, 63)) + 1 == Held(a, 63)
  {
    assert Upper(Recode(a), 63) == Recode(a)[63] + 16 * Upper(Recode(a), 64);
    assert Recode(a)[63] == Digit(a, 63);
  }

  /** The body of the main loop for digit i, after its window has been read. */
  method TopRound(curve: Curve, bits: nat, positive: bool, table: seq<(int, int)>, j: JacobianPoint,
                  ghost q: Point, ghost n: int, ghost k: int, ghost a: nat, ghost i: nat)
    requires Recoded(a, k, n) && a % 2 == 1 && a < 2 * TWO256 && i < 63
    requires bits == Window(a, i) && positive == (Window(a, i + 1) >= 16)
    requires Base(curve, q, n) && |table| == 8 && IsTable(curve, q, table, 1) && At(j, curve, q, Held(a, i + 1))
    modifies j
    ensures At(j, curve, q, Held(a, i))
  {
    var flip := positive != (bits >= 16);
    var entry := table[Index(bits)];
    ghost var e, m, next := 2 * Index(bits) + 1, Held(a, i + 1), Held(a, i);
    TableEntry(curve, q, table, 1, Index(bits), e);
    SignedStep(a, i, flip);
    HeldNonzero(a, k, n, i + 1);
    HeldNonzero(a, k, n, i);
    Round(j, curve, flip, entry.0, entry.1, q, n, m, e, next);
  }

  /** The main loop, from digit 63 down to digit 0, then the last sign change. */
  method TopDown(curve: Curve, a: array<u32>, table: seq<(int, int)>, z: int, ghost q: Point, ghost n: int,
    ghost k: int)
    returns (x: int, y: int)
    requires IsBn(a) && 0 <= V(a) < 2 * TWO256 && V(a) % 2 == 1 && Recoded(V(a), k, n)
    requires Base(curve, q, n) && |table| == 8 && IsTable(curve, q, table, 1) && 0 < z < curve.p
    ensures EntryAt(x, y, curve, q, k)
  {
    hide Base, At, IsTable, Recoded, EntryAt, Held, Window, Value;
    ghost var aa := V(a);
    TopWindow(a[..]);
    SignedStart(aa);
    var idx: nat, shift: nat, abits: u32 := 8, 20, a[8];
    var bits: nat := abits / 0x10_0000;
    var positive := bits >= 16;
    var entry := table[Index(bits)];
    TableEntry(curve, q, table, 1, Index(bits), 2 * Index(bits) + 1);
    var j := StartAt(entry.0, entry.1, z, curve, q, n, Held(aa, 63));
    var i := 63;
    while i > 0
      invariant 0 <= i <= 63 && IsBn(a) && V(a) == aa
      invariant idx < 9 && shift <= 28 && abits == a[idx] && 29 * idx + shift == 4 * i && (idx == 8 ==> shift <= 20)
      invariant positive == (Window(aa, i) >= 16)
      invariant fresh(j) && At(j, curve, q, Held(aa, i))
    {
      i := i - 1;
      idx, shift, abits, bits := NextWindow(a, idx, shift, abits, i);
      TopRound(curve, bits, positive, table, j, q, n, k, aa, i);
      positive := bits >= 16;
    }
    x, y := LastSign(curve, positive, j, q, n, k, aa);
  }

  method LastSign(curve: Curve, positive: bool, j: JacobianPoint, ghost q: Point, ghost n: int, ghost k: int,
    ghost a: nat)
    returns (x: int, y: int)
    requires Recoded(a, k, n) && a % 2 == 1 && a < 2 * TWO256 && positive == (Window(a, 0) >= 16)
    requires Base(curve, q, n) && At(j, curve, q, Held(a, 0))
    modifies j
    ensures EntryAt(x, y, curve, q, k)
  {
    ghost var m := Held(a, 0);
    NegateZAt(!positive, j, curve, q, n, m);
    SixteenTo64();
    DigitsSum(a);
    x, y := ToEntry(j, curve, q, n, Upper(Recode(a), 0), k);
  }

  /** res = k * q, from the highest digit down; q and res may be the same point. */
  method PointMultiply(curve: Curve, order: array<u32>, k: array<u32>, q: CurvePoint, z: int, res: CurvePoint)
    returns (status: int)
    requires IsBn(k) && IsBn(order) && 0 < z < curve.p
    requires Base(curve, q.Value(), V(order))
    modifies res
    ensures V(k) >= V(order) ==> status == 1 && res.x == old(res.x) && res.y == old(res.y)
    ensures V(k) == 0 ==> status == 1 && res.Value() == Infinity
    ensures 0 < V(k) < V(order) ==> status == 0 && EntryAt(res.x, res.y, curve, old(q.Value()), V(k))
  {
    BaseFacts(curve, q.Value(), V(order));
    NormBound(k[..]);
    var less := BnIsLess(k, order);
    if !less {
      return 1;
    }
    var a := new u32[9];
    var nonzero := MakeOdd(k, order, a);
    if !nonzero {
      res.x, res.y := 0, 0;
      return 1;
    }
    var table := OddMultiples(curve, q.x, q.y, q.Value(), V(order));
    res.x, res.y := TopDown(curve, a, table, z, q.Value(), V(order), V(k));
    return 0;
  }

  /** The precomputed table: entry (i, j) is (2 * j + 1) * 16^i * q. */
  ghost predicate IsBigTable(curve: Curve, q: Point, cp: seq<seq<(int, int)>>)
  {
    |cp| == 64 && forall i :: 0 <= i < 64 ==> |cp[i]| == 8 && IsTable(curve, q, cp[i], Pow(16, i))
  }

  /** a = a / 16, limb by limb. */
  method ShiftByFour(a: array<u32>)
    requires IsBn(a)
    modifies a
    ensures IsBn(a) && V(a) == old(V(a)) / 16
  {
    ghost var s := a[..];
    for j := 0 to 8
      invariant forall i :: j <= i < 9 ==> a[i] == s[i]
      invariant forall i :: 0 <= i < j ==> a[i] == NibbleShift(s[i], s[i + 1])
      invariant forall i :: 0 <= i < j ==> a[i] < BASE
    {
      NibbleShiftFits(a[j], a[j + 1]);
      a[j] := NibbleShift(a[j], a[j + 1]);
    }
    NibbleShiftFits(a[8], 0);
    a[8] := NibbleShift(a[8], 0);
    ShiftedByFour(s, a[..], 0);
    ValHigh(s, 0);
    ValHigh(a[..], 0);
  }

  function NibbleShift(limb: int, above: int): int { limb / 16 + above % 16 * 0x200_0000 }

  lemma NibbleShiftFits(limb: int, above: int)
    requires 0 <= limb < BASE && 0 <= above < BASE
    ensures 0 <= NibbleShift(limb, above) < BASE
  {
  }

  lemma {:induction false} ShiftedByFour(s: seq<int>, t: seq<int>, n: nat)
    requires n < |s| == |t|
    requires forall j :: n <= j < |s| - 1 ==> t[j] == NibbleShift(s[j], s[j + 1])
    requires t[|s| - 1] == NibbleShift(s[|s| - 1], 0)
    ensures High(s, n) == 16 * High(t, n) + s[n] % 16
    decreases |s| - n
  {
    if n < |s| - 1 {
      ShiftedByFour(s, t, n + 1);
    } else {
      assert High(s, n) == s[n] + BASE * High(s, n + 1);
      assert High(t, n) == t[n] + BASE * High(t, n + 1);
    }
  }

  /** The multiple held after the digits below i are in, with the sign of digit i - 1. */
  function HeldLow(a: nat, i: nat): int
    requires 0 < i <= 64
  {
    if Window(a, i - 1) >= 16 then Lower(Recode(a), i) else -Lower(Recode(a), i)
  }

  /** What is added for digit i. */
  function Addend(a: nat, i: nat): int { (2 * Index(Window(a, i)) + 1) * Pow(16, i) }

  lemma LowStart(a: nat)
    ensures Addend(a, 0) == HeldLow(a, 1)
  {
    var ds := Recode(a);
    assert ds[0] == Digit(a, 0);
    assert Lower(ds, 1) == Lower(ds, 0) + ds[0] * Pow(16, 0);
  }

  /** The lowest bit of a window is the highest bit of the one before, so parity tells the previous sign. */
  lemma LowStep(a: nat, i: nat, flip: bool)
    requires 0 < i < 64 && flip == ((Window(a, i) >= 16) != (Window(a, i) % 2 == 1))
    ensures Addend(a, i) + (if flip then -HeldLow(a, i) else HeldLow(a, i)) == HeldLow(a, i + 1)
  {
    var ds, w := Recode(a), Window(a, i);
    assert (Window(a, i - 1) >= 16) == (w % 2 == 1) by {
      ShiftFour(a, i - 1);
      DivNonnegative(a, Pow(16, i - 1));
      PreviousSign(a / Pow(16, i - 1));
    }
    var low, term := Lower(ds, i), ds[i] * Pow(16, i);
    assert Lower(ds, i + 1) == low + term;
    assert term == if w >= 16 then Addend(a, i) else -Addend(a, i) by {
      assert ds[i] == Digit(a, i);
      NegatedFactor(2 * Index(w) + 1, Pow(16, i));
    }
  }

  lemma PreviousSign(t: nat)
    ensures (t % 32 >= 16) == (t / 16 % 32 % 2 == 1)
  {
    var q, w := t / 32, t % 32;
    var high := if w >= 16 then 1 else 0;
    DivModUnique(t, 2 * q + high, w - 16 * high, 16);
    DivModUnique(2 * q + high, q, high, 2);
    ModOfFactor(2 * q + high, 16, 2);
  }

  lemma HeldLowNonzero(a: nat, k: int, n: int, i: nat)
    requires Recoded(a, k, n) && a % 2 == 1 && a < 2 * TWO256 && 0 < i <= 64
    ensures HeldLow(a, i) % n != 0
  {
    SixteenTo64();
    var ds := Recode(a);
    var u := Lower(ds, i);
    if i == 64 {
      LowerMeetsUpper(ds, 64);
      DigitsSum(a);
      ModAddMultiple(k, if k % 2 == 0 then -1 else 0, n);
      SmallOdd(k, n);
    } else {
      forall j | 0 <= j < 64
        ensures -15 <= ds[j] <= 15 && ds[j] % 2 == 1
      {
        DigitsAreOdd(a, j);
      }
      LowerOdd(ds, i);
      PowMonotone(16, i, 63);
      SmallNonzero(u, n);
    }
    NegNonzero(u, n);
  }

  /** The body of the loop of scalar_multiply for digit i. */
  method BottomRound(curve: Curve, low: nat, column: seq<(int, int)>, j: JacobianPoint,
                     ghost q: Point, ghost n: int, ghost k: int, ghost a: nat, ghost i: nat)
    requires Recoded(a, k, n) && a % 2 == 1 && a < 2 * TWO256 && 0 < i < 64 && low == Window(a, i)
    requires Base(curve, q, n) && |column| == 8 && IsTable(curve, q, column, Pow(16, i))
    requires At(j, curve, q, HeldLow(a, i))
    modifies j
    ensures At(j, curve, q, HeldLow(a, i + 1))
  {
    var flip := (low >= 16) != (low % 2 == 1);
    var entry := column[Index(low)];
    ghost var e, m, next := Addend(a, i), HeldLow(a, i), HeldLow(a, i + 1);
    ghost var signed := if flip then -m else m;
    TableEntry(curve, q, column, Pow(16, i), Index(low), e);
    LowStep(a, i, flip);
    HeldLowNonzero(a, k, n, i);
    HeldLowNonzero(a, k, n, i + 1);
    NegateYAt(flip, j, curve, q, n, m);
    AddAt(entry.0, entry.1, j, curve, q, n, e, signed);
  }

  /** The loop of scalar_multiply: digit after digit from below, the table supplying the powers of 16. */
  method BottomUp(curve: Curve, a: array<u32>, cp: seq<seq<(int, int)>>, z: int, ghost q: Point, ghost n: int,
    ghost k: int)
    returns (x: int, y: int)
    requires IsBn(a) && 0 <= V(a) < 2 * TWO256 && V(a) % 2 == 1 && Recoded(V(a), k, n)
    requires Base(curve, q, n) && IsBigTable(curve, q, cp) && 0 < z < curve.p
    modifies a
    ensures EntryAt(x, y, curve, q, k)
  {
    ghost var aa := V(a);
    assert Pow(16, 0) == 1 && aa / 1 == aa;
    LowBits(a[..]);
    var low: nat := a[0] % 32;
    LowStart(aa);
    var entry := cp[0][Index(low)];
    TableEntry(curve, q, cp[0], Pow(16, 0), Index(low), Addend(aa, 0));
    var j := StartAt(entry.0, entry.1, z, curve, q, n, HeldLow(aa, 1));
    for i := 1 to 64
      invariant IsBn(a) && Pow(16, i - 1) > 0 && V(a) == aa / Pow(16, i - 1)
      invariant fresh(j) && At(j, curve, q, HeldLow(aa, i))
    {
      ShiftByFour(a);
      ShiftFour(aa, i - 1);
      LowBits(a[..]);
      low := a[0] % 32;
      BottomRound(curve, low, cp[i], j, q, n, k, aa, i);
    }
    LowBits(a[..]);
    low := a[0] % 32;
    x, y := LastSignLow(curve, low, j, q, n, k, aa);
  }

  method LastSignLow(curve: Curve, low: nat, j: JacobianPoint, ghost q: Point, ghost n: int, ghost k: int, ghost a: nat)
    returns (x: int, y: int)
    requires Recoded(a, k, n) && a % 2 == 1 && a < 2 * TWO256 && low == Window(a, 63)
    requires Base(curve, q, n) && n > 0 && At(j, curve, q, HeldLow(a, 64))
    modifies j
    ensures EntryAt(x, y, curve, q, k)
  {
    ghost var m := HeldLow(a, 64);
    HeldLowNonzero(a, k, n, 64);
    NegateYAt(low < 16, j, curve, q, n, m);
    LowerMeetsUpper(Recode(a), 64);
    SixteenTo64();
    DigitsSum(a);
    x, y := ToEntry(j, curve, q, n, Lower(Recode(a), 64), k);
  }

  /** res = k * G over the precomputed table. */
  method ScalarMultiply(curve: Curve, order: array<u32>, k: array<u32>, cp: seq<seq<(int, int)>>, z: int,
                        ghost q: Point, res: CurvePoint)
    returns (status: int)
    requires IsBn(k) && IsBn(order) && 0 < z < curve.p
    requires Base(curve, q, V(order)) && IsBigTable(curve, q, cp)
    modifies res
    ensures V(k) >= V(order) ==> status == 1 && res.x == old(res.x) && res.y == old(res.y)
    ensures V(k) == 0 ==> status == 0 && res.Value() == Infinity
    ensures 0 < V(k) < V(order) ==> status == 0 && EntryAt(res.x, res.y, curve, q, V(k))
  {
    BaseFacts(curve, q, V(order));
    NormBound(k[..]);
    var less := BnIsLess(k, order);
    if !less {
      return 1;
    }
    var a := new u32[9];
    var nonzero := MakeOdd(k, order, a);
    if !nonzero {
      res.x, res.y := 0, 0;
      return 0;
    }
    res.x, res.y := BottomUp(curve, a, cp, z, q, V(order), V(k));
    return 0;
  }
}

/** The branch-free modular inverse of crypto/bignum.c. */
module BignumInverse {
  import opened Arith
  import opened Limbs
  import opened Bignum
  import opened BignumModular
  import opened BignumHalf
  import opened BignumDivide
  import opened InverseMath

  /** The source's ternary operator on pointers. */
  function Select(c: bool, t: array<u32>, f: array<u32>): array<u32> { if c then t else f }

  /** The values after one turn of the loop body; a finished computation keeps u and s. */
  ghost predicate TurnValues(fin: bool, t: State, u: int, v: int, r: int, s: int)
  {
    if fin then u == t.u && s == t.s
    else var t' := Turn(t); u == t'.u && v == t'.v && r == t'.r && s == t'.s
  }

  lemma NoShiftOut(x: int)
    ensures 0 <= x < TWO256 + TWO256 + TWO256 ==> 2 * x % TWO261 == 2 * x
  {
  }

  /** One turn: the flags pick the operands of four fixed operations. */
  method InverseTurn(u: array<u32>, v: array<u32>, r: array<u32>, s: array<u32>, zero: array<u32>,
                     finished: bool, ghost t: State)
    requires IsBn(u) && IsBn(v) && IsBn(r) && IsBn(s) && IsBn(zero) && V(zero) == 0
    requires u != v && u != r && u != s && v != r && v != s && r != s
    requires u != zero && v != zero && r != zero && s != zero
    requires t.u == V(u) && t.v == V(v) && t.r == V(r) && t.s == V(s)
    requires V(s) <= TWO256 && (!finished ==> V(r) <= TWO256)
    modifies u, v, r, s
    ensures IsBn(u) && IsBn(v) && IsBn(r) && IsBn(s)
    ensures TurnValues(finished, t, V(u), V(v), V(r), V(s))
  {
    NormBound(u[..]);
    NormBound(v[..]);
    NormBound(r[..]);
    NormBound(s[..]);
    var uEven := BnIsEven(u);
    var vEven := BnIsEven(v);
    var vLessU := BnIsLess(v, u);
    var b1 := !finished && uEven;
    var b2 := !finished && !b1 && vEven;
    var b3 := !finished && !b1 && !b2 && vLessU;
    var b4 := !finished && !b1 && !b2 && !b3;
    BnSubtract(Select(b3, u, v), Select(b3 || b4, Select(b3, v, u), zero), Select(b3, u, v));
    BnAdd(Select(b3, r, s), Select(b3 || b4, Select(b3, s, r), zero));
    BnRShift(Select(b1 || b3, u, v));
    NoShiftOut(V(Select(b1 || b3, s, r)));
    BnLShift(Select(b1 || b3, s, r));
  }

  lemma PowerOfTwo256()
    ensures Pow(2, 256) == TWO256
  {
    PowerOfTwo32();
    PowAdd(2, 32, 32);
    PowAdd(2, 64, 64);
    PowAdd(2, 128, 128);
  }

  /** x0 times s is 2^k modulo p, with s below p. */
  ghost predicate Almost(x0: int, s: int, k: nat, p: int)
  {
    p > 0 && (x0 * s) % p == Pow(2, k) % p && 0 < s < p && k <= 512
  }

  /** What the 522 turns keep: the invariant until v is 1, the almost inverse from then on; zero stays zero. */
  ghost predicate LoopState(x0: int, p: int, n: nat, k: nat, finished: bool, t: State)
  {
    if x0 == 0 then !finished && k == n && t.u == p && t.v == 0 && t.r == 0 && t.s == 1
    else if finished then Almost(x0, t.s, k, p)
    else Inv(x0, p, t) && t.k == k == n
  }

  lemma LoopTurn(x0: int, p: int, n: nat, k: nat, finished: bool, t: State, t': State)
    requires LoopState(x0, p, n, k, finished, t) && p % 2 == 1 && 1 < p <= TWO256
    requires var fin := finished || t.v == 1;
             TurnValues(fin, t, t'.u, t'.v, t'.r, t'.s)
             && (!fin ==> t' == Turn(t))
    ensures t.s <= TWO256 && (!(finished || t.v == 1) ==> t.r <= TWO256)
    ensures var fin := finished || t.v == 1;
            LoopState(x0, p, n + 1, if fin then k else k + 1, fin, t')
  {
    LoopBounds(x0, p, n, k, finished, t);
    if x0 != 0 && !finished {
      if t.v == 1 {
        Finished(x0, p, t);
        PowerOfTwo256();
        TurnsBounded(x0, p, t);
      } else {
        TurnKeepsInv(x0, p, t);
      }
    }
  }

  lemma LoopBounds(x0: int, p: int, n: nat, k: nat, finished: bool, t: State)
    requires LoopState(x0, p, n, k, finished, t) && 1 < p <= TWO256
    ensures t.s <= TWO256 && (!finished ==> t.r <= TWO256)
  {
    if x0 != 0 && !finished {
      InvBounds(x0, p, t);
    }
  }

  /** The fixed number of turns is enough. */
  lemma AlwaysFinishes(x0: int, p: int, k: nat, finished: bool, t: State)
    requires LoopState(x0, p, 522, k, finished, t) && p <= TWO256 && x0 != 0
    ensures finished
  {
    PowerOfTwo256();
    if !finished {
      TurnsBounded(x0, p, t);
    }
  }

  /** 522 turns on prime and a reduced x leave the almost inverse in s. */
  method InverseLoop(x: array<u32>, prime: array<u32>, r: array<u32>, s: array<u32>, ghost i0: int, ghost j0: int)
    returns (k: nat)
    requires IsBn(x) && Modulus(prime[..]) && V(prime) % 2 == 1 && V(x) < V(prime)
    requires V(x) != 0 ==> Bezout(V(prime), V(x), i0, j0)
    requires r.Length == s.Length == 9 && r != s && x != r && x != s && prime != r && prime != s
    modifies r, s
    ensures IsBn(s) && r.Length == 9 && V(s) < V(prime) && k <= 522
    ensures V(x) != 0 ==> Almost(V(x), V(s), k, V(prime))
  {
    ghost var x0, p := V(x), V(prime);
    NormBound(x[..]);
    var u := new u32[9];
    var v := new u32[9];
    var zero := new u32[9];
    BnCopy(prime, u);
    BnCopy(x, v);
    BnReadSmall(1, s);
    BnReadSmall(0, r);
    BnReadSmall(0, zero);
    k := 0;
    var finished := false;
    ghost var t := State(p, x0, 0, 1, 0, i0, j0);
    if x0 != 0 {
      InvStart(x0, p, i0, j0);
    }
    for i := 0 to 522
      invariant IsBn(u) && IsBn(v) && IsBn(r) && IsBn(s) && IsBn(zero) && V(zero) == 0
      invariant t.u == V(u) && t.v == V(v) && t.r == V(r) && t.s == V(s)
      invariant k <= i && LoopState(x0, p, i, k, finished, t)
    {
      LoopBounds(x0, p, i, k, finished, t);
      var one := BnIsOne(v);
      ghost var before, was := t, finished;
      finished := finished || one;
      InverseTurn(u, v, r, s, zero, finished, t);
      t := if finished then State(V(u), V(v), V(r), V(s), t.k, t.i, t.j) else Turn(t);
      LoopTurn(x0, p, i, k, was, before, t);
      k := if finished then k else k + 1;
    }
    if x0 != 0 {
      AlwaysFinishes(x0, p, k, finished, t);
    }
  }

  /** One conditional division: the exponent still owed drops by e when the division is kept. */
  lemma OwesLess(w: nat, e: nat, s: int, r: int, s0: int, p: int)
    requires p > 0 && (Pow(2, w) * s) % p == s0 % p && (Pow(2, e) * r) % p == s % p
    ensures (Pow(2, w + e) * r) % p == s0 % p
  {
    PowAdd(2, w, e);
    CongMul(Pow(2, w), Pow(2, w), Pow(2, e) * r, s, p);
    MulAssoc(Pow(2, w), Pow(2, e), r);
  }

  /** s = s / 2^k modulo prime, r being scratch space. */
  method DivideByPower(s: array<u32>, r: array<u32>, k: nat, prime: array<u32>)
    requires IsBn(s) && r.Length == 9 && IsBn(prime) && V(prime) % 2 == 1 && V(prime) <= TWO256
    requires r != s && s != prime && r != prime && V(s) < V(prime) && k <= 522
    modifies r, s
    ensures IsBn(s) && V(s) < V(prime)
    ensures (Pow(2, k) * V(s)) % V(prime) == old(V(s)) % V(prime)
  {
    ghost var p, s0 := V(prime), V(s);
    NormBound(s[..]);
    PowerOfTwo29();
    for i := 0 to 18
      invariant IsBn(s) && V(s) < p && prime[..] == old(prime[..])
      invariant (Pow(2, 29 * Min(i, k / 29)) * V(s)) % p == s0 % p
    {
      BnCopy(s, r);
      BnDivideBase(r, prime);
      if i < k / 29 {
        OwesLess(29 * i, 29, V(s), V(r), s0, p);
      }
      BnCmov(s, i < k / 29, r, s);
    }
    ghost var owed := 29 * (k / 29);
    for i := 0 to 29
      invariant IsBn(s) && V(s) < p && prime[..] == old(prime[..])
      invariant (Pow(2, owed + Min(i, k % 29)) * V(s)) % p == s0 % p
    {
      BnCopy(s, r);
      BnMultHalf(r, prime);
      HalfCongruent(V(r), V(s), p);
      if i < k % 29 {
        OwesLess(owed + i, 1, V(s), V(r), s0, p);
      }
      BnCmov(s, i < k % 29, r, s);
    }
  }

  lemma HalfCongruent(r: int, s: int, p: int)
    requires p > 0 && s < p && (2 * r == s || 2 * r == s + p)
    ensures (Pow(2, 1) * r) % p == s % p && r < p
  {
    ModAddMultiple(s, 1, p);
  }

  /** x = 1 / x modulo an odd prime, fully reduced; a multiple of the prime gives 0. */
  method BnInverse(x: array<u32>, prime: array<u32>)
    requires IsBn(x) && Modulus(prime[..]) && V(prime) % 2 == 1 && x != prime
    requires V(x) % V(prime) != 0 ==> Coprime(V(prime), V(x))
    modifies x
    ensures IsBn(x) && V(x) < V(prime)
    ensures old(V(x)) % V(prime) != 0 ==> (old(V(x)) * V(x)) % V(prime) == 1
    ensures old(V(x)) % V(prime) == 0 ==> V(x) == 0
  {
    ghost var p, x1 := V(prime), V(x);
    BnFastMod(x, prime);
    BnMod(x, prime);
    ghost var x0, i, j := V(x), 0, 0;
    NormBound(x[..]);
    assert x0 == x1 % p;
    if x0 != 0 {
      i, j := BezoutReduced(p, x1);
    }
    var r := new u32[9];
    var s := new u32[9];
    var k := InverseLoop(x, prime, r, s, i, j);
    ghost var s0 := V(s);
    DivideByPower(s, r, k, prime);
    if x0 != 0 {
      InverseOf(x1, x0, s0, V(s), k, p);
    }
    var isZero := BnIsZero(x);
    BnCmov(x, isZero, x, s);
  }

  lemma InverseOf(x1: int, x0: int, s0: int, s: int, k: nat, p: int)
    requires p > 1 && p % 2 == 1 && x0 == x1 % p
    requires Almost(x0, s0, k, p) && (Pow(2, k) * s) % p == s0 % p
    ensures (x1 * s) % p == 1
  {
    AlmostInverse(x0, s0, s, k, p);
    DivModUnique(x0, 0, x0, p);
    CongMul(x0, x1, s, s, p);
  }

  lemma BezoutReduced(p: int, x: int) returns (i: int, j: int)
    requires p > 0 && Coprime(p, x)
    ensures Bezout(p, x % p, i, j)
  {
    var i0, j0 :| Bezout(p, x, i0, j0);
    i, j := i0 + j0 * (x / p), j0;
    assert j0 * x == j0 * (x / p) * p + j0 * (x % p);
  }
}

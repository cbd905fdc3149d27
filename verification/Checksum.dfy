/** Checksums that feed symbols into a linear step, over any state: the algebra behind Bech32 and CashAddr. */
module Checksum {
  /** States with addition, the step, the 32 symbols as states, and a state's own symbols, highest first. */
  datatype Code<!T> = Code(has: T -> bool, add: (T, T) -> T, zero: T, step: T -> T, symbol: int -> T,
                           digit: (T, int) -> int, size: nat)

  // The laws are stated for marked triples only, so that they are used where a proof asks for them.
  predicate Mark<T>(x: T, y: T, z: T) { true }

  predicate MarkSymbols(d: int, e: int) { true }

  /** Symbol after symbol: step the state, then add the symbol. */
  function Fold<T>(c: Code<T>, x: T, vs: seq<int>): T
  {
    if vs == [] then x else c.add(c.step(Fold(c, x, vs[..|vs| - 1])), c.symbol(vs[|vs| - 1]))
  }

  function Steps<T>(c: Code<T>, x: T, n: nat): T { if n == 0 then x else c.step(Steps(c, x, n - 1)) }

  function Digits<T>(c: Code<T>, x: T): (ds: seq<int>)
    ensures |ds| == c.size
  {
    seq(c.size, i requires 0 <= i < c.size => c.digit(x, i))
  }

  predicate IsSymbol(d: int) { 0 <= d < 32 }

  ghost predicate Laws<T>(c: Code<T>, x: T, y: T, z: T)
  {
    c.has(x) && c.has(y) && c.has(z) ==>
      && c.has(c.add(x, y)) && c.has(c.step(x))
      && c.add(x, y) == c.add(y, x)
      && c.add(c.add(x, y), z) == c.add(x, c.add(y, z))
      && c.add(x, c.zero) == x
      && c.add(x, x) == c.zero
      && c.step(c.add(x, y)) == c.add(c.step(x), c.step(y))
      && (c.step(x) == c.zero ==> x == c.zero)
      && Fold(c, c.zero, Digits(c, x)) == x
      && forall i :: 0 <= i < c.size ==> IsSymbol(c.digit(x, i))
  }

  ghost predicate SymbolLaws<T>(c: Code<T>, d: int, e: int)
  {
    IsSymbol(d) && IsSymbol(e) ==> c.has(c.symbol(d)) && (c.symbol(d) == c.symbol(e) ==> d == e)
  }

  ghost predicate IsCode<T(!new)>(c: Code<T>)
  {
    && c.has(c.zero)
    && (forall x, y, z {:trigger Mark(x, y, z)} :: Mark(x, y, z) ==> Laws(c, x, y, z))
    && (forall d, e {:trigger MarkSymbols(d, e)} :: MarkSymbols(d, e) ==> SymbolLaws(c, d, e))
  }

  ghost predicate AllSymbols(vs: seq<int>) { forall i :: 0 <= i < |vs| ==> IsSymbol(vs[i]) }

  lemma Law<T(!new)>(c: Code<T>, x: T, y: T, z: T)
    requires IsCode(c)
    ensures Laws(c, x, y, z)
  {
    assert Mark(x, y, z);
  }

  lemma SymbolLaw<T(!new)>(c: Code<T>, d: int, e: int)
    requires IsCode(c) && IsSymbol(d) && IsSymbol(e)
    ensures c.has(c.symbol(d)) && (c.symbol(d) == c.symbol(e) ==> d == e)
  {
    assert MarkSymbols(d, e);
  }

  lemma {:induction false} FoldIn<T(!new)>(c: Code<T>, x: T, vs: seq<int>)
    requires IsCode(c) && c.has(x) && AllSymbols(vs)
    ensures c.has(Fold(c, x, vs))
    decreases |vs|
  {
    if vs != [] {
      var f, d := Fold(c, x, vs[..|vs| - 1]), vs[|vs| - 1];
      FoldIn(c, x, vs[..|vs| - 1]);
      SymbolLaw(c, d, d);
      Law(c, f, f, f);
      Law(c, c.step(f), c.symbol(d), f);
    }
  }

  lemma {:induction false} StepsIn<T(!new)>(c: Code<T>, x: T, n: nat)
    requires IsCode(c) && c.has(x)
    ensures c.has(Steps(c, x, n))
  {
    if n > 0 {
      StepsIn(c, x, n - 1);
      Law(c, Steps(c, x, n - 1), x, x);
    }
  }

  lemma {:induction false} FoldConcat<T>(c: Code<T>, x: T, vs: seq<int>, ws: seq<int>)
    ensures Fold(c, x, vs + ws) == Fold(c, Fold(c, x, vs), ws)
    decreases |ws|
  {
    if ws == [] {
      assert vs + ws == vs;
    } else {
      FoldConcat(c, x, vs, ws[..|ws| - 1]);
      assert (vs + ws)[..|vs + ws| - 1] == vs + ws[..|ws| - 1];
    }
  }

  /** What the starting state contributes passes through the steps alone. */
  lemma {:induction false} FoldAdds<T(!new)>(c: Code<T>, x: T, y: T, vs: seq<int>)
    requires IsCode(c) && c.has(x) && c.has(y) && AllSymbols(vs)
    ensures Fold(c, c.add(x, y), vs) == c.add(Fold(c, x, vs), Steps(c, y, |vs|))
    decreases |vs|
  {
    if vs != [] {
      var n := |vs| - 1;
      FoldAdds(c, x, y, vs[..n]);
      FoldIn(c, x, vs[..n]);
      StepsIn(c, y, n);
      SymbolLaw(c, vs[n], vs[n]);
      var f, t, s := Fold(c, x, vs[..n]), Steps(c, y, n), c.symbol(vs[n]);
      Law(c, f, t, s);
      Law(c, t, f, s);
      Law(c, c.step(f), c.step(t), s);
      Law(c, c.step(t), s, s);
      Law(c, c.step(f), s, c.step(t));
    }
  }

  /** The state whose symbols close a checksum: the steps taken on without input, plus the target. */
  function Closing<T>(c: Code<T>, x: T, target: T): T { c.add(Steps(c, x, c.size), target) }

  /** Feeding the closing symbols ends in the target. */
  lemma ClosingReachesTarget<T(!new)>(c: Code<T>, x: T, target: T)
    requires IsCode(c) && c.has(x) && c.has(target)
    ensures AllSymbols(Digits(c, Closing(c, x, target)))
    ensures Fold(c, x, Digits(c, Closing(c, x, target))) == target
  {
    var t := Steps(c, x, c.size);
    var close := c.add(t, target);
    StepsIn(c, x, c.size);
    Law(c, t, target, t);
    Law(c, close, close, close);
    Law(c, x, c.zero, x);
    Law(c, c.zero, x, x);
    FoldAdds(c, c.zero, x, Digits(c, close));
    Law(c, close, t, t);
    Law(c, t, target, t);
    Law(c, target, t, t);
    Law(c, target, t, close);
    Law(c, target, c.zero, t);
  }

  /** No other symbols end in the target. */
  lemma ClosingUnique<T(!new)>(c: Code<T>, x: T, target: T, ds: seq<int>)
    requires IsCode(c) && c.has(x) && AllSymbols(ds) && |ds| == c.size && Fold(c, x, ds) == target
    requires Digits(c, Fold(c, c.zero, ds)) == ds
    ensures ds == Digits(c, Closing(c, x, target))
  {
    var t, f := Steps(c, x, c.size), Fold(c, c.zero, ds);
    StepsIn(c, x, c.size);
    Law(c, c.zero, c.zero, c.zero);
    FoldIn(c, c.zero, ds);
    Law(c, x, c.zero, x);
    Law(c, c.zero, x, x);
    FoldAdds(c, c.zero, x, ds);
    Law(c, t, f, t);
    Law(c, f, t, t);
    Law(c, t, f, f);
    Law(c, f, c.zero, t);
    Law(c, t, t, f);
    Law(c, t, target, f);
  }

  /** The step loses nothing, so different states stay different. */
  lemma {:induction false} FoldInjective<T(!new)>(c: Code<T>, x: T, y: T, vs: seq<int>)
    requires IsCode(c) && c.has(x) && c.has(y) && x != y && AllSymbols(vs)
    ensures Fold(c, x, vs) != Fold(c, y, vs)
    decreases |vs|
  {
    if vs != [] {
      var n := |vs| - 1;
      var f, g, s := Fold(c, x, vs[..n]), Fold(c, y, vs[..n]), c.symbol(vs[n]);
      FoldInjective(c, x, y, vs[..n]);
      FoldIn(c, x, vs[..n]);
      FoldIn(c, y, vs[..n]);
      SymbolLaw(c, vs[n], vs[n]);
      StepInjective(c, f, g);
      Cancel(c, c.step(f), c.step(g), s);
    }
  }

  lemma StepInjective<T(!new)>(c: Code<T>, x: T, y: T)
    requires IsCode(c) && c.has(x) && c.has(y) && x != y
    ensures c.step(x) != c.step(y) && c.has(c.step(x)) && c.has(c.step(y))
  {
    Law(c, x, y, y);
    Law(c, y, x, x);
    Law(c, c.step(x), c.step(y), y);
    Law(c, c.step(y), c.step(y), y);
    Law(c, c.add(x, y), y, y);
    Law(c, y, y, y);
    Law(c, c.zero, y, y);
    Law(c, y, c.zero, y);
    Law(c, x, c.zero, y);
  }

  lemma Cancel<T(!new)>(c: Code<T>, x: T, y: T, s: T)
    requires IsCode(c) && c.has(x) && c.has(y) && c.has(s) && x != y
    ensures c.add(x, s) != c.add(y, s)
  {
    Law(c, x, s, s);
    Law(c, y, s, s);
    Law(c, s, s, s);
  }

  /** Different symbols lead to different states. */
  lemma SymbolsTellApart<T(!new)>(c: Code<T>, f: T, a: int, b: int)
    requires IsCode(c) && c.has(f) && IsSymbol(a) && IsSymbol(b) && a != b
    ensures var u, v := c.add(c.step(f), c.symbol(a)), c.add(c.step(f), c.symbol(b));
            c.has(u) && c.has(v) && u != v
  {
    Law(c, f, f, f);
    SymbolLaw(c, a, b);
    SymbolLaw(c, b, b);
    Law(c, c.step(f), c.symbol(a), f);
    Law(c, c.step(f), c.symbol(b), f);
    Law(c, c.symbol(a), c.step(f), f);
    Law(c, c.symbol(b), c.step(f), f);
    Cancel(c, c.symbol(a), c.symbol(b), c.step(f));
  }

  /** Changing one symbol changes the final state, whatever stands before and after it. */
  lemma OneSymbolDetected<T(!new)>(c: Code<T>, x: T, vs: seq<int>, i: nat, d: int)
    requires IsCode(c) && c.has(x) && AllSymbols(vs) && i < |vs| && IsSymbol(d) && d != vs[i]
    ensures Fold(c, x, vs) != Fold(c, x, vs[i := d])
  {
    hide IsCode;
    var head, tail, ws := vs[..i], vs[i + 1..], vs[i := d];
    var f := Fold(c, x, head);
    FoldIn(c, x, head);
    SymbolsTellApart(c, f, vs[i], d);
    FoldInjective(c, c.add(c.step(f), c.symbol(vs[i])), c.add(c.step(f), c.symbol(d)), tail);
    assert vs == (head + [vs[i]]) + tail && ws == (head + [d]) + tail;
    FoldConcat(c, x, head + [vs[i]], tail);
    FoldConcat(c, x, head + [d], tail);
    assert (head + [vs[i]])[..i] == head && (head + [d])[..i] == head;
  }
}

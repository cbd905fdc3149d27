/** Numbers read from and written to big-endian bytes (crypto/bignum.c): 29-bit limbs against 32-bit words. */
module BignumBytes {
  import opened Arith
  import opened Limbs
  import opened Bignum
  import opened ByteWords
  import opened Numerals

  // ---------- Weights ----------

  lemma Split29(i: nat)
    requires i < 8
    ensures Pow(2, 3 * i) > 0 && Pow(2, 29 - 3 * i) > 0 && Pow(2, 26 - 3 * i) > 0
    ensures Pow(2, 3 * i) * Pow(2, 29 - 3 * i) == BASE && Pow(2, 29 - 3 * i) == 8 * Pow(2, 26 - 3 * i)
    ensures Pow(2, 3 * (i + 1)) == 8 * Pow(2, 3 * i)
  {
    PowPositive(2, 3 * i);
    PowPositive(2, 29 - 3 * i);
    PowPositive(2, 26 - 3 * i);
    PowAdd(2, 3 * i, 29 - 3 * i);
    PowAdd(2, 3, 26 - 3 * i);
    PowAdd(2, 3, 3 * i);
    SmallPowers();
  }

  lemma SmallPowers()
    ensures Pow(2, 3) == 8 && Pow(2, 29) == BASE && Pow(256, 4) == WORD && Pow(2, 24) == TWO24
  {
    assert Pow(2, 8) == 256;
    PowAdd(2, 8, 8);
    PowAdd(2, 16, 8);
    PowAdd(2, 24, 5);
    assert Pow(2, 5) == 32;
  }

  /** Limb i and the three bits that word i is ahead of it weigh what i words weigh. */
  lemma WordWeight(i: nat)
    ensures Pow(2, 3 * i) * Pow(BASE, i) == Pow(256, 4 * i)
  {
    hide Pow;
    SmallPowers();
    PowPower(2, 3, i);
    PowProduct(8, BASE, i);
    PowPower(256, 4, i);
    assert 8 * BASE == WORD;
  }

  // ---------- Four bytes ----------

  lemma FourDigits(b: seq<int>)
    requires |b| == 4
    ensures Num(b, 256) == ((b[0] * 256 + b[1]) * 256 + b[2]) * 256 + b[3]
  {
    assert b[..3][..2] == b[..2] && b[..2][..1] == b[..1] && b[..1][..0] == [];
    assert Num(b[..1], 256) == b[0];
    assert Num(b[..2], 256) == b[0] * 256 + b[1];
    assert Num(b[..3], 256) == (b[0] * 256 + b[1]) * 256 + b[2];
  }

  lemma WordIsNum(b: seq<u8>)
    requires |b| == 4
    ensures Num(b, 256) == WordOf(b[0], b[1], b[2], b[3])
  {
    FourDigits(b);
  }

  /** Bytes and their words write the same number, the highest first. */
  lemma {:induction false} WordsShow(b: seq<u8>)
    requires |b| % 4 == 0
    ensures Num(b, 256) == Num(Words(b), 0x1_0000_0000)
    decreases |b|
  {
    hide WordOf, Pow, Num;
    NumNothing();
    if b != [] {
      var n := |b| - 4;
      WordsShow(b[..n]);
      WordsConcat(b[..n], b[n..]);
      assert b == b[..n] + b[n..] && Words(b[n..]) == [WordOf(b[n], b[n + 1], b[n + 2], b[n + 3])];
      NumConcat(b[..n], b[n..], 256);
      NumAppend(Words(b[..n]), Words(b[n..])[0], 0x1_0000_0000);
      WordIsNum(b[n..]);
      SmallPowers();
    }
  }

  lemma NumNothing()
    ensures Num([], 256) == Num([], 0x1_0000_0000) == 0
  {
  }

  lemma NumAppend(s: seq<int>, d: int, b: int)
    ensures Num(s + [d], b) == Num(s, b) * b + d
  {
    assert (s + [d])[..|s + [d]| - 1] == s;
  }

  // ---------- Reading ----------

  /** What one word adds: the low 29 bits are stored, and the rest is what is left of the word. */
  lemma JoinWord(temp: int, w: int, e: int, f: int)
    requires 0 <= temp < e && 0 <= w < WORD && f > 0 && e * f == BASE
    ensures 0 <= w * e % WORD && w * e % WORD + temp < WORD
    ensures (w * e % WORD + temp) % BASE == (temp + w * e) % BASE
    ensures w / f == (temp + w * e) / BASE && 0 <= w / f < 8 * e
  {
    var q, r := w / (8 * f), w % (8 * f);
    assert w * e == q * WORD + r * e by {
      assert w * e == q * (8 * f) * e + r * e;
      assert q * (8 * f) * e == q * (8 * (e * f));
    }
    assert 0 <= r * e <= WORD - e by {
      MulMonotone(r, 8 * f - 1, e, e);
      assert (8 * f - 1) * e == 8 * (e * f) - e;
    }
    DivModUnique(w * e, q, r * e, WORD);
    ModAddMultiple(r * e + temp, 8 * q, BASE);
    LeftOver(temp, w, e, f);
  }

  lemma LeftOver(temp: int, w: int, e: int, f: int)
    requires 0 <= temp < e && 0 <= w < WORD && f > 0 && e * f == BASE
    ensures w / f == (temp + w * e) / BASE && 0 <= w / f < 8 * e
  {
    var q, r := w / f, w % f;
    assert temp + w * e == q * BASE + (r * e + temp) by {
      assert w * e == q * f * e + r * e;
      assert q * f * e == q * (e * f);
    }
    MulMonotone(r + 1, f, e, e);
    MulMonotone(0, r, e, e);
    DivModUnique(temp + w * e, q, r * e + temp, BASE);
    assert 8 * e * f == 8 * (e * f);
    DivBelow(w, f, 8 * e);
    DivNonnegative(w, f);
  }

  /** After i words: the stored limbs and the bits left over make up the words read so far. */
  ghost predicate Reading(xs: seq<int>, bytes: seq<int>, i: nat, temp: int)
  {
    && |xs| == 9 && |bytes| == 32 && i <= 8 && 0 <= temp < Pow(2, 3 * i)
    && (forall j :: 0 <= j < i ==> 0 <= xs[j] < BASE)
    && Val(xs, i) + temp * Pow(BASE, i) == Num(bytes[32 - 4 * i..], 256)
  }

  /** The word shifted up, with the bits left over below it. */
  function Joined(i: nat, temp: int, w: int): int { w * Pow(2, 3 * i) % WORD + temp }

  function Rest(i: nat, w: int): int
    requires i < 8
  {
    PowPositive(2, 29 - 3 * i);
    w / Pow(2, 29 - 3 * i)
  }

  lemma WordJoins(xs: seq<int>, bytes: seq<int>, i: nat, temp: int, w: int)
    requires i < 8 && Reading(xs, bytes, i, temp) && 0 <= w < WORD
    ensures 0 <= Joined(i, temp, w) < WORD && 0 <= Rest(i, w) < WORD
    ensures Rest(i, w) < Pow(2, 3 * (i + 1)) && Joined(i, temp, w) % BASE == (temp + w * Pow(2, 3 * i)) % BASE
  {
    hide Pow;
    Split29(i);
    JoinWord(temp, w, Pow(2, 3 * i), Pow(2, 29 - 3 * i));
    DivBelow(w, Pow(2, 29 - 3 * i), WORD);
  }

  lemma ReadStep(before: seq<int>, after: seq<int>, i: nat, temp: int, w: int, bytes: seq<int>)
    requires i < 8 && Reading(before, bytes, i, temp) && 0 <= w < WORD
    requires w == Num(bytes[28 - 4 * i..32 - 4 * i], 256)
    requires after == before[i := Joined(i, temp, w) % BASE]
    ensures Reading(after, bytes, i + 1, Rest(i, w))
  {
    hide Val, Num, Pow, Joined;
    var e := Pow(2, 3 * i);
    WordJoins(before, bytes, i, temp, w);
    Split29(i);
    LeftOver(temp, w, e, Pow(2, 29 - 3 * i));
    StoreLimb(before, i, temp, temp + w * e, w * e);
    WordWeight(i);
    MulAssoc(w, e, Pow(BASE, i));
    assert bytes[28 - 4 * i..] == bytes[28 - 4 * i..32 - 4 * i] + bytes[32 - 4 * i..];
    NumConcat(bytes[28 - 4 * i..32 - 4 * i], bytes[32 - 4 * i..], 256);
  }

  lemma StartReading(xs: seq<int>, bytes: seq<int>)
    requires |xs| == 9 && |bytes| == 32
    ensures Reading(xs, bytes, 0, 0)
  {
    assert bytes[32..] == [];
  }

  lemma EndReading(xs: seq<int>, bytes: seq<int>)
    requires |xs| == 9 && Reading(xs, bytes, 8, xs[8]) && InBase(bytes, 256)
    ensures Norm(xs) && Value(xs) == Num(bytes, 256) && 0 <= Value(xs) < TWO256
  {
    hide Num, Pow;
    assert bytes[0..] == bytes;
    SmallPowers();
    NumBelow(bytes, 256);
    WordWeight(8);
    Powers();
  }

  lemma ReadingPrefix(xs: seq<int>, ys: seq<int>, bytes: seq<int>, temp: int)
    requires Reading(xs, bytes, 8, temp) && |ys| == 9 && ys[..8] == xs[..8]
    ensures Reading(ys, bytes, 8, temp)
  {
    hide Num, Pow;
    ValPrefix(xs, ys, 8);
  }

  /** A number from 32 bytes, the highest first (bn_read_be). */
  method BnReadBe(bytes: seq<u8>, x: array<u32>)
    requires |bytes| == 32 && x.Length == 9
    modifies x
    ensures IsBn(x) && V(x) == Num(bytes, 256) && 0 <= V(x) < TWO256
  {
    hide Val, Num, Pow, WordOf, Reading, Joined, Rest;
    var temp: u32 := 0;
    StartReading(x[..], bytes);
    for i := 0 to 8
      invariant Reading(x[..], bytes, i, temp)
    {
      var at := 28 - 4 * i;
      var limb := WordOf(bytes[at], bytes[at + 1], bytes[at + 2], bytes[at + 3]);
      WordIsNum(bytes[at..at + 4]);
      ghost var before := x[..];
      WordJoins(before, bytes, i, temp, limb);
      x[i] := Joined(i, temp, limb) % BASE;
      ReadStep(before, x[..], i, temp, limb, bytes);
      temp := Rest(i, limb);
    }
    ghost var before := x[..];
    x[8] := temp;
    ReadingPrefix(before, x[..], bytes, temp);
    EndReading(x[..], bytes);
  }

  // ---------- Writing ----------

  /** What is above bit 32 * i is what is above bit 32 * (i + 1), and one word. */
  lemma SplitWord(limb: int, temp: int, above: int, e: int, g: int)
    requires 0 <= limb < BASE && 0 <= temp < BASE && above >= 0 && e > 0 && g > 0 && e * (8 * g) == BASE
    ensures var w := temp * (8 * g) % WORD + limb / e;
            && 0 <= w < WORD && temp * (8 * g) % WORD >= 0 && limb / e >= 0
            && (limb + BASE * (temp + BASE * above)) / e == (temp + BASE * above) / (8 * e) * WORD + w
  {
    var top, f := temp + BASE * above, 8 * g;
    var q, r := temp / (8 * e), temp % (8 * e);
    assert temp * f == q * WORD + r * f by {
      assert temp * f == q * (8 * e) * f + r * f;
      assert q * (8 * e) * f == q * (8 * (e * f));
    }
    assert 0 <= r * f <= WORD - f by {
      MulMonotone(r, 8 * e - 1, f, f);
      assert (8 * e - 1) * f == 8 * (e * f) - f;
    }
    DivModUnique(temp * f, q, r * f, WORD);
    LimbBelow(limb, e, f);
    TopQuotient(temp, above, e, g, q, r);
    AboveBits(limb, top, e, f, q + g * above, r);
  }

  lemma LimbBelow(limb: int, e: int, f: int)
    requires 0 <= limb < BASE && e > 0 && e * f == BASE
    ensures 0 <= limb / e < f
  {
    DivNonnegative(limb, e);
    assert limb < f * e;
    DivBelow(limb, e, f);
  }

  lemma TopQuotient(temp: int, above: int, e: int, g: int, q: int, r: int)
    requires e > 0 && e * (8 * g) == BASE && q == temp / (8 * e) && r == temp % (8 * e)
    ensures (temp + BASE * above) / (8 * e) == q + g * above && temp + BASE * above == (q + g * above) * (8 * e) + r
  {
    assert BASE * above == g * above * (8 * e) by {
      assert BASE == g * (8 * e);
      assert g * (8 * e) * above == g * above * (8 * e);
    }
    DivModUnique(temp + BASE * above, q + g * above, r, 8 * e);
  }

  lemma AboveBits(limb: int, top: int, e: int, f: int, q: int, r: int)
    requires e > 0 && e * f == BASE && top == q * (8 * e) + r
    ensures (limb + BASE * top) / e == q * WORD + (r * f + limb / e)
  {
    assert BASE * top == f * top * e by {
      assert e * f * top == f * top * e;
    }
    DivModUnique(limb + BASE * top, limb / e + f * top, limb % e, e);
    assert f * top == q * WORD + r * f by {
      assert f * (q * (8 * e)) == q * (8 * (e * f));
    }
  }

  lemma WriteStep(xs: seq<int>, i: nat)
    requires Norm(xs) && i < 8 && Pow(2, 3 * i) > 0 && Pow(2, 3 * (i + 1)) > 0
    ensures var w := xs[i + 1] * Pow(2, 29 - 3 * i) % WORD + xs[i] / Pow(2, 3 * i);
            && 0 <= w < WORD && xs[i + 1] * Pow(2, 29 - 3 * i) % WORD >= 0 && xs[i] / Pow(2, 3 * i) >= 0
            && High(xs, i) / Pow(2, 3 * i) == High(xs, i + 1) / Pow(2, 3 * (i + 1)) * WORD + w
  {
    hide Pow;
    Split29(i);
    HighNonnegative(xs, i + 2);
    SplitWord(xs[i], xs[i + 1], High(xs, i + 2), Pow(2, 3 * i), Pow(2, 26 - 3 * i));
  }

  lemma StartWriting(xs: seq<int>, out: seq<int>)
    requires Norm(xs) && Value(xs) < TWO256
    ensures Pow(2, 3 * 8) > 0 && Num(out[..0], 256) == High(xs, 8) / Pow(2, 3 * 8)
  {
    TopLimbOf(xs);
    SmallPowers();
    DivModUnique(xs[8], 0, xs[8], TWO24);
    assert High(xs, 8) == xs[8] + BASE * High(xs, 9);
  }

  /** A number into 32 bytes, the highest first (bn_write_be). */
  method BnWriteBe(x: array<u32>, out: array<u8>)
    requires IsBn(x) && V(x) < TWO256 && out.Length == 32
    modifies out
    ensures Num(out[..], 256) == V(x)
  {
    hide Num, Pow, High, Value, ByteOf, WordOf;
    StartWriting(x[..], out[..]);
    var temp := x[8];
    var i := 8;
    while i > 0
      invariant 0 <= i <= 8 && temp == x[i] && Pow(2, 3 * i) > 0
      invariant Num(out[..32 - 4 * i], 256) == High(x[..], i) / Pow(2, 3 * i)
    {
      i := i - 1;
      var limb := x[i];
      Split29(i);
      WriteStep(x[..], i);
      var word: u32 := temp * Pow(2, 29 - 3 * i) % WORD + limb / Pow(2, 3 * i);
      ghost var before := out[..28 - 4 * i];
      var at := 28 - 4 * i;
      out[at], out[at + 1], out[at + 2], out[at + 3] := ByteOf(word, 0), ByteOf(word, 1), ByteOf(word, 2),
                                                       ByteOf(word, 3);
      WordAppended(before, out[..32 - 4 * i], word);
      temp := limb;
    }
    EndWriting(x[..]);
    assert out[..32] == out[..];
  }

  lemma WordAppended(before: seq<int>, after: seq<int>, w: u32)
    requires after == before + [ByteOf(w, 0), ByteOf(w, 1), ByteOf(w, 2), ByteOf(w, 3)]
    ensures Num(after, 256) == Num(before, 256) * WORD + w
  {
    hide Num, ByteOf;
    var last: seq<u8> := [ByteOf(w, 0), ByteOf(w, 1), ByteOf(w, 2), ByteOf(w, 3)];
    NumConcat(before, last, 256);
    WordIsNum(last);
    WordOfBytes(w);
    SmallPowers();
  }

  lemma EndWriting(xs: seq<int>)
    requires Norm(xs)
    ensures High(xs, 0) / Pow(2, 3 * 0) == Value(xs)
  {
    ValHigh(xs, 0);
  }

  /** Writing and reading back gives the number. */
  method WriteThenRead(x: array<u32>, bytes: array<u8>, y: array<u32>)
    requires IsBn(x) && V(x) < TWO256 && bytes.Length == 32 && y.Length == 9 && x != y
    modifies bytes, y
    ensures IsBn(y) && V(y) == V(x)
  {
    hide Num;
    BnWriteBe(x, bytes);
    BnReadBe(bytes[..], y);
  }

  /** Reading and writing back gives the bytes. */
  method ReadThenWrite(bytes: seq<u8>, x: array<u32>, out: array<u8>)
    requires |bytes| == 32 && x.Length == 9 && out.Length == 32
    modifies x, out
    ensures out[..] == bytes
  {
    hide Num;
    BnReadBe(bytes, x);
    BnWriteBe(x, out);
    DigitsUnique(out[..], bytes, 256);
  }
}

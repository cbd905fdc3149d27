/** Bytes and the 32-bit words they make, the highest byte first; exclusive or. */
module ByteWords {
  import opened Arith

  function WordOf(b0: u8, b1: u8, b2: u8, b3: u8): u32
  {
    b0 as int * 0x100_0000 + b1 as int * 0x1_0000 + b2 as int * 0x100 + b3 as int
  }

  /** Byte k of a word, the highest first. */
  function ByteOf(w: u32, k: int): u8
  {
    if k == 0 then w / 0x100_0000
    else if k == 1 then w / 0x1_0000 % 0x100
    else if k == 2 then w / 0x100 % 0x100
    else w % 0x100
  }

  lemma WordOfBytes(w: u32)
    ensures WordOf(ByteOf(w, 0), ByteOf(w, 1), ByteOf(w, 2), ByteOf(w, 3)) == w
  {
    DivDiv(w, 0x100, 0x100);
    DivDiv(w, 0x1_0000, 0x100);
    FourParts(w, w / 0x100, w / 0x1_0000, w / 0x100_0000);
  }

  lemma FourParts(w: int, w1: int, w2: int, w3: int)
    requires w1 == w / 0x100 && w2 == w1 / 0x100 && w3 == w2 / 0x100
    ensures w3 * 0x100_0000 + w2 % 0x100 * 0x1_0000 + w1 % 0x100 * 0x100 + w % 0x100 == w
  {
  }

  lemma BytesOfWord(b0: u8, b1: u8, b2: u8, b3: u8)
    ensures var w := WordOf(b0, b1, b2, b3);
            ByteOf(w, 0) == b0 && ByteOf(w, 1) == b1 && ByteOf(w, 2) == b2 && ByteOf(w, 3) == b3
  {
    var w := WordOf(b0, b1, b2, b3);
    var h2 := b0 as int * 0x100 + b1 as int;
    var h3 := b0 as int * 0x1_0000 + b1 as int * 0x100 + b2 as int;
    DivModUnique(w, h3, b3, 0x100);
    DivModUnique(h3, h2, b2, 0x100);
    DivModUnique(w, h2, b2 as int * 0x100 + b3 as int, 0x1_0000);
    DivModUnique(h2, b0, b1, 0x100);
    DivModUnique(w, b0, b1 as int * 0x1_0000 + b2 as int * 0x100 + b3 as int, 0x100_0000);
  }

  /** The words of a string of whole words. */
  function Words(b: seq<u8>): (ws: seq<u32>)
    requires |b| % 4 == 0
    ensures |ws| == |b| / 4
  {
    seq(|b| / 4, i requires 0 <= i < |b| / 4 => WordOf(b[4 * i], b[4 * i + 1], b[4 * i + 2], b[4 * i + 3]))
  }

  function Bytes(ws: seq<u32>): (b: seq<u8>)
    ensures |b| == 4 * |ws|
  {
    seq(4 * |ws|, i requires 0 <= i < 4 * |ws| => ByteOf(ws[i / 4], i % 4))
  }

  lemma WordsOfBytes(ws: seq<u32>)
    ensures Words(Bytes(ws)) == ws
  {
    hide WordOf, ByteOf;
    forall i | 0 <= i < |ws|
      ensures Words(Bytes(ws))[i] == ws[i]
    {
      WordOfBytes(ws[i]);
    }
  }

  lemma BytesOfWords(b: seq<u8>)
    requires |b| % 4 == 0
    ensures Bytes(Words(b)) == b
  {
    hide WordOf, ByteOf;
    forall i | 0 <= i < |b|
      ensures Bytes(Words(b))[i] == b[i]
    {
      var q := i / 4;
      BytesOfWord(b[4 * q], b[4 * q + 1], b[4 * q + 2], b[4 * q + 3]);
    }
  }

  lemma WordsConcat(a: seq<u8>, b: seq<u8>)
    requires |a| % 4 == 0 && |b| % 4 == 0
    ensures Words(a + b) == Words(a) + Words(b)
  {
    hide WordOf;
    forall i | 0 <= i < |a + b| / 4
      ensures Words(a + b)[i] == (Words(a) + Words(b))[i]
    {
    }
  }

  lemma BytesConcat(a: seq<u32>, b: seq<u32>)
    ensures Bytes(a + b) == Bytes(a) + Bytes(b)
  {
    hide ByteOf;
  }

  // ---------- Exclusive or ----------

  /** The exclusive or of the low n bits. */
  function XorBits(a: nat, b: nat, n: nat): nat
  {
    if n == 0 then 0 else (if a % 2 == b % 2 then 0 else 1) + 2 * XorBits(a / 2, b / 2, n - 1)
  }

  lemma {:induction false} XorBelow(a: nat, b: nat, n: nat)
    ensures XorBits(a, b, n) < Pow(2, n)
  {
    if n > 0 {
      XorBelow(a / 2, b / 2, n - 1);
    }
  }

  function Xor(a: u8, b: u8): u8
  {
    XorBelow(a, b, 8);
    assert Pow(2, 8) == 256 by {
      assert Pow(2, 8) == 2 * (2 * (2 * (2 * Pow(2, 4))));
    }
    XorBits(a, b, 8)
  }

  /** Bit k says whether the bits k differ. */
  lemma {:induction false} XorBit(a: nat, b: nat, n: nat, k: nat)
    requires k < n
    ensures Pow(2, k) > 0 && XorBits(a, b, n) / Pow(2, k) % 2 == (a / Pow(2, k) + b / Pow(2, k)) % 2
  {
    hide Pow, XorBits;
    LowestBit(a, b, n);
    PowPositive(2, k);
    if k > 0 {
      XorBit(a / 2, b / 2, n - 1, k - 1);
      BitAbove(a, k);
      BitAbove(b, k);
      BitAbove(XorBits(a, b, n), k);
    } else {
      NoPower(a, b, XorBits(a, b, n));
    }
  }

  lemma LowestBit(a: nat, b: nat, n: nat)
    requires n > 0
    ensures XorBits(a, b, n) % 2 == (a + b) % 2 && XorBits(a, b, n) / 2 == XorBits(a / 2, b / 2, n - 1)
  {
  }

  lemma BitAbove(x: nat, k: nat)
    requires k > 0
    ensures Pow(2, k - 1) > 0 && Pow(2, k) > 0 && x / Pow(2, k) == x / 2 / Pow(2, k - 1)
  {
    PowPositive(2, k - 1);
    DivDiv(x, 2, Pow(2, k - 1));
  }

  lemma NoPower(a: nat, b: nat, x: nat)
    requires x % 2 == (a + b) % 2
    ensures Pow(2, 0) > 0 && x / Pow(2, 0) % 2 == (a / Pow(2, 0) + b / Pow(2, 0)) % 2
  {
    assert Pow(2, 0) == 1;
  }

  /** The exclusive or of two bytes is a byte whose bits are those sums without carry. */
  lemma XorIsBitwise(a: u8, b: u8, k: nat)
    requires k < 8
    ensures Pow(2, k) > 0 && Xor(a, b) / Pow(2, k) % 2 == (a / Pow(2, k) + b / Pow(2, k)) % 2
  {
    XorBit(a, b, 8, k);
  }

  lemma {:induction false} XorBitsTwice(a: nat, b: nat, n: nat)
    requires a < Pow(2, n)
    ensures XorBits(XorBits(a, b, n), b, n) == a
  {
    if n > 0 {
      XorBitsTwice(a / 2, b / 2, n - 1);
    }
  }

  lemma XorTwice(a: u8, b: u8)
    ensures Xor(Xor(a, b), b) == a
  {
    assert Pow(2, 8) == 256 by {
      assert Pow(2, 8) == 2 * (2 * (2 * (2 * Pow(2, 4))));
    }
    XorBitsTwice(a, b, 8);
  }

  lemma {:induction false} XorBitsZero(b: nat, n: nat)
    requires b < Pow(2, n)
    ensures XorBits(0, b, n) == b
  {
    if n > 0 {
      XorBitsZero(b / 2, n - 1);
    }
  }

  lemma XorZero(b: u8)
    ensures Xor(0, b) == b
  {
    assert Pow(2, 8) == 256 by {
      assert Pow(2, 8) == 2 * (2 * (2 * (2 * Pow(2, 4))));
    }
    XorBitsZero(b, 8);
  }

  /** Words are combined byte by byte. */
  function XorWord(a: u32, b: u32): u32
  {
    WordOf(Xor(ByteOf(a, 0), ByteOf(b, 0)), Xor(ByteOf(a, 1), ByteOf(b, 1)), Xor(ByteOf(a, 2), ByteOf(b, 2)),
      Xor(ByteOf(a, 3), ByteOf(b, 3)))
  }

  lemma XorWordTwice(a: u32, b: u32)
    ensures XorWord(XorWord(a, b), b) == a
  {
    hide Xor, WordOf, ByteOf;
    BytesOfWord(Xor(ByteOf(a, 0), ByteOf(b, 0)), Xor(ByteOf(a, 1), ByteOf(b, 1)), Xor(ByteOf(a, 2), ByteOf(b, 2)),
      Xor(ByteOf(a, 3), ByteOf(b, 3)));
    XorTwice(ByteOf(a, 0), ByteOf(b, 0));
    XorTwice(ByteOf(a, 1), ByteOf(b, 1));
    XorTwice(ByteOf(a, 2), ByteOf(b, 2));
    XorTwice(ByteOf(a, 3), ByteOf(b, 3));
    WordOfBytes(a);
  }

  /** Every byte combined with the same byte. */
  function Mask(s: seq<u8>, pad: u8): (t: seq<u8>)
    ensures |t| == |s|
  {
    seq(|s|, i requires 0 <= i < |s| => Xor(s[i], pad))
  }

  function MaskWords(ws: seq<u32>, pad: u32): (vs: seq<u32>)
    ensures |vs| == |ws|
  {
    seq(|ws|, i requires 0 <= i < |ws| => XorWord(ws[i], pad))
  }

  /** Masking words with a repeated byte masks their bytes. */
  lemma MaskedWords(s: seq<u8>, pad: u8)
    requires |s| % 4 == 0
    ensures Words(Mask(s, pad)) == MaskWords(Words(s), WordOf(pad, pad, pad, pad))
  {
    hide Xor, WordOf, ByteOf;
    forall i | 0 <= i < |s| / 4
      ensures Words(Mask(s, pad))[i] == XorWord(Words(s)[i], WordOf(pad, pad, pad, pad))
    {
      BytesOfWord(s[4 * i], s[4 * i + 1], s[4 * i + 2], s[4 * i + 3]);
      BytesOfWord(pad, pad, pad, pad);
    }
  }

  /** Masking twice with the same word changes nothing. */
  lemma MaskedTwice(ws: seq<u32>, pad: u32)
    ensures MaskWords(MaskWords(ws, pad), pad) == ws
  {
    hide XorWord;
    forall i | 0 <= i < |ws|
      ensures XorWord(XorWord(ws[i], pad), pad) == ws[i]
    {
      XorWordTwice(ws[i], pad);
    }
  }

  function Combine(a: seq<u8>, b: seq<u8>): (c: seq<u8>)
    requires |a| == |b|
    ensures |c| == |a|
  {
    seq(|a|, i requires 0 <= i < |a| => Xor(a[i], b[i]))
  }

  function CombineWords(a: seq<u32>, b: seq<u32>): (c: seq<u32>)
    requires |a| == |b|
    ensures |c| == |a|
  {
    seq(|a|, i requires 0 <= i < |a| => XorWord(a[i], b[i]))
  }

  lemma CombinedBytes(a: seq<u32>, b: seq<u32>)
    requires |a| == |b|
    ensures Bytes(CombineWords(a, b)) == Combine(Bytes(a), Bytes(b))
  {
    hide Xor, WordOf, ByteOf;
    forall i | 0 <= i < 4 * |a|
      ensures ByteOf(XorWord(a[i / 4], b[i / 4]), i % 4) == Xor(ByteOf(a[i / 4], i % 4), ByteOf(b[i / 4], i % 4))
    {
      XorWordBytes(a[i / 4], b[i / 4], i % 4);
    }
  }

  lemma XorWordBytes(a: u32, b: u32, k: int)
    requires 0 <= k < 4
    ensures ByteOf(XorWord(a, b), k) == Xor(ByteOf(a, k), ByteOf(b, k))
  {
    hide Xor, WordOf, ByteOf;
    BytesOfWord(Xor(ByteOf(a, 0), ByteOf(b, 0)), Xor(ByteOf(a, 1), ByteOf(b, 1)), Xor(ByteOf(a, 2), ByteOf(b, 2)),
      Xor(ByteOf(a, 3), ByteOf(b, 3)));
  }

  function Zeros(n: nat): (s: seq<u8>)
    ensures |s| == n
  {
    seq(n, i => 0)
  }
}

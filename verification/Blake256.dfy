/** BLAKE-256 fed in pieces (crypto/blake256.c), over any compression function. */
module Blake256 {
  import opened Arith
  import opened ByteWords

  type State = s: seq<u32> | |s| == 8 witness [0, 0, 0, 0, 0, 0, 0, 0]

  const TWO32: int := 0x1_0000_0000
  const TWO64: int := 0x1_0000_0000_0000_0000

  /**
   * The initial value and the compression function (blake256_compress), which takes the state, a block of 64
   * bytes and the counter; a set nullt flag leaves the counter out, which is the same as a counter of zero.
   */
  datatype Blake = Blake(iv: State, compress: (State, seq<u8>, int) -> State)

  // ---------- Section 2.1 of the BLAKE submission ----------

  function LengthField(bits: int): (b: seq<u8>)
    requires bits >= 0
    ensures |b| == 8
  {
    Bytes([bits / TWO32 % TWO32, bits % TWO32])
  }

  /** What stands between the message and the length: a one bit, zeros, and a one bit at the end. */
  function Pad(n: nat): (p: seq<u8>)
    ensures (n + |p|) % 64 == 56
  {
    if n % 64 == 55 then [0x81] else [0x80] + Zeros((118 - n % 64) % 64) + [0x01]
  }

  lemma WholePadding(n: nat, k: nat)
    requires (n + k) % 64 == 56
    ensures (n + k + 8) % 64 == 0
  {
  }

  function Padded(m: seq<u8>): (p: seq<u8>)
    ensures |p| % 64 == 0 && m <= p
  {
    WholePadding(|m|, |Pad(|m|)|);
    m + Pad(|m|) + LengthField(8 * |m|)
  }

  /** The counter for block i: the message bits up to its end, or zero when it holds none. */
  function Count(n: nat, i: nat): int { if 64 * i < n then Min(8 * n, 512 * (i + 1)) % TWO64 else 0 }

  /** The chain value after i blocks of p, which pads a message of n bytes. */
  function Folded(f: Blake, p: seq<u8>, n: nat, i: nat): State
    requires 64 * i <= |p|
  {
    if i == 0 then f.iv else f.compress(Folded(f, p, n, i - 1), p[64 * (i - 1)..64 * i], Count(n, i - 1))
  }

  function Hash(f: Blake, m: seq<u8>): seq<u8> { Bytes(Folded(f, Padded(m), |m|, |Padded(m)| / 64)) }

  /** As few blocks as hold the message, nine more bytes, and a whole number of them. */
  lemma PaddedLength(m: seq<u8>)
    ensures |Padded(m)| == 64 * ((|m| + 72) / 64)
  {
    hide LengthField, Zeros;
    var q, r := |m| / 64, |m| % 64;
    DivModUnique(|m| + 72, if r < 56 then q + 1 else q + 2, if r < 56 then r + 8 else r - 56, 64);
  }

  /** The message, a one bit, zeros, a one bit, and the number of message bits in two words. */
  lemma PaddedBytes(m: seq<u8>, j: nat)
    requires |m| <= j < |Padded(m)|
    ensures var p, end := Padded(m), |Padded(m)| - 9;
            && p[..|m|] == m && |m| <= end
            && (j <= end ==> p[j] == (if j == |m| then 0x80 else 0) + (if j == end then 0x01 else 0))
            && Words(p[end + 1..]) == [8 * |m| / 0x1_0000_0000 % 0x1_0000_0000, 8 * |m| % 0x1_0000_0000]
  {
    hide LengthField;
    var pad, length := Pad(|m|), LengthField(8 * |m|);
    assert Padded(m)[|Padded(m)| - 8..] == length;
    LengthWords(8 * |m|);
    assert Padded(m)[..|m|] == m;
    if j < |Padded(m)| - 8 {
      assert Padded(m)[j] == pad[j - |m|];
    }
  }

  lemma LengthWords(bits: nat)
    ensures Words(LengthField(bits)) == [bits / 0x1_0000_0000 % 0x1_0000_0000, bits % 0x1_0000_0000]
  {
    WordsOfBytes([bits / TWO32 % TWO32, bits % TWO32]);
  }

  lemma {:induction false} FoldedIsChain(f: Blake, p: seq<u8>, n: nat, i: nat) returns (hs: seq<State>)
    requires 64 * i <= |p|
    ensures |hs| == i + 1 && hs[0] == f.iv && hs[i] == Folded(f, p, n, i)
    ensures forall j :: 0 < j <= i ==> hs[j] == f.compress(hs[j - 1], p[64 * j - 64..64 * j], Count(n, j - 1))
  {
    hide Count;
    if i == 0 {
      hs := [f.iv];
    } else {
      var before := FoldedIsChain(f, p, n, i - 1);
      hs := before + [Folded(f, p, n, i)];
      forall j | 0 < j <= i
        ensures hs[j] == f.compress(hs[j - 1], p[64 * j - 64..64 * j], Count(n, j - 1))
      {
        if j < i {
          assert hs[j] == before[j] && hs[j - 1] == before[j - 1];
        }
      }
    }
  }

  lemma CountIs(n: nat, j: nat)
    requires j > 0
    ensures Count(n, j - 1)
         == (if 64 * j <= n then 512 * j else if 64 * j < n + 64 then 8 * n else 0) % 0x1_0000_0000_0000_0000
  {
  }

  /**
   * The hash is the last of a chain of states, from the initial value over every block of the padded message. Block j
   * is compressed with the number of message bits up to its end, or with zero when it holds none of them.
   */
  lemma HashIsChain(f: Blake, m: seq<u8>) returns (hs: seq<State>)
    ensures |hs| == (|m| + 72) / 64 + 1 && hs[0] == f.iv && Hash(f, m) == Bytes(hs[|hs| - 1])
    ensures |Padded(m)| == 64 * (|hs| - 1)
    ensures forall j :: 0 < j < |hs| ==>
      hs[j] == f.compress(hs[j - 1], Padded(m)[64 * j - 64..64 * j],
        (if 64 * j <= |m| then 512 * j else if 64 * j < |m| + 64 then 8 * |m| else 0) % 0x1_0000_0000_0000_0000)
  {
    hide Padded, Count, Bytes;
    PaddedLength(m);
    hs := FoldedIsChain(f, Padded(m), |m|, (|m| + 72) / 64);
    forall j | 0 < j < |hs|
      ensures hs[j] == f.compress(hs[j - 1], Padded(m)[64 * j - 64..64 * j],
        (if 64 * j <= |m| then 512 * j else if 64 * j < |m| + 64 then 8 * |m| else 0) % 0x1_0000_0000_0000_0000)
    {
      CountIs(|m|, j);
    }
  }

  /** A message that fits one block with its padding takes one compression. */
  lemma ShortHash(f: Blake, m: seq<u8>)
    requires |m| < 56
    ensures |Padded(m)| == 64 && Hash(f, m) == Bytes(f.compress(f.iv, Padded(m), 8 * |m|))
  {
    hide Padded, Bytes, Folded;
    var hs := HashIsChain(f, m);
    assert Padded(m)[64 * 1 - 64..64 * 1] == Padded(m) && hs[1 - 1] == f.iv;
  }

  // ---------- The chain value and the 32-bit halves of the counter ----------

  datatype Chain = Chain(h: State, t0: u32, t1: u32)

  /** t[0] += 512; if (t[0] == 0) t[1]++ */
  function Tick(c: Chain): Chain
  {
    var t0 := (c.t0 as int + 512) % TWO32;
    Chain(c.h, t0, if t0 == 0 then (c.t1 as int + 1) % TWO32 else c.t1)
  }

  function Compressed(f: Blake, c: Chain, nullt: bool, block: seq<u8>): Chain
  {
    var d := Tick(c);
    Chain(f.compress(d.h, block, if nullt then 0 else d.t1 as int * TWO32 + d.t0 as int), d.t0, d.t1)
  }

  /** Block after block. */
  function Run(f: Blake, c: Chain, nullt: bool, m: seq<u8>): Chain
    decreases |m|
  {
    if |m| < 64 then c else Compressed(f, Run(f, c, nullt, m[..|m| - 64]), nullt, m[|m| - 64..])
  }

  /** The counter as a number of bits. */
  function T0(n: nat): u32 { n % TWO32 }

  function T1(n: nat): u32 { n / TWO32 % TWO32 }

  lemma Halves(n: nat)
    ensures T1(n) as int * TWO32 + T0(n) as int == n % TWO64
  {
    var q := n / TWO32;
    assert n == q * TWO32 + n % TWO32;
    assert q == q / TWO32 * TWO32 + q % TWO32;
    DivModUnique(n, q / TWO32, q % TWO32 * TWO32 + n % TWO32, TWO64);
  }

  /** Going on by d bits within a block carries nothing into the upper half. */
  lemma HalvesWithin(n: nat, d: nat)
    requires n % 512 == 0 && d < 512
    ensures T0(n + d) == T0(n) as int + d && T1(n + d) == T1(n)
  {
    var q, r := n / TWO32, n % TWO32;
    assert r % 512 == 0 by {
      ModOfFactor(n, 0x80_0000, 512);
    }
    assert r + d < TWO32;
    DivModUnique(n + d, q, r + d, TWO32);
  }

  lemma HalvesNext(n: nat)
    requires n % 512 == 0
    ensures (T0(n) as int + 512) % TWO32 == T0(n + 512)
    ensures T1(n + 512) == if T0(n + 512) == 0 then (T1(n) as int + 1) % TWO32 else T1(n)
  {
    var q, r := n / TWO32, n % TWO32;
    assert r % 512 == 0 by {
      ModOfFactor(n, 0x80_0000, 512);
    }
    if r + 512 < TWO32 {
      DivModUnique(n + 512, q, r + 512, TWO32);
    } else {
      assert r + 512 == TWO32;
      DivModUnique(n + 512, q + 1, 0, TWO32);
      CongAdd(q % TWO32, q, 1, 1, TWO32);
    }
  }

  lemma TickCounts(h: State, n: nat)
    requires n % 512 == 0
    ensures Tick(Chain(h, T0(n), T1(n))) == Chain(h, T0(n + 512), T1(n + 512))
  {
    hide T0, T1;
    HalvesNext(n);
  }

  /** Over the whole blocks of a message, the counter is the number of bits so far. */
  lemma {:induction false} RunOverMessage(f: Blake, p: seq<u8>, n: nat, i: nat)
    requires 64 * i <= n <= |p|
    ensures Run(f, Chain(f.iv, 0, 0), false, p[..64 * i]) == Chain(Folded(f, p, n, i), T0(512 * i), T1(512 * i))
  {
    hide T0, T1, Count;
    if i > 0 {
      var m, k := p[..64 * i], 64 * (i - 1);
      RunOverMessage(f, p, n, i - 1);
      assert m[..|m| - 64] == p[..k] && m[|m| - 64..] == p[k..64 * i];
      TickCounts(Folded(f, p, n, i - 1), 512 * (i - 1));
      CountWithin(n, i - 1);
    } else {
      assert p[..0] == [];
      NoBits();
    }
  }

  lemma NoBits()
    ensures T0(0) == 0 == T1(0)
  {
  }

  /** A whole block of the message. */
  lemma CountWithin(n: nat, i: nat)
    requires 64 * (i + 1) <= n
    ensures Count(n, i) == T1(512 * (i + 1)) as int * TWO32 + T0(512 * (i + 1)) as int
  {
    Halves(512 * (i + 1));
  }

  lemma {:induction false} RunConcat(f: Blake, c: Chain, nullt: bool, a: seq<u8>, i: nat, b: seq<u8>, j: nat)
    requires |a| == 64 * i && |b| == 64 * j
    ensures Run(f, c, nullt, a + b) == Run(f, Run(f, c, nullt, a), nullt, b)
    decreases j
  {
    if j == 0 {
      assert a + b == a;
    } else {
      var n := 64 * (j - 1);
      RunConcat(f, c, nullt, a, i, b[..n], j - 1);
      assert (a + b)[..|a + b| - 64] == a + b[..n];
      assert (a + b)[|a + b| - 64..] == b[n..];
    }
  }

  lemma RunOne(f: Blake, c: Chain, nullt: bool, b: seq<u8>)
    requires |b| == 64
    ensures Run(f, c, nullt, b) == Compressed(f, c, nullt, b)
  {
    assert b[..0] == [] && b[0..] == b;
  }

  lemma ShortRun(f: Blake, c: Chain, nullt: bool, all: seq<u8>)
    requires |all| < 64
    ensures |all| % 64 == |all| && Run(f, c, nullt, all[..|all| - |all| % 64]) == c && all[|all| - |all| % 64..] == all
  {
    hide Run;
    RunNothing(f, c, nullt);
    assert all[..0] == [] && all[0..] == all;
  }

  lemma LongerRun(f: Blake, c: Chain, nullt: bool, all: seq<u8>, start: nat, input: seq<u8>, from: nat, pos: nat)
    requires |all| == start + |input| && all[start..] == input && from <= pos <= |input|
    requires (start + from) % 64 == 0 && (pos - from) % 64 == 0
    ensures Run(f, Run(f, c, nullt, all[..start + from]), nullt, input[from..pos])
         == Run(f, c, nullt, all[..start + pos])
  {
    hide Run;
    RunConcat(f, c, nullt, all[..start + from], (start + from) / 64, input[from..pos], (pos - from) / 64);
    assert all[..start + pos] == all[..start + from] + input[from..pos];
  }

  /** What is left in the buffer is the end of all there was, and the rest has been compressed. */
  lemma Rest(f: Blake, c: Chain, nullt: bool, start: nat, left: nat, from: nat, pos: nat,
             all: seq<u8>, input: seq<u8>, kept: seq<u8>, s: Chain)
    requires |all| == start + |input| && start < 64 && from <= pos <= |input| && all[start..] == input
    requires left == 0 ==> (start + from) % 64 == 0 && (pos - from) % 64 == 0
                           && |input| < pos + 64 && kept == input[pos..]
                           && s == Run(f, Run(f, c, nullt, all[..start + from]), nullt, input[from..pos])
    requires left > 0 ==> left == start && pos == 0 && |all| < 64 && kept == all && s == c
    ensures |kept| == |all| % 64 && kept == all[|all| - |all| % 64..]
      && s == Run(f, c, nullt, all[..|all| - |all| % 64])
  {
    hide Run;
    if left == 0 {
      LongerRun(f, c, nullt, all, start, input, from, pos);
      DivModUnique(|all|, (start + pos) / 64, |input| - pos, 64);
    } else {
      ShortRun(f, c, nullt, all);
    }
  }

  lemma RunNothing(f: Blake, c: Chain, nullt: bool)
    ensures Run(f, c, nullt, []) == c
  {
  }

  lemma WholeBlocks(m: nat, n: nat) returns (i: nat, j: nat, r: nat)
    ensures m - m % 64 == 64 * i && m % 64 + n == 64 * j + r && r == (m % 64 + n) % 64 == (m + n) % 64
  {
    i, j, r := m / 64, (m % 64 + n) / 64, (m % 64 + n) % 64;
  }

  /** Absorbing what was left and more input is absorbing the longer message. */
  lemma LongerMessage(f: Blake, start: Chain, data: seq<u8>, input: seq<u8>, i: nat, j: nat)
    requires 64 * i <= |data| && 64 * j <= |data| - 64 * i + |input|
    ensures var all, longer := data[64 * i..] + input, data + input;
            longer[64 * (i + j)..] == all[64 * j..]
            && Run(f, start, false, longer[..64 * (i + j)])
               == Run(f, Run(f, start, false, data[..64 * i]), false, all[..64 * j])
  {
    hide Run;
    var all, longer := data[64 * i..] + input, data + input;
    RunConcat(f, start, false, data[..64 * i], i, all[..64 * j], j);
    assert longer == data[..64 * i] + all;
    assert longer[..64 * (i + j)] == data[..64 * i] + all[..64 * j];
    assert longer[64 * (i + j)..] == all[64 * j..];
  }

  // ---------- Padding ----------

  /** Subtraction as in C. */
  function Minus(a: u32, b: int): u32 { (a as int - b) % TWO32 }

  lemma MinusTwice(a: u32, b: int, c: int)
    ensures Minus(Minus(a, b), c) == Minus(a, b + c)
  {
    CongSub((a as int - b) % TWO32, a as int - b, c, c, TWO32);
    assert a as int - b - c == a as int - (b + c);
  }

  lemma MinusNothing(a: u32)
    ensures Minus(a, 0) == a
  {
  }

  /** Taking off what the block lacks before the tick leaves the number of message bits. */
  lemma AdjustedTick(h: State, n: nat, used: nat)
    requires n % 512 == 0 && 0 < used < 64
    ensures Tick(Chain(h, Minus(T0(n), 512 - 8 * used), T1(n))) == Chain(h, T0(n + 8 * used), T1(n + 8 * used))
  {
    hide T0, T1;
    HalvesWithin(n, 8 * used);
    var t: int := T0(n);
    CongAdd((t - (512 - 8 * used)) % TWO32, t - (512 - 8 * used), 512, 512, TWO32);
    DivModUnique(t + 8 * used, 0, t + 8 * used, TWO32);
  }

  /** Where the blocks of the message leave the chain. */
  lemma Start(f: Blake, data: seq<u8>, c: Chain)
    requires c == Run(f, Chain(f.iv, 0, 0), false, data[..|data| - |data| % 64])
    ensures var k := |data| / 64;
            c == Chain(Folded(f, Padded(data), |data|, k), T0(512 * k), T1(512 * k))
  {
    hide Run, T0, T1, Folded, Pad;
    var k := |data| / 64;
    assert data[..64 * k] == Padded(data)[..64 * k];
    RunOverMessage(f, Padded(data), |data|, k);
  }

  /** hi, or one more if adding `added` to the lower half overflowed. */
  function UpperHalf(hi: u32, lo: u32, added: nat): u32 { if lo < added then (hi as int + 1) % TWO32 else hi }

  /** The length that is written is that of the message. */
  lemma LengthBits(n: nat)
    ensures var k, used := n / 64, n % 64;
            var lo := (T0(512 * k) as int + 8 * used) % TWO32;
            LengthField(8 * n) == Bytes([UpperHalf(T1(512 * k), lo, 8 * used), lo])
  {
    hide Bytes;
    var k, used := n / 64, n % 64;
    HalvesWithin(512 * k, 8 * used);
    assert 512 * k + 8 * used == 8 * n;
    DivModUnique(T0(512 * k) as int + 8 * used, 0, T0(512 * k) as int + 8 * used, TWO32);
  }

  /** One byte of padding. */
  lemma PaddedByOne(data: seq<u8>)
    requires |data| % 64 == 55
    ensures var n := |data| - 55;
            Padded(data)[n..] == data[n..] + ([0x81] + LengthField(8 * |data|))
  {
    hide LengthField;
  }

  /** Padding that fits the block. */
  lemma PaddedShort(data: seq<u8>)
    requires |data| % 64 < 55
    ensures var used := |data| % 64;
            Padded(data)[|data| - used..]
            == data[|data| - used..] + (PADDING[..55 - used] + ([0x01] + LengthField(8 * |data|)))
  {
    hide LengthField, Zeros, Pad;
    ShortPad(|data|, |data| % 64);
    ShortGroups(data, |data| - |data| % 64, PADDING[..55 - |data| % 64], LengthField(8 * |data|), Padded(data));
  }

  lemma ShortPad(n: nat, used: nat)
    requires used == n % 64 && used < 55
    ensures Pad(n) == PADDING[..55 - used] + [0x01]
  {
  }

  lemma ShortGroups(data: seq<u8>, n: nat, a: seq<u8>, length: seq<u8>, p: seq<u8>)
    requires n <= |data| && p == data + (a + [0x01]) + length
    ensures p[n..] == data[n..] + (a + ([0x01] + length))
  {
  }

  /** Padding that takes another block. */
  lemma PaddedLong(data: seq<u8>)
    requires |data| % 64 > 55
    ensures var used, n, p := |data| % 64, |data| - |data| % 64, Padded(data);
            |p| == n + 128 && p[n..n + 64] == data[n..] + PADDING[..64 - used]
              && p[n + 64..] == PADDING[1..56] + ([0x01] + LengthField(8 * |data|))
  {
    hide LengthField, Zeros, Pad;
    var used, n, rest := |data| % 64, |data| - |data| % 64, LengthField(8 * |data|);
    LongPad(|data|, used);
    Regroup(data, PADDING[..64 - used], PADDING[1..56], [0x01], rest);
    SplitPadding(data, n, PADDING[..64 - used], PADDING[1..56] + ([0x01] + rest), Padded(data));
  }

  lemma LongPad(n: nat, used: nat)
    requires used == n % 64 && used > 55
    ensures Pad(n) == PADDING[..64 - used] + PADDING[1..56] + [0x01]
  {
  }

  lemma Regroup(a: seq<u8>, b: seq<u8>, c: seq<u8>, d: seq<u8>, e: seq<u8>)
    ensures a + (b + c + d) + e == a + b + (c + (d + e))
  {
  }

  lemma SplitPadding(data: seq<u8>, n: nat, a: seq<u8>, b: seq<u8>, p: seq<u8>)
    requires n <= |data| && |data| - n + |a| == 64 && p == data + a + b
    ensures p[n..n + 64] == data[n..] + a && p[n + 64..] == b
  {
  }

  /** The last message block, when it also holds the end of the message. */
  lemma LastMessageBlock(f: Blake, data: seq<u8>, h: State, t0: u32, block: seq<u8>)
    requires |data| % 64 > 0 && 64 * (|data| / 64) + 64 <= |Padded(data)|
    requires h == Folded(f, Padded(data), |data|, |data| / 64)
      && t0 == Minus(T0(8 * |data| - 8 * (|data| % 64)), 512 - 8 * (|data| % 64))
    requires block == Padded(data)[64 * (|data| / 64)..64 * (|data| / 64) + 64]
    ensures Compressed(f, Chain(h, t0, T1(8 * |data| - 8 * (|data| % 64))), false, block).h
         == Folded(f, Padded(data), |data|, |data| / 64 + 1)
  {
    hide T0, T1, Padded, Minus, Tick, Count;
    LastTick(h, |data|);
  }

  lemma LastTick(h: State, n: nat)
    requires n % 64 > 0
    ensures 8 * n - 8 * (n % 64) >= 0
    ensures var d := Tick(Chain(h, Minus(T0(8 * n - 8 * (n % 64)), 512 - 8 * (n % 64)), T1(8 * n - 8 * (n % 64))));
            d.h == h && d.t1 as int * TWO32 + d.t0 as int == Count(n, n / 64)
  {
    hide T0, T1, Minus, Tick, Count;
    LastCount(n);
    AdjustedTick(h, 512 * (n / 64), n % 64);
    Halves(8 * n);
  }

  lemma LastCount(n: nat)
    requires n % 64 > 0
    ensures 8 * n - 8 * (n % 64) == 512 * (n / 64) && 512 * (n / 64) + 8 * (n % 64) == 8 * n
    ensures Count(n, n / 64) == 8 * n % TWO64
  {
  }

  /** A block of padding only. */
  lemma PaddingBlock(f: Blake, data: seq<u8>, c: Chain, i: nat, block: seq<u8>)
    requires 64 * i >= |data| && 64 * (i + 1) <= |Padded(data)| && c.h == Folded(f, Padded(data), |data|, i)
    requires block == Padded(data)[64 * i..64 * (i + 1)]
    ensures Compressed(f, c, true, block).h == Folded(f, Padded(data), |data|, i + 1)
  {
    hide Padded;
  }

  const PADDING: seq<u8> := [0x80] + Zeros(128)

  class Context {
    const f: Blake
    var h: State
    var t0: u32
    var t1: u32
    var buflen: nat
    var nullt: bool
    const buf: array<u8>

    ghost var data: seq<u8>

    ghost predicate Shape()
      reads this
    {
      buf.Length == 64 && buflen < 64
    }

    ghost function State(): Chain
      reads this
    {
      Chain(h, t0, t1)
    }

    /** The chain over the whole blocks of `data`, the rest in the buffer. */
    ghost predicate Valid()
      reads this, buf
    {
      && Shape() && !nullt && buflen == |data| % 64 && buf[..buflen] == data[|data| - buflen..]
      && State() == Run(f, Chain(f.iv, 0, 0), false, data[..|data| - buflen])
    }

    constructor (f: Blake)
      ensures this.f == f && buf.Length == 64 && fresh(buf)
    {
      this.f := f;
      buf := new u8[64](k => 0);
    }

    /** Starts a message (blake256_Init). */
    method Init()
      requires buf.Length == 64
      modifies this
      ensures Valid() && data == []
    {
      hide Run;
      h, t0, t1, buflen, nullt, data := f.iv, 0, 0, 0, false, [];
      RunNothing(f, State(), false);
      assert data[..0] == [] == buf[..0];
    }

    /** The counter moves on, and a block is compressed. */
    method Compress(block: seq<u8>)
      requires |block| == 64
      modifies `h, `t0, `t1
      ensures State() == Compressed(f, old(State()), nullt, block)
    {
      t0 := (t0 as int + 512) % TWO32;
      if t0 == 0 {
        t1 := (t1 as int + 1) % TWO32;
      }
      h := f.compress(h, block, if nullt then 0 else t1 as int * TWO32 + t0 as int);
    }

    /** Copies x into the buffer behind `left` bytes (memcpy). */
    method Store(left: nat, x: seq<u8>)
      requires buf.Length == 64 && left + |x| <= 64
      modifies buf
      ensures buf[..left + |x|] == old(buf[..left]) + x
    {
      for k := 0 to |x|
        invariant forall m :: 0 <= m < left ==> buf[m] == old(buf[m])
        invariant forall m :: left <= m < left + k ==> buf[m] == x[m - left]
      {
        buf[left + k] := x[k];
      }
    }

    /**
     * More input (blake256_Update): the whole blocks of what was left and the input are compressed, the rest
     * stays in the buffer.
     */
    method Update(input: seq<u8>)
      requires Shape()
      modifies `h, `t0, `t1, `buflen, buf
      ensures Shape()
      ensures var all := old(buf[..buflen]) + input;
              buflen == |all| % 64 && buf[..buflen] == all[|all| - buflen..]
              && State() == Run(f, old(State()), nullt, all[..|all| - buflen])
    {
      hide Compressed, Run;
      ghost var all, c, start := buf[..buflen] + input, State(), buflen;
      var left, pos := FillFirst(input);
      ghost var from := pos;
      pos := CompressBlocks(input, pos);
      ghost var kept, s := buf[..left], State();
      Rest(f, c, nullt, start, left, from, pos, all, input, kept + input[pos..], s);
      KeepRest(left, input, pos);
    }

    /** Stores what is left of the input. */
    method KeepRest(left: nat, input: seq<u8>, pos: nat)
      requires buf.Length == 64 && pos <= |input| && left + |input| - pos < 64
      modifies `buflen, buf
      ensures buflen == left + |input| - pos && buf[..buflen] == old(buf[..left]) + input[pos..]
    {
      if |input| - pos > 0 {
        Store(left, input[pos..]);
      }
      buflen := left + |input| - pos;
    }

    /** Completes and compresses a started block if the input is long enough. */
    method FillFirst(input: seq<u8>) returns (left: nat, pos: nat)
      requires Shape()
      modifies `h, `t0, `t1, buf
      ensures pos <= |input|
      ensures if left > 0 then left == buflen && pos == 0 && buflen + |input| < 64 else (buflen + pos) % 64 == 0
      ensures left > 0 ==> State() == old(State()) && buf[..buflen] == old(buf[..buflen])
      ensures left == 0 ==> State() == Run(f, old(State()), nullt, (old(buf[..buflen]) + input)[..buflen + pos])
    {
      hide Compressed, Run;
      left, pos := buflen, 0;
      var fill := 64 - left;
      ghost var all, c := buf[..buflen] + input, State();
      if left > 0 && |input| >= fill {
        Store(left, input[..fill]);
        assert buf[..] == all[..64];
        RunOne(f, c, nullt, all[..64]);
        Compress(buf[..]);
        pos, left := fill, 0;
      } else {
        RunNothing(f, c, nullt);
        assert all[..0] == [];
      }
    }

    /** However a message is split over updates, the same message is absorbed. */
    method Absorb(input: seq<u8>)
      requires Valid()
      modifies this, buf
      ensures Valid() && data == old(data) + input
    {
      hide Run;
      ghost var i, j, r := WholeBlocks(|data|, |input|);
      LongerMessage(f, Chain(f.iv, 0, 0), data, input, i, j);
      Update(input);
      data := data + input;
      assert |data| - buflen == 64 * (i + j);
    }

    /** The whole blocks of the input from `pos` on. */
    method CompressBlocks(input: seq<u8>, pos: nat) returns (end: nat)
      requires pos <= |input|
      modifies `h, `t0, `t1
      ensures pos <= end <= |input| < end + 64 && (end - pos) % 64 == 0
      ensures State() == Run(f, old(State()), nullt, input[pos..end]) && (end == pos ==> State() == old(State()))
    {
      hide Compressed, Run;
      end := pos;
      ghost var c := State();
      RunNothing(f, c, nullt);
      assert input[pos..pos] == [];
      while |input| - end >= 64
        invariant pos <= end <= |input| && (end - pos) % 64 == 0 && State() == Run(f, c, nullt, input[pos..end])
        invariant end == pos ==> State() == c
      {
        var block := input[end..end + 64];
        Compress(block);
        RunConcat(f, c, nullt, input[pos..end], (end - pos) / 64, block, 1);
        RunOne(f, Run(f, c, nullt, input[pos..end]), nullt, block);
        assert input[pos..end + 64] == input[pos..end] + block;
        end := end + 64;
      }
    }

    /**
     * Before the last compression: the buffer and what is still to come are block i, the last one. The counter
     * has been lowered by the padding bits so far, or it is switched off because block i holds no message bits.
     */
    ghost predicate Padding(i: nat, rest: seq<u8>)
      reads this, buf
    {
      var p, n, used := Padded(data), |data|, |data| % 64;
      && Shape() && |p| == 64 * (i + 1) && buf[..buflen] + rest == p[64 * i..] && h == Folded(f, p, n, i)
      && (nullt ==> 64 * i >= n)
      && (!nullt ==> i == n / 64 && used > 0)
      && (!nullt ==> t1 == T1(512 * i) && t0 == Minus(T0(512 * i), 8 * (buflen - used)))
    }

    /** Padding that does not complete the block, before or after which the counter is lowered by as many bits. */
    method PadMore(ghost i: nat, x: seq<u8>, ghost rest: seq<u8>)
      requires Padding(i, x + rest) && buflen + |x| < 64
      modifies `h, `t0, `t1, `buflen, buf
      ensures Padding(i, rest) && buflen == old(buflen) + |x|
    {
      hide Run, Compressed, T0, T1, Minus, Padded, Folded;
      ghost var before := buf[..buflen];
      MinusTwice(T0(512 * i), 8 * (buflen - |data| % 64), 8 * |x|);
      t0 := Minus(t0, 8 * |x|);
      UpdateShort(x);
      assert before + x + rest == before + (x + rest);
    }

    /** An update that does not complete a block. */
    method UpdateShort(x: seq<u8>)
      requires Shape() && buflen + |x| < 64
      modifies `h, `t0, `t1, `buflen, buf
      ensures Shape() && State() == old(State()) && buflen == old(buflen) + |x|
        && buf[..buflen] == old(buf[..buflen]) + x
    {
      hide Run;
      ShortRun(f, State(), nullt, buf[..buflen] + x);
      Update(x);
    }

    /** The block that ends the message and leaves no room for the length is compressed with the message bits. */
    method PadLong()
      requires Valid() && buflen > 55
      modifies this, buf
      ensures data == old(data) && buflen == 0 && !nullt && h == Folded(f, Padded(data), |data|, |data| / 64 + 1)
      ensures Shape()
    {
      hide Run, Compressed, T0, T1, Minus, Padded, Folded;
      ghost var c, k := State(), |data| / 64;
      Start(f, data, c);
      PaddedLong(data);
      ghost var block := buf[..buflen] + PADDING[..64 - buflen];
      LastMessageBlock(f, data, h, Minus(t0, 512 - 8 * buflen), block);
      t0 := Minus(t0, 512 - 8 * buflen);
      RunOne(f, State(), false, block);
      Update(PADDING[..64 - buflen]);
      assert block[..64] == block;
    }

    /** The length completes the last block. */
    method LastBlock(ghost i: nat, msglen: seq<u8>)
      requires Padding(i, msglen) && buflen == 56 && |msglen| == 8
      modifies this, buf
      ensures h == Folded(f, Padded(old(data)), |old(data)|, i + 1)
    {
      hide Run, Compressed, T0, T1, Minus, Padded, Folded;
      ghost var block := buf[..buflen] + msglen;
      ghost var p := Padded(data);
      assert p[64 * i..64 * (i + 1)] == block;
      MinusTwice(T0(512 * i), 8 * (56 - |data| % 64), 64);
      t0 := Minus(t0, 64);
      RunOne(f, State(), nullt, block);
      if nullt {
        PaddingBlock(f, data, State(), i, block);
      } else {
        LastMessageBlock(f, data, h, t0, block);
      }
      assert block[..64] == block;
      Update(msglen);
    }

    /**
     * Pads the message and gives its hash (blake256_Final). The counter is lowered before each block, so that the
     * tick leaves the number of message bits; a block of padding only is compressed without a counter.
     */
    method Final() returns (out: seq<u8>)
      requires Valid()
      modifies this, buf
      ensures out == old(Hash(f, data))
    {
      hide Run, Compressed, T0, T1, Minus, Padded, Folded, LengthField;
      Start(f, data, State());
      LengthBits(|data|);
      var lo: u32 := (t0 as int + 8 * buflen) % TWO32;
      var msglen := Bytes([UpperHalf(t1, lo, 8 * buflen), lo]);
      ghost var i := PadToLength();
      LastBlock(i, msglen);
      out := Bytes(h);
    }

    /** Two blocks: the end of the message, and zeros up to the last one bit. */
    method PadNewBlock()
      requires Valid() && buflen > 55
      modifies this, buf
      ensures data == old(data) && Padding(|data| / 64 + 1, [0x01] + LengthField(8 * |data|)) && buflen == 55
    {
      hide Run, Compressed, T0, T1, Minus, Padded, Folded, LengthField;
      PaddedLong(data);
      PadLong();
      t0 := Minus(t0, 440);
      UpdateShort(PADDING[1..56]);
      nullt := true;
    }

    /** All the padding before the length. */
    method PadToLength() returns (ghost i: nat)
      requires Valid()
      modifies this, buf
      ensures data == old(data) && Padding(i, LengthField(8 * |data|)) && buflen == 56
    {
      hide Run, Compressed, T0, T1, Minus, Padded, Folded, LengthField;
      i := |data| / 64;
      Start(f, data, State());
      MinusNothing(t0);
      ghost var length := LengthField(8 * |data|);
      if buflen == 55 {
        PaddedByOne(data);
        PadMore(i, [0x81], length);
      } else {
        if buflen < 55 {
          if buflen == 0 {
            nullt := true;
          }
          PaddedShort(data);
          PadMore(i, PADDING[..55 - buflen], [0x01] + length);
        } else {
          PadNewBlock();
          i := i + 1;
        }
        PadMore(i, [0x01], length);
      }
    }
  }
}

/** The deterministic random bit generator over HMAC-SHA-256 (crypto/hmac_drbg.c). */
module HmacDrbg {
  import opened Arith
  import opened ByteWords
  import opened Sha256
  import opened Hmac

  // ---------- Section 10.1.2 of NIST SP 800-90A ----------

  /** The working state: the key and the value. */
  datatype Drbg = Drbg(k: seq<u8>, v: seq<u8>)

  /** K = HMAC(K, V || domain || data), V = HMAC(K, V) */
  function Round(f: Sha, d: Drbg, domain: u8, data: seq<u8>): Drbg
  {
    var k := Mac(f, d.k, d.v + [domain] + data);
    Drbg(k, Mac(f, k, d.v))
  }

  /** HMAC_DRBG_Update */
  function Updated(f: Sha, d: Drbg, data: seq<u8>): Drbg
  {
    var first := Round(f, d, 0, data);
    if data == [] then first else Round(f, first, 1, data)
  }

  function Instantiated(f: Sha, seed: seq<u8>): Drbg { Updated(f, Drbg(Zeros(32), Ones()), seed) }

  function Ones(): (s: seq<u8>)
    ensures |s| == 32 && forall i :: 0 <= i < 32 ==> s[i] == 1
  {
    seq(32, i => 1)
  }

  /** The state after n more values. */
  function Advanced(f: Sha, d: Drbg, n: nat): Drbg
  {
    if n == 0 then d else var e := Advanced(f, d, n - 1); Drbg(e.k, Mac(f, e.k, e.v))
  }

  /** The first n values, one after the other. */
  function Stream(f: Sha, d: Drbg, n: nat): seq<u8>
  {
    if n == 0 then [] else Stream(f, d, n - 1) + Advanced(f, d, n).v
  }

  /** The values of a stream: each is the code of the one before, and the first is that of the state's. */
  lemma {:induction false} StreamIsChain(f: Sha, d: Drbg, n: nat) returns (vs: seq<seq<u8>>)
    ensures |vs| == n + 1 && vs[0] == d.v && Advanced(f, d, n) == Drbg(d.k, vs[n])
    ensures forall j :: 0 < j <= n ==> vs[j] == Mac(f, d.k, vs[j - 1])
    ensures |Stream(f, d, n)| == 32 * n
    ensures forall j :: 0 < j <= n ==> Stream(f, d, n)[32 * j - 32..32 * j] == vs[j]
  {
    hide Mac;
    if n == 0 {
      vs := [d.v];
    } else {
      var before := StreamIsChain(f, d, n - 1);
      vs := before + [Mac(f, d.k, before[n - 1])];
      forall j | 0 < j <= n
        ensures vs[j] == Mac(f, d.k, vs[j - 1])
        ensures Stream(f, d, n)[32 * j - 32..32 * j] == vs[j]
      {
        if j < n {
          assert vs[j] == before[j] && vs[j - 1] == before[j - 1];
          assert Stream(f, d, n)[32 * j - 32..32 * j] == Stream(f, d, n - 1)[32 * j - 32..32 * j];
        }
      }
    }
  }

  /** Part of the next value follows the stream so far. */
  lemma StreamExtends(f: Sha, d: Drbg, n: nat, s: seq<u8>, c: seq<u8>)
    requires s == Stream(f, d, n) && |c| <= |Advanced(f, d, n + 1).v| && c == Advanced(f, d, n + 1).v[..|c|]
    ensures |s + c| <= |Stream(f, d, n + 1)| && s + c == Stream(f, d, n + 1)[..|s + c|]
  {
    hide Advanced;
  }

  /** An update without data makes one round: a new key, and a new value under it. */
  lemma UpdatedWithoutData(f: Sha, d: Drbg)
    ensures Updated(f, d, []).k == Mac(f, d.k, d.v + [0])
    ensures Updated(f, d, []).v == Mac(f, Mac(f, d.k, d.v + [0]), d.v)
  {
    hide Mac;
    assert d.v + [0] + [] == d.v + [0];
  }

  lemma {:induction false} StreamLength(f: Sha, d: Drbg, n: nat)
    ensures |Stream(f, d, n)| == 32 * n
  {
    hide Mac;
    if n > 0 {
      StreamLength(f, d, n - 1);
    }
  }

  // ---------- One HMAC in two compressions ----------

  /** Padding of a value and a zero byte after one block: 00 80, and a length of 776. */
  const ZERO_TAIL: seq<u32> := [0x0080_0000, 0, 0, 0, 0, 0, 0, 776]

  lemma PaddedWithZero(d: seq<u8>)
    requires |d| == 32
    ensures Padded(d + [0], 776) == d + Bytes(ZERO_TAIL)
  {
    hide LengthField, Zeros;
    ZeroTailBytes();
    var m := d + [0];
    assert Padded(m, 776) == m + [0x80] + Zeros(22) + LengthField(776);
    assert m + [0x80] + Zeros(22) + LengthField(776) == d + ([0, 0x80] + Zeros(22) + LengthField(776));
  }

  lemma ZeroTailBytes()
    ensures Bytes(ZERO_TAIL) == [0, 0x80] + Zeros(22) + LengthField(776)
  {
  }

  /** The inner hash of a value and a zero byte, in one compression. */
  lemma InnerWithZero(f: Sha, s: State, v: State)
    ensures Digest(f, s, 512, Bytes(v) + [0]) == Bytes(f.compress(s, v + ZERO_TAIL))
  {
    hide Absorbed, Padded, Bytes, Words, Digest;
    DigestIs(f, s, 512, Bytes(v) + [0], 776);
    PaddedWithZero(Bytes(v));
    BytesConcat(v, ZERO_TAIL);
    WordsOfBytes(v + ZERO_TAIL);
    OneBlock(f, s, Bytes(v + ZERO_TAIL));
  }

  /** A value authenticated in two compressions. */
  lemma MacOfValue(f: Sha, k: seq<u8>, v: State)
    ensures Mac(f, k, Bytes(v)) == Bytes(Outer(f, KeyDigest(f, k, OPAD), Outer(f, KeyDigest(f, k, IPAD), v)))
  {
    hide Outer, Bytes, Mac, KeyDigest, Digest;
    OuterIsDigest(f, KeyDigest(f, k, IPAD), v);
    Precomputed(f, k, Bytes(v), Outer(f, KeyDigest(f, k, IPAD), v));
  }

  /** The block of a key of 32 bytes, in words. */
  lemma BlockOfKey(f: Sha, k: State)
    ensures Words(KeyBlock(f, Bytes(k))) == k + Zeros(8)
  {
    hide Bytes, Hash;
    WordsConcat(Bytes(k), Zeros(32));
    WordsOfBytes(k);
    assert Words(Zeros(32)) == Zeros(8);
  }

  lemma FilledHead(b: seq<u8>, x: seq<u8>, d: u8, c: seq<u8>)
    requires |x| < |b| && c == Filled(b, 0, x)[|x| := d]
    ensures c[..|x| + 1] == x + [d]
  {
  }

  /** A hash context filled by hand: a state after one block, and 33 bytes in the buffer. */
  lemma Preloaded(f: Sha, s: State, head: seq<u8>, buffer: seq<u8>)
    requires |head| == 33 && |buffer| == 64 && buffer[..33] == head
    ensures Holding(f, s, 512, head, s, 776, buffer)
  {
    assert head[..0] == [] && head[0..] == head;
  }

  /** The digests of a key from its words: zeros up to a block, one pad, then the other. */
  lemma KeyDigests(f: Sha, k: State, h: seq<u32>)
    requires h == k + Zeros(8)
    ensures |MaskWords(h, 0x3636_3636)| == 16
      && f.compress(f.iv, MaskWords(h, 0x3636_3636)) == KeyDigest(f, Bytes(k), IPAD)
    ensures |MaskWords(h, 0x5c5c_5c5c)| == 16
      && f.compress(f.iv, MaskWords(h, 0x5c5c_5c5c)) == KeyDigest(f, Bytes(k), OPAD)
  {
    hide Bytes, KeyBlock, Absorbed, Words, Mask, XorWord, Zeros;
    var block := KeyBlock(f, Bytes(k));
    BlockOfKey(f, k);
    MaskedWords(block, IPAD);
    MaskedWords(block, OPAD);
    OneBlock(f, f.iv, Mask(block, IPAD));
    OneBlock(f, f.iv, Mask(block, OPAD));
  }

  lemma ZeroWordMasked(pad: u8)
    ensures XorWord(0, WordOf(pad, pad, pad, pad)) == WordOf(pad, pad, pad, pad)
  {
    hide Xor, WordOf, ByteOf;
    XorZero(pad);
    BytesOfWord(pad, pad, pad, pad);
    NoBytes();
  }

  lemma NoBytes()
    ensures ByteOf(0, 0) == ByteOf(0, 1) == ByteOf(0, 2) == ByteOf(0, 3) == 0
  {
  }

  /** The digests of the key of zeros are those of blocks of pad bytes. */
  lemma ZeroKeyDigests(f: Sha, inner: seq<u32>, outer: seq<u32>)
    requires |inner| == |outer| == 16
    requires (forall i :: 0 <= i < 16 ==> inner[i] == 0x3636_3636)
      && forall i :: 0 <= i < 16 ==> outer[i] == 0x5c5c_5c5c
    ensures f.compress(f.iv, inner) == KeyDigest(f, Zeros(32), IPAD)
      && f.compress(f.iv, outer) == KeyDigest(f, Zeros(32), OPAD)
  {
    hide XorWord, KeyDigest;
    ZeroWordMasked(IPAD);
    ZeroWordMasked(OPAD);
    var h: seq<u32> := Zeros(8) + Zeros(8);
    KeyDigests(f, Zeros(8), h);
    assert Bytes(Zeros(8)) == Zeros(32);
    assert MaskWords(h, 0x3636_3636) == inner && MaskWords(h, 0x5c5c_5c5c) == outer;
  }

  lemma OnesInBytes(v: seq<u32>)
    requires |v| == 8 && forall i :: 0 <= i < 8 ==> v[i] == 0x0101_0101
    ensures Bytes(v) == Ones()
  {
  }

  /** Writes a state over the first half of a block. */
  method SetState(h: array<u32>, s: State)
    requires h.Length == 16
    modifies h
    ensures h[..8] == s && h[8..] == old(h[8..])
  {
    for i := 0 to 8
      invariant forall j :: 0 <= j < i ==> h[j] == s[j]
      invariant forall j :: 8 <= j < 16 ==> h[j] == old(h[j])
    {
      h[i] := s[i];
    }
  }

  // ---------- Additional input without entropy ----------

  /** What the source does with entropy and additional input: the second round only if there is entropy. */
  function Reseeded(f: Sha, d: Drbg, entropy: seq<u8>, addin: seq<u8>): Drbg
  {
    var first := Round(f, d, 0, entropy + addin);
    if entropy == [] then first else Round(f, first, 1, entropy + addin)
  }

  /** A compression function that skips a block, then keeps seven words of the next, then nothing more. */
  function Kept(s: State, b: Block): State
  {
    if s[0] == 0 then s[0 := 1] else if s[0] == 1 then [2] + b[2..9] else s
  }

  function Keeper(): Sha { Sha(Zeros(8), (s, b) => Kept(s, b)) }

  lemma {:induction false} KeptForGood(s: State, m: seq<u8>)
    requires s[0] == 2 && |m| % 64 == 0
    ensures Absorbed(Keeper(), s, m) == s
    decreases |m|
  {
    if m != [] {
      KeptForGood(s, m[..|m| - 64]);
    }
  }

  lemma KeptBytes(block: seq<u8>, s: State)
    requires |block| == 64 && s == [2] + Words(block)[2..9]
    ensures forall i :: 4 <= i < 32 ==> Bytes(s)[i] == block[4 + i]
  {
    hide ByteOf, WordOf;
    forall i | 4 <= i < 32
      ensures ByteOf(s[i / 4], i % 4) == block[4 + i]
    {
      var q := 4 * (i / 4 + 1);
      BytesOfWord(block[q], block[q + 1], block[q + 2], block[q + 3]);
    }
  }

  /** Under that function the hash of a block p and a message m shows the bytes of m. */
  lemma KeeperHash(p: seq<u8>, m: seq<u8>)
    requires |p| == 64
    ensures forall i :: 4 <= i < 32 && i + 4 < |m| ==> Hash(Keeper(), p + m)[i] == m[i + 4]
  {
    hide Absorbed, Padded, Bytes, Words, Digest;
    var bits := 8 * |p + m| % TWO64;
    var rest := Padded(m, bits);
    PaddedLonger(m, bits);
    HashIs(Keeper(), p + m);
    DigestIs(Keeper(), Zeros(8), 0, p + m, bits);
    PaddedPrefix(p, m, bits);
    AbsorbedConcat(Keeper(), Zeros(8), p, rest);
    OneBlock(Keeper(), Zeros(8), p);
    var one := Kept(Zeros(8), Words(p));
    var block, s := rest[..64], Kept(one, Words(rest[..64]));
    assert rest == block + rest[64..];
    AbsorbedConcat(Keeper(), one, block, rest[64..]);
    OneBlock(Keeper(), one, block);
    KeptForGood(s, rest[64..]);
    KeptBytes(block, s);
    assert forall i :: 0 <= i < 64 && i < |m| ==> block[i] == m[i];
  }

  lemma PaddedLonger(m: seq<u8>, bits: u64)
    ensures |Padded(m, bits)| >= 64 && m <= Padded(m, bits)
  {
  }

  /** A new key shows the domain byte it was made with. */
  lemma KeyShowsDomain(k: seq<u8>, v: seq<u8>, domain: u8, data: seq<u8>)
    requires |v| == 32
    ensures Mac(Keeper(), k, v + [domain] + data)[24] == domain
  {
    hide Hash, KeyBlock;
    var m := v + [domain] + data;
    assert m[32] == domain;
    var inner := Hash(Keeper(), Mask(KeyBlock(Keeper(), k), IPAD) + m);
    KeeperHash(Mask(KeyBlock(Keeper(), k), IPAD), m);
    KeeperHash(Mask(KeyBlock(Keeper(), k), OPAD), inner);
  }

  /**
   * The source meets the standard, whatever the compression function, exactly when there is entropy or nothing to add.
   */
  lemma ReseedMeetsStandard(d: Drbg, entropy: seq<u8>, addin: seq<u8>)
    requires |d.v| == 32
    ensures (forall f :: Reseeded(f, d, entropy, addin) == Updated(f, d, entropy + addin))
            <==> entropy != [] || addin == []
  {
    hide Mac;
    if entropy == [] && addin != [] {
      var f, data := Keeper(), entropy + addin;
      var first := Round(f, d, 0, data);
      KeyShowsDomain(d.k, d.v, 0, data);
      KeyShowsDomain(first.k, first.v, 1, data);
      assert Reseeded(f, d, entropy, addin) != Updated(f, d, data);
    }
  }

  lemma SeededIs(f: Sha, entropy: seq<u8>, nonce: seq<u8>)
    requires entropy != [] || nonce == []
    ensures Reseeded(f, Drbg(Zeros(32), Ones()), entropy, nonce) == Instantiated(f, entropy + nonce)
  {
    hide Round;
  }

  lemma ReseededMeans(f: Sha, d: Drbg, entropy: seq<u8>, addin: seq<u8>)
    ensures var data := entropy + addin;
            var k1 := Mac(f, d.k, d.v + [0] + data);
            var v1 := Mac(f, k1, d.v);
            var k2 := Mac(f, k1, v1 + [1] + data);
            Reseeded(f, d, entropy, addin) == if entropy == [] then Drbg(k1, v1) else Drbg(k2, Mac(f, k2, v1))
  {
    hide Mac;
  }

  class Context {
    const f: Sha
    var odig: State
    var idig: State
    const v: array<u32>
    ghost var k: seq<u8>

    /** The second half of v always holds the padding; the digests are those of the key. */
    ghost predicate Valid()
      reads this, v
    {
      v.Length == 16 && v[8..] == TAIL && odig == KeyDigest(f, k, OPAD) && idig == KeyDigest(f, k, IPAD)
    }

    ghost function Value(): Drbg
      requires v.Length == 16
      reads this, v
    {
      Drbg(k, Bytes(v[..8]))
    }

    constructor (f: Sha)
      ensures this.f == f && v.Length == 16 && fresh(v)
    {
      this.f := f;
      v := new u32[16](i => 0);
    }

    /** V = HMAC(K, V) (update_v). */
    method UpdateV()
      requires Valid()
      modifies v
      ensures Valid() && Value() == Drbg(k, Mac(f, k, old(Value()).v))
    {
      hide Outer, Bytes, Mac, KeyDigest;
      ghost var before := v[..8];
      Transform(idig);
      Transform(odig);
      MacOfValue(f, k, before);
    }

    /** The compression of v in place. */
    method Transform(from: State)
      requires v.Length == 16 && v[8..] == TAIL
      modifies v
      ensures v[..8] == Outer(f, from, old(v[..8])) && v[8..] == TAIL
    {
      assert v[..] == v[..8] + TAIL;
      SetState(v, f.compress(from, v[..]));
    }

    /** The inner hash of V || domain || data1 || data2. */
    method Inner(domain: u8, data1: seq<u8>, data2: seq<u8>) returns (h: State)
      requires Valid() && (data1 + data2 == [] ==> domain == 0)
      modifies v
      ensures Valid() && v[..] == old(v[..])
        && Bytes(h) == Digest(f, idig, 512, Bytes(v[..8]) + [domain] + (data1 + data2))
    {
      hide Bytes, Digest, KeyDigest, Words;
      ghost var value := v[..8];
      if |data1| + |data2| == 0 {
        v[8], v[15] := 0x0080_0000, (64 + 32 + 1) * 8;
        assert v[..] == value + ZERO_TAIL;
        h := f.compress(idig, v[..]);
        v[8], v[15] := 0x8000_0000, (64 + 32) * 8;
        InnerWithZero(f, idig, value);
        assert Bytes(value) + [0] + (data1 + data2) == Bytes(value) + [0];
      } else {
        var digest := Streamed(domain, data1, data2);
        h := Words(digest);
        BytesOfWords(digest);
      }
    }

    /** The same through a hash context, which starts with V and the domain byte in its buffer. */
    method Streamed(domain: u8, data1: seq<u8>, data2: seq<u8>) returns (digest: seq<u8>)
      requires Valid()
      ensures digest == Digest(f, idig, 512, Bytes(v[..8]) + [domain] + (data1 + data2))
    {
      hide Bytes, Digest, KeyDigest, Filled, Holding;
      ghost var head := Bytes(v[..8]) + [domain];
      var ctx := new Sha256.Context(f);
      ctx.state := idig;
      ghost var empty := ctx.buffer[..];
      Copy(ctx.buffer, 0, Bytes(v[..8]));
      ctx.buffer[32] := domain;
      FilledHead(empty, Bytes(v[..8]), domain, ctx.buffer[..]);
      ctx.bitcount := (64 + 32 + 1) * 8;
      ctx.start, ctx.offset, ctx.data := idig, 512, head;
      Preloaded(f, idig, head, ctx.buffer[..]);
      ctx.Update(data1);
      ctx.Update(data2);
      assert ctx.data == head + (data1 + data2);
      digest := ctx.Final();
    }

    /** The second hash of HMAC and the digests of the new key. */
    method NewKey(inner: State)
      requires Valid()
      modifies this
      ensures k == Bytes(Outer(f, old(odig), inner)) && odig == KeyDigest(f, k, OPAD) && idig == KeyDigest(f, k, IPAD)
    {
      hide Bytes, KeyDigest, MaskWords;
      var h := new u32[16](i => 0);
      SetState(h, inner);
      h[8], h[15] := 0x8000_0000, (64 + 32) * 8;
      assert h[..] == inner + TAIL;
      var key := f.compress(odig, h[..]);
      SetState(h, key);
      h[8], h[15] := 0, 0;
      assert h[..] == key + Zeros(8);
      KeyDigests(f, key, h[..]);
      ghost var words := h[..];
      ApplyPad(h, 0x3636_3636);
      idig := f.compress(f.iv, h[..]);
      SwitchPad(h, 0x3636_3636, 0x5c5c_5c5c);
      MaskedTwice(words, 0x3636_3636);
      odig := f.compress(f.iv, h[..]);
      k := Bytes(key);
    }

    /** K = HMAC(K, V || domain || data1 || data2), and its digests (update_k). */
    method UpdateK(domain: u8, data1: seq<u8>, data2: seq<u8>)
      requires Valid() && (data1 + data2 == [] ==> domain == 0)
      modifies this, v
      ensures Valid() && v[..] == old(v[..]) && k == Mac(f, old(k), Bytes(v[..8]) + [domain] + (data1 + data2))
    {
      hide Bytes, KeyDigest, Outer, Mac, Digest;
      ghost var m := Bytes(v[..8]) + [domain] + (data1 + data2);
      ghost var before := v[..];
      var s := Inner(domain, data1, data2);
      Precomputed(f, k, m, s);
      NewKey(s);
      assert v[..] == before && v[8..] == before[8..];
    }

    /** One round: a new key, then a new value. */
    method NextRound(domain: u8, data1: seq<u8>, data2: seq<u8>)
      requires Valid() && (data1 + data2 == [] ==> domain == 0)
      modifies this, v
      ensures Valid() && Value() == Round(f, old(Value()), domain, data1 + data2)
    {
      hide Bytes, KeyDigest, Mac;
      UpdateK(domain, data1, data2);
      UpdateV();
    }

    /**
     * Mixes in entropy and additional input (hmac_drbg_reseed). This is HMAC_DRBG_Update except where there is
     * additional input but no entropy: then the second round, which the standard has, does not happen.
     */
    method Reseed(entropy: seq<u8>, addin: seq<u8>)
      requires Valid()
      modifies this, v
      ensures Valid() && Value() == Reseeded(f, old(Value()), entropy, addin)
      ensures var d, data := old(Value()), entropy + addin;
              var k1 := Mac(f, d.k, d.v + [0] + data);
              var v1 := Mac(f, k1, d.v);
              var k2 := Mac(f, k1, v1 + [1] + data);
              Value() == if entropy == [] then Drbg(k1, v1) else Drbg(k2, Mac(f, k2, v1))
    {
      hide Bytes, KeyDigest, Round, Mac;
      ReseededMeans(f, Value(), entropy, addin);
      NextRound(0, entropy, addin);
      if |entropy| == 0 {
        return;
      }
      NextRound(1, entropy, addin);
    }

    /** A new generator (hmac_drbg_init), seeded with the entropy and a nonce. */
    method Init(entropy: seq<u8>, nonce: seq<u8>)
      requires v.Length == 16
      modifies this, v
      ensures Valid() && Value() == Reseeded(f, Drbg(Zeros(32), Ones()), entropy, nonce)
      ensures entropy != [] || nonce == [] ==> Value() == Instantiated(f, entropy + nonce)
    {
      hide Bytes, KeyDigest, Reseeded, Instantiated;
      var h := new u32[16](i => 0x3636_3636);
      ghost var inner := h[..];
      idig := f.compress(f.iv, h[..]);
      h := new u32[16](i => 0x5c5c_5c5c);
      odig := f.compress(f.iv, h[..]);
      ZeroKeyDigests(f, inner, h[..]);
      k := Zeros(32);
      SetState(v, seq(8, i => 0x0101_0101));
      for i := 9 to 15
        modifies v
        invariant v[..8] == seq(8, i => 0x0101_0101) && forall j :: 9 <= j < i ==> v[j] == 0
      {
        v[i] := 0;
      }
      v[8], v[15] := 0x8000_0000, (64 + 32) * 8;
      assert v[8..] == TAIL;
      OnesInBytes(v[..8]);
      Reseed(entropy, nonce);
      if entropy != [] || nonce == [] {
        SeededIs(f, entropy, nonce);
      }
    }

    /** The bytes of the value, the highest of each word first, as far as there is room. */
    method WriteValue(buf: array<u8>, start: nat) returns (i: nat)
      requires v.Length == 16 && start <= buf.Length
      modifies buf
      ensures i == Min(start + 32, buf.Length) && buf[..start] == old(buf[..start])
      ensures buf[start..i] == Bytes(v[..8])[..i - start]
    {
      hide ByteOf;
      ghost var value := Bytes(v[..8]);
      i := start;
      var j := 0;
      while j < 8 && i < buf.Length
        invariant 0 <= j <= 8 && i == Min(start + 4 * j, buf.Length)
        invariant buf[..start] == old(buf[..start]) && forall m :: start <= m < i ==> buf[m] == value[m - start]
      {
        var r, k := v[j], 0;
        while k < 4 && i < buf.Length
          invariant 0 <= k <= 4 && i == Min(start + 4 * j + k, buf.Length)
          invariant buf[..start] == old(buf[..start]) && forall m :: start <= m < i ==> buf[m] == value[m - start]
        {
          assert value[4 * j + k] == ByteOf(v[j], k);
          buf[i] := ByteOf(r, k);
          i, k := i + 1, k + 1;
        }
        j := j + 1;
      }
    }

    /** As many bytes as the buffer takes (hmac_drbg_generate), and a new state. */
    method Generate(buf: array<u8>)
      requires Valid()
      modifies this, v, buf
      ensures Valid()
      ensures var n := (buf.Length + 31) / 32;
              |Stream(f, old(Value()), n)| >= buf.Length && buf[..] == Stream(f, old(Value()), n)[..buf.Length]
              && Value() == Updated(f, Advanced(f, old(Value()), n), [])
    {
      hide Bytes, ByteOf, KeyDigest, Mac, Round, Stream;
      ghost var d, n := Value(), 0;
      StreamLength(f, d, 0);
      var i := 0;
      while i < buf.Length
        modifies v, buf
        invariant Valid() && Value() == Advanced(f, d, n) && i == Min(32 * n, buf.Length)
          && (n == 0 || 32 * (n - 1) < buf.Length)
        invariant |Stream(f, d, n)| == 32 * n && buf[..i] == Stream(f, d, n)[..i]
      {
        StreamLength(f, d, n + 1);
        UpdateV();
        ghost var before := buf[..i];
        ghost var start := i;
        i := WriteValue(buf, i);
        n := n + 1;
        assert buf[..i] == before + buf[start..i];
        StreamExtends(f, d, n - 1, before, buf[start..i]);
      }
      assert buf[..i] == buf[..] && n == (buf.Length + 31) / 32;
      ghost var none: seq<u8> := [];
      assert none + none == none;
      NextRound(0, [], []);
    }
  }
}

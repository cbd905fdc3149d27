/** HMAC over SHA-256, plain and with precomputed digests of the padded key (crypto/hmac.c). */
module Hmac {
  import opened Arith
  import opened ByteWords
  import opened Sha256

  const IPAD: u8 := 0x36
  const OPAD: u8 := 0x5c

  /** The key as one block: hashed if it is longer, filled up with zeros. */
  function KeyBlock(f: Sha, key: seq<u8>): (k: seq<u8>)
    ensures |k| == 64
  {
    if |key| > BLOCK_LENGTH then Hash(f, key) + Zeros(32) else key + Zeros(BLOCK_LENGTH - |key|)
  }

  /** HMAC as in section 2 of RFC 2104. */
  function Mac(f: Sha, key: seq<u8>, m: seq<u8>): (d: seq<u8>)
    ensures |d| == 32
  {
    Hash(f, Mask(KeyBlock(f, key), OPAD) + Hash(f, Mask(KeyBlock(f, key), IPAD) + m))
  }

  /** A key longer than a block is replaced by its hash. */
  lemma LongKey(f: Sha, key: seq<u8>, m: seq<u8>)
    requires |key| > 64
    ensures Mac(f, key, m) == Mac(f, Hash(f, key), m)
  {
    assert KeyBlock(f, Hash(f, key)) == KeyBlock(f, key);
  }

  /** For any other key two hashes, over the key filled up with zeros and combined with 0x5c and with 0x36. */
  lemma ShortKey(f: Sha, key: seq<u8>, m: seq<u8>, o: seq<u8>, i: seq<u8>)
    requires |key| <= 64 == |o| == |i|
    requires forall j :: 0 <= j < 64 ==>
      o[j] == Xor(if j < |key| then key[j] else 0, 0x5c) && i[j] == Xor(if j < |key| then key[j] else 0, 0x36)
    ensures Mac(f, key, m) == Hash(f, o + Hash(f, i + m))
  {
    hide Xor, Hash;
    assert o == Mask(KeyBlock(f, key), OPAD) && i == Mask(KeyBlock(f, key), IPAD);
  }

  /** The state after one block of the key and a pad. */
  function KeyDigest(f: Sha, key: seq<u8>, pad: u8): State { Absorbed(f, f.iv, Mask(KeyBlock(f, key), pad)) }

  /** The words that pad a digest after one block: a one bit and a length of 768. */
  const TAIL: seq<u32> := [0x8000_0000, 0, 0, 0, 0, 0, 0, 768]

  /** A digest after one block takes one compression, of its words and the fixed padding. */
  function Outer(f: Sha, s: State, d: State): State { f.compress(s, d + TAIL) }

  lemma PaddedDigest(d: seq<u8>)
    requires |d| == 32
    ensures Padded(d, 768) == d + Bytes(TAIL)
  {
    hide LengthField, Zeros, Bytes;
    TailBytes();
    assert Padded(d, 768) == d + [0x80] + Zeros(23) + LengthField(768);
    assert d + [0x80] + Zeros(23) + LengthField(768) == d + ([0x80] + Zeros(23) + LengthField(768));
  }

  lemma TailBytes()
    ensures Bytes(TAIL) == [0x80] + Zeros(23) + LengthField(768)
  {
  }

  lemma OuterIsDigest(f: Sha, s: State, d: State)
    ensures Digest(f, s, 512, Bytes(d)) == Bytes(Outer(f, s, d))
  {
    hide Absorbed, Padded, Bytes, Words, Digest;
    DigestIs(f, s, 512, Bytes(d), 768);
    PaddedDigest(Bytes(d));
    BytesConcat(d, TAIL);
    WordsOfBytes(d + TAIL);
    OneBlock(f, s, Bytes(d + TAIL));
  }

  /** HMAC from the two precomputed digests. */
  lemma Precomputed(f: Sha, key: seq<u8>, m: seq<u8>, inner: State)
    requires Bytes(inner) == Digest(f, KeyDigest(f, key, IPAD), 512, m)
    ensures Mac(f, key, m) == Bytes(Outer(f, KeyDigest(f, key, OPAD), inner))
  {
    hide Absorbed, Bytes, Digest, Hash, KeyBlock, Outer;
    var i, o := Mask(KeyBlock(f, key), IPAD), Mask(KeyBlock(f, key), OPAD);
    Resumed(f, i, m);
    Resumed(f, o, Bytes(inner));
    OuterIsDigest(f, KeyDigest(f, key, OPAD), inner);
  }

  /** Copies a string to the start of a buffer of zeros. */
  method KeyPad(f: Sha, key: seq<u8>, pad: array<u8>)
    requires pad.Length == 64
    modifies pad
    ensures pad[..] == KeyBlock(f, key)
  {
    hide Hash, Filled, Zeros, Holding, Digest;
    Clear(pad, 0, 64);
    WholeBuffer(old(pad[..]), Zeros(64));
    if |key| > BLOCK_LENGTH {
      var context := new Context(f);
      context.Update(key);
      assert context.data == key;
      var digest := context.Final();
      HashIs(f, key);
      Copy(pad, 0, digest);
      FilledZeros(digest);
    } else {
      Copy(pad, 0, key);
      FilledZeros(key);
    }
  }

  lemma HashIs(f: Sha, m: seq<u8>)
    ensures Hash(f, m) == Digest(f, f.iv, 0, m)
  {
  }

  lemma FilledZeros(x: seq<u8>)
    requires |x| <= 64
    ensures Filled(Zeros(64), 0, x) == x + Zeros(64 - |x|)
  {
  }

  class HmacContext {
    const f: Sha
    const oKeyPad: array<u8>
    const ctx: Context
    ghost var key: seq<u8>
    ghost var message: seq<u8>

    ghost predicate Shape()
    {
      oKeyPad.Length == 64 == ctx.buffer.Length && oKeyPad != ctx.buffer && ctx.f == f
    }

    ghost predicate Valid()
      reads this, oKeyPad, ctx, ctx.buffer
    {
      && Shape() && ctx.Valid() && ctx.start == f.iv && ctx.offset == 0
      && ctx.data == Mask(KeyBlock(f, key), IPAD) + message && oKeyPad[..] == Mask(KeyBlock(f, key), OPAD)
    }

    constructor (f: Sha)
      ensures Shape() && this.f == f && fresh(oKeyPad) && fresh(ctx) && fresh(ctx.buffer)
    {
      this.f := f;
      oKeyPad := new u8[64](k => 0);
      ctx := new Context(f);
    }

    /** Starts a message under a key (hmac_sha256_Init). */
    method Init(key: seq<u8>)
      requires Shape()
      modifies this, oKeyPad, ctx, ctx.buffer
      ensures Valid() && this.key == key && message == []
    {
      hide KeyBlock, Xor, Holding;
      var iKeyPad := new u8[64];
      KeyPad(f, key, iKeyPad);
      ghost var block := KeyBlock(f, key);
      for i := 0 to 64
        invariant forall k :: 0 <= k < i ==> oKeyPad[k] == Xor(block[k], OPAD) && iKeyPad[k] == Xor(block[k], IPAD)
        invariant forall k :: i <= k < 64 ==> iKeyPad[k] == block[k]
      {
        oKeyPad[i] := Xor(iKeyPad[i], OPAD);
        iKeyPad[i] := Xor(iKeyPad[i], IPAD);
      }
      assert oKeyPad[..] == Mask(block, OPAD) && iKeyPad[..] == Mask(block, IPAD);
      ctx.Init();
      ctx.Update(iKeyPad[..]);
      this.key, message := key, [];
      assert Mask(block, IPAD) + [] == [] + Mask(block, IPAD);
    }

    /** More of the message (hmac_sha256_Update). */
    method Update(msg: seq<u8>)
      requires Valid()
      modifies this, ctx, ctx.buffer
      ensures Valid() && message == old(message) + msg && key == old(key)
    {
      hide KeyBlock, Mask, Holding;
      ctx.Update(msg);
      message := message + msg;
      assert Mask(KeyBlock(f, key), IPAD) + message == Mask(KeyBlock(f, key), IPAD) + old(message) + msg;
    }

    /** The authentication code of the message (hmac_sha256_Final); the context is wiped. */
    method Final() returns (hmac: seq<u8>)
      requires Valid()
      modifies this, oKeyPad, ctx, ctx.buffer
      ensures hmac == old(Mac(f, key, message)) && Shape() && oKeyPad[..] == Zeros(64)
    {
      hide KeyBlock, Mask, Holding, Hash, Filled, Zeros, Digest;
      ghost var o, i := Mask(KeyBlock(f, key), OPAD), Mask(KeyBlock(f, key), IPAD);
      HashIs(f, i + message);
      hmac := ctx.Final();
      ctx.Init();
      ctx.Update(oKeyPad[..]);
      ctx.Update(hmac);
      assert ctx.data == o + hmac;
      HashIs(f, o + hmac);
      hmac := ctx.Final();
      WholeBuffer(oKeyPad[..], Zeros(64));
      Clear(oKeyPad, 0, 64);
    }
  }

  /** HMAC of one message (hmac_sha256). */
  method HmacSha256(f: Sha, key: seq<u8>, msg: seq<u8>) returns (hmac: seq<u8>)
    ensures hmac == Mac(f, key, msg)
  {
    hide Mac;
    var hctx := new HmacContext(f);
    hctx.Init(key);
    hctx.Update(msg);
    assert [] + msg == msg;
    hmac := hctx.Final();
  }

  /** words[i] ^= pad. */
  method ApplyPad(words: array<u32>, pad: u32)
    modifies words
    ensures words[..] == MaskWords(old(words[..]), pad)
  {
    hide XorWord;
    for i := 0 to words.Length
      invariant forall k :: 0 <= k < i ==> words[k] == XorWord(old(words[k]), pad)
      invariant forall k :: i <= k < words.Length ==> words[k] == old(words[k])
    {
      words[i] := XorWord(words[i], pad);
    }
  }

  /** words[i] = words[i] ^ from ^ to. */
  method SwitchPad(words: array<u32>, from: u32, to: u32)
    modifies words
    ensures words[..] == MaskWords(MaskWords(old(words[..]), from), to)
  {
    hide XorWord;
    for i := 0 to words.Length
      invariant forall k :: 0 <= k < i ==> words[k] == XorWord(XorWord(old(words[k]), from), to)
      invariant forall k :: i <= k < words.Length ==> words[k] == old(words[k])
    {
      words[i] := XorWord(XorWord(words[i], from), to);
    }
  }

  /** The digests of the two padded key blocks (hmac_sha256_prepare). */
  method Prepare(f: Sha, key: seq<u8>) returns (opadDigest: State, ipadDigest: State)
    ensures opadDigest == KeyDigest(f, key, OPAD) && ipadDigest == KeyDigest(f, key, IPAD)
  {
    hide KeyBlock, Absorbed, XorWord, Words, Mask, MaskWords;
    var pad := new u8[64];
    KeyPad(f, key, pad);
    ghost var block := KeyBlock(f, key);
    var words := new u32[16](i requires 0 <= i < 16
      && pad.Length == 64 reads pad => WordOf(pad[4 * i], pad[4 * i + 1], pad[4 * i + 2], pad[4 * i + 3]));
    WordsOfPad(block, words[..]);
    ApplyPad(words, 0x5c5c_5c5c);
    MaskedWords(block, OPAD);
    opadDigest := f.compress(f.iv, words[..]);
    OneBlock(f, f.iv, Mask(block, OPAD));
    SwitchPad(words, 0x5c5c_5c5c, 0x3636_3636);
    MaskedTwice(Words(block), 0x5c5c_5c5c);
    MaskedWords(block, IPAD);
    ipadDigest := f.compress(f.iv, words[..]);
    OneBlock(f, f.iv, Mask(block, IPAD));
  }

  lemma WordsOfPad(block: seq<u8>, words: seq<u32>)
    requires |block| == 64 && |words| == 16
    requires forall i :: 0 <= i < 16 ==>
      words[i] == WordOf(block[4 * i], block[4 * i + 1], block[4 * i + 2], block[4 * i + 3])
    ensures words == Words(block)
  {
  }
}

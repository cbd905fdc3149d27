/** PBKDF2 with HMAC-SHA-256, in two compressions per iteration (crypto/pbkdf2.c). */
module Pbkdf2 {
  import opened Arith
  import opened ByteWords
  import opened Sha256
  import opened Hmac

  // ---------- Section 5.2 of RFC 8018 ----------

  /** U_k: the code of the salt and the block number, then the code of the one before. */
  function U(f: Sha, pass: seq<u8>, salt: seq<u8>, blocknr: u32, k: nat): (u: seq<u8>)
    ensures |u| == 32
  {
    if k <= 1 then Mac(f, pass, salt + Bytes([blocknr])) else Mac(f, pass, U(f, pass, salt, blocknr, k - 1))
  }

  /** U_1 xor ... xor U_c */
  function T(f: Sha, pass: seq<u8>, salt: seq<u8>, blocknr: u32, c: nat): (t: seq<u8>)
    ensures |t| == 32
  {
    if c <= 1 then U(f, pass, salt, blocknr, 1)
    else Combine(T(f, pass, salt, blocknr, c - 1), U(f, pass, salt, blocknr, c))
  }

  /** T_1, T_2, ... T_n one after the other. */
  function Blocks(f: Sha, pass: seq<u8>, salt: seq<u8>, c: nat, n: nat): (b: seq<u8>)
    requires n < 0x1_0000_0000
    ensures |b| == 32 * n
  {
    if n == 0 then [] else Blocks(f, pass, salt, c, n - 1) + T(f, pass, salt, n, c)
  }

  /** One iteration in words: an inner and an outer compression are one more code. */
  lemma OneMoreU(f: Sha, pass: seq<u8>, salt: seq<u8>, blocknr: u32, k: nat, g: State)
    requires k >= 1 && Bytes(g) == U(f, pass, salt, blocknr, k)
    ensures Bytes(Outer(f, KeyDigest(f, pass, OPAD), Outer(f, KeyDigest(f, pass, IPAD), g)))
         == U(f, pass, salt, blocknr, k + 1)
  {
    hide Outer, Bytes, Mac, KeyDigest;
    OuterIsDigest(f, KeyDigest(f, pass, IPAD), g);
    Precomputed(f, pass, Bytes(g), Outer(f, KeyDigest(f, pass, IPAD), g));
  }

  lemma FirstU(f: Sha, pass: seq<u8>, salt: seq<u8>, blocknr: u32, inner: State)
    requires Bytes(inner) == Digest(f, KeyDigest(f, pass, IPAD), 512, salt + Bytes([blocknr]))
    ensures Bytes(Outer(f, KeyDigest(f, pass, OPAD), inner)) == U(f, pass, salt, blocknr, 1)
    ensures T(f, pass, salt, blocknr, 1) == U(f, pass, salt, blocknr, 1)
  {
    hide Outer, Bytes, Mac, KeyDigest, Digest;
    Precomputed(f, pass, salt + Bytes([blocknr]), inner);
  }

  lemma OneMoreT(f: Sha, pass: seq<u8>, salt: seq<u8>, blocknr: u32, c: nat, t: State, g: State)
    requires c >= 1 && Bytes(t) == T(f, pass, salt, blocknr, c) && Bytes(g) == U(f, pass, salt, blocknr, c + 1)
    ensures Bytes(CombineWords(t, g)) == T(f, pass, salt, blocknr, c + 1)
  {
    hide Bytes, U, CombineWords, Combine;
    CombinedBytes(t, g);
  }

  class Context {
    const sha: Sha
    var odig: State
    var idig: State
    const f: array<u32>
    const g: array<u32>
    var first: u8

    // Whose key this is, and how many iterations have been made.
    ghost var pass: seq<u8>
    ghost var salt: seq<u8>
    ghost var blocknr: u32
    ghost var count: nat

    ghost predicate Shape()
    {
      f.Length == 8 && g.Length == 16 && f != g
    }

    /** After `count` iterations g starts with the last U, and f is the sum of them all. */
    ghost predicate Holds()
      reads this, f, g
    {
      && Shape() && odig == KeyDigest(sha, pass, OPAD) && idig == KeyDigest(sha, pass, IPAD) && g[8..] == TAIL
        && count >= 1
      && Bytes(g[..8]) == U(sha, pass, salt, blocknr, count) && Bytes(f[..]) == T(sha, pass, salt, blocknr, count)
    }

    ghost predicate Valid()
      reads this, f, g
    {
      Holds() && first <= 1 && (first == 1 ==> count == 1)
    }

    constructor (sha: Sha)
      ensures Shape() && this.sha == sha && fresh(f) && fresh(g)
    {
      this.sha := sha;
      f := new u32[8](i => 0);
      g := new u32[16](i => 0);
    }

    /** The compression of g in place: its first half becomes the new state, the padding stays. */
    method Transform(from: State)
      requires Shape() && g[8..] == TAIL
      modifies g
      ensures g[..8] == Outer(sha, from, old(g[..8])) && g[8..] == TAIL
    {
      assert g[..] == g[..8] + TAIL;
      SetState(sha.compress(from, g[..]));
    }

    method SetState(s: State)
      requires Shape()
      modifies g
      ensures g[..8] == s && g[8..] == old(g[8..])
    {
      for i := 0 to 8
        invariant forall k :: 0 <= k < i ==> g[k] == s[k]
        invariant forall k :: 8 <= k < 16 ==> g[k] == old(g[k])
      {
        g[i] := s[i];
      }
    }

    /** The first iteration (pbkdf2_hmac_sha256_Init). */
    method Init(pass: seq<u8>, salt: seq<u8>, blocknr: u32)
      requires Shape()
      modifies this, f, g
      ensures Valid() && this.pass == pass && this.salt == salt && this.blocknr == blocknr && count == 1 && first == 1
    {
      hide KeyDigest, Bytes, Words, Holding, Digest, Outer, Mac, U, T;
      odig, idig := Prepare(sha, pass);
      PutTail();
      var digest := InnerHash(salt, blocknr);
      BytesOfWords(digest);
      ghost var inner := Words(digest);
      SetState(Words(digest));
      Transform(odig);
      FirstU(sha, pass, salt, blocknr, inner);
      ghost var code := g[..8];
      CopyState();
      assert g[..8] == code;
      this.pass, this.salt, this.blocknr, count, first := pass, salt, blocknr, 1, 1;
    }

    /** Zeros, and the padding of a digest in the second half. */
    method PutTail()
      requires Shape()
      modifies g
      ensures g[8..] == TAIL
    {
      for i := 0 to 16
        invariant forall k :: 0 <= k < i ==> g[k] == 0
      {
        g[i] := 0;
      }
      g[8], g[15] := 0x8000_0000, (64 + 32) * 8;
    }

    /** f = the state in g (memcpy). */
    method CopyState()
      requires Shape()
      modifies f
      ensures f[..] == g[..8]
    {
      for j := 0 to 8
        invariant forall k :: 0 <= k < j ==> f[k] == g[k]
      {
        f[j] := g[j];
      }
    }

    /** The inner hash of the first code, continued from the digest of the padded key. */
    method InnerHash(salt: seq<u8>, blocknr: u32) returns (digest: seq<u8>)
      ensures digest == Digest(sha, idig, 512, salt + Bytes([blocknr]))
    {
      hide Bytes, Holding, Digest;
      var ctx := new Sha256.Context(sha);
      ctx.InitEx(idig, 64 * 8);
      ctx.Update(salt);
      ctx.Update(Bytes([blocknr]));
      assert ctx.data == salt + Bytes([blocknr]);
      digest := ctx.Final();
    }

    /**
     * More iterations (pbkdf2_hmac_sha256_Update); the first call counts the one made by Init. The iterations
     * may be split over calls in any way, as long as the first part is not empty.
     */
    method Update(iterations: nat)
      requires Valid()
      modifies this, f, g
      ensures Valid() && pass == old(pass) && salt == old(salt) && blocknr == old(blocknr) && first == 0
      ensures count == old(count) + if iterations > old(first) then iterations - old(first) else 0
    {
      hide KeyDigest, Bytes, Outer, T, U;
      var i: nat := first;
      while i < iterations
        invariant Holds() && first == old(first) && first <= i && (i <= iterations || i == first)
        invariant pass == old(pass) && salt == old(salt) && blocknr == old(blocknr) && count == old(count) + (i - first)
      {
        Iterate();
        i := i + 1;
      }
      first := 0;
    }

    /** One iteration: two compressions in place, and the result added to f. */
    method Iterate()
      requires Holds()
      modifies `count, f, g
      ensures Holds() && count == old(count) + 1
    {
      hide KeyDigest, Bytes, Outer, T, U, XorWord;
      ghost var u, t := g[..8], f[..];
      Transform(idig);
      Transform(odig);
      OneMoreU(sha, pass, salt, blocknr, count, u);
      OneMoreT(sha, pass, salt, blocknr, count, t, g[..8]);
      ghost var w := g[..];
      for j := 0 to 8
        modifies f
        invariant forall k :: 0 <= k < j ==> f[k] == XorWord(t[k], w[k])
        invariant forall k :: j <= k < 8 ==> f[k] == t[k]
      {
        f[j] := XorWord(f[j], g[j]);
      }
      assert f[..] == CombineWords(t, w[..8]);
      assert w[..8] == g[..8] && w[8..] == g[8..];
      count := count + 1;
    }

    /** The derived block (pbkdf2_hmac_sha256_Final); the context is wiped. */
    method Final() returns (key: seq<u8>)
      requires Valid()
      modifies this, f, g
      ensures key == old(T(sha, pass, salt, blocknr, count)) && Shape()
    {
      key := Bytes(f[..]);
      odig, idig, first := Zeros(8), Zeros(8), 0;
      for i := 0 to 8 {
        f[i] := 0;
      }
      for i := 0 to 16 {
        g[i] := 0;
      }
    }
  }

  /** One block of the key. */
  method DeriveBlock(sha: Sha, pass: seq<u8>, salt: seq<u8>, blocknr: u32, iterations: nat) returns (digest: seq<u8>)
    ensures digest == T(sha, pass, salt, blocknr, iterations)
  {
    hide T, Context.Holds;
    var pctx := new Context(sha);
    pctx.Init(pass, salt, blocknr);
    pctx.Update(iterations);
    SameT(sha, pass, salt, blocknr, iterations);
    digest := pctx.Final();
  }

  /** A key of any length (pbkdf2_hmac_sha256): the blocks one after the other, cut to the length of the key. */
  method Pbkdf2HmacSha256(sha: Sha, pass: seq<u8>, salt: seq<u8>, iterations: nat, key: array<u8>)
    requires key.Length < 0x8000_0000
    modifies key
    ensures key[..] == Blocks(sha, pass, salt, iterations, (key.Length + 31) / 32)[..key.Length]
    ensures forall i :: 0 <= i < key.Length ==> key[i] == T(sha, pass, salt, i / 32 + 1, iterations)[i % 32]
  {
    hide T, Filled;
    var lastBlockSize, blocksCount := key.Length % 32, key.Length / 32;
    if lastBlockSize != 0 {
      blocksCount := blocksCount + 1;
    } else {
      lastBlockSize := 32;
    }
    var blocknr: nat := 1;
    while blocknr <= blocksCount
      invariant 1 <= blocknr <= blocksCount + 1
      invariant var n := Min(32 * (blocknr - 1), key.Length);
                key[..n] == Blocks(sha, pass, salt, iterations, blocknr - 1)[..n]
    {
      var digest := DeriveBlock(sha, pass, salt, blocknr, iterations);
      var keyOffset := (blocknr - 1) * 32;
      ghost var before := key[..];
      assert before[..keyOffset] == Blocks(sha, pass, salt, iterations, blocknr - 1);
      var size := if blocknr < blocksCount then 32 else lastBlockSize;
      Copy(key, keyOffset, digest[..size]);
      NextBlock(before, Blocks(sha, pass, salt, iterations, blocknr - 1), digest, size);
      blocknr := blocknr + 1;
    }
    BytesOfBlocks(sha, pass, salt, iterations, (key.Length + 31) / 32);
  }

  /** The blocks are numbered from one. */
  lemma {:induction false} BytesOfBlocks(f: Sha, pass: seq<u8>, salt: seq<u8>, c: nat, n: nat)
    requires n < 0x1_0000_0000
    ensures forall i :: 0 <= i < 32 * n ==> Blocks(f, pass, salt, c, n)[i] == T(f, pass, salt, i / 32 + 1, c)[i % 32]
  {
    hide T;
    if n > 0 {
      BytesOfBlocks(f, pass, salt, c, n - 1);
      forall i | 32 * (n - 1) <= i < 32 * n
        ensures i / 32 + 1 == n && i % 32 == i - 32 * (n - 1)
      {
      }
    }
  }

  type Code = s: seq<u8> | |s| == 32 witness Zeros(32)

  /**
   * Block i is the sum of c numbers U: the first is the code of the salt and the four bytes of i, the others are the
   * codes of the ones before them. No iterations count as one.
   */
  lemma {:induction false} BlockIsSum(f: Sha, pass: seq<u8>, salt: seq<u8>, i: u32, c: nat)
    returns (us: seq<Code>, sums: seq<Code>)
    ensures |us| == |sums| == if c == 0 then 1 else c
    ensures us[0] == Mac(f, pass, salt + [i / 0x100_0000, i / 0x1_0000 % 0x100, i / 0x100 % 0x100, i % 0x100])
    ensures forall k :: 0 < k < |us| ==> us[k] == Mac(f, pass, us[k - 1])
    ensures sums[0] == us[0]
    ensures forall k, j :: 0 < k < |us| && 0 <= j < 32 ==> sums[k][j] == Xor(sums[k - 1][j], us[k][j])
    ensures us[|us| - 1] == U(f, pass, salt, i, c)
    ensures T(f, pass, salt, i, c) == sums[|sums| - 1]
  {
    hide Mac, Xor;
    if c <= 1 {
      var u := U(f, pass, salt, i, 1);
      us, sums := [u], [u];
      assert Bytes([i]) == [i / 0x100_0000, i / 0x1_0000 % 0x100, i / 0x100 % 0x100, i % 0x100];
    } else {
      us, sums := BlockIsSum(f, pass, salt, i, c - 1);
      us, sums := us + [U(f, pass, salt, i, c)], sums + [T(f, pass, salt, i, c)];
    }
  }

  lemma NextBlock(key: seq<u8>, done: seq<u8>, digest: seq<u8>, size: nat)
    requires |done| + size <= |key| && key[..|done|] == done && size <= |digest|
    ensures Filled(key, |done|, digest[..size])[..|done| + size] == (done + digest)[..|done| + size]
  {
  }

  /** No iterations are one. */
  lemma SameT(f: Sha, pass: seq<u8>, salt: seq<u8>, blocknr: u32, c: nat)
    ensures T(f, pass, salt, blocknr, if c > 1 then c else 1) == T(f, pass, salt, blocknr, c)
  {
  }
}

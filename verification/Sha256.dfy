/** SHA-256 fed in pieces (crypto/sha2.c), over any compression function. */
module Sha256 {
  import opened Arith
  import opened ByteWords

  type State = s: seq<u32> | |s| == 8 witness [0, 0, 0, 0, 0, 0, 0, 0]
  type Block = s: seq<u32> | |s| == 16 witness [0, 0, 0, 0, 0, 0, 0, 0, 0, 0, 0, 0, 0, 0, 0, 0]

  const BLOCK_LENGTH: nat := 64
  const SHORT_BLOCK_LENGTH: nat := 56
  const TWO64: int := 0x1_0000_0000_0000_0000

  /** The initial value and the compression function (sha256_Transform). */
  datatype Sha = Sha(iv: State, compress: (State, Block) -> State)

  // ---------- What is computed ----------

  /** The compression function folded over the blocks of a message of whole blocks. */
  function Absorbed(f: Sha, start: State, m: seq<u8>): State
    decreases |m|
  {
    if |m| < 64 then start else f.compress(Absorbed(f, start, m[..|m| - 64]), Words(m[|m| - 64..]))
  }

  /** The length field: a 64-bit number. */
  function LengthField(bits: u64): (b: seq<u8>)
    ensures |b| == 8
  {
    Bytes([bits / 0x1_0000_0000, bits % 0x1_0000_0000])
  }

  /** Padding as in section 5.1.1 of FIPS 180-4: a one bit, the fewest zeros, the length. */
  function Padded(m: seq<u8>, bits: u64): (p: seq<u8>)
    ensures |p| % 64 == 0 && m <= p
  {
    m + [0x80] + Zeros((119 - |m| % 64) % 64) + LengthField(bits)
  }

  /** The digest of `data` continued from a state that stands for `offset` bits. */
  function Digest(f: Sha, start: State, offset: nat, data: seq<u8>): (d: seq<u8>)
    ensures |d| == 32
  {
    Bytes(Absorbed(f, start, Padded(data, (offset + 8 * |data|) % TWO64)))
  }

  function Hash(f: Sha, m: seq<u8>): (d: seq<u8>)
    ensures |d| == 32
  {
    Digest(f, f.iv, 0, m)
  }

  /** As few blocks as hold the message, nine more bytes, and a whole number of them. */
  lemma PaddedLength(m: seq<u8>, bits: u64)
    ensures |Padded(m, bits)| == 64 * ((|m| + 72) / 64)
  {
    hide LengthField, Zeros;
    var q, r := |m| / 64, |m| % 64;
    DivModUnique(|m| + 72, if r < 56 then q + 1 else q + 2, if r < 56 then r + 8 else r - 56, 64);
  }

  /** The message, a one bit, zeros, and the length in two words. */
  lemma PaddedBytes(m: seq<u8>, bits: u64, j: nat)
    requires |m| <= j < |Padded(m, bits)|
    ensures var p, end := Padded(m, bits), |Padded(m, bits)| - 8;
            && p[..|m|] == m && |m| < end
            && (j < end ==> p[j] == if j == |m| then 0x80 else 0)
            && Words(p[end..]) == [bits / 0x1_0000_0000, bits % 0x1_0000_0000]
  {
    hide LengthField;
    assert Padded(m, bits)[|Padded(m, bits)| - 8..] == LengthField(bits);
    LengthWords(bits);
    assert Padded(m, bits)[..|m|] == m;
  }

  lemma LengthWords(bits: u64)
    ensures Words(LengthField(bits)) == [bits / 0x1_0000_0000, bits % 0x1_0000_0000]
  {
    WordsOfBytes([bits / 0x1_0000_0000, bits % 0x1_0000_0000]);
  }

  /** Block j of a message of whole blocks, counted from one. */
  function BlockAt(p: seq<u8>, j: nat): Block
    requires 0 < 64 * j <= |p|
  {
    Words(p[64 * j - 64..64 * j])
  }

  lemma {:induction false} AbsorbedIsChain(f: Sha, start: State, p: seq<u8>, i: nat) returns (hs: seq<State>)
    requires 64 * i <= |p|
    ensures |hs| == i + 1 && hs[0] == start && hs[i] == Absorbed(f, start, p[..64 * i])
    ensures forall j :: 0 < j <= i ==> hs[j] == f.compress(hs[j - 1], BlockAt(p, j))
  {
    hide BlockAt, Absorbed;
    if i == 0 {
      NothingAbsorbed(f, start, p);
      hs := [start];
    } else {
      var before := AbsorbedIsChain(f, start, p, i - 1);
      hs := before + [f.compress(before[i - 1], BlockAt(p, i))];
      forall j | 0 < j <= i
        ensures hs[j] == f.compress(hs[j - 1], BlockAt(p, j))
      {
        if j < i {
          assert hs[j] == before[j] && hs[j - 1] == before[j - 1];
        }
      }
      NextAbsorbed(f, start, p, i);
    }
  }

  lemma NothingAbsorbed(f: Sha, start: State, p: seq<u8>)
    ensures Absorbed(f, start, p[..64 * 0]) == start
  {
  }

  lemma NextAbsorbed(f: Sha, start: State, p: seq<u8>, i: nat)
    requires 0 < 64 * i <= |p|
    ensures Absorbed(f, start, p[..64 * i]) == f.compress(Absorbed(f, start, p[..64 * (i - 1)]), BlockAt(p, i))
  {
    assert p[..64 * i][..64 * i - 64] == p[..64 * (i - 1)];
    assert p[..64 * i][64 * i - 64..] == p[64 * i - 64..64 * i];
  }

  /** The hash is the last of a chain of states, from the initial value over every block of the padded message. */
  lemma HashIsChain(f: Sha, m: seq<u8>) returns (hs: seq<State>)
    ensures var p := Padded(m, 8 * |m| % 0x1_0000_0000_0000_0000);
            && |hs| == (|m| + 72) / 64 + 1 && hs[0] == f.iv && Hash(f, m) == Bytes(hs[|hs| - 1])
            && |p| == 64 * (|hs| - 1)
            && forall j :: 0 < j < |hs| ==> hs[j] == f.compress(hs[j - 1], Words(p[64 * j - 64..64 * j]))
  {
    hide Padded, Words, Bytes, Absorbed;
    var p := Padded(m, 8 * |m| % 0x1_0000_0000_0000_0000);
    PaddedLength(m, 8 * |m| % 0x1_0000_0000_0000_0000);
    hs := AbsorbedIsChain(f, f.iv, p, (|m| + 72) / 64);
    assert p[..|p|] == p;
  }

  lemma {:induction false} AbsorbedConcat(f: Sha, start: State, a: seq<u8>, b: seq<u8>)
    requires |a| % 64 == 0 && |b| % 64 == 0
    ensures Absorbed(f, start, a + b) == Absorbed(f, Absorbed(f, start, a), b)
    decreases |b|
  {
    if b == [] {
      assert a + b == a;
    } else {
      var n := |b| - 64;
      AbsorbedConcat(f, start, a, b[..n]);
      assert (a + b)[..|a + b| - 64] == a + b[..n];
      assert (a + b)[|a + b| - 64..] == b[n..];
    }
  }

  lemma OneBlock(f: Sha, start: State, b: seq<u8>)
    requires |b| == 64
    ensures Absorbed(f, start, b) == f.compress(start, Words(b))
  {
    assert b[..0] == [] && b[0..] == b;
  }

  lemma PaddedPrefix(prefix: seq<u8>, data: seq<u8>, bits: u64)
    requires |prefix| % 64 == 0
    ensures Padded(prefix + data, bits) == prefix + Padded(data, bits)
  {
    hide LengthField;
    assert |prefix + data| % 64 == |data| % 64;
  }

  lemma DigestIs(f: Sha, start: State, offset: nat, data: seq<u8>, bits: u64)
    requires bits == (offset + 8 * |data|) % TWO64
    ensures Digest(f, start, offset, data) == Bytes(Absorbed(f, start, Padded(data, bits)))
  {
    hide Absorbed, Padded, Bytes;
  }

  /** Continuing from the state after some whole blocks gives the hash of everything. */
  lemma Resumed(f: Sha, prefix: seq<u8>, data: seq<u8>)
    requires |prefix| % 64 == 0
    ensures Digest(f, Absorbed(f, f.iv, prefix), 8 * |prefix|, data) == Hash(f, prefix + data)
  {
    hide Absorbed, Padded, Bytes, Digest;
    var bits := (8 * |prefix| + 8 * |data|) % TWO64;
    DigestIs(f, Absorbed(f, f.iv, prefix), 8 * |prefix|, data, bits);
    DigestIs(f, f.iv, 0, prefix + data, bits);
    PaddedPrefix(prefix, data, bits);
    AbsorbedConcat(f, f.iv, prefix, Padded(data, bits));
  }

  // ---------- The context ----------

  /** What the fields of a context say: the state after the whole blocks of `data`, the rest in the buffer. */
  ghost predicate Holding(f: Sha, start: State, offset: nat, data: seq<u8>, state: State, bitcount: int,
    buffer: seq<u8>)
  {
    var used := |data| % 64;
    && |buffer| == 64 && offset % 512 == 0 && bitcount == (offset + 8 * |data|) % TWO64
    && state == Absorbed(f, start, data[..|data| - used]) && buffer[..used] == data[|data| - used..]
  }

  lemma UsedSpace(offset: nat, n: nat)
    requires offset % 512 == 0
    ensures (offset + 8 * n) % TWO64 / 8 % 64 == n % 64
  {
    var t := offset + 8 * n;
    assert t % TWO64 / 8 % 64 == t / 8 % 64 by {
      var q := t / TWO64;
      assert t == q * TWO64 + t % TWO64;
      assert t / 8 == q * 0x2000_0000_0000_0000 + t % TWO64 / 8;
      assert t / 8 == q * 0x80_0000_0000_0000 * 64 + t % TWO64 / 8;
      ModAddMultiple(t % TWO64 / 8, q * 0x80_0000_0000_0000, 64);
    }
    assert t / 8 == offset / 512 * 64 + n;
    ModAddMultiple(n, offset / 512, 64);
  }

  lemma CountBits(offset: nat, n: nat, k: nat)
    ensures ((offset + 8 * n) % TWO64 + 8 * k) % TWO64 == (offset + 8 * (n + k)) % TWO64
  {
    CongAdd((offset + 8 * n) % TWO64, offset + 8 * n, 8 * k, 8 * k, TWO64);
  }

  lemma HoldsNothing(f: Sha, start: State, bits: u64, buffer: seq<u8>)
    requires |buffer| == 64 && bits % 512 == 0
    ensures Holding(f, start, bits, [], start, bits, buffer)
  {
    DivModUnique(bits, 0, bits, TWO64);
  }

  /** The bytes x copied behind the used part of the buffer. */
  function Filled(buffer: seq<u8>, used: nat, x: seq<u8>): (b: seq<u8>)
    requires used + |x| <= |buffer|
    ensures |b| == |buffer|
  {
    buffer[..used] + x + buffer[used + |x|..]
  }

  lemma SumBelow(n: nat, k: nat)
    requires n % 64 + k < 64
    ensures (n + k) % 64 == n % 64 + k
  {
  }

  /** More bytes that do not fill the buffer. */
  lemma HoldsMore(f: Sha, start: State, offset: nat, data: seq<u8>, state: State, bitcount: int, buffer: seq<u8>,
    x: seq<u8>)
    requires Holding(f, start, offset, data, state, bitcount, buffer) && |data| % 64 + |x| < 64
    ensures Holding(f, start, offset, data + x, state, (bitcount + 8 * |x|) % TWO64, Filled(buffer, |data| % 64, x))
  {
    hide Absorbed;
    var used, all := |data| % 64, data + x;
    CountBits(offset, |data|, |x|);
    SumBelow(|data|, |x|);
    assert all[..|all| - used - |x|] == data[..|data| - used];
    assert all[|all| - used - |x|..] == data[|data| - used..] + x;
  }

  lemma BlockCompleted(data: seq<u8>, buffer: seq<u8>, x: seq<u8>)
    requires |buffer| == 64 && |data| % 64 + |x| == 64
    requires buffer[..|data| % 64] == data[|data| - |data| % 64..]
    ensures |data + x| % 64 == 0 && |data[..|data| - |data| % 64]| % 64 == 0
    ensures data + x == data[..|data| - |data| % 64] + Filled(buffer, |data| % 64, x)
  {
    DivModUnique(|data + x|, |data| / 64 + 1, 0, 64);
    DivModUnique(|data| - |data| % 64, |data| / 64, 0, 64);
  }

  /** Bytes that complete a block, which is compressed. */
  lemma HoldsBlock(f: Sha, start: State, offset: nat, data: seq<u8>, state: State, bitcount: int, buffer: seq<u8>,
    x: seq<u8>)
    requires Holding(f, start, offset, data, state, bitcount, buffer) && |data| % 64 + |x| == 64
    ensures var b := Filled(buffer, |data| % 64, x);
            Holding(f, start, offset, data + x, f.compress(state, Words(b)), (bitcount + 8 * |x|) % TWO64, b)
  {
    hide Absorbed;
    var used, all := |data| % 64, data + x;
    var b := Filled(buffer, used, x);
    CountBits(offset, |data|, |x|);
    BlockCompleted(data, buffer, x);
    assert all[..|all|] == all;
    AbsorbedConcat(f, start, data[..|data| - used], b);
    OneBlock(f, state, b);
  }

  lemma OneBlockMore(data: seq<u8>, bits: u64)
    requires |data| % 64 < 56
    ensures var n := |data| - |data| % 64;
            Padded(data, bits) == data[..n] + (data[n..] + [0x80] + Zeros(55 - |data| % 64) + LengthField(bits))
  {
    hide LengthField, Zeros;
  }

  lemma TwoBlocks(data: seq<u8>, bits: u64)
    requires |data| % 64 >= 56
    ensures var n := |data| - |data| % 64;
            Padded(data, bits)
            == data[..n] + (data[n..] + [0x80] + Zeros(63 - |data| % 64) + (Zeros(56) + LengthField(bits)))
  {
    hide LengthField;
    assert Zeros(119 - |data| % 64) == Zeros(63 - |data| % 64) + Zeros(56);
  }

  /** Where the end of the message and the padding share the last block. */
  lemma PaddedInOne(f: Sha, start: State, offset: nat, data: seq<u8>, state: State, bitcount: u64, buffer: seq<u8>,
    last: seq<u8>)
    requires Holding(f, start, offset, data, state, bitcount, buffer) && |data| % 64 < 56
    requires last == buffer[..|data| % 64] + [0x80] + Zeros(55 - |data| % 64) + LengthField(bitcount)
    ensures Bytes(f.compress(state, Words(last))) == Digest(f, start, offset, data)
  {
    hide Absorbed, Padded, Digest, LengthField, Zeros;
    var used := |data| % 64;
    var head := data[..|data| - used];
    OneBlockMore(data, bitcount);
    DigestIs(f, start, offset, data, bitcount);
    AbsorbedConcat(f, start, head, last);
    OneBlock(f, state, last);
  }

  /** Where the padding takes a block of its own. */
  lemma PaddedInTwo(f: Sha, start: State, offset: nat, data: seq<u8>, state: State, bitcount: u64, buffer: seq<u8>,
                    first: seq<u8>, last: seq<u8>)
    requires Holding(f, start, offset, data, state, bitcount, buffer) && |data| % 64 >= 56
    requires first == buffer[..|data| % 64] + [0x80] + Zeros(63 - |data| % 64)
      && last == Zeros(56) + LengthField(bitcount)
    ensures Bytes(f.compress(f.compress(state, Words(first)), Words(last))) == Digest(f, start, offset, data)
  {
    hide Absorbed, Padded, Digest, LengthField, Zeros;
    var used := |data| % 64;
    var head := data[..|data| - used];
    TwoBlocks(data, bitcount);
    DigestIs(f, start, offset, data, bitcount);
    AbsorbedConcat(f, start, head, first + last);
    AbsorbedConcat(f, state, first, last);
    OneBlock(f, state, first);
    OneBlock(f, f.compress(state, Words(first)), last);
  }

  lemma ShortPadding(b: seq<u8>, n: nat, length: seq<u8>)
    requires |b| == 64 && n < 56 && |length| == 8
    ensures Filled(Filled(b[n := 0x80], n + 1, Zeros(55 - n)), 56, length) == b[..n] + [0x80] + Zeros(55 - n) + length
  {
    hide Zeros;
  }

  lemma LongPadding(b: seq<u8>, n: nat)
    requires |b| == 64 && 56 <= n < 64
    ensures Filled(b[n := 0x80], n + 1, Zeros(63 - n)) == b[..n] + [0x80] + Zeros(63 - n)
  {
    hide Zeros;
  }

  lemma LastPadding(b: seq<u8>, length: seq<u8>)
    requires |b| == 64 && |length| == 8
    ensures Filled(Filled(b, 0, Zeros(56)), 56, length) == Zeros(56) + length
  {
    hide Zeros;
  }

  lemma WholeBuffer(b: seq<u8>, z: seq<u8>)
    requires |b| == |z|
    ensures Filled(b, 0, z) == z
  {
  }

  /** Copies x to position `at` (memcpy). */
  method Copy(buffer: array<u8>, at: nat, x: seq<u8>)
    requires at + |x| <= buffer.Length
    modifies buffer
    ensures buffer[..] == Filled(old(buffer[..]), at, x)
  {
    for k := 0 to |x|
      invariant forall m :: at <= m < at + k ==> buffer[m] == x[m - at]
      invariant forall m :: 0 <= m < at || at + |x| <= m < buffer.Length ==> buffer[m] == old(buffer[m])
    {
      buffer[at + k] := x[k];
    }
  }

  /** Sets positions from `at` to `end` to zero (memzero). */
  method Clear(buffer: array<u8>, at: nat, end: nat)
    requires at <= end <= buffer.Length
    modifies buffer
    ensures buffer[..] == Filled(old(buffer[..]), at, Zeros(end - at))
  {
    for k := at to end
      invariant forall m :: at <= m < k ==> buffer[m] == 0
      invariant forall m :: 0 <= m < at || end <= m < buffer.Length ==> buffer[m] == old(buffer[m])
    {
      buffer[k] := 0;
    }
  }

  class Context {
    const f: Sha
    var state: State
    var bitcount: u64
    const buffer: array<u8>

    // The message absorbed so far, and what it continues.
    ghost var start: State
    ghost var offset: nat
    ghost var data: seq<u8>

    ghost predicate Valid()
      reads this, buffer
    {
      buffer.Length == 64 && Holding(f, start, offset, data, state, bitcount, buffer[..])
    }

    constructor (f: Sha)
      ensures Valid() && fresh(buffer) && this.f == f && start == f.iv && offset == 0 && data == []
    {
      this.f := f;
      state, bitcount := f.iv, 0;
      buffer := new u8[64](k => 0);
      start, offset, data := f.iv, 0, [];
    }

    /** Starts a new message (sha256_Init). */
    method Init()
      requires buffer.Length == 64
      modifies this, buffer
      ensures Valid() && start == f.iv && offset == 0 && data == []
    {
      hide Holding, Filled;
      state, bitcount := f.iv, 0;
      start, offset, data := f.iv, 0, [];
      Clear(buffer, 0, 64);
      HoldsNothing(f, f.iv, 0, buffer[..]);
    }

    /** Continues from a state that stands for `bits` bits of whole blocks (sha256_Init_ex). */
    method InitEx(from: State, bits: u64)
      requires buffer.Length == 64 && bits % 512 == 0
      modifies this, buffer
      ensures Valid() && start == from && offset == bits && data == []
    {
      hide Holding, Filled;
      state, bitcount := from, bits;
      start, offset, data := from, bits, [];
      Clear(buffer, 0, 64);
      HoldsNothing(f, from, bits, buffer[..]);
    }

    /** Copies part of the input, counts it, and compresses the buffer if that fills it. */
    method Absorb(used: nat, x: seq<u8>)
      requires Valid() && used == |data| % 64 && used + |x| <= 64
      modifies this, buffer
      ensures Valid() && data == old(data) + x && start == old(start) && offset == old(offset)
    {
      hide Absorbed;
      ghost var before := buffer[..];
      Copy(buffer, used, x);
      if used + |x| == 64 {
        HoldsBlock(f, start, offset, data, state, bitcount, before, x);
        state := f.compress(state, Words(buffer[..]));
      } else {
        HoldsMore(f, start, offset, data, state, bitcount, before, x);
      }
      bitcount := (bitcount as int + 8 * |x|) % TWO64;
      data := data + x;
    }

    /** Absorbs more of the message (sha256_Update): however it is split, the same message is absorbed. */
    method Update(input: seq<u8>)
      requires Valid()
      modifies this, buffer
      ensures Valid() && data == old(data) + input && start == old(start) && offset == old(offset)
    {
      hide Holding;
      if |input| == 0 {
        assert data + input == data;
        return;
      }
      ghost var before := data;
      var used := UsedBytes();
      var pos := 0;
      if used > 0 {
        var free := 64 - used;
        if |input| >= free {
          Absorb(used, input[..free]);
          pos := free;
        } else {
          Absorb(used, input);
          return;
        }
      }
      while |input| - pos >= 64
        invariant pos <= |input| && Valid() && start == old(start) && offset == old(offset)
        invariant data == before + input[..pos] && |data| % 64 == 0
      {
        Absorb(0, input[pos..pos + 64]);
        assert input[..pos + 64] == input[..pos] + input[pos..pos + 64];
        pos := pos + 64;
      }
      if |input| - pos > 0 {
        Absorb(0, input[pos..]);
      }
      assert input == input[..pos] + input[pos..];
    }

    method UsedBytes() returns (used: nat)
      requires Valid()
      ensures used == |data| % 64
    {
      UsedSpace(offset, |data|);
      used := bitcount / 8 % 64;
    }

    /** Pads the message, gives its digest, and wipes the context (sha256_Final). */
    method Final() returns (digest: seq<u8>)
      requires Valid()
      modifies this, buffer
      ensures digest == Digest(f, old(start), old(offset), old(data))
      ensures buffer[..] == Zeros(buffer.Length) && state == Zeros(8) && bitcount == 0
    {
      hide Absorbed, Digest, Filled, Zeros, LengthField;
      var used := UsedBytes();
      ghost var n, b, s := used, buffer[..], state;
      buffer[used] := 0x80;
      assert buffer[..] == b[n := 0x80];
      used := used + 1;
      if used > SHORT_BLOCK_LENGTH {
        Clear(buffer, used, 64);
        LongPadding(b, n);
        ghost var first := buffer[..];
        state := f.compress(state, Words(buffer[..]));
        used := 0;
        Clear(buffer, 0, 56);
        WriteLength();
        LastPadding(first, LengthField(bitcount));
        PaddedInTwo(f, start, offset, data, s, bitcount, b, first, buffer[..]);
      } else {
        Clear(buffer, used, 56);
        WriteLength();
        ShortPadding(b, n, LengthField(bitcount));
        PaddedInOne(f, start, offset, data, s, bitcount, b, buffer[..]);
      }
      state := f.compress(state, Words(buffer[..]));
      digest := Bytes(state);
      WholeBuffer(buffer[..], Zeros(64));
      Clear(buffer, 0, 64);
      state, bitcount := Zeros(8), 0;
    }

    /** The bit count in the last two words of the buffer. */
    method WriteLength()
      requires buffer.Length == 64
      modifies buffer
      ensures buffer[..] == Filled(old(buffer[..]), 56, LengthField(bitcount))
    {
      Copy(buffer, 56, Bytes([bitcount / 0x1_0000_0000, bitcount % 0x1_0000_0000]));
    }
  }
}

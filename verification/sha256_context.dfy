/** SHA-256 over a message given in pieces (scripts/mkhash.c): the block
    function on the source's arrays, the context with its state, count and
    buffer, the padding and the digest.  The count is 64 bits wide, a message
    may be longer. */
module Sha256Context {

  import opened Blocks
  import opened Sha256Core

  /** Operations on words, the word that four bytes stand for, and the bytes
      of a word. */
  datatype Words<!W> = Words(ops: Ops<W>, word: (Byte, Byte, Byte, Byte) -> W, bytes: W -> Bytes, zero: W)

  /** FIPS 180-4, sections 5.2.1 and 6.2.2: one block is hashed. */
  function HashBlock<W>(o: Words<W>, v: Vars<W>, b: Bytes): Vars<W> {
    if |b| == 64 && |o.ops.k| == 64 then Compress(o.ops, v, Parse(o.word, b)) else v
  }

  function Hasher<W>(o: Words<W>): (Vars<W>, Bytes) -> Vars<W> {
    (v, b) => HashBlock(o, v, b)
  }

  /** Section 5.1.1 for whole bytes.  The bit length is taken modulo 2^64 for
      messages longer than the standard allows. */
  function Pad(msg: Bytes): Bytes {
    PadWith(msg, BeBytes(Bits(|msg|), 8))
  }

  /** The message digest. */
  function Digest<W>(o: Words<W>, init: Vars<W>, msg: Bytes): Bytes {
    Encode(o.bytes, WordsOf(HashBlocks(Hasher(o), init, Pad(msg))))
  }

  function WordsOf<W>(v: Vars<W>): (s: seq<W>)
    ensures |s| == 8 && AsVars(s) == v
  {
    [v.a, v.b, v.c, v.d, v.e, v.f, v.g, v.h]
  }

  function Encode<W>(bytes: W -> Bytes, s: seq<W>): Bytes {
    if s == [] then [] else Encode(bytes, s[..|s| - 1]) + bytes(s[|s| - 1])
  }

  // ----- the source's block function -----

  function RndBlock<W>(p: Words<W>, v: Vars<W>, b: Bytes): Vars<W> {
    if |b| == 64 && |p.ops.k| == 64 then RndCompress(p.ops, v, Parse(p.word, b)) else v
  }

  function RndHasher<W>(p: Words<W>): (Vars<W>, Bytes) -> Vars<W> {
    (v, b) => RndBlock(p, v, b)
  }

  lemma SameBlock<W(!new)>(o: Words<W>, p: Words<W>, v: Vars<W>, b: Bytes)
    requires SameOps(o.ops, p.ops) && p.word == o.word
    ensures RndBlock(p, v, b) == HashBlock(o, v, b)
  {
    if |b| == 64 {
      SameCompress(o.ops, p.ops, v, Parse(o.word, b));
    }
  }

  lemma SameHash<W(!new)>(o: Words<W>, p: Words<W>, init: Vars<W>, s: Bytes)
    requires SameOps(o.ops, p.ops) && p.word == o.word
    ensures HashBlocks(RndHasher(p), init, s) == HashBlocks(Hasher(o), init, s)
  {
    forall v, b ensures RndBlock(p, v, b) == HashBlock(o, v, b) {
      SameBlock(o, p, v, b);
    }
    HashFirstSame(RndHasher(p), Hasher(o), init, s, |s| / 64);
  }

  // ----- counters -----

  /** The 64-bit counter that has run over `wraps` times. */
  predicate Counts(count: nat, wraps: nat, n: nat) {
    count < TWO64 && count + wraps * 0x1_0000_0000_0000_0000 == 8 * n
  }

  lemma CountIsBits(count: nat, wraps: nat, n: nat)
    requires Counts(count, wraps, n)
    ensures count == Bits(n) && count < TWO64
  {
    var q := 8 * n / TWO64;
    assert q * 0x1_0000_0000_0000_0000 <= 8 * n < (q + 1) * 0x1_0000_0000_0000_0000;
    if q < wraps {
      assert false;
    } else if wraps < q {
      assert false;
    }
  }

  /** The number r of SHA256_Update and SHA256_Pad. */
  lemma CountTail(count: nat, wraps: nat, n: nat)
    requires Counts(count, wraps, n)
    ensures count / 8 % 64 == n % 64
  {
    var t := wraps * 0x80_0000_0000_0000;
    var k := n - 64 * t;
    assert count == 8 * k;
    assert count / 8 == k;
    TimesMod(k, t);
  }


  lemma Shifts(u: nat)
    requires u < TWO32
    ensures u / 256 / 256 == u / 0x1_0000
    ensures u / 256 / 256 / 256 == u / 0x100_0000 < 256
  {
  }

  /** be32enc writes the four bytes of its argument. */
  lemma FourBytes(u: nat)
    requires u < TWO32
    ensures BeBytes(u, 4) == [ByteOf(u / 0x100_0000), ByteOf(u / 0x1_0000), ByteOf(u / 0x100), ByteOf(u)]
  {
    Shifts(u);
    var u1 := u / 256;
    var u2 := u1 / 256;
    var u3 := u2 / 256;
    assert BeBytes(u, 4) == BeBytes(u1, 3) + [ByteOf(u)];
    assert BeBytes(u1, 3) == BeBytes(u2, 2) + [ByteOf(u1)];
    assert BeBytes(u2, 2) == BeBytes(u3, 1) + [ByteOf(u2)];
    assert BeBytes(u3, 1) == [ByteOf(u3)];
  }

  lemma EightBytes(u: nat)
    requires u < TWO64
    ensures BeBytes(u, 8) == BeBytes(u / TWO32, 4) + BeBytes(u % TWO32, 4)
  {
    var u1 := u / 256;
    var u2 := u1 / 256;
    var u3 := u2 / 256;
    assert u3 / 256 == u / TWO32;
    assert BeBytes(u, 8) == BeBytes(u1, 7) + [ByteOf(u)];
    assert BeBytes(u1, 7) == BeBytes(u2, 6) + [ByteOf(u1)];
    assert BeBytes(u2, 6) == BeBytes(u3, 5) + [ByteOf(u2)];
    assert BeBytes(u3, 5) == BeBytes(u / TWO32, 4) + [ByteOf(u3)];
    FourBytes(u % TWO32);
    LowWord(u);
  }

  lemma LowWord(u: nat)
    ensures u % TWO32 / 0x100_0000 % 256 == u / 256 / 256 / 256 % 256
    ensures u % TWO32 / 0x1_0000 % 256 == u / 256 / 256 % 256
    ensures u % TWO32 / 0x100 % 256 == u / 256 % 256
    ensures u % TWO32 % 256 == u % 256
  {
    var q, r := u / TWO32, u % TWO32;
    assert u / 256 == q * 0x100_0000 + r / 0x100;
    assert u / 256 / 256 == q * 0x1_0000 + r / 0x1_0000;
    assert u / 256 / 256 / 256 == q * 256 + r / 0x100_0000;
  }

  method Be32EncAt(p: array<Byte>, at: nat, u: nat)
    requires at + 4 <= p.Length && u < TWO32
    modifies p
    ensures p[..] == old(p[..at]) + BeBytes(u, 4) + old(p[at + 4..])
  {
    FourBytes(u);
    p[at] := ByteOf(u / 0x100_0000);
    p[at + 1] := ByteOf(u / 0x1_0000);
    p[at + 2] := ByteOf(u / 0x100);
    p[at + 3] := ByteOf(u);
  }

  /** be64enc */
  method Be64EncAt(p: array<Byte>, at: nat, u: nat)
    requires at + 8 <= p.Length && u < TWO64
    modifies p
    ensures p[..] == old(p[..at]) + BeBytes(u, 8) + old(p[at + 8..])
  {
    EightBytes(u);
    Be32EncAt(p, at, u / TWO32);
    Be32EncAt(p, at + 4, u % TWO32);
  }

  const PAD: Bytes := [0x80] + Zeros(63)

  /** SHA256_CTX over words W.  `msg` is what was hashed so far. */
  class Context<W(0)> {
    const p: Words<W>
    const h0: Vars<W>
    /** The block function that TransformBlock computes. */
    ghost const f: (Vars<W>, Bytes) -> Vars<W>
    const state: array<W>
    var count: nat
    ghost var wraps: nat
    const buf: array<Byte>
    ghost var msg: Bytes

    ghost predicate Shape() {
      state.Length == 8 && buf.Length == 64 && |p.ops.k| == 64 && f == RndHasher(p)
    }

    /** The state folds all complete blocks of `s`, and the buffer starts with
        the bytes after them. */
    ghost predicate Folds(s: Bytes)
      reads state, buf
    {
      Shape() && AsVars(state[..]) == HashBlocks(f, h0, s) && buf[..|s| % 64] == Tail(s)
    }

    /** The count is the length of the message in bits. */
    ghost predicate Valid()
      reads this, state, buf
    {
      Folds(msg) && Counts(count, wraps, |msg|)
    }

    constructor (p: Words<W>, h0: Vars<W>)
      requires |p.ops.k| == 64
      ensures Shape() && fresh(state) && fresh(buf) && this.p == p && this.h0 == h0
    {
      this.p := p;
      this.h0 := h0;
      this.f := RndHasher(p);
      state := new W[8];
      buf := new Byte[64];
    }

    /** SHA256_Init */
    method Init()
      requires Shape()
      modifies this, state
      ensures Valid() && msg == []
    {
      count, wraps := 0, 0;
      msg := [];
      InitState();
      NothingHashed(f, h0, msg);
    }

    method InitState()
      requires Shape()
      modifies state
      ensures AsVars(state[..]) == h0
    {
      state[0], state[1], state[2], state[3] := h0.a, h0.b, h0.c, h0.d;
      state[4], state[5], state[6], state[7] := h0.e, h0.f, h0.g, h0.h;
    }

    /** be32dec_vect */
    method Decode(block: Bytes) returns (m: array<W>)
      requires |block| == 64
      ensures fresh(m) && m[..] == Parse(p.word, block)
    {
      m := new W[16];
      for i := 0 to 16
        invariant forall t :: 0 <= t < i ==> m[t] == Parse(p.word, block)[t]
      {
        m[i] := p.word(block[i * 4], block[i * 4 + 1], block[i * 4 + 2], block[i * 4 + 3]);
      }
    }

    /** SHA256_Transform */
    method TransformBlock(block: Bytes)
      requires Shape() && |block| == 64
      modifies state
      ensures AsVars(state[..]) == f(old(AsVars(state[..])), block)
    {
      var m := Decode(block);
      Transform(p.ops, state, m[..]);
    }

    /** SHA256_Update */
    method Update(data: Bytes)
      requires Valid()
      modifies this, state, buf
      ensures Valid() && msg == old(msg) + data
    {
      var r := Used();
      AddBits(|msg|, |data|);
      if |data| < 64 - r {
        Append(msg, r, data);
      } else {
        Absorb(msg, r, data);
      }
      msg := msg + data;
    }

    method Absorb(ghost s: Bytes, r: nat, data: Bytes)
      requires Folds(s) && r == |s| % 64 && |data| >= 64 - r
      modifies state, buf
      ensures Folds(s + data)
    {
      var src := Fill(s, r, data);
      src := TakeBlocks(s + data, src);
      Leave(s + data, src);
    }

    /** The number of bytes in the buffer, from the count. */
    method Used() returns (r: nat)
      requires Counts(count, wraps, |msg|)
      ensures r == |msg| % 64
    {
      CountTail(count, wraps, |msg|);
      r := count / 8 % 64;
    }

    method AddBits(ghost n: nat, len: nat)
      requires Counts(count, wraps, n)
      modifies `count, `wraps
      ensures Counts(count, wraps, n + len)
    {
      var bitlen := len * 8 % TWO64;
      ghost var over := len * 8 / TWO64;
      wraps := wraps + over + (count + bitlen) / TWO64;
      count := (count + bitlen) % TWO64;
    }

    method Append(ghost s: Bytes, r: nat, data: Bytes)
      requires Folds(s) && r == |s| % 64 && |data| < 64 - r
      modifies buf
      ensures Folds(s + data)
    {
      Buffered(f, h0, s, data);
      CopyIn(buf, r, data);
      assert buf[..r + |data|] == Tail(s) + data;
    }

    /** Completes the block under way. */
    method Fill(ghost s: Bytes, r: nat, data: Bytes) returns (src: Bytes)
      requires Folds(s) && r == |s| % 64 && |data| >= 64 - r
      modifies state, buf
      ensures Pending(f, h0, s + data, src, AsVars(state[..]))
    {
      CopyToEnd(buf, r, data[..64 - r]);
      PendingAfterFill(f, h0, s, data, 64 - r);
      TransformBlock(buf[..]);
      src := data[64 - r..];
    }

    /** Hashes the complete blocks that follow. */
    method TakeBlocks(ghost s: Bytes, all: Bytes) returns (src: Bytes)
      requires Shape() && Pending(f, h0, s, all, AsVars(state[..]))
      modifies state
      ensures AsVars(state[..]) == HashBlocks(f, h0, s)
      ensures src == Tail(s) && |src| == |s| % 64
    {
      src := all;
      while |src| >= 64
        invariant Pending(f, h0, s, src, AsVars(state[..]))
      {
        BlockTaken(f, h0, s, src, AsVars(state[..]));
        TransformBlock(src[..64]);
        src := src[64..];
      }
      Remainder(f, h0, s, src, AsVars(state[..]));
    }

    /** Keeps the bytes after the last complete block. */
    method Leave(ghost s: Bytes, src: Bytes)
      requires Shape() && AsVars(state[..]) == HashBlocks(f, h0, s)
      requires src == Tail(s) && |src| == |s| % 64
      modifies buf
      ensures Folds(s)
    {
      CopyIn(buf, 0, src);
    }

    method UpdateAll(chunks: seq<Bytes>)
      requires Valid() && msg == []
      modifies this, state, buf
      ensures Valid() && msg == Concat(chunks)
    {
      for i := 0 to |chunks|
        invariant Valid() && msg == Concat(chunks[..i])
      {
        assert chunks[..i + 1][..i] == chunks[..i];
        Update(chunks[i]);
      }
      assert chunks[..|chunks|] == chunks;
    }

    /** SHA256_Pad */
    method PadOut()
      requires Valid()
      modifies state, buf
      ensures AsVars(state[..]) == HashBlocks(f, h0, Pad(msg))
    {
      var r := Used();
      CountIsBits(count, wraps, |msg|);
      if r < 56 {
        PadShortBlock(r);
      } else {
        PadLongBlock(r);
      }
    }

    method PadShortBlock(r: nat)
      requires Valid() && r == |msg| % 64 < 56 && count == Bits(|msg|)
      modifies state, buf
      ensures AsVars(state[..]) == HashBlocks(f, h0, Pad(msg))
    {
      CopyIn(buf, r, PAD[..56 - r]);
      assert buf[..56] == Tail(msg) + ([0x80] + Zeros(55 - r));
      LastBlock(Tail(msg) + ([0x80] + Zeros(55 - r)), AsVars(state[..]));
      EndShort(f, h0, msg, BeBytes(count, 8), buf[..]);
    }

    method PadLongBlock(r: nat)
      requires Valid() && r == |msg| % 64 >= 56 && count == Bits(|msg|)
      modifies state, buf
      ensures AsVars(state[..]) == HashBlocks(f, h0, Pad(msg))
    {
      CopyToEnd(buf, r, PAD[..64 - r]);
      ghost var first := buf[..];
      assert first == Tail(msg) + ([0x80] + Zeros(63 - r));
      TransformBlock(buf[..]);
      CopyIn(buf, 0, Zeros(56));
      LastBlock(Zeros(56), AsVars(state[..]));
      EndLong(f, h0, msg, BeBytes(count, 8), first, buf[..]);
    }

    /** The count completes the buffer, and the buffer is hashed. */
    method LastBlock(ghost start: Bytes, ghost v: Vars<W>)
      requires Shape() && count < TWO64 && buf[..56] == start && AsVars(state[..]) == v
      modifies state, buf
      ensures buf[..] == start + BeBytes(count, 8) && AsVars(state[..]) == f(v, buf[..])
    {
      Be64EncAt(buf, 56, count);
      assert buf[..] == start + BeBytes(count, 8);
      TransformBlock(buf[..]);
    }

    /** SHA256_Final */
    method Final() returns (digest: Bytes)
      requires Valid()
      modifies this, state, buf
      ensures digest == Encode(p.bytes, WordsOf(HashBlocks(f, h0, Pad(old(msg)))))
      ensures count == 0 && (forall i :: 0 <= i < 8 ==> state[i] == p.zero) && buf[..] == Zeros(64)
    {
      PadOut();
      digest := EncodeState();
      Clear();
    }

    /** be32enc_vect */
    method EncodeState() returns (digest: Bytes)
      requires Shape()
      ensures digest == Encode(p.bytes, WordsOf(AsVars(state[..])))
    {
      digest := [];
      ghost var s := state[..];
      for i := 0 to 8
        invariant digest == Encode(p.bytes, s[..i])
      {
        assert s[..i + 1][..i] == s[..i];
        digest := digest + p.bytes(state[i]);
      }
      assert s[..8] == s == WordsOf(AsVars(s));
    }

    /** The memset of the context. */
    method Clear()
      requires Shape()
      modifies this, state, buf
      ensures count == 0 && (forall i :: 0 <= i < 8 ==> state[i] == p.zero) && buf[..] == Zeros(64)
    {
      count := 0;
      forall i | 0 <= i < 8 {
        state[i] := p.zero;
      }
      forall i | 0 <= i < 64 {
        buf[i] := 0;
      }
    }
  }

  /** sha256_hash: the digest of a message that is read in any pieces. */
  method HashChunks<W(0)>(p: Words<W>, h0: Vars<W>, chunks: seq<Bytes>) returns (digest: Bytes)
    requires |p.ops.k| == 64
    ensures digest == Encode(p.bytes, WordsOf(HashBlocks(RndHasher(p), h0, Pad(Concat(chunks)))))
  {
    var ctx := new Context<W>(p, h0);
    ctx.Init();
    ctx.UpdateAll(chunks);
    digest := ctx.Final();
  }

  /** That is the digest of the standard. */
  lemma SourceDigest<W(!new)>(o: Words<W>, p: Words<W>, h0: Vars<W>, msg: Bytes)
    requires SameOps(o.ops, p.ops) && o == p.(ops := o.ops)
    ensures Encode(p.bytes, WordsOf(HashBlocks(RndHasher(p), h0, Pad(msg)))) == Digest(o, h0, msg)
  {
    SameHash(o, p, h0, Pad(msg));
  }
}

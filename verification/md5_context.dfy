/** MD5 over a message given in pieces (scripts/mkhash.c), for any words and
    any operation of the steps: the block function on renamed registers, the
    counter in two words of 29 and 32 bits, the padding and the digest. */
module Md5Context {

  import opened Blocks

  /** The four words a, b, c, d of RFC 1321, section 3.3. */
  datatype Regs<W> = Regs(a: W, b: W, c: W, d: W)

  /** The operation of step `i` on four registers and a message word, the word
      that four bytes stand for, and the bytes of a word. */
  datatype Words<!W> = Words(
    step: (nat, W, W, W, W, W) -> W,
    word: (Byte, Byte, Byte, Byte) -> W,
    bytes: W -> Bytes,
    add: (W, W) -> W,
    zero: W)

  /** The message word that step `i` uses; the source writes the numbers out. */
  function Index(i: nat): (k: nat)
    requires i < 64
    ensures k < 16
  {
    (if i < 16 then i else if i < 32 then 5 * i + 1 else if i < 48 then 3 * i + 5 else 7 * i) % 16
  }

  /** The registers after `n` steps, each of which changes the first register
      and moves it to the second place. */
  function Steps<W>(o: Words<W>, m: seq<W>, v: Regs<W>, n: nat): Regs<W>
    requires |m| == 16 && n <= 64
  {
    if n == 0 then v
    else
      var r := Steps(o, m, v, n - 1);
      Regs(r.d, o.step(n - 1, r.a, r.b, r.c, r.d, m[Index(n - 1)]), r.b, r.c)
  }

  function AddRegs<W>(o: Words<W>, v: Regs<W>, r: Regs<W>): Regs<W> {
    Regs(o.add(v.a, r.a), o.add(v.b, r.b), o.add(v.c, r.c), o.add(v.d, r.d))
  }

  /** One block is hashed. */
  function HashBlock<W>(o: Words<W>, v: Regs<W>, b: Bytes): Regs<W> {
    if |b| == 64 then AddRegs(o, Steps(o, Parse(o.word, b), v, 64), v) else v
  }

  function Hasher<W>(o: Words<W>): (Regs<W>, Bytes) -> Regs<W> {
    (v, b) => HashBlock(o, v, b)
  }

  /** Sections 3.1 and 3.2, for whole bytes. */
  function Pad(msg: Bytes): Bytes {
    PadWith(msg, LeBytes(Bits(|msg|), 8))
  }

  /** Section 3.5. */
  function Encode<W>(o: Words<W>, v: Regs<W>): Bytes {
    o.bytes(v.a) + o.bytes(v.b) + o.bytes(v.c) + o.bytes(v.d)
  }

  function Digest<W>(o: Words<W>, init: Regs<W>, msg: Bytes): Bytes {
    Encode(o, HashBlocks(Hasher(o), init, Pad(msg)))
  }

  // ----- equal operations -----

  ghost predicate SameStep<W(!new)>(o: Words<W>, p: Words<W>) {
    p == o.(step := p.step) &&
    forall i, a, b, c, d, x {:trigger p.step(i, a, b, c, d, x)} :: p.step(i, a, b, c, d, x) == o.step(i, a, b, c, d, x)
  }

  lemma {:induction false} SameSteps<W(!new)>(o: Words<W>, p: Words<W>, m: seq<W>, v: Regs<W>, n: nat)
    requires SameStep(o, p) && |m| == 16 && n <= 64
    ensures Steps(p, m, v, n) == Steps(o, m, v, n)
  {
    if n > 0 {
      SameSteps(o, p, m, v, n - 1);
    }
  }

  /** Operations of equal results give the same digests. */
  lemma SameDigest<W(!new)>(o: Words<W>, p: Words<W>, init: Regs<W>, msg: Bytes)
    requires SameStep(o, p)
    ensures Digest(p, init, msg) == Digest(o, init, msg)
  {
    forall v, b ensures HashBlock(p, v, b) == HashBlock(o, v, b) {
      if |b| == 64 {
        SameSteps(o, p, Parse(o.word, b), v, 64);
      }
    }
    HashFirstSame(Hasher(p), Hasher(o), init, Pad(msg), |Pad(msg)| / 64);
  }

  // ----- the block function -----

  /** The 64 steps.  The source writes them out and renames the registers
      instead of moving them. */
  method Transform<W>(p: Words<W>, m: seq<W>, v: Regs<W>) returns (r: Regs<W>)
    requires |m| == 16
    ensures r == AddRegs(p, Steps(p, m, v, 64), v)
  {
    r := v;
    for j := 0 to 16
      invariant r == Steps(p, m, v, 4 * j)
    {
      r := FourSteps(p, m, v, 4 * j, r);
    }
    r := Regs(p.add(r.a, v.a), p.add(r.b, v.b), p.add(r.c, v.c), p.add(r.d, v.d));
  }

  /** Steps a, d, c and b. */
  method FourSteps<W>(p: Words<W>, m: seq<W>, ghost v: Regs<W>, i: nat, r: Regs<W>) returns (t: Regs<W>)
    requires |m| == 16 && i + 4 <= 64 && r == Steps(p, m, v, i)
    ensures t == Steps(p, m, v, i + 4)
  {
    var a, b, c, d := r.a, r.b, r.c, r.d;
    OneStep(p, m, v, i, Regs(a, b, c, d));
    a := p.step(i, a, b, c, d, m[Index(i)]);
    OneStep(p, m, v, i + 1, Regs(d, a, b, c));
    d := p.step(i + 1, d, a, b, c, m[Index(i + 1)]);
    OneStep(p, m, v, i + 2, Regs(c, d, a, b));
    c := p.step(i + 2, c, d, a, b, m[Index(i + 2)]);
    OneStep(p, m, v, i + 3, Regs(b, c, d, a));
    b := p.step(i + 3, b, c, d, a, m[Index(i + 3)]);
    t := Regs(a, b, c, d);
  }

  lemma OneStep<W>(p: Words<W>, m: seq<W>, v: Regs<W>, n: nat, r: Regs<W>)
    requires |m| == 16 && n < 64 && r == Steps(p, m, v, n)
    ensures Steps(p, m, v, n + 1) == Regs(r.d, p.step(n, r.a, r.b, r.c, r.d, m[Index(n)]), r.b, r.c)
  {
  }

  // ----- the counter -----

  const TWO29: nat := 0x2000_0000

  /** The 29-bit and the 32-bit half of the byte count, which has run over
      `wraps` times. */
  predicate Counts(lo: nat, hi: nat, wraps: nat, n: nat) {
    lo < TWO29 && hi < TWO32 && lo + 0x2000_0000 * hi + 0x2000_0000_0000_0000 * wraps == n
  }

  lemma CountIsBits(lo: nat, hi: nat, wraps: nat, n: nat)
    requires Counts(lo, hi, wraps, n)
    ensures Bits(n) == 8 * lo + 0x1_0000_0000 * hi && 8 * lo < TWO32
  {
    var low := 8 * lo + 0x1_0000_0000 * hi;
    var q := 8 * n / TWO64;
    assert 8 * n == low + wraps * 0x1_0000_0000_0000_0000 && low < TWO64;
    assert q * 0x1_0000_0000_0000_0000 <= 8 * n < (q + 1) * 0x1_0000_0000_0000_0000;
    if q < wraps {
      assert false;
    } else if wraps < q {
      assert false;
    }
  }

  lemma LengthBytes(lo: nat, hi: nat, wraps: nat, n: nat)
    requires Counts(lo, hi, wraps, n)
    ensures LeBytes(Bits(n), 8) == LeBytes(lo * 8 % TWO32, 4) + LeBytes(hi, 4)
  {
    var low := 8 * lo;
    CountIsBits(lo, hi, wraps, n);
    assert lo * 8 % TWO32 == low;
    EightLeBytes(low, hi);
    assert Bits(n) == low + 0x1_0000_0000 * hi;
  }

  lemma CountTail(lo: nat, hi: nat, wraps: nat, n: nat)
    requires Counts(lo, hi, wraps, n)
    ensures lo % 64 == n % 64
  {
    var t := 0x80_0000 * hi + 0x80_0000_0000_0000 * wraps;
    TimesMod(lo, t);
  }

  /** MD5_CTX over words W.  `v` stands for the fields a, b, c and d, and
      `msg` is what was hashed so far. */
  class Context<W> {
    const p: Words<W>
    const init: Regs<W>
    ghost const f: (Regs<W>, Bytes) -> Regs<W>
    var lo: nat
    var hi: nat
    ghost var wraps: nat
    var v: Regs<W>
    const buffer: array<Byte>
    ghost var msg: Bytes

    ghost predicate Shape() {
      buffer.Length == 64 && f == Hasher(p)
    }

    /** The registers fold all complete blocks of `s`, and the buffer starts
        with the bytes after them. */
    ghost predicate Folds(s: Bytes)
      reads this`v, buffer
    {
      Shape() && v == HashBlocks(f, init, s) && buffer[..|s| % 64] == Tail(s)
    }

    ghost predicate Valid()
      reads this, buffer
    {
      Folds(msg) && Counts(lo, hi, wraps, |msg|)
    }

    constructor (p: Words<W>, init: Regs<W>)
      ensures Shape() && fresh(buffer) && this.p == p && this.init == init
    {
      this.p := p;
      this.init := init;
      this.f := Hasher(p);
      v := init;
      buffer := new Byte[64];
    }

    /** MD5_begin */
    method Begin()
      requires Shape()
      modifies this
      ensures Valid() && msg == []
    {
      v := init;
      msg := [];
      NothingHashed(f, init, msg);
      BeginCount();
    }

    method BeginCount()
      modifies `lo, `hi, `wraps
      ensures Counts(lo, hi, wraps, 0)
    {
      lo, hi, wraps := 0, 0, 0;
    }

    /** MD5_body: `blocks` blocks of `data` are hashed. */
    method Body(data: Bytes, blocks: nat) returns (rest: Bytes)
      requires Shape() && blocks > 0 && 64 * blocks <= |data|
      modifies this`v
      ensures v == HashFirst(f, old(v), data, blocks) && rest == data[64 * blocks..]
    {
      ghost var v0 := v;
      rest := data;
      var n := 0;
      NoBlocks(f, v0, data, n);
      while n < blocks
        invariant n <= blocks && v == HashFirst(f, v0, data, n) && rest == data[64 * n..]
      {
        rest := BodyOnce(data, n, rest, v0);
        n := n + 1;
      }
    }

    method BodyOnce(ghost data: Bytes, ghost n: nat, src: Bytes, ghost v0: Regs<W>) returns (rest: Bytes)
      requires Shape() && 64 * (n + 1) <= |data| && src == data[64 * n..] && v == HashFirst(f, v0, data, n)
      modifies this`v
      ensures v == HashFirst(f, v0, data, n + 1) && rest == data[64 * (n + 1)..]
    {
      assert src[..64] == data[64 * n..64 * (n + 1)];
      v := Transform(p, Parse(p.word, src[..64]), v);
      rest := src[64..];
    }

    /** MD5_body of the buffer. */
    method BodyOfBuffer()
      requires Shape()
      modifies this`v
      ensures v == f(old(v), buffer[..])
    {
      ghost var v0 := v;
      var _ := BodyOnce(buffer[..], 0, buffer[..], v0);
      OneBlock(f, v0, buffer[..]);
    }

    /** The counters after `size` more bytes. */
    method AddCount(ghost n: nat, size: nat)
      requires Counts(lo, hi, wraps, n)
      modifies `lo, `hi, `wraps
      ensures Counts(lo, hi, wraps, n + size)
    {
      var savedLo := lo;
      lo := (savedLo + size) % TWO29;
      var carry := if lo < savedLo then 1 else 0;
      assert savedLo + size == lo + 0x2000_0000 * (carry + size / TWO29);
      ghost var over := (hi + carry) / TWO32;
      hi := (hi + carry) % TWO32;
      over := over + (hi + size / TWO29) / TWO32;
      hi := (hi + size / TWO29) % TWO32;
      wraps := wraps + over;
    }

    /** MD5_hash */
    method Hash(data: Bytes)
      requires Valid()
      modifies this, buffer
      ensures Valid() && msg == old(msg) + data
    {
      CountTail(lo, hi, wraps, |msg|);
      var used := lo % 64;
      AddCount(|msg|, |data|);
      if used != 0 && |data| < 64 - used {
        Append(msg, used, data);
      } else {
        Absorb(msg, used, data);
      }
      msg := msg + data;
    }

    method Append(ghost s: Bytes, used: nat, data: Bytes)
      requires Folds(s) && used == |s| % 64 && |data| < 64 - used
      modifies buffer
      ensures Folds(s + data)
    {
      Buffered(f, init, s, data);
      CopyIn(buffer, used, data);
      assert buffer[..used + |data|] == Tail(s) + data;
    }

    method Absorb(ghost s: Bytes, used: nat, data: Bytes)
      requires Folds(s) && used == |s| % 64 && (used == 0 || |data| >= 64 - used)
      modifies `v, buffer
      ensures Folds(s + data)
    {
      var rest := data;
      if used != 0 {
        rest := Fill(s, used, data);
      } else {
        PendingAll(f, init, s, data);
      }
      if |rest| >= 64 {
        rest := TakeBlocks(s + data, rest);
      }
      Leave(s + data, rest);
    }

    /** Completes the block under way. */
    method Fill(ghost s: Bytes, used: nat, data: Bytes) returns (rest: Bytes)
      requires Folds(s) && used == |s| % 64 && |data| >= 64 - used
      modifies `v, buffer
      ensures Pending(f, init, s + data, rest, v)
    {
      CopyToEnd(buffer, used, data[..64 - used]);
      PendingAfterFill(f, init, s, data, 64 - used);
      BodyOfBuffer();
      rest := data[64 - used..];
    }

    /** Hashes all complete blocks. */
    method TakeBlocks(ghost s: Bytes, data: Bytes) returns (rest: Bytes)
      requires Shape() && Pending(f, init, s, data, v) && |data| >= 64
      modifies `v
      ensures Pending(f, init, s, rest, v) && |rest| < 64
    {
      var blocks := |data| / 64;
      BlocksTaken(f, init, s, data, v, blocks);
      rest := Body(data, blocks);
    }

    /** Keeps the bytes after the last complete block. */
    method Leave(ghost s: Bytes, rest: Bytes)
      requires Shape() && Pending(f, init, s, rest, v) && |rest| < 64
      modifies buffer
      ensures Folds(s)
    {
      Remainder(f, init, s, rest, v);
      CopyIn(buffer, 0, rest);
    }

    method HashAll(chunks: seq<Bytes>)
      requires Valid() && |msg| == 0
      modifies this, buffer
      ensures Valid() && msg == Concat(chunks)
    {
      assert msg == Concat(chunks[..0]);
      for i := 0 to |chunks|
        invariant Valid() && msg == Concat(chunks[..i])
      {
        assert chunks[..i + 1][..i] == chunks[..i];
        Hash(chunks[i]);
      }
      assert chunks[..|chunks|] == chunks;
    }

    /** MD5_end */
    method End() returns (digest: Bytes)
      requires Valid()
      modifies this, buffer
      ensures digest == Digest(p, init, old(msg))
      ensures lo == hi == 0 && v == Regs(p.zero, p.zero, p.zero, p.zero) && buffer[..] == Zeros(64)
    {
      CountTail(lo, hi, wraps, |msg|);
      var used := lo % 64;
      if used < 56 {
        EndShortBlock(used);
      } else {
        EndLongBlock(used);
      }
      digest := p.bytes(v.a) + p.bytes(v.b) + p.bytes(v.c) + p.bytes(v.d);
      Clear();
    }

    method EndShortBlock(used: nat)
      requires Valid() && used == |msg| % 64 < 56
      modifies `v, `lo, buffer
      ensures v == HashBlocks(f, init, Pad(msg))
    {
      ghost var length := LeBytes(Bits(|msg|), 8);
      Mark(buffer, used, 55 - used);
      assert buffer[..56] == Tail(msg) + ([0x80] + Zeros(55 - used));
      LastBlock(Tail(msg) + ([0x80] + Zeros(55 - used)), length);
      EndShort(f, init, msg, length, buffer[..]);
    }

    /** Less than eight bytes are free after the 0x80. */
    method EndLongBlock(used: nat)
      requires Valid() && used == |msg| % 64 >= 56
      modifies `v, `lo, buffer
      ensures v == HashBlocks(f, init, Pad(msg))
    {
      ghost var length := LeBytes(Bits(|msg|), 8);
      MarkToEnd(buffer, used);
      ghost var first := buffer[..];
      assert first == Tail(msg) + ([0x80] + Zeros(63 - used));
      BodyOfBuffer();
      CopyIn(buffer, 0, Zeros(56));
      LastBlock(Zeros(56), length);
      EndLong(f, init, msg, length, first, buffer[..]);
    }

    method ShiftCount()
      requires Counts(lo, hi, wraps, |msg|)
      modifies `lo
      ensures lo < TWO32 && LeBytes(Bits(|msg|), 8) == LeBytes(lo, 4) + LeBytes(hi, 4)
    {
      LengthBytes(lo, hi, wraps, |msg|);
      lo := lo * 8 % TWO32;
    }

    /** The length completes the buffer, and the buffer is hashed. */
    method LastBlock(ghost start: Bytes, ghost length: Bytes)
      requires Shape() && Counts(lo, hi, wraps, |msg|) && length == LeBytes(Bits(|msg|), 8)
      requires buffer[..56] == start
      modifies `v, `lo, buffer
      ensures buffer[..] == start + length && v == f(old(v), buffer[..])
    {
      ShiftCount();
      Le64EncAt(buffer, 56, lo, hi);
      BodyOfBuffer();
    }

    /** The memset of the context. */
    method Clear()
      requires Shape()
      modifies this, buffer
      ensures lo == hi == 0 && v == Regs(p.zero, p.zero, p.zero, p.zero) && buffer[..] == Zeros(64)
    {
      lo, hi, v := 0, 0, Regs(p.zero, p.zero, p.zero, p.zero);
      forall i | 0 <= i < 64 {
        buffer[i] := 0;
      }
    }
  }

  /** 0x80 and `n` zero bytes. */
  method Mark(buf: array<Byte>, at: nat, n: nat)
    requires at + 1 + n <= buf.Length
    modifies buf
    ensures buf[..] == old(buf[..at]) + ([0x80] + Zeros(n)) + old(buf[at + 1 + n..])
  {
    buf[at] := 0x80;
    assert buf[..at + 1] == old(buf[..at]) + [0x80];
    assert buf[at + 1 + n..] == old(buf[at + 1 + n..]);
    CopyIn(buf, at + 1, Zeros(n));
  }

  method MarkToEnd(buf: array<Byte>, at: nat)
    requires at < buf.Length
    modifies buf
    ensures buf[..] == old(buf[..at]) + ([0x80] + Zeros(buf.Length - at - 1))
  {
    Mark(buf, at, buf.Length - at - 1);
  }

  method Le32EncAt(p: array<Byte>, at: nat, u: nat)
    requires at + 4 <= p.Length && u < TWO32
    modifies p
    ensures p[..] == old(p[..at]) + LeBytes(u, 4) + old(p[at + 4..])
  {
    FourLeBytes(u);
    p[at] := ByteOf(u);
    p[at + 1] := ByteOf(u / 0x100);
    p[at + 2] := ByteOf(u / 0x1_0000);
    p[at + 3] := ByteOf(u / 0x100_0000);
  }

  method Le64EncAt(p: array<Byte>, at: nat, low: nat, high: nat)
    requires at + 8 == p.Length && low < TWO32 && high < TWO32
    modifies p
    ensures p[..] == old(p[..at]) + (LeBytes(low, 4) + LeBytes(high, 4))
  {
    Le32EncAt(p, at, low);
    Le32EncAt(p, at + 4, high);
  }

  /** md5_hash: the digest of a message that is read in any pieces. */
  method HashChunks<W(0)>(p: Words<W>, init: Regs<W>, chunks: seq<Bytes>) returns (digest: Bytes)
    ensures digest == Digest(p, init, Concat(chunks))
  {
    var ctx := new Context<W>(p, init);
    ctx.Begin();
    ctx.HashAll(chunks);
    digest := ctx.End();
  }
}

/** Messages cut into blocks of 64 bytes, for any compression function: what
    the hash computations of FIPS 180-4 (SHA-256) and RFC 1321 (MD5) share,
    the padding and the bytes of the length among them. */
module Blocks {

  type Byte = b: nat | b < 256
  type Bytes = seq<Byte>

  const TWO32: nat := 0x1_0000_0000
  const TWO64: nat := 0x1_0000_0000_0000_0000

  /** The text "abc" of the published examples. */
  const ABC: Bytes := [0x61, 0x62, 0x63]

  /** The hash value after the first `n` blocks of `s`. */
  function HashFirst<S>(f: (S, Bytes) -> S, init: S, s: Bytes, n: nat): S
    requires 64 * n <= |s|
  {
    if n == 0 then init else f(HashFirst(f, init, s, n - 1), s[64 * (n - 1)..64 * n])
  }

  /** The hash value after all complete blocks of `s`. */
  function HashBlocks<S>(f: (S, Bytes) -> S, init: S, s: Bytes): S {
    HashFirst(f, init, s, |s| / 64)
  }

  lemma {:induction false} HashFirstFrame<S>(f: (S, Bytes) -> S, init: S, s: Bytes, t: Bytes, n: nat)
    requires 64 * n <= |s| && 64 * n <= |t| && s[..64 * n] == t[..64 * n]
    ensures HashFirst(f, init, s, n) == HashFirst(f, init, t, n)
  {
    if n > 0 {
      var m := 64 * (n - 1);
      assert s[..m] == s[..64 * n][..m] && t[..m] == t[..64 * n][..m];
      assert s[m..64 * n] == s[..64 * n][m..] && t[m..64 * n] == t[..64 * n][m..];
      HashFirstFrame(f, init, s, t, n - 1);
    }
  }

  lemma NoBlocks<S>(f: (S, Bytes) -> S, init: S, s: Bytes, n: nat)
    requires n == 0
    ensures HashFirst(f, init, s, n) == init && s[64 * n..] == s
  {
  }

  lemma OneBlock<S>(f: (S, Bytes) -> S, init: S, b: Bytes)
    requires |b| == 64
    ensures HashFirst(f, init, b, 1) == f(init, b)
  {
    assert b[0..64] == b;
  }

  /** Equal compression functions give equal results. */
  lemma {:induction false} HashFirstSame<S(!new)>(f: (S, Bytes) -> S, g: (S, Bytes) -> S, init: S, s: Bytes, n: nat)
    requires 64 * n <= |s| && forall v, b {:trigger f(v, b)} :: f(v, b) == g(v, b)
    ensures HashFirst(f, init, s, n) == HashFirst(g, init, s, n)
  {
    if n > 0 {
      HashFirstSame(f, g, init, s, n - 1);
    }
  }

  /** One more complete block. */
  lemma HashBlocksStep<S>(f: (S, Bytes) -> S, init: S, s: Bytes, m: Bytes)
    requires |s| % 64 == 0 && |m| == 64
    ensures HashBlocks(f, init, s + m) == f(HashBlocks(f, init, s), m)
  {
    var n := |s| / 64;
    assert |s + m| / 64 == n + 1 && 64 * n == |s|;
    assert (s + m)[64 * n..64 * (n + 1)] == m;
    HashFirstFrame(f, init, s, s + m, n);
  }

  /** Bytes after the last complete block do not matter. */
  lemma HashBlocksPrefix<S>(f: (S, Bytes) -> S, init: S, s: Bytes)
    ensures HashBlocks(f, init, s) == HashBlocks(f, init, s[..64 * (|s| / 64)])
  {
    var n := |s| / 64;
    assert |s[..64 * n]| / 64 == n;
    HashFirstFrame(f, init, s, s[..64 * n], n);
  }

  /** The words of a block of 64 bytes. */
  function Parse<W>(word: (Byte, Byte, Byte, Byte) -> W, b: Bytes): (m: seq<W>)
    requires |b| == 64
    ensures |m| == 16
  {
    seq(16, t requires 0 <= t < 16 => word(b[4 * t], b[4 * t + 1], b[4 * t + 2], b[4 * t + 3]))
  }

  // ----- padding -----

  function Zeros(n: nat): Bytes {
    seq(n, _ => 0)
  }

  /** The number of zero bytes between the 0x80 and the length of a message
      of `n` bytes. */
  function ZeroCount(n: nat): nat {
    (55 - n) % 64
  }

  /** It is the smallest number that makes the blocks complete. */
  lemma ZeroCountLeast(n: nat, k: nat)
    ensures (n + 1 + ZeroCount(n) + 8) % 64 == 0
    ensures (n + 1 + k + 8) % 64 == 0 ==> ZeroCount(n) <= k
  {
    var q := (55 - n) / 64;
    assert n + 1 + ZeroCount(n) + 8 == 64 * (1 - q);
    if (n + 1 + k + 8) % 64 == 0 && k < 64 {
      var t := (n + 1 + k + 8) / 64;
      assert 55 - n == 64 * (1 - t) + k;
    }
  }

  /** The padding of FIPS 180-4, section 5.1.1, and of RFC 1321, sections 3.1
      and 3.2, for messages of whole bytes; `length` is the encoded length. */
  function PadWith(s: Bytes, length: Bytes): Bytes {
    s + [0x80] + Zeros(ZeroCount(|s|)) + length
  }

  /** A padded message of three bytes and the bit 1. */
  lemma PadParts(head: Bytes, length: Bytes, b: Bytes)
    requires |head| == 4 && |length| == 8 && b == head + Zeros(52) + length
    ensures |b| == 64 && forall j :: 0 <= j < 64 ==>
              b[j] == if j < 4 then head[j] else if j < 56 then 0 else length[j - 56]
  {
  }

  /** The bytes of `s` after its last complete block. */
  function Tail(s: Bytes): Bytes {
    s[64 * (|s| / 64)..]
  }

  function Whole(s: Bytes): Bytes {
    s[..64 * (|s| / 64)]
  }

  lemma WholeTail(s: Bytes)
    ensures s == Whole(s) + Tail(s) && |Tail(s)| == |s| % 64 && |Whole(s)| % 64 == 0
  {
  }

  /** The padding fits into the block under way. */
  lemma PadShort(s: Bytes, length: Bytes, last: Bytes)
    requires |s| % 64 < 56 && |length| == 8
    requires last == Tail(s) + ([0x80] + Zeros(55 - |s| % 64)) + length
    ensures PadWith(s, length) == Whole(s) + last
  {
    assert ZeroCount(|s|) == 55 - |s| % 64;
    WholeTail(s);
  }

  /** The padding takes another block. */
  lemma PadLong(s: Bytes, length: Bytes, first: Bytes, last: Bytes)
    requires |s| % 64 >= 56 && |length| == 8
    requires first == Tail(s) + ([0x80] + Zeros(63 - |s| % 64)) && last == Zeros(56) + length
    ensures PadWith(s, length) == Whole(s) + first + last
  {
    assert ZeroCount(|s|) == 63 - |s| % 64 + 56;
    assert Zeros(63 - |s| % 64 + 56) == Zeros(63 - |s| % 64) + Zeros(56);
    WholeTail(s);
  }

  /** So hashing the padded message hashes one or two blocks more. */
  lemma EndShort<S>(f: (S, Bytes) -> S, init: S, s: Bytes, length: Bytes, last: Bytes)
    requires |s| % 64 < 56 && |length| == 8
    requires last == Tail(s) + ([0x80] + Zeros(55 - |s| % 64)) + length
    ensures HashBlocks(f, init, PadWith(s, length)) == f(HashBlocks(f, init, s), last)
  {
    PadShort(s, length, last);
    HashBlocksPrefix(f, init, s);
    HashBlocksStep(f, init, Whole(s), last);
  }

  lemma EndLong<S>(f: (S, Bytes) -> S, init: S, s: Bytes, length: Bytes, first: Bytes, last: Bytes)
    requires |s| % 64 >= 56 && |length| == 8
    requires first == Tail(s) + ([0x80] + Zeros(63 - |s| % 64)) && last == Zeros(56) + length
    ensures HashBlocks(f, init, PadWith(s, length)) == f(f(HashBlocks(f, init, s), first), last)
  {
    PadLong(s, length, first, last);
    HashBlocksPrefix(f, init, s);
    HashBlocksStep(f, init, Whole(s), first);
    HashBlocksStep(f, init, Whole(s) + first, last);
  }

  // ----- more bytes -----

  lemma NothingHashed<S>(f: (S, Bytes) -> S, init: S, s: Bytes)
    requires |s| == 0
    ensures HashBlocks(f, init, s) == init && Tail(s) == s
  {
  }

  /** The new bytes do not fill the block under way. */
  lemma Buffered<S>(f: (S, Bytes) -> S, init: S, s: Bytes, data: Bytes)
    requires |data| < 64 - |s| % 64
    ensures HashBlocks(f, init, s + data) == HashBlocks(f, init, s)
    ensures Tail(s + data) == Tail(s) + data && |s + data| % 64 == |s| % 64 + |data|
  {
    var all := s + data;
    assert |all| / 64 == |s| / 64;
    HashBlocksPrefix(f, init, all);
    HashBlocksPrefix(f, init, s);
    assert Whole(all) == Whole(s);
  }

  lemma FillUp(k: nat)
    ensures k + (64 - k % 64) == 64 * (k / 64 + 1)
    ensures (k + (64 - k % 64)) % 64 == 0
  {
  }

  lemma FilledSplit(s: Bytes, data: Bytes, n: nat)
    requires n == 64 - |s| % 64 && n <= |data|
    ensures |Tail(s) + data[..n]| == 64
    ensures (s + data)[..|s| + n] == Whole(s) + (Tail(s) + data[..n])
  {
    WholeTail(s);
    assert (s + data)[..|s| + n] == s + data[..n];
  }

  /** They fill it. */
  lemma BlockFilled<S>(f: (S, Bytes) -> S, init: S, s: Bytes, data: Bytes, n: nat)
    requires n == 64 - |s| % 64 && n <= |data|
    ensures HashBlocks(f, init, (s + data)[..|s| + n]) == f(HashBlocks(f, init, s), Tail(s) + data[..n])
  {
    FilledSplit(s, data, n);
    HashBlocksPrefix(f, init, s);
    HashBlocksStep(f, init, Whole(s), Tail(s) + data[..n]);
  }

  /** `src` is what is left of `s`, and all before it was hashed. */
  predicate Pending<S(==)>(f: (S, Bytes) -> S, init: S, s: Bytes, src: Bytes, state: S) {
    |src| <= |s| && (|s| - |src|) % 64 == 0 && src == s[|s| - |src|..] &&
    state == HashBlocks(f, init, s[..|s| - |src|])
  }

  /** What is left after the block under way was filled and hashed. */
  lemma PendingAfterFill<S>(f: (S, Bytes) -> S, init: S, s: Bytes, data: Bytes, n: nat)
    requires n == 64 - |s| % 64 && n <= |data|
    ensures Pending(f, init, s + data, data[n..], f(HashBlocks(f, init, s), Tail(s) + data[..n]))
  {
    BlockFilled(f, init, s, data, n);
    FillUp(|s|);
    assert |s + data| - |data[n..]| == |s| + n;
    assert data[n..] == (s + data)[|s| + n..];
  }

  /** One block of it is hashed. */
  lemma BlockTaken<S>(f: (S, Bytes) -> S, init: S, s: Bytes, src: Bytes, state: S)
    requires Pending(f, init, s, src, state) && |src| >= 64
    ensures Pending(f, init, s, src[64..], f(state, src[..64]))
  {
    var done := s[..|s| - |src|];
    HashBlocksStep(f, init, done, src[..64]);
    assert s[..|s| - |src| + 64] == done + src[..64];
  }

  lemma {:induction false} BlocksTaken<S>(f: (S, Bytes) -> S, init: S, s: Bytes, src: Bytes, state: S, n: nat)
    requires Pending(f, init, s, src, state) && 64 * n <= |src|
    ensures Pending(f, init, s, src[64 * n..], HashFirst(f, state, src, n))
  {
    if n > 0 {
      BlocksTaken(f, init, s, src, state, n - 1);
      var rest := src[64 * (n - 1)..];
      BlockTaken(f, init, s, rest, HashFirst(f, state, src, n - 1));
      assert rest[..64] == src[64 * (n - 1)..64 * n] && rest[64..] == src[64 * n..];
    } else {
      assert src[0..] == src;
    }
  }

  /** Nothing of `data` is hashed after complete blocks. */
  lemma PendingAll<S>(f: (S, Bytes) -> S, init: S, s: Bytes, data: Bytes)
    requires |s| % 64 == 0
    ensures Pending(f, init, s + data, data, HashBlocks(f, init, s))
  {
    assert (s + data)[..|s|] == s && (s + data)[|s|..] == data;
  }

  /** Less than a block is left. */
  lemma Remainder<S>(f: (S, Bytes) -> S, init: S, s: Bytes, src: Bytes, state: S)
    requires Pending(f, init, s, src, state) && |src| < 64
    ensures src == Tail(s) && |src| == |s| % 64 && state == HashBlocks(f, init, s)
  {
    assert |s| / 64 == (|s| - |src|) / 64;
    HashBlocksPrefix(f, init, s);
  }

  /** The chunks of a message put together. */
  function Concat(chunks: seq<Bytes>): Bytes {
    if chunks == [] then [] else Concat(chunks[..|chunks| - 1]) + chunks[|chunks| - 1]
  }

  /** The length in bits of `n` bytes, as a 64-bit number. */
  function Bits(n: nat): nat {
    8 * n % TWO64
  }

  lemma TimesMod(k: nat, t: nat)
    ensures (k + 64 * t) % 64 == k % 64
  {
  }

  // ----- numbers as bytes -----

  /** `n` as an unsigned char. */
  function ByteOf(n: nat): Byte {
    n % 256
  }

  function Pow256(n: nat): (p: nat)
    ensures p > 0
  {
    if n == 0 then 1 else 256 * Pow256(n - 1)
  }

  /** The `n` low bytes of `u`, the most significant first. */
  function BeBytes(u: nat, n: nat): (p: Bytes)
    ensures |p| == n
  {
    if n == 0 then [] else BeBytes(u / 256, n - 1) + [ByteOf(u)]
  }

  function BeValue(p: Bytes): nat {
    if p == [] then 0 else 256 * BeValue(p[..|p| - 1]) + p[|p| - 1]
  }

  lemma {:induction false} BeBytesValue(u: nat, n: nat)
    requires u < Pow256(n)
    ensures BeValue(BeBytes(u, n)) == u
  {
    if n > 0 {
      BeBytesValue(u / 256, n - 1);
      assert BeBytes(u, n)[..n - 1] == BeBytes(u / 256, n - 1);
    }
  }

  /** The `n` low bytes of `u`, the least significant first. */
  function LeBytes(u: nat, n: nat): (p: Bytes)
    ensures |p| == n
  {
    if n == 0 then [] else [ByteOf(u)] + LeBytes(u / 256, n - 1)
  }

  function LeValue(p: Bytes): nat {
    if p == [] then 0 else p[0] + 256 * LeValue(p[1..])
  }

  lemma {:induction false} LeBytesValue(u: nat, n: nat)
    requires u < Pow256(n)
    ensures LeValue(LeBytes(u, n)) == u
  {
    if n > 0 {
      LeBytesValue(u / 256, n - 1);
    }
  }

  lemma FourBeValue(p: Bytes)
    requires |p| == 4
    ensures BeValue(p) == 0x100_0000 * (p[0] as nat) + 0x1_0000 * (p[1] as nat) + 0x100 * (p[2] as nat) + p[3] as nat
  {
    BeLast(p);
    assert p[..3][..2] == p[..2] && p[..2][..1] == p[..1];
    BeLast(p[..3]);
    BeLast(p[..2]);
    BeLast(p[..1]);
    assert p[..1][..0] == [];
  }

  lemma BeLast(p: Bytes)
    requires p != []
    ensures BeValue(p) == 256 * BeValue(p[..|p| - 1]) + p[|p| - 1]
  {
  }

  lemma FourLeValue(p: Bytes)
    requires |p| == 4
    ensures LeValue(p) == p[0] as nat + 0x100 * (p[1] as nat) + 0x1_0000 * (p[2] as nat) + 0x100_0000 * (p[3] as nat)
  {
    LeFirst(p);
    assert p[1..][1..] == p[2..] && p[2..][1..] == p[3..];
    LeFirst(p[1..]);
    LeFirst(p[2..]);
    LeFirst(p[3..]);
    assert p[3..][1..] == [];
  }

  lemma LeFirst(p: Bytes)
    requires p != []
    ensures LeValue(p) == p[0] + 256 * LeValue(p[1..])
  {
  }

  lemma FourLeBytes(u: nat)
    requires u < TWO32
    ensures LeBytes(u, 4) == [ByteOf(u), ByteOf(u / 0x100), ByteOf(u / 0x1_0000), ByteOf(u / 0x100_0000)]
  {
    var u1 := u / 256;
    var u2 := u1 / 256;
    var u3 := u2 / 256;
    assert u2 == u / 0x1_0000 && u3 == u / 0x100_0000;
    assert LeBytes(u, 4) == [ByteOf(u)] + LeBytes(u1, 3);
    assert LeBytes(u1, 3) == [ByteOf(u1)] + LeBytes(u2, 2);
    assert LeBytes(u2, 2) == [ByteOf(u2)] + LeBytes(u3, 1);
    assert LeBytes(u3, 1) == [ByteOf(u3)];
  }

  /** Two halves of a 64-bit number. */
  lemma EightLeBytes(low: nat, high: nat)
    requires low < TWO32
    ensures LeBytes(low + 0x1_0000_0000 * high, 8) == LeBytes(low, 4) + LeBytes(high, 4)
  {
    LeSplit(low, high, 4, 4);
    FourUp(high);
  }

  /** `u` moved up by `n` bytes. */
  function Up(u: nat, n: nat): nat {
    if n == 0 then u else 256 * Up(u, n - 1)
  }

  lemma FourUp(u: nat)
    ensures Up(u, 4) == 0x1_0000_0000 * u && Pow256(4) == 0x1_0000_0000
  {
    assert Up(u, 1) == 256 * u;
    assert Up(u, 2) == 256 * Up(u, 1);
    assert Up(u, 3) == 256 * Up(u, 2);
    assert Pow256(2) == 0x1_0000;
  }

  lemma {:induction false} LeSplit(low: nat, high: nat, n: nat, k: nat)
    requires low < Pow256(n)
    ensures LeBytes(low + Up(high, n), n + k) == LeBytes(low, n) + LeBytes(high, k)
  {
    if n > 0 {
      var rest := Up(high, n - 1);
      LeStep(low, rest, n - 1 + k);
      LeSplit(low / 256, high, n - 1, k);
    }
  }

  lemma LeStep(low: nat, rest: nat, n: nat)
    ensures LeBytes(low + 256 * rest, n + 1) == [ByteOf(low)] + LeBytes(low / 256 + rest, n)
  {
    assert (low + 256 * rest) / 256 == low / 256 + rest;
    assert (low + 256 * rest) % 256 == low % 256;
  }

  /** memcpy into a buffer. */
  method CopyIn(buf: array<Byte>, at: nat, src: Bytes)
    requires at + |src| <= buf.Length
    modifies buf
    ensures buf[..] == old(buf[..at]) + src + old(buf[at + |src|..])
  {
    forall i | 0 <= i < |src| {
      buf[at + i] := src[i];
    }
  }

  /** memcpy that fills a buffer to its end. */
  method CopyToEnd(buf: array<Byte>, at: nat, src: Bytes)
    requires at + |src| == buf.Length
    modifies buf
    ensures buf[..] == old(buf[..at]) + src
  {
    CopyIn(buf, at, src);
  }
}

/** MD5 of scripts/mkhash.c: the words of 32 bits and the steps.  Unsigned
    32-bit arithmetic is that of bv32.  The formulas of RFC 1321 and those of
    the source are stated apart and shown to agree. */
module Md5 {

  import opened Blocks
  import opened Md5Context
  import opened Words32

  /** RFC 1321, section 3.3. */
  const INIT: Regs<Word> := Regs(0x67452301, 0xefcdab89, 0x98badcfe, 0x10325476)

  /** Section 3.4: T and the shift amounts. */
  const T: seq<Word> :=
    (([0xd76aa478, 0xe8c7b756, 0x242070db, 0xc1bdceee, 0xf57c0faf, 0x4787c62a, 0xa8304613, 0xfd469501] +
      [0x698098d8, 0x8b44f7af, 0xffff5bb1, 0x895cd7be, 0x6b901122, 0xfd987193, 0xa679438e, 0x49b40821]) +
     ([0xf61e2562, 0xc040b340, 0x265e5a51, 0xe9b6c7aa, 0xd62f105d, 0x02441453, 0xd8a1e681, 0xe7d3fbc8] +
      [0x21e1cde6, 0xc33707d6, 0xf4d50d87, 0x455a14ed, 0xa9e3e905, 0xfcefa3f8, 0x676f02d9, 0x8d2a4c8a])) +
    (([0xfffa3942, 0x8771f681, 0x6d9d6122, 0xfde5380c, 0xa4beea44, 0x4bdecfa9, 0xf6bb4b60, 0xbebfbc70] +
      [0x289b7ec6, 0xeaa127fa, 0xd4ef3085, 0x04881d05, 0xd9d4d039, 0xe6db99e5, 0x1fa27cf8, 0xc4ac5665]) +
     ([0xf4292244, 0x432aff97, 0xab9423a7, 0xfc93a039, 0x655b59c3, 0x8f0ccc92, 0xffeff47d, 0x85845dd1] +
      [0x6fa87e4f, 0xfe2ce6e0, 0xa3014314, 0x4e0811a1, 0xf7537e82, 0xbd3af235, 0x2ad7d2bb, 0xeb86d391]))

  function Shift(i: nat): (s: nat)
    ensures 0 < s < 32
  {
    if i < 16 then [7, 12, 17, 22][i % 4]
    else if i < 32 then [5, 9, 14, 20][i % 4]
    else if i < 48 then [4, 11, 16, 23][i % 4]
    else [6, 10, 15, 21][i % 4]
  }

  // ----- RFC 1321 -----

  function F(x: Word, y: Word, z: Word): Word {
    (x & y) | (!x & z)
  }

  function G(x: Word, y: Word, z: Word): Word {
    (x & z) | (y & !z)
  }

  function H(x: Word, y: Word, z: Word): Word {
    x ^ y ^ z
  }

  function I(x: Word, y: Word, z: Word): Word {
    y ^ (x | !z)
  }

  function Aux(i: nat, x: Word, y: Word, z: Word): Word {
    if i < 16 then F(x, y, z) else if i < 32 then G(x, y, z) else if i < 48 then H(x, y, z) else I(x, y, z)
  }

  function Rotl(x: Word, s: nat): Word
    requires 0 < s < 32
  {
    (x << s) | (x >> (32 - s))
  }

  /** The operation a = b + ((a + F(b,c,d) + X[k] + T[i]) <<< s). */
  function Step(i: nat, a: Word, b: Word, c: Word, d: Word, x: Word): Word {
    var t := if i < 64 then T[i] else 0;
    Plus(b, Rotl(Plus(Plus(Plus(a, Aux(i, b, c, d)), x), t), Shift(i)))
  }

  // ----- the source -----

  function FastF(x: Word, y: Word, z: Word): Word {
    z ^ (x & (y ^ z))
  }

  function FastG(x: Word, y: Word, z: Word): Word {
    y ^ (z & (x ^ y))
  }

  function H2(x: Word, y: Word, z: Word): Word {
    x ^ (y ^ z)
  }

  function FastAux(i: nat, x: Word, y: Word, z: Word): Word {
    if i < 16 then FastF(x, y, z)
    else if i < 32 then FastG(x, y, z)
    else if i < 48 then if i % 2 == 0 then H(x, y, z) else H2(x, y, z)
    else I(x, y, z)
  }

  /** STEP */
  function FastStep(i: nat, a: Word, b: Word, c: Word, d: Word, x: Word): Word {
    var t := if i < 64 then T[i] else 0;
    Plus(Rotl(Plus(a, Plus(Plus(FastAux(i, b, c, d), x), t)), Shift(i)), b)
  }

  lemma FBits(x: Word, y: Word, z: Word)
    ensures z ^ (x & (y ^ z)) == (x & y) | (!x & z)
  {
  }

  lemma GBits(x: Word, y: Word, z: Word)
    ensures y ^ (z & (x ^ y)) == (x & z) | (y & !z)
  {
  }

  lemma HBits(x: Word, y: Word, z: Word)
    ensures x ^ (y ^ z) == x ^ y ^ z
  {
  }

  lemma SameF(x: Word, y: Word, z: Word)
    ensures FastF(x, y, z) == F(x, y, z)
  {
    FBits(x, y, z);
  }

  lemma SameG(x: Word, y: Word, z: Word)
    ensures FastG(x, y, z) == G(x, y, z)
  {
    GBits(x, y, z);
  }

  lemma SameH(x: Word, y: Word, z: Word)
    ensures H2(x, y, z) == H(x, y, z)
  {
    HBits(x, y, z);
  }

  lemma SameAux(i: nat, x: Word, y: Word, z: Word)
    ensures FastAux(i, x, y, z) == Aux(i, x, y, z)
  {
    SameF(x, y, z);
    SameG(x, y, z);
    SameH(x, y, z);
  }

  lemma Regroup(a: Word, f: Word, x: Word, t: Word)
    ensures Plus(a, Plus(Plus(f, x), t)) == Plus(Plus(Plus(a, f), x), t)
  {
    calc {
      Plus(a, Plus(Plus(f, x), t));
      Plus(a, Plus(f + x, t));
      Plus(a, (f + x) + t);
      a + ((f + x) + t);
      ((a + f) + x) + t;
      Plus((a + f) + x, t);
      Plus(Plus(a + f, x), t);
      Plus(Plus(Plus(a, f), x), t);
    }
  }

  /** The source's step, with other formulas and groupings. */
  lemma SameStepAt(i: nat, a: Word, b: Word, c: Word, d: Word, x: Word)
    ensures FastStep(i, a, b, c, d, x) == Step(i, a, b, c, d, x)
  {
    var t: Word := if i < 64 then T[i] else 0;
    SameAux(i, b, c, d);
    Regroup(a, Aux(i, b, c, d), x, t);
    var sum := Plus(Plus(Plus(a, Aux(i, b, c, d)), x), t);
    PlusCommutes(Rotl(sum, Shift(i)), b);
  }

  // ----- byte order -----

  /** SET */
  function Le32Dec(p0: Byte, p1: Byte, p2: Byte, p3: Byte): Word {
    LeJoin(p0 as bv8, p1 as bv8, p2 as bv8, p3 as bv8)
  }

  /** The first byte is the least significant one. */
  lemma Le32DecValue(p0: Byte, p1: Byte, p2: Byte, p3: Byte)
    ensures Le32Dec(p0, p1, p2, p3) as nat == LeValue([p0, p1, p2, p3])
  {
    LeJoinValue(p0 as bv8, p1 as bv8, p2 as bv8, p3 as bv8);
    ByteBits(p0);
    ByteBits(p1);
    ByteBits(p2);
    ByteBits(p3);
    FourLeValue([p0, p1, p2, p3]);
  }

  function Le32Enc(u: Word): (p: Bytes)
    ensures |p| == 4
  {
    [Low(u) as Byte, Low(u >> 8) as Byte, Low(u >> 16) as Byte, Low(u >> 24) as Byte]
  }

  lemma JoinBits(u: Word)
    ensures LeJoin(Low(u), Low(u >> 8), Low(u >> 16), Low(u >> 24)) == u
  {
  }

  lemma DecodesEncoded(u: Word)
    ensures var p := Le32Enc(u); Le32Dec(p[0], p[1], p[2], p[3]) == u
  {
    JoinBits(u);
    SameBits(Low(u));
    SameBits(Low(u >> 8));
    SameBits(Low(u >> 16));
    SameBits(Low(u >> 24));
  }

  /** So the bytes written have the value of the word. */
  lemma EncodedValue(u: Word)
    ensures LeValue(Le32Enc(u)) == u as nat
  {
    var p := Le32Enc(u);
    DecodesEncoded(u);
    Le32DecValue(p[0], p[1], p[2], p[3]);
    assert p == [p[0], p[1], p[2], p[3]];
  }

  // ----- put together -----

  const RFC1321: Words<Word> := Words(Step, Le32Dec, Le32Enc, Plus, 0)
  const MKHASH: Words<Word> := RFC1321.(step := FastStep)

  /** For any cut of a message into chunks, the digest is that of RFC 1321. */
  method Md5OfChunks(chunks: seq<Bytes>) returns (digest: Bytes)
    ensures digest == Digest(RFC1321, INIT, Concat(chunks))
  {
    SourceDigest(Concat(chunks));
    digest := HashChunks(MKHASH, INIT, chunks);
  }

  lemma SourceDigest(msg: Bytes)
    ensures Digest(MKHASH, INIT, msg) == Digest(RFC1321, INIT, msg)
  {
    SourceSteps();
    SameDigest(RFC1321, MKHASH, INIT, msg);
  }

  lemma SourceSteps()
    ensures SameStep(RFC1321, MKHASH)
  {
    forall i, a, b, c, d, x ensures FastStep(i, a, b, c, d, x) == Step(i, a, b, c, d, x) {
      SameStepAt(i, a, b, c, d, x);
    }
  }
}

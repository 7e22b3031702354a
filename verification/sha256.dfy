/** SHA-256 of scripts/mkhash.c: the words of 32 bits, the block function and
    the byte order.  Unsigned 32-bit arithmetic is that of bv32.  The formulas
    of the standard and those of the source are stated apart and shown to
    agree. */
module Sha256 {

  import opened Blocks
  import opened Sha256Core
  import opened Words32

  type State = Vars<Word>

  // ----- FIPS 180-4 -----

  /** Section 4.1.2. */
  function Ch(x: Word, y: Word, z: Word): Word {
    (x & y) ^ (!x & z)
  }

  function Maj(x: Word, y: Word, z: Word): Word {
    (x & y) ^ (x & z) ^ (y & z)
  }

  /** Section 3.2. */
  function Rotr(x: Word, n: bv6): Word
    requires 0 < n < 32
  {
    (x >> n) | (x << (32 - n))
  }

  function BigSigma0(x: Word): Word {
    Rotr(x, 2) ^ Rotr(x, 13) ^ Rotr(x, 22)
  }

  function BigSigma1(x: Word): Word {
    Rotr(x, 6) ^ Rotr(x, 11) ^ Rotr(x, 25)
  }

  function SmallSigma0(x: Word): Word {
    Rotr(x, 7) ^ Rotr(x, 18) ^ (x >> 3)
  }

  function SmallSigma1(x: Word): Word {
    Rotr(x, 17) ^ Rotr(x, 19) ^ (x >> 10)
  }

  /** Section 4.2.2. */
  const K: seq<Word> :=
    (([0x428a2f98, 0x71374491, 0xb5c0fbcf, 0xe9b5dba5, 0x3956c25b, 0x59f111f1, 0x923f82a4, 0xab1c5ed5] +
      [0xd807aa98, 0x12835b01, 0x243185be, 0x550c7dc3, 0x72be5d74, 0x80deb1fe, 0x9bdc06a7, 0xc19bf174]) +
     ([0xe49b69c1, 0xefbe4786, 0x0fc19dc6, 0x240ca1cc, 0x2de92c6f, 0x4a7484aa, 0x5cb0a9dc, 0x76f988da] +
      [0x983e5152, 0xa831c66d, 0xb00327c8, 0xbf597fc7, 0xc6e00bf3, 0xd5a79147, 0x06ca6351, 0x14292967])) +
    (([0x27b70a85, 0x2e1b2138, 0x4d2c6dfc, 0x53380d13, 0x650a7354, 0x766a0abb, 0x81c2c92e, 0x92722c85] +
      [0xa2bfe8a1, 0xa81a664b, 0xc24b8b70, 0xc76c51a3, 0xd192e819, 0xd6990624, 0xf40e3585, 0x106aa070]) +
     ([0x19a4c116, 0x1e376c08, 0x2748774c, 0x34b0bcb5, 0x391c0cb3, 0x4ed8aa4a, 0x5b9cca4f, 0x682e6ff3] +
      [0x748f82ee, 0x78a5636f, 0x84c87814, 0x8cc70208, 0x90befffa, 0xa4506ceb, 0xbef9a3f7, 0xc67178f2]))

  /** Section 5.3.3. */
  const H0: State := Vars(0x6A09E667, 0xBB67AE85, 0x3C6EF372, 0xA54FF53A,
                         0x510E527F, 0x9B05688C, 0x1F83D9AB, 0x5BE0CD19)

  const STANDARD: Ops<Word> := Ops(Plus, Ch, Maj, BigSigma0, BigSigma1, SmallSigma0, SmallSigma1, K)

  // ----- the source's formulas -----

  function FastCh(x: Word, y: Word, z: Word): Word {
    (x & (y ^ z)) ^ z
  }

  function FastMaj(x: Word, y: Word, z: Word): Word {
    (x & (y | z)) | (y & z)
  }

  const SOURCE: Ops<Word> := STANDARD.(ch := FastCh, maj := FastMaj)

  lemma ChBits(x: Word, y: Word, z: Word)
    ensures (x & (y ^ z)) ^ z == (x & y) ^ (!x & z)
  {
  }

  lemma MajBits(x: Word, y: Word, z: Word)
    ensures (x & (y | z)) | (y & z) == (x & y) ^ (x & z) ^ (y & z)
  {
  }

  lemma ChAgrees(x: Word, y: Word, z: Word)
    ensures SOURCE.ch(x, y, z) == STANDARD.ch(x, y, z)
  {
    ChBits(x, y, z);
  }

  lemma MajAgrees(x: Word, y: Word, z: Word)
    ensures SOURCE.maj(x, y, z) == STANDARD.maj(x, y, z)
  {
    MajBits(x, y, z);
  }

  lemma AddCommutes()
    ensures forall x, y :: STANDARD.add(x, y) == STANDARD.add(y, x)
  {
    forall x, y ensures STANDARD.add(x, y) == STANDARD.add(y, x) {
      PlusCommutes(x, y);
    }
  }

  lemma AddAssociates()
    ensures forall x, y, z :: STANDARD.add(STANDARD.add(x, y), z) == STANDARD.add(x, STANDARD.add(y, z))
  {
    forall x, y, z ensures STANDARD.add(STANDARD.add(x, y), z) == STANDARD.add(x, STANDARD.add(y, z)) {
      PlusAssociates(x, y, z);
    }
  }

  /** The source computes with other formulas and groupings of the same values. */
  lemma SourceIsStandard()
    ensures SameOps(STANDARD, SOURCE)
  {
    forall x, y, z
      ensures SOURCE.ch(x, y, z) == STANDARD.ch(x, y, z) && SOURCE.maj(x, y, z) == STANDARD.maj(x, y, z)
    {
      ChAgrees(x, y, z);
      MajAgrees(x, y, z);
    }
    AddCommutes();
    AddAssociates();
  }

  // ----- byte order -----

  /** be32dec */
  function Be32Dec(p0: Byte, p1: Byte, p2: Byte, p3: Byte): Word {
    BeJoin(p0 as bv8, p1 as bv8, p2 as bv8, p3 as bv8)
  }

  /** The first byte is the most significant one. */
  lemma Be32DecValue(p0: Byte, p1: Byte, p2: Byte, p3: Byte)
    ensures Be32Dec(p0, p1, p2, p3) as nat == BeValue([p0, p1, p2, p3])
  {
    BeJoinValue(p0 as bv8, p1 as bv8, p2 as bv8, p3 as bv8);
    ByteBits(p0);
    ByteBits(p1);
    ByteBits(p2);
    ByteBits(p3);
    FourBeValue([p0, p1, p2, p3]);
  }

  /** be32enc */
  function Be32Enc(u: Word): (p: Bytes)
    ensures |p| == 4
  {
    [Low(u >> 24) as Byte, Low(u >> 16) as Byte, Low(u >> 8) as Byte, Low(u) as Byte]
  }

  lemma JoinBits(u: Word)
    ensures BeJoin(Low(u >> 24), Low(u >> 16), Low(u >> 8), Low(u)) == u
  {
  }

  lemma DecodesEncoded(u: Word)
    ensures var p := Be32Enc(u); Be32Dec(p[0], p[1], p[2], p[3]) == u
  {
    JoinBits(u);
    SameBits(Low(u >> 24));
    SameBits(Low(u >> 16));
    SameBits(Low(u >> 8));
    SameBits(Low(u));
  }

  /** So the bytes written have the value of the word. */
  lemma EncodedValue(u: Word)
    ensures BeValue(Be32Enc(u)) == u as nat
  {
    var p := Be32Enc(u);
    DecodesEncoded(u);
    Be32DecValue(p[0], p[1], p[2], p[3]);
    assert p == [p[0], p[1], p[2], p[3]];
  }
}

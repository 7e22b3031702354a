/** SHA-256 of scripts/mkhash.c put together. */
module Sha256Hash {

  import opened Blocks
  import opened Sha256
  import opened Sha256Context
  import opened Words32

  const FIPS: Words<Word> := Words(STANDARD, Be32Dec, Be32Enc, 0)
  const MKHASH: Words<Word> := Words(SOURCE, Be32Dec, Be32Enc, 0)

  /** For any cut of a message into chunks, the digest is that of FIPS 180-4. */
  method Sha256OfChunks(chunks: seq<Bytes>) returns (digest: Bytes)
    ensures digest == Digest(FIPS, H0, Concat(chunks))
  {
    SourceIsStandard();
    SourceDigest(FIPS, MKHASH, H0, Concat(chunks));
    digest := HashChunks(MKHASH, H0, chunks);
  }

  /** Below 2^61 bytes the length field is the exact bit length. */
  lemma ExactLength(n: nat)
    requires n < 0x2000_0000_0000_0000
    ensures Bits(n) == 8 * n && BeValue(BeBytes(Bits(n), 8)) == 8 * n
  {
    Power8();
    BeBytesValue(8 * n, 8);
  }

  lemma Power8()
    ensures Pow256(8) == TWO64
  {
    assert Pow256(4) == 0x1_0000_0000;
  }
}

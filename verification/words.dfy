/** Words of 32 bits: the unsigned arithmetic of both hashes, and the bytes of
    a word. */
module Words32 {

  import opened Blocks

  type Word = bv32

  function Plus(x: Word, y: Word): Word {
    x + y
  }

  lemma PlusCommutes(x: Word, y: Word)
    ensures Plus(x, y) == Plus(y, x)
  {
    calc {
      Plus(x, y);
      x + y;
      y + x;
      Plus(y, x);
    }
  }

  lemma PlusAssociates(x: Word, y: Word, z: Word)
    ensures Plus(Plus(x, y), z) == Plus(x, Plus(y, z))
  {
    calc {
      Plus(Plus(x, y), z);
      Plus(x + y, z);
      (x + y) + z;
      x + (y + z);
      Plus(x, y + z);
      Plus(x, Plus(y, z));
    }
  }

  /** Eight words from place `t` on. */
  predicate Row(v: seq<Word>, t: nat, a: Word, b: Word, c: Word, d: Word, e: Word, f: Word, g: Word, h: Word)
    requires t + 8 <= |v|
  {
    v[t] == a && v[t + 1] == b && v[t + 2] == c && v[t + 3] == d &&
    v[t + 4] == e && v[t + 5] == f && v[t + 6] == g && v[t + 7] == h
  }

  /** The low byte of a word. */
  function Low(u: Word): bv8 {
    (u & 0xff) as bv8
  }

  lemma SameBits(b: bv8)
    ensures (b as Byte) as bv8 == b
  {
  }

  lemma NextBits(b: bv8)
    requires b != 0xff
    ensures (b + 1) as nat == b as nat + 1
  {
  }

  /** Every byte has its bits. */
  lemma {:induction false} BitsOf(p: Byte) returns (b: bv8)
    ensures b as nat == p
  {
    if p == 0 {
      b := 0;
    } else {
      var c := BitsOf(p - 1);
      NextBits(c);
      b := c + 1;
    }
  }

  lemma ByteBits(p: Byte)
    ensures (p as bv8) as nat == p
  {
    var b := BitsOf(p);
    SameBits(b);
  }

  /** be32dec of four bytes. */
  function BeJoin(b3: bv8, b2: bv8, b1: bv8, b0: bv8): Word {
    (((b3 as bv16 << 8) | b2 as bv16) as Word << 16) | ((b1 as bv16 << 8) | b0 as bv16) as Word
  }

  lemma BeJoinValue(b3: bv8, b2: bv8, b1: bv8, b0: bv8)
    ensures BeJoin(b3, b2, b1, b0) as nat
            == 0x100_0000 * b3 as nat + 0x1_0000 * b2 as nat + 0x100 * b1 as nat + b0 as nat
  {
    calc {
      BeJoin(b3, b2, b1, b0) as nat;
      ((((b3 as bv16 << 8) | b2 as bv16) as Word << 16) | ((b1 as bv16 << 8) | b0 as bv16) as Word) as nat;
      0x100_0000 * b3 as nat + 0x1_0000 * b2 as nat + 0x100 * b1 as nat + b0 as nat;
    }
  }

  /** The four bytes put together on a machine of either byte order. */
  function LeJoin(b0: bv8, b1: bv8, b2: bv8, b3: bv8): Word {
    b0 as Word | (b1 as Word << 8) | (b2 as Word << 16) | (b3 as Word << 24)
  }

  lemma LeJoinValue(b0: bv8, b1: bv8, b2: bv8, b3: bv8)
    ensures LeJoin(b0, b1, b2, b3) as nat
            == 0x100_0000 * b3 as nat + 0x1_0000 * b2 as nat + 0x100 * b1 as nat + b0 as nat
  {
    calc {
      LeJoin(b0, b1, b2, b3) as nat;
      (b0 as Word | (b1 as Word << 8) | (b2 as Word << 16) | (b3 as Word << 24)) as nat;
      0x100_0000 * b3 as nat + 0x1_0000 * b2 as nat + 0x100 * b1 as nat + b0 as nat;
    }
  }
}

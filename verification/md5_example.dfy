/** MD5 of the three bytes "abc", from the test suite of RFC 1321 (appendix
    A.5), by the rules of the standard as they are stated here.  It fixes every
    constant, shift, word order and byte order of them at once. */
module Md5Example {

  import opened Blocks
  import opened Md5
  import opened Md5Context
  import opened Words32

  // ----- steps -----

  /** Step `i` with the constant `k` and the shift `s`: the new second register. */
  function PlainStep(i: nat, s: nat, r: Regs<Word>, k: Word, x: Word): Word
    requires 0 < s < 32
  {
    Plus(r.b, Rotl(Plus(Plus(Plus(r.a, Aux(i, r.b, r.c, r.d)), x), k), s))
  }

  type Shifts = s: seq<nat> | forall i :: 0 <= i < |s| ==> 0 < s[i] < 32

  /** The first `t` steps; `x` are the message words in the order of their use. */
  function Run(k: seq<Word>, s: Shifts, x: seq<Word>, v: Regs<Word>, t: nat): Regs<Word>
    requires t <= |k| == |x| == |s|
  {
    if t == 0 then v
    else
      var r := Run(k, s, x, v, t - 1);
      Regs(r.d, PlainStep(t - 1, s[t - 1], r, k[t - 1], x[t - 1]), r.b, r.c)
  }

  lemma {:induction false} RunIsSteps(m: seq<Word>, s: Shifts, x: seq<Word>, v: Regs<Word>, t: nat)
    requires |m| == 16 && |x| == |s| == 64 && t <= 64
    requires forall i :: 0 <= i < 64 ==> x[i] == m[Index(i)] && s[i] == Shift(i)
    ensures Steps(RFC1321, m, v, t) == Run(T, s, x, v, t)
  {
    if t > 0 {
      RunIsSteps(m, s, x, v, t - 1);
    }
  }

  lemma Turn(k: seq<Word>, s: Shifts, x: seq<Word>, v: Regs<Word>, t: nat, r: Regs<Word>, b: Word)
    returns (q: Regs<Word>)
    requires t < |k| == |x| == |s| && Run(k, s, x, v, t) == r && PlainStep(t, s[t], r, k[t], x[t]) == b
    ensures q == Regs(r.d, b, r.b, r.c) && Run(k, s, x, v, t + 1) == q
  {
    q := Regs(r.d, b, r.b, r.c);
  }

  predicate Quad(s: Shifts, t: nat, a: nat, b: nat, c: nat, d: nat)
    requires t + 4 <= |s|
  {
    s[t] == a && s[t + 1] == b && s[t + 2] == c && s[t + 3] == d
  }

  lemma Steps0(k: seq<Word>, s: Shifts, x: seq<Word>, v: Regs<Word>)
    requires |k| == |x| == |s| == 64
    requires Run(k, s, x, v, 0) == Regs(0x67452301, 0xefcdab89, 0x98badcfe, 0x10325476)
    requires Row(k, 0, 0xd76aa478, 0xe8c7b756, 0x242070db, 0xc1bdceee, 0xf57c0faf, 0x4787c62a, 0xa8304613, 0xfd469501)
    requires Row(x, 0, 0x80636261, 0, 0, 0, 0, 0, 0, 0)
    requires Quad(s, 0, 7, 12, 17, 22) && Quad(s, 4, 7, 12, 17, 22)
    ensures Run(k, s, x, v, 8) == Regs(0xc73741ef, 0x928d99f6, 0x207dc67b, 0x8bac3051)
  {
    var r := Run(k, s, x, v, 0);
    r := Turn(k, s, x, v, 0, r, 0xd6d117b4);
    r := Turn(k, s, x, v, 1, r, 0x344a8432);
    r := Turn(k, s, x, v, 2, r, 0x2f6fbd72);
    r := Turn(k, s, x, v, 3, r, 0x7ad956f2);
    r := Turn(k, s, x, v, 4, r, 0xc73741ef);
    r := Turn(k, s, x, v, 5, r, 0x8bac3051);
    r := Turn(k, s, x, v, 6, r, 0x207dc67b);
    r := Turn(k, s, x, v, 7, r, 0x928d99f6);
  }

  lemma Steps8(k: seq<Word>, s: Shifts, x: seq<Word>, v: Regs<Word>)
    requires |k| == |x| == |s| == 64
    requires Run(k, s, x, v, 8) == Regs(0xc73741ef, 0x928d99f6, 0x207dc67b, 0x8bac3051)
    requires Row(k, 8, 0x698098d8, 0x8b44f7af, 0xffff5bb1, 0x895cd7be, 0x6b901122, 0xfd987193, 0xa679438e, 0x49b40821)
    requires Row(x, 8, 0, 0, 0, 0, 0, 0, 0x00000018, 0)
    requires Quad(s, 8, 7, 12, 17, 22) && Quad(s, 12, 7, 12, 17, 22)
    ensures Run(k, s, x, v, 16) == Regs(0xdda9b9a6, 0x72aff2e0, 0xe396856b, 0xa1051895)
  {
    var r := Run(k, s, x, v, 8);
    r := Turn(k, s, x, v, 8, r, 0x854b3712);
    r := Turn(k, s, x, v, 9, r, 0x74e2f284);
    r := Turn(k, s, x, v, 10, r, 0x3020401c);
    r := Turn(k, s, x, v, 11, r, 0x5ed49596);
    r := Turn(k, s, x, v, 12, r, 0xdda9b9a6);
    r := Turn(k, s, x, v, 13, r, 0xa1051895);
    r := Turn(k, s, x, v, 14, r, 0xe396856b);
    r := Turn(k, s, x, v, 15, r, 0x72aff2e0);
  }

  lemma Steps16(k: seq<Word>, s: Shifts, x: seq<Word>, v: Regs<Word>)
    requires |k| == |x| == |s| == 64
    requires Run(k, s, x, v, 16) == Regs(0xdda9b9a6, 0x72aff2e0, 0xe396856b, 0xa1051895)
    requires Row(k, 16, 0xf61e2562, 0xc040b340, 0x265e5a51, 0xe9b6c7aa, 0xd62f105d, 0x02441453, 0xd8a1e681, 0xe7d3fbc8)
    requires Row(x, 16, 0, 0, 0, 0x80636261, 0, 0, 0, 0)
    requires Quad(s, 16, 5, 9, 14, 20) && Quad(s, 20, 5, 9, 14, 20)
    ensures Run(k, s, x, v, 24) == Regs(0x59a8ffda, 0x47092c07, 0xabfc7920, 0x6d002f1e)
  {
    var r := Run(k, s, x, v, 16);
    r := Turn(k, s, x, v, 16, r, 0x3e9e9126);
    r := Turn(k, s, x, v, 17, r, 0x4a1d804e);
    r := Turn(k, s, x, v, 18, r, 0xe25e1652);
    r := Turn(k, s, x, v, 19, r, 0xb5b204e4);
    r := Turn(k, s, x, v, 20, r, 0x59a8ffda);
    r := Turn(k, s, x, v, 21, r, 0x6d002f1e);
    r := Turn(k, s, x, v, 22, r, 0xabfc7920);
    r := Turn(k, s, x, v, 23, r, 0x47092c07);
  }

  lemma Steps24(k: seq<Word>, s: Shifts, x: seq<Word>, v: Regs<Word>)
    requires |k| == |x| == |s| == 64
    requires Run(k, s, x, v, 24) == Regs(0x59a8ffda, 0x47092c07, 0xabfc7920, 0x6d002f1e)
    requires Row(k, 24, 0x21e1cde6, 0xc33707d6, 0xf4d50d87, 0x455a14ed, 0xa9e3e905, 0xfcefa3f8, 0x676f02d9, 0x8d2a4c8a)
    requires Row(x, 24, 0, 0x00000018, 0, 0, 0, 0, 0, 0)
    requires Quad(s, 24, 5, 9, 14, 20) && Quad(s, 28, 5, 9, 14, 20)
    ensures Run(k, s, x, v, 32) == Regs(0x790a77fb, 0x726342d3, 0xa62884aa, 0x9f47e4f8)
  {
    var r := Run(k, s, x, v, 24);
    r := Turn(k, s, x, v, 24, r, 0xb7f268cf);
    r := Turn(k, s, x, v, 25, r, 0x09388eff);
    r := Turn(k, s, x, v, 26, r, 0xfe1623b1);
    r := Turn(k, s, x, v, 27, r, 0x786acb8f);
    r := Turn(k, s, x, v, 28, r, 0x790a77fb);
    r := Turn(k, s, x, v, 29, r, 0x9f47e4f8);
    r := Turn(k, s, x, v, 30, r, 0xa62884aa);
    r := Turn(k, s, x, v, 31, r, 0x726342d3);
  }

  lemma Steps32(k: seq<Word>, s: Shifts, x: seq<Word>, v: Regs<Word>)
    requires |k| == |x| == |s| == 64
    requires Run(k, s, x, v, 32) == Regs(0x790a77fb, 0x726342d3, 0xa62884aa, 0x9f47e4f8)
    requires Row(k, 32, 0xfffa3942, 0x8771f681, 0x6d9d6122, 0xfde5380c, 0xa4beea44, 0x4bdecfa9, 0xf6bb4b60, 0xbebfbc70)
    requires Row(x, 32, 0, 0, 0, 0x00000018, 0, 0, 0, 0)
    requires Quad(s, 32, 4, 11, 16, 23) && Quad(s, 36, 4, 11, 16, 23)
    ensures Run(k, s, x, v, 40) == Regs(0x21b117b9, 0x5a2f5ea5, 0x3575227e, 0x6e7429d5)
  {
    var r := Run(k, s, x, v, 32);
    r := Turn(k, s, x, v, 32, r, 0xb3707ebf);
    r := Turn(k, s, x, v, 33, r, 0x60127b2e);
    r := Turn(k, s, x, v, 34, r, 0x8d212ff5);
    r := Turn(k, s, x, v, 35, r, 0x3b0875c7);
    r := Turn(k, s, x, v, 36, r, 0x21b117b9);
    r := Turn(k, s, x, v, 37, r, 0x6e7429d5);
    r := Turn(k, s, x, v, 38, r, 0x3575227e);
    r := Turn(k, s, x, v, 39, r, 0x5a2f5ea5);
  }

  lemma Steps40(k: seq<Word>, s: Shifts, x: seq<Word>, v: Regs<Word>)
    requires |k| == |x| == |s| == 64
    requires Run(k, s, x, v, 40) == Regs(0x21b117b9, 0x5a2f5ea5, 0x3575227e, 0x6e7429d5)
    requires Row(k, 40, 0x289b7ec6, 0xeaa127fa, 0xd4ef3085, 0x04881d05, 0xd9d4d039, 0xe6db99e5, 0x1fa27cf8, 0xc4ac5665)
    requires Row(x, 40, 0, 0x80636261, 0, 0, 0, 0, 0, 0)
    requires Quad(s, 40, 4, 11, 16, 23) && Quad(s, 44, 4, 11, 16, 23)
    ensures Run(k, s, x, v, 48) == Regs(0x7f2e507b, 0x7beb9700, 0x8fae6399, 0x99d9679d)
  {
    var r := Run(k, s, x, v, 40);
    r := Turn(k, s, x, v, 40, r, 0x11de1779);
    r := Turn(k, s, x, v, 41, r, 0xfadcaa38);
    r := Turn(k, s, x, v, 42, r, 0x31c465ca);
    r := Turn(k, s, x, v, 43, r, 0x4c6124f4);
    r := Turn(k, s, x, v, 44, r, 0x7f2e507b);
    r := Turn(k, s, x, v, 45, r, 0x99d9679d);
    r := Turn(k, s, x, v, 46, r, 0x8fae6399);
    r := Turn(k, s, x, v, 47, r, 0x7beb9700);
  }

  lemma Steps48(k: seq<Word>, s: Shifts, x: seq<Word>, v: Regs<Word>)
    requires |k| == |x| == |s| == 64
    requires Run(k, s, x, v, 48) == Regs(0x7f2e507b, 0x7beb9700, 0x8fae6399, 0x99d9679d)
    requires Row(k, 48, 0xf4292244, 0x432aff97, 0xab9423a7, 0xfc93a039, 0x655b59c3, 0x8f0ccc92, 0xffeff47d, 0x85845dd1)
    requires Row(x, 48, 0x80636261, 0, 0x00000018, 0, 0, 0, 0, 0)
    requires Quad(s, 48, 6, 10, 15, 21) && Quad(s, 52, 6, 10, 15, 21)
    ensures Run(k, s, x, v, 56) == Regs(0x06cc5e8a, 0x3bfa2c27, 0x7d632dd0, 0x5b0d97aa)
  {
    var r := Run(k, s, x, v, 48);
    r := Turn(k, s, x, v, 48, r, 0x7b201df8);
    r := Turn(k, s, x, v, 49, r, 0xf4e8e96e);
    r := Turn(k, s, x, v, 50, r, 0xb298cefd);
    r := Turn(k, s, x, v, 51, r, 0x8bf025c4);
    r := Turn(k, s, x, v, 52, r, 0x06cc5e8a);
    r := Turn(k, s, x, v, 53, r, 0x5b0d97aa);
    r := Turn(k, s, x, v, 54, r, 0x7d632dd0);
    r := Turn(k, s, x, v, 55, r, 0x3bfa2c27);
  }

  lemma Steps56(k: seq<Word>, s: Shifts, x: seq<Word>, v: Regs<Word>)
    requires |k| == |x| == |s| == 64
    requires Run(k, s, x, v, 56) == Regs(0x06cc5e8a, 0x3bfa2c27, 0x7d632dd0, 0x5b0d97aa)
    requires Row(k, 56, 0x6fa87e4f, 0xfe2ce6e0, 0xa3014314, 0x4e0811a1, 0xf7537e82, 0xbd3af235, 0x2ad7d2bb, 0xeb86d391)
    requires Row(x, 56, 0, 0, 0, 0, 0, 0, 0, 0)
    requires Quad(s, 56, 6, 10, 15, 21) && Quad(s, 60, 6, 10, 15, 21)
    ensures Run(k, s, x, v, 64) == Regs(0x310ade8f, 0xc08226b3, 0xe484b9d8, 0x624d8cb2)
  {
    var r := Run(k, s, x, v, 56);
    r := Turn(k, s, x, v, 56, r, 0x7f81cc35);
    r := Turn(k, s, x, v, 57, r, 0x094454ab);
    r := Turn(k, s, x, v, 58, r, 0x4f9dbe3f);
    r := Turn(k, s, x, v, 59, r, 0x7327d604);
    r := Turn(k, s, x, v, 60, r, 0x310ade8f);
    r := Turn(k, s, x, v, 61, r, 0x624d8cb2);
    r := Turn(k, s, x, v, 62, r, 0xe484b9d8);
    r := Turn(k, s, x, v, 63, r, 0xc08226b3);
  }

  // ----- constants -----

  lemma Constants0()
    ensures Row(T, 0, 0xd76aa478, 0xe8c7b756, 0x242070db, 0xc1bdceee, 0xf57c0faf, 0x4787c62a, 0xa8304613, 0xfd469501)
    ensures Row(T, 8, 0x698098d8, 0x8b44f7af, 0xffff5bb1, 0x895cd7be, 0x6b901122, 0xfd987193, 0xa679438e, 0x49b40821)
  {
  }

  lemma Constants16()
    ensures Row(T, 16, 0xf61e2562, 0xc040b340, 0x265e5a51, 0xe9b6c7aa, 0xd62f105d, 0x02441453, 0xd8a1e681, 0xe7d3fbc8)
    ensures Row(T, 24, 0x21e1cde6, 0xc33707d6, 0xf4d50d87, 0x455a14ed, 0xa9e3e905, 0xfcefa3f8, 0x676f02d9, 0x8d2a4c8a)
  {
  }

  lemma Constants32()
    ensures Row(T, 32, 0xfffa3942, 0x8771f681, 0x6d9d6122, 0xfde5380c, 0xa4beea44, 0x4bdecfa9, 0xf6bb4b60, 0xbebfbc70)
    ensures Row(T, 40, 0x289b7ec6, 0xeaa127fa, 0xd4ef3085, 0x04881d05, 0xd9d4d039, 0xe6db99e5, 0x1fa27cf8, 0xc4ac5665)
  {
  }

  lemma Constants48()
    ensures Row(T, 48, 0xf4292244, 0x432aff97, 0xab9423a7, 0xfc93a039, 0x655b59c3, 0x8f0ccc92, 0xffeff47d, 0x85845dd1)
    ensures Row(T, 56, 0x6fa87e4f, 0xfe2ce6e0, 0xa3014314, 0x4e0811a1, 0xf7537e82, 0xbd3af235, 0x2ad7d2bb, 0xeb86d391)
  {
  }

  // ----- the message -----

  lemma LengthBytes()
    ensures LeBytes(24, 8) == [24, 0, 0, 0, 0, 0, 0, 0]
  {
    assert LeBytes(0, 1) == [0] && LeBytes(0, 2) == [0, 0] && LeBytes(0, 3) == [0, 0, 0];
    assert LeBytes(0, 4) == [0, 0, 0, 0] && LeBytes(0, 5) == [0, 0, 0, 0, 0];
    assert LeBytes(0, 6) == [0, 0, 0, 0, 0, 0] && LeBytes(0, 7) == [0, 0, 0, 0, 0, 0, 0];
  }

  /** The padded message is one block: the text, the bit 1 and the length. */
  lemma PaddedAbc(b: Bytes)
    requires b == Pad(ABC)
    ensures |b| == 64 && b[0] == 0x61 && b[1] == 0x62 && b[2] == 0x63 && b[3] == 0x80 && b[56] == 24
    ensures forall j :: 4 <= j < 64 && j != 56 ==> b[j] == 0
  {
    assert Bits(3) == 24 && ZeroCount(3) == 52;
    LengthBytes();
    PadParts(ABC + [0x80], LeBytes(24, 8), b);
  }

  lemma ByteWords()
    ensures Le32Dec(0x61, 0x62, 0x63, 0x80) == 0x80636261
    ensures Le32Dec(0, 0, 0, 0) == 0 && Le32Dec(24, 0, 0, 0) == 24
  {
  }

  lemma MessageWords(m: seq<Word>)
    requires |Pad(ABC)| == 64 && m == Parse(Le32Dec, Pad(ABC))
    ensures m[0] == 0x80636261 && m[14] == 24 && forall j :: 0 < j < 16 && j != 14 ==> m[j] == 0
  {
    PaddedAbc(Pad(ABC));
    ByteWords();
  }

  lemma WordOrder(m: seq<Word>, x: seq<Word>)
    requires |m| == 16 && |x| == 64 && forall i :: 0 <= i < 64 ==> x[i] == m[Index(i)]
    requires m[0] == 0x80636261 && m[14] == 24 && forall j :: 0 < j < 16 && j != 14 ==> m[j] == 0
    ensures Row(x, 0, 0x80636261, 0, 0, 0, 0, 0, 0, 0)
    ensures Row(x, 8, 0, 0, 0, 0, 0, 0, 0x00000018, 0)
    ensures Row(x, 16, 0, 0, 0, 0x80636261, 0, 0, 0, 0)
    ensures Row(x, 24, 0, 0x00000018, 0, 0, 0, 0, 0, 0)
    ensures Row(x, 32, 0, 0, 0, 0x00000018, 0, 0, 0, 0)
    ensures Row(x, 40, 0, 0x80636261, 0, 0, 0, 0, 0, 0)
    ensures Row(x, 48, 0x80636261, 0, 0x00000018, 0, 0, 0, 0, 0)
    ensures Row(x, 56, 0, 0, 0, 0, 0, 0, 0, 0)
  {
  }

  lemma StepsOfAbc(m: seq<Word>)
    requires |m| == 16
    requires m[0] == 0x80636261 && m[14] == 24 && forall j :: 0 < j < 16 && j != 14 ==> m[j] == 0
    ensures Steps(RFC1321, m, INIT, 64) == Regs(0x310ade8f, 0xc08226b3, 0xe484b9d8, 0x624d8cb2)
  {
    var x, s := Orders(m);
    OrderedSteps(m, s, x);
  }

  lemma Orders(m: seq<Word>) returns (x: seq<Word>, s: Shifts)
    requires |m| == 16
    ensures |x| == |s| == 64 && forall i :: 0 <= i < 64 ==> x[i] == m[Index(i)] && s[i] == Shift(i)
  {
    x := seq(64, i requires 0 <= i < 64 => m[Index(i)]);
    s := seq(64, i requires 0 <= i < 64 => Shift(i));
  }

  lemma OrderedSteps(m: seq<Word>, s: Shifts, x: seq<Word>)
    requires |m| == 16 && |x| == |s| == 64 && forall i :: 0 <= i < 64 ==> x[i] == m[Index(i)] && s[i] == Shift(i)
    requires m[0] == 0x80636261 && m[14] == 24 && forall j :: 0 < j < 16 && j != 14 ==> m[j] == 0
    ensures Steps(RFC1321, m, INIT, 64) == Regs(0x310ade8f, 0xc08226b3, 0xe484b9d8, 0x624d8cb2)
  {
    WordOrder(m, x);
    RunOfAbc(s, x);
    RunIsSteps(m, s, x, INIT, 64);
  }

  lemma RunOfAbc(s: Shifts, x: seq<Word>)
    requires |x| == |s| == 64 && forall i :: 0 <= i < 64 ==> s[i] == Shift(i)
    requires Row(x, 0, 0x80636261, 0, 0, 0, 0, 0, 0, 0)
    requires Row(x, 8, 0, 0, 0, 0, 0, 0, 0x00000018, 0)
    requires Row(x, 16, 0, 0, 0, 0x80636261, 0, 0, 0, 0)
    requires Row(x, 24, 0, 0x00000018, 0, 0, 0, 0, 0, 0)
    requires Row(x, 32, 0, 0, 0, 0x00000018, 0, 0, 0, 0)
    requires Row(x, 40, 0, 0x80636261, 0, 0, 0, 0, 0, 0)
    requires Row(x, 48, 0x80636261, 0, 0x00000018, 0, 0, 0, 0, 0)
    requires Row(x, 56, 0, 0, 0, 0, 0, 0, 0, 0)
    ensures Run(T, s, x, INIT, 64) == Regs(0x310ade8f, 0xc08226b3, 0xe484b9d8, 0x624d8cb2)
  {
    Constants0();
    Constants16();
    Constants32();
    Constants48();
    Steps0(T, s, x, INIT);
    Steps8(T, s, x, INIT);
    Steps16(T, s, x, INIT);
    Steps24(T, s, x, INIT);
    Steps32(T, s, x, INIT);
    Steps40(T, s, x, INIT);
    Steps48(T, s, x, INIT);
    Steps56(T, s, x, INIT);
  }

  lemma SumOfAbc()
    ensures AddRegs(RFC1321, Regs(0x310ade8f, 0xc08226b3, 0xe484b9d8, 0x624d8cb2), INIT) ==
            Regs(0x98500190, 0xb04fd23c, 0x7d3f96d6, 0x727fe128)
  {
  }

  lemma BlockOfAbc(b: Bytes)
    requires b == Pad(ABC) && |b| == 64
    ensures HashBlock(RFC1321, INIT, b) == Regs(0x98500190, 0xb04fd23c, 0x7d3f96d6, 0x727fe128)
  {
    MessageWords(Parse(Le32Dec, b));
    StepsOfAbc(Parse(Le32Dec, b));
    SumOfAbc();
  }

  lemma HashOfAbc()
    ensures HashBlocks(Hasher(RFC1321), INIT, Pad(ABC)) == Regs(0x98500190, 0xb04fd23c, 0x7d3f96d6, 0x727fe128)
  {
    var b := Pad(ABC);
    PaddedAbc(b);
    BlockOfAbc(b);
    OneBlock(Hasher(RFC1321), INIT, b);
  }

  lemma DigestBytes()
    ensures Le32Enc(0x98500190) == [0x90, 0x01, 0x50, 0x98]
    ensures Le32Enc(0xb04fd23c) == [0x3c, 0xd2, 0x4f, 0xb0]
    ensures Le32Enc(0x7d3f96d6) == [0xd6, 0x96, 0x3f, 0x7d]
    ensures Le32Enc(0x727fe128) == [0x28, 0xe1, 0x7f, 0x72]
  {
  }

  /** MD5("abc") */
  lemma DigestOfAbc()
    ensures Digest(RFC1321, INIT, ABC) ==
            [0x90, 0x01, 0x50, 0x98] + [0x3c, 0xd2, 0x4f, 0xb0] +
            [0xd6, 0x96, 0x3f, 0x7d] + [0x28, 0xe1, 0x7f, 0x72]
  {
    HashOfAbc();
    DigestBytes();
  }
}

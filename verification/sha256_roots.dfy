/** Where the constants of SHA-256 come from (FIPS 180-4, sections 4.2.2 and
    5.3.3): the first 32 bits of the fractional parts of the cube roots of the
    first 64 primes, and of the square roots of the first eight.  The primes
    are found by a sieve. */
module Sha256Roots {

  import opened Blocks
  import opened Sha256
  import opened Sha256Context
  import opened Words32

  // ----- primes -----

  predicate IsPrime(p: nat) {
    p >= 2 && forall d :: 2 <= d < p ==> p % d != 0
  }

  /** The primes up to `n` in ascending order. */
  ghost function PrimesUpTo(n: nat): seq<nat> {
    if n < 2 then [] else PrimesUpTo(n - 1) + if IsPrime(n) then [n] else []
  }

  const PRIMES: seq<nat> :=
    (([2, 3, 5, 7, 11, 13, 17, 19] +
      [23, 29, 31, 37, 41, 43, 47, 53]) +
     ([59, 61, 67, 71, 73, 79, 83, 89] +
      [97, 101, 103, 107, 109, 113, 127, 131])) +
    (([137, 139, 149, 151, 157, 163, 167, 173] +
      [179, 181, 191, 193, 197, 199, 211, 223]) +
     ([227, 229, 233, 239, 241, 251, 257, 263] +
      [269, 271, 277, 281, 283, 293, 307, 311]))

  /** The number is no proper multiple of a prime up to 17. */
  predicate Sieved(n: nat) {
    (n % 2 != 0 || n == 2) && (n % 3 != 0 || n == 3) && (n % 5 != 0 || n == 5) && (n % 7 != 0 || n == 7) &&
    (n % 11 != 0 || n == 11) && (n % 13 != 0 || n == 13) && (n % 17 != 0 || n == 17)
  }

  lemma SmallFactor(c: nat) returns (q: nat, b: nat)
    requires 2 <= c < 19
    ensures q == 2 || q == 3 || q == 5 || q == 7 || q == 11 || q == 13 || q == 17
    ensures q <= c && c == q * b
  {
    q := if c % 2 == 0 then 2 else if c % 3 == 0 then 3 else c;
    b := c / q;
  }

  lemma MultipleMod(n: nat, q: nat, k: nat)
    requires q == 2 || q == 3 || q == 5 || q == 7 || q == 11 || q == 13 || q == 17
    requires n == q * k
    ensures n % q == 0
  {
  }

  lemma Regroup(q: nat, b: nat, m: nat)
    ensures (q * b) * m == q * (b * m)
  {
  }

  lemma NoSmallFactor(n: nat, c: nat, m: nat)
    requires n == c * m && 2 <= c < 19 && c < n
    ensures !Sieved(n)
  {
    var q, b := SmallFactor(c);
    Regroup(q, b, m);
    MultipleMod(n, q, b * m);
  }

  lemma ProductBounds(d: nat, e: nat)
    ensures e == 0 ==> d * e == 0
    ensures e == 1 ==> d * e == d
    ensures d >= 2 ==> d * e >= 2 * e
    ensures d >= 19 && e >= 19 ==> d * e >= 361
  {
  }

  lemma ProperFactor(n: nat, d: nat)
    requires 2 <= d < n < 361 && n % d == 0
    ensures !Sieved(n)
  {
    var e := n / d;
    assert n == d * e;
    ProductBounds(d, e);
    if d < 19 {
      NoSmallFactor(n, d, e);
    } else {
      assert n == e * d;
      NoSmallFactor(n, e, d);
    }
  }

  lemma PrimeIsSieved(n: nat)
    requires IsPrime(n)
    ensures Sieved(n)
  {
    assert n > 2 ==> n % 2 != 0;
    assert n > 3 ==> n % 3 != 0;
    assert n > 5 ==> n % 5 != 0;
    assert n > 7 ==> n % 7 != 0;
    assert n > 11 ==> n % 11 != 0;
    assert n > 13 ==> n % 13 != 0;
    assert n > 17 ==> n % 17 != 0;
  }

  /** Below 19 * 19 the sieve leaves the primes. */
  lemma SievedIsPrime(n: nat)
    requires 2 <= n < 361
    ensures IsPrime(n) <==> Sieved(n)
  {
    if IsPrime(n) {
      PrimeIsSieved(n);
    }
    if Sieved(n) {
      forall d | 2 <= d < n ensures n % d != 0 {
        if n % d == 0 {
          ProperFactor(n, d);
        }
      }
    }
  }

  /** The sieve leaves nothing from `p` up to `q`. */
  predicate NoneFrom(p: nat, q: nat)
    decreases q - p
  {
    p < q ==> !Sieved(p) && NoneFrom(p + 1, q)
  }

  /** `q` is the first prime after `p`. */
  predicate Gap(p: nat, q: nat) {
    p < q && Sieved(q) && NoneFrom(p + 1, q)
  }

  predicate Chain(row: seq<nat>) {
    forall i :: 0 <= i < |row| - 1 ==> Gap(row[i], row[i + 1])
  }

  lemma {:induction false} GapPrimes(p: nat, n: nat)
    requires 0 < p <= n < 361 && NoneFrom(p + 1, n + 1)
    ensures PrimesUpTo(n) == PrimesUpTo(p)
    decreases n - p
  {
    if p < n {
      SievedIsPrime(p + 1);
      GapPrimes(p + 1, n);
    }
  }

  lemma {:induction false} ChainPrimes(row: seq<nat>)
    requires row != [] && 0 < row[0] && Chain(row) && forall i :: 0 <= i < |row| ==> row[i] < 361
    ensures PrimesUpTo(row[|row| - 1]) == PrimesUpTo(row[0]) + row[1..]
  {
    var n := |row| - 1;
    if n > 0 {
      var front := row[..n];
      assert Gap(row[n - 1], row[n]);
      ChainPrimes(front);
      GapPrimes(row[n - 1], row[n] - 1);
      SievedIsPrime(row[n]);
      assert row[1..] == front[1..] + [row[n]];
    } else {
      assert row[1..] == [];
    }
  }

  lemma Gaps0()
    ensures Gap(1, 2) && Gap(2, 3) && Gap(3, 5) && Gap(5, 7)
    ensures Gap(7, 11) && Gap(11, 13) && Gap(13, 17) && Gap(17, 19)
  {
  }

  lemma Primes0()
    ensures PrimesUpTo(19) == [2, 3, 5, 7, 11, 13, 17, 19]
  {
    Gaps0();
    ChainPrimes([1, 2, 3, 5, 7, 11, 13, 17, 19]);
    assert PrimesUpTo(1) == [] && [] + [2, 3, 5, 7, 11, 13, 17, 19] == [2, 3, 5, 7, 11, 13, 17, 19];
  }

  lemma Gaps8()
    ensures Gap(19, 23) && Gap(23, 29) && Gap(29, 31) && Gap(31, 37)
    ensures Gap(37, 41) && Gap(41, 43) && Gap(43, 47) && Gap(47, 53)
  {
  }

  lemma Primes8()
    ensures PrimesUpTo(53) == PrimesUpTo(19) + [23, 29, 31, 37, 41, 43, 47, 53]
  {
    Gaps8();
    ChainPrimes([19, 23, 29, 31, 37, 41, 43, 47, 53]);
  }

  lemma Gaps16()
    ensures Gap(53, 59) && Gap(59, 61) && Gap(61, 67) && Gap(67, 71)
    ensures Gap(71, 73) && Gap(73, 79) && Gap(79, 83) && Gap(83, 89)
  {
  }

  lemma Primes16()
    ensures PrimesUpTo(89) == PrimesUpTo(53) + [59, 61, 67, 71, 73, 79, 83, 89]
  {
    Gaps16();
    ChainPrimes([53, 59, 61, 67, 71, 73, 79, 83, 89]);
  }

  lemma Gaps24()
    ensures Gap(89, 97) && Gap(97, 101) && Gap(101, 103) && Gap(103, 107)
    ensures Gap(107, 109) && Gap(109, 113) && Gap(113, 127) && Gap(127, 131)
  {
  }

  lemma Primes24()
    ensures PrimesUpTo(131) == PrimesUpTo(89) + [97, 101, 103, 107, 109, 113, 127, 131]
  {
    Gaps24();
    ChainPrimes([89, 97, 101, 103, 107, 109, 113, 127, 131]);
  }

  lemma Gaps32()
    ensures Gap(131, 137) && Gap(137, 139) && Gap(139, 149) && Gap(149, 151)
    ensures Gap(151, 157) && Gap(157, 163) && Gap(163, 167) && Gap(167, 173)
  {
  }

  lemma Primes32()
    ensures PrimesUpTo(173) == PrimesUpTo(131) + [137, 139, 149, 151, 157, 163, 167, 173]
  {
    Gaps32();
    ChainPrimes([131, 137, 139, 149, 151, 157, 163, 167, 173]);
  }

  lemma Gaps40()
    ensures Gap(173, 179) && Gap(179, 181) && Gap(181, 191) && Gap(191, 193)
    ensures Gap(193, 197) && Gap(197, 199) && Gap(199, 211) && Gap(211, 223)
  {
  }

  lemma Primes40()
    ensures PrimesUpTo(223) == PrimesUpTo(173) + [179, 181, 191, 193, 197, 199, 211, 223]
  {
    Gaps40();
    ChainPrimes([173, 179, 181, 191, 193, 197, 199, 211, 223]);
  }

  lemma Gaps48()
    ensures Gap(223, 227) && Gap(227, 229) && Gap(229, 233) && Gap(233, 239)
    ensures Gap(239, 241) && Gap(241, 251) && Gap(251, 257) && Gap(257, 263)
  {
  }

  lemma Primes48()
    ensures PrimesUpTo(263) == PrimesUpTo(223) + [227, 229, 233, 239, 241, 251, 257, 263]
  {
    Gaps48();
    ChainPrimes([223, 227, 229, 233, 239, 241, 251, 257, 263]);
  }

  lemma Gaps56()
    ensures Gap(263, 269) && Gap(269, 271) && Gap(271, 277) && Gap(277, 281)
    ensures Gap(281, 283) && Gap(283, 293) && Gap(293, 307) && Gap(307, 311)
  {
  }

  lemma Primes56()
    ensures PrimesUpTo(311) == PrimesUpTo(263) + [269, 271, 277, 281, 283, 293, 307, 311]
  {
    Gaps56();
    ChainPrimes([263, 269, 271, 277, 281, 283, 293, 307, 311]);
  }

  lemma FourParts(a: seq<nat>, b: seq<nat>, c: seq<nat>, d: seq<nat>)
    ensures ((a + b) + c) + d == (a + b) + (c + d)
  {
  }

  lemma FiveParts(p: seq<nat>, a: seq<nat>, b: seq<nat>, c: seq<nat>, d: seq<nat>)
    ensures (((p + a) + b) + c) + d == p + ((a + b) + (c + d))
  {
  }

  lemma LowerPrimes()
    ensures PrimesUpTo(131) ==
            ([2, 3, 5, 7, 11, 13, 17, 19] +
             [23, 29, 31, 37, 41, 43, 47, 53]) +
            ([59, 61, 67, 71, 73, 79, 83, 89] +
             [97, 101, 103, 107, 109, 113, 127, 131])
  {
    Primes0();
    Primes8();
    Primes16();
    Primes24();
    FourParts(PrimesUpTo(19),
              [23, 29, 31, 37, 41, 43, 47, 53],
              [59, 61, 67, 71, 73, 79, 83, 89],
              [97, 101, 103, 107, 109, 113, 127, 131]);
  }

  lemma UpperPrimes()
    ensures PrimesUpTo(311) == PrimesUpTo(131) +
            (([137, 139, 149, 151, 157, 163, 167, 173] +
              [179, 181, 191, 193, 197, 199, 211, 223]) +
             ([227, 229, 233, 239, 241, 251, 257, 263] +
              [269, 271, 277, 281, 283, 293, 307, 311]))
  {
    Primes32();
    Primes40();
    Primes48();
    Primes56();
    FiveParts(PrimesUpTo(131),
              [137, 139, 149, 151, 157, 163, 167, 173],
              [179, 181, 191, 193, 197, 199, 211, 223],
              [227, 229, 233, 239, 241, 251, 257, 263],
              [269, 271, 277, 281, 283, 293, 307, 311]);
  }

  /** The first 64 primes. */
  lemma FirstPrimes()
    ensures PrimesUpTo(311) == PRIMES
  {
    LowerPrimes();
    UpperPrimes();
  }

  // ----- roots -----

  /** `k` are the first 32 bits of the fractional part of the cube root of
      `p`, whose integral part is `n`. */
  predicate CubeRoot(p: nat, n: nat, k: nat) {
    var x := n * TWO32 + k;
    x * x * x <= p * 0x1_0000_0000_0000_0000_0000_0000 < (x + 1) * (x + 1) * (x + 1)
  }

  predicate SquareRoot(p: nat, n: nat, k: nat) {
    var x := n * TWO32 + k;
    x * x <= p * TWO64 < (x + 1) * (x + 1)
  }

  function Integral(p: nat): nat {
    if p < 8 then 1 else if p < 27 then 2 else if p < 64 then 3 else if p < 125 then 4 else if p < 216 then 5 else 6
  }

  predicate RootAt(primes: seq<nat>, k: seq<Word>, i: nat)
    requires i < |primes| == |k|
  {
    CubeRoot(primes[i], Integral(primes[i]), k[i] as nat)
  }

  predicate RootOf(i: int) {
    0 <= i < 64 && RootAt(PRIMES, K, i)
  }

  predicate Four(p: int -> bool, i: int) {
    p(i) && p(i + 1) && p(i + 2) && p(i + 3)
  }

  lemma Cubes0()
    ensures Four(RootOf, 0)
  {
  }

  lemma Cubes4()
    ensures Four(RootOf, 4)
  {
  }

  lemma Cubes8()
    ensures Four(RootOf, 8)
  {
  }

  lemma Cubes12()
    ensures Four(RootOf, 12)
  {
  }

  lemma Cubes16()
    ensures Four(RootOf, 16)
  {
  }

  lemma Cubes20()
    ensures Four(RootOf, 20)
  {
  }

  lemma Cubes24()
    ensures Four(RootOf, 24)
  {
  }

  lemma Cubes28()
    ensures Four(RootOf, 28)
  {
  }

  lemma Cubes32()
    ensures Four(RootOf, 32)
  {
  }

  lemma Cubes36()
    ensures Four(RootOf, 36)
  {
  }

  lemma Cubes40()
    ensures Four(RootOf, 40)
  {
  }

  lemma Cubes44()
    ensures Four(RootOf, 44)
  {
  }

  lemma Cubes48()
    ensures Four(RootOf, 48)
  {
  }

  lemma Cubes52()
    ensures Four(RootOf, 52)
  {
  }

  lemma Cubes56()
    ensures Four(RootOf, 56)
  {
  }

  lemma Cubes60()
    ensures Four(RootOf, 60)
  {
  }

  lemma Everywhere(p: int -> bool, i: int)
    requires 0 <= i < 64
    requires Four(p, 0) && Four(p, 4) && Four(p, 8) && Four(p, 12) && Four(p, 16) && Four(p, 20) && Four(p, 24)
    requires Four(p, 28) && Four(p, 32) && Four(p, 36) && Four(p, 40) && Four(p, 44) && Four(p, 48) && Four(p, 52)
    requires Four(p, 56) && Four(p, 60)
    ensures p(i)
  {
    assert Four(p, i / 4 * 4);
  }

  ghost predicate HasCubeRoot(p: nat, k: nat) {
    exists n :: CubeRoot(p, n, k)
  }

  ghost predicate HasSquareRoot(p: nat, k: nat) {
    exists n :: SquareRoot(p, n, k)
  }

  /** K[i] is what the standard says of the prime number i. */
  lemma ConstantsAreCubeRoots(i: nat)
    requires i < 64
    ensures |PrimesUpTo(311)| == 64 && HasCubeRoot(PrimesUpTo(311)[i], K[i] as nat)
  {
    FirstPrimes();
    Cubes0();
    Cubes4();
    Cubes8();
    Cubes12();
    Cubes16();
    Cubes20();
    Cubes24();
    Cubes28();
    Cubes32();
    Cubes36();
    Cubes40();
    Cubes44();
    Cubes48();
    Cubes52();
    Cubes56();
    Cubes60();
    Everywhere(RootOf, i);
    assert RootOf(i);
    RootExists(PRIMES, K, i);
  }

  lemma RootExists(primes: seq<nat>, k: seq<Word>, i: nat)
    requires i < |primes| == |k| && RootAt(primes, k, i)
    ensures HasCubeRoot(primes[i], k[i] as nat)
  {
  }

  predicate Starts(primes: seq<nat>, h: State)
    requires |primes| >= 8
  {
    SquareRoot(primes[0], 1, h.a as nat) && SquareRoot(primes[1], 1, h.b as nat) &&
    SquareRoot(primes[2], 2, h.c as nat) && SquareRoot(primes[3], 2, h.d as nat) &&
    SquareRoot(primes[4], 3, h.e as nat) && SquareRoot(primes[5], 3, h.f as nat) &&
    SquareRoot(primes[6], 4, h.g as nat) && SquareRoot(primes[7], 4, h.h as nat)
  }

  lemma StartsOfH0()
    ensures Starts(PRIMES, H0)
  {
  }

  lemma StartBelow(primes: seq<nat>, h: State, i: nat)
    requires |primes| >= 8 && i < 4 && Starts(primes, h)
    ensures HasSquareRoot(primes[i], WordsOf(h)[i] as nat)
  {
  }

  lemma StartAbove(primes: seq<nat>, h: State, i: nat)
    requires |primes| >= 8 && 4 <= i < 8 && Starts(primes, h)
    ensures HasSquareRoot(primes[i], WordsOf(h)[i] as nat)
  {
  }

  lemma StartExists(primes: seq<nat>, h: State, i: nat)
    requires |primes| >= 8 && i < 8 && Starts(primes, h)
    ensures HasSquareRoot(primes[i], WordsOf(h)[i] as nat)
  {
    if i < 4 {
      StartBelow(primes, h, i);
    } else {
      StartAbove(primes, h, i);
    }
  }

  /** Word i of the initial hash value likewise. */
  lemma InitialIsSquareRoots(i: nat)
    requires i < 8
    ensures |PrimesUpTo(311)| == 64 && HasSquareRoot(PrimesUpTo(311)[i], WordsOf(H0)[i] as nat)
  {
    FirstPrimes();
    StartsOfH0();
    StartExists(PRIMES, H0, i);
  }
}

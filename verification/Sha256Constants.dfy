// Where the constants of SHA-256 come from (sections 4.2.2 and 5.3.3 of FIPS 180-4).
module Sha256Constants {
  import opened Sha256Spec

  /** k holds the first 32 bits of the fractional part of the square root of p, whose integer part is c. */
  predicate IsSquareRoot(p: nat, c: nat, k: word) {
    var n := c * 0x1_0000_0000 + k as nat;
    n * n <= p * 0x1_0000_0000_0000_0000 < (n + 1) * (n + 1)
  }

  /** The initial hash value: the square roots of the first eight primes. */
  lemma InitialHashIsSquareRoots()
    ensures IsSquareRoot(2, 1, INITIAL_HASH.a) && IsSquareRoot(3, 1, INITIAL_HASH.b)
    ensures IsSquareRoot(5, 2, INITIAL_HASH.c) && IsSquareRoot(7, 2, INITIAL_HASH.d)
    ensures IsSquareRoot(11, 3, INITIAL_HASH.e) && IsSquareRoot(13, 3, INITIAL_HASH.f)
    ensures IsSquareRoot(17, 4, INITIAL_HASH.g) && IsSquareRoot(19, 4, INITIAL_HASH.h)
  {
  }

  /** k holds the first 32 bits of the fractional part of the cube root of p. */
  ghost predicate HoldsCubeRoot(p: nat, k: word) {
    exists c: nat :: IsCubeRoot(p, c * 0x1_0000_0000 + k as nat)
  }

  predicate IsCubeRoot(p: nat, n: nat) {
    n * n * n <= p * 0x1_0000_0000_0000_0000_0000_0000 < (n + 1) * (n + 1) * (n + 1)
  }

  ghost predicate CubeRoots(primes: seq<nat>, ks: seq<word>) {
    |primes| == |ks| && forall i :: 0 <= i < |ks| ==> HoldsCubeRoot(primes[i], ks[i])
  }

  lemma CubeRoot(p: nat, c: nat, k: word, digits: nat)
    requires k as nat == digits && IsCubeRoot(p, c * 0x1_0000_0000 + digits)
    ensures HoldsCubeRoot(p, k)
  {
  }

  lemma ConcatRoots(p: seq<nat>, q: seq<nat>, ks: seq<word>, ls: seq<word>)
    requires CubeRoots(p, ks) && CubeRoots(q, ls)
    ensures CubeRoots(p + q, ks + ls)
  {
    hide HoldsCubeRoot;
  }

  const FIRST_PRIMES: seq<nat> :=
    [2, 3, 5, 7, 11, 13, 17, 19]
    + [23, 29, 31, 37, 41, 43, 47, 53]
    + [59, 61, 67, 71, 73, 79, 83, 89]
    + [97, 101, 103, 107, 109, 113, 127, 131]
    + [137, 139, 149, 151, 157, 163, 167, 173]
    + [179, 181, 191, 193, 197, 199, 211, 223]
    + [227, 229, 233, 239, 241, 251, 257, 263]
    + [269, 271, 277, 281, 283, 293, 307, 311]

  /** The round constants: the cube roots of the first 64 primes. */
  lemma RoundConstantsAreCubeRoots()
    ensures CubeRoots(FIRST_PRIMES, ROUND_CONSTANTS)
  {
    hide CubeRoots;
    RootsOfRow1();
    RootsOfRow2();
    RootsOfRow3();
    RootsOfRow4();
    RootsOfRow5();
    RootsOfRow6();
    RootsOfRow7();
    RootsOfRow8();
    var primes, ks := [2, 3, 5, 7, 11, 13, 17, 19], ROW_1;
    ConcatRoots(primes, [23, 29, 31, 37, 41, 43, 47, 53], ks, ROW_2);
    primes, ks := primes + [23, 29, 31, 37, 41, 43, 47, 53], ks + ROW_2;
    ConcatRoots(primes, [59, 61, 67, 71, 73, 79, 83, 89], ks, ROW_3);
    primes, ks := primes + [59, 61, 67, 71, 73, 79, 83, 89], ks + ROW_3;
    ConcatRoots(primes, [97, 101, 103, 107, 109, 113, 127, 131], ks, ROW_4);
    primes, ks := primes + [97, 101, 103, 107, 109, 113, 127, 131], ks + ROW_4;
    ConcatRoots(primes, [137, 139, 149, 151, 157, 163, 167, 173], ks, ROW_5);
    primes, ks := primes + [137, 139, 149, 151, 157, 163, 167, 173], ks + ROW_5;
    ConcatRoots(primes, [179, 181, 191, 193, 197, 199, 211, 223], ks, ROW_6);
    primes, ks := primes + [179, 181, 191, 193, 197, 199, 211, 223], ks + ROW_6;
    ConcatRoots(primes, [227, 229, 233, 239, 241, 251, 257, 263], ks, ROW_7);
    primes, ks := primes + [227, 229, 233, 239, 241, 251, 257, 263], ks + ROW_7;
    ConcatRoots(primes, [269, 271, 277, 281, 283, 293, 307, 311], ks, ROW_8);
    primes, ks := primes + [269, 271, 277, 281, 283, 293, 307, 311], ks + ROW_8;
  }

  lemma RootsOfRow1()
    ensures CubeRoots([2, 3, 5, 7, 11, 13, 17, 19], ROW_1)
  {
    hide HoldsCubeRoot;
    CubeRoot(2, 1, ROW_1[0], 0x428a2f98);
    CubeRoot(3, 1, ROW_1[1], 0x71374491);
    CubeRoot(5, 1, ROW_1[2], 0xb5c0fbcf);
    CubeRoot(7, 1, ROW_1[3], 0xe9b5dba5);
    CubeRoot(11, 2, ROW_1[4], 0x3956c25b);
    CubeRoot(13, 2, ROW_1[5], 0x59f111f1);
    CubeRoot(17, 2, ROW_1[6], 0x923f82a4);
    CubeRoot(19, 2, ROW_1[7], 0xab1c5ed5);
  }

  lemma RootsOfRow2()
    ensures CubeRoots([23, 29, 31, 37, 41, 43, 47, 53], ROW_2)
  {
    hide HoldsCubeRoot;
    CubeRoot(23, 2, ROW_2[0], 0xd807aa98);
    CubeRoot(29, 3, ROW_2[1], 0x12835b01);
    CubeRoot(31, 3, ROW_2[2], 0x243185be);
    CubeRoot(37, 3, ROW_2[3], 0x550c7dc3);
    CubeRoot(41, 3, ROW_2[4], 0x72be5d74);
    CubeRoot(43, 3, ROW_2[5], 0x80deb1fe);
    CubeRoot(47, 3, ROW_2[6], 0x9bdc06a7);
    CubeRoot(53, 3, ROW_2[7], 0xc19bf174);
  }

  lemma RootsOfRow3()
    ensures CubeRoots([59, 61, 67, 71, 73, 79, 83, 89], ROW_3)
  {
    hide HoldsCubeRoot;
    CubeRoot(59, 3, ROW_3[0], 0xe49b69c1);
    CubeRoot(61, 3, ROW_3[1], 0xefbe4786);
    CubeRoot(67, 4, ROW_3[2], 0x0fc19dc6);
    CubeRoot(71, 4, ROW_3[3], 0x240ca1cc);
    CubeRoot(73, 4, ROW_3[4], 0x2de92c6f);
    CubeRoot(79, 4, ROW_3[5], 0x4a7484aa);
    CubeRoot(83, 4, ROW_3[6], 0x5cb0a9dc);
    CubeRoot(89, 4, ROW_3[7], 0x76f988da);
  }

  lemma RootsOfRow4()
    ensures CubeRoots([97, 101, 103, 107, 109, 113, 127, 131], ROW_4)
  {
    hide HoldsCubeRoot;
    CubeRoot(97, 4, ROW_4[0], 0x983e5152);
    CubeRoot(101, 4, ROW_4[1], 0xa831c66d);
    CubeRoot(103, 4, ROW_4[2], 0xb00327c8);
    CubeRoot(107, 4, ROW_4[3], 0xbf597fc7);
    CubeRoot(109, 4, ROW_4[4], 0xc6e00bf3);
    CubeRoot(113, 4, ROW_4[5], 0xd5a79147);
    CubeRoot(127, 5, ROW_4[6], 0x06ca6351);
    CubeRoot(131, 5, ROW_4[7], 0x14292967);
  }

  lemma RootsOfRow5()
    ensures CubeRoots([137, 139, 149, 151, 157, 163, 167, 173], ROW_5)
  {
    hide HoldsCubeRoot;
    CubeRoot(137, 5, ROW_5[0], 0x27b70a85);
    CubeRoot(139, 5, ROW_5[1], 0x2e1b2138);
    CubeRoot(149, 5, ROW_5[2], 0x4d2c6dfc);
    CubeRoot(151, 5, ROW_5[3], 0x53380d13);
    CubeRoot(157, 5, ROW_5[4], 0x650a7354);
    CubeRoot(163, 5, ROW_5[5], 0x766a0abb);
    CubeRoot(167, 5, ROW_5[6], 0x81c2c92e);
    CubeRoot(173, 5, ROW_5[7], 0x92722c85);
  }

  lemma RootsOfRow6()
    ensures CubeRoots([179, 181, 191, 193, 197, 199, 211, 223], ROW_6)
  {
    hide HoldsCubeRoot;
    CubeRoot(179, 5, ROW_6[0], 0xa2bfe8a1);
    CubeRoot(181, 5, ROW_6[1], 0xa81a664b);
    CubeRoot(191, 5, ROW_6[2], 0xc24b8b70);
    CubeRoot(193, 5, ROW_6[3], 0xc76c51a3);
    CubeRoot(197, 5, ROW_6[4], 0xd192e819);
    CubeRoot(199, 5, ROW_6[5], 0xd6990624);
    CubeRoot(211, 5, ROW_6[6], 0xf40e3585);
    CubeRoot(223, 6, ROW_6[7], 0x106aa070);
  }

  lemma RootsOfRow7()
    ensures CubeRoots([227, 229, 233, 239, 241, 251, 257, 263], ROW_7)
  {
    hide HoldsCubeRoot;
    CubeRoot(227, 6, ROW_7[0], 0x19a4c116);
    CubeRoot(229, 6, ROW_7[1], 0x1e376c08);
    CubeRoot(233, 6, ROW_7[2], 0x2748774c);
    CubeRoot(239, 6, ROW_7[3], 0x34b0bcb5);
    CubeRoot(241, 6, ROW_7[4], 0x391c0cb3);
    CubeRoot(251, 6, ROW_7[5], 0x4ed8aa4a);
    CubeRoot(257, 6, ROW_7[6], 0x5b9cca4f);
    CubeRoot(263, 6, ROW_7[7], 0x682e6ff3);
  }

  lemma RootsOfRow8()
    ensures CubeRoots([269, 271, 277, 281, 283, 293, 307, 311], ROW_8)
  {
    hide HoldsCubeRoot;
    CubeRoot(269, 6, ROW_8[0], 0x748f82ee);
    CubeRoot(271, 6, ROW_8[1], 0x78a5636f);
    CubeRoot(277, 6, ROW_8[2], 0x84c87814);
    CubeRoot(281, 6, ROW_8[3], 0x8cc70208);
    CubeRoot(283, 6, ROW_8[4], 0x90befffa);
    CubeRoot(293, 6, ROW_8[5], 0xa4506ceb);
    CubeRoot(307, 6, ROW_8[6], 0xbef9a3f7);
    CubeRoot(311, 6, ROW_8[7], 0xc67178f2);
  }
}

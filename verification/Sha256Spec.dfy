// SHA-256 as FIPS 180-4 defines it: the word functions of section 4.1.2, the padding of
// section 5.1.1 and the hash computation of section 6.2.2.
module Sha256Spec {
  type byte = bv8
  type word = bv32

  const BLOCK_SIZE := 64
  const DIGEST_LENGTH := 32

  /** Section 5.1.1 covers messages shorter than 2^64 bits. */
  const MAX_MESSAGE_LENGTH: nat := 0x2000_0000_0000_0000

  /** The eight working variables, and also the eight words of a hash value. */
  datatype Regs = Regs(a: word, b: word, c: word, d: word, e: word, f: word, g: word, h: word)

  const INITIAL_HASH := Regs(
    0x6a09e667, 0xbb67ae85, 0x3c6ef372, 0xa54ff53a, 0x510e527f, 0x9b05688c, 0x1f83d9ab, 0x5be0cd19)

  /** The round constants, eight at a time. */
  const ROUND_CONSTANTS: seq<word> := ROW_1 + ROW_2 + ROW_3 + ROW_4 + ROW_5 + ROW_6 + ROW_7 + ROW_8

  const ROW_1: seq<word> := [
    0x428a2f98, 0x71374491, 0xb5c0fbcf, 0xe9b5dba5, 0x3956c25b, 0x59f111f1, 0x923f82a4, 0xab1c5ed5]

  const ROW_2: seq<word> := [
    0xd807aa98, 0x12835b01, 0x243185be, 0x550c7dc3, 0x72be5d74, 0x80deb1fe, 0x9bdc06a7, 0xc19bf174]

  const ROW_3: seq<word> := [
    0xe49b69c1, 0xefbe4786, 0x0fc19dc6, 0x240ca1cc, 0x2de92c6f, 0x4a7484aa, 0x5cb0a9dc, 0x76f988da]

  const ROW_4: seq<word> := [
    0x983e5152, 0xa831c66d, 0xb00327c8, 0xbf597fc7, 0xc6e00bf3, 0xd5a79147, 0x06ca6351, 0x14292967]

  const ROW_5: seq<word> := [
    0x27b70a85, 0x2e1b2138, 0x4d2c6dfc, 0x53380d13, 0x650a7354, 0x766a0abb, 0x81c2c92e, 0x92722c85]

  const ROW_6: seq<word> := [
    0xa2bfe8a1, 0xa81a664b, 0xc24b8b70, 0xc76c51a3, 0xd192e819, 0xd6990624, 0xf40e3585, 0x106aa070]

  const ROW_7: seq<word> := [
    0x19a4c116, 0x1e376c08, 0x2748774c, 0x34b0bcb5, 0x391c0cb3, 0x4ed8aa4a, 0x5b9cca4f, 0x682e6ff3]

  const ROW_8: seq<word> := [
    0x748f82ee, 0x78a5636f, 0x84c87814, 0x8cc70208, 0x90befffa, 0xa4506ceb, 0xbef9a3f7, 0xc67178f2]

  // The word operations of section 3.2, named so that proofs can treat them as opaque.

  function Sum(x: word, y: word): word { x + y }

  function Sum4(a: word, b: word, c: word, d: word): word { a + b + c + d }

  function Sum5(a: word, b: word, c: word, d: word, e: word): word { a + b + c + d + e }

  function Xor(x: word, y: word): word { x ^ y }

  function Xor3(x: word, y: word, z: word): word { Xor(Xor(x, y), z) }

  function Shr(x: word, n: nat): word
    requires n < 32
  {
    x >> n
  }

  function Rotr(x: word, n: nat): word
    requires n < 32
  {
    x.RotateRight(n)
  }

  function Ch(x: word, y: word, z: word): word { (x & y) ^ (!x & z) }

  function Maj(x: word, y: word, z: word): word { (x & y) ^ (x & z) ^ (y & z) }

  function BigSigma0(x: word): word { Xor3(Rotr(x, 2), Rotr(x, 13), Rotr(x, 22)) }

  function BigSigma1(x: word): word { Xor3(Rotr(x, 6), Rotr(x, 11), Rotr(x, 25)) }

  function SmallSigma0(x: word): word { Xor3(Rotr(x, 7), Rotr(x, 18), Shr(x, 3)) }

  function SmallSigma1(x: word): word { Xor3(Rotr(x, 17), Rotr(x, 19), Shr(x, 10)) }

  /** Four bytes of a block as a word, most significant byte first. */
  function WordAt(block: seq<byte>, i: nat): word
    requires i + 4 <= |block|
  {
    JoinBytes(block[i], block[i + 1], block[i + 2], block[i + 3])
  }

  function JoinBytes(b0: byte, b1: byte, b2: byte, b3: byte): word {
    ((b0 as word) << 24) | ((b1 as word) << 16) | ((b2 as word) << 8) | (b3 as word)
  }

  /** Word t of the message schedule. */
  function Schedule(block: seq<byte>, t: nat): word
    requires |block| == BLOCK_SIZE && t < 64
  {
    if t < 16 then WordAt(block, 4 * t)
    else
      Sum4(SmallSigma1(Schedule(block, t - 2)), Schedule(block, t - 7),
           SmallSigma0(Schedule(block, t - 15)), Schedule(block, t - 16))
  }

  function Round(r: Regs, k: word, w: word): Regs {
    var t1 := T1(r, k, w);
    Regs(Sum(t1, T2(r)), r.a, r.b, r.c, Sum(r.d, t1), r.e, r.f, r.g)
  }

  function T1(r: Regs, k: word, w: word): word {
    Sum5(r.h, BigSigma1(r.e), Ch(r.e, r.f, r.g), k, w)
  }

  function T2(r: Regs): word {
    Sum(BigSigma0(r.a), Maj(r.a, r.b, r.c))
  }

  /** The working variables after t rounds. */
  function Rounds(r: Regs, constants: seq<word>, block: seq<byte>, t: nat): Regs
    requires |block| == BLOCK_SIZE && |constants| == 64 && t <= 64
  {
    if t == 0 then r else Round(Rounds(r, constants, block, t - 1), constants[t - 1], Schedule(block, t - 1))
  }

  function AddRegs(x: Regs, y: Regs): Regs {
    Regs(Sum(x.a, y.a), Sum(x.b, y.b), Sum(x.c, y.c), Sum(x.d, y.d), Sum(x.e, y.e), Sum(x.f, y.f), Sum(x.g, y.g),
        Sum(x.h, y.h))
  }

  function Compress(h: Regs, block: seq<byte>): Regs
    requires |block| == BLOCK_SIZE
  {
    AddRegs(h, Rounds(h, ROUND_CONSTANTS, block, 64))
  }

  /** The hash value after the first n blocks of m. */
  function CompressBlocks(h: Regs, m: seq<byte>, n: nat): Regs
    requires BLOCK_SIZE * n <= |m|
  {
    if n == 0 then h
    else Compress(CompressBlocks(h, m, n - 1), m[BLOCK_SIZE * (n - 1)..BLOCK_SIZE * n])
  }

  function ByteOf(n: nat): byte {
    (n % 256) as byte
  }

  /** The eight bytes of a number below 2^64, most significant first. */
  function BigEndian64(n: nat): (s: seq<byte>)
    ensures |s| == 8
  {
    [ByteOf(n / 0x100_0000_0000_0000), ByteOf(n / 0x1_0000_0000_0000), ByteOf(n / 0x100_0000_0000),
        ByteOf(n / 0x1_0000_0000),
     ByteOf(n / 0x100_0000), ByteOf(n / 0x1_0000), ByteOf(n / 0x100), ByteOf(n)]
  }

  /** How many blocks a padded message of l bytes has. */
  function PaddedBlocks(l: nat): (n: nat)
    ensures l + 9 <= BLOCK_SIZE * n < l + 9 + BLOCK_SIZE
  {
    (l + 8) / BLOCK_SIZE + 1
  }

  function Zeros(n: nat): (s: seq<byte>)
    ensures |s| == n && forall i | 0 <= i < n :: s[i] == 0
  {
    seq(n, _ => 0)
  }

  /** A one bit, the smallest number of zero bits that fills the last block, and the length. */
  function Padding(l: nat): (s: seq<byte>)
    ensures l + |s| == BLOCK_SIZE * PaddedBlocks(l)
  {
    [0x80] + Zeros(BLOCK_SIZE * PaddedBlocks(l) - l - 9) + BigEndian64(8 * l)
  }

  function Pad(m: seq<byte>): (s: seq<byte>)
    ensures |s| == BLOCK_SIZE * PaddedBlocks(|m|)
  {
    m + Padding(|m|)
  }

  function WordBytes(w: word): (s: seq<byte>)
    ensures |s| == 4
  {
    [((w >> 24) & 0xff) as byte, ((w >> 16) & 0xff) as byte, ((w >> 8) & 0xff) as byte, (w & 0xff) as byte]
  }

  function WordsBytes(ws: seq<word>): (s: seq<byte>)
    ensures |s| == 4 * |ws|
  {
    if ws == [] then [] else WordsBytes(ws[..|ws| - 1]) + WordBytes(ws[|ws| - 1])
  }

  function RegsBytes(r: Regs): (s: seq<byte>)
    ensures |s| == DIGEST_LENGTH
  {
    WordsBytes([r.a, r.b, r.c, r.d, r.e, r.f, r.g, r.h])
  }

  /** The SHA-256 digest of a message. */
  function Sha256(m: seq<byte>): (s: seq<byte>)
    ensures |s| == DIGEST_LENGTH
  {
    RegsBytes(CompressBlocks(INITIAL_HASH, Pad(m), PaddedBlocks(|m|)))
  }

  /** The hash value of the first n blocks depends on no byte beyond them. */
  lemma {:induction false} CompressPrefix(h: Regs, a: seq<byte>, b: seq<byte>, n: nat)
    requires BLOCK_SIZE * n <= |a|
    ensures CompressBlocks(h, a + b, n) == CompressBlocks(h, a, n)
  {
    hide Compress;
    if n > 0 {
      CompressPrefix(h, a, b, n - 1);
      assert (a + b)[BLOCK_SIZE * (n - 1)..BLOCK_SIZE * n] == a[BLOCK_SIZE * (n - 1)..BLOCK_SIZE * n];
    }
  }

  /** Hashing can stop and go on at any block boundary. */
  lemma {:induction false} CompressConcat(h: Regs, a: seq<byte>, b: seq<byte>, i: nat, n: nat)
    requires |a| == BLOCK_SIZE * i && BLOCK_SIZE * n <= |b|
    ensures CompressBlocks(h, a + b, i + n) == CompressBlocks(CompressBlocks(h, a, i), b, n)
  {
    hide Compress;
    if n == 0 {
      CompressPrefix(h, a, b, i);
    } else {
      CompressConcat(h, a, b, i, n - 1);
      assert (a + b)[BLOCK_SIZE * (i + n - 1)..BLOCK_SIZE * (i + n)] == b[BLOCK_SIZE * (n - 1)..BLOCK_SIZE * n];
    }
  }
}

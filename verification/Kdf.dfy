// The key derivation function (src/crypto/primitives/kdf.ts): extract with HMAC-SHA512, expand
// with HMAC-SHA256, as in sections 2.2 and 2.3 of RFC 5869.  SHA-512 is a parameter.
module Kdf {
  import opened Sha256Spec
  import opened Hmac

  const SHA512_BLOCK_SIZE := 128

  function HmacSha256Of(key: seq<byte>, message: seq<byte>): (mac: seq<byte>)
    ensures |mac| == DIGEST_LENGTH
  {
    HmacOf(Sha256, BLOCK_SIZE, key, message)
  }

  /** T(i) = HMAC(PRK, T(i - 1) | info | i), with T(0) empty and the counter in one byte. */
  function T(prk: seq<byte>, info: seq<byte>, i: nat): (t: seq<byte>)
    ensures |t| == if i == 0 then 0 else DIGEST_LENGTH
  {
    if i == 0 then [] else HmacSha256Of(prk, T(prk, info, i - 1) + info + [ByteOf(i)])
  }

  /** T(1) | ... | T(n) */
  function Okm(prk: seq<byte>, info: seq<byte>, n: nat): (okm: seq<byte>)
    ensures |okm| == DIGEST_LENGTH * n
  {
    if n == 0 then [] else Okm(prk, info, n - 1) + T(prk, info, n)
  }

  /** How many blocks an output of the given length takes. */
  function BlocksFor(outputLength: nat): (n: nat)
    ensures DIGEST_LENGTH * n >= outputLength
    ensures n > 0 ==> DIGEST_LENGTH * (n - 1) < outputLength
  {
    (outputLength + DIGEST_LENGTH - 1) / DIGEST_LENGTH
  }

  function KdfOf(sha512: Digest, outputLength: nat, ikm: seq<byte>, salt: seq<byte>, info: seq<byte>): (out: seq<byte>)
    ensures |out| == outputLength
  {
    var prk := HmacOf(sha512, SHA512_BLOCK_SIZE, salt, ikm);
    Okm(prk, info, BlocksFor(outputLength))[..outputLength]
  }

  method DeriveKey(sha512: Digest, outputLength: nat, ikm: seq<byte>, salt: seq<byte>, info: seq<byte>)
    returns (out: seq<byte>)
    ensures out == KdfOf(sha512, outputLength, ikm, salt, info)
  {
    hide HmacOf, Sha256, T, Okm;
    var prk := HmacGeneric(sha512, SHA512_BLOCK_SIZE, salt, ikm);
    var n := BlocksFor(outputLength);
    var output := new byte[n * DIGEST_LENGTH];
    OkmStart(prk, info);
    for i := 0 to n
      invariant output[..DIGEST_LENGTH * i] == Okm(prk, info, i)
      invariant i > 0 ==> output[DIGEST_LENGTH * (i - 1)..DIGEST_LENGTH * i] == T(prk, info, i)
    {
      var buf: seq<byte>;
      if i == 0 {
        buf := info + [ByteOf(i + 1)];
        assert buf == T(prk, info, 0) + info + [ByteOf(i + 1)];
      } else {
        buf := output[DIGEST_LENGTH * (i - 1)..DIGEST_LENGTH * i] + info + [ByteOf(i + 1)];
      }
      var chunk := HmacGeneric(Sha256, BLOCK_SIZE, prk, buf);
      OkmStep(prk, info, i);
      SetAt(output, DIGEST_LENGTH * i, chunk);
      assert output[..DIGEST_LENGTH * (i + 1)] == output[..DIGEST_LENGTH * i] + chunk;
    }
    assert output[..] == output[..DIGEST_LENGTH * n];
    out := output[..outputLength];
  }

  lemma OkmStart(prk: seq<byte>, info: seq<byte>)
    ensures Okm(prk, info, 0) == [] && T(prk, info, 0) == []
  {
  }

  lemma OkmStep(prk: seq<byte>, info: seq<byte>, i: nat)
    ensures T(prk, info, i + 1) == HmacOf(Sha256, BLOCK_SIZE, prk, T(prk, info, i) + info + [ByteOf(i + 1)])
    ensures Okm(prk, info, i + 1) == Okm(prk, info, i) + T(prk, info, i + 1)
  {
    hide HmacOf;
  }

  /** output.set(chunk, pos) */
  method SetAt(output: array<byte>, pos: nat, chunk: seq<byte>)
    requires pos + |chunk| <= output.Length
    modifies output
    ensures output[..pos] == old(output[..pos])
    ensures output[pos..pos + |chunk|] == chunk
  {
    forall j | 0 <= j < |chunk| {
      output[pos + j] := chunk[j];
    }
  }

  lemma {:induction false} OkmPrefix(prk: seq<byte>, info: seq<byte>, m: nat, n: nat)
    requires m <= n
    ensures Okm(prk, info, m) == Okm(prk, info, n)[..DIGEST_LENGTH * m]
  {
    hide T;
    if m < n {
      OkmPrefix(prk, info, m, n - 1);
      assert Okm(prk, info, n)[..DIGEST_LENGTH * m] == Okm(prk, info, n - 1)[..DIGEST_LENGTH * m];
    }
  }

  /** A shorter output is a prefix of a longer one. */
  lemma KdfPrefix(sha512: Digest, short: nat, long: nat, ikm: seq<byte>, salt: seq<byte>, info: seq<byte>)
    requires short <= long
    ensures KdfOf(sha512, short, ikm, salt, info) == KdfOf(sha512, long, ikm, salt, info)[..short]
  {
    hide HmacOf, Okm;
    var prk := HmacOf(sha512, SHA512_BLOCK_SIZE, salt, ikm);
    assert BlocksFor(short) <= BlocksFor(long);
    OkmPrefix(prk, info, BlocksFor(short), BlocksFor(long));
  }
}

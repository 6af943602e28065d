// HMAC (RFC 2104 section 2): the generic hmac of src/crypto/primitives/kdf.ts and the stateful
// HMAC object of src/crypto/primitives/sha256.ts.
module Hmac {
  import opened Wrappers
  import opened Sha256Spec
  import opened Sha256Stream

  type Digest = seq<byte> -> seq<byte>

  const IPAD: byte := 0x36
  const OPAD: byte := 0x5c

  function XorAll(s: seq<byte>, x: byte): (r: seq<byte>)
    ensures |r| == |s| && forall i | 0 <= i < |s| :: r[i] == s[i] ^ x
  {
    seq(|s|, i requires 0 <= i < |s| => s[i] ^ x)
  }

  /** The key, hashed if it is longer than a block, with zeros up to the block size. */
  function BlockKey(digest: Digest, blockSize: nat, key: seq<byte>): (k: seq<byte>)
    ensures |k| == blockSize
  {
    var k := if |key| > blockSize then digest(key) else key;
    if |k| < blockSize then k + Zeros(blockSize - |k|) else k[..blockSize]
  }

  /** H(K XOR opad, H(K XOR ipad, text)) */
  function HmacOf(digest: Digest, blockSize: nat, key: seq<byte>, message: seq<byte>): seq<byte> {
    var k := BlockKey(digest, blockSize, key);
    digest(XorAll(k, OPAD) + digest(XorAll(k, IPAD) + message))
  }

  /** The generic hmac: pads the key, masks it twice in one loop, hashes twice. */
  method HmacGeneric(digest: Digest, blockSize: nat, key: seq<byte>, message: seq<byte>) returns (mac: seq<byte>)
    ensures mac == HmacOf(digest, blockSize, key, message)
  {
    var k := key;
    if |k| > blockSize {
      k := digest(k);
    }
    if |k| < blockSize {
      k := k + Zeros(blockSize - |k|);
    }
    var okp := new byte[blockSize];
    var ikp := new byte[blockSize];
    for i := 0 to blockSize
      invariant forall j | 0 <= j < i :: ikp[j] == k[j] ^ IPAD && okp[j] == k[j] ^ OPAD
    {
      ikp[i] := k[i] ^ IPAD;
      okp[i] := k[i] ^ OPAD;
    }
    assert ikp[..] == XorAll(BlockKey(digest, blockSize, key), IPAD);
    assert okp[..] == XorAll(BlockKey(digest, blockSize, key), OPAD);
    var h0 := digest(ikp[..] + message);
    mac := digest(okp[..] + h0);
  }

  lemma XorTwice(s: seq<byte>)
    ensures XorAll(XorAll(s, IPAD), IPAD ^ OPAD) == XorAll(s, OPAD)
  {
    forall i | 0 <= i < |s| ensures (s[i] ^ IPAD) ^ (IPAD ^ OPAD) == s[i] ^ OPAD {
      XorCancels(s[i]);
    }
  }

  lemma XorCancels(b: byte)
    ensures (b ^ IPAD) ^ (IPAD ^ OPAD) == b ^ OPAD
  {
  }

  method XorInPlace(pad: array<byte>, x: byte)
    modifies pad
    ensures pad[..] == XorAll(old(pad[..]), x)
  {
    for i := 0 to pad.Length
      invariant forall j | 0 <= j < i :: pad[j] == old(pad[j]) ^ x
      invariant forall j | i <= j < pad.Length :: pad[j] == old(pad[j])
    {
      pad[i] := pad[i] ^ x;
    }
  }

  /** The key copied or hashed into a block of zeros. */
  method PadKey(key: seq<byte>) returns (pad: array<byte>)
    requires |key| < MAX_MESSAGE_LENGTH
    ensures fresh(pad) && pad[..] == BlockKey(Sha256, BLOCK_SIZE, key)
  {
    hide CompressBlocks, RegsBytes, Absorbed, Pad;
    pad := new byte[BLOCK_SIZE](_ => 0);
    if |key| > BLOCK_SIZE {
      var h := new HashSha256();
      assert [] + key[..|key|] == key;
      var _ := h.Update(key, |key|);
      h.Finish(pad);
      assert pad[DIGEST_LENGTH..] == Zeros(BLOCK_SIZE - DIGEST_LENGTH);
      assert pad[..] == pad[..DIGEST_LENGTH] + pad[DIGEST_LENGTH..];
      h.Clean();
    } else {
      for i := 0 to |key|
        invariant pad[..i] == key[..i]
        invariant forall j | i <= j < BLOCK_SIZE :: pad[j] == 0
      {
        pad[i] := key[i];
      }
      assert pad[|key|..] == Zeros(BLOCK_SIZE - |key|);
      assert pad[..] == pad[..|key|] + pad[|key|..];
    }
  }

  /** Feeds one block to a new hash object and saves the state after it. */
  method KeyHash(h: HashSha256, block: seq<byte>, saved: array<word>)
    requires h.Valid() && !h.finished && h.message == [] && |block| == BLOCK_SIZE
    requires saved.Length == 8 && saved != h.state && saved != h.temp
    modifies h, h.state, h.temp, h.buffer, saved
    ensures h.Valid() && !h.finished && h.message == block
    ensures StateOf(saved) == CompressBlocks(INITIAL_HASH, block, 1)
  {
    hide CompressBlocks, Absorbed, Pad;
    assert [] + block[..BLOCK_SIZE] == block;
    var _ := h.Update(block, BLOCK_SIZE);
    h.OneBlockState();
    h.SaveState(saved);
  }

  class HMAC {
    const inner: HashSha256
    const outer: HashSha256
    const istate: array<word>
    const ostate: array<word>

    /** The padded key, and the message so far. */
    ghost var key: seq<byte>
    ghost var text: seq<byte>

    /** All arrays are different objects. */
    ghost predicate Separate() {
      && inner != outer
      && istate.Length == 8 && ostate.Length == 8
      && inner.buffer != outer.buffer
      && inner.state != outer.state && inner.state != outer.temp && inner.temp != outer.state
            && inner.temp != outer.temp
      && istate != inner.state && istate != inner.temp && istate != outer.state && istate != outer.temp
      && ostate != inner.state && ostate != inner.temp && ostate != outer.state && ostate != outer.temp
      && istate != ostate
    }

    ghost predicate Keyed()
      reads `key, istate, ostate
    {
      && istate.Length == 8 && ostate.Length == 8 && |key| == BLOCK_SIZE
      && StateOf(istate) == CompressBlocks(INITIAL_HASH, XorAll(key, IPAD), 1)
      && StateOf(ostate) == CompressBlocks(INITIAL_HASH, XorAll(key, OPAD), 1)
    }

    ghost predicate Valid()
      reads this, inner, inner.state, inner.temp, inner.buffer
      reads outer, outer.state, outer.temp, outer.buffer, istate, ostate
    {
      && Separate() && |key| == BLOCK_SIZE && Keyed() && inner.Valid() && outer.Valid()
      && |text| + BLOCK_SIZE < MAX_MESSAGE_LENGTH
      && inner.message == XorAll(key, IPAD) + text
      && inner.finished == outer.finished
      && outer.message == XorAll(key, OPAD) + if outer.finished then Sha256(inner.message) else []
    }

    constructor (k: seq<byte>)
      requires |k| < MAX_MESSAGE_LENGTH
      ensures Valid() && key == BlockKey(Sha256, BLOCK_SIZE, k) && text == [] && !outer.finished
      ensures fresh(inner) && fresh(inner.state) && fresh(inner.temp) && fresh(inner.buffer)
      ensures fresh(outer) && fresh(outer.state) && fresh(outer.temp) && fresh(outer.buffer)
      ensures fresh(istate) && fresh(ostate)
    {
      inner := new HashSha256();
      outer := new HashSha256();
      istate := new word[8];
      ostate := new word[8];
      new;
      hide HashSha256.Valid, Sha256, BlockKey;
      SetKey(k);
    }

    /** Masks the key with both pads and saves the states after hashing each. */
    method SetKey(k: seq<byte>)
      requires Separate() && |k| < MAX_MESSAGE_LENGTH
      requires inner.Valid() && !inner.finished && inner.message == []
      requires outer.Valid() && !outer.finished && outer.message == []
      modifies this, inner, inner.state, inner.temp, inner.buffer
      modifies outer, outer.state, outer.temp, outer.buffer, istate, ostate
      ensures Valid() && key == BlockKey(Sha256, BLOCK_SIZE, k) && text == [] && !outer.finished
    {
      hide HashSha256.Valid, Sha256, CompressBlocks, BlockKey;
      var pad := PadKey(k);
      key := pad[..];
      text := [];
      XorInPlace(pad, IPAD);
      KeyHash(inner, pad[..], istate);
      XorInPlace(pad, IPAD ^ OPAD);
      XorTwice(key);
      KeyHash(outer, pad[..], ostate);
      assert inner.message == XorAll(key, IPAD) + [] && outer.message == XorAll(key, OPAD) + [];
      ZeroBytes(pad);
    }

    /** Back to the state right after keying. */
    method Reset()
      requires Valid()
      modifies this, inner, inner.state, inner.temp, inner.buffer
      modifies outer, outer.state, outer.temp, outer.buffer, istate, ostate
      ensures Valid() && key == old(key) && text == [] && !outer.finished
    {
      hide HashSha256.Valid, HashSha256.Shape, Sha256, CompressBlocks;
      inner.RestoreState(istate, BLOCK_SIZE, XorAll(key, IPAD));
      outer.RestoreState(ostate, BLOCK_SIZE, XorAll(key, OPAD));
      text := [];
    }

    method Update(data: seq<byte>) returns (r: Result<(), HashError>)
      requires Valid() && |text| + |data| + BLOCK_SIZE < MAX_MESSAGE_LENGTH
      modifies this, inner, inner.state, inner.temp, inner.buffer
      modifies outer, outer.state, outer.temp, outer.buffer, istate, ostate
      ensures Valid() && key == old(key) && outer.finished == old(outer.finished)
      ensures r.Failure? <==> outer.finished
      ensures text == if outer.finished then old(text) else old(text) + data
    {
      hide HashSha256.Valid, HashSha256.Shape, Sha256, HMAC.Keyed;
      assert data[..|data|] == data;
      r := inner.Update(data, |data|);
      if r.Success? {
        text := text + data;
        assert inner.message == XorAll(key, IPAD) + text;
      }
    }

    /** Writes the code of the text into out; doing so again writes the same code. */
    method Finish(out: array<byte>)
      requires Valid() && out.Length >= DIGEST_LENGTH && out != inner.buffer && out != outer.buffer
      modifies this, inner, inner.state, inner.temp, inner.buffer
      modifies outer, outer.state, outer.temp, outer.buffer, istate, ostate, out
      ensures Valid() && outer.finished && key == old(key) && text == old(text)
      ensures out[..DIGEST_LENGTH] == Sha256(XorAll(key, OPAD) + Sha256(XorAll(key, IPAD) + text))
      ensures out[DIGEST_LENGTH..] == old(out[DIGEST_LENGTH..])
    {
      hide HashSha256.Valid, HashSha256.Shape, Sha256, HMAC.Keyed;
      if outer.finished {
        outer.Finish(out);
      } else {
        inner.Finish(out);
        var _ := outer.Update(out[..], DIGEST_LENGTH);
        assert out[..][..DIGEST_LENGTH] == out[..DIGEST_LENGTH];
        outer.Finish(out);
      }
    }
  }

  /** hmacSha256 by way of the stateful object. */
  method HmacSha256(key: seq<byte>, data: seq<byte>) returns (mac: seq<byte>)
    requires |key| < MAX_MESSAGE_LENGTH && |data| + BLOCK_SIZE < MAX_MESSAGE_LENGTH
    ensures mac == HmacOf(Sha256, BLOCK_SIZE, key, data)
  {
    hide HMAC.Valid, Sha256, BlockKey;
    var h := new HMAC(key);
    var _ := h.Update(data);
    assert [] + data == data;
    var out := new byte[DIGEST_LENGTH];
    h.Finish(out);
    assert out[..] == out[..DIGEST_LENGTH];
    mac := out[..];
  }

  /** One object, keyed once and reset in between, authenticates message after message; each code
      may be asked for twice. */
  method HmacOfEach(key: seq<byte>, messages: seq<seq<byte>>) returns (macs: seq<seq<byte>>)
    requires |key| < MAX_MESSAGE_LENGTH && forall m | m in messages :: |m| + BLOCK_SIZE < MAX_MESSAGE_LENGTH
    ensures |macs| == |messages|
    ensures forall i | 0 <= i < |messages| :: macs[i] == HmacOf(Sha256, BLOCK_SIZE, key, messages[i])
  {
    hide HMAC.Valid, Sha256, BlockKey;
    var h := new HMAC(key);
    var out := new byte[DIGEST_LENGTH];
    macs := [];
    for i := 0 to |messages|
      invariant h.Valid() && h.key == BlockKey(Sha256, BLOCK_SIZE, key)
      invariant |macs| == i && forall j | 0 <= j < i :: macs[j] == HmacOf(Sha256, BLOCK_SIZE, key, messages[j])
    {
      h.Reset();
      var _ := h.Update(messages[i]);
      assert [] + messages[i] == messages[i];
      h.Finish(out);
      h.Finish(out);
      assert out[..] == out[..DIGEST_LENGTH];
      macs := macs + [out[..]];
    }
  }
}

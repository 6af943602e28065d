// The streaming SHA-256 object (src/crypto/primitives/sha256.ts, hashBlocks and HashSha256).
module Sha256Stream {
  import opened Wrappers
  import opened Division
  import opened Sha256Spec

  // ----- The word functions as the code spells them -----

  /** (x >>> n) | (x << (32 - n)) */
  function Shifts(x: word, n: nat): word
    requires 0 < n < 32
  {
    (x >> n) | (x << (32 - n))
  }

  lemma ShiftsRotate(x: word)
    ensures Shifts(x, 2) == Rotr(x, 2) && Shifts(x, 13) == Rotr(x, 13) && Shifts(x, 22) == Rotr(x, 22)
    ensures Shifts(x, 6) == Rotr(x, 6) && Shifts(x, 11) == Rotr(x, 11) && Shifts(x, 25) == Rotr(x, 25)
    ensures Shifts(x, 7) == Rotr(x, 7) && Shifts(x, 18) == Rotr(x, 18)
    ensures Shifts(x, 17) == Rotr(x, 17) && Shifts(x, 19) == Rotr(x, 19)
  {
  }

  // The code adds in another order, which does not matter modulo 2^32.

  method Sum4InCode(a: word, b: word, c: word, d: word) returns (r: word)
    ensures r == Sum4(a, b, c, d)
  {
    r := (a + b) + (c + d);
  }

  method Sum5InCode(sigma: word, ch: word, h: word, k: word, w: word) returns (r: word)
    ensures r == Sum5(h, sigma, ch, k, w)
  {
    r := (sigma + ch) + (h + (k + w));
  }

  function StateOf(v: array<word>): Regs
    requires v.Length == 8
    reads v
  {
    Regs(v[0], v[1], v[2], v[3], v[4], v[5], v[6], v[7])
  }

  // ----- hashBlocks -----

  /** The two loops that expand a block into 64 words. */
  method ExpandBlock(w: array<word>, p: seq<byte>, pos: nat)
    requires w.Length == 64 && pos + BLOCK_SIZE <= |p|
    modifies w
    ensures forall t | 0 <= t < 64 :: w[t] == Schedule(p[pos..pos + BLOCK_SIZE], t)
  {
    hide Sum4, SmallSigma0, SmallSigma1, JoinBytes;
    ghost var block := p[pos..pos + BLOCK_SIZE];
    var i := 0;
    while i < 16
      invariant 0 <= i <= 16
      invariant forall t | 0 <= t < i :: w[t] == Schedule(block, t)
    {
      var j := pos + i * 4;
      assert p[j] == block[4 * i] && p[j + 1] == block[4 * i + 1] && p[j + 2] == block[4 * i + 2]
               && p[j + 3] == block[4 * i + 3];
      w[i] := JoinBytes(p[j], p[j + 1], p[j + 2], p[j + 3]);
      i := i + 1;
    }
    while i < 64
      invariant 16 <= i <= 64
      invariant forall t | 0 <= t < i :: w[t] == Schedule(block, t)
    {
      var next := NextWord(w[i - 2], w[i - 7], w[i - 15], w[i - 16]);
      w[i] := next;
      i := i + 1;
    }
  }

  method NextWord(w2: word, w7: word, w15: word, w16: word) returns (r: word)
    ensures r == Sum4(SmallSigma1(w2), w7, SmallSigma0(w15), w16)
  {
    hide Sum4, Xor3, Shifts, Rotr, Shr;
    ShiftsRotate(w2);
    ShiftsRotate(w15);
    var t1 := Xor3(Shifts(w2, 17), Shifts(w2, 19), Shr(w2, 10));
    var t2 := Xor3(Shifts(w15, 7), Shifts(w15, 18), Shr(w15, 3));
    r := Sum4InCode(t1, w7, t2, w16);
  }

  /** The loop over the 64 rounds. */
  method RunRounds(w: array<word>, ghost block: seq<byte>, init: Regs) returns (r: Regs)
    requires w.Length == 64 && |block| == BLOCK_SIZE
    requires forall t | 0 <= t < 64 :: w[t] == Schedule(block, t)
    ensures r == Rounds(init, ROUND_CONSTANTS, block, 64)
  {
    r := RunRoundsWith(ROUND_CONSTANTS, w, block, init);
  }

  method RunRoundsWith(constants: seq<word>, w: array<word>, ghost block: seq<byte>, init: Regs) returns (r: Regs)
    requires w.Length == 64 && |block| == BLOCK_SIZE && |constants| == 64
    requires forall t | 0 <= t < 64 :: w[t] == Schedule(block, t)
    ensures r == Rounds(init, constants, block, 64)
  {
    hide Round, Schedule;
    r := init;
    for i := 0 to 64
      invariant r == Rounds(init, constants, block, i)
    {
      r := OneRound(r, constants[i], w[i]);
    }
  }

  /** The body of the round loop. */
  method OneRound(r: Regs, k: word, w: word) returns (r': Regs)
    ensures r' == Round(r, k, w)
  {
    hide T1, T2, Sum;
    var Regs(a, b, c, d, e, f, g, h) := r;
    var t1 := TemporaryOne(r, k, w);
    var t2 := TemporaryTwo(r);
    h := g;
    g := f;
    f := e;
    e := Sum(d, t1);
    d := c;
    c := b;
    b := a;
    a := Sum(t1, t2);
    r' := Regs(a, b, c, d, e, f, g, h);
  }

  method TemporaryOne(r: Regs, k: word, w: word) returns (t1: word)
    ensures t1 == T1(r, k, w)
  {
    hide Sum5, Xor3, Shifts, Rotr, Ch;
    ShiftsRotate(r.e);
    var sigma := Xor3(Shifts(r.e, 6), Shifts(r.e, 11), Shifts(r.e, 25));
    var ch := ChInCode(r.e, r.f, r.g);
    t1 := Sum5InCode(sigma, ch, r.h, k, w);
  }

  method TemporaryTwo(r: Regs) returns (t2: word)
    ensures t2 == T2(r)
  {
    hide Sum, Xor3, Shifts, Rotr, Maj;
    ShiftsRotate(r.a);
    var maj := MajInCode(r.a, r.b, r.c);
    t2 := Sum(Xor3(Shifts(r.a, 2), Shifts(r.a, 13), Shifts(r.a, 22)), maj);
  }

  method ChInCode(e: word, f: word, g: word) returns (r: word)
    ensures r == Ch(e, f, g)
  {
    r := (e & f) ^ (!e & g);
  }

  method MajInCode(a: word, b: word, c: word) returns (r: word)
    ensures r == Maj(a, b, c)
  {
    r := (a & b) ^ (a & c) ^ (b & c);
  }

  method AddTo(v: array<word>, r: Regs)
    requires v.Length == 8
    modifies v
    ensures StateOf(v) == AddRegs(old(StateOf(v)), r)
  {
    hide Sum;
    v[0] := Sum(v[0], r.a);
    v[1] := Sum(v[1], r.b);
    v[2] := Sum(v[2], r.c);
    v[3] := Sum(v[3], r.d);
    v[4] := Sum(v[4], r.e);
    v[5] := Sum(v[5], r.f);
    v[6] := Sum(v[6], r.g);
    v[7] := Sum(v[7], r.h);
  }

  /** Hashes the whole blocks of p[start..start + length] into v; w is scratch space. */
  method HashBlocks(w: array<word>, v: array<word>, p: seq<byte>, start: nat, length: nat) returns (pos: nat)
    requires w.Length == 64 && v.Length == 8 && w != v && start + length <= |p|
    modifies w, v
    ensures pos == start + BLOCK_SIZE * (length / BLOCK_SIZE)
    ensures StateOf(v) == CompressBlocks(old(StateOf(v)), p[start..], length / BLOCK_SIZE)
  {
    hide Compress;
    pos := start;
    var len := length;
    ghost var n := 0;
    while len >= BLOCK_SIZE
      invariant 0 <= len && pos == start + BLOCK_SIZE * n && len == length - BLOCK_SIZE * n
      invariant StateOf(v) == CompressBlocks(old(StateOf(v)), p[start..], n)
    {
      HashBlock(w, v, p, pos);
      assert p[pos..pos + BLOCK_SIZE] == p[start..][BLOCK_SIZE * n..BLOCK_SIZE * (n + 1)];
      pos := pos + BLOCK_SIZE;
      len := len - BLOCK_SIZE;
      n := n + 1;
    }
    assert n == length / BLOCK_SIZE;
  }

  method HashBlock(w: array<word>, v: array<word>, p: seq<byte>, pos: nat)
    requires w.Length == 64 && v.Length == 8 && w != v && pos + BLOCK_SIZE <= |p|
    modifies w, v
    ensures StateOf(v) == Compress(old(StateOf(v)), p[pos..pos + BLOCK_SIZE])
  {
    var init := StateOf(v);
    ExpandBlock(w, p, pos);
    var r := RunRounds(w, p[pos..pos + BLOCK_SIZE], init);
    AddTo(v, r);
  }

  // ----- Hashing a message piece by piece -----

  /** The first n blocks of m are hashed into st and the rest of m is in buf. */
  ghost predicate Absorbed(m: seq<byte>, n: nat, st: Regs, buf: seq<byte>) {
    && |m| == BLOCK_SIZE * n + |buf|
    && st == CompressBlocks(INITIAL_HASH, m, n)
    && buf == m[BLOCK_SIZE * n..]
  }

  lemma NothingAbsorbed()
    ensures Absorbed([], 0, INITIAL_HASH, [])
  {
  }

  lemma AbsorbByte(m: seq<byte>, n: nat, st: Regs, buf: seq<byte>, b: byte)
    requires Absorbed(m, n, st, buf)
    ensures Absorbed(m + [b], n, st, buf + [b])
  {
    hide CompressBlocks;
    CompressPrefix(INITIAL_HASH, m, [b], n);
    assert (m + [b])[BLOCK_SIZE * n..] == m[BLOCK_SIZE * n..] + [b];
  }

  lemma AbsorbBuffer(m: seq<byte>, n: nat, st: Regs, buf: seq<byte>)
    requires Absorbed(m, n, st, buf) && |buf| == BLOCK_SIZE
    ensures Absorbed(m, n + 1, CompressBlocks(st, buf, 1), [])
  {
    hide Compress;
    assert CompressBlocks(st, buf, 0) == st;
    assert buf[BLOCK_SIZE * 0..BLOCK_SIZE * 1] == m[BLOCK_SIZE * n..BLOCK_SIZE * (n + 1)];
  }

  lemma AbsorbBlocks(m: seq<byte>, n: nat, st: Regs, data: seq<byte>, pos: nat, k: nat)
    requires Absorbed(m, n, st, []) && pos + BLOCK_SIZE * k <= |data|
    ensures Absorbed(m + data[pos..pos + BLOCK_SIZE * k], n + k, CompressBlocks(st, data[pos..], k), [])
  {
    hide CompressBlocks;
    var part, rest := data[pos..pos + BLOCK_SIZE * k], data[pos + BLOCK_SIZE * k..];
    CompressConcat(INITIAL_HASH, m, part, n, k);
    CompressPrefix(st, part, rest, k);
    assert data[pos..] == part + rest;
    assert (m + part)[BLOCK_SIZE * (n + k)..] == [];
  }

  // ----- The streaming object -----

  datatype HashError = AlreadyFinished

  class HashSha256 {
    const state: array<word>
    const temp: array<word>
    const buffer: array<byte>
    var bufferLength: nat
    var bytesHashed: nat
    var finished: bool

    /** All bytes given to update since the last reset. */
    ghost var message: seq<byte>

    ghost predicate Shape()
      reads this
    {
      state.Length == 8 && temp.Length == 64 && buffer.Length == 128 && state != temp && bufferLength <= BLOCK_SIZE
    }

    ghost function Buffered(): seq<byte>
      requires Shape()
      reads this, buffer
    {
      buffer[..bufferLength]
    }

    ghost predicate Valid()
      reads this, state, buffer
      ensures Valid() ==> Shape()
    {
      && Shape()
      && |message| < MAX_MESSAGE_LENGTH
      && bytesHashed == |message|
      && (finished ==> StateOf(state) == CompressBlocks(INITIAL_HASH, Pad(message), PaddedBlocks(|message|)))
      && (!finished ==>
            && bufferLength == |message| % BLOCK_SIZE
            && Absorbed(message, |message| / BLOCK_SIZE, StateOf(state), Buffered()))
    }

    constructor ()
      ensures Valid() && !finished && message == []
      ensures fresh(state) && fresh(temp) && fresh(buffer)
    {
      state := new word[8];
      temp := new word[64];
      buffer := new byte[128];
      bufferLength := 0;
      new;
      Reset();
    }

    method Reset()
      requires Shape()
      modifies this, state
      ensures Valid() && !finished && message == []
    {
      hide Absorbed;
      SetInitialHash(state);
      bufferLength := 0;
      bytesHashed := 0;
      finished := false;
      message := [];
      NothingAbsorbed();
      assert Buffered() == [];
    }

    method Clean()
      requires Shape()
      modifies this, state, temp, buffer
      ensures Valid() && !finished && message == []
      ensures forall i | 0 <= i < 128 :: buffer[i] == 0
    {
      hide Absorbed, CompressBlocks;
      ZeroBytes(buffer);
      ZeroWords(temp);
      Reset();
    }

    /** Buffers one byte. */
    method Push(b: byte, ghost m: seq<byte>, ghost n: nat)
      requires Shape() && bufferLength < BLOCK_SIZE && Absorbed(m, n, StateOf(state), Buffered())
      modifies `bufferLength, buffer
      ensures Shape() && bufferLength == old(bufferLength) + 1
      ensures Absorbed(m + [b], n, StateOf(state), Buffered())
    {
      hide Absorbed;
      AbsorbByte(m, n, StateOf(state), Buffered(), b);
      buffer[bufferLength] := b;
      bufferLength := bufferLength + 1;
      assert Buffered() == old(Buffered()) + [b];
    }

    /** Hashes a full buffer. */
    method Flush(ghost m: seq<byte>, ghost n: nat)
      requires Shape() && bufferLength == BLOCK_SIZE && Absorbed(m, n, StateOf(state), Buffered())
      modifies `bufferLength, state, temp
      ensures Shape() && bufferLength == 0
      ensures Absorbed(m, n + 1, StateOf(state), Buffered())
    {
      hide Absorbed, CompressBlocks;
      var block := buffer[..];
      AbsorbBuffer(m, n, StateOf(state), Buffered());
      FirstBlock(StateOf(state), block);
      var _ := HashBlocks(temp, state, block, 0, BLOCK_SIZE);
      bufferLength := 0;
      assert Buffered() == [] && block[0..] == block && block[..BLOCK_SIZE] == old(Buffered());
    }

    /** Hashes the whole blocks of data[pos..pos + len] without buffering them. */
    method HashDirectly(data: seq<byte>, pos: nat, len: nat, ghost m: seq<byte>, ghost n: nat) returns (pos': nat)
      requires Shape() && bufferLength == 0 && Absorbed(m, n, StateOf(state), Buffered()) && pos + len <= |data|
      modifies state, temp
      ensures Shape()
      ensures pos' == pos + BLOCK_SIZE * (len / BLOCK_SIZE)
      ensures Absorbed(m + data[pos..pos'], n + len / BLOCK_SIZE, StateOf(state), Buffered())
    {
      hide Absorbed, CompressBlocks;
      assert Buffered() == [];
      AbsorbBlocks(m, n, StateOf(state), data, pos, len / BLOCK_SIZE);
      pos' := HashBlocks(temp, state, data, pos, len);
    }

    /** Appends the first dataLength bytes of data to the message. */
    method Update(data: seq<byte>, dataLength: nat) returns (r: Result<(), HashError>)
      requires Valid() && dataLength <= |data| && |message| + dataLength < MAX_MESSAGE_LENGTH
      modifies this, state, temp, buffer
      ensures Valid() && finished == old(finished)
      ensures old(finished) ==>
                r == Failure(AlreadyFinished) && message == old(message) && StateOf(state) == old(StateOf(state))
      ensures !old(finished) ==> r == Success(()) && message == old(message) + data[..dataLength]
    {
      hide Absorbed, CompressBlocks;
      if finished {
        return Failure(AlreadyFinished);
      }
      bytesHashed := bytesHashed + dataLength;
      ghost var n := AbsorbData(data, dataLength, message, |message| / BLOCK_SIZE);
      message := message + data[..dataLength];
      BlockCount(|message|, n, bufferLength);
      return Success(());
    }

    /** Completes the buffered block, hashes whole blocks directly, and buffers what is left. */
    method AbsorbData(data: seq<byte>, dataLength: nat, ghost before: seq<byte>, ghost n: nat) returns (ghost n': nat)
      requires Shape() && bufferLength < BLOCK_SIZE && dataLength <= |data|
      requires Absorbed(before, n, StateOf(state), Buffered())
      modifies `bufferLength, state, temp, buffer
      ensures Shape() && bufferLength < BLOCK_SIZE
      ensures Absorbed(before + data[..dataLength], n', StateOf(state), Buffered())
      ensures |before| + dataLength == BLOCK_SIZE * n' + bufferLength
    {
      hide CompressBlocks;
      n' := n;
      var dataPos := 0;
      assert before + data[..0] == before;
      if bufferLength > 0 {
        dataPos := FillBuffer(data, dataPos, dataLength, before, n');
        if bufferLength == BLOCK_SIZE {
          Flush(before + data[..dataPos], n');
          n' := n' + 1;
        }
      }
      if dataLength - dataPos >= BLOCK_SIZE {
        ghost var from := dataPos;
        dataPos := HashDirectly(data, dataPos, dataLength - dataPos, before + data[..dataPos], n');
        assert before + data[..dataPos] == before + data[..from] + data[from..dataPos];
        n' := n' + (dataLength - from) / BLOCK_SIZE;
      }
      dataPos := FillBuffer(data, dataPos, dataLength, before, n');
    }

    /** The byte by byte loop: buffers what fits of data[from..dataLength]. */
    method FillBuffer(data: seq<byte>, from: nat, dataLength: nat, ghost before: seq<byte>, ghost n: nat)
        returns (dataPos: nat)
      requires Shape() && from <= dataLength <= |data|
      requires Absorbed(before + data[..from], n, StateOf(state), Buffered())
      modifies `bufferLength, buffer
      ensures Shape() && from <= dataPos <= dataLength
      ensures bufferLength == old(bufferLength) + (dataPos - from)
      ensures bufferLength == BLOCK_SIZE || dataPos == dataLength
      ensures Absorbed(before + data[..dataPos], n, StateOf(state), Buffered())
    {
      hide Absorbed;
      dataPos := from;
      while bufferLength < BLOCK_SIZE && dataPos < dataLength
        invariant Shape() && from <= dataPos <= dataLength
        invariant bufferLength == old(bufferLength) + (dataPos - from)
        invariant Absorbed(before + data[..dataPos], n, StateOf(state), Buffered())
      {
        Push(data[dataPos], before + data[..dataPos], n);
        assert before + data[..dataPos + 1] == before + data[..dataPos] + [data[dataPos]];
        dataPos := dataPos + 1;
      }
    }

    /** Writes the digest of the message into out; doing so again writes the same digest. */
    method Finish(out: array<byte>)
      requires Valid() && out.Length >= DIGEST_LENGTH && out != buffer
      modifies this, state, temp, buffer, out
      ensures Valid() && finished && message == old(message)
      ensures out[..DIGEST_LENGTH] == Sha256(message)
      ensures out[DIGEST_LENGTH..] == old(out[DIGEST_LENGTH..])
    {
      hide CompressBlocks, RegsBytes;
      if !finished {
        HashPadding();
        finished := true;
      }
      WriteDigest(StateOf(state), out);
    }

    /** Pads the buffered rest of the message and hashes it. */
    method HashPadding()
      requires Valid() && !finished
      modifies state, temp, buffer
      ensures Shape()
      ensures StateOf(state) == CompressBlocks(INITIAL_HASH, Pad(message), PaddedBlocks(|message|))
    {
      hide CompressBlocks;
      ghost var n, st, rest := |message| / BLOCK_SIZE, StateOf(state), Buffered();
      var left := bufferLength;
      var padLength := if bytesHashed % BLOCK_SIZE < 56 then 64 else 128;
      WritePadding(left, bytesHashed, padLength);
      var block := buffer[..];
      PaddedRest(message, n, st, rest, block, padLength);
      var _ := HashBlocks(temp, state, block, 0, padLength);
      assert block[0..] == block;
    }

    method WritePadding(left: nat, length: nat, padLength: nat)
      requires Shape() && left < BLOCK_SIZE && left == length % BLOCK_SIZE && length < MAX_MESSAGE_LENGTH
      requires padLength == if left < 56 then 64 else 128
      modifies buffer
      ensures buffer[..padLength] == old(buffer[..left]) + Padding(length)
    {
      hide ByteOf;
      var bitLenHi := (length / 0x2000_0000) % 0x1_0000_0000;
      var bitLenLo := (length * 8) % 0x1_0000_0000;
      buffer[left] := 0x80;
      var i := left + 1;
      while i < padLength - 8
        invariant left < i <= padLength - 8
        invariant buffer[..left] == old(buffer[..left]) && buffer[left] == 0x80
        invariant forall j | left < j < i :: buffer[j] == 0
      {
        buffer[i] := 0;
        i := i + 1;
      }
      ghost var start := buffer[..padLength - 8];
      WriteLength(padLength, bitLenHi, bitLenLo);
      LengthBytes(length);
      assert buffer[..padLength - 8] == start;
      assert forall j | 0 <= j < padLength - 8 :: buffer[..padLength][j] == start[j];
      PaddingLayout(buffer[..padLength], old(buffer[..left]), left, length, padLength);
    }

    method WriteLength(padLength: nat, bitLenHi: nat, bitLenLo: nat)
      requires Shape() && 8 <= padLength <= 128
      modifies buffer
      ensures buffer[padLength - 8..padLength] == LengthInCode(bitLenHi, bitLenLo)
      ensures buffer[..padLength - 8] == old(buffer[..padLength - 8])
    {
      hide LengthInCode;
      var bytes := LengthInCode(bitLenHi, bitLenLo);
      forall j | 0 <= j < 8 {
        buffer[padLength - 8 + j] := bytes[j];
      }
    }

    /** Copies the hash state out; a later RestoreState continues from it. */
    method SaveState(out: array<word>)
      requires Shape() && out.Length == 8 && out != state
      modifies out
      ensures StateOf(out) == StateOf(state)
    {
      CopyWords(state, out);
    }

    /** Continues as if the message were m, whose blocks are hashed into `from`. */
    method RestoreState(from: array<word>, bytes: nat, ghost m: seq<byte>)
      requires Shape() && from.Length == 8 && from != state
      requires |m| == bytes == BLOCK_SIZE && StateOf(from) == CompressBlocks(INITIAL_HASH, m, 1)
      modifies this, state
      ensures Valid() && !finished && message == m
    {
      hide CompressBlocks;
      CopyWords(from, state);
      bytesHashed := bytes;
      finished := false;
      bufferLength := 0;
      message := m;
      assert Buffered() == m[BLOCK_SIZE..] == [];
    }

    /** After exactly one block nothing is buffered. */
    lemma OneBlockState()
      requires Valid() && !finished && |message| == BLOCK_SIZE
      ensures StateOf(state) == CompressBlocks(INITIAL_HASH, message, 1)
    {
    }

    method Digest() returns (out: array<byte>)
      requires Valid()
      modifies this, state, temp, buffer
      ensures Valid() && finished && message == old(message)
      ensures fresh(out) && out[..] == Sha256(message)
    {
      out := new byte[DIGEST_LENGTH];
      Finish(out);
    }
  }

  /** The length field as two 32-bit halves. */
  function LengthInCode(hi: nat, lo: nat): (s: seq<byte>)
    ensures |s| == 8
  {
    [ByteOf(hi / 0x100_0000), ByteOf(hi / 0x1_0000), ByteOf(hi / 0x100), ByteOf(hi),
     ByteOf(lo / 0x100_0000), ByteOf(lo / 0x1_0000), ByteOf(lo / 0x100), ByteOf(lo)]
  }

  lemma ByteOfMod(m: nat, n: nat)
    requires m % 256 == n % 256
    ensures ByteOf(m) == ByteOf(n)
  {
  }

  lemma LengthBytes(l: nat)
    requires l < MAX_MESSAGE_LENGTH
    ensures LengthInCode((l / 0x2000_0000) % 0x1_0000_0000, (l * 8) % 0x1_0000_0000) == BigEndian64(8 * l)
  {
    hide ByteOf;
    var hi, lo, n := (l / 0x2000_0000) % 0x1_0000_0000, (l * 8) % 0x1_0000_0000, 8 * l;
    assert hi == n / 0x1_0000_0000;
    assert hi / 0x100_0000 == n / 0x100_0000_0000_0000;
    assert hi / 0x1_0000 == n / 0x1_0000_0000_0000;
    assert hi / 0x100 == n / 0x100_0000_0000;
    LowByte0(n);
    LowByte1(n);
    LowByte2(n);
    LowByte3(n);
  }

  lemma ByteOfSum(k: nat, x: nat)
    ensures ByteOf(256 * k + x) == ByteOf(x)
  {
    hide ByteOf;
    ByteOfMod(256 * k + x, x);
  }

  lemma LowByte0(n: nat)
    ensures ByteOf((n % 0x1_0000_0000)) == ByteOf(n)
  {
    hide ByteOf;
    var q, lo := n / 0x1_0000_0000, n % 0x1_0000_0000;
    assert n == 256 * (q * 0x100_0000) + lo;
    ByteOfSum(q * 0x100_0000, lo);
  }

  lemma LowByte1(n: nat)
    ensures ByteOf((n % 0x1_0000_0000) / 0x100) == ByteOf(n / 0x100)
  {
    hide ByteOf;
    var q, lo := n / 0x1_0000_0000, n % 0x1_0000_0000;
    assert n == 256 * (q * 0x100_0000) + lo;
    QuotientOfSum(n, 0x100, q * 0x100_0000, lo);
    ByteOfSum(q * 0x1_0000, lo / 0x100);
  }

  lemma LowByte2(n: nat)
    ensures ByteOf((n % 0x1_0000_0000) / 0x1_0000) == ByteOf(n / 0x1_0000)
  {
    hide ByteOf;
    var q, lo := n / 0x1_0000_0000, n % 0x1_0000_0000;
    assert n == 256 * (q * 0x100_0000) + lo;
    QuotientOfSum(n, 0x1_0000, q * 0x1_0000, lo);
    ByteOfSum(q * 0x100, lo / 0x1_0000);
  }

  lemma LowByte3(n: nat)
    ensures ByteOf((n % 0x1_0000_0000) / 0x100_0000) == ByteOf(n / 0x100_0000)
  {
    hide ByteOf;
    var q, lo := n / 0x1_0000_0000, n % 0x1_0000_0000;
    assert n == 256 * (q * 0x100_0000) + lo;
    QuotientOfSum(n, 0x100_0000, q * 0x100, lo);
    ByteOfSum(q * 1, lo / 0x100_0000);
  }

  lemma PaddedLength(length: nat, left: nat, padLength: nat)
    requires left == length % BLOCK_SIZE && padLength == if left < 56 then 64 else 128
    ensures BLOCK_SIZE * PaddedBlocks(length) - length == padLength - left
  {
  }

  lemma PaddingLayout(buf: seq<byte>, rest: seq<byte>, left: nat, length: nat, padLength: nat)
    requires left < BLOCK_SIZE && left == length % BLOCK_SIZE && |rest| == left
    requires padLength == if left < 56 then 64 else 128
    requires |buf| == padLength && buf[..left] == rest && buf[left] == 0x80
    requires forall j | left < j < padLength - 8 :: buf[j] == 0
    requires buf[padLength - 8..] == BigEndian64(8 * length)
    ensures buf == rest + Padding(length)
  {
    PaddedLength(length, left, padLength);
    hide BigEndian64, PaddedBlocks;
    assert buf[left + 1..padLength - 8] == Zeros(BLOCK_SIZE * PaddedBlocks(length) - length - 9);
    assert buf == buf[..left] + [buf[left]] + buf[left + 1..padLength - 8] + buf[padLength - 8..];
  }

  lemma PaddedRest(m: seq<byte>, n: nat, st: Regs, rest: seq<byte>, block: seq<byte>, padLength: nat)
    requires Absorbed(m, n, st, rest) && |rest| < BLOCK_SIZE
    requires padLength == (if |m| % BLOCK_SIZE < 56 then 64 else 128) <= |block|
    requires block[..padLength] == rest + Padding(|m|)
    ensures CompressBlocks(st, block, padLength / BLOCK_SIZE) == CompressBlocks(INITIAL_HASH, Pad(m), PaddedBlocks(|m|))
  {
    hide CompressBlocks, Padding;
    var k := padLength / BLOCK_SIZE;
    var whole := m[..BLOCK_SIZE * n];
    BlockCount(|m|, n, |rest|);
    assert PaddedBlocks(|m|) == n + k;
    assert block == block[..padLength] + block[padLength..];
    CompressPrefix(st, block[..padLength], block[padLength..], k);
    assert Pad(m) == whole + block[..padLength];
    CompressConcat(INITIAL_HASH, whole, block[..padLength], n, k);
    assert m == whole + rest;
    CompressPrefix(INITIAL_HASH, whole, rest, n);
  }

  /** The loop that writes the state out, most significant bytes first. */
  method WriteDigest(r: Regs, out: array<byte>)
    requires out.Length >= DIGEST_LENGTH
    modifies out
    ensures out[..DIGEST_LENGTH] == RegsBytes(r)
    ensures out[DIGEST_LENGTH..] == old(out[DIGEST_LENGTH..])
  {
    hide WordBytes;
    var words := [r.a, r.b, r.c, r.d, r.e, r.f, r.g, r.h];
    WriteWords(words, out);
  }

  method WriteWords(words: seq<word>, out: array<byte>)
    requires out.Length >= 4 * |words|
    modifies out
    ensures out[..4 * |words|] == WordsBytes(words)
    ensures out[4 * |words|..] == old(out[4 * |words|..])
  {
    hide WordBytes;
    for i := 0 to |words|
      invariant out[..4 * i] == WordsBytes(words[..i])
      invariant out[4 * i..] == old(out[4 * i..])
    {
      ghost var tail := out[4 * i..];
      WriteWord(words[i], out, 4 * i);
      assert words[..i + 1][..i] == words[..i];
      assert out[4 * (i + 1)..] == tail[4..] == old(out[4 * i..])[4..];
    }
    assert words[..|words|] == words;
  }

  method WriteWord(w: word, out: array<byte>, pos: nat)
    requires pos + 4 <= out.Length
    modifies out
    ensures out[..pos + 4] == old(out[..pos]) + WordBytes(w)
    ensures out[pos + 4..] == old(out[pos + 4..])
  {
    out[pos] := ((w >> 24) & 0xff) as byte;
    out[pos + 1] := ((w >> 16) & 0xff) as byte;
    out[pos + 2] := ((w >> 8) & 0xff) as byte;
    out[pos + 3] := (w & 0xff) as byte;
  }

  method CopyWords(from: array<word>, to: array<word>)
    requires from.Length == to.Length == 8 && from != to
    modifies to
    ensures StateOf(to) == StateOf(from)
  {
    for i := 0 to 8
      invariant forall j | 0 <= j < i :: to[j] == from[j]
    {
      to[i] := from[i];
    }
  }

  method ZeroBytes(a: array<byte>)
    modifies a
    ensures forall i | 0 <= i < a.Length :: a[i] == 0
  {
    for i := 0 to a.Length
      invariant forall j | 0 <= j < i :: a[j] == 0
    {
      a[i] := 0;
    }
  }

  method ZeroWords(a: array<word>)
    modifies a
    ensures forall i | 0 <= i < a.Length :: a[i] == 0
  {
    for i := 0 to a.Length
      invariant forall j | 0 <= j < i :: a[j] == 0
    {
      a[i] := 0;
    }
  }

  method SetInitialHash(v: array<word>)
    requires v.Length == 8
    modifies v
    ensures StateOf(v) == INITIAL_HASH
  {
    v[0] := 0x6a09e667;
    v[1] := 0xbb67ae85;
    v[2] := 0x3c6ef372;
    v[3] := 0xa54ff53a;
    v[4] := 0x510e527f;
    v[5] := 0x9b05688c;
    v[6] := 0x1f83d9ab;
    v[7] := 0x5be0cd19;
  }

  lemma FirstBlock(h: Regs, block: seq<byte>)
    requires |block| >= BLOCK_SIZE
    ensures CompressBlocks(h, block, 1) == CompressBlocks(h, block[..BLOCK_SIZE], 1)
  {
    hide CompressBlocks;
    CompressPrefix(h, block[..BLOCK_SIZE], block[BLOCK_SIZE..], 1);
    assert block == block[..BLOCK_SIZE] + block[BLOCK_SIZE..];
  }

  lemma BlockCount(length: nat, n: nat, rest: nat)
    requires length == BLOCK_SIZE * n + rest && rest < BLOCK_SIZE
    ensures n == length / BLOCK_SIZE && rest == length % BLOCK_SIZE
  {
  }

  // ----- Digests of messages -----

  /** sha256: the digest of a message in one call. */
  method Sha256Of(data: seq<byte>) returns (digest: seq<byte>)
    requires |data| < MAX_MESSAGE_LENGTH
    ensures digest == Sha256(data)
  {
    hide CompressBlocks, RegsBytes, Absorbed, Pad;
    var h := new HashSha256();
    assert [] + data[..|data|] == data;
    var _ := h.Update(data, |data|);
    var out := h.Digest();
    digest := out[..];
    h.Clean();
  }

  function Flatten(chunks: seq<seq<byte>>): seq<byte> {
    if chunks == [] then [] else Flatten(chunks[..|chunks| - 1]) + chunks[|chunks| - 1]
  }

  lemma {:induction false} FlattenPrefix(chunks: seq<seq<byte>>, i: nat)
    requires i <= |chunks|
    ensures |Flatten(chunks[..i])| <= |Flatten(chunks)|
  {
    if i < |chunks| {
      FlattenPrefix(chunks[..|chunks| - 1], i);
      assert chunks[..|chunks| - 1][..i] == chunks[..i];
    } else {
      assert chunks[..i] == chunks;
    }
  }

  /** However a message is cut into chunks, feeding them to update gives the digest of the whole;
      and asking for the digest twice gives the same bytes. */
  method DigestOfChunks(chunks: seq<seq<byte>>) returns (digest: seq<byte>, again: seq<byte>)
    requires |Flatten(chunks)| < MAX_MESSAGE_LENGTH
    ensures digest == again == Sha256(Flatten(chunks))
  {
    hide CompressBlocks, RegsBytes, Absorbed;
    var h := new HashSha256();
    for i := 0 to |chunks|
      invariant h.Valid() && !h.finished && h.message == Flatten(chunks[..i])
      invariant fresh(h) && fresh(h.state) && fresh(h.temp) && fresh(h.buffer)
    {
      FlattenPrefix(chunks, i + 1);
      assert chunks[..i + 1][..i] == chunks[..i];
      var _ := h.Update(chunks[i], |chunks[i]|);
      assert chunks[i][..|chunks[i]|] == chunks[i];
    }
    assert chunks[..|chunks|] == chunks;
    var out := h.Digest();
    digest := out[..];
    out := h.Digest();
    again := out[..];
  }
}

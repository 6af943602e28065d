// Crockford base 32 (src/crypto/talerCrypto.ts, getValue, encodeCrock and decodeCrock).
//
// The code shifts bits through 32-bit accumulators that are never masked.  The specification is
// on bit sequences, most significant bit first.
module Crock {
  import opened Wrappers
  import opened Bytes

  const ENC_TABLE := "0123456789ABCDEFGHJKMNPQRSTVWXYZ"

  datatype CrockError = EncodingError

  /** The value of a character; aliases are replaced first.  None for any other character. */
  function GetValue(chr: char): (v: Option<nat>)
    ensures v.Some? ==> v.value < 32
  {
    var a := if chr in "Oo" then '0' else if chr in "iIlL" then '1' else if chr in "uU" then 'V' else chr;
    if '0' <= a <= '9' then
      Some(a as int - '0' as int)
    else
      var a' := if 'a' <= a <= 'z' then ((a as int) - 32) as char else a;
      if 'A' <= a' <= 'Z' then
        var dec := (if 'I' < a' then 1 else 0) + (if 'L' < a' then 1 else 0) + (if 'O' < a' then 1 else 0)
            + (if 'U' < a' then 1 else 0);
        Some(a' as int - 'A' as int + 10 - dec)
      else
        None
  }

  lemma TableValues(v: nat)
    requires v < 32
    ensures GetValue(CharacterFor(v)) == Some(v)
  {
  }

  /** Digits and letters of either case are the valid characters, and the case does not matter. */
  lemma ValidCharacters(c: char)
    ensures GetValue(c).Some? <==> '0' <= c <= '9' || 'A' <= c <= 'Z' || 'a' <= c <= 'z'
    ensures 'a' <= c <= 'z' ==> GetValue(c) == GetValue(((c as int) - 32) as char)
  {
  }

  // ----- Bit sequences -----

  function Pow2(k: nat): (p: nat)
    ensures p > 0
  {
    if k == 0 then 1 else 2 * Pow2(k - 1)
  }

  /** The low w bits of n. */
  function BitsOf(n: nat, w: nat): (s: seq<bool>)
    ensures |s| == w
  {
    if w == 0 then [] else BitsOf(n / 2, w - 1) + [n % 2 == 1]
  }

  function ValueOf(bits: seq<bool>): (n: nat)
    ensures n < Pow2(|bits|)
  {
    if bits == [] then 0 else 2 * ValueOf(bits[..|bits| - 1]) + if bits[|bits| - 1] then 1 else 0
  }

  lemma {:induction false} ValueOfBits(n: nat, w: nat)
    requires n < Pow2(w)
    ensures ValueOf(BitsOf(n, w)) == n
  {
    if w > 0 {
      ValueOfBits(n / 2, w - 1);
      assert BitsOf(n, w)[..w - 1] == BitsOf(n / 2, w - 1);
    }
  }

  lemma {:induction false} BitsOfValue(bits: seq<bool>)
    ensures BitsOf(ValueOf(bits), |bits|) == bits
  {
    if bits != [] {
      BitsOfValue(bits[..|bits| - 1]);
    }
  }

  /** n >>> k */
  function Shr(n: nat, k: nat): nat {
    if k == 0 then n else Shr(n / 2, k - 1)
  }

  /** The low k bits of n come after the bits of what remains when n is shifted right by k. */
  lemma {:induction false} BitsSplit(n: nat, w: nat, k: nat)
    ensures BitsOf(n, w + k) == BitsOf(Shr(n, k), w) + BitsOf(n, k)
    decreases k
  {
    if k > 0 {
      BitsSplit(n / 2, w, k - 1);
      var low := [n % 2 == 1];
      assert BitsOf(n, w + k) == BitsOf(n / 2, w + (k - 1)) + low;
      assert BitsOf(n, k) == BitsOf(n / 2, k - 1) + low;
    } else {
      assert BitsOf(n, 0) == [];
    }
  }

  /** Adding a multiple of 2^w does not change the low w bits. */
  lemma {:induction false} BitsIgnoreHigh(n: nat, m: nat, w: nat)
    ensures BitsOf(m * Pow2(w) + n, w) == BitsOf(n, w)
  {
    if w > 0 {
      var p := Pow2(w - 1);
      Double(m, p);
      Halve(m * p, n);
      BitsIgnoreHigh(n / 2, m, w - 1);
    }
  }

  // ----- The 32-bit operations of the code -----

  const WORD: nat := 0x1_0000_0000

  /** x << k on 32-bit integers, read as unsigned. */
  function Shl(x: nat, k: nat): nat {
    (x * Pow2(k)) % WORD
  }

  lemma Pow2Facts()
    ensures Pow2(5) == 32 && Pow2(8) == 256 && Pow2(32) == WORD
  {
    assert Pow2(3) == 8;
    assert Pow2(6) == 64;
    assert Pow2(9) == 512;
    assert Pow2(12) == 4096;
    assert Pow2(15) == 0x8000;
    assert Pow2(18) == 0x4_0000;
    assert Pow2(21) == 0x20_0000;
    assert Pow2(24) == 0x100_0000;
    assert Pow2(27) == 0x800_0000;
    assert Pow2(30) == 0x4000_0000;
  }

  lemma {:induction false} Pow2Sum(a: nat, b: nat)
    ensures Pow2(a + b) == Pow2(a) * Pow2(b)
  {
    if a > 0 {
      Pow2Sum(a - 1, b);
      assert Pow2(a) * Pow2(b) == 2 * (Pow2(a - 1) * Pow2(b));
    }
  }

  /** Dropping the bits above the word drops a multiple of 2^w. */
  lemma WordSplit(x: nat, w: nat) returns (h: nat)
    requires w <= 32
    ensures x == h * Pow2(w) + x % WORD
  {
    Pow2Facts();
    Pow2Sum(32 - w, w);
    hide Pow2;
    var m := x / WORD;
    h := m * Pow2(32 - w);
    Associate(m, Pow2(32 - w), Pow2(w));
    assert x == m * WORD + x % WORD;
  }

  lemma Associate(a: nat, b: nat, c: nat)
    ensures a * (b * c) == (a * b) * c
  {
  }

  /** Bits shifted left by k, with v in the places that became free. */
  lemma {:induction false} BitsAppend(n: nat, w: nat, v: nat, k: nat)
    requires v < Pow2(k)
    ensures BitsOf(n * Pow2(k) + v, w + k) == BitsOf(n, w) + BitsOf(v, k)
  {
    if k > 0 {
      var p := Pow2(k - 1);
      Double(n, p);
      Halve(n * p, v);
      BitsAppend(n, w, v / 2, k - 1);
    }
  }

  lemma Double(n: nat, p: nat)
    ensures n * (2 * p) == 2 * (n * p)
  {
  }

  lemma Halve(a: nat, v: nat)
    ensures (2 * a + v) / 2 == a + v / 2 && (2 * a + v) % 2 == v % 2
  {
  }

  /** (buf << k) | v holds the bits of buf followed by those of v: an overflow of the accumulator
      never reaches bits that are still needed. */
  lemma ShiftIn(buf: nat, w: nat, v: nat, k: nat)
    requires w + k <= 32 && v < Pow2(k)
    ensures BitsOf(Shl(buf, k) + v, w + k) == BitsOf(buf, w) + BitsOf(v, k)
  {
    var x := buf * Pow2(k);
    BitsAppend(buf, w, v, k);
    var h := WordSplit(x, w + k);
    BitsIgnoreHigh(x % WORD + v, h, w + k);
  }

  /** The 5 or 8 bits above the low w bits of buf, as the code extracts them. */
  lemma TakeTop(buf: nat, w: nat)
    ensures BitsOf(buf, w + 5) == BitsOf(Shr(buf, w) % 32, 5) + BitsOf(buf, w)
    ensures BitsOf(buf, w + 8) == BitsOf(Shr(buf, w) % 256, 8) + BitsOf(buf, w)
  {
    BitsSplit(buf, 5, w);
    BitsSplit(buf, 8, w);
    Pow2Facts();
    var x := Shr(buf, w);
    BitsIgnoreHigh(x % 32, x / 32, 5);
    BitsIgnoreHigh(x % 256, x / 256, 8);
  }

  // ----- Encoding -----

  function BytesBits(bytes: seq<octet>): (s: seq<bool>)
    ensures |s| == 8 * |bytes|
  {
    if bytes == [] then [] else BytesBits(bytes[..|bytes| - 1]) + BitsOf(bytes[|bytes| - 1], 8)
  }

  function ZeroBits(n: nat): (s: seq<bool>)
    ensures |s| == n
  {
    seq(n, _ => false)
  }

  /** How many groups of five bits n bytes take. */
  function GroupsFor(n: nat): (g: nat)
    ensures 8 * n <= 5 * g < 8 * n + 5
  {
    (8 * n + 4) / 5
  }

  /** The bits of the data, with zeros that complete the last group. */
  function Padded(data: seq<octet>): (s: seq<bool>)
    ensures |s| == 5 * GroupsFor(|data|)
  {
    BytesBits(data) + ZeroBits(5 * GroupsFor(|data|) - 8 * |data|)
  }

  /** One character for each group of five bits. */
  function Characters(bits: seq<bool>, groups: nat): (s: string)
    requires |bits| == 5 * groups
    ensures |s| == groups
  {
    if groups == 0 then ""
    else
      var n := |bits| - 5;
      Characters(bits[..n], groups - 1) + [CharOf(bits[n..])]
  }

  function CharOf(bits: seq<bool>): char
    requires |bits| == 5
  {
    Pow2Facts();
    CharacterFor(ValueOf(bits))
  }

  function CharacterFor(v: nat): char
    requires v < 32
  {
    ENC_TABLE[v]
  }

  function EncodeOf(data: seq<octet>): string {
    Characters(Padded(data), GroupsFor(|data|))
  }

  /** One byte as it is encoded: 01001 and 11100, the last two bits being padding. */
  lemma EncodedByte()
    ensures EncodeOf([0x4f]) == "9W"
  {
    PaddedByte();
    ValueOfFive(false, true, false, false, true);
    ValueOfFive(true, true, true, false, false);
    hide Padded, ValueOf, Characters;
    TwoCharacters([false, true, false, false, true], [true, true, true, false, false]);
  }

  lemma PaddedByte()
    ensures Padded([0x4f]) == [false, true, false, false, true] + [true, true, true, false, false]
  {
    assert [0x4f][..0] == [];
    assert BitsOf(0x4, 4) == [false, true, false, false];
    assert BytesBits([0x4f]) == [false, true, false, false, true, true, true, true];
  }

  lemma TwoCharacters(high: seq<bool>, low: seq<bool>)
    requires |high| == |low| == 5
    ensures Characters(high + low, 2) == [CharOf(high), CharOf(low)]
  {
    hide CharOf;
    assert (high + low)[..5] == high && (high + low)[5..] == low && high[..0] == [] && high[0..] == high;
    assert Characters(high, 1) == Characters([], 0) + [CharOf(high)];
  }

  lemma ValueOfFive(a: bool, b: bool, c: bool, d: bool, e: bool)
    ensures ValueOf([a, b, c, d, e]) == (if a then 16 else 0) + (if b then 8 else 0) + (if c then 4 else 0)
                                        + (if d then 2 else 0) + (if e then 1 else 0)
  {
    assert [a, b, c, d, e][..4] == [a, b, c, d] && [a, b, c, d][..3] == [a, b, c];
    assert [a, b, c][..2] == [a, b] && [a, b][..1] == [a] && [a][..0] == [];
    assert ValueOf([a, b, c]) == 4 * ValueOf([a]) + (if b then 2 else 0) + (if c then 1 else 0);
  }

  lemma AppendCharacter(bits: seq<bool>, groups: nat, v: nat)
    requires |bits| == 5 * groups && v < 32
    ensures Characters(bits + BitsOf(v, 5), groups + 1) == Characters(bits, groups) + [CharacterFor(v)]
  {
    Pow2Facts();
    ValueOfBits(v, 5);
    var all := bits + BitsOf(v, 5);
    assert all[..|all| - 5] == bits && all[|all| - 5..] == BitsOf(v, 5);
  }

  lemma AppendByte(data: seq<octet>, pos: nat)
    requires pos < |data|
    ensures BytesBits(data[..pos + 1]) == BytesBits(data[..pos]) + BitsOf(data[pos], 8)
  {
    assert data[..pos + 1][..pos] == data[..pos];
  }

  lemma {:induction false} ZerosAreBits(k: nat)
    ensures BitsOf(0, k) == ZeroBits(k)
  {
    if k > 0 {
      ZerosAreBits(k - 1);
    }
  }

  /** Shifting bits into the accumulator appends them to the stream. */
  lemma LoadBits(done: seq<bool>, buf: nat, w: nat, v: nat, k: nat)
    requires w + k <= 32 && v < Pow2(k)
    ensures done + BitsOf(Shl(buf, k) + v, w + k) == (done + BitsOf(buf, w)) + BitsOf(v, k)
  {
    hide Shl, BitsOf, Pow2;
    ShiftIn(buf, w, v, k);
  }

  /** Taking bits off the top of the accumulator leaves the stream as it is. */
  lemma UnloadBits(done: seq<bool>, buf: nat, w: nat)
    ensures done + BitsOf(buf, w + 5) == (done + BitsOf(Shr(buf, w) % 32, 5)) + BitsOf(buf, w)
    ensures done + BitsOf(buf, w + 8) == (done + BitsOf(Shr(buf, w) % 256, 8)) + BitsOf(buf, w)
  {
    TakeTop(buf, w);
  }

  method EncodeCrock(data: seq<octet>) returns (sb: string)
    ensures sb == EncodeOf(data)
  {
    hide CharacterFor, BitsOf, BytesBits, Characters, Shl, Shr, Padded, GroupsFor;
    NothingWritten(data);
    sb := "";
    var size := |data|;
    var bitBuf: nat := 0;
    var numBits: nat := 0;
    var pos := 0;
    // The bits written so far, their number of groups, and all bits taken in so far.
    ghost var written: seq<bool>, groups: nat, stream: seq<bool> := [], 0, [];
    while pos < size || numBits > 0
      invariant 0 <= pos <= size && numBits <= 12
      invariant |written| == 5 * groups && sb == Characters(written, groups)
      invariant written + BitsOf(bitBuf, numBits) == stream
      invariant stream == BytesBits(data[..pos]) || (pos == size && numBits == 0 && stream == Padded(data))
      decreases 8 * (size - pos) + numBits
    {
      if pos < size && numBits < 5 {
        LoadByte(written, bitBuf, numBits, data, pos);
        stream := stream + BitsOf(data[pos], 8);
        bitBuf := Shl(bitBuf, 8) + data[pos];
        pos := pos + 1;
        numBits := numBits + 8;
      }
      if numBits < 5 {
        LoadPadding(written, groups, bitBuf, numBits, data);
        stream := Padded(data);
        bitBuf := Shl(bitBuf, 5 - numBits);
        numBits := 5;
      }
      UnloadBits(written, bitBuf, numBits - 5);
      var v := Shr(bitBuf, numBits - 5) % 32;
      AppendCharacter(written, groups, v);
      sb := sb + [CharacterFor(v)];
      written := written + BitsOf(v, 5);
      groups := groups + 1;
      numBits := numBits - 5;
    }
    assert written == written + BitsOf(bitBuf, 0) == stream;
    AllWritten(data, written, groups);
  }

  lemma NothingWritten(data: seq<octet>)
    ensures Characters([], 0) == "" && BitsOf(0, 0) == [] && BytesBits(data[..0]) == []
  {
    assert data[..0] == [];
  }

  lemma AllWritten(data: seq<octet>, written: seq<bool>, groups: nat)
    requires |written| == 5 * groups
    requires written == BytesBits(data[..|data|]) || written == Padded(data)
    ensures written == Padded(data) && groups == GroupsFor(|data|)
  {
    assert data[..|data|] == data;
  }

  lemma LoadByte(written: seq<bool>, buf: nat, w: nat, data: seq<octet>, pos: nat)
    requires w <= 24 && pos < |data| && written + BitsOf(buf, w) == BytesBits(data[..pos])
    ensures written + BitsOf(Shl(buf, 8) + data[pos], w + 8) == BytesBits(data[..pos]) + BitsOf(data[pos], 8)
              == BytesBits(data[..pos + 1])
  {
    hide Shl, BitsOf, BytesBits, Pow2;
    Pow2Facts();
    LoadBits(written, buf, w, data[pos], 8);
    AppendByte(data, pos);
  }

  lemma OneMoreGroup(g: nat, m: nat, bits: nat, w: nat)
    requires bits <= 5 * g < bits + 5 && bits == 5 * m + w && 0 < w < 5
    ensures g == m + 1
  {
  }

  /** The last group is completed with zeros: as many as the specification asks for. */
  lemma LoadPadding(written: seq<bool>, groups: nat, buf: nat, w: nat, data: seq<octet>)
    requires 0 < w < 5 && |written| == 5 * groups
    requires written + BitsOf(buf, w) == BytesBits(data[..|data|])
    ensures written + BitsOf(Shl(buf, 5 - w), 5) == Padded(data)
  {
    hide GroupsFor, Shl, BitsOf, BytesBits, Pow2;
    var k := 5 - w;
    assert data[..|data|] == data;
    assert |BytesBits(data)| == 8 * |data|;
    OneMoreGroup(GroupsFor(|data|), groups, 8 * |data|, w);
    LoadBits(written, buf, w, 0, k);
    ZerosAreBits(k);
  }

  // ----- Decoding -----

  predicate AllValid(s: string) {
    forall i | 0 <= i < |s| :: GetValue(s[i]).Some?
  }

  /** The bits that the characters stand for. */
  function StringBits(s: string): (bits: seq<bool>)
    requires AllValid(s)
    ensures |bits| == 5 * |s|
  {
    if s == "" then [] else StringBits(s[..|s| - 1]) + BitsOf(GetValue(s[|s| - 1]).value, 5)
  }

  function Octets(bits: seq<bool>, n: nat): (bytes: seq<octet>)
    requires |bits| == 8 * n
    ensures |bytes| == n
  {
    if n == 0 then []
    else
      Pow2Facts();
      Octets(bits[..8 * (n - 1)], n - 1) + [ValueOf(bits[8 * (n - 1)..])]
  }

  /** How many whole bytes n characters hold. */
  function BytesIn(n: nat): (m: nat)
    ensures 8 * m <= 5 * n < 8 * m + 8
  {
    5 * n / 8
  }

  /** The whole bytes in the bits of the string. */
  function DecodeOf(s: string): (bytes: seq<octet>)
    requires AllValid(s)
  {
    Octets(StringBits(s)[..8 * BytesIn(|s|)], BytesIn(|s|))
  }

  lemma {:induction false} OctetsOfBytes(bytes: seq<octet>)
    ensures Octets(BytesBits(bytes), |bytes|) == bytes
  {
    if bytes != [] {
      var n := |bytes| - 1;
      OctetsOfBytes(bytes[..n]);
      Pow2Facts();
      ValueOfBits(bytes[n], 8);
      var bits := BytesBits(bytes);
      assert bits[..8 * n] == BytesBits(bytes[..n]) && bits[8 * n..] == BitsOf(bytes[n], 8);
    }
  }

  lemma AppendValue(s: string, i: nat)
    requires i < |s| && AllValid(s[..i]) && GetValue(s[i]).Some?
    ensures AllValid(s[..i + 1]) && StringBits(s[..i + 1]) == StringBits(s[..i]) + BitsOf(GetValue(s[i]).value, 5)
  {
    assert s[..i + 1][..i] == s[..i];
  }

  /** The output holds the whole bytes of the string: what is left does not fill a byte. */
  ghost predicate Complete(out: seq<octet>, encoded: string) {
    && AllValid(encoded)
    && |out| == BytesIn(|encoded|)
    && BytesBits(out) == StringBits(encoded)[..8 * BytesIn(|encoded|)]
  }

  lemma CompleteIsDecoded(out: seq<octet>, encoded: string)
    requires Complete(out, encoded)
    ensures out == DecodeOf(encoded)
  {
    OctetsOfBytes(out);
  }

  /** Writes out[pos]; a write beyond the end of a typed array is ignored. */
  method Put(out: array<octet>, pos: nat, d: octet)
    modifies out
    ensures out[..] == if pos < out.Length then old(out[..])[pos := d] else old(out[..])
  {
    if pos < out.Length {
      out[pos] := d;
    }
  }

  method DecodeCrock(encoded: string) returns (r: Result<seq<octet>, CrockError>)
    ensures r == if AllValid(encoded) then Success(DecodeOf(encoded)) else Failure(EncodingError)
  {
    hide BitsOf, BytesBits, StringBits, Shl, Shr, GetValue, BytesIn;
    var size := |encoded|;
    var bitpos: nat, bitbuf: nat := 0, 0;
    var readPosition := 0;
    var outLen := BytesIn(size);
    var out := new octet[outLen](_ => 0);
    var outPos: nat := 0;
    NothingRead(encoded, out[..0]);
    // Whether the last bits have been moved to the top of a byte, to be dropped unless zero.
    ghost var drained := false;
    while readPosition < size || bitpos > 0
      invariant 0 <= readPosition <= size && AllValid(encoded[..readPosition])
      invariant !drained ==>
                  && bitpos < 8 && 8 * outPos + bitpos == 5 * readPosition && outPos <= outLen
                  && (readPosition == size ==> bitpos == 0)
                  && BytesBits(out[..outPos]) + BitsOf(bitbuf, bitpos) == StringBits(encoded[..readPosition])
      invariant drained ==>
                  readPosition == size && (bitpos == 0 || bitpos == 8) && outLen <= outPos && Complete(out[..], encoded)
      decreases size - readPosition, bitpos
    {
      ghost var before := out[..];
      if readPosition < size {
        var v := GetValue(encoded[readPosition]);
        if v.None? {
          return Failure(EncodingError);
        }
        ReadCharacter(before[..outPos], bitbuf, bitpos, encoded, readPosition);
        bitbuf := Shl(bitbuf, 5) + v.value;
        readPosition := readPosition + 1;
        bitpos := bitpos + 5;
      }
      ghost var w := bitpos;
      if bitpos >= 8 {
        var d := Shr(bitbuf, bitpos - 8) % 256;
        if !drained {
          UnloadByte(before, outPos, bitbuf, bitpos, StringBits(encoded[..readPosition]));
        }
        Put(out, outPos, d);
        outPos := outPos + 1;
        bitpos := bitpos - 8;
      }
      if readPosition == size && bitpos > 0 {
        BitsAreComplete(out[..], outPos, bitbuf, bitpos, encoded);
        drained := true;
        bitbuf := Shl(bitbuf, 8 - bitpos) % 256;
        bitpos := if bitbuf == 0 then 0 else 8;
      }
    }
    if !drained {
      BitsAreComplete(out[..], outPos, bitbuf, bitpos, encoded);
    }
    CompleteIsDecoded(out[..], encoded);
    return Success(out[..]);
  }

  lemma NothingRead(encoded: string, out: seq<octet>)
    requires out == []
    ensures AllValid(encoded[..0]) && BytesBits(out) + BitsOf(0, 0) == StringBits(encoded[..0])
  {
  }

  lemma ReadCharacter(done: seq<octet>, buf: nat, w: nat, encoded: string, i: nat)
    requires w < 8 && i < |encoded| && AllValid(encoded[..i]) && GetValue(encoded[i]).Some?
    requires BytesBits(done) + BitsOf(buf, w) == StringBits(encoded[..i])
    ensures AllValid(encoded[..i + 1])
    ensures BytesBits(done) + BitsOf(Shl(buf, 5) + GetValue(encoded[i]).value, w + 5) == StringBits(encoded[..i + 1])
  {
    hide Shl, BitsOf, BytesBits, StringBits, Pow2;
    Pow2Facts();
    LoadBits(BytesBits(done), buf, w, GetValue(encoded[i]).value, 5);
    AppendValue(encoded, i);
  }

  lemma UnloadByte(out: seq<octet>, outPos: nat, buf: nat, w: nat, stream: seq<bool>)
    requires outPos < |out| && w >= 8 && BytesBits(out[..outPos]) + BitsOf(buf, w) == stream
    ensures var d := Shr(buf, w - 8) % 256;
            BytesBits(out[outPos := d][..outPos + 1]) + BitsOf(buf, w - 8) == stream
  {
    var d := Shr(buf, w - 8) % 256;
    UnloadBits(BytesBits(out[..outPos]), buf, w - 8);
    var out' := out[outPos := d];
    AppendByte(out', outPos);
    assert out'[..outPos] == out[..outPos];
  }

  lemma BitsAreComplete(out: seq<octet>, outPos: nat, buf: nat, w: nat, encoded: string)
    requires |out| == BytesIn(|encoded|) && w < 8 && 8 * outPos + w == 5 * |encoded| && outPos <= |out|
    requires AllValid(encoded[..|encoded|])
    requires BytesBits(out[..outPos]) + BitsOf(buf, w) == StringBits(encoded[..|encoded|])
    ensures outPos == |out| && Complete(out, encoded)
  {
    assert encoded[..|encoded|] == encoded && out[..|out|] == out;
    assert (BytesBits(out) + BitsOf(buf, w))[..8 * |out|] == BytesBits(out);
  }

  // ----- Round trip and aliases -----

  lemma {:induction false} BitsOfCharacters(bits: seq<bool>, groups: nat)
    requires |bits| == 5 * groups
    ensures AllValid(Characters(bits, groups)) && StringBits(Characters(bits, groups)) == bits
  {
    if groups > 0 {
      var n := |bits| - 5;
      var head, last := bits[..n], bits[n..];
      NextCharacter(bits, groups);
      hide *;
      assert bits == head + last;
      BitsOfCharacters(head, groups - 1);
      CharacterBits(last);
      BitsOfNextCharacter(Characters(head, groups - 1), CharOf(last));
    }
  }

  lemma NextCharacter(bits: seq<bool>, groups: nat)
    requires |bits| == 5 * groups && groups > 0
    ensures Characters(bits, groups) == Characters(bits[..|bits| - 5], groups - 1) + [CharOf(bits[|bits| - 5..])]
  {
  }

  lemma BitsOfNextCharacter(s: string, c: char)
    requires AllValid(s) && GetValue(c).Some?
    ensures AllValid(s + [c]) && StringBits(s + [c]) == StringBits(s) + BitsOf(GetValue(c).value, 5)
  {
    hide GetValue, BitsOf;
    assert (s + [c])[..|s|] == s;
  }

  lemma CharacterBits(bits: seq<bool>)
    requires |bits| == 5
    ensures GetValue(CharOf(bits)).Some? && BitsOf(GetValue(CharOf(bits)).value, 5) == bits
  {
    Pow2Facts();
    TableValues(ValueOf(bits));
    BitsOfValue(bits);
  }

  /** Decoding the encoding of any byte string gives the byte string. */
  lemma DecodeOfEncode(data: seq<octet>)
    ensures AllValid(EncodeOf(data)) && DecodeOf(EncodeOf(data)) == data
  {
    BitsOfCharacters(Padded(data), GroupsFor(|data|));
    assert BytesIn(GroupsFor(|data|)) == |data|;
    assert Padded(data)[..8 * |data|] == BytesBits(data);
    OctetsOfBytes(data);
  }

  /** Two characters that decodeCrock does not tell apart. */
  predicate Alias(c: char, d: char) {
    GetValue(c) == GetValue(d)
  }

  lemma Aliases(c: char)
    ensures Alias('O', '0') && Alias('o', '0')
    ensures Alias('I', '1') && Alias('i', '1') && Alias('L', '1') && Alias('l', '1')
    ensures Alias('U', 'V') && Alias('u', 'V')
    ensures 'a' <= c <= 'z' ==> Alias(c, (c as int - 32) as char)
  {
  }

  /** Replacing characters by aliases changes neither validity nor the decoded bytes. */
  lemma {:induction false} DecodeIgnoresAliases(s: string, t: string)
    requires |s| == |t| && forall i | 0 <= i < |s| :: Alias(s[i], t[i])
    ensures AllValid(s) <==> AllValid(t)
    ensures AllValid(s) ==> StringBits(s) == StringBits(t) && DecodeOf(s) == DecodeOf(t)
  {
    hide GetValue;
    if s != "" && AllValid(s) {
      DecodeIgnoresAliases(s[..|s| - 1], t[..|t| - 1]);
    }
  }
}

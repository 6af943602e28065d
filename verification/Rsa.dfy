// RSA blind signatures (src/crypto/talerCrypto.ts). SHA-512 is a parameter.
module Rsa {
  import opened Wrappers
  import opened Bytes
  import opened Division
  import opened ModArith
  import Hmac
  import Kdf

  // ----- Big integers as bytes -----

  /** loadBigInt: big-endian base 256. */
  function LoadBigInt(arr: seq<octet>): nat {
    if arr == [] then 0 else 256 * LoadBigInt(arr[..|arr| - 1]) + arr[|arr| - 1]
  }

  /** toArray(256): the digits of n without leading zeros, [0] for zero. */
  function ToArray(n: nat): (arr: seq<octet>)
    ensures arr != [] && (arr[0] == 0 ==> arr == [0])
  {
    if n < 256 then [n] else ToArray(n / 256) + [n % 256]
  }

  lemma {:induction false} LoadOfToArray(n: nat)
    ensures LoadBigInt(ToArray(n)) == n
  {
    if n >= 256 {
      LoadOfToArray(n / 256);
      assert ToArray(n)[..|ToArray(n)| - 1] == ToArray(n / 256);
    } else {
      assert ToArray(n)[..0] == [];
    }
  }

  // ----- Public keys -----

  datatype RsaPub = RsaPub(N: nat, e: nat)

  datatype RsaError = FormatWrong | MaliciousKey | NotInvertible | NeverEnds

  /** Reading beyond the end of a typed array gives undefined, which the shifts turn into 0. */
  function At(arr: seq<octet>, i: nat): octet {
    if i < |arr| then arr[i] else 0
  }

  function RsaPubDecode(rsaPub: seq<octet>): Result<RsaPub, RsaError> {
    var modulusLength := At(rsaPub, 0) * 256 + At(rsaPub, 1);
    var exponentLength := At(rsaPub, 2) * 256 + At(rsaPub, 3);
    if 4 + exponentLength + modulusLength != |rsaPub| then
      Failure(FormatWrong)
    else
      Success(RsaPub(
        LoadBigInt(rsaPub[4..4 + modulusLength]),
        LoadBigInt(rsaPub[4 + modulusLength..4 + modulusLength + exponentLength])))
  }

  function RsaPubEncode(rsaPub: RsaPub): seq<octet> {
    var mb, eb := ToArray(rsaPub.N), ToArray(rsaPub.e);
    [(|mb| / 256) % 256, |mb| % 256, (|eb| / 256) % 256, |eb| % 256] + mb + eb
  }

  /** A key survives encoding exactly when both numbers have fewer than 65536 bytes; a longer one
      is rejected. */
  lemma DecodeOfEncode(k: RsaPub)
    ensures RsaPubDecode(RsaPubEncode(k)) == Success(k) <==> |ToArray(k.N)| < 0x1_0000 && |ToArray(k.e)| < 0x1_0000
    ensures RsaPubDecode(RsaPubEncode(k)) != Success(k) ==> RsaPubDecode(RsaPubEncode(k)) == Failure(FormatWrong)
  {
    var mb, eb := ToArray(k.N), ToArray(k.e);
    var bytes := RsaPubEncode(k);
    LoadOfToArray(k.N);
    LoadOfToArray(k.e);
    TwoByteLength(|mb|);
    TwoByteLength(|eb|);
    if |mb| < 0x1_0000 && |eb| < 0x1_0000 {
      assert bytes[4..4 + |mb|] == mb && bytes[4 + |mb|..4 + |mb| + |eb|] == eb;
    }
  }

  /** The accepted byte strings are exactly two two-byte lengths with a modulus and an exponent of
      these lengths behind them. */
  lemma DecodeAcceptsIff(rsaPub: seq<octet>, k: RsaPub)
    ensures RsaPubDecode(rsaPub) == Success(k) <==>
            exists mb: seq<octet>, eb: seq<octet> ::
              && |mb| < 0x1_0000 && |eb| < 0x1_0000
              && rsaPub == [|mb| / 256, |mb| % 256, |eb| / 256, |eb| % 256] + mb + eb
              && k == RsaPub(LoadBigInt(mb), LoadBigInt(eb))
  {
    hide LoadBigInt;
    if RsaPubDecode(rsaPub) == Success(k) {
      LayoutOfAccepted(rsaPub);
    }
    forall mb: seq<octet>, eb: seq<octet> |
      && |mb| < 0x1_0000 && |eb| < 0x1_0000
      && rsaPub == [|mb| / 256, |mb| % 256, |eb| / 256, |eb| % 256] + mb + eb
      ensures RsaPubDecode(rsaPub) == Success(RsaPub(LoadBigInt(mb), LoadBigInt(eb)))
    {
      assert rsaPub[4..4 + |mb|] == mb && rsaPub[4 + |mb|..4 + |mb| + |eb|] == eb;
    }
  }

  lemma LayoutOfAccepted(rsaPub: seq<octet>)
    requires RsaPubDecode(rsaPub).Success?
    ensures exists mb: seq<octet>, eb: seq<octet> ::
              && |mb| < 0x1_0000 && |eb| < 0x1_0000
              && rsaPub == [|mb| / 256, |mb| % 256, |eb| / 256, |eb| % 256] + mb + eb
              && RsaPubDecode(rsaPub) == Success(RsaPub(LoadBigInt(mb), LoadBigInt(eb)))
  {
    hide LoadBigInt;
    var a: nat, b: nat, c: nat, d: nat := rsaPub[0], rsaPub[1], rsaPub[2], rsaPub[3];
    var m, e := a * 256 + b, c * 256 + d;
    var mb, eb := rsaPub[4..4 + m], rsaPub[4 + m..4 + m + e];
    assert m / 256 == a && m % 256 == b && e / 256 == c && e % 256 == d;
    ThreeParts(rsaPub, m);
    assert rsaPub[..4] == [m / 256, m % 256, e / 256, e % 256];
    assert rsaPub[4 + m..] == eb;
  }

  lemma ThreeParts(s: seq<octet>, m: nat)
    requires 4 + m <= |s|
    ensures s == s[..4] + s[4..4 + m] + s[4 + m..]
  {
  }

  lemma TwoByteLength(l: nat)
    ensures ((l / 256) % 256) * 256 + l % 256 <= l
    ensures ((l / 256) % 256) * 256 + l % 256 == l <==> l < 0x1_0000
  {
  }

  // ----- Numbers below a modulus -----

  function BitLength(n: nat): nat {
    if n == 0 then 0 else 1 + BitLength(n / 2)
  }

  function TwoTo(k: nat): (p: nat)
    ensures p > 0
  {
    if k == 0 then 1 else 2 * TwoTo(k - 1)
  }

  function ToBytes(s: seq<octet>): seq<bv8> {
    seq(|s|, i requires 0 <= i < |s| => s[i] as bv8)
  }

  function ToOctets(s: seq<bv8>): (r: seq<octet>)
    ensures |r| == |s|
  {
    seq(|s|, i requires 0 <= i < |s| => s[i] as octet)
  }

  /** How many bytes n takes. */
  function BufferLength(n: nat): nat {
    (BitLength(n) + 7) / 8
  }

  /** The number that kdfMod tries with a counter: as many derived bytes as n takes, without the bits
      of the first byte that n does not reach. Only two bytes of the counter are used. */
  function Candidate(sha512: Hmac.Digest, n: nat, ikm: seq<octet>, salt: seq<octet>, info: seq<octet>,
      counter: nat): nat
    requires n > 0
  {
    var ctx := info + CounterBytes(counter);
    var buf := ToOctets(Kdf.KdfOf(sha512, BufferLength(n), ToBytes(ikm), ToBytes(salt), ToBytes(ctx)));
    LoadBigInt(Masked(buf, MaskBits(n)))
  }

  function CounterBytes(counter: nat): (b: seq<octet>)
    ensures |b| == 2
  {
    [(counter / 256) % 256, counter % 256]
  }

  /** How many bits of its first byte n reaches. */
  function MaskBits(n: nat): nat {
    8 - (8 * BufferLength(n) - BitLength(n))
  }

  lemma RemainderBounds(a: nat, n: nat)
    requires n > 0
    ensures a % n <= a && a % n < n
  {
    if a < n {
      SmallMod(a, n);
    }
  }

  function LowBits(b: octet, bits: nat): (r: octet)
    ensures r < TwoTo(bits)
  {
    RemainderBounds(b, TwoTo(bits));
    b % TwoTo(bits)
  }

  /** The lowest bits of the first byte and all other bytes. */
  function Masked(buf: seq<octet>, bits: nat): seq<octet> {
    if buf == [] then buf else buf[0 := LowBits(buf[0], bits)]
  }

  /** The first candidate below n from a counter on; None if all two-byte counters fail. */
  function FirstBelow(sha512: Hmac.Digest, n: nat, ikm: seq<octet>, salt: seq<octet>, info: seq<octet>,
      counter: nat): (r: Option<nat>)
    requires n > 0 && counter <= 0x1_0000
    ensures r.Some? ==> r.value < n
    decreases 0x1_0000 - counter
  {
    if counter == 0x1_0000 then None
    else
      var c := Candidate(sha512, n, ikm, salt, info, counter);
      if c < n then Some(c) else FirstBelow(sha512, n, ikm, salt, info, counter + 1)
  }

  function KdfModOf(sha512: Hmac.Digest, n: nat, ikm: seq<octet>, salt: seq<octet>, info: seq<octet>): (r: Option<nat>)
    requires n > 0
    ensures r.Some? ==> r.value < n
  {
    FirstBelow(sha512, n, ikm, salt, info, 0)
  }

  /** The loop of kdfMod, for inputs on which it ends. */
  method KdfMod(sha512: Hmac.Digest, n: nat, ikm: seq<octet>, salt: seq<octet>, info: seq<octet>) returns (r: nat)
    requires n > 0
    requires exists counter: nat :: Candidate(sha512, n, ikm, salt, info, counter) < n
    ensures r < n && KdfModOf(sha512, n, ikm, salt, info) == Some(r)
  {
    hide Candidate;
    KdfModEndsIff(sha512, n, ikm, salt, info);
    var counter: nat := 0;
    while true
      invariant counter <= 0x1_0000
      invariant FirstBelow(sha512, n, ikm, salt, info, counter) == KdfModOf(sha512, n, ikm, salt, info)
      decreases 0x1_0000 - counter
    {
      r := Candidate(sha512, n, ikm, salt, info, counter);
      if r < n {
        return;
      }
      counter := counter + 1;
    }
  }

  lemma {:induction false} TwoToSum(a: nat, b: nat)
    ensures TwoTo(a + b) == TwoTo(a) * TwoTo(b)
  {
    if a > 0 {
      TwoToSum(a - 1, b);
      TwiceProduct(TwoTo(a - 1), TwoTo(b));
    }
  }

  lemma TwiceProduct(a: nat, b: nat)
    ensures (2 * a) * b == 2 * (a * b)
  {
  }

  lemma {:induction false} LoadBound(arr: seq<octet>, bound: nat)
    requires arr != [] && arr[0] < bound
    ensures LoadBigInt(arr) < bound * TwoTo(8 * (|arr| - 1))
  {
    var m := |arr| - 1;
    if m > 0 {
      LoadBound(arr[..m], bound);
      TwoToSum(8, 8 * (m - 1));
      assert TwoTo(8) == 256 by { assert TwoTo(4) == 16; }
      MoveFactor(bound, TwoTo(8 * (m - 1)));
    } else {
      assert arr[..0] == [];
    }
  }

  lemma MoveFactor(a: nat, b: nat)
    ensures a * (256 * b) == 256 * (a * b)
  {
  }

  lemma MaskedFitsBits(buf: seq<octet>, n: nat)
    requires n > 0 && |buf| == BufferLength(n)
    ensures LoadBigInt(Masked(buf, MaskBits(n))) < TwoTo(BitLength(n))
  {
    BitsOfBuffer(n);
    FirstIsMasked(buf, MaskBits(n));
    hide *;
    LoadBound(Masked(buf, MaskBits(n)), TwoTo(MaskBits(n)));
    TwoToSum(MaskBits(n), 8 * (|buf| - 1));
  }

  lemma BitsOfBuffer(n: nat)
    requires n > 0
    ensures BufferLength(n) > 0 && MaskBits(n) + 8 * (BufferLength(n) - 1) == BitLength(n)
  {
  }

  lemma FirstIsMasked(buf: seq<octet>, bits: nat)
    requires buf != []
    ensures |Masked(buf, bits)| == |buf| && Masked(buf, bits)[0] < TwoTo(bits)
  {
  }

  /** A candidate has no more bits than n: the mask keeps just those of the first byte that n reaches. */
  lemma CandidateFitsBits(sha512: Hmac.Digest, n: nat, ikm: seq<octet>, salt: seq<octet>, info: seq<octet>,
      counter: nat)
    requires n > 0
    ensures Candidate(sha512, n, ikm, salt, info, counter) < TwoTo(BitLength(n))
  {
    hide Kdf.KdfOf, LoadBigInt, Masked, TwoTo, BitLength, ToBytes;
    var ctx := info + CounterBytes(counter);
    MaskedFitsBits(ToOctets(Kdf.KdfOf(sha512, BufferLength(n), ToBytes(ikm), ToBytes(salt), ToBytes(ctx))), n);
  }

  /** How large n is: its highest bit is the last of BitLength(n) bits. */
  lemma {:induction false} BitLengthBounds(n: nat)
    requires n > 0
    ensures BitLength(n) > 0 && TwoTo(BitLength(n) - 1) <= n < TwoTo(BitLength(n))
  {
    if n > 1 {
      BitLengthBounds(n / 2);
    } else {
      assert BitLength(1) == 1 && TwoTo(1) == 2;
    }
  }

  function InFront(b: nat, q: nat, rest: nat): nat {
    b * q + rest
  }

  lemma {:induction false} LoadOfFirst(arr: seq<octet>)
    requires arr != []
    ensures LoadBigInt(arr) == InFront(arr[0], TwoTo(8 * (|arr| - 1)), LoadBigInt(arr[1..]))
    ensures LoadBigInt(arr[1..]) < TwoTo(8 * (|arr| - 1))
  {
    var m := |arr| - 1;
    if m == 0 {
      assert arr[..0] == [];
    } else {
      LoadOfFirst(arr[..m]);
      assert arr[..m][1..] == arr[1..][..m - 1];
      TwoToSum(8, 8 * (m - 1));
      assert TwoTo(8) == 256 by { assert TwoTo(4) == 16; }
      MoveFactor(arr[0], TwoTo(8 * (m - 1)));
    }
  }

  /** What the loop of kdfMod compares with n: the number that the derived bytes spell, reduced to as many
      bits as n has. */
  lemma CandidateIsReducedBytes(sha512: Hmac.Digest, n: nat, ikm: seq<octet>, salt: seq<octet>, info: seq<octet>,
      counter: nat)
    requires n > 0
    ensures LoadBigInt(CounterBytes(counter)) == counter % 0x1_0000
    ensures var ctx := info + CounterBytes(counter);
            Candidate(sha512, n, ikm, salt, info, counter)
              == LoadBigInt(ToOctets(Kdf.KdfOf(sha512, BufferLength(n), ToBytes(ikm), ToBytes(salt), ToBytes(ctx))))
                   % TwoTo(BitLength(n))
  {
    hide Kdf.KdfOf, LoadBigInt, Masked, TwoTo, BitLength, ToBytes;
    LoadOfCounter(counter);
    var ctx := info + CounterBytes(counter);
    MaskedIsReduced(ToOctets(Kdf.KdfOf(sha512, BufferLength(n), ToBytes(ikm), ToBytes(salt), ToBytes(ctx))), n);
  }

  lemma LoadOfCounter(counter: nat)
    ensures LoadBigInt(CounterBytes(counter)) == counter % 0x1_0000
  {
    var b := CounterBytes(counter);
    assert LoadBigInt(b[..1]) == b[0] by { assert b[..1][..0] == []; }
    var h, c := counter / 0x1_0000, counter % 0x1_0000;
    assert counter == 256 * (256 * h) + c;
    assert counter / 256 == 256 * h + c / 256;
  }

  lemma MaskedIsReduced(buf: seq<octet>, n: nat)
    requires n > 0 && |buf| == BufferLength(n)
    ensures LoadBigInt(Masked(buf, MaskBits(n))) == LoadBigInt(buf) % TwoTo(BitLength(n))
  {
    BitsOfBuffer(n);
    var bits, rest := MaskBits(n), 8 * (|buf| - 1);
    var masked := Masked(buf, bits);
    MaskedParts(buf, bits);
    hide *;
    LoadOfFirst(buf);
    LoadOfFirst(masked);
    ReducedInFront(buf[0], bits, rest, LoadBigInt(buf[1..]));
  }

  lemma MaskedParts(buf: seq<octet>, bits: nat)
    requires buf != []
    ensures var masked := Masked(buf, bits);
            |masked| == |buf| && masked[0] == LowBits(buf[0], bits) && masked[1..] == buf[1..]
  {
  }

  lemma ReducedInFront(b: octet, bits: nat, k: nat, rest: nat)
    requires rest < TwoTo(k)
    ensures InFront(LowBits(b, bits), TwoTo(k), rest) == InFront(b, TwoTo(k), rest) % TwoTo(bits + k)
  {
    var p, q, m: nat := TwoTo(bits), TwoTo(k), LowBits(b, bits);
    assert m == b % p;
    TwoToSum(bits, k);
    hide *;
    ReducedSum(b, m, p, q, rest, InFront(b, q, rest), InFront(m, q, rest), TwoTo(bits + k));
  }

  lemma ReducedSum(b: nat, m: nat, p: nat, q: nat, rest: nat, x: nat, y: nat, pq: nat)
    requires p > 0 && rest < q && m == b % p && pq == p * q
    requires x == InFront(b, q, rest) && y == InFront(m, q, rest)
    ensures y == x % pq
  {
    ReducedProduct(b, p, q);
    RemainderBounds(b, p);
    MulOrder(q, m, p - 1);
    Commute(m, q);
    Commute(p, q);
    DivisionUnique(x, pq, b / p, y);
  }

  lemma Commute(a: int, b: int)
    ensures a * b == b * a
  {
  }

  lemma ReducedProduct(b: nat, p: nat, q: nat)
    requires p > 0
    ensures b * q == (p * q) * (b / p) + (b % p) * q
  {
    var d := b / p;
    assert b == p * d + b % p;
    assert (p * d + b % p) * q == (p * d) * q + (b % p) * q;
    Swap(p, d, q);
  }

  lemma CounterBytesRepeat(counter: nat)
    ensures CounterBytes(counter) == CounterBytes(counter % 0x1_0000)
  {
    var h, c := counter / 0x1_0000, counter % 0x1_0000;
    assert counter == 256 * (256 * h) + c;
    assert counter / 256 == 256 * h + c / 256;
  }

  /** Counters that differ by 65536 give the same candidate. */
  lemma CandidatesRepeat(sha512: Hmac.Digest, n: nat, ikm: seq<octet>, salt: seq<octet>, info: seq<octet>, counter: nat)
    requires n > 0
    ensures Candidate(sha512, n, ikm, salt, info, counter) == Candidate(sha512, n, ikm, salt, info, counter % 0x1_0000)
  {
    hide Kdf.KdfOf, LoadBigInt, Masked, ToBytes, ToOctets, CounterBytes;
    CounterBytesRepeat(counter);
  }

  lemma {:induction false} FirstBelowFinds(
    sha512: Hmac.Digest, n: nat, ikm: seq<octet>, salt: seq<octet>, info: seq<octet>, from: nat, counter: nat)
    requires n > 0 && from <= counter < 0x1_0000 && Candidate(sha512, n, ikm, salt, info, counter) < n
    ensures FirstBelow(sha512, n, ikm, salt, info, from).Some?
    decreases counter - from
  {
    hide Candidate;
    if from < counter {
      FirstBelowFinds(sha512, n, ikm, salt, info, from + 1, counter);
    }
  }

  lemma {:induction false} FirstBelowIsCandidate(
    sha512: Hmac.Digest, n: nat, ikm: seq<octet>, salt: seq<octet>, info: seq<octet>, from: nat)
    requires n > 0 && from <= 0x1_0000
    ensures FirstBelow(sha512, n, ikm, salt, info, from).Some? ==>
              exists counter: nat :: Candidate(sha512, n, ikm, salt, info, counter) < n
    decreases 0x1_0000 - from
  {
    hide Candidate;
    if from < 0x1_0000 {
      FirstBelowIsCandidate(sha512, n, ikm, salt, info, from + 1);
      assert Candidate(sha512, n, ikm, salt, info, from) >= n || Candidate(sha512, n, ikm, salt, info, from) < n;
    }
  }

  /** The loop ends exactly if some counter, however large, gives a number below n. */
  lemma KdfModEndsIff(sha512: Hmac.Digest, n: nat, ikm: seq<octet>, salt: seq<octet>, info: seq<octet>)
    requires n > 0
    ensures KdfModOf(sha512, n, ikm, salt, info).Some? <==>
            exists counter: nat :: Candidate(sha512, n, ikm, salt, info, counter) < n
  {
    hide Candidate, FirstBelow;
    FirstBelowIsCandidate(sha512, n, ikm, salt, info, 0);
    if exists counter: nat :: Candidate(sha512, n, ikm, salt, info, counter) < n {
      var counter: nat :| Candidate(sha512, n, ikm, salt, info, counter) < n;
      CandidatesRepeat(sha512, n, ikm, salt, info, counter);
      FirstBelowFinds(sha512, n, ikm, salt, info, 0, counter % 0x1_0000);
    }
  }

  // ----- Blinding, signing, unblinding, verifying -----

  /** The byte strings that keep the two uses of kdfMod apart. */
  datatype Labels = Labels(blindingSalt: seq<octet>, blindingInfo: seq<octet>, fdhInfo: seq<octet>)

  datatype Scheme = Scheme(sha512: Hmac.Digest, labels: Labels) {
    function BlindingKeyDerive(k: RsaPub, bks: seq<octet>): (r: Option<nat>)
      requires k.N > 0
      ensures r.Some? ==> r.value < k.N
    {
      KdfModOf(sha512, k.N, bks, labels.blindingSalt, labels.blindingInfo)
    }

    function FullDomainHash(hm: seq<octet>, k: RsaPub): (r: Result<nat, RsaError>)
      requires k.N > 0
      ensures r.Success? ==> r.value < k.N
    {
      match KdfModOf(sha512, k.N, hm, RsaPubEncode(k), labels.fdhInfo)
      case None => Failure(NeverEnds)
      case Some(r) => if Gcd(r, k.N) != 1 then Failure(MaliciousKey) else Success(r)
    }

    function RsaBlind(hm: seq<octet>, bks: seq<octet>, pub: seq<octet>): Result<seq<octet>, RsaError>
      requires RsaPubDecode(pub).Success? ==> RsaPubDecode(pub).value.N > 0
    {
      match RsaPubDecode(pub)
      case Failure(e) => Failure(e)
      case Success(k) =>
        match FullDomainHash(hm, k)
        case Failure(e) => Failure(e)
        case Success(data) =>
          match BlindingKeyDerive(k, bks)
          case None => Failure(NeverEnds)
          case Some(r) =>
            var r_e := ModPow(r, k.e, k.N);
            Success(ToArray((r_e * data) % k.N))
    }

    function RsaUnblind(sig: seq<octet>, pub: seq<octet>, bks: seq<octet>): Result<seq<octet>, RsaError>
      requires RsaPubDecode(pub).Success? ==> RsaPubDecode(pub).value.N > 0
    {
      match RsaPubDecode(pub)
      case Failure(e) => Failure(e)
      case Success(k) =>
        match BlindingKeyDerive(k, bks)
        case None => Failure(NeverEnds)
        case Some(r) =>
          match ModInv(r, k.N)
          case None => Failure(NotInvertible)
          case Some(r_inv) => Success(ToArray((LoadBigInt(sig) * r_inv) % k.N))
    }

    function RsaVerify(hm: seq<octet>, sig: seq<octet>, pub: seq<octet>): Result<bool, RsaError>
      requires RsaPubDecode(pub).Success? ==> RsaPubDecode(pub).value.N > 0
    {
      match RsaPubDecode(pub)
      case Failure(e) => Failure(e)
      case Success(k) =>
        match FullDomainHash(hm, k)
        case Failure(e) => Failure(e)
        case Success(d) => Success(ModPow(LoadBigInt(sig), k.e, k.N) == d)
    }
  }

  /** The hash of a message for a key: a number below the modulus derived from the message and the whole
      key, unless none is found or it shows the key to be malicious. */
  lemma FullDomainHashIs(s: Scheme, hm: seq<octet>, k: RsaPub)
    requires k.N > 0
    ensures match KdfModOf(s.sha512, k.N, hm, RsaPubEncode(k), s.labels.fdhInfo)
            case None => s.FullDomainHash(hm, k) == Failure(NeverEnds)
            case Some(d) =>
              if Coprime(d, k.N) then s.FullDomainHash(hm, k) == Success(d)
              else s.FullDomainHash(hm, k) == Failure(MaliciousKey)
  {
    var d := KdfModOf(s.sha512, k.N, hm, RsaPubEncode(k), s.labels.fdhInfo);
    if d.Some? {
      GcdIsOneIff(d.value, k.N);
    }
  }

  /** A blinded message is r^e times the hash of the message, up to a multiple of the modulus. */
  lemma BlindedMessageIs(s: Scheme, k: RsaPub, pub: seq<octet>, hm: seq<octet>, bks: seq<octet>)
    requires RsaPubDecode(pub) == Success(k) && k.N > 0
    ensures var r := KdfModOf(s.sha512, k.N, bks, s.labels.blindingSalt, s.labels.blindingInfo);
            match s.FullDomainHash(hm, k)
            case Failure(e) => s.RsaBlind(hm, bks, pub) == Failure(e)
            case Success(d) =>
              match r
              case None => s.RsaBlind(hm, bks, pub) == Failure(NeverEnds)
              case Some(r) =>
                && s.RsaBlind(hm, bks, pub).Success?
                && LoadBigInt(s.RsaBlind(hm, bks, pub).value) < k.N
                && Congruent(LoadBigInt(s.RsaBlind(hm, bks, pub).value), Pow(r, k.e) * d, k.N)
  {
    var r := KdfModOf(s.sha512, k.N, bks, s.labels.blindingSalt, s.labels.blindingInfo);
    if s.FullDomainHash(hm, k).Success? && r.Some? {
      BlindedNumber(r.value, k, s.FullDomainHash(hm, k).value);
    }
  }

  lemma BlindedNumber(r: nat, k: RsaPub, d: nat)
    requires k.N > 0
    ensures var bm := (ModPow(r, k.e, k.N) * d) % k.N;
            && LoadBigInt(ToArray(bm)) == bm < k.N
            && Congruent(bm, Pow(r, k.e) * d, k.N)
  {
    var n, b, r_e := k.N, Pow(r, k.e), ModPow(r, k.e, k.N);
    assert r_e == b % n;
    hide *;
    var m := r_e * d;
    RemainderBounds(m, n);
    LoadOfToArray(m % n);
    CongruentMod(b, b, n);
    CongruentMod(d, d, n);
    CongruentMul(r_e, b, d, d, n);
    CongruentMod(m, m, n);
    CongruentTrans(m % n, m, b * d, n);
  }

  /** A signature is accepted exactly if its e-th power is congruent to the hash of the message; any
      other is refused. Only a wrong key, or a hash that shows it to be malicious, is an error. */
  lemma VerifyAcceptsIff(s: Scheme, hm: seq<octet>, sig: seq<octet>, pub: seq<octet>)
    requires RsaPubDecode(pub).Success? ==> RsaPubDecode(pub).value.N > 0
    ensures match RsaPubDecode(pub)
            case Failure(e) => s.RsaVerify(hm, sig, pub) == Failure(e)
            case Success(k) =>
              match s.FullDomainHash(hm, k)
              case Failure(e) => s.RsaVerify(hm, sig, pub) == Failure(e)
              case Success(d) =>
                && (s.RsaVerify(hm, sig, pub) == Success(true) <==> Congruent(Pow(LoadBigInt(sig), k.e), d, k.N))
                && (s.RsaVerify(hm, sig, pub) == Success(false) <==> !Congruent(Pow(LoadBigInt(sig), k.e), d, k.N))
  {
    var pub := RsaPubDecode(pub);
    if pub.Success? && s.FullDomainHash(hm, pub.value).Success? {
      var k, d := pub.value, s.FullDomainHash(hm, pub.value).value;
      CongruentMod(Pow(LoadBigInt(sig), k.e), d, k.N);
      SmallMod(d, k.N);
    }
  }

  /** Where x and e undo each other, the plain signature d^x is accepted, in any representation, and
      nothing else is. */
  lemma OnlyPlainSignatureIsAccepted(
    s: Scheme, k: RsaPub, pub: seq<octet>, hm: seq<octet>, sig: seq<octet>, d: nat, x: nat)
    requires RsaPubDecode(pub) == Success(k) && k.N > 0 && s.FullDomainHash(hm, k) == Success(d)
    requires Congruent(Pow(Pow(d, x), k.e), d, k.N)
    requires Congruent(Pow(Pow(LoadBigInt(sig), k.e), x), LoadBigInt(sig), k.N)
    ensures s.RsaVerify(hm, sig, pub) == Success(true) <==> Congruent(LoadBigInt(sig), Pow(d, x), k.N)
    ensures s.RsaVerify(hm, sig, pub) == Success(false) <==> !Congruent(LoadBigInt(sig), Pow(d, x), k.N)
  {
    VerifyAcceptsIff(s, hm, sig, pub);
    var n, t, e := k.N, LoadBigInt(sig), k.e;
    hide *;
    CongruentSym(Pow(Pow(t, e), x), t, n);
    if Congruent(Pow(t, e), d, n) {
      PowCongruent(Pow(t, e), d, x, n);
      CongruentTrans(t, Pow(Pow(t, e), x), Pow(d, x), n);
    }
    if Congruent(t, Pow(d, x), n) {
      PowCongruent(t, Pow(d, x), e, n);
      CongruentTrans(Pow(t, e), Pow(Pow(d, x), e), d, n);
    }
  }

  /** What the exchange does with the blinded message: raise it to its private exponent. */
  function Sign(blinded: seq<octet>, x: nat, n: nat): seq<octet>
    requires n > 0
  {
    ToArray(ModPow(LoadBigInt(blinded), x, n))
  }

  /** x undoes e on the blinding factor and e undoes x on the hashed message. */
  ghost predicate Inverts(x: nat, k: RsaPub, r: nat, d: nat)
    requires k.N > 0
  {
    && Congruent(Pow(Pow(r, k.e), x), r, k.N)
    && Congruent(Pow(Pow(d, x), k.e), d, k.N)
  }

  /** (r^e * d)^x is r * d^x. */
  lemma SignedBlindedMessage(k: RsaPub, x: nat, r: nat, d: nat)
    requires k.N > 0 && Inverts(x, k, r, d)
    ensures Congruent(Pow((ModPow(r, k.e, k.N) * d) % k.N, x), r * Pow(d, x), k.N)
  {
    var n := k.N;
    var b := Pow(r, k.e);
    CongruentMod(b, b, n);
    CongruentMod(d, d, n);
    CongruentMul(ModPow(r, k.e, n), b, d, d, n);
    var m := ModPow(r, k.e, n) * d;
    CongruentMod(m, m, n);
    CongruentTrans(m % n, m, b * d, n);
    PowCongruent(m % n, b * d, x, n);
    PowOfProduct(b, d, x);
    CongruentMod(Pow(d, x), Pow(d, x), n);
    CongruentMul(Pow(b, x), r, Pow(d, x), Pow(d, x), n);
    CongruentTrans(Pow(m % n, x), Pow(b, x) * Pow(d, x), r * Pow(d, x), n);
  }

  /** Multiplying by the inverse of r leaves d^x. */
  lemma RemoveBlinding(s: nat, r: nat, r_inv: nat, t: nat, n: nat)
    requires n > 0 && Congruent(s, r * t, n) && Congruent(r * r_inv, 1, n)
    ensures (s * r_inv) % n == t % n
  {
    CongruentMod(r_inv, r_inv, n);
    CongruentMul(s, r * t, r_inv, r_inv, n);
    CongruentMod(t, t, n);
    CongruentMul(r * r_inv, 1, t, t, n);
    assert (r * t) * r_inv == (r * r_inv) * t by { Swap(r, t, r_inv); }
    CongruentTrans(s * r_inv, (r * r_inv) * t, t, n);
    CongruentMod(s * r_inv, t, n);
  }

  lemma Swap(a: nat, b: nat, c: nat)
    ensures (a * b) * c == (a * c) * b
  {
    assert (a * b) * c == a * (b * c);
    assert (a * c) * b == a * (c * b);
  }

  /** Blinding, signing and unblinding gives the plain signature of the message, whatever the
      blinding key, provided the blinding factor is coprime to the modulus. */
  lemma UnblindGivesSignature(s: Scheme, k: RsaPub, pub: seq<octet>, hm: seq<octet>, bks: seq<octet>, x: nat)
    requires RsaPubDecode(pub) == Success(k) && k.N > 0
    requires s.FullDomainHash(hm, k).Success?
    requires var r := s.BlindingKeyDerive(k, bks);
             r.Some? && Gcd(r.value, k.N) == 1 && Inverts(x, k, r.value, s.FullDomainHash(hm, k).value)
    ensures s.RsaBlind(hm, bks, pub).Success?
    ensures var signed := Sign(s.RsaBlind(hm, bks, pub).value, x, k.N);
            s.RsaUnblind(signed, pub, bks) == Success(ToArray(ModPow(s.FullDomainHash(hm, k).value, x, k.N)))
  {
    var n := k.N;
    var d := s.FullDomainHash(hm, k).value;
    var r := s.BlindingKeyDerive(k, bks).value;
    var bm := (ModPow(r, k.e, n) * d) % n;
    LoadOfToArray(bm);
    SignedBlindedMessage(k, x, r, d);
    var sig := ModPow(bm, x, n);
    LoadOfToArray(sig);
    CongruentMod(Pow(bm, x), Pow(bm, x), n);
    CongruentTrans(sig, Pow(bm, x), r * Pow(d, x), n);
    ModInvInverts(r, n);
    RemoveBlinding(sig, r, ModInv(r, n).value, Pow(d, x), n);
  }

  /** The unblinded signature verifies. */
  lemma BlindSignatureVerifies(s: Scheme, k: RsaPub, pub: seq<octet>, hm: seq<octet>, bks: seq<octet>, x: nat)
    requires RsaPubDecode(pub) == Success(k) && k.N > 0
    requires s.FullDomainHash(hm, k).Success?
    requires var r := s.BlindingKeyDerive(k, bks);
             r.Some? && Gcd(r.value, k.N) == 1 && Inverts(x, k, r.value, s.FullDomainHash(hm, k).value)
    ensures var blinded := s.RsaBlind(hm, bks, pub);
            && blinded.Success?
            && var unblinded := s.RsaUnblind(Sign(blinded.value, x, k.N), pub, bks);
            && unblinded.Success?
            && s.RsaVerify(hm, unblinded.value, pub) == Success(true)
  {
    UnblindGivesSignature(s, k, pub, hm, bks, x);
    var d := s.FullDomainHash(hm, k).value;
    var t := Pow(d, x);
    LoadOfToArray(ModPow(d, x, k.N));
    CongruentMod(t, t, k.N);
    PowCongruent(t % k.N, t, k.e, k.N);
    CongruentTrans(Pow(t % k.N, k.e), Pow(t, k.e), d, k.N);
    CongruentMod(Pow(t % k.N, k.e), d, k.N);
    SmallMod(d, k.N);
  }

  lemma SmallMod(d: nat, n: nat)
    requires d < n
    ensures d % n == d
  {
  }
}

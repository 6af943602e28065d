// Amounts as strings such as "EUR:20.5" (src/util/amounts.ts, parse and stringify).
module AmountStrings {
  import opened Wrappers
  import opened Amounts

  const DIGITS := "0123456789"

  predicate IsDigit(c: char) {
    '0' <= c <= '9'
  }

  function DigitValue(c: char): (d: nat)
    requires IsDigit(c)
    ensures d < 10 && DIGITS[d] == c
  {
    c as int - '0' as int
  }

  predicate AllDigits(s: string) {
    forall i | 0 <= i < |s| :: IsDigit(s[i])
  }

  predicate IsCurrencyChar(c: char) {
    'a' <= c <= 'z' || 'A' <= c <= 'Z' || IsDigit(c) || c == '_' || c == '*' || c == '-'
  }

  predicate IsCurrency(s: string) {
    s != "" && forall i | 0 <= i < |s| :: IsCurrencyChar(s[i])
  }

  /** The decimal digits of a whole number, as toString prints them. */
  function Decimal(n: nat): (s: string)
    ensures s != "" && AllDigits(s)
  {
    if n < 10 then [DIGITS[n]] else Decimal(n / 10) + [DIGITS[n % 10]]
  }

  /** parseInt of a digit string. */
  function WholeValue(s: string): nat
    requires AllDigits(s)
  {
    if s == "" then 0 else 10 * WholeValue(s[..|s| - 1]) + DigitValue(s[|s| - 1])
  }

  lemma {:induction false} WholeValueOfDecimal(n: nat)
    ensures WholeValue(Decimal(n)) == n
  {
    if n >= 10 {
      WholeValueOfDecimal(n / 10);
      assert Decimal(n)[..|Decimal(n)| - 1] == Decimal(n / 10);
    } else {
      assert Decimal(n)[..0] == "";
    }
  }

  function Pow10(k: nat): (p: nat)
    ensures p > 0
  {
    if k == 0 then 1 else 10 * Pow10(k - 1)
  }

  /** The digits after the point as a number of units of 1/10^k: digit i counts 10^(k - 1 - i). */
  function FractionValue(s: string, k: nat): nat
    requires AllDigits(s) && |s| <= k
  {
    if s == "" then 0 else DigitValue(s[0]) * Pow10(k - 1) + FractionValue(s[1..], k - 1)
  }

  /** The digits that the printing loop produces for the fraction n in at most k rounds. */
  function FractionDigits(n: nat, k: nat): (s: string)
    requires n < FRACTIONAL_BASE
    ensures AllDigits(s) && |s| <= k
    ensures n != 0 && k != 0 ==> s != ""
    decreases k
  {
    if n == 0 || k == 0 then ""
    else [DIGITS[n * 10 / FRACTIONAL_BASE]] + FractionDigits(n * 10 % FRACTIONAL_BASE, k - 1)
  }

  /** Reading the printed digits back gives the fraction, if the rounds left suffice for it. */
  lemma {:induction false} FractionValueOfDigits(n: nat, k: nat, m: nat)
    requires n < FRACTIONAL_BASE && k <= FRACTIONAL_LENGTH
    requires n == m * Pow10(FRACTIONAL_LENGTH - k)
    ensures FractionValue(FractionDigits(n, k), k) == m
    decreases k
  {
    var p := Pow10(FRACTIONAL_LENGTH - k);
    if n == 0 {
      assert FractionDigits(n, k) == "";
      FactorIsZero(m, p);
    } else if k == 0 {
      PowersOfTen();
      assert m == 0;
    } else {
      var d, n' := n * 10 / FRACTIONAL_BASE, n * 10 % FRACTIONAL_BASE;
      var m' := m - d * Pow10(k - 1);
      TensMeet(k);
      NextRound(n, d, n', m, Pow10(k - 1), p);
      FractionValueOfDigits(n', k - 1, m');
      var s := FractionDigits(n, k);
      assert s[0] == DIGITS[d] && s[1..] == FractionDigits(n', k - 1);
    }
  }

  lemma FactorIsZero(m: nat, p: nat)
    requires m * p == 0 && p > 0
    ensures m == 0
  {
  }

  /** Taking one digit d off the front of n = m * p leaves (m - d * q) * 10 * p. */
  lemma NextRound(n: nat, d: nat, n': nat, m: nat, q: nat, p: nat)
    requires n == m * p && n * 10 == d * FRACTIONAL_BASE + n' && n' < FRACTIONAL_BASE
    requires q * p * 10 == FRACTIONAL_BASE && p > 0
    ensures m - d * q >= 0
    ensures n' == (m - d * q) * (10 * p)
  {
    assert n' == (m - d * q) * (10 * p) by {
      assert d * FRACTIONAL_BASE == d * q * (10 * p) by {
        assert d * (q * p * 10) == d * q * (10 * p);
      }
      assert n * 10 == m * (10 * p);
      Distribute(m, d * q, 10 * p);
    }
    NonNegativeFactor(m - d * q, 10 * p);
  }

  lemma Distribute(a: int, b: int, c: int)
    ensures (a - b) * c == a * c - b * c
  {
  }

  lemma NonNegativeFactor(x: int, p: nat)
    requires p > 0 && x * p >= 0
    ensures x >= 0
  {
  }

  lemma PowersOfTen()
    ensures Pow10(0) == 1 && Pow10(1) == 10 && Pow10(2) == 100 && Pow10(3) == 1000 && Pow10(4) == 10000
    ensures Pow10(5) == 100000 && Pow10(6) == 1000000 && Pow10(7) == 10000000 && Pow10(8) == FRACTIONAL_BASE
  {
    assert Pow10(2) == 10 * Pow10(1);
    assert Pow10(4) == 10 * Pow10(3);
    assert Pow10(6) == 10 * Pow10(5);
    assert Pow10(8) == 10 * Pow10(7);
  }

  lemma TensMeet(k: nat)
    requires 0 < k <= FRACTIONAL_LENGTH
    ensures Pow10(k - 1) * Pow10(FRACTIONAL_LENGTH - k) * 10 == FRACTIONAL_BASE
  {
    PowersOfTen();
  }

  /** The string form of an amount; fractions of a whole unit or more are carried over. */
  method Stringify(a: Amount) returns (s: string)
    ensures s == StringOf(a)
  {
    var av := a.value + a.fraction / FRACTIONAL_BASE;
    var af: nat := a.fraction % FRACTIONAL_BASE;
    s := Decimal(av);
    if af != 0 {
      s := s + ".";
      var fraction := StringifyFraction(af);
      s := s + fraction;
    }
    s := a.currency + ":" + s;
  }

  method StringifyFraction(fraction: nat) returns (s: string)
    requires fraction < FRACTIONAL_BASE
    ensures s == FractionDigits(fraction, FRACTIONAL_LENGTH)
  {
    s := "";
    var n: nat := fraction;
    var i: nat := 0;
    while i < FRACTIONAL_LENGTH && n != 0
      invariant i <= FRACTIONAL_LENGTH && n < FRACTIONAL_BASE
      invariant s + FractionDigits(n, FRACTIONAL_LENGTH - i) == FractionDigits(fraction, FRACTIONAL_LENGTH)
    {
      var d := [DIGITS[n * 10 / FRACTIONAL_BASE]];
      Reassociate(s, d, FractionDigits(n * 10 % FRACTIONAL_BASE, FRACTIONAL_LENGTH - i - 1));
      s := s + d;
      n := n * 10 % FRACTIONAL_BASE;
      i := i + 1;
    }
    assert s + "" == s;
  }

  lemma Reassociate(a: string, b: string, c: string)
    ensures a + (b + c) == (a + b) + c
  {
  }

  function StringOf(a: Amount): string {
    a.currency + [':'] + NumberOf(a.value + a.fraction / FRACTIONAL_BASE, a.fraction % FRACTIONAL_BASE)
  }

  function NumberOf(value: nat, fraction: nat): string
    requires fraction < FRACTIONAL_BASE
  {
    if fraction == 0 then Decimal(value) else Decimal(value) + ['.'] + FractionDigits(fraction, FRACTIONAL_LENGTH)
  }

  function IndexOf(s: string, c: char): (i: Option<nat>)
    ensures i.None? ==> c !in s
    ensures i.Some? ==> i.value < |s| && s[i.value] == c && c !in s[..i.value]
  {
    if s == "" then None
    else if s[0] == c then Some(0)
    else
      match IndexOf(s[1..], c)
      case None => None
      case Some(i) =>
        assert s[..i + 1] == [s[0]] + s[1..][..i];
        Some(i + 1)
  }

  /** Reads a string of the form currency ":" digits ["." digits].  None when the string has
      another form, more than 8 digits after the point, or a value above the maximum. */
  function Parse(s: string): Option<Amount> {
    match IndexOf(s, ':')
    case None => None
    case Some(colon) =>
      if IsCurrency(s[..colon]) then ParseNumber(s[..colon], s[colon + 1..]) else None
  }

  function ParseNumber(currency: string, number: string): Option<Amount> {
    match IndexOf(number, '.')
    case None => ParseParts(currency, number, "0")
    case Some(point) => ParseParts(currency, number[..point], number[point + 1..])
  }

  function ParseParts(currency: string, whole: string, tail: string): (a: Option<Amount>) {
    if whole == "" || !AllDigits(whole) || tail == "" || !AllDigits(tail) then
      None
    else if |tail| > FRACTIONAL_LENGTH || WholeValue(whole) > MAX_AMOUNT_VALUE then
      None
    else
      Some(Amount(currency, WholeValue(whole), FractionValue(tail, FRACTIONAL_LENGTH)))
  }

  lemma {:induction false} IndexOfFirst(a: string, c: char, b: string)
    requires c !in a
    ensures IndexOf(a + [c] + b, c) == Some(|a|)
  {
    var s := a + [c] + b;
    assert s[|a|] == c && c in s;
    var i := IndexOf(s, c).value;
    assert forall j | 0 <= j < |a| :: s[j] == a[j];
    assert forall j | 0 <= j < i :: s[..i][j] == s[j];
  }

  lemma NoneInside(s: string, c: char)
    requires c !in s
    ensures IndexOf(s, c) == None
  {
  }

  /** Printing an amount and reading it back gives the amount, for every normalized in-range
      amount whose currency the pattern admits. */
  lemma ParseOfStringify(a: Amount)
    requires InRange(a) && IsCurrency(a.currency)
    ensures Parse(StringOf(a)) == Some(a)
  {
    assert a.value + a.fraction / FRACTIONAL_BASE == a.value && a.fraction % FRACTIONAL_BASE == a.fraction;
    var number := NumberOf(a.value, a.fraction);
    ParsePrefix(a.currency, number);
    assert StringOf(a) == a.currency + [':'] + number;
    ParseNumberOfNumber(a.currency, a.value, a.fraction);
    ParsePartsOfDigits(a);
  }

  lemma ParseNumberOfNumber(currency: string, value: nat, fraction: nat)
    requires fraction < FRACTIONAL_BASE
    ensures ParseNumber(currency, NumberOf(value, fraction)) ==
            ParseParts(currency, Decimal(value), if fraction == 0 then "0"
                else FractionDigits(fraction, FRACTIONAL_LENGTH))
  {
    if fraction == 0 {
      NoneInside(Decimal(value), '.');
    } else {
      ParseSplit(currency, Decimal(value), FractionDigits(fraction, FRACTIONAL_LENGTH));
    }
  }

  lemma ParsePartsOfDigits(a: Amount)
    requires InRange(a)
    ensures var tail := if a.fraction == 0 then "0" else FractionDigits(a.fraction, FRACTIONAL_LENGTH);
            ParseParts(a.currency, Decimal(a.value), tail) == Some(a)
  {
    WholeValueOfDecimal(a.value);
    if a.fraction == 0 {
      assert "0"[1..] == "";
      assert FractionValue("0", FRACTIONAL_LENGTH) == 0;
    } else {
      assert Pow10(0) == 1;
      FractionValueOfDigits(a.fraction, FRACTIONAL_LENGTH, a.fraction);
    }
  }

  lemma ParsePrefix(currency: string, number: string)
    requires IsCurrency(currency)
    ensures Parse(currency + [':'] + number) == ParseNumber(currency, number)
  {
    var s := currency + [':'] + number;
    assert ':' !in currency;
    IndexOfFirst(currency, ':', number);
    assert s[..|currency|] == currency && s[|currency| + 1..] == number;
  }

  lemma ParseSplit(currency: string, whole: string, digits: string)
    requires AllDigits(whole)
    ensures ParseNumber(currency, whole + ['.'] + digits) == ParseParts(currency, whole, digits)
  {
    var number := whole + ['.'] + digits;
    IndexOfFirst(whole, '.', digits);
    assert number[..|whole|] == whole && number[|whole| + 1..] == digits;
  }

  /** The string with the three parts; without digits after the point there is no point either. */
  function Written(currency: string, whole: string, tail: string): string {
    currency + [':'] + whole + if tail == "" then "" else ['.'] + tail
  }

  /** Digits before the point and, if there are any, behind it. */
  predicate IsWritten(currency: string, whole: string, tail: string) {
    IsCurrency(currency) && whole != "" && AllDigits(whole) && AllDigits(tail)
  }

  /** A string of the form is accepted exactly if it has at most 8 digits behind the point and the whole
      number is not too large; it then denotes that number and the digits filled up to 8. */
  lemma WrittenIsAcceptedIff(currency: string, whole: string, tail: string)
    requires IsWritten(currency, whole, tail)
    ensures Parse(Written(currency, whole, tail)) ==
            if |tail| <= FRACTIONAL_LENGTH && WholeValue(whole) <= MAX_AMOUNT_VALUE
            then Some(Amount(currency, WholeValue(whole), WholeValue(tail) * Pow10(FRACTIONAL_LENGTH - |tail|)))
            else None
  {
    var number := whole + if tail == "" then "" else ['.'] + tail;
    WrittenAgain(currency, number, whole, tail);
    ParsePrefix(currency, number);
    PartsOfNumber(currency, whole, tail);
    PartsMeaning(currency, whole, tail);
    hide *;
  }

  lemma PartsOfNumber(currency: string, whole: string, tail: string)
    requires AllDigits(whole)
    ensures ParseNumber(currency, whole + if tail == "" then "" else ['.'] + tail) ==
            ParseParts(currency, whole, if tail == "" then "0" else tail)
  {
    if tail == "" {
      assert whole + "" == whole;
      NoneInside(whole, '.');
    } else {
      ParseSplit(currency, whole, tail);
      hide ParseNumber;
      assert whole + ['.'] + tail == whole + (['.'] + tail);
    }
  }

  lemma PartsMeaning(currency: string, whole: string, tail: string)
    requires whole != "" && AllDigits(whole) && AllDigits(tail)
    ensures ParseParts(currency, whole, if tail == "" then "0" else tail) ==
            if |tail| <= FRACTIONAL_LENGTH && WholeValue(whole) <= MAX_AMOUNT_VALUE
            then Some(Amount(currency, WholeValue(whole), WholeValue(tail) * Pow10(FRACTIONAL_LENGTH - |tail|)))
            else None
  {
    NothingBehindPoint();
    if |tail| <= FRACTIONAL_LENGTH {
      FractionIsWhole(tail, FRACTIONAL_LENGTH);
    }
    assert WholeValue("") == 0;
    hide WholeValue, FractionValue, Pow10;
  }

  lemma NothingBehindPoint()
    ensures AllDigits("0") && FractionValue("0", FRACTIONAL_LENGTH) == 0
  {
    assert "0"[1..] == "";
  }

  /** No other string is accepted. */
  lemma OnlyWrittenIsAccepted(s: string)
    requires Parse(s).Some?
    ensures exists currency, whole, tail :: IsWritten(currency, whole, tail) && s == Written(currency, whole, tail)
  {
    var colon := IndexOf(s, ':').value;
    var currency, number := s[..colon], s[colon + 1..];
    assert IsCurrency(currency) && ParseNumber(currency, number).Some?;
    assert s == currency + [':'] + number;
    hide Parse, IsCurrency, IndexOf, ParseNumber, AllDigits, Written;
    var whole, tail := AcceptedNumber(currency, number);
    assert IsWritten(currency, whole, tail);
    WrittenAgain(currency, number, whole, tail);
  }

  lemma AcceptedNumber(currency: string, number: string) returns (whole: string, tail: string)
    requires ParseNumber(currency, number).Some?
    ensures whole != "" && AllDigits(whole) && AllDigits(tail)
    ensures number == whole + if tail == "" then "" else ['.'] + tail
  {
    hide AllDigits;
    match IndexOf(number, '.')
    case None =>
      whole, tail := number, "";
      assert AllDigits("") by { NoDigits(); }
    case Some(point) =>
      whole, tail := number[..point], number[point + 1..];
      assert number == whole + (['.'] + tail);
  }

  lemma NoDigits()
    ensures AllDigits("")
  {
  }

  lemma WrittenAgain(currency: string, number: string, whole: string, tail: string)
    requires number == whole + if tail == "" then "" else ['.'] + tail
    ensures currency + [':'] + number == Written(currency, whole, tail)
  {
  }

  lemma {:induction false} WholeValueOfFirst(s: string)
    requires s != "" && AllDigits(s)
    ensures WholeValue(s) == DigitValue(s[0]) * Pow10(|s| - 1) + WholeValue(s[1..])
  {
    var n := |s| - 1;
    if n == 0 {
      assert s[..0] == "" && s[1..] == "";
    } else {
      WholeValueOfFirst(s[..n]);
      assert s[..n][1..] == s[1..][..n - 1];
      MoveTen(DigitValue(s[0]), Pow10(n - 1));
    }
  }

  lemma MoveTen(d: nat, p: nat)
    ensures 10 * (d * p) == d * (10 * p)
  {
  }

  lemma {:induction false} FractionIsWhole(s: string, k: nat)
    requires AllDigits(s) && |s| <= k
    ensures FractionValue(s, k) == WholeValue(s) * Pow10(k - |s|)
  {
    if s != "" {
      FractionIsWhole(s[1..], k - 1);
      WholeValueOfFirst(s);
      PowersMultiply(|s| - 1, k - |s|);
      SpreadOut(DigitValue(s[0]), Pow10(|s| - 1), WholeValue(s[1..]), Pow10(k - |s|));
    }
  }

  lemma {:induction false} PowersMultiply(a: nat, b: nat)
    ensures Pow10(a + b) == Pow10(a) * Pow10(b)
  {
    if a > 0 {
      PowersMultiply(a - 1, b);
      MoveTen(Pow10(a - 1), Pow10(b));
      assert Pow10(a) * Pow10(b) == 10 * (Pow10(a - 1) * Pow10(b));
    }
  }

  lemma SpreadOut(d: nat, p: nat, w: nat, q: nat)
    ensures (d * p + w) * q == d * (p * q) + w * q
  {
    assert (d * p + w) * q == (d * p) * q + w * q;
    assert (d * p) * q == d * (p * q);
  }

  /** Two amounts as they are written and read. */
  lemma WrittenAmounts()
    ensures StringOf(Amount("EUR", 20, 50000000)) == "EUR:20.5"
    ensures Parse("EUR:20.5") == Some(Amount("EUR", 20, 50000000))
    ensures StringOf(Amount("KUDOS", 7, 0)) == "KUDOS:7"
    ensures Parse("KUDOS:7") == Some(Amount("KUDOS", 7, 0))
  {
    DigitsOfTwenty();
    hide Parse, Decimal, FractionDigits;
    assert "EUR" + [':'] + ("20" + ['.'] + "5") == "EUR:20.5";
    assert "KUDOS" + [':'] + "7" == "KUDOS:7";
    ParseOfStringify(Amount("EUR", 20, 50000000));
    ParseOfStringify(Amount("KUDOS", 7, 0));
  }

  lemma DigitsOfTwenty()
    ensures Decimal(20) == "20" && Decimal(7) == "7" && FractionDigits(50000000, FRACTIONAL_LENGTH) == "5"
  {
    assert Decimal(2) == "2";
    assert FractionDigits(0, 7) == "";
  }

  lemma {:induction false} FractionValueBound(s: string, k: nat)
    requires AllDigits(s) && |s| <= k
    ensures FractionValue(s, k) < Pow10(k)
  {
    if s != "" {
      FractionValueBound(s[1..], k - 1);
    }
  }

  /** Every string that is accepted denotes a normalized in-range amount, and its canonical form
      is accepted with the same meaning. */
  lemma StringifyOfParse(s: string)
    requires Parse(s).Some?
    ensures var a := Parse(s).value; InRange(a) && IsCurrency(a.currency) && Parse(StringOf(a)) == Some(a)
  {
    var number := s[IndexOf(s, ':').value + 1..];
    var point := IndexOf(number, '.');
    FractionValueBound(if point.Some? then number[point.value + 1..] else "0", FRACTIONAL_LENGTH);
    PowersOfTen();
    ParseOfStringify(Parse(s).value);
  }
}

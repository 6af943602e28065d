// Amounts of money (src/util/amounts.ts).
//
// An amount is a whole value and a fraction counted in 1/10^8 units.  The theorems of this
// module say that the amount operations are clamped arithmetic on the combined integer
// Units(a) == value * 10^8 + fraction, so that the other modules may compute with Money.
module Amounts {
  import opened Wrappers
  import opened Division

  const FRACTIONAL_BASE: nat := 1_0000_0000
  const FRACTIONAL_LENGTH: nat := 8
  const MAX_AMOUNT_VALUE: nat := 0x10_0000_0000_0000
  const MAX_UNITS: nat := MAX_AMOUNT_VALUE * FRACTIONAL_BASE + (FRACTIONAL_BASE - 1)

  datatype Amount = Amount(currency: string, value: nat, fraction: nat)

  datatype Saturating = Saturating(amount: Amount, saturated: bool)

  /** The outcome of a subtraction; its fraction is negative if a subtrahend was not normalized. */
  datatype Difference = Difference(value: nat, fraction: int, saturated: bool)

  datatype AmountError = MismatchedCurrency | DivisionByZero | NothingToSum

  function Units(a: Amount): nat {
    a.value * FRACTIONAL_BASE + a.fraction
  }

  function FromUnits(currency: string, n: nat): Amount {
    Amount(currency, n / FRACTIONAL_BASE, n % FRACTIONAL_BASE)
  }

  predicate Normalized(a: Amount) {
    a.fraction < FRACTIONAL_BASE
  }

  predicate InRange(a: Amount) {
    Normalized(a) && a.value <= MAX_AMOUNT_VALUE
  }

  predicate SameCurrency(currency: string, rest: seq<Amount>) {
    forall i | 0 <= i < |rest| :: rest[i].currency == currency
  }

  function TotalUnits(amounts: seq<Amount>): nat {
    if amounts == [] then 0 else TotalUnits(amounts[..|amounts| - 1]) + Units(amounts[|amounts| - 1])
  }

  /** The amount of n units, saturated at the largest amount. */
  function ClampedAbove(currency: string, n: nat): Saturating {
    if n > MAX_UNITS then
      Saturating(Amount(currency, MAX_AMOUNT_VALUE, FRACTIONAL_BASE - 1), true)
    else
      Saturating(FromUnits(currency, n), false)
  }

  predicate IsZero(a: Amount) {
    a.value == 0 && a.fraction == 0
  }

  /** How many amounts come before the first one in another currency. */
  function SameCurrencyCount(currency: string, rest: seq<Amount>): (i: nat)
    ensures i <= |rest| && SameCurrency(currency, rest[..i])
    ensures i < |rest| ==> rest[i].currency != currency
  {
    if rest == [] || rest[0].currency != currency then 0
    else
      var i := SameCurrencyCount(currency, rest[1..]);
      assert forall j | 0 <= j <= i :: rest[j] == if j == 0 then rest[0] else rest[1..][..i][j - 1];
      i + 1
  }

  lemma TotalUnitsStep(rest: seq<Amount>, i: nat)
    requires i < |rest|
    ensures TotalUnits(rest[..i + 1]) == TotalUnits(rest[..i]) + Units(rest[i])
  {
    assert rest[..i + 1][..i] == rest[..i];
  }

  lemma TotalUnitsMonotone(rest: seq<Amount>, i: nat)
    requires i <= |rest|
    ensures TotalUnits(rest[..i]) <= TotalUnits(rest)
    decreases |rest| - i
  {
    if i < |rest| {
      TotalUnitsStep(rest, i);
      TotalUnitsMonotone(rest, i + 1);
    } else {
      assert rest[..i] == rest;
    }
  }

  lemma {:induction false} FromUnitsInverse(a: Amount, n: nat)
    ensures Units(FromUnits(a.currency, n)) == n && Normalized(FromUnits(a.currency, n))
    ensures Normalized(a) ==> FromUnits(a.currency, Units(a)) == a
    ensures InRange(a) <==> Normalized(a) && Units(a) <= MAX_UNITS
  {
  }

  /** Adding is exact below the maximum amount and saturates there; a mismatched currency is
      noticed unless the amounts before it have already saturated. */
  method Add(first: Amount, rest: seq<Amount>) returns (r: Result<Saturating, AmountError>)
    ensures var n := SameCurrencyCount(first.currency, rest);
            var total := Units(first) + TotalUnits(rest[..n]);
            r == if n == |rest| || total > MAX_UNITS then Success(ClampedAbove(first.currency, total))
                 else Failure(MismatchedCurrency)
  {
    ghost var n := SameCurrencyCount(first.currency, rest);
    TotalUnitsMonotone(rest[..n], 0);
    var currency := first.currency;
    var value: nat := first.value + first.fraction / FRACTIONAL_BASE;
    if value > MAX_AMOUNT_VALUE {
      return Success(Saturating(Amount(currency, MAX_AMOUNT_VALUE, FRACTIONAL_BASE - 1), true));
    }
    var fraction: nat := first.fraction % FRACTIONAL_BASE;
    for i := 0 to |rest|
      invariant fraction < FRACTIONAL_BASE && value <= MAX_AMOUNT_VALUE
      invariant value * FRACTIONAL_BASE + fraction == Units(first) + TotalUnits(rest[..i])
      invariant i <= n
    {
      var x := rest[i];
      TotalUnitsStep(rest, i);
      if x.currency != currency {
        assert i == n by { NotBeforeMismatch(currency, rest, i); }
        return Failure(MismatchedCurrency);
      }
      value := value + x.value + (fraction + x.fraction) / FRACTIONAL_BASE;
      fraction := (fraction + x.fraction) % FRACTIONAL_BASE;
      if value > MAX_AMOUNT_VALUE {
        TotalUnitsGrow(rest, i + 1, n);
        return Success(Saturating(Amount(currency, MAX_AMOUNT_VALUE, FRACTIONAL_BASE - 1), true));
      }
    }
    return Success(Saturating(Amount(currency, value, fraction), false));
  }

  lemma NotBeforeMismatch(currency: string, rest: seq<Amount>, i: nat)
    requires i < |rest| && rest[i].currency != currency
    ensures SameCurrencyCount(currency, rest) <= i
  {
    var n := SameCurrencyCount(currency, rest);
    assert forall j | 0 <= j < n :: rest[..n][j] == rest[j];
  }

  lemma TotalUnitsGrow(rest: seq<Amount>, i: nat, n: nat)
    requires i <= n <= |rest|
    ensures TotalUnits(rest[..i]) <= TotalUnits(rest[..n])
  {
    assert rest[..n][..i] == rest[..i];
    TotalUnitsMonotone(rest[..n], i);
  }

  lemma AllSameCurrency(currency: string, rest: seq<Amount>)
    requires SameCurrency(currency, rest)
    ensures SameCurrencyCount(currency, rest) == |rest| && rest[..|rest|] == rest
  {
  }

  /** Summing a non-empty list is adding its tail to its head. */
  method Sum(amounts: seq<Amount>) returns (r: Result<Saturating, AmountError>)
    ensures amounts == [] <==> r == Failure(NothingToSum)
    ensures amounts != [] ==>
              var n := SameCurrencyCount(amounts[0].currency, amounts);
              var total := TotalUnits(amounts[..n]);
              r == if n == |amounts| || total > MAX_UNITS then Success(ClampedAbove(amounts[0].currency, total))
                   else Failure(MismatchedCurrency)
  {
    if amounts == [] {
      return Failure(NothingToSum);
    }
    r := Add(amounts[0], amounts[1..]);
    var currency := amounts[0].currency;
    var n := SameCurrencyCount(currency, amounts);
    TotalUnitsHead(amounts[..n]);
    assert amounts[..n][1..] == amounts[1..][..n - 1];
  }

  lemma {:induction false} TotalUnitsHead(amounts: seq<Amount>)
    requires amounts != []
    ensures TotalUnits(amounts) == Units(amounts[0]) + TotalUnits(amounts[1..])
  {
    if |amounts| > 1 {
      var init := amounts[..|amounts| - 1];
      TotalUnitsHead(init);
      assert init[1..] == amounts[1..][..|amounts| - 2];
    } else {
      assert amounts[..0] == [] && amounts[1..] == [];
    }
  }

  /** One subtraction with a borrow; None when the whole units do not suffice. */
  function SubStep(value: nat, fraction: int, b: Amount): (r: Option<(nat, int)>)
    ensures r.Some? <==> b.value + Borrow(fraction, b) <= value
    ensures r.Some? ==> r.value.0 * FRACTIONAL_BASE + r.value.1 == value * FRACTIONAL_BASE + fraction - Units(b)
    ensures 0 <= fraction < FRACTIONAL_BASE && Normalized(b) ==>
              var d := value * FRACTIONAL_BASE + fraction - Units(b);
              r == if d < 0 then None else Some((d / FRACTIONAL_BASE, d % FRACTIONAL_BASE))
  {
    if fraction < b.fraction && value < 1 then
      None
    else
      var value' := if fraction < b.fraction then value - 1 else value;
      var fraction' := (if fraction < b.fraction then fraction + FRACTIONAL_BASE else fraction) - b.fraction;
      if value' < b.value then None else Some((value' - b.value, fraction'))
  }

  /** One whole unit, if the fraction is smaller than the one to be taken away. */
  function Borrow(fraction: int, b: Amount): nat {
    if fraction < b.fraction then 1 else 0
  }

  function RawSub(currency: string, value: nat, fraction: int, rest: seq<Amount>): Result<Difference, AmountError> {
    if rest == [] then Success(Difference(value, fraction, false))
    else if rest[0].currency != currency then Failure(MismatchedCurrency)
    else
      var step := SubStep(value, fraction, rest[0]);
      if step.None? then Success(Difference(0, 0, true))
      else RawSub(currency, step.value.0, step.value.1, rest[1..])
  }

  function ClampedDifference(n: int): Difference {
    if n < 0 then Difference(0, 0, true) else Difference(n / FRACTIONAL_BASE, n % FRACTIONAL_BASE, false)
  }

  predicate AllNormalized(amounts: seq<Amount>) {
    forall i | 0 <= i < |amounts| :: Normalized(amounts[i])
  }

  /** Subtracting normalized amounts is exact above zero and saturates there. */
  method Sub(a: Amount, rest: seq<Amount>) returns (r: Result<Difference, AmountError>)
    ensures r == RawSub(a.currency, a.value, a.fraction, rest)
    ensures Normalized(a) && AllNormalized(rest) ==>
              var n := SameCurrencyCount(a.currency, rest);
              var difference := Units(a) - TotalUnits(rest[..n]);
              r == if n == |rest| || difference < 0 then Success(ClampedDifference(difference))
                   else Failure(MismatchedCurrency)
  {
    var currency := a.currency;
    var value: nat := a.value;
    var fraction: int := a.fraction;
    if Normalized(a) && AllNormalized(rest) {
      SubOfNormalized(currency, value, fraction, rest);
    }
    for i := 0 to |rest|
      invariant RawSub(a.currency, a.value, a.fraction, rest) == RawSub(currency, value, fraction, rest[i..])
    {
      var b := rest[i];
      assert rest[i..][1..] == rest[i + 1..];
      if b.currency != currency {
        return Failure(MismatchedCurrency);
      }
      ghost var step := SubStep(value, fraction, b);
      if fraction < b.fraction {
        if value < 1 {
          return Success(Difference(0, 0, true));
        }
        value := value - 1;
        fraction := fraction + FRACTIONAL_BASE;
      }
      fraction := fraction - b.fraction;
      if value < b.value {
        return Success(Difference(0, 0, true));
      }
      value := value - b.value;
      assert step == Some((value, fraction));
    }
    return Success(Difference(value, fraction, false));
  }

  lemma {:induction false} SubOfNormalized(currency: string, value: nat, fraction: nat, rest: seq<Amount>)
    requires fraction < FRACTIONAL_BASE && AllNormalized(rest)
    ensures var n := SameCurrencyCount(currency, rest);
            var difference := value * FRACTIONAL_BASE + fraction - TotalUnits(rest[..n]);
            RawSub(currency, value, fraction, rest) ==
            if n == |rest| || difference < 0 then Success(ClampedDifference(difference))
                else Failure(MismatchedCurrency)
  {
    var n := SameCurrencyCount(currency, rest);
    if n > 0 {
      TotalUnitsHead(rest[..n]);
      assert rest[..n][1..] == rest[1..][..n - 1];
      SameCurrencyTail(currency, rest);
      var step := SubStep(value, fraction, rest[0]);
      if step.Some? {
        SubOfNormalized(currency, step.value.0, step.value.1, rest[1..]);
      }
    }
  }

  lemma SameCurrencyTail(currency: string, rest: seq<Amount>)
    requires SameCurrencyCount(currency, rest) > 0
    ensures SameCurrencyCount(currency, rest[1..]) == SameCurrencyCount(currency, rest) - 1
    ensures rest != [] && rest[0].currency == currency
  {
  }

  /** At every step the whole units suffice for the subtrahend's and the borrow. */
  predicate WholeUnitsSuffice(value: nat, fraction: int, rest: seq<Amount>) {
    rest != [] ==>
      && rest[0].value + Borrow(fraction, rest[0]) <= value
      && var step := SubStep(value, fraction, rest[0]).value;
         WholeUnitsSuffice(step.0, step.1, rest[1..])
  }

  /** The subtraction saturates if the difference is negative, and is exact otherwise. */
  predicate RightDifference(d: Difference, exact: int) {
    if exact < 0 then d.saturated else !d.saturated && d.value * FRACTIONAL_BASE + d.fraction == exact
  }

  /** For all amounts of one currency, normalized or not, subtraction is right exactly when the whole
      units suffice at every step if and only if the units do in total. */
  lemma SubIsRightIff(a: Amount, rest: seq<Amount>)
    requires SameCurrency(a.currency, rest)
    ensures RawSub(a.currency, a.value, a.fraction, rest).Success?
    ensures RightDifference(RawSub(a.currency, a.value, a.fraction, rest).value, Units(a) - TotalUnits(rest)) <==>
            (WholeUnitsSuffice(a.value, a.fraction, rest) <==> TotalUnits(rest) <= Units(a))
  {
    RawSubSaturates(a.currency, a.value, a.fraction, rest);
  }

  lemma {:induction false} RawSubSaturates(currency: string, value: nat, fraction: int, rest: seq<Amount>)
    requires SameCurrency(currency, rest)
    ensures var r := RawSub(currency, value, fraction, rest);
            && r.Success?
            && (r.value.saturated <==> !WholeUnitsSuffice(value, fraction, rest))
            && (!r.value.saturated ==>
                  r.value.value * FRACTIONAL_BASE + r.value.fraction
                      == value * FRACTIONAL_BASE + fraction - TotalUnits(rest))
  {
    if rest != [] {
      TotalUnitsHead(rest);
      var step := SubStep(value, fraction, rest[0]);
      if step.Some? {
        RawSubSaturates(currency, step.value.0, step.value.1, rest[1..]);
      }
    }
  }

  /** 0 whole units and 2 * 10^8 fractions are worth 2 units, yet taking 1 unit away saturates. */
  lemma SubOfUnnormalizedFails()
    ensures var a, b := Amount("EUR", 0, 2 * FRACTIONAL_BASE), Amount("EUR", 1, 0);
            Units(a) > Units(b) && RawSub("EUR", a.value, a.fraction, [b]) == Success(Difference(0, 0, true))
  {
  }

  /** 1 unit is less than 3 * 10^8 fractions, yet the difference does not saturate but is negative. */
  lemma SubOfUnnormalizedGoesNegative()
    ensures var a, b := Amount("EUR", 1, 0), Amount("EUR", 0, 3 * FRACTIONAL_BASE);
            Units(a) < Units(b)
            && RawSub("EUR", a.value, a.fraction, [b]) == Success(Difference(0, -2 * FRACTIONAL_BASE, false))
  {
    var b := Amount("EUR", 0, 3 * FRACTIONAL_BASE);
    assert [b][1..] == [];
    assert RawSub("EUR", 0, -2 * FRACTIONAL_BASE, []) == Success(Difference(0, -2 * FRACTIONAL_BASE, false));
  }

  function Cmp(a: Amount, b: Amount): Result<int, AmountError> {
    if a.currency != b.currency then
      Failure(MismatchedCurrency)
    else
      var av := a.value + a.fraction / FRACTIONAL_BASE;
      var af := a.fraction % FRACTIONAL_BASE;
      var bv := b.value + b.fraction / FRACTIONAL_BASE;
      var bf := b.fraction % FRACTIONAL_BASE;
      Success(if av < bv then -1 else if av > bv then 1 else if af < bf then -1 else if af > bf then 1 else 0)
  }

  /** Comparing amounts compares their units, normalized or not. */
  lemma CmpComparesUnits(a: Amount, b: Amount)
    requires a.currency == b.currency
    ensures Cmp(a, b) == Success(if Units(a) < Units(b) then -1 else if Units(a) > Units(b) then 1 else 0)
  {
    var n, m := Units(a), Units(b);
    assert n == (a.value + a.fraction / FRACTIONAL_BASE) * FRACTIONAL_BASE + a.fraction % FRACTIONAL_BASE;
    assert m == (b.value + b.fraction / FRACTIONAL_BASE) * FRACTIONAL_BASE + b.fraction % FRACTIONAL_BASE;
  }

  function Divide(a: Amount, n: nat): Result<Amount, AmountError> {
    if n == 0 then
      Failure(DivisionByZero)
    else if n == 1 then
      Success(a)
    else
      var r := a.value % n;
      Success(Amount(a.currency, a.value / n, (r * FRACTIONAL_BASE + a.fraction) / n))
  }

  /** Division is floor division of the combined integer and keeps amounts normalized. */
  lemma DivideFloors(a: Amount, n: nat)
    requires n > 0
    ensures Divide(a, n).Success?
    ensures Units(Divide(a, n).value) == Units(a) / n
    ensures Normalized(a) ==> Divide(a, n).value == FromUnits(a.currency, Units(a) / n)
  {
    if n > 1 {
      var rest := (a.value % n) * FRACTIONAL_BASE + a.fraction;
      SplitValue(a.value, n, a.fraction);
      QuotientOfSum(n * ((a.value / n) * FRACTIONAL_BASE) + rest, n, (a.value / n) * FRACTIONAL_BASE, rest);
      if Normalized(a) {
        RemainderFits(a.value % n, n, a.fraction);
        QuotientBelow(rest, n, FRACTIONAL_BASE);
        FromUnitsInverse(Divide(a, n).value, Units(a) / n);
      }
    } else {
      FromUnitsInverse(a, Units(a));
    }
  }

  lemma SplitValue(v: nat, n: nat, f: nat)
    requires n > 0
    ensures v * FRACTIONAL_BASE + f == n * ((v / n) * FRACTIONAL_BASE) + ((v % n) * FRACTIONAL_BASE + f)
  {
    var q, r := v / n, v % n;
    assert v == n * q + r;
    assert (n * q) * FRACTIONAL_BASE == n * (q * FRACTIONAL_BASE);
  }

  lemma RemainderFits(r: nat, n: nat, f: nat)
    requires r < n && f < FRACTIONAL_BASE
    ensures r * FRACTIONAL_BASE + f < n * FRACTIONAL_BASE
  {
  }

  lemma QuotientBelow(x: nat, n: nat, m: nat)
    requires n > 0 && x < n * m
    ensures x / n < m
  {
    MulOrder(n, m, x / n);
    assert x == n * (x / n) + x % n;
  }

  /** What the other modules compute with: in-range amounts of one currency, as units. */
  type Money = n: nat | n <= MAX_UNITS

  function Plus(a: Money, b: Money): Money {
    if a + b > MAX_UNITS then MAX_UNITS else a + b
  }

  function Minus(a: Money, b: Money): Money {
    if a < b then 0 else a - b
  }

  predicate MinusSaturates(a: Money, b: Money) {
    a < b
  }

  /** Money and in-range amounts of a currency correspond one to one, and the correspondence
      turns two-operand Add, Sub, Cmp and IsZero into Plus, Minus, comparison and == 0. */
  method MoneyIsAmounts(a: Amount, b: Amount) returns (sum: Amount, difference: Amount, saturated: bool)
    requires InRange(a) && InRange(b) && a.currency == b.currency
    ensures InRange(sum) && Units(sum) == Plus(Units(a), Units(b)) && sum.currency == a.currency
    ensures InRange(difference) && Units(difference) == Minus(Units(a), Units(b)) && difference.currency == a.currency
    ensures saturated == MinusSaturates(Units(a), Units(b))
    ensures a == FromUnits(a.currency, Units(a))
    ensures IsZero(a) <==> Units(a) == 0
    ensures Cmp(a, b).value < 0 <==> Units(a) < Units(b)
    ensures Cmp(a, b).value == 0 <==> Units(a) == Units(b)
  {
    TotalUnitsStep([b], 0);
    AllSameCurrency(a.currency, [b]);
    var s := Add(a, [b]);
    sum := s.value.amount;
    var d := Sub(a, [b]);
    difference, saturated := Amount(a.currency, d.value.value, d.value.fraction), d.value.saturated;
    CmpComparesUnits(a, b);
  }
}

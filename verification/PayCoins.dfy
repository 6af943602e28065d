// Coin selection for a payment (src/operations/pay.ts, selectPayCoins) and the debit of the
// selected coins (recordConfirmPay).
//
// Amounts are Money: see Amounts.MoneyIsAmounts.
module PayCoins {
  import opened Wrappers
  import opened Amounts
  import opened MoneyMaps

  datatype AvailableCoinInfo = AvailableCoinInfo(
    coinPub: string, denomPub: string, availableAmount: Money, feeDeposit: Money)

  datatype PayCoinSelection = PayCoinSelection(
    paymentAmount: Money,
    coinPubs: seq<string>,
    coinContributions: seq<Money>,
    customerWireFees: Money,
    customerDepositFees: Money)

  // ----- The order of the coins -----

  /** Lexical comparison of two strings by their characters. */
  function Strcmp(s1: string, s2: string): int {
    if s1 == s2 then 0
    else if s1 == "" then -1
    else if s2 == "" then 1
    else if s1[0] < s2[0] then -1
    else if s1[0] > s2[0] then 1
    else Strcmp(s1[1..], s2[1..])
  }

  lemma {:induction false} StrcmpIsAnOrder(a: string, b: string, c: string)
    ensures Strcmp(a, b) == -Strcmp(b, a)
    ensures Strcmp(a, b) == 0 ==> a == b
    ensures Strcmp(a, b) <= 0 && Strcmp(b, c) <= 0 ==> Strcmp(a, c) <= 0
    decreases |a| + |b| + |c|
  {
    if a != "" && b != "" && a[0] == b[0] {
      StrcmpIsAnOrder(a[1..], b[1..], if c == "" then "" else c[1..]);
      assert a == [a[0]] + a[1..] && b == [b[0]] + b[1..];
      if c != "" {
        assert c == [c[0]] + c[1..];
      }
    }
  }

  /** a and b have the same first k characters, and then a ends or has the smaller one. */
  ghost predicate SmallerAt(a: string, b: string, k: nat) {
    && k <= |a| && k < |b|
    && (forall i: nat | i < k :: a[i] == b[i])
    && (k == |a| || a[k] < b[k])
  }

  ghost predicate LexicallyBefore(a: string, b: string) {
    exists k: nat :: SmallerAt(a, b, k)
  }

  lemma {:induction false} StrcmpIsLexical(a: string, b: string)
    ensures Strcmp(a, b) < 0 <==> LexicallyBefore(a, b)
    ensures Strcmp(a, b) == 0 <==> a == b
  {
    if a != "" && b != "" && a[0] == b[0] {
      StrcmpIsLexical(a[1..], b[1..]);
      CommonFirst(a[0], a[1..], b[1..]);
      assert a == [a[0]] + a[1..] && b == [b[0]] + b[1..];
    } else {
      assert SmallerAt(a, b, 0) <==> b != "" && (a == "" || a[0] < b[0]);
    }
  }

  lemma CommonFirst(x: char, s: string, t: string)
    ensures LexicallyBefore([x] + s, [x] + t) <==> LexicallyBefore(s, t)
  {
    forall k: nat ensures SmallerAt([x] + s, [x] + t, k + 1) <==> SmallerAt(s, t, k) {
      SmallerBehindFirst(x, s, t, k);
    }
    hide SmallerAt;
    if LexicallyBefore(s, t) {
      var k: nat :| SmallerAt(s, t, k);
      assert SmallerAt([x] + s, [x] + t, k + 1);
    }
    if LexicallyBefore([x] + s, [x] + t) {
      var k: nat :| SmallerAt([x] + s, [x] + t, k);
      SameFirst(x, s, t);
      assert SmallerAt([x] + s, [x] + t, (k - 1) + 1) <==> SmallerAt(s, t, k - 1);
    }
  }

  lemma SmallerBehindFirst(x: char, s: string, t: string, k: nat)
    ensures SmallerAt([x] + s, [x] + t, k + 1) <==> SmallerAt(s, t, k)
  {
    var a, b := [x] + s, [x] + t;
    if SmallerAt(a, b, k + 1) {
      forall i: nat | i < k ensures s[i] == t[i] {
        assert a[i + 1] == b[i + 1];
      }
    }
  }

  lemma SameFirst(x: char, s: string, t: string)
    ensures !SmallerAt([x] + s, [x] + t, 0)
  {
  }

  /** By available amount descending, then deposit fee ascending, then denomination. */
  function CompareCoins(o1: AvailableCoinInfo, o2: AvailableCoinInfo): int {
    if o1.availableAmount != o2.availableAmount then
      if o1.availableAmount > o2.availableAmount then -1 else 1
    else if o1.feeDeposit != o2.feeDeposit then
      if o1.feeDeposit < o2.feeDeposit then -1 else 1
    else
      Strcmp(o1.denomPub, o2.denomPub)
  }

  predicate SortedCoins(s: seq<AvailableCoinInfo>) {
    forall i, j | 0 <= i < j < |s| :: CompareCoins(s[i], s[j]) <= 0
  }

  lemma CompareCoinsIsAnOrder(a: AvailableCoinInfo, b: AvailableCoinInfo, c: AvailableCoinInfo)
    ensures CompareCoins(a, b) == -CompareCoins(b, a)
    ensures CompareCoins(a, b) <= 0 && CompareCoins(b, c) <= 0 ==> CompareCoins(a, c) <= 0
  {
    StrcmpIsAnOrder(a.denomPub, b.denomPub, c.denomPub);
  }

  /** The coins with the most left come first; among those with equally much, the ones with the lowest
      deposit fee; and among those with equal fees too, the ones with the smallest denomination. */
  ghost predicate LargestFirst(s: seq<AvailableCoinInfo>) {
    forall i, j | 0 <= i < j < |s| ::
      || s[i].availableAmount > s[j].availableAmount
      || (s[i].availableAmount == s[j].availableAmount
          && (s[i].feeDeposit < s[j].feeDeposit
              || (s[i].feeDeposit == s[j].feeDeposit && !LexicallyBefore(s[j].denomPub, s[i].denomPub))))
  }

  lemma SortedIsLargestFirst(s: seq<AvailableCoinInfo>)
    ensures SortedCoins(s) <==> LargestFirst(s)
  {
    hide Strcmp, LexicallyBefore;
    forall i, j | 0 <= i < j < |s| ensures Strcmp(s[i].denomPub, s[j].denomPub) <= 0 <==>
        !LexicallyBefore(s[j].denomPub, s[i].denomPub)
    {
      StrcmpIsLexical(s[j].denomPub, s[i].denomPub);
      StrcmpIsAnOrder(s[i].denomPub, s[j].denomPub, "");
    }
  }

  function InsertCoin(c: AvailableCoinInfo, s: seq<AvailableCoinInfo>): seq<AvailableCoinInfo> {
    if s == [] then [c]
    else if CompareCoins(c, s[0]) <= 0 then [c] + s
    else [s[0]] + InsertCoin(c, s[1..])
  }

  /** The coins in the order that the loop takes them. */
  function SortCoins(s: seq<AvailableCoinInfo>): seq<AvailableCoinInfo> {
    if s == [] then [] else InsertCoin(s[0], SortCoins(s[1..]))
  }

  predicate BeforeAll(c: AvailableCoinInfo, s: seq<AvailableCoinInfo>) {
    forall i | 0 <= i < |s| :: CompareCoins(c, s[i]) <= 0
  }

  lemma SortedCons(c: AvailableCoinInfo, s: seq<AvailableCoinInfo>)
    requires SortedCoins(s) && BeforeAll(c, s)
    ensures SortedCoins([c] + s)
  {
  }

  lemma SortedUncons(s: seq<AvailableCoinInfo>)
    requires SortedCoins(s) && s != []
    ensures s == [s[0]] + s[1..] && SortedCoins(s[1..]) && BeforeAll(s[0], s[1..])
  {
  }

  lemma {:induction false} InsertCoinKeepsOrder(c: AvailableCoinInfo, s: seq<AvailableCoinInfo>)
    requires SortedCoins(s)
    ensures SortedCoins(InsertCoin(c, s))
    ensures forall x | BeforeAll(x, s) && CompareCoins(x, c) <= 0 :: BeforeAll(x, InsertCoin(c, s))
  {
    if s != [] {
      SortedUncons(s);
      CompareCoinsIsAnOrder(c, s[0], s[0]);
      if CompareCoins(c, s[0]) <= 0 {
        forall j | 0 <= j < |s| ensures CompareCoins(c, s[j]) <= 0 {
          CompareCoinsIsAnOrder(c, s[0], s[j]);
        }
        SortedCons(c, s);
      } else {
        InsertCoinKeepsOrder(c, s[1..]);
        SortedCons(s[0], InsertCoin(c, s[1..]));
        forall x | BeforeAll(x, s) && CompareCoins(x, c) <= 0 ensures BeforeAll(x, InsertCoin(c, s)) {
          assert BeforeAll(x, s[1..]);
        }
      }
    }
  }

  lemma {:induction false} InsertCoinPermutes(c: AvailableCoinInfo, s: seq<AvailableCoinInfo>)
    ensures multiset(InsertCoin(c, s)) == multiset(s) + multiset{c}
  {
    if s != [] && CompareCoins(c, s[0]) > 0 {
      InsertCoinPermutes(c, s[1..]);
      assert s == [s[0]] + s[1..];
    }
  }

  /** Sorting puts the largest coins first and keeps every coin. */
  lemma SortCoinsSorts(s: seq<AvailableCoinInfo>)
    ensures LargestFirst(SortCoins(s)) && multiset(SortCoins(s)) == multiset(s)
  {
    SortCoinsKeeps(s);
    SortedIsLargestFirst(SortCoins(s));
  }

  lemma {:induction false} SortCoinsKeeps(s: seq<AvailableCoinInfo>)
    ensures SortedCoins(SortCoins(s)) && multiset(SortCoins(s)) == multiset(s)
    ensures |SortCoins(s)| == |s| && forall c :: c in SortCoins(s) <==> c in s
  {
    hide SortedCoins, InsertCoin;
    NothingIsSorted();
    if s != [] {
      SortCoinsKeeps(s[1..]);
      InsertCoinKeepsOrder(s[0], SortCoins(s[1..]));
      InsertCoinPermutes(s[0], SortCoins(s[1..]));
      assert s == [s[0]] + s[1..];
    }
    SameElements(SortCoins(s), s);
  }

  lemma NothingIsSorted()
    ensures SortedCoins([])
  {
  }

  lemma SameElements(s: seq<AvailableCoinInfo>, t: seq<AvailableCoinInfo>)
    requires multiset(s) == multiset(t)
    ensures |s| == |t| && forall c :: c in s <==> c in t
  {
    assert |multiset(s)| == |s| && |multiset(t)| == |t|;
    forall c ensures c in s <==> c in t {
      assert c in multiset(s) <==> c in multiset(t);
    }
  }

  /** Without ties the order is fixed by the set of coins: whatever order they arrive in, the
      loop sees the same list. */
  lemma {:induction false} SortedOnlyOneWay(s: seq<AvailableCoinInfo>, t: seq<AvailableCoinInfo>)
    requires SortedCoins(s) && SortedCoins(t) && multiset(s) == multiset(t)
    requires forall c, d | c in s && d in s && CompareCoins(c, d) == 0 :: c == d
    ensures s == t
  {
    SameElements(s, t);
    if s != [] {
      SortedUncons(s);
      SortedUncons(t);
      FirstIsLeast(s, t[0]);
      FirstIsLeast(t, s[0]);
      CompareCoinsIsAnOrder(s[0], t[0], s[0]);
      assert s[0] == t[0];
      TailsMatch(s, t);
      SortedOnlyOneWay(s[1..], t[1..]);
    }
  }

  lemma TailsMatch(s: seq<AvailableCoinInfo>, t: seq<AvailableCoinInfo>)
    requires s != [] && t != [] && s[0] == t[0] && multiset(s) == multiset(t)
    ensures multiset(s[1..]) == multiset(t[1..])
  {
    assert s == [s[0]] + s[1..] && t == [t[0]] + t[1..];
    assert multiset(s[1..]) == multiset(s) - multiset{s[0]};
    assert multiset(t[1..]) == multiset(t) - multiset{t[0]};
  }

  lemma FirstIsLeast(s: seq<AvailableCoinInfo>, c: AvailableCoinInfo)
    requires SortedCoins(s) && c in s
    ensures CompareCoins(s[0], c) <= 0
  {
    CompareCoinsIsAnOrder(c, c, c);
  }

  // ----- What a list of coins can pay -----

  predicate Usable(c: AvailableCoinInfo) {
    c.feeDeposit < c.availableAmount
  }

  function UsableCoins(s: seq<AvailableCoinInfo>): seq<AvailableCoinInfo> {
    if s == [] then []
    else UsableCoins(s[..|s| - 1]) + if Usable(s[|s| - 1]) then [s[|s| - 1]] else []
  }

  function TotalAvailable(s: seq<AvailableCoinInfo>): nat {
    if s == [] then 0 else TotalAvailable(s[..|s| - 1]) + s[|s| - 1].availableAmount
  }

  function TotalFees(s: seq<AvailableCoinInfo>): nat {
    if s == [] then 0 else TotalFees(s[..|s| - 1]) + s[|s| - 1].feeDeposit
  }

  /** The part of the fees that the limit does not cover. */
  function Excess(fees: nat, limit: nat): nat {
    if fees > limit then fees - limit else 0
  }

  /** The coins suffice for the payment and for their own fees beyond the limit. */
  predicate Covers(s: seq<AvailableCoinInfo>, payment: nat, limit: nat) {
    TotalAvailable(s) >= payment + Excess(TotalFees(s), limit)
  }

  /** k is the length of the shortest prefix of the usable coins that covers the payment. */
  ghost predicate ShortestCover(usable: seq<AvailableCoinInfo>, payment: nat, limit: nat, k: nat) {
    && k <= |usable|
    && Covers(usable[..k], payment, limit)
    && forall i: nat | i < k :: !Covers(usable[..i], payment, limit)
  }

  function Total(amounts: seq<Money>): nat {
    if amounts == [] then 0 else Total(amounts[..|amounts| - 1]) + amounts[|amounts| - 1]
  }

  /** All but the last coin contribute their whole amount; together they pay exactly what is due,
      unless the last coin was raised to its own deposit fee, by less than that fee. */
  ghost predicate ContributionsFor(chosen: seq<AvailableCoinInfo>, contributions: seq<Money>, due: int) {
    && |contributions| == |chosen|
    && (forall i | 0 <= i < |chosen| :: chosen[i].feeDeposit <= contributions[i] <= chosen[i].availableAmount)
    && (forall i | 0 <= i < |chosen| - 1 :: contributions[i] == chosen[i].availableAmount)
    && due <= Total(contributions)
    && (Total(contributions) != due ==>
          && chosen != []
          && contributions[|chosen| - 1] == chosen[|chosen| - 1].feeDeposit
          && Total(contributions) - due < chosen[|chosen| - 1].feeDeposit)
  }

  /** The payment and the fees that the limit does not cover. */
  function Due(chosen: seq<AvailableCoinInfo>, payment: nat, limit: nat): nat {
    payment + Excess(TotalFees(chosen), limit)
  }

  ghost predicate ExactContributions(
    chosen: seq<AvailableCoinInfo>, contributions: seq<Money>, payment: nat, limit: nat)
  {
    ContributionsFor(chosen, contributions, Due(chosen, payment, limit))
  }

  /** Coin i is reached, and what is then due with its fee is more than the largest amount. */
  ghost predicate OverflowsAt(usable: seq<AvailableCoinInfo>, i: nat, payment: nat, limit: nat)
    requires i < |usable|
  {
    && (forall j: nat | j <= i :: !Covers(usable[..j], payment, limit))
    && Due(usable[..i + 1], payment, limit) > MAX_UNITS + TotalAvailable(usable[..i])
  }

  ghost predicate Overflows(usable: seq<AvailableCoinInfo>, payment: nat, limit: nat) {
    exists i: nat | i < |usable| :: OverflowsAt(usable, i, payment, limit)
  }

  /** What selectPayCoins promises about its result, for the sorted coins. */
  ghost predicate Selection(
    sorted: seq<AvailableCoinInfo>, payment: Money, limit: Money, r: Option<PayCoinSelection>)
  {
    var usable := UsableCoins(sorted);
    match r
    case None => sorted == [] || (payment > 0 && !Covers(usable, payment, limit))
    case Some(sel) =>
      && sorted != []
      && sel.paymentAmount == payment
      && sel.customerWireFees == 0 && sel.customerDepositFees == 0
      && exists k: nat ::
           && ShortestCover(usable, payment, limit, k)
           && sel.coinPubs == PubsOf(usable[..k])
           && ExactContributions(usable[..k], sel.coinContributions, payment, limit)
  }

  function PubsOf(s: seq<AvailableCoinInfo>): (r: seq<string>)
    ensures |r| == |s| && forall i | 0 <= i < |s| :: r[i] == s[i].coinPub
  {
    seq(|s|, i requires 0 <= i < |s| => s[i].coinPub)
  }

  lemma ListSteps(s: seq<AvailableCoinInfo>, c: AvailableCoinInfo)
    ensures TotalAvailable(s + [c]) == TotalAvailable(s) + c.availableAmount
    ensures TotalFees(s + [c]) == TotalFees(s) + c.feeDeposit
    ensures UsableCoins(s + [c]) == UsableCoins(s) + if Usable(c) then [c] else []
    ensures PubsOf(s + [c]) == PubsOf(s) + [c.coinPub]
  {
    assert (s + [c])[..|s|] == s;
  }

  lemma TotalStep(s: seq<Money>, m: Money)
    ensures Total(s + [m]) == Total(s) + m
  {
    assert (s + [m])[..|s|] == s;
  }

  /** One usable coin pays for its own excess fee and something more. */
  lemma CoinsHelp(s: seq<AvailableCoinInfo>, c: AvailableCoinInfo, payment: nat, limit: nat)
    requires Usable(c) && Covers(s, payment, limit)
    ensures Covers(s + [c], payment, limit)
  {
    ListSteps(s, c);
  }

  /** The coins that give the merchant more than depositing them costs. */
  lemma {:induction false} UsableCoinsAreUsable(s: seq<AvailableCoinInfo>)
    ensures forall c :: c in UsableCoins(s) <==> c in s && c.feeDeposit < c.availableAmount
  {
    if s != [] {
      UsableCoinsAreUsable(s[..|s| - 1]);
      assert s == s[..|s| - 1] + [s[|s| - 1]];
    }
  }

  // ----- The loop as a function -----

  datatype Collected = Collected(
    coinPubs: seq<string>, contributions: seq<Money>, payRemaining: Money, limitRemaining: Money)

  /** One coin of the loop: its contribution and the two new budgets. */
  function SpendCoin(c: AvailableCoinInfo, payRemaining: Money, limitRemaining: Money): (Money, Money, Money) {
    var depositFeeSpend := Minus(c.feeDeposit, limitRemaining);
    var limitRemaining' := if depositFeeSpend == 0 then Minus(limitRemaining, c.feeDeposit) else 0;
    if Minus(c.availableAmount, depositFeeSpend) > payRemaining then
      var coinSpend := Plus(payRemaining, depositFeeSpend);
      (if coinSpend < c.feeDeposit then c.feeDeposit else coinSpend, 0, limitRemaining')
    else
      (c.availableAmount, Minus(Plus(payRemaining, depositFeeSpend), c.availableAmount), limitRemaining')
  }

  function AddCoin(s: Collected, c: AvailableCoinInfo): Collected {
    if !Usable(c) || s.payRemaining == 0 then s
    else
      var (spend, pay, lim) := SpendCoin(c, s.payRemaining, s.limitRemaining);
      Collected(s.coinPubs + [c.coinPub], s.contributions + [spend], pay, lim)
  }

  function Collect(acis: seq<AvailableCoinInfo>, payment: Money, limit: Money): Collected {
    if acis == [] then Collected([], [], payment, limit)
    else AddCoin(Collect(acis[..|acis| - 1], payment, limit), acis[|acis| - 1])
  }

  function SelectOf(acis: seq<AvailableCoinInfo>, payment: Money, limit: Money): Option<PayCoinSelection> {
    var s := Collect(acis, payment, limit);
    if acis == [] || s.payRemaining > 0 then None
    else Some(PayCoinSelection(payment, s.coinPubs, s.contributions, 0, 0))
  }

  /** Once nothing remains to be paid no further coin is taken. */
  lemma {:induction false} CollectStops(acis: seq<AvailableCoinInfo>, i: nat, payment: Money, limit: Money)
    requires i <= |acis|
    ensures Collect(acis[..i], payment, limit).payRemaining == 0 ==>
              Collect(acis, payment, limit) == Collect(acis[..i], payment, limit)
    decreases |acis|
  {
    if i == |acis| {
      assert acis[..i] == acis;
    } else {
      assert acis[..|acis| - 1][..i] == acis[..i];
      CollectStops(acis[..|acis| - 1], i, payment, limit);
    }
  }

  /** Selects coins for a payment; sorts its argument in place. */
  method SelectPayCoins(acis: array<AvailableCoinInfo>, paymentAmount: Money, depositFeeLimit: Money)
    returns (r: Option<PayCoinSelection>)
    modifies acis
    ensures acis[..] == SortCoins(old(acis[..]))
    ensures LargestFirst(acis[..]) && multiset(acis[..]) == multiset(old(acis[..]))
    ensures r == SelectOf(acis[..], paymentAmount, depositFeeLimit)
    ensures !Overflows(UsableCoins(acis[..]), paymentAmount, depositFeeLimit) ==>
              Selection(acis[..], paymentAmount, depositFeeLimit, r)
  {
    var sorted := SortCoins(acis[..]);
    SortCoinsKeeps(acis[..]);
    SortCoinsSorts(acis[..]);
    hide LargestFirst;
    forall i | 0 <= i < acis.Length {
      acis[i] := sorted[i];
    }
    assert acis[..] == sorted;
    r := CollectCoins(sorted, paymentAmount, depositFeeLimit);
    SelectionIsRight(sorted, paymentAmount, depositFeeLimit);
  }

  /** The selection loop, over the sorted coins. */
  method CollectCoins(acis: seq<AvailableCoinInfo>, paymentAmount: Money, depositFeeLimit: Money)
    returns (r: Option<PayCoinSelection>)
    ensures r == SelectOf(acis, paymentAmount, depositFeeLimit)
  {
    if |acis| == 0 {
      return None;
    }
    var coinPubs: seq<string> := [];
    var coinContributions: seq<Money> := [];
    var amountPayRemaining: Money := paymentAmount;
    var limitRemaining: Money := depositFeeLimit;
    var i := 0;
    while i < |acis|
      invariant 0 <= i <= |acis|
      invariant Collected(coinPubs, coinContributions, amountPayRemaining, limitRemaining)
                  == Collect(acis[..i], paymentAmount, depositFeeLimit)
    {
      var aci := acis[i];
      assert acis[..i + 1][..i] == acis[..i];
      if aci.feeDeposit >= aci.availableAmount {
        i := i + 1;
        continue;
      }
      if amountPayRemaining == 0 {
        break;
      }
      var depositFeeSpend := Minus(aci.feeDeposit, limitRemaining);
      limitRemaining := if depositFeeSpend == 0 then Minus(limitRemaining, aci.feeDeposit) else 0;
      var coinSpend: Money;
      if Minus(aci.availableAmount, depositFeeSpend) > amountPayRemaining {
        coinSpend := Plus(amountPayRemaining, depositFeeSpend);
        if coinSpend < aci.feeDeposit {
          coinSpend := aci.feeDeposit;
        }
        amountPayRemaining := 0;
      } else {
        coinSpend := aci.availableAmount;
        amountPayRemaining := Plus(amountPayRemaining, depositFeeSpend);
        amountPayRemaining := Minus(amountPayRemaining, aci.availableAmount);
      }
      coinPubs := coinPubs + [aci.coinPub];
      coinContributions := coinContributions + [coinSpend];
      i := i + 1;
    }
    CollectStops(acis, i, paymentAmount, depositFeeLimit);
    assert acis[..|acis|] == acis;
    if amountPayRemaining == 0 {
      r := Some(PayCoinSelection(paymentAmount, coinPubs, coinContributions, 0, 0));
    } else {
      r := None;
    }
  }

  // ----- The accounting of the loop -----

  ghost predicate WholeContributions(chosen: seq<AvailableCoinInfo>, contributions: seq<Money>) {
    && |contributions| == |chosen|
    && Total(contributions) == TotalAvailable(chosen)
    && (forall i | 0 <= i < |chosen| :: Usable(chosen[i]) && contributions[i] == chosen[i].availableAmount)
  }

  ghost predicate NoShorterCover(chosen: seq<AvailableCoinInfo>, payment: nat, limit: nat) {
    forall i: nat | i < |chosen| :: !Covers(chosen[..i], payment, limit)
  }

  /** After the coins chosen were taken whole and more is due. Sums that exceeded the largest amount
      have lost some of what is due; they have done so exactly if the coins overflow. */
  ghost predicate Running(
    chosen: seq<AvailableCoinInfo>, contributions: seq<Money>, payment: Money, limit: Money,
    payRemaining: Money, limitRemaining: Money, lost: nat)
  {
    && payRemaining > 0
    && payRemaining + lost == Due(chosen, payment, limit) - TotalAvailable(chosen)
    && limitRemaining == Excess(limit, TotalFees(chosen))
    && WholeContributions(chosen, contributions)
    && NoShorterCover(chosen, payment, limit)
    && (lost > 0 <==> Overflows(chosen, payment, limit))
    && (lost > 0 ==> limitRemaining == 0)
  }

  /** After the last coin: the contributions are exact for what is due, less what was lost. A coin that
      comes after a loss pays its whole fee itself, so it is never raised to it. */
  ghost predicate Finished(
    chosen: seq<AvailableCoinInfo>, contributions: seq<Money>, payment: Money, limit: Money, lost: nat)
  {
    && ContributionsFor(chosen, contributions, Due(chosen, payment, limit) - lost)
    && NoShorterCover(chosen, payment, limit)
    && (lost > 0 <==> Overflows(chosen, payment, limit))
    && (lost > 0 ==> chosen != [] && contributions[|chosen| - 1] > chosen[|chosen| - 1].feeDeposit)
  }

  /** The arithmetic of one coin, for coins worth `available` with fees `fees` taken before. */
  lemma SpendCoinAmounts(
    c: AvailableCoinInfo, payRemaining: Money, limitRemaining: Money,
    available: nat, fees: nat, payment: Money, limit: Money, lost: nat) returns (lost': nat)
    requires payRemaining + lost == payment + Excess(fees, limit) - available && payRemaining > 0
    requires limitRemaining == Excess(limit, fees) && Usable(c)
    requires lost > 0 ==> limitRemaining == 0
    ensures var (spend, pay, lim) := SpendCoin(c, payRemaining, limitRemaining);
            var due := payment + Excess(fees + c.feeDeposit, limit);
            && lim == Excess(limit, fees + c.feeDeposit)
            && c.feeDeposit <= spend <= c.availableAmount
            && (lost' > 0 <==> lost > 0 || due > MAX_UNITS + available)
            && (lost' > 0 ==> lim == 0 && spend > c.feeDeposit)
            && (pay > 0 ==> spend == c.availableAmount && pay + lost' == due - (available + c.availableAmount))
            && (pay == 0 ==>
                  && due - lost' <= available + spend
                  && (due - lost' != available + spend ==>
                        spend == c.feeDeposit && available + spend - (due - lost') < c.feeDeposit))
  {
    var feeSpend := Minus(c.feeDeposit, limitRemaining);
    lost' := lost + if payRemaining + feeSpend > MAX_UNITS then payRemaining + feeSpend - MAX_UNITS else 0;
    assert feeSpend == Excess(fees + c.feeDeposit, limit) - Excess(fees, limit);
  }

  /** One more coin keeps the loop's accounting, or ends it. */
  lemma SpendCoinStep(
    chosen: seq<AvailableCoinInfo>, contributions: seq<Money>, payment: Money, limit: Money,
    payRemaining: Money, limitRemaining: Money, lost: nat, c: AvailableCoinInfo) returns (lost': nat)
    requires Running(chosen, contributions, payment, limit, payRemaining, limitRemaining, lost) && Usable(c)
    ensures var (spend, pay, lim) := SpendCoin(c, payRemaining, limitRemaining);
            && (pay > 0 ==> Running(chosen + [c], contributions + [spend], payment, limit, pay, lim, lost'))
            && (pay == 0 ==> Finished(chosen + [c], contributions + [spend], payment, limit, lost'))
  {
    MoreIsDue(chosen, contributions, payment, limit, payRemaining, limitRemaining, lost);
    var available, fees := TotalAvailable(chosen), TotalFees(chosen);
    lost' := SpendCoinAmounts(c, payRemaining, limitRemaining, available, fees, payment, limit, lost);
    hide SpendCoin, WholeContributions, NoShorterCover, TotalAvailable, TotalFees, Overflows, Covers, Excess;
    var (spend, pay, lim) := SpendCoin(c, payRemaining, limitRemaining);
    if pay > 0 {
      StillRunning(chosen, contributions, payment, limit, c, pay, lim, lost');
    } else {
      NowFinished(chosen, contributions, payment, limit, c, spend, lost');
    }
  }

  /** Whether something is lost once coin c has been taken. */
  ghost predicate LostExactly(chosen: seq<AvailableCoinInfo>, c: AvailableCoinInfo, payment: nat, limit: nat,
      lost: nat) {
    lost > 0 <==>
      Overflows(chosen, payment, limit)
      || payment + Excess(TotalFees(chosen) + c.feeDeposit, limit) > MAX_UNITS + TotalAvailable(chosen)
  }

  lemma StillRunning(
    chosen: seq<AvailableCoinInfo>, contributions: seq<Money>, payment: Money, limit: Money,
    c: AvailableCoinInfo, pay: Money, lim: Money, lost: nat)
    requires WholeContributions(chosen, contributions) && NoShorterCover(chosen, payment, limit)
    requires !Covers(chosen, payment, limit) && Usable(c) && pay > 0
    requires var fees := TotalFees(chosen) + c.feeDeposit;
             && pay + lost == payment + Excess(fees, limit) - (TotalAvailable(chosen) + c.availableAmount)
             && lim == Excess(limit, fees)
    requires LostExactly(chosen, c, payment, limit, lost) && (lost > 0 ==> lim == 0)
    ensures Running(chosen + [c], contributions + [c.availableAmount], payment, limit, pay, lim, lost)
  {
    hide WholeContributions, NoShorterCover, TotalAvailable, TotalFees, Overflows, Covers, Excess;
    ListSteps(chosen, c);
    OverflowStep(chosen, payment, limit, c);
    NoShorterCoverStep(chosen, payment, limit, c);
    WholeContributionsStep(chosen, contributions, c);
  }

  lemma NowFinished(
    chosen: seq<AvailableCoinInfo>, contributions: seq<Money>, payment: Money, limit: Money,
    c: AvailableCoinInfo, spend: Money, lost: nat)
    requires WholeContributions(chosen, contributions) && NoShorterCover(chosen, payment, limit)
    requires !Covers(chosen, payment, limit) && Usable(c) && c.feeDeposit <= spend <= c.availableAmount
    requires var due := payment + Excess(TotalFees(chosen) + c.feeDeposit, limit) - lost;
             var paid := TotalAvailable(chosen) + spend;
             due <= paid && (due != paid ==> spend == c.feeDeposit && paid - due < c.feeDeposit)
    requires LostExactly(chosen, c, payment, limit, lost) && (lost > 0 ==> spend > c.feeDeposit)
    ensures Finished(chosen + [c], contributions + [spend], payment, limit, lost)
  {
    hide WholeContributions, NoShorterCover, TotalAvailable, TotalFees, Overflows, Covers, Excess, ContributionsFor;
    ListSteps(chosen, c);
    OverflowStep(chosen, payment, limit, c);
    NoShorterCoverStep(chosen, payment, limit, c);
    LastContribution(chosen, contributions, c, spend, Due(chosen + [c], payment, limit) - lost);
    SameLength(chosen, contributions);
  }

  lemma SameLength(chosen: seq<AvailableCoinInfo>, contributions: seq<Money>)
    requires WholeContributions(chosen, contributions)
    ensures |contributions| == |chosen|
  {
  }

  lemma MoreIsDue(
    chosen: seq<AvailableCoinInfo>, contributions: seq<Money>, payment: Money, limit: Money,
    payRemaining: Money, limitRemaining: Money, lost: nat)
    requires Running(chosen, contributions, payment, limit, payRemaining, limitRemaining, lost)
    ensures !Covers(chosen, payment, limit)
  {
  }

  /** A further coin overflows if the coins before it did, or if it does so itself. */
  lemma OverflowStep(chosen: seq<AvailableCoinInfo>, payment: nat, limit: nat, c: AvailableCoinInfo)
    requires NoShorterCover(chosen, payment, limit) && !Covers(chosen, payment, limit)
    ensures Overflows(chosen + [c], payment, limit) <==>
            Overflows(chosen, payment, limit) || Due(chosen + [c], payment, limit) > MAX_UNITS + TotalAvailable(chosen)
  {
    hide Covers, TotalAvailable, TotalFees;
    var all, n := chosen + [c], |chosen|;
    assert chosen[..n] == chosen && all[..n] == chosen && all[..n + 1] == all;
    forall j: nat | j <= n ensures all[..j] == chosen[..j] {
    }
    forall i: nat | i < n ensures OverflowsAt(all, i, payment, limit) <==> OverflowsAt(chosen, i, payment, limit) {
    }
    assert OverflowsAt(all, n, payment, limit) <==> Due(all, payment, limit) > MAX_UNITS + TotalAvailable(chosen);
  }

  /** Whether coins overflow is decided among those up to the first cover. */
  lemma OverflowOfPrefix(chosen: seq<AvailableCoinInfo>, usable: seq<AvailableCoinInfo>, payment: nat, limit: nat)
    requires chosen <= usable
    ensures Overflows(chosen, payment, limit) ==> Overflows(usable, payment, limit)
    ensures Covers(chosen, payment, limit) && Overflows(usable, payment, limit) ==> Overflows(chosen, payment, limit)
  {
    hide Covers, TotalAvailable, TotalFees;
    forall j: nat | j <= |chosen| ensures usable[..j] == chosen[..j] {
    }
    assert chosen[..|chosen|] == chosen;
    forall i: nat | i < |chosen| ensures OverflowsAt(usable, i, payment, limit) <==>
        OverflowsAt(chosen, i, payment, limit) {
    }
    if Covers(chosen, payment, limit) {
      forall i: nat | |chosen| <= i < |usable| ensures !OverflowsAt(usable, i, payment, limit) {
        assert usable[..|chosen|] == chosen;
      }
    }
  }

  lemma ShortestAfter(chosen: seq<AvailableCoinInfo>, payment: nat, limit: nat)
    requires NoShorterCover(chosen, payment, limit) && Covers(chosen, payment, limit)
    ensures ShortestCover(chosen, payment, limit, |chosen|)
  {
    assert chosen[..|chosen|] == chosen;
  }

  lemma NoShorterCoverStep(chosen: seq<AvailableCoinInfo>, payment: nat, limit: nat, c: AvailableCoinInfo)
    requires NoShorterCover(chosen, payment, limit) && !Covers(chosen, payment, limit)
    ensures NoShorterCover(chosen + [c], payment, limit)
  {
    assert chosen[..|chosen|] == chosen;
    forall i: nat | i < |chosen + [c]| ensures !Covers((chosen + [c])[..i], payment, limit) {
      assert (chosen + [c])[..i] == chosen[..i];
    }
  }

  lemma WholeContributionsStep(chosen: seq<AvailableCoinInfo>, contributions: seq<Money>, c: AvailableCoinInfo)
    requires WholeContributions(chosen, contributions) && Usable(c)
    ensures WholeContributions(chosen + [c], contributions + [c.availableAmount])
  {
    ListSteps(chosen, c);
    TotalStep(contributions, c.availableAmount);
  }

  lemma LastContribution(chosen: seq<AvailableCoinInfo>, contributions: seq<Money>, c: AvailableCoinInfo, spend: Money,
      due: int)
    requires WholeContributions(chosen, contributions) && Usable(c)
    requires c.feeDeposit <= spend <= c.availableAmount
    requires var paid := TotalAvailable(chosen) + spend;
             due <= paid && (due != paid ==> spend == c.feeDeposit && paid - due < c.feeDeposit)
    ensures ContributionsFor(chosen + [c], contributions + [spend], due)
  {
    hide Total, TotalFees, TotalAvailable, UsableCoins, PubsOf, Excess;
    ListSteps(chosen, c);
    TotalStep(contributions, spend);
  }

  /** What the loop has collected after all coins: which coins it chose, and what was lost. */
  lemma {:induction false} CollectedCoins(acis: seq<AvailableCoinInfo>, payment: Money, limit: Money)
    returns (chosen: seq<AvailableCoinInfo>, lost: nat)
    ensures var s := Collect(acis, payment, limit);
            && s.coinPubs == PubsOf(chosen) && chosen <= UsableCoins(acis)
            && (s.payRemaining > 0 ==>
                  chosen == UsableCoins(acis) && Running(chosen, s.contributions, payment, limit, s.payRemaining,
                      s.limitRemaining, lost))
            && (s.payRemaining == 0 ==> Finished(chosen, s.contributions, payment, limit, lost))
  {
    if acis == [] {
      chosen, lost := [], 0;
      StartCollecting(payment, limit);
    } else {
      var t, c := acis[..|acis| - 1], acis[|acis| - 1];
      chosen, lost := CollectedCoins(t, payment, limit);
      var s := Collect(t, payment, limit);
      hide Running, Finished, SpendCoin, PubsOf;
      if Usable(c) && s.payRemaining > 0 {
        lost := SpendCoinStep(chosen, s.contributions, payment, limit, s.payRemaining, s.limitRemaining, lost, c);
        ListSteps(chosen, c);
        chosen := chosen + [c];
      }
    }
  }

  lemma StartCollecting(payment: Money, limit: Money)
    ensures PubsOf([]) == []
    ensures payment > 0 ==> Running([], [], payment, limit, payment, limit, 0)
    ensures payment == 0 ==> Finished([], [], payment, limit, 0)
  {
  }

  // ----- When the selection is right -----

  lemma {:induction false} PaidFromCoins(chosen: seq<AvailableCoinInfo>, contributions: seq<Money>)
    requires |chosen| == |contributions|
    requires forall i | 0 <= i < |chosen| :: contributions[i] <= chosen[i].availableAmount
    ensures Total(contributions) <= TotalAvailable(chosen)
  {
    if chosen != [] {
      PaidFromCoins(chosen[..|chosen| - 1], contributions[..|chosen| - 1]);
    }
  }

  /** A finished loop is exact without an overflow and pays too little with one. */
  lemma FinishedIsRight(
    usable: seq<AvailableCoinInfo>, chosen: seq<AvailableCoinInfo>, contributions: seq<Money>, payment: Money,
        limit: Money, lost: nat)
    requires chosen <= usable && Finished(chosen, contributions, payment, limit, lost)
    ensures |contributions| == |chosen|
    ensures lost > 0 <==> Overflows(usable, payment, limit)
    ensures lost == 0 ==>
              ShortestCover(usable, payment, limit, |chosen|)
                  && ExactContributions(chosen, contributions, payment, limit)
    ensures lost > 0 ==> Total(contributions) < Due(chosen, payment, limit)
  {
    hide NoShorterCover, Overflows, TotalFees, TotalAvailable, Total;
    PaidFromCoins(chosen, contributions);
    OverflowOfPrefix(chosen, usable, payment, limit);
    if lost == 0 {
      PaidIsCovered(chosen, contributions, payment, limit);
      ShortestAfter(chosen, payment, limit);
      PrefixCover(chosen, usable, payment, limit);
    }
  }

  lemma PaidIsCovered(chosen: seq<AvailableCoinInfo>, contributions: seq<Money>, payment: nat, limit: nat)
    requires Due(chosen, payment, limit) <= Total(contributions) <= TotalAvailable(chosen)
    ensures Covers(chosen, payment, limit)
  {
  }

  /** A refusal is always right. A success is right if and only if nothing overflows; otherwise the
      contributions pay less than is due for the chosen coins. */
  lemma SelectionIsRight(sorted: seq<AvailableCoinInfo>, payment: Money, limit: Money)
    ensures var r := SelectOf(sorted, payment, limit);
            var usable := UsableCoins(sorted);
            && (r.None? ==> Selection(sorted, payment, limit, r))
            && (r.Some? ==> (Selection(sorted, payment, limit, r) <==> !Overflows(usable, payment, limit)))
            && (r.Some? && Overflows(usable, payment, limit) ==> Underpays(usable, payment, limit, r.value))
  {
    var usable, s := UsableCoins(sorted), Collect(sorted, payment, limit);
    var chosen, lost := CollectedCoins(sorted, payment, limit);
    hide Collect, UsableCoins;
    if s.payRemaining > 0 {
      MoreIsDue(chosen, s.contributions, payment, limit, s.payRemaining, s.limitRemaining, lost);
      PaymentIsPositive(chosen, s.contributions, payment, limit, s.payRemaining, s.limitRemaining, lost);
    } else {
      FinishedIsRight(usable, chosen, s.contributions, payment, limit, lost);
      assert usable[..|chosen|] == chosen;
      SelectionPays(sorted, payment, limit, s, chosen);
    }
  }

  /** The selection names the first usable coins and pays less than is due for them. */
  ghost predicate Underpays(usable: seq<AvailableCoinInfo>, payment: nat, limit: nat, sel: PayCoinSelection) {
    var n := |sel.coinPubs|;
    && n <= |usable| && sel.coinPubs == PubsOf(usable[..n])
    && Total(sel.coinContributions) < Due(usable[..n], payment, limit)
  }

  lemma PaymentIsPositive(
    chosen: seq<AvailableCoinInfo>, contributions: seq<Money>, payment: Money, limit: Money,
    payRemaining: Money, limitRemaining: Money, lost: nat)
    requires Running(chosen, contributions, payment, limit, payRemaining, limitRemaining, lost)
    ensures payment > 0
  {
    UsableExceedFees(chosen);
  }

  lemma {:induction false} UsableExceedFees(s: seq<AvailableCoinInfo>)
    requires forall i | 0 <= i < |s| :: Usable(s[i])
    ensures TotalFees(s) <= TotalAvailable(s)
  {
    if s != [] {
      UsableExceedFees(s[..|s| - 1]);
    }
  }

  /** A right selection pays what is due for the coins it names. */
  lemma SelectionPays(sorted: seq<AvailableCoinInfo>, payment: Money, limit: Money, s: Collected,
      chosen: seq<AvailableCoinInfo>)
    requires s.coinPubs == PubsOf(chosen) && chosen <= UsableCoins(sorted)
    ensures Selection(sorted, payment, limit, Some(PayCoinSelection(payment, s.coinPubs, s.contributions, 0, 0))) ==>
              Total(s.contributions) >= Due(chosen, payment, limit)
  {
    hide UsableCoins, TotalFees, Total;
    var usable := UsableCoins(sorted);
    if Selection(sorted, payment, limit, Some(PayCoinSelection(payment, s.coinPubs, s.contributions, 0, 0))) {
      var k: nat :| && ShortestCover(usable, payment, limit, k) && k <= |usable|
                    && s.coinPubs == PubsOf(usable[..k])
                    && ExactContributions(usable[..k], s.contributions, payment, limit);
      assert |PubsOf(chosen)| == |PubsOf(usable[..k])|;
      assert usable[..k] == chosen;
    }
  }

  lemma PrefixCover(chosen: seq<AvailableCoinInfo>, usable: seq<AvailableCoinInfo>, payment: nat, limit: nat)
    requires chosen <= usable && ShortestCover(chosen, payment, limit, |chosen|)
    ensures ShortestCover(usable, payment, limit, |chosen|) && usable[..|chosen|] == chosen
  {
    assert chosen[..|chosen|] == chosen;
    forall i: nat | i <= |chosen| ensures usable[..i] == chosen[..i] {
    }
  }

  // ----- Completeness -----

  /** The coins of s picked by the flags. */
  function Picked(s: seq<AvailableCoinInfo>, flags: seq<bool>): seq<AvailableCoinInfo>
    requires |flags| == |s|
  {
    if s == [] then []
    else
      var n := |s| - 1;
      Picked(s[..n], flags[..n]) + if flags[n] then [s[n]] else []
  }

  /** No choice of usable coins pays more than all of them together. */
  lemma {:induction false} AllUsableIsBest(s: seq<AvailableCoinInfo>, flags: seq<bool>)
    requires |flags| == |s| && forall c | c in s :: Usable(c)
    ensures TotalFees(Picked(s, flags)) <= TotalFees(s)
    ensures TotalAvailable(Picked(s, flags)) + (TotalFees(s) - TotalFees(Picked(s, flags))) <= TotalAvailable(s)
  {
    if s != [] {
      var n := |s| - 1;
      AllUsableIsBest(s[..n], flags[..n]);
      var picked := Picked(s[..n], flags[..n]);
      ListSteps(picked, s[n]);
      assert picked + [] == picked;
      assert Usable(s[n]);
    }
  }

  lemma {:induction false} PickAll(s: seq<AvailableCoinInfo>)
    ensures Picked(s, seq(|s|, _ => true)) == s
  {
    if s != [] {
      var n := |s| - 1;
      PickAll(s[..n]);
      assert seq(|s|, _ => true)[..n] == seq(n, _ => true);
      assert s == s[..n] + [s[n]];
    }
  }

  ghost predicate SomeChoiceCovers(usable: seq<AvailableCoinInfo>, payment: nat, limit: nat) {
    exists flags: seq<bool> :: |flags| == |usable| && Covers(Picked(usable, flags), payment, limit)
  }

  lemma ChoiceCoversIff(sorted: seq<AvailableCoinInfo>, payment: nat, limit: nat)
    ensures SomeChoiceCovers(UsableCoins(sorted), payment, limit) <==> Covers(UsableCoins(sorted), payment, limit)
  {
    var usable := UsableCoins(sorted);
    UsableCoinsAreUsable(sorted);
    PickAll(usable);
    assert |seq(|usable|, _ => true)| == |usable|;
    forall flags: seq<bool> | |flags| == |usable|
      ensures Covers(Picked(usable, flags), payment, limit) ==> Covers(usable, payment, limit)
    {
      AllUsableIsBest(usable, flags);
    }
  }

  /** A positive payment that some choice of usable coins covers always succeeds. Without an overflow it
      succeeds only then; with one, a success pays too little whether or not some choice covers. */
  lemma SelectionIsComplete(sorted: seq<AvailableCoinInfo>, payment: Money, limit: Money)
    requires payment > 0
    ensures var usable, r := UsableCoins(sorted), SelectOf(sorted, payment, limit);
            && (SomeChoiceCovers(usable, payment, limit) ==> r.Some?)
            && (!Overflows(usable, payment, limit) ==> (r.Some? <==> SomeChoiceCovers(usable, payment, limit)))
            && (Overflows(usable, payment, limit) && r.Some? ==> Underpays(usable, payment, limit, r.value))
  {
    var usable, r := UsableCoins(sorted), SelectOf(sorted, payment, limit);
    SelectionIsRight(sorted, payment, limit);
    ChoiceCoversIff(sorted, payment, limit);
    UsableCoinsAreUsable(sorted);
    NoCoinsNoCover(sorted, payment, limit);
    hide SelectOf, SomeChoiceCovers, Overflows, Underpays;
    if r.Some? && !Overflows(usable, payment, limit) {
      var k: nat :| ShortestCover(usable, payment, limit, k);
      CoversGrows(usable, k, payment, limit);
    }
  }

  lemma NoCoinsNoCover(sorted: seq<AvailableCoinInfo>, payment: nat, limit: nat)
    requires payment > 0
    ensures sorted == [] ==> !Covers(UsableCoins(sorted), payment, limit)
  {
  }

  lemma {:induction false} CoversGrows(usable: seq<AvailableCoinInfo>, k: nat, payment: nat, limit: nat)
    requires k <= |usable| && Covers(usable[..k], payment, limit) && forall c | c in usable :: Usable(c)
    ensures Covers(usable, payment, limit)
    decreases |usable| - k
  {
    if k < |usable| {
      CoinsHelp(usable[..k], usable[k], payment, limit);
      assert usable[..k + 1] == usable[..k] + [usable[k]];
      CoversGrows(usable, k + 1, payment, limit);
    } else {
      assert usable[..k] == usable;
    }
  }

  ghost predicate Ties(c: AvailableCoinInfo, d: AvailableCoinInfo) {
    c.availableAmount == d.availableAmount && c.feeDeposit == d.feeDeposit && c.denomPub == d.denomPub
  }

  /** The order of the input does not matter when no two coins tie. */
  lemma SelectionIgnoresInputOrder(s: seq<AvailableCoinInfo>, t: seq<AvailableCoinInfo>)
    requires multiset(s) == multiset(t)
    requires forall c, d | c in s && d in s && Ties(c, d) :: c == d
    ensures SortCoins(s) == SortCoins(t)
  {
    forall c, d | c in s && d in s && CompareCoins(c, d) == 0 ensures c == d {
      StrcmpIsLexical(c.denomPub, d.denomPub);
      assert Ties(c, d);
    }
    hide SortedCoins, SortCoins, CompareCoins, LexicallyBefore;
    SortCoinsKeeps(s);
    SortCoinsKeeps(t);
    SortedOnlyOneWay(SortCoins(s), SortCoins(t));
  }

  /** Payments that leave room for each coin's fee never overflow. */
  lemma SmallPaymentsDoNotOverflow(usable: seq<AvailableCoinInfo>, payment: nat, limit: nat)
    requires forall i | 0 <= i < |usable| :: Usable(usable[i]) && payment + usable[i].feeDeposit <= MAX_UNITS
    ensures !Overflows(usable, payment, limit)
  {
    forall i: nat | i < |usable| ensures !OverflowsAt(usable, i, payment, limit) {
      UsableExceedFees(usable[..i]);
      assert usable[..i + 1] == usable[..i] + [usable[i]];
      ListSteps(usable[..i], usable[i]);
    }
  }

  /** A run of the loop at the largest amount: one coin worth it, with a fee of one that nobody else
      pays. The sum saturates and the selection succeeds with less than is due. */
  lemma OverflowUnderpays()
    ensures var c := AvailableCoinInfo("c", "d", MAX_UNITS, 1);
            && Overflows(UsableCoins([c]), MAX_UNITS, 0)
            && SelectOf([c], MAX_UNITS, 0) == Some(PayCoinSelection(MAX_UNITS, ["c"], [MAX_UNITS], 0, 0))
            && !SomeChoiceCovers(UsableCoins([c]), MAX_UNITS, 0)
            && Due([c], MAX_UNITS, 0) == MAX_UNITS + 1
  {
    var c := AvailableCoinInfo("c", "d", MAX_UNITS, 1);
    assert [c][..0] == [] && [c][..1] == [c];
    ListSteps([], c);
    assert [] + [c] == [c];
    assert Collect([c], MAX_UNITS, 0) == AddCoin(Collect([], MAX_UNITS, 0), c);
    assert Collect([c], MAX_UNITS, 0).coinPubs == ["c"] && Collect([c], MAX_UNITS, 0).contributions == [MAX_UNITS];
    ChoiceCoversIff([c], MAX_UNITS, 0);
    assert OverflowsAt([c], 0, MAX_UNITS, 0);
  }

  /** Two coins that together suffice for the largest amount: the second one overflows, and the selection
      succeeds with one unit less than is due. */
  lemma OverflowUnderpaysCovered()
    ensures var c := AvailableCoinInfo("a", "d", MAX_UNITS - 10, 1);
            var d := AvailableCoinInfo("b", "d", 100, 1);
            && Overflows(UsableCoins([c, d]), MAX_UNITS, 0)
            && SomeChoiceCovers(UsableCoins([c, d]), MAX_UNITS, 0)
            && SelectOf([c, d], MAX_UNITS, 0)
               == Some(PayCoinSelection(MAX_UNITS, ["a", "b"], [MAX_UNITS - 10, 11], 0, 0))
            && Due([c, d], MAX_UNITS, 0) == Total([MAX_UNITS - 10, 11]) + 1
  {
    var c := AvailableCoinInfo("a", "d", MAX_UNITS - 10, 1);
    var d := AvailableCoinInfo("b", "d", 100, 1);
    var one, two := [c], [c, d];
    OverflowRun(c, d);
    assert [] + [c] == one && one + [d] == two;
    assert two[..1] == one && one[..0] == [] && two[..0] == [];
    ListSteps([], c);
    ListSteps(one, d);
    hide SelectOf;
    ChoiceCoversIff(two, MAX_UNITS, 0);
    assert OverflowsAt(two, 0, MAX_UNITS, 0);
  }

  lemma OverflowRun(c: AvailableCoinInfo, d: AvailableCoinInfo)
    requires c == AvailableCoinInfo("a", "d", MAX_UNITS - 10, 1) && d == AvailableCoinInfo("b", "d", 100, 1)
    ensures SelectOf([c, d], MAX_UNITS, 0)
            == Some(PayCoinSelection(MAX_UNITS, ["a", "b"], [MAX_UNITS - 10, 11], 0, 0))
    ensures Total([MAX_UNITS - 10, 11]) == MAX_UNITS + 1
  {
    assert [c, d][..1] == [c] && [c][..0] == [];
    var s := Collect([c], MAX_UNITS, 0);
    assert s == AddCoin(Collect([], MAX_UNITS, 0), c);
    assert s.coinPubs == ["a"] && s.contributions == [MAX_UNITS - 10];
    var t := AddCoin(s, d);
    assert Collect([c, d], MAX_UNITS, 0) == t;
    assert t.coinPubs == ["a", "b"] && t.contributions == [MAX_UNITS - 10, 11];
    TotalStep([], MAX_UNITS - 10);
    TotalStep([MAX_UNITS - 10], 11);
    assert [] + [MAX_UNITS - 10] == [MAX_UNITS - 10] && [MAX_UNITS - 10] + [11] == [MAX_UNITS - 10, 11];
  }

  /** The fee limit can keep a payment of the largest amount from overflowing. */
  lemma LargestPaymentMayFit()
    ensures var c := AvailableCoinInfo("c", "d", MAX_UNITS, 1);
            !Overflows(UsableCoins([c]), MAX_UNITS, 1) && SelectOf([c], MAX_UNITS, 1).Some?
  {
    var c := AvailableCoinInfo("c", "d", MAX_UNITS, 1);
    assert [c][..0] == [] && [c][..1] == [c];
    ListSteps([], c);
    assert [] + [c] == [c];
  }

  // ----- Debiting the selected coins -----

  datatype CoinStatus = Fresh | Dormant

  datatype CoinRecord = CoinRecord(currentAmount: Money, status: CoinStatus)

  datatype DebitError = CoinMissing | NotEnoughRemaining

  type Coins = map<string, CoinRecord>

  function AmountOf(coins: Coins): map<string, nat> {
    map k | k in coins :: coins[k].currentAmount
  }

  /** The first n debits of a selection; a missing or insufficient coin aborts. */
  function Debited(coins: Coins, pubs: seq<string>, contributions: seq<Money>, n: nat): Result<Coins, DebitError>
    requires n <= |pubs| == |contributions|
  {
    if n == 0 then Success(coins)
    else
      match Debited(coins, pubs, contributions, n - 1)
      case Failure(e) => Failure(e)
      case Success(cs) =>
        if pubs[n - 1] !in cs then Failure(CoinMissing)
        else
          var c := cs[pubs[n - 1]];
          if MinusSaturates(c.currentAmount, contributions[n - 1]) then Failure(NotEnoughRemaining)
          else Success(cs[pubs[n - 1] := CoinRecord(Minus(c.currentAmount, contributions[n - 1]), Dormant)])
  }

  class CoinStore {
    var coins: Coins

    /** The coin part of the transaction: all coins are debited, or the transaction aborts and
        none is. */
    method RecordConfirmPay(pubs: seq<string>, contributions: seq<Money>) returns (r: Result<(), DebitError>)
      requires |pubs| == |contributions|
      modifies this
      ensures match Debited(old(coins), pubs, contributions, |pubs|)
              case Success(cs) => r == Success(()) && coins == cs
              case Failure(e) => r == Failure(e) && coins == old(coins)
    {
      var before := coins;
      for i := 0 to |pubs|
        invariant Debited(before, pubs, contributions, i) == Success(coins)
      {
        if pubs[i] !in coins {
          DebitFails(before, pubs, contributions, i + 1, |pubs|);
          coins := before;
          return Failure(CoinMissing);
        }
        var coin := coins[pubs[i]];
        coin := coin.(status := Dormant);
        if MinusSaturates(coin.currentAmount, contributions[i]) {
          DebitFails(before, pubs, contributions, i + 1, |pubs|);
          coins := before;
          return Failure(NotEnoughRemaining);
        }
        coin := coin.(currentAmount := Minus(coin.currentAmount, contributions[i]));
        coins := coins[pubs[i] := coin];
      }
      return Success(());
    }
  }

  lemma {:induction false} DebitFails(coins: Coins, pubs: seq<string>, contributions: seq<Money>, i: nat, n: nat)
    requires i <= n <= |pubs| == |contributions|
    requires Debited(coins, pubs, contributions, i).Failure?
    ensures Debited(coins, pubs, contributions, n) == Debited(coins, pubs, contributions, i)
  {
    if i < n {
      DebitFails(coins, pubs, contributions, i, n - 1);
    }
  }

  /** What the first n contributions take from the coin k. */
  ghost function Taken(pubs: seq<string>, contributions: seq<Money>, n: nat, k: string): nat
    requires n <= |pubs| == |contributions|
  {
    if n == 0 then 0
    else Taken(pubs, contributions, n - 1, k) + if pubs[n - 1] == k then contributions[n - 1] else 0
  }

  /** Coin i of a selection exists and has enough left when its turn comes. */
  ghost predicate CanTake(coins: Coins, pubs: seq<string>, contributions: seq<Money>, i: nat)
    requires i < |pubs| == |contributions|
  {
    pubs[i] in coins && Taken(pubs, contributions, i, pubs[i]) + contributions[i] <= coins[pubs[i]].currentAmount
  }

  /** The coins after the debits: each has given its contributions, and is dormant if it was selected. */
  ghost predicate DebitedExactly(coins: Coins, after: Coins, pubs: seq<string>, contributions: seq<Money>, n: nat)
    requires n <= |pubs| == |contributions|
  {
    && after.Keys == coins.Keys
    && forall k :: k in coins ==>
          && after[k].currentAmount + Taken(pubs, contributions, n, k) == coins[k].currentAmount
          && after[k].status == if k in pubs[..n] then Dormant else coins[k].status
  }

  /** The debit fails exactly if some coin is missing or has too little left at its turn, and reports the
      first such coin. Otherwise each coin gives its contributions, and no other coin changes. */
  lemma {:induction false} DebitFailsIff(coins: Coins, pubs: seq<string>, contributions: seq<Money>, n: nat)
    requires n <= |pubs| == |contributions|
    ensures match Debited(coins, pubs, contributions, n)
            case Success(cs) =>
              && (forall i: nat | i < n :: CanTake(coins, pubs, contributions, i))
              && DebitedExactly(coins, cs, pubs, contributions, n)
            case Failure(e) =>
              exists i: nat | i < n ::
                && (forall j: nat | j < i :: CanTake(coins, pubs, contributions, j))
                && !CanTake(coins, pubs, contributions, i)
                && e == if pubs[i] in coins then NotEnoughRemaining else CoinMissing
  {
    if n > 0 {
      DebitFailsIff(coins, pubs, contributions, n - 1);
      if Debited(coins, pubs, contributions, n - 1).Success? {
        assert pubs[..n] == pubs[..n - 1] + [pubs[n - 1]];
        assert CanTake(coins, pubs, contributions, n - 1) <==> Debited(coins, pubs, contributions, n).Success?;
      }
    }
  }

  ghost predicate Distinct(pubs: seq<string>) {
    forall i, j | 0 <= i < j < |pubs| :: pubs[i] != pubs[j]
  }

  /** The selected coins are in the store, each with the amount that was available. */
  ghost predicate Unchanged(coins: Coins, chosen: seq<AvailableCoinInfo>) {
    forall i | 0 <= i < |chosen| ::
      chosen[i].coinPub in coins && coins[chosen[i].coinPub].currentAmount == chosen[i].availableAmount
  }

  ghost predicate Payable(coins: Coins, chosen: seq<AvailableCoinInfo>, contributions: seq<Money>) {
    && |chosen| == |contributions|
    && Distinct(PubsOf(chosen)) && Unchanged(coins, chosen)
    && forall i | 0 <= i < |chosen| :: contributions[i] <= chosen[i].availableAmount
  }

  /** Debiting distinct and unchanged coins never fails. */
  lemma {:induction false} DebitNeverFails(
    coins: Coins, chosen: seq<AvailableCoinInfo>, contributions: seq<Money>, n: nat)
    requires Payable(coins, chosen, contributions) && n <= |chosen|
    ensures var r := Debited(coins, PubsOf(chosen), contributions, n);
            r.Success? && Unchanged(r.value, chosen[n..])
  {
    if n > 0 {
      DebitNeverFails(coins, chosen, contributions, n - 1);
      var cs := Debited(coins, PubsOf(chosen), contributions, n - 1).value;
      var cs' := Debited(coins, PubsOf(chosen), contributions, n).value;
      assert chosen[n - 1..][0] == chosen[n - 1];
      forall i | 0 <= i < |chosen[n..]|
        ensures var c := chosen[n..][i]; c.coinPub in cs' && cs'[c.coinPub].currentAmount == c.availableAmount
      {
        assert chosen[n..][i] == chosen[n - 1..][i + 1] == chosen[n + i];
        assert PubsOf(chosen)[n - 1] != PubsOf(chosen)[n + i];
      }
    }
  }

  /** A debited coin has given its contribution and is dormant. */
  lemma {:induction false} DebitedCoin(
    coins: Coins, chosen: seq<AvailableCoinInfo>, contributions: seq<Money>, n: nat, i: nat)
    requires Payable(coins, chosen, contributions) && i < n <= |chosen|
    ensures var r := Debited(coins, PubsOf(chosen), contributions, n);
            && r.Success? && chosen[i].coinPub in r.value
            && r.value[chosen[i].coinPub] == CoinRecord(chosen[i].availableAmount - contributions[i], Dormant)
  {
    DebitNeverFails(coins, chosen, contributions, n);
    DebitNeverFails(coins, chosen, contributions, n - 1);
    if i < n - 1 {
      DebitedCoin(coins, chosen, contributions, n - 1, i);
      assert PubsOf(chosen)[i] != PubsOf(chosen)[n - 1];
    } else {
      assert chosen[n - 1..][0] == chosen[n - 1];
    }
  }

  /** Coins that were not selected are left alone. */
  lemma {:induction false} OtherCoinsUntouched(
    coins: Coins, pubs: seq<string>, contributions: seq<Money>, n: nat, k: string)
    requires n <= |pubs| == |contributions| && k !in pubs
    ensures var r := Debited(coins, pubs, contributions, n);
            r.Success? ==> (k in r.value <==> k in coins) && (k in coins ==> r.value[k] == coins[k])
  {
    if n > 0 {
      OtherCoinsUntouched(coins, pubs, contributions, n - 1, k);
    }
  }

  /** The wallet's total goes down by exactly the contributions. */
  lemma {:induction false} DebitedTotal(
    coins: Coins, chosen: seq<AvailableCoinInfo>, contributions: seq<Money>, n: nat)
    requires Payable(coins, chosen, contributions) && n <= |chosen|
    ensures var r := Debited(coins, PubsOf(chosen), contributions, n);
            r.Success? && SumMap(AmountOf(r.value)) + Total(contributions[..n]) == SumMap(AmountOf(coins))
  {
    DebitNeverFails(coins, chosen, contributions, n);
    if n > 0 {
      var k := PubsOf(chosen)[n - 1];
      DebitedTotal(coins, chosen, contributions, n - 1);
      DebitNeverFails(coins, chosen, contributions, n - 1);
      var cs := Debited(coins, PubsOf(chosen), contributions, n - 1).value;
      assert chosen[n - 1..][0] == chosen[n - 1];
      TakeFromCoin(cs, k, CoinRecord(Minus(cs[k].currentAmount, contributions[n - 1]), Dormant));
      assert contributions[..n] == contributions[..n - 1] + [contributions[n - 1]];
      TotalStep(contributions[..n - 1], contributions[n - 1]);
    } else {
      assert contributions[..0] == [];
    }
  }

  lemma TakeFromCoin(coins: Coins, k: string, c: CoinRecord)
    requires k in coins
    ensures SumMap(AmountOf(coins[k := c])) + coins[k].currentAmount == SumMap(AmountOf(coins)) + c.currentAmount
  {
    SumPut(AmountOf(coins), k, c.currentAmount);
    assert AmountOf(coins[k := c]) == AmountOf(coins)[k := c.currentAmount];
  }

  /** From selection to debit: the coins that selectPayCoins chose can always be debited, and
      the wallet loses exactly their contributions. */
  lemma SelectionCanBePaid(
    coins: Coins, sorted: seq<AvailableCoinInfo>, payment: Money, limit: Money, sel: PayCoinSelection)
    requires Selection(sorted, payment, limit, Some(sel))
    requires Distinct(PubsOf(UsableCoins(sorted))) && Unchanged(coins, UsableCoins(sorted))
    ensures |sel.coinPubs| == |sel.coinContributions|
    ensures var r := Debited(coins, sel.coinPubs, sel.coinContributions, |sel.coinPubs|);
            r.Success? && SumMap(AmountOf(coins)) == SumMap(AmountOf(r.value)) + Total(sel.coinContributions)
    ensures |sel.coinPubs| <= |UsableCoins(sorted)|
    ensures Total(sel.coinContributions) >= Due(UsableCoins(sorted)[..|sel.coinPubs|], payment, limit)
  {
    var usable := UsableCoins(sorted);
    var k: nat :| && ShortestCover(usable, payment, limit, k)
                  && sel.coinPubs == PubsOf(usable[..k])
                  && ExactContributions(usable[..k], sel.coinContributions, payment, limit);
    forall i, j | 0 <= i < j < k
      ensures PubsOf(usable[..k])[i] != PubsOf(usable[..k])[j]
    {
      assert PubsOf(usable)[i] != PubsOf(usable)[j];
    }
    DebitedTotal(coins, usable[..k], sel.coinContributions, k);
    assert sel.coinContributions[..k] == sel.coinContributions;
  }
}

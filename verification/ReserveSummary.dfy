// The totals of a reserve history (src/util/reserveHistoryUtil.ts, summarizeReserveHistory).
module ReserveSummary {
  import opened Wrappers
  import opened Amounts
  import opened ReserveHistory

  datatype ReserveHistorySummary = ReserveHistorySummary(
    computedReserveBalance: Money,
    unclaimedReserveAmount: Money,
    awaitedReserveAmount: Money,
    withdrawnAmount: Money)

  datatype SummaryError = InvariantFailed

  function SumOf(amounts: seq<Money>): nat {
    if amounts == [] then 0 else SumOf(amounts[..|amounts| - 1]) + amounts[|amounts| - 1]
  }

  lemma SumOfStep(amounts: seq<Money>, m: Money)
    ensures SumOf(amounts + [m]) == SumOf(amounts) + m
  {
    assert (amounts + [m])[..|amounts|] == amounts;
  }

  /** Amounts.add(zero, ...amounts).amount */
  function AddAll(amounts: seq<Money>): Money {
    if SumOf(amounts) > MAX_UNITS then MAX_UNITS else SumOf(amounts)
  }

  /** Amounts.sub(a, ...amounts).amount */
  function SubAll(a: Money, amounts: seq<Money>): Money {
    if SumOf(amounts) > a then 0 else a - SumOf(amounts)
  }

  function UnitsOf(amounts: seq<Amount>): (us: seq<Money>)
    requires forall i | 0 <= i < |amounts| :: InRange(amounts[i])
    ensures |us| == |amounts|
  {
    if amounts == [] then []
    else
      var last := amounts[|amounts| - 1];
      FromUnitsInverse(last, 0);
      UnitsOf(amounts[..|amounts| - 1]) + [Units(last)]
  }

  lemma {:induction false} SumOfUnits(amounts: seq<Amount>)
    requires forall i | 0 <= i < |amounts| :: InRange(amounts[i])
    ensures SumOf(UnitsOf(amounts)) == TotalUnits(amounts)
  {
    if amounts != [] {
      var n := |amounts| - 1;
      SumOfUnits(amounts[..n]);
      FromUnitsInverse(amounts[n], 0);
      SumOfStep(UnitsOf(amounts[..n]), Units(amounts[n]));
    }
  }

  /** Adding and subtracting lists of in-range amounts of one currency is AddAll and SubAll. */
  method ListsAreAmounts(a: Amount, amounts: seq<Amount>) returns (sum: Amount, difference: Amount)
    requires InRange(a) && SameCurrency(a.currency, amounts)
    requires forall i | 0 <= i < |amounts| :: InRange(amounts[i])
    ensures Units(a) <= MAX_UNITS
    ensures sum == FromUnits(a.currency, AddAll(UnitsOf(amounts)))
    ensures difference == FromUnits(a.currency, SubAll(Units(a), UnitsOf(amounts)))
  {
    FromUnitsInverse(a, 0);
    SumOfUnits(amounts);
    AllSameCurrency(a.currency, amounts);
    assert amounts[..|amounts|] == amounts;
    var s := Add(Amount(a.currency, 0, 0), amounts);
    sum := s.value.amount;
    var d := Sub(a, amounts);
    difference := Amount(a.currency, d.value.value, d.value.fraction);
  }

  const INCOMING: set<ItemType> := {CreditItem, RecoupItem}
  const OUTGOING: set<ItemType> := {WithdrawItem, ClosingItem}

  /** The amounts of the matched transactions of the given types. */
  function MatchedSum(history: seq<HistoryItem>, types: set<ItemType>): nat {
    if history == [] then 0
    else MatchedSum(history[..|history| - 1], types) + MatchedAmount(history[|history| - 1], types)
  }

  function MatchedAmount(item: HistoryItem, types: set<ItemType>): nat {
    if item.matched.Some? && TypeOf(item.matched.value) in types then item.matched.value.amount else 0
  }

  /** The amounts that unmatched items of the given type are waiting for. */
  function ExpectedSum(history: seq<HistoryItem>, itemType: ItemType): nat {
    if history == [] then 0
    else ExpectedSum(history[..|history| - 1], itemType) + ExpectedAmount(history[|history| - 1], itemType)
  }

  function ExpectedAmount(item: HistoryItem, itemType: ItemType): nat {
    if item.itemType == itemType && item.matched.None? && item.expectedAmount.Some? then item.expectedAmount.value
        else 0
  }

  /** A closing that is not matched, or a withdrawal that is neither matched nor expected. */
  predicate Broken(item: HistoryItem) {
    || (item.itemType == ClosingItem && item.matched.None?)
    || (item.itemType == WithdrawItem && item.matched.None? && item.expectedAmount.None?)
  }

  function ClampUp(n: nat): Money {
    if n > MAX_UNITS then MAX_UNITS else n
  }

  function ClampDown(n: int): Money
    requires n <= MAX_UNITS
  {
    if n < 0 then 0 else n
  }

  /** The totals in terms of the history: what came in, what went out, what is still expected. */
  function SummaryOf(history: seq<HistoryItem>): ReserveHistorySummary {
    var balance := ClampUp(MatchedSum(history, INCOMING)) - MatchedSum(history, OUTGOING);
    var pendingWithdrawals := ExpectedSum(history, WithdrawItem);
    ReserveHistorySummary(
      ClampDown(balance),
      ClampDown(balance - pendingWithdrawals),
      ClampDown(ClampUp(ExpectedSum(history, CreditItem)) - pendingWithdrawals),
      ClampUp(MatchedSum(history, {WithdrawItem})))
  }

  /** The lists of amounts built by the loop over the items. */
  datatype Lists = Lists(pos: seq<Money>, neg: seq<Money>, expectedPos: seq<Money>, expectedNeg: seq<Money>,
      withdrawn: seq<Money>)

  ghost predicate ListsOf(history: seq<HistoryItem>, l: Lists) {
    && SumOf(l.pos) == MatchedSum(history, INCOMING)
    && SumOf(l.neg) == MatchedSum(history, OUTGOING)
    && SumOf(l.expectedPos) == ExpectedSum(history, CreditItem)
    && SumOf(l.expectedNeg) == ExpectedSum(history, WithdrawItem)
    && SumOf(l.withdrawn) == MatchedSum(history, {WithdrawItem})
  }

  method SummarizeReserveHistory(history: seq<HistoryItem>) returns (r: Result<ReserveHistorySummary, SummaryError>)
    requires WellTyped(history)
    ensures r == if exists i :: 0 <= i < |history| && Broken(history[i]) then Failure(InvariantFailed)
                 else Success(SummaryOf(history))
  {
    var lists := CollectAmounts(history);
    if lists.None? {
      return Failure(InvariantFailed);
    }
    var l := lists.value;
    SumOfConcat(l.neg, l.expectedNeg);
    return Success(ReserveHistorySummary(
      SubAll(AddAll(l.pos), l.neg),
      SubAll(AddAll(l.pos), l.neg + l.expectedNeg),
      SubAll(AddAll(l.expectedPos), l.expectedNeg),
      AddAll(l.withdrawn)));
  }

  /** The loop over the items; None when it throws. */
  method CollectAmounts(history: seq<HistoryItem>) returns (l: Option<Lists>)
    requires WellTyped(history)
    ensures l.None? <==> exists i :: 0 <= i < |history| && Broken(history[i])
    ensures l.Some? ==> ListsOf(history, l.value)
  {
    var lists := Lists([], [], [], [], []);
    for i := 0 to |history|
      invariant ListsOf(history[..i], lists)
      invariant forall j | 0 <= j < i :: !Broken(history[j])
    {
      SumsStep(history, i);
      var added := AddItem(history[i], lists);
      if added.None? {
        return None;
      }
      lists := added.value;
    }
    assert history[..|history|] == history;
    return Some(lists);
  }

  /** The switch of the loop: where the amount of one item goes, or None where it throws. */
  method AddItem(item: HistoryItem, l: Lists) returns (r: Option<Lists>)
    requires item.matched.Some? ==> TypeOf(item.matched.value) == item.itemType
    ensures r.None? <==> Broken(item)
    ensures r.Some? ==>
              && SumOf(r.value.pos) == SumOf(l.pos) + MatchedAmount(item, INCOMING)
              && SumOf(r.value.neg) == SumOf(l.neg) + MatchedAmount(item, OUTGOING)
              && SumOf(r.value.expectedPos) == SumOf(l.expectedPos) + ExpectedAmount(item, CreditItem)
              && SumOf(r.value.expectedNeg) == SumOf(l.expectedNeg) + ExpectedAmount(item, WithdrawItem)
              && SumOf(r.value.withdrawn) == SumOf(l.withdrawn) + MatchedAmount(item, {WithdrawItem})
  {
    hide SumOf;
    var l' := l;
    match item.itemType {
      case CreditItem =>
        if item.matched.Some? {
          l' := l.(pos := Push(l.pos, item.matched.value.amount));
        } else if item.expectedAmount.Some? {
          l' := l.(expectedPos := Push(l.expectedPos, item.expectedAmount.value));
        }
      case RecoupItem =>
        if item.matched.Some? {
          l' := l.(pos := Push(l.pos, item.matched.value.amount));
        }
      case ClosingItem =>
        if item.matched.None? {
          return None;
        }
        l' := l.(neg := Push(l.neg, item.matched.value.amount));
      case WithdrawItem =>
        if item.matched.Some? {
          var amount := item.matched.value.amount;
          l' := l.(neg := Push(l.neg, amount), withdrawn := Push(l.withdrawn, amount));
        } else if item.expectedAmount.Some? {
          l' := l.(expectedNeg := Push(l.expectedNeg, item.expectedAmount.value));
        } else {
          return None;
        }
    }
    return Some(l');
  }

  function Push(amounts: seq<Money>, m: Money): (r: seq<Money>)
    ensures SumOf(r) == SumOf(amounts) + m
  {
    SumOfStep(amounts, m);
    amounts + [m]
  }

  lemma SumsStep(history: seq<HistoryItem>, i: nat)
    requires i < |history|
    ensures forall ts: set<ItemType> ::
              MatchedSum(history[..i + 1], ts) == MatchedSum(history[..i], ts) + MatchedAmount(history[i], ts)
    ensures forall t :: ExpectedSum(history[..i + 1], t) == ExpectedSum(history[..i], t) + ExpectedAmount(history[i], t)
  {
    assert history[..i + 1][..i] == history[..i];
  }

  lemma {:induction false} SumOfConcat(a: seq<Money>, b: seq<Money>)
    ensures SumOf(a + b) == SumOf(a) + SumOf(b)
  {
    if b == [] {
      assert a + b == a;
    } else {
      SumOfConcat(a, b[..|b| - 1]);
      assert (a + b)[..|a + b| - 1] == a + b[..|b| - 1];
    }
  }

  // ----- The wallet's balance is the exchange's balance -----

  function RemoteSum(remote: seq<ReserveTransaction>, types: set<ItemType>): nat {
    if remote == [] then 0
    else RemoteSum(remote[..|remote| - 1], types) + RemoteAmount(remote[|remote| - 1], types)
  }

  function RemoteAmount(t: ReserveTransaction, types: set<ItemType>): nat {
    if TypeOf(t) in types then t.amount else 0
  }

  /** Transactions with the same identity carry the same amount, in the exchange's history and
      in the wallet's matches. */
  ghost predicate EqualAmounts(local: seq<HistoryItem>, remote: seq<ReserveTransaction>) {
    forall i, r | 0 <= i < |local| && 0 <= r < |remote| && local[i].matched.Some? ::
      Key(local[i].matched.value) == Key(remote[r]) ==> local[i].matched.value.amount == remote[r].amount
  }

  lemma {:induction false} MatchedSumConcat(s: seq<HistoryItem>, t: seq<HistoryItem>, types: set<ItemType>)
    ensures MatchedSum(s + t, types) == MatchedSum(s, types) + MatchedSum(t, types)
  {
    if t == [] {
      assert s + t == s;
    } else {
      MatchedSumConcat(s, t[..|t| - 1], types);
      assert (s + t)[..|s + t| - 1] == s + t[..|t| - 1];
    }
  }

  lemma {:induction false} FindMatched(local: seq<HistoryItem>, k: ReserveTransaction) returns (i: nat)
    requires MatchedCount(local, k) > 0
    ensures i < |local| && MatchedWith(local[i], k)
  {
    if MatchedWith(local[|local| - 1], k) {
      i := |local| - 1;
    } else {
      i := FindMatched(local[..|local| - 1], k);
    }
  }

  /** Taking one item out of a history takes its contribution out of the counts and sums. */
  lemma RemoveItem(local: seq<HistoryItem>, i: nat, k: ReserveTransaction, types: set<ItemType>)
    requires i < |local|
    ensures var local' := local[..i] + local[i + 1..];
            && MatchedCount(local, k) == MatchedCount(local', k) + Is(MatchedWith(local[i], k))
            && MatchedSum(local, types) == MatchedSum(local', types) + MatchedAmount(local[i], types)
  {
    var a, x, b := local[..i], local[i], local[i + 1..];
    assert local == (a + [x]) + b;
    MatchedCountConcat(a + [x], b, k);
    MatchedCountConcat(a, b, k);
    MatchedCountStep(a, x, k);
    MatchedSumConcat(a + [x], b, types);
    MatchedSumConcat(a, b, types);
    assert (a + [x])[..|a|] == a;
  }

  lemma {:induction false} NoneMatched(local: seq<HistoryItem>, types: set<ItemType>)
    requires forall k :: MatchedCount(local, k) == 0
    ensures MatchedSum(local, types) == 0
  {
    if local != [] {
      var last := local[|local| - 1];
      var init := local[..|local| - 1];
      forall k ensures MatchedCount(init, k) == 0 {
        assert MatchedCount(local, k) == 0;
      }
      NoneMatched(init, types);
      LastIsCounted(local);
    }
  }

  lemma LastIsCounted(items: seq<HistoryItem>)
    ensures items != [] && items[|items| - 1].matched.Some? ==>
              MatchedCount(items, Key(items[|items| - 1].matched.value)) > 0
  {
  }

  /** Histories in agreement have the same totals. */
  lemma {:induction false} AgreementGivesSums(local: seq<HistoryItem>, remote: seq<ReserveTransaction>,
      types: set<ItemType>)
    requires InAgreement(local, remote) && EqualAmounts(local, remote)
    ensures MatchedSum(local, types) == RemoteSum(remote, types)
    decreases |remote|
  {
    if remote == [] {
      NoneMatched(local, types);
    } else {
      var remote', t := remote[..|remote| - 1], remote[|remote| - 1];
      assert MatchedCount(local, Key(t)) == RemoteCount(remote, Key(t)) > 0;
      var i := FindMatched(local, Key(t));
      var local' := local[..i] + local[i + 1..];
      forall k ensures MatchedCount(local', k) == RemoteCount(remote', k) {
        RemoveItem(local, i, k, types);
        assert MatchedCount(local, k) == RemoteCount(remote, k);
      }
      RemoveItem(local, i, Key(t), types);
      forall j, r | 0 <= j < |local'| && 0 <= r < |remote'| && local'[j].matched.Some?
        ensures Key(local'[j].matched.value) == Key(remote'[r]) ==> local'[j].matched.value.amount == remote'[r].amount
      {
        assert local'[j] == local[if j < i then j else j + 1];
      }
      AgreementGivesSums(local', remote', types);
    }
  }

  /** Once reconciled, the wallet computes the reserve's balance at the exchange: its credits and
      recoups minus its withdrawals and closings. */
  lemma ComputedBalanceIsExchangeBalance(local: seq<HistoryItem>, remote: seq<ReserveTransaction>)
    requires InAgreement(local, remote) && EqualAmounts(local, remote)
    requires RemoteSum(remote, OUTGOING) <= RemoteSum(remote, INCOMING) <= MAX_UNITS
    ensures SummaryOf(local).computedReserveBalance == RemoteSum(remote, INCOMING) - RemoteSum(remote, OUTGOING)
  {
    AgreementGivesSums(local, remote, INCOMING);
    AgreementGivesSums(local, remote, OUTGOING);
  }

  /** What is awaited is what the expected transfers bring in beyond the expected withdrawals. */
  lemma AwaitedIsExpected(history: seq<HistoryItem>)
    ensures var transfers, pending := ExpectedSum(history, CreditItem), ExpectedSum(history, WithdrawItem);
            SummaryOf(history).awaitedReserveAmount ==
            if transfers <= pending || MAX_UNITS <= pending then 0
            else if transfers <= MAX_UNITS then transfers - pending else MAX_UNITS - pending
  {
  }

  /** It then counts as withdrawn what the exchange reports as withdrawn, and as unclaimed what is left of
      the balance after the withdrawals that are still expected. */
  lemma WithdrawnIsReported(local: seq<HistoryItem>, remote: seq<ReserveTransaction>)
    requires InAgreement(local, remote) && EqualAmounts(local, remote)
    requires RemoteSum(remote, OUTGOING) <= RemoteSum(remote, INCOMING) <= MAX_UNITS
    ensures SummaryOf(local).withdrawnAmount == RemoteSum(remote, {WithdrawItem})
    ensures var pending := ExpectedSum(local, WithdrawItem);
            var balance := RemoteSum(remote, INCOMING) - RemoteSum(remote, OUTGOING);
            SummaryOf(local).unclaimedReserveAmount == if pending <= balance then balance - pending else 0
  {
    AgreementGivesSums(local, remote, INCOMING);
    AgreementGivesSums(local, remote, OUTGOING);
    AgreementGivesSums(local, remote, {WithdrawItem});
    WithdrawnIsOutgoing(remote);
  }

  lemma {:induction false} WithdrawnIsOutgoing(remote: seq<ReserveTransaction>)
    ensures RemoteSum(remote, {WithdrawItem}) <= RemoteSum(remote, OUTGOING)
  {
    if remote != [] {
      WithdrawnIsOutgoing(remote[..|remote| - 1]);
    }
  }
}

// Runs of reserve updates and depletions (src/operations/reserves.ts, the transactions in
// updateReserve and depleteReserve, and the status transitions around them).
//
// The exchange only ever appends to a reserve's history.  Replies of the network are not modelled:
// an update sees the exchange's history of that moment, and depletions may be prepared with any
// denominations at any time.
module ReserveRun {
  import opened Wrappers
  import opened Amounts
  import opened ReserveHistory
  import opened ReserveSummary
  import opened ReserveMatches

  datatype ReserveStatus = Unconfirmed | RegisteringBank | WaitConfirmBank | QueryingStatus | Withdrawing | Dormant

  datatype State = State(status: ReserveStatus, history: seq<HistoryItem>)

  // ----- The transactions -----

  /** What the transaction in updateReserve does, given the exchange's history. */
  ghost predicate Updated(s: State, remote: seq<ReserveTransaction>, s': State) {
    if s.status != QueryingStatus then
      s' == s
    else
      exists out ::
        && Reconciled(s.history, remote, out)
        && s'.history == out.updatedLocalHistory
        && s'.status == if |out.newAddedItems| + |out.newMatchedItems| != 0 then Withdrawing else Dormant
  }

  function ClaimItems(costs: seq<Money>): (items: seq<HistoryItem>)
    ensures |items| == |costs|
  {
    if costs == [] then []
    else ClaimItems(costs[..|costs| - 1]) + [HistoryItem(WithdrawItem, Some(costs[|costs| - 1]), None)]
  }

  /** The cost of each withdrawn coin: its value and its withdrawal fee. */
  function Costs(values: seq<Money>, fees: seq<Money>): (c: seq<Money>)
    requires |values| == |fees|
    ensures |c| == |values|
  {
    if values == [] then []
    else
      var n := |values| - 1;
      Costs(values[..n], fees[..n]) + [Plus(values[n], fees[n])]
  }

  /** What the transaction in depleteReserve does for the coins that were prepared. */
  function Depleted(s: State, values: seq<Money>, fees: seq<Money>): State
    requires |values| == |fees|
  {
    if s.status != Withdrawing then s
    else if SummaryOf(s.history).unclaimedReserveAmount < Plus(AddAll(values), AddAll(fees)) then s
    else State(Dormant, s.history + ClaimItems(Costs(values, fees)))
  }

  datatype UpdateError = MatchLost | HistoryBroken

  ghost predicate HasBroken(history: seq<HistoryItem>) {
    exists i :: 0 <= i < |history| && Broken(history[i])
  }

  class Reserve {
    var reserveStatus: ReserveStatus
    var reserveTransactions: seq<HistoryItem>

    ghost function Abs(): State
      reads this
    {
      State(reserveStatus, reserveTransactions)
    }

    /** Creates the reserve with the transfer that the user is expected to make. */
    constructor (expected: Money, viaBank: bool)
      ensures Abs() == Created(expected, viaBank)
    {
      reserveStatus := if viaBank then RegisteringBank else Unconfirmed;
      reserveTransactions := [HistoryItem(CreditItem, Some(expected), None)];
    }

    /** Reconciles and summarizes; the transaction is given up if either throws. */
    method UpdateReserve(remote: seq<ReserveTransaction>) returns (r: Result<(), UpdateError>)
      requires WellTyped(reserveTransactions)
      modifies this
      ensures WellTyped(reserveTransactions)
      ensures r == if old(reserveStatus) != QueryingStatus then Success(())
                   else if !NothingLost(old(reserveTransactions), remote) then Failure(MatchLost)
                   else if HasBroken(old(reserveTransactions)) then Failure(HistoryBroken)
                   else Success(())
      ensures r.Success? ==> Updated(old(Abs()), remote, Abs())
      ensures r.Failure? ==> Abs() == old(Abs())
    {
      if reserveStatus != QueryingStatus {
        return Success(());
      }
      var reconciled := ReconcileReserveHistory(reserveTransactions, remote);
      if reconciled.Failure? {
        return Failure(MatchLost);
      }
      var out := reconciled.value;
      BrokenStaysBroken(reserveTransactions, remote, out);
      var summary := SummarizeReserveHistory(out.updatedLocalHistory);
      if summary.Failure? {
        return Failure(HistoryBroken);
      }
      if |out.newAddedItems| + |out.newMatchedItems| != 0 {
        reserveStatus := Withdrawing;
      } else {
        reserveStatus := Dormant;
      }
      reserveTransactions := out.updatedLocalHistory;
      return Success(());
    }

    method DepleteReserve(values: seq<Money>, fees: seq<Money>) returns (r: Result<bool, UpdateError>)
      requires |values| == |fees| && WellTyped(reserveTransactions)
      modifies this
      ensures r.Failure? <==> old(reserveStatus) == Withdrawing && HasBroken(old(reserveTransactions))
      ensures Abs() == if r.Success? then Depleted(old(Abs()), values, fees) else old(Abs())
      ensures r.Success? ==> (r.value <==> old(reserveStatus) == Withdrawing && reserveStatus == Dormant)
    {
      hide SummaryOf, Reconciled, ClaimItems, Costs, WellTyped, Broken;
      if reserveStatus != Withdrawing {
        return Success(false);
      }
      var summary := SummarizeReserveHistory(reserveTransactions);
      if summary.Failure? {
        return Failure(HistoryBroken);
      }
      var totalWithdrawAmount := Plus(AddAll(values), AddAll(fees));
      if summary.value.unclaimedReserveAmount < totalWithdrawAmount {
        return Success(false);
      }
      PushClaims(values, fees);
      reserveStatus := Dormant;
      return Success(true);
    }

    /** Expects a withdrawal for every coin, of its value and fee. */
    method PushClaims(values: seq<Money>, fees: seq<Money>)
      requires |values| == |fees|
      modifies this
      ensures reserveStatus == old(reserveStatus)
      ensures reserveTransactions == old(reserveTransactions) + ClaimItems(Costs(values, fees))
    {
      hide ClaimItems;
      assert ClaimItems(Costs(values[..0], fees[..0])) == [] by { NoClaims(); }
      for i := 0 to |values|
        invariant reserveStatus == old(reserveStatus)
        invariant reserveTransactions == old(reserveTransactions) + ClaimItems(Costs(values[..i], fees[..i]))
      {
        assert values[..i + 1][..i] == values[..i] && fees[..i + 1][..i] == fees[..i];
        ClaimItemsStep(Costs(values[..i], fees[..i]), Plus(values[i], fees[i]));
        reserveTransactions := reserveTransactions + [HistoryItem(WithdrawItem, Some(Plus(values[i], fees[i])), None)];
      }
      assert values[..|values|] == values && fees[..|fees|] == fees;
    }
  }

  /** Reconciling repairs no broken item and adds none; new items have their transaction's type. */
  lemma BrokenStaysBroken(local: seq<HistoryItem>, remote: seq<ReserveTransaction>, out: Reconciliation)
    requires Reconciled(local, remote, out) && WellTyped(local)
    ensures HasBroken(out.updatedLocalHistory) <==> HasBroken(local)
    ensures WellTyped(out.updatedLocalHistory)
  {
    var flags :| ReconciledBy(local, remote, out, flags);
    NewItemsAreMatched(remote, flags);
    var updated := out.updatedLocalHistory;
    forall i | 0 <= i < |updated|
      ensures updated[i].matched.Some? ==> TypeOf(updated[i].matched.value) == updated[i].itemType
      ensures Broken(updated[i]) <==> i < |local| && Broken(local[i])
    {
      if i < |local| {
        assert SameOrNewlyMatched(local[i], updated[i], remote);
      } else {
        assert updated[i] == out.newAddedItems[i - |local|];
      }
    }
  }

  lemma NoClaims()
    ensures ClaimItems([]) == []
  {
  }

  lemma ClaimItemsStep(costs: seq<Money>, c: Money)
    ensures ClaimItems(costs + [c]) == ClaimItems(costs) + [HistoryItem(WithdrawItem, Some(c), None)]
  {
    assert (costs + [c])[..|costs|] == costs;
  }

  // ----- Runs -----

  /** The reserve in the wallet, and its history at the exchange. */
  datatype Config = Config(reserve: State, remote: seq<ReserveTransaction>)

  datatype Action =
    | ExchangeAppends(more: seq<ReserveTransaction>)
    | ConfirmOrQuery
    | SelectAtBank
    | Update
    | Deplete(values: seq<Money>, fees: seq<Money>)

  /** A new reserve expects the transfer that the user is to make. */
  function Created(expected: Money, viaBank: bool): State {
    State(if viaBank then RegisteringBank else Unconfirmed, [HistoryItem(CreditItem, Some(expected), None)])
  }

  ghost predicate Init(c: Config) {
    exists expected: Money, viaBank: bool :: c.reserve == Created(expected, viaBank) && c.remote == []
  }

  ghost predicate Step(c: Config, a: Action, c': Config) {
    match a
    case ExchangeAppends(more) => c' == c.(remote := c.remote + more)
    case ConfirmOrQuery => c' == c.(reserve := c.reserve.(status := QueryingStatus))
    case SelectAtBank => c.reserve.status in {RegisteringBank, WaitConfirmBank}
        && c' == c.(reserve := c.reserve.(status := WaitConfirmBank))
    case Update => c'.remote == c.remote && Updated(c.reserve, c.remote, c'.reserve)
    case Deplete(values, fees) => |values| == |fees| && c' == c.(reserve := Depleted(c.reserve, values, fees))
  }

  ghost predicate Run(trace: seq<Config>, actions: seq<Action>) {
    && |trace| == |actions| + 1
    && Init(trace[0])
    && forall i | 0 <= i < |actions| :: Step(trace[i], actions[i], trace[i + 1])
  }

  /** Every match of the wallet is an entry of the exchange's history, one to one. */
  ghost predicate Inv(c: Config) {
    && NothingLost(c.reserve.history, c.remote)
    && WellTyped(c.reserve.history)
    && (forall i | 0 <= i < |c.reserve.history| :: !Broken(c.reserve.history[i]))
    && (forall i | 0 <= i < |c.reserve.history| ::
          c.reserve.history[i].matched.Some? ==> c.reserve.history[i].matched.value in c.remote)
  }

  lemma {:induction false} RemoteCountConcat(a: seq<ReserveTransaction>, b: seq<ReserveTransaction>,
      k: ReserveTransaction)
    ensures RemoteCount(a + b, k) == RemoteCount(a, k) + RemoteCount(b, k)
  {
    if b == [] {
      assert a + b == a;
    } else {
      RemoteCountConcat(a, b[..|b| - 1], k);
      assert (a + b)[..|a + b| - 1] == a + b[..|b| - 1];
    }
  }

  lemma {:induction false} ClaimsAreUnmatched(costs: seq<Money>, k: ReserveTransaction)
    ensures MatchedCount(ClaimItems(costs), k) == 0
    ensures forall i | 0 <= i < |ClaimItems(costs)| ::
              ClaimItems(costs)[i].itemType == WithdrawItem && ClaimItems(costs)[i].matched.None?
              && ClaimItems(costs)[i].expectedAmount.Some?
  {
    if costs != [] {
      var init := costs[..|costs| - 1];
      ClaimsAreUnmatched(init, k);
      MatchedCountStep(ClaimItems(init), HistoryItem(WithdrawItem, Some(costs[|costs| - 1]), None), k);
    }
  }

  /** An update brings the histories into agreement and keeps the invariant. */
  lemma UpdateKeepsInv(local: seq<HistoryItem>, remote: seq<ReserveTransaction>, out: Reconciliation,
      status: ReserveStatus)
    requires Inv(Config(State(QueryingStatus, local), remote)) && Reconciled(local, remote, out)
    ensures Inv(Config(State(status, out.updatedLocalHistory), remote))
    ensures InAgreement(out.updatedLocalHistory, remote)
  {
    var flags :| ReconciledBy(local, remote, out, flags);
    NewItemsAreMatched(remote, flags);
    var updated := out.updatedLocalHistory;
    forall i | 0 <= i < |updated|
      ensures updated[i].matched.Some? ==>
                TypeOf(updated[i].matched.value) == updated[i].itemType && updated[i].matched.value in remote
      ensures !Broken(updated[i])
    {
      if i < |local| {
        assert SameOrNewlyMatched(local[i], updated[i], remote);
      } else {
        assert updated[i] == out.newAddedItems[i - |local|];
      }
    }
  }

  lemma DepleteKeepsInv(c: Config, values: seq<Money>, fees: seq<Money>)
    requires Inv(c) && |values| == |fees|
    ensures Inv(c.(reserve := Depleted(c.reserve, values, fees)))
  {
    var local, claims := c.reserve.history, ClaimItems(Costs(values, fees));
    forall k ensures MatchedCount(local + claims, k) <= RemoteCount(c.remote, k) {
      MatchedCountConcat(local, claims, k);
      ClaimsAreUnmatched(Costs(values, fees), k);
    }
    ClaimsAreUnmatched(Costs(values, fees), Closing(0, ""));
  }

  lemma AppendKeepsInv(c: Config, more: seq<ReserveTransaction>)
    requires Inv(c)
    ensures Inv(c.(remote := c.remote + more))
  {
    var remote' := c.remote + more;
    forall k ensures MatchedCount(c.reserve.history, k) <= RemoteCount(remote', k) {
      RemoteCountConcat(c.remote, more, k);
    }
  }

  /** Whatever the order of updates, depletions and new transactions at the exchange: no matched
      transaction is ever missing, so an update never fails. */
  lemma {:induction false} ReconcileNeverFails(trace: seq<Config>, actions: seq<Action>, n: nat)
    requires Run(trace, actions) && n < |trace|
    ensures Inv(trace[n])
    ensures NothingLost(trace[n].reserve.history, trace[n].remote)
  {
    if n == 0 {
      var expected: Money, viaBank: bool :| trace[0].reserve == Created(expected, viaBank);
      MatchedNothing(trace[0].reserve.history);
    } else {
      ReconcileNeverFails(trace, actions, n - 1);
      var c, c' := trace[n - 1], trace[n];
      assert Step(c, actions[n - 1], c');
      match actions[n - 1]
      case ExchangeAppends(more) => AppendKeepsInv(c, more);
      case ConfirmOrQuery =>
      case SelectAtBank =>
      case Update =>
        if c.reserve.status == QueryingStatus {
          var out :| Reconciled(c.reserve.history, c.remote, out) && c'.reserve.history == out.updatedLocalHistory;
          UpdateKeepsInv(c.reserve.history, c.remote, out, c'.reserve.status);
        }
      case Deplete(values, fees) => DepleteKeepsInv(c, values, fees);
    }
  }

  lemma MatchedNothing(history: seq<HistoryItem>)
    requires |history| == 1 && history[0].matched.None?
    ensures forall k :: MatchedCount(history, k) == 0
  {
    assert history[..0] == [];
  }

  // ----- Reconciling twice -----

  /** Items before and after a reconciliation that left every count unchanged are the same. */
  lemma {:induction false} CountsOnlyGrow(before: seq<HistoryItem>, after: seq<HistoryItem>,
      remote: seq<ReserveTransaction>, k: ReserveTransaction)
    requires |before| == |after| && forall i | 0 <= i < |before| :: SameOrNewlyMatched(before[i], after[i], remote)
    ensures MatchedCount(before, k) <= MatchedCount(after, k)
    ensures MatchedCount(before, k) < MatchedCount(after, k) <==>
            exists i :: 0 <= i < |before| && before[i] != after[i] && MatchedWith(after[i], k)
  {
    if before != [] {
      var n := |before| - 1;
      CountsOnlyGrow(before[..n], after[..n], remote, k);
      assert SameOrNewlyMatched(before[n], after[n], remote);
      assert (exists i :: 0 <= i < |before| && before[i] != after[i] && MatchedWith(after[i], k)) <==>
             (exists i :: 0 <= i < n && before[..n][i] != after[..n][i] && MatchedWith(after[..n][i], k))
             || (before[n] != after[n] && MatchedWith(after[n], k));
    }
  }

  lemma {:induction false} SameMatchesNothing(before: seq<HistoryItem>)
    ensures NewlyMatched(before, before) == []
  {
    if before != [] {
      SameMatchesNothing(before[..|before| - 1]);
    }
  }

  /** Reconciling again with the same history adds nothing, matches nothing, changes nothing. */
  lemma ReconcileIsIdempotent(local: seq<HistoryItem>, remote: seq<ReserveTransaction>, out: Reconciliation)
    requires InAgreement(local, remote) && Reconciled(local, remote, out)
    ensures out == Reconciliation(local, [], [])
  {
    var flags :| ReconciledBy(local, remote, out, flags);
    var updated, added := out.updatedLocalHistory[..|local|], out.newAddedItems;
    assert out.updatedLocalHistory == updated + added;
    AgreementLeavesNoRoom(local, updated, added, remote);
    NewItemsAreMatched(remote, flags);
    LastIsCounted(added);
    assert added == [];
    forall i | 0 <= i < |local| ensures updated[i] == local[i] {
      SameCountsSameItem(local, updated, remote, i);
    }
    assert updated == local;
    SameMatchesNothing(local);
  }

  /** An update leaves the reserve dormant exactly if the exchange reports nothing new; otherwise there may
      be something to withdraw. */
  lemma UpdateIsDormantIff(s: State, remote: seq<ReserveTransaction>, s': State)
    requires Updated(s, remote, s') && s.status == QueryingStatus
    ensures s'.status == if InAgreement(s.history, remote) then Dormant else Withdrawing
    ensures InAgreement(s.history, remote) ==> s'.history == s.history
  {
    var out :|
      && Reconciled(s.history, remote, out)
      && s'.history == out.updatedLocalHistory
      && s'.status == if |out.newAddedItems| + |out.newMatchedItems| != 0 then Withdrawing else Dormant;
    if InAgreement(s.history, remote) {
      ReconcileIsIdempotent(s.history, remote, out);
    }
    NothingNewNothingChanged(s.history, remote, out);
  }

  lemma NothingNewNothingChanged(local: seq<HistoryItem>, remote: seq<ReserveTransaction>, out: Reconciliation)
    requires Reconciled(local, remote, out)
    ensures out.newAddedItems == [] && out.newMatchedItems == [] ==> InAgreement(local, remote)
  {
    hide InAgreement, NewItems, NoFreeMatch;
    var flags :| ReconciledBy(local, remote, out, flags);
    var updated := out.updatedLocalHistory[..|local|];
    assert out.updatedLocalHistory == updated + out.newAddedItems;
    NoneMatchedNoneChanged(local, updated, remote);
    assert updated + [] == updated;
  }

  lemma {:induction false} NoneMatchedNoneChanged(before: seq<HistoryItem>, after: seq<HistoryItem>,
      remote: seq<ReserveTransaction>)
    requires |before| == |after| && forall i | 0 <= i < |before| :: SameOrNewlyMatched(before[i], after[i], remote)
    ensures NewlyMatched(before, after) == [] ==> after == before
  {
    if before != [] {
      var n := |before| - 1;
      NoneMatchedNoneChanged(before[..n], after[..n], remote);
      assert SameOrNewlyMatched(before[n], after[n], remote);
      assert before == before[..n] + [before[n]] && after == after[..n] + [after[n]];
    }
  }

  lemma AgreementLeavesNoRoom(
    local: seq<HistoryItem>, updated: seq<HistoryItem>, added: seq<HistoryItem>, remote: seq<ReserveTransaction>)
    requires InAgreement(local, remote) && InAgreement(updated + added, remote)
    requires |updated| == |local| && forall i | 0 <= i < |local| :: SameOrNewlyMatched(local[i], updated[i], remote)
    ensures forall k :: MatchedCount(updated, k) == MatchedCount(local, k)
    ensures forall k :: MatchedCount(added, k) == 0
  {
    forall k
      ensures MatchedCount(updated, k) == MatchedCount(local, k) && MatchedCount(added, k) == 0
    {
      MatchedCountConcat(updated, added, k);
      CountsOnlyGrow(local, updated, remote, k);
      assert MatchedCount(updated + added, k) == RemoteCount(remote, k) == MatchedCount(local, k);
    }
  }

  lemma SameCountsSameItem(before: seq<HistoryItem>, after: seq<HistoryItem>, remote: seq<ReserveTransaction>, i: nat)
    requires i < |before| == |after| && forall j | 0 <= j < |before| :: SameOrNewlyMatched(before[j], after[j], remote)
    requires forall k :: MatchedCount(after, k) == MatchedCount(before, k)
    ensures after[i] == before[i]
  {
    assert SameOrNewlyMatched(before[i], after[i], remote);
    if after[i].matched.Some? {
      var k := Key(after[i].matched.value);
      CountsOnlyGrow(before, after, remote, k);
      assert MatchedWith(after[i], k);
      assert MatchedCount(after, k) == MatchedCount(before, k);
    }
  }

  // ----- The balance over a run -----

  /** After every update the wallet's balance of the reserve is the exchange's. */
  lemma BalanceAfterUpdate(trace: seq<Config>, actions: seq<Action>, n: nat)
    requires Run(trace, actions) && n < |actions|
    requires actions[n] == Update && trace[n].reserve.status == QueryingStatus
    requires ConsistentAmounts(trace[n].remote)
    requires RemoteSum(trace[n].remote, OUTGOING) <= RemoteSum(trace[n].remote, INCOMING) <= MAX_UNITS
    ensures SummaryOf(trace[n + 1].reserve.history).computedReserveBalance ==
            RemoteSum(trace[n].remote, INCOMING) - RemoteSum(trace[n].remote, OUTGOING)
  {
    ReconcileNeverFails(trace, actions, n);
    ReconcileNeverFails(trace, actions, n + 1);
    var c, c' := trace[n], trace[n + 1];
    assert Step(c, actions[n], c');
    var out :| Reconciled(c.reserve.history, c.remote, out) && c'.reserve.history == out.updatedLocalHistory;
    UpdateKeepsInv(c.reserve.history, c.remote, out, c'.reserve.status);
    ComputedBalanceIsExchangeBalance(c'.reserve.history, c.remote);
  }

  /** It stays the balance the exchange had at that update, whatever is depleted, queried or
      appended at the exchange, until the next update. */
  lemma BalanceUntilNextUpdate(trace: seq<Config>, actions: seq<Action>, n: nat, m: nat)
    requires Run(trace, actions) && n < m < |trace|
    requires actions[n] == Update && trace[n].reserve.status == QueryingStatus
    requires forall i | n < i < m :: actions[i] != Update
    requires ConsistentAmounts(trace[n].remote)
    requires RemoteSum(trace[n].remote, OUTGOING) <= RemoteSum(trace[n].remote, INCOMING) <= MAX_UNITS
    ensures SummaryOf(trace[m].reserve.history).computedReserveBalance ==
            RemoteSum(trace[n].remote, INCOMING) - RemoteSum(trace[n].remote, OUTGOING)
  {
    BalanceAfterUpdate(trace, actions, n);
    BalanceIsKept(trace, actions, n + 1, m);
  }

  lemma {:induction false} BalanceIsKept(trace: seq<Config>, actions: seq<Action>, n: nat, m: nat)
    requires Run(trace, actions) && n <= m < |trace|
    requires forall i | n <= i < m :: actions[i] != Update
    ensures SummaryOf(trace[m].reserve.history).computedReserveBalance
              == SummaryOf(trace[n].reserve.history).computedReserveBalance
    decreases m
  {
    if n < m {
      RunSteps(trace, actions, m - 1);
      hide *;
      BalanceIsKept(trace, actions, n, m - 1);
      OnlyUpdatesMatch(trace[m - 1], actions[m - 1], trace[m]);
    }
  }

  lemma RunSteps(trace: seq<Config>, actions: seq<Action>, i: nat)
    requires Run(trace, actions) && i < |actions|
    ensures |trace| == |actions| + 1 && Step(trace[i], actions[i], trace[i + 1])
  {
  }

  lemma OnlyUpdatesMatch(c: Config, a: Action, c': Config)
    requires Step(c, a, c') && a != Update
    ensures SummaryOf(c'.reserve.history).computedReserveBalance == SummaryOf(c.reserve.history).computedReserveBalance
  {
    if a.Deplete? {
      ClaimingCosts(c.reserve.history, Costs(a.values, a.fees));
    }
  }

  // ----- Claims over a run -----

  /** What the wallet has claimed: its withdrawals, confirmed by the exchange or not. */
  function Claims(history: seq<HistoryItem>): nat {
    MatchedSum(history, {WithdrawItem}) + ExpectedSum(history, WithdrawItem)
  }

  function ClaimOf(item: HistoryItem): nat {
    MatchedAmount(item, {WithdrawItem}) + ExpectedAmount(item, WithdrawItem)
  }

  ghost predicate NoWithdrawal(items: seq<HistoryItem>) {
    forall i | 0 <= i < |items| :: items[i].itemType != WithdrawItem
  }

  /** Of every amount, the exchange reports no more withdrawals than the wallet has claimed. */
  ghost predicate OnlyClaimedReported(history: seq<HistoryItem>, remote: seq<ReserveTransaction>) {
    forall a: Money :: Reported(remote, WithdrawItem, a)
                         <= Confirmed(history, WithdrawItem, a) + Waiting(history, WithdrawItem, a)
  }

  /** Whenever the wallet asks, the exchange reports only withdrawals that the wallet has claimed;
      and amounts stay below the largest amount. */
  ghost predicate HonestRun(trace: seq<Config>, actions: seq<Action>) {
    && Run(trace, actions)
    && (forall i | 0 <= i < |trace| ::
          ConsistentAmounts(trace[i].remote) && RemoteSum(trace[i].remote, INCOMING) < MAX_UNITS)
    && (forall i | 0 <= i < |actions| && actions[i] == Update ::
          OnlyClaimedReported(trace[i].reserve.history, trace[i].remote))
  }

  // ----- Every reported withdrawal finds its claim -----

  /** Over every run: after an update, of every type but closings and every amount, the wallet has matched
      as many items as the exchange reports, and only those items still wait that find no transaction. */
  lemma UpdateFindsWaitingItems(trace: seq<Config>, actions: seq<Action>, n: nat, itemType: ItemType, a: Money)
    requires Run(trace, actions) && n < |actions| && itemType != ClosingItem
    requires actions[n] == Update && trace[n].reserve.status == QueryingStatus && ConsistentAmounts(trace[n].remote)
    ensures var h, h' := trace[n].reserve.history, trace[n + 1].reserve.history;
            var reported := Reported(trace[n].remote, itemType, a);
            && Confirmed(h', itemType, a) == reported
            && Waiting(h', itemType, a)
                 == AtLeastZero(Waiting(h, itemType, a) - (reported - Confirmed(h, itemType, a)))
  {
    ReconcileNeverFails(trace, actions, n);
    InvGivesEqualAmounts(trace[n]);
    RunSteps(trace, actions, n);
    assert Updated(trace[n].reserve, trace[n].remote, trace[n + 1].reserve);
    hide *;
    UpdatedCounts(trace[n].reserve, trace[n].remote, trace[n + 1].reserve, itemType, a);
  }

  lemma UpdatedCounts(s: State, remote: seq<ReserveTransaction>, s': State, itemType: ItemType, a: Money)
    requires Updated(s, remote, s') && s.status == QueryingStatus && itemType != ClosingItem
    requires EqualAmounts(s.history, remote) && ConsistentAmounts(remote)
    ensures var reported := Reported(remote, itemType, a);
            && Confirmed(s'.history, itemType, a) == reported
            && Waiting(s'.history, itemType, a)
                 == AtLeastZero(Waiting(s.history, itemType, a) - (reported - Confirmed(s.history, itemType, a)))
  {
    hide Reconciled, ConsistentAmounts, EqualAmounts, Reported, Confirmed, Waiting;
    var out :| Reconciled(s.history, remote, out) && s'.history == out.updatedLocalHistory;
    TransactionsFindWaitingItems(s.history, remote, out, itemType, a);
  }

  /** A new reserve awaits the transfer that the user is to make. The first reported credit of that amount
      is matched with it, and nothing is awaited any more. */
  lemma FirstTransferIsMatched(expected: Money, viaBank: bool, wire: string, out: Reconciliation)
    requires Reconciled(Created(expected, viaBank).history, [Credit(expected, wire)], out)
    ensures SummaryOf(Created(expected, viaBank).history) == ReserveHistorySummary(0, 0, expected, 0)
    ensures out.newAddedItems == []
    ensures out.updatedLocalHistory == [HistoryItem(CreditItem, Some(expected), Some(Credit(expected, wire)))]
    ensures SummaryOf(out.updatedLocalHistory) == ReserveHistorySummary(expected, expected, 0, 0)
  {
    SummaryOfTransfer(expected, None);
    SummaryOfTransfer(expected, Some(Credit(expected, wire)));
    hide SummaryOf, Reconciled;
    var item := HistoryItem(CreditItem, Some(expected), None);
    TransferFindsItem(item, Credit(expected, wire), out);
  }

  lemma SummaryOfTransfer(expected: Money, matched: Option<ReserveTransaction>)
    requires matched.Some? ==> matched.value.Credit? && matched.value.amount == expected
    ensures SummaryOf([HistoryItem(CreditItem, Some(expected), matched)]) ==
            if matched.Some? then ReserveHistorySummary(expected, expected, 0, 0)
            else ReserveHistorySummary(0, 0, expected, 0)
  {
    var item := HistoryItem(CreditItem, Some(expected), matched);
    assert [item][..0] == [];
    assert forall types: set<ItemType> :: MatchedSum([item], types) == MatchedAmount(item, types);
    assert forall t :: ExpectedSum([item], t) == ExpectedAmount(item, t);
  }

  lemma TransferFindsItem(item: HistoryItem, t: ReserveTransaction, out: Reconciliation)
    requires item.matched.None? && WaitsFor(item, t) && Reconciled([item], [t], out)
    ensures out.newAddedItems == [] && out.updatedLocalHistory == [item.(matched := Some(t))]
  {
    var flags :| ReconciledBy([item], [t], out, flags);
    TransactionsFindWaitingItems([item], [t], out, item.itemType, t.amount);
    AddedAreFree([t], flags, item.itemType, t.amount);
    OneItem(item, item.itemType, t.amount);
    OneTransaction(t, flags);
    hide Waiting, Confirmed, Reported, Free, NewItems, InAgreement, NewlyMatched, NoFreeMatch;
    var updated := out.updatedLocalHistory;
    assert out.newAddedItems == [];
    assert updated == [updated[0]];
    OneItem(updated[0], item.itemType, t.amount);
    assert SameOrNewlyMatched(item, updated[0], [t]);
  }

  lemma OneTransaction(t: ReserveTransaction, flags: seq<bool>)
    requires |flags| == 1
    ensures Reported([t], TypeOf(t), t.amount) == 1
    ensures Free([t], flags, TypeOf(t), t.amount) == Is(!flags[0])
    ensures NewItems([t], flags) == if flags[0] then [] else [NewItem(t)]
  {
    assert [t][..0] == [] && flags[..0] == [];
  }

  /** If only claimed withdrawals are reported, greedy matching by amount finds a claim for each of
      them: no withdrawal is added that the wallet does not know. */
  lemma ReportedWithdrawalsFindClaims(local: seq<HistoryItem>, remote: seq<ReserveTransaction>, out: Reconciliation)
    requires Reconciled(local, remote, out) && EqualAmounts(local, remote) && ConsistentAmounts(remote)
    requires OnlyClaimedReported(local, remote)
    ensures NoWithdrawal(out.newAddedItems)
  {
    hide Reported, Confirmed, Waiting, NewItems, SameOrNewlyMatched, NoFreeMatch, EqualAmounts, ConsistentAmounts,
        InAgreement, NewlyMatched;
    var flags :| ReconciledBy(local, remote, out, flags);
    NewItemsAreMatched(remote, flags);
    var added := out.newAddedItems;
    forall i | 0 <= i < |added| ensures added[i].itemType != WithdrawItem {
      var a := added[i].matched.value.amount;
      TransactionsFindWaitingItems(local, remote, out, WithdrawItem, a);
      OneIsConfirmed(added, i, a);
      assert Reported(remote, WithdrawItem, a) <=
             Confirmed(local, WithdrawItem, a) + Waiting(local, WithdrawItem, a);
    }
  }

  lemma {:induction false} OneIsConfirmed(items: seq<HistoryItem>, i: nat, a: Money)
    requires i < |items|
    ensures IsConfirmed(items[i], WithdrawItem, a) ==> Confirmed(items, WithdrawItem, a) > 0
  {
    if i < |items| - 1 {
      OneIsConfirmed(items[..|items| - 1], i, a);
    }
  }

  lemma ClaimsStep(history: seq<HistoryItem>, item: HistoryItem)
    ensures Claims(history + [item]) == Claims(history) + ClaimOf(item)
    ensures forall types: set<ItemType> :: MatchedSum(history + [item], types)
              == MatchedSum(history, types) + MatchedAmount(item, types)
  {
    assert (history + [item])[..|history|] == history;
  }

  /** Matching an item keeps its claim, and can only bring money in. */
  lemma {:induction false} MatchingKeepsClaims(before: seq<HistoryItem>, after: seq<HistoryItem>,
      remote: seq<ReserveTransaction>)
    requires |before| == |after| && forall i | 0 <= i < |before| :: SameOrNewlyMatched(before[i], after[i], remote)
    ensures Claims(after) == Claims(before)
    ensures MatchedSum(after, INCOMING) >= MatchedSum(before, INCOMING)
  {
    if before != [] {
      var n := |before| - 1;
      MatchingKeepsClaims(before[..n], after[..n], remote);
      assert SameOrNewlyMatched(before[n], after[n], remote);
    }
  }

  lemma {:induction false} AddingKeepsClaims(history: seq<HistoryItem>, added: seq<HistoryItem>)
    requires NoWithdrawal(added) && WellTyped(added)
    ensures Claims(history + added) == Claims(history)
    ensures MatchedSum(history + added, INCOMING) >= MatchedSum(history, INCOMING)
  {
    if added == [] {
      assert history + added == history;
    } else {
      var n := |added| - 1;
      AddingKeepsClaims(history, added[..n]);
      ClaimsStep(history + added[..n], added[n]);
      assert history + added == (history + added[..n]) + [added[n]];
    }
  }

  lemma {:induction false} ClaimingCosts(history: seq<HistoryItem>, costs: seq<Money>)
    ensures Claims(history + ClaimItems(costs)) == Claims(history) + SumOf(costs)
    ensures forall types: set<ItemType> :: MatchedSum(history + ClaimItems(costs), types) == MatchedSum(history, types)
  {
    if costs == [] {
      assert history + ClaimItems(costs) == history;
    } else {
      var n := |costs| - 1;
      var item := HistoryItem(WithdrawItem, Some(costs[n]), None);
      ClaimingCosts(history, costs[..n]);
      ClaimsStep(history + ClaimItems(costs[..n]), item);
      assert history + ClaimItems(costs) == (history + ClaimItems(costs[..n])) + [item];
    }
  }

  /** Each claim expects a withdrawal of a coin's value and fee together, at most the largest amount. */
  lemma {:induction false} ClaimIsValueWithFee(values: seq<Money>, fees: seq<Money>, i: nat)
    requires i < |values| == |fees|
    ensures |ClaimItems(Costs(values, fees))| == |values|
    ensures ClaimItems(Costs(values, fees))[i] ==
            HistoryItem(WithdrawItem,
              Some(if values[i] + fees[i] <= MAX_UNITS then values[i] + fees[i] else MAX_UNITS), None)
  {
    var n := |values| - 1;
    var init := Costs(values[..n], fees[..n]);
    ClaimItemsStep(init, Plus(values[n], fees[n]));
    if i < n {
      ClaimIsValueWithFee(values[..n], fees[..n], i);
    }
  }

  /** What has come in and is neither gone nor claimed. */
  function Unclaimed(history: seq<HistoryItem>): int {
    var paidIn := MatchedSum(history, INCOMING);
    (if paidIn <= MAX_UNITS then paidIn else MAX_UNITS)
      - MatchedSum(history, OUTGOING) - ExpectedSum(history, WithdrawItem)
  }

  /** A depletion claims its coins exactly if the reserve is withdrawing and enough is unclaimed for their
      values and fees together; otherwise it changes nothing. */
  lemma DepletesIffCovered(s: State, values: seq<Money>, fees: seq<Money>)
    requires |values| == |fees|
    ensures var s', total, unclaimed := Depleted(s, values, fees), SumOf(values) + SumOf(fees), Unclaimed(s.history);
            if s.status == Withdrawing && (total <= unclaimed || total == 0 || unclaimed == MAX_UNITS) then
              && s'.status == Dormant
              && s'.history == s.history + ClaimItems(Costs(values, fees))
              && (total <= MAX_UNITS ==> Claims(s'.history) == Claims(s.history) + total)
            else
              s' == s
  {
    CostsAreValuesAndFees(values, fees);
    ClaimingCosts(s.history, Costs(values, fees));
  }

  lemma {:induction false} CostsAreValuesAndFees(values: seq<Money>, fees: seq<Money>)
    requires |values| == |fees|
    ensures SumOf(Costs(values, fees)) <= SumOf(values) + SumOf(fees)
    ensures SumOf(values) + SumOf(fees) <= MAX_UNITS ==> SumOf(Costs(values, fees)) == SumOf(values) + SumOf(fees)
  {
    if values != [] {
      var n := |values| - 1;
      CostsAreValuesAndFees(values[..n], fees[..n]);
      SumOfStep(Costs(values[..n], fees[..n]), Plus(values[n], fees[n]));
    }
  }

  lemma {:induction false} OutgoingCoversWithdrawn(history: seq<HistoryItem>)
    requires WellTyped(history)
    ensures MatchedSum(history, {WithdrawItem}) <= MatchedSum(history, OUTGOING)
  {
    if history != [] {
      OutgoingCoversWithdrawn(history[..|history| - 1]);
    }
  }

  /** A depletion claims no more than what has come in and was not claimed before. */
  lemma DepletionIsBacked(s: State, values: seq<Money>, fees: seq<Money>)
    requires |values| == |fees| && WellTyped(s.history)
    requires Claims(s.history) <= MatchedSum(s.history, INCOMING) < MAX_UNITS
    ensures var s' := Depleted(s, values, fees);
            Claims(s'.history) <= MatchedSum(s'.history, INCOMING) == MatchedSum(s.history, INCOMING)
  {
    OutgoingCoversWithdrawn(s.history);
    CostsAreValuesAndFees(values, fees);
    ClaimingCosts(s.history, Costs(values, fees));
  }

  /** While matched transactions are entries of the exchange's history, one to one, no more can
      have come in than the exchange has recorded. */
  lemma {:induction false} MatchedIsBacked(local: seq<HistoryItem>, remote: seq<ReserveTransaction>,
      types: set<ItemType>)
    requires NothingLost(local, remote) && EqualAmounts(local, remote)
    ensures MatchedSum(local, types) <= RemoteSum(remote, types)
    decreases |remote|
  {
    if remote == [] {
      NoneMatched(local, types);
    } else {
      var remote', t := remote[..|remote| - 1], remote[|remote| - 1];
      var local' := local;
      if MatchedCount(local, Key(t)) > 0 {
        var i := FindMatched(local, Key(t));
        local' := local[..i] + local[i + 1..];
        forall k ensures MatchedCount(local', k) <= RemoteCount(remote', k) {
          RemoveItem(local, i, k, types);
          assert MatchedCount(local, k) <= RemoteCount(remote, k);
        }
        RemoveItem(local, i, Key(t), types);
        assert forall j | 0 <= j < |local'| :: local'[j] == local[if j < i then j else j + 1];
      } else {
        forall k ensures MatchedCount(local', k) <= RemoteCount(remote', k) {
          assert MatchedCount(local, k) <= RemoteCount(remote, k);
        }
      }
      MatchedIsBacked(local', remote', types);
    }
  }

  lemma InvGivesEqualAmounts(c: Config)
    requires Inv(c) && ConsistentAmounts(c.remote)
    ensures EqualAmounts(c.reserve.history, c.remote)
  {
  }

  /** Over every run with an exchange that reports only claimed withdrawals, the wallet never
      claims more than has been credited to the reserve. */
  lemma ClaimsNeverExceedCredits(trace: seq<Config>, actions: seq<Action>, n: nat)
    requires HonestRun(trace, actions) && n < |trace|
    ensures var h := trace[n].reserve.history;
            Claims(h) <= MatchedSum(h, INCOMING) <= RemoteSum(trace[n].remote, INCOMING)
  {
    ClaimsAreCovered(trace, actions, n);
    HonestState(trace, actions, n);
  }

  lemma {:induction false} ClaimsAreCovered(trace: seq<Config>, actions: seq<Action>, n: nat)
    requires HonestRun(trace, actions) && n < |trace|
    ensures Claims(trace[n].reserve.history) <= MatchedSum(trace[n].reserve.history, INCOMING)
  {
    if n == 0 {
      ClaimsAtStart(trace, actions);
    } else {
      HonestState(trace, actions, n - 1);
      HonestStep(trace, actions, n - 1);
      hide *;
      ClaimsAreCovered(trace, actions, n - 1);
      ClaimsStepByStep(trace[n - 1], actions[n - 1], trace[n]);
    }
  }

  lemma HonestState(trace: seq<Config>, actions: seq<Action>, n: nat)
    requires HonestRun(trace, actions) && n < |trace|
    ensures Inv(trace[n]) && ConsistentAmounts(trace[n].remote) && WellTyped(trace[n].reserve.history)
    ensures MatchedSum(trace[n].reserve.history, INCOMING) <= RemoteSum(trace[n].remote, INCOMING) < MAX_UNITS
  {
    ReconcileNeverFails(trace, actions, n);
    InvGivesEqualAmounts(trace[n]);
    MatchedIsBacked(trace[n].reserve.history, trace[n].remote, INCOMING);
  }

  lemma HonestStep(trace: seq<Config>, actions: seq<Action>, n: nat)
    requires HonestRun(trace, actions) && n < |actions|
    ensures |trace| == |actions| + 1 && Step(trace[n], actions[n], trace[n + 1])
    ensures actions[n] == Update ==> OnlyClaimedReported(trace[n].reserve.history, trace[n].remote)
  {
  }

  lemma ClaimsAtStart(trace: seq<Config>, actions: seq<Action>)
    requires Run(trace, actions)
    ensures Claims(trace[0].reserve.history) == 0
  {
    var expected: Money, viaBank: bool :| trace[0].reserve == Created(expected, viaBank);
    ClaimsStep([], HistoryItem(CreditItem, Some(expected), None));
    assert trace[0].reserve.history == [] + [HistoryItem(CreditItem, Some(expected), None)];
  }

  lemma ClaimsStepByStep(c: Config, a: Action, c': Config)
    requires Step(c, a, c') && WellTyped(c.reserve.history)
    requires Claims(c.reserve.history) <= MatchedSum(c.reserve.history, INCOMING) < MAX_UNITS
    requires Inv(c) && ConsistentAmounts(c.remote)
    requires a == Update ==> OnlyClaimedReported(c.reserve.history, c.remote)
    ensures Claims(c'.reserve.history) <= MatchedSum(c'.reserve.history, INCOMING)
  {
    match a
    case Update => UpdateKeepsClaims(c, c');
    case Deplete(values, fees) => DepletionIsBacked(c.reserve, values, fees);
    case _ =>
  }

  lemma UpdateKeepsClaims(c: Config, c': Config)
    requires Updated(c.reserve, c.remote, c'.reserve)
    requires Inv(c) && ConsistentAmounts(c.remote) && OnlyClaimedReported(c.reserve.history, c.remote)
    ensures Claims(c'.reserve.history) == Claims(c.reserve.history)
    ensures MatchedSum(c'.reserve.history, INCOMING) >= MatchedSum(c.reserve.history, INCOMING)
  {
    if c.reserve.status == QueryingStatus {
      var h, h' := c.reserve.history, c'.reserve.history;
      var out :| Reconciled(h, c.remote, out) && h' == out.updatedLocalHistory;
      var flags :| ReconciledBy(h, c.remote, out, flags);
      var updated, added := h'[..|h|], h'[|h|..];
      assert h' == updated + added && added == out.newAddedItems;
      InvGivesEqualAmounts(c);
      ReportedWithdrawalsFindClaims(h, c.remote, out);
      NewItemsAreMatched(c.remote, flags);
      MatchingKeepsClaims(h, updated, c.remote);
      AddingKeepsClaims(updated, added);
    }
  }
}

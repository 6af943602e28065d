// Reconciling the wallet's history of a reserve with the exchange's, and its totals
// (src/util/reserveHistoryUtil.ts).
module ReserveHistory {
  import opened Wrappers
  import opened Amounts

  datatype Timestamp = Never | At(t_ms: int)

  /** An entry of the exchange's history.  Fields that no code here looks at are left out. */
  datatype ReserveTransaction =
    | Withdraw(amount: Money, h_coin_envelope: string)
    | Credit(amount: Money, wire_reference: string)
    | Recoup(amount: Money, coin_pub: string, timestamp: Timestamp)
    | Closing(amount: Money, wtid: string)

  datatype ItemType = CreditItem | WithdrawItem | ClosingItem | RecoupItem

  /** An entry of the wallet's history. */
  datatype HistoryItem = HistoryItem(
    itemType: ItemType, expectedAmount: Option<Money>, matched: Option<ReserveTransaction>)

  function TypeOf(t: ReserveTransaction): ItemType {
    match t
    case Withdraw(_, _) => WithdrawItem
    case Credit(_, _) => CreditItem
    case Recoup(_, _, _) => RecoupItem
    case Closing(_, _) => ClosingItem
  }

  /** An item is matched only with transactions of its own type. */
  ghost predicate WellTyped(history: seq<HistoryItem>) {
    forall i | 0 <= i < |history| :: history[i].matched.Some? ==>
        TypeOf(history[i].matched.value) == history[i].itemType
  }

  function TimestampCmp(t1: Timestamp, t2: Timestamp): int {
    if t1.Never? then (if t2.Never? then 0 else 1)
    else if t2.Never? then -1
    else if t1.t_ms == t2.t_ms then 0
    else if t1.t_ms > t2.t_ms then 1
    else -1
  }

  predicate IsRemoteHistoryMatch(t1: ReserveTransaction, t2: ReserveTransaction) {
    match t1
    case Closing(_, wtid) => t2.Closing? && wtid == t2.wtid
    case Credit(_, wire) => t2.Credit? && wire == t2.wire_reference
    case Recoup(_, pub, time) => t2.Recoup? && pub == t2.coin_pub && TimestampCmp(time, t2.timestamp) == 0
    case Withdraw(_, h) => t2.Withdraw? && h == t2.h_coin_envelope
  }

  predicate IsLocalRemoteHistoryMatch(t1: HistoryItem, t2: ReserveTransaction) {
    match t1.itemType
    case CreditItem => t2.Credit? && t1.expectedAmount == Some(t2.amount)
    case WithdrawItem => t2.Withdraw? && t1.expectedAmount == Some(t2.amount)
    case RecoupItem => t2.Recoup? && t1.expectedAmount == Some(t2.amount)
    case ClosingItem => false
  }

  /** The item expects a transaction of just this type and amount; closings are never expected. */
  ghost predicate WaitsFor(item: HistoryItem, t: ReserveTransaction) {
    !t.Closing? && item.itemType == TypeOf(t) && item.expectedAmount == Some(t.amount)
  }

  lemma LocalMatchIsWaiting(item: HistoryItem, t: ReserveTransaction)
    ensures IsLocalRemoteHistoryMatch(item, t) <==> WaitsFor(item, t)
  {
  }

  /** What identifies a transaction of the exchange: everything but its amount. */
  function Key(t: ReserveTransaction): ReserveTransaction {
    t.(amount := 0)
  }

  lemma RemoteMatchIsAnEquivalence(a: ReserveTransaction, b: ReserveTransaction, c: ReserveTransaction)
    ensures IsRemoteHistoryMatch(a, a)
    ensures IsRemoteHistoryMatch(a, b) ==> IsRemoteHistoryMatch(b, a)
    ensures IsRemoteHistoryMatch(a, b) && IsRemoteHistoryMatch(b, c) ==> IsRemoteHistoryMatch(a, c)
    ensures IsRemoteHistoryMatch(a, b) <==> Key(a) == Key(b)
  {
  }

  /** How many transactions of the exchange's history have the identity k. */
  function RemoteCount(remote: seq<ReserveTransaction>, k: ReserveTransaction): nat {
    if remote == [] then 0
    else RemoteCount(remote[..|remote| - 1], k) + Is(Key(remote[|remote| - 1]) == k)
  }

  /** How many items of the wallet are matched with a transaction of identity k. */
  function MatchedCount(local: seq<HistoryItem>, k: ReserveTransaction): nat {
    if local == [] then 0
    else MatchedCount(local[..|local| - 1], k) + Is(MatchedWith(local[|local| - 1], k))
  }

  predicate MatchedWith(item: HistoryItem, k: ReserveTransaction) {
    item.matched.Some? && Key(item.matched.value) == k
  }

  function Is(b: bool): nat {
    if b then 1 else 0
  }

  /** The two histories agree: as many matched items as transactions, for each identity. */
  ghost predicate InAgreement(local: seq<HistoryItem>, remote: seq<ReserveTransaction>) {
    forall k :: MatchedCount(local, k) == RemoteCount(remote, k)
  }

  /** No matched transaction has disappeared from the exchange's history. */
  ghost predicate NothingLost(local: seq<HistoryItem>, remote: seq<ReserveTransaction>) {
    forall k :: MatchedCount(local, k) <= RemoteCount(remote, k)
  }

  datatype Reconciliation = Reconciliation(
    updatedLocalHistory: seq<HistoryItem>,
    newAddedItems: seq<HistoryItem>,
    newMatchedItems: seq<HistoryItem>)

  datatype ReconcileError = NowUnmatched

  // ----- Counting identities under flags -----

  function CountWhere(remote: seq<ReserveTransaction>, flags: seq<bool>, value: bool, k: ReserveTransaction): nat
    requires |flags| == |remote|
  {
    if remote == [] then 0
    else
      var n := |remote| - 1;
      CountWhere(remote[..n], flags[..n], value, k) + Is(flags[n] == value && Key(remote[n]) == k)
  }

  function MatchedCountWhere(local: seq<HistoryItem>, flags: seq<bool>, k: ReserveTransaction): nat
    requires |flags| == |local|
  {
    if local == [] then 0
    else
      var n := |local| - 1;
      MatchedCountWhere(local[..n], flags[..n], k) + Is(flags[n] && MatchedWith(local[n], k))
  }

  lemma {:induction false} CountsSplit(remote: seq<ReserveTransaction>, flags: seq<bool>, k: ReserveTransaction)
    requires |flags| == |remote|
    ensures CountWhere(remote, flags, true, k) + CountWhere(remote, flags, false, k) == RemoteCount(remote, k)
  {
    if remote != [] {
      CountsSplit(remote[..|remote| - 1], flags[..|remote| - 1], k);
    }
  }

  lemma {:induction false} SetRemoteFlag(remote: seq<ReserveTransaction>, flags: seq<bool>, i: nat,
      k: ReserveTransaction)
    requires |flags| == |remote| && i < |remote| && !flags[i]
    ensures CountWhere(remote, flags[i := true], true, k) == CountWhere(remote, flags, true, k)
              + Is(Key(remote[i]) == k)
  {
    var n := |remote| - 1;
    if i < n {
      SetRemoteFlag(remote[..n], flags[..n], i, k);
      assert flags[i := true][..n] == flags[..n][i := true];
    } else {
      assert flags[i := true][..n] == flags[..n];
    }
  }

  lemma {:induction false} SetLocalFlag(local: seq<HistoryItem>, flags: seq<bool>, i: nat, k: ReserveTransaction)
    requires |flags| == |local| && i < |local| && !flags[i]
    ensures MatchedCountWhere(local, flags[i := true], k) == MatchedCountWhere(local, flags, k)
              + Is(MatchedWith(local[i], k))
  {
    var n := |local| - 1;
    if i < n {
      SetLocalFlag(local[..n], flags[..n], i, k);
      assert flags[i := true][..n] == flags[..n][i := true];
    } else {
      assert flags[i := true][..n] == flags[..n];
    }
  }

  lemma {:induction false} NoRemoteFlags(remote: seq<ReserveTransaction>, flags: seq<bool>, k: ReserveTransaction)
    requires |flags| == |remote| && forall i | 0 <= i < |flags| :: !flags[i]
    ensures CountWhere(remote, flags, true, k) == 0
  {
    if remote != [] {
      NoRemoteFlags(remote[..|remote| - 1], flags[..|remote| - 1], k);
    }
  }

  lemma {:induction false} NoLocalFlags(local: seq<HistoryItem>, flags: seq<bool>, k: ReserveTransaction)
    requires |flags| == |local| && forall i | 0 <= i < |flags| :: !flags[i]
    ensures MatchedCountWhere(local, flags, k) == 0
  {
    if local != [] {
      NoLocalFlags(local[..|local| - 1], flags[..|local| - 1], k);
    }
  }

  /** An unflagged matched item is missing from the flagged count of its identity, and only such
      items are missing. */
  lemma {:induction false} FlaggedAndMatched(local: seq<HistoryItem>, flags: seq<bool>, k: ReserveTransaction)
    requires |flags| == |local|
    ensures MatchedCountWhere(local, flags, k) <= MatchedCount(local, k)
    ensures MatchedCountWhere(local, flags, k) == MatchedCount(local, k) <==>
            forall i | 0 <= i < |local| && MatchedWith(local[i], k) :: flags[i]
  {
    if local != [] {
      var n := |local| - 1;
      FlaggedAndMatched(local[..n], flags[..n], k);
      assert (forall i | 0 <= i < |local| && MatchedWith(local[i], k) :: flags[i]) <==>
             ((forall i | 0 <= i < n && MatchedWith(local[..n][i], k) :: flags[..n][i])
                 && (MatchedWith(local[n], k) ==> flags[n]));
    }
  }

  lemma {:induction false} NoUnflaggedWithKey(remote: seq<ReserveTransaction>, flags: seq<bool>, k: ReserveTransaction)
    requires |flags| == |remote| && forall i | 0 <= i < |remote| && Key(remote[i]) == k :: flags[i]
    ensures CountWhere(remote, flags, false, k) == 0
  {
    if remote != [] {
      NoUnflaggedWithKey(remote[..|remote| - 1], flags[..|remote| - 1], k);
    }
  }

  // ----- The three phases of reconciliation -----

  /** The pairing found so far is one to one on identities. */
  ghost predicate Paired(
    local: seq<HistoryItem>, remote: seq<ReserveTransaction>, localMatched: seq<bool>, remoteMatched: seq<bool>)
  {
    && |localMatched| == |local| && |remoteMatched| == |remote|
    && (forall k :: MatchedCountWhere(local, localMatched, k) == CountWhere(remote, remoteMatched, true, k))
    && (forall l | 0 <= l < |local| :: localMatched[l] ==> local[l].matched.Some?)
  }

  /** No item is left over for transaction r. */
  ghost predicate Exhausted(local: seq<HistoryItem>, localMatched: seq<bool>, t: ReserveTransaction)
    requires |localMatched| == |local|
  {
    forall l | 0 <= l < |local| :: local[l].matched.Some? && IsRemoteHistoryMatch(t, local[l].matched.value) ==>
        localMatched[l]
  }

  method FindDefiniteMatches(local: seq<HistoryItem>, remote: seq<ReserveTransaction>)
    returns (localMatched: seq<bool>, remoteMatched: seq<bool>)
    ensures Paired(local, remote, localMatched, remoteMatched)
    ensures forall r | 0 <= r < |remote| :: remoteMatched[r] || Exhausted(local, localMatched, remote[r])
  {
    remoteMatched := seq(|remote|, _ => false);
    localMatched := seq(|local|, _ => false);
    forall k
      ensures MatchedCountWhere(local, localMatched, k) == 0 == CountWhere(remote, remoteMatched, true, k)
    {
      NoRemoteFlags(remote, remoteMatched, k);
      NoLocalFlags(local, localMatched, k);
    }
    for remoteIndex := 0 to |remote|
      invariant Paired(local, remote, localMatched, remoteMatched)
      invariant forall r | remoteIndex <= r < |remote| :: !remoteMatched[r]
      invariant forall r | 0 <= r < remoteIndex :: remoteMatched[r] || Exhausted(local, localMatched, remote[r])
    {
      var localIndex := FirstUnpaired(local, localMatched, remote[remoteIndex]);
      if localIndex < |local| {
        PairMore(local, remote, localMatched, remoteMatched, localIndex, remoteIndex);
        StillExhausted(local, localMatched, localIndex);
        localMatched := localMatched[localIndex := true];
        remoteMatched := remoteMatched[remoteIndex := true];
      }
    }
  }

  /** The inner loop: the first unpaired item that is already matched with rhi, if any. */
  method FirstUnpaired(local: seq<HistoryItem>, localMatched: seq<bool>, rhi: ReserveTransaction)
    returns (localIndex: nat)
    requires |localMatched| == |local|
    ensures localIndex <= |local|
    ensures localIndex < |local| ==>
              && !localMatched[localIndex] && local[localIndex].matched.Some?
              && IsRemoteHistoryMatch(rhi, local[localIndex].matched.value)
    ensures localIndex == |local| ==> Exhausted(local, localMatched, rhi)
  {
    localIndex := 0;
    while localIndex < |local|
      invariant localIndex <= |local|
      invariant forall l | 0 <= l < localIndex ::
                  local[l].matched.Some? && IsRemoteHistoryMatch(rhi, local[l].matched.value) ==> localMatched[l]
    {
      var lhi := local[localIndex];
      if !localMatched[localIndex] && lhi.matched.Some? && IsRemoteHistoryMatch(rhi, lhi.matched.value) {
        return;
      }
      localIndex := localIndex + 1;
    }
  }

  lemma StillExhausted(local: seq<HistoryItem>, localMatched: seq<bool>, l: nat)
    requires |localMatched| == |local| && l < |local|
    ensures forall t | Exhausted(local, localMatched, t) :: Exhausted(local, localMatched[l := true], t)
  {
  }

  lemma PairMore(
    local: seq<HistoryItem>, remote: seq<ReserveTransaction>, localMatched: seq<bool>, remoteMatched: seq<bool>,
    l: nat, r: nat)
    requires Paired(local, remote, localMatched, remoteMatched)
    requires l < |local| && r < |remote| && !localMatched[l] && !remoteMatched[r]
    requires local[l].matched.Some? && IsRemoteHistoryMatch(remote[r], local[l].matched.value)
    ensures Paired(local, remote, localMatched[l := true], remoteMatched[r := true])
  {
    RemoteMatchIsAnEquivalence(remote[r], local[l].matched.value, remote[r]);
    var localMatched', remoteMatched' := localMatched[l := true], remoteMatched[r := true];
    forall k
      ensures MatchedCountWhere(local, localMatched', k) == CountWhere(remote, remoteMatched', true, k)
    {
      SetLocalFlag(local, localMatched, l, k);
      SetRemoteFlag(remote, remoteMatched, r, k);
    }
  }

  /** The greedy pairing is perfect: an item stays unpaired exactly when the exchange's history
      holds fewer transactions of some identity than the wallet has matched items. */
  lemma PairingIsPerfect(
    local: seq<HistoryItem>, remote: seq<ReserveTransaction>, localMatched: seq<bool>, remoteMatched: seq<bool>)
    requires Paired(local, remote, localMatched, remoteMatched)
    requires forall r | 0 <= r < |remote| :: remoteMatched[r] || Exhausted(local, localMatched, remote[r])
    ensures (forall l | 0 <= l < |local| :: local[l].matched.Some? ==> localMatched[l]) <==> NothingLost(local, remote)
  {
    forall k
      ensures MatchedCountWhere(local, localMatched, k) <= RemoteCount(remote, k)
      ensures (forall l | 0 <= l < |local| :: local[l].matched.Some? ==> localMatched[l]) ==>
                MatchedCount(local, k) == MatchedCountWhere(local, localMatched, k)
    {
      CountsSplit(remote, remoteMatched, k);
      FlaggedAndMatched(local, localMatched, k);
    }
    forall l | 0 <= l < |local| && local[l].matched.Some? && !localMatched[l]
      ensures !NothingLost(local, remote)
    {
      var k := Key(local[l].matched.value);
      forall r | 0 <= r < |remote| && Key(remote[r]) == k
        ensures remoteMatched[r]
      {
        RemoteMatchIsAnEquivalence(remote[r], local[l].matched.value, remote[r]);
      }
      NoUnflaggedWithKey(remote, remoteMatched, k);
      CountsSplit(remote, remoteMatched, k);
      FlaggedAndMatched(local, localMatched, k);
      assert MatchedWith(local[l], k);
      assert MatchedCount(local, k) > RemoteCount(remote, k);
    }
  }

  /** An item of the wallet before and after: unchanged, or matched for the first time with a
      transaction that has its type and expected amount. */
  ghost predicate SameOrNewlyMatched(before: HistoryItem, after: HistoryItem, remote: seq<ReserveTransaction>) {
    || after == before
    || (before.matched.None? && after.matched.Some? && after == before.(matched := after.matched)
        && after.matched.value in remote && WaitsFor(before, after.matched.value))
  }

  /** The items that got a match, as they were before. */
  function NewlyMatched(before: seq<HistoryItem>, after: seq<HistoryItem>): seq<HistoryItem>
    requires |before| == |after|
  {
    if before == [] then []
    else
      var n := |before| - 1;
      NewlyMatched(before[..n], after[..n]) +
      if before[n].matched.None? && after[n].matched.Some? then [before[n]] else []
  }

  function NewItem(t: ReserveTransaction): HistoryItem {
    HistoryItem(TypeOf(t), None, Some(t))
  }

  /** One new item for every transaction whose flag is not set, in order. */
  function NewItems(remote: seq<ReserveTransaction>, flags: seq<bool>): seq<HistoryItem>
    requires |flags| == |remote|
  {
    if remote == [] then []
    else
      var n := |remote| - 1;
      NewItems(remote[..n], flags[..n]) + if flags[n] then [] else [NewItem(remote[n])]
  }

  /** No transaction that is still free could have been matched with the item. */
  ghost predicate NoFreeMatch(item: HistoryItem, remote: seq<ReserveTransaction>, flags: seq<bool>)
    requires |flags| == |remote|
  {
    forall r | 0 <= r < |remote| :: !flags[r] ==> !WaitsFor(item, remote[r])
  }

  /** What the second phase has achieved for the first n items. */
  ghost predicate MatchedSoFar(
    local: seq<HistoryItem>, updated: seq<HistoryItem>, remote: seq<ReserveTransaction>, flags: seq<bool>, n: nat)
  {
    && |updated| == |local| && |flags| == |remote| && n <= |local|
    && (forall k :: MatchedCount(updated, k) == CountWhere(remote, flags, true, k))
    && (forall i | 0 <= i < n :: SameOrNewlyMatched(local[i], updated[i], remote))
    && (forall i | 0 <= i < n :: updated[i].matched.None? ==> NoFreeMatch(local[i], remote, flags))
    && (forall i | n <= i < |local| :: updated[i] == local[i])
  }

  lemma {:induction false} MatchItem(local: seq<HistoryItem>, i: nat, t: ReserveTransaction, k: ReserveTransaction)
    requires i < |local| && local[i].matched.None?
    ensures MatchedCount(local[i := local[i].(matched := Some(t))], k) == MatchedCount(local, k) + Is(Key(t) == k)
  {
    var n := |local| - 1;
    var item := local[i].(matched := Some(t));
    if i < n {
      MatchItem(local[..n], i, t, k);
      assert local[i := item][..n] == local[..n][i := item];
    } else {
      assert local[i := item][..n] == local[..n];
    }
  }

  lemma MatchOne(
    local: seq<HistoryItem>, updated: seq<HistoryItem>, remote: seq<ReserveTransaction>, flags: seq<bool>, l: nat,
        r: nat)
    requires MatchedSoFar(local, updated, remote, flags, l) && l < |local| && r < |remote|
    requires local[l].matched.None? && !flags[r] && WaitsFor(local[l], remote[r])
    ensures MatchedSoFar(local, updated[l := local[l].(matched := Some(remote[r]))], remote, flags[r := true], l + 1)
  {
    assert updated[l] == local[l];
    var updated', flags' := updated[l := local[l].(matched := Some(remote[r]))], flags[r := true];
    forall k
      ensures MatchedCount(updated', k) == CountWhere(remote, flags', true, k)
    {
      MatchItem(updated, l, remote[r], k);
      SetRemoteFlag(remote, flags, r, k);
    }
    forall i | 0 <= i < l && updated[i].matched.None? ensures NoFreeMatch(local[i], remote, flags[r := true]) {
      assert NoFreeMatch(local[i], remote, flags);
    }
  }

  method FindNewMatches(local: seq<HistoryItem>, remote: seq<ReserveTransaction>, definite: seq<bool>)
    returns (updated: seq<HistoryItem>, newMatched: seq<HistoryItem>, remoteMatched: seq<bool>)
    requires |definite| == |remote|
    requires forall k :: MatchedCount(local, k) == CountWhere(remote, definite, true, k)
    ensures MatchedSoFar(local, updated, remote, remoteMatched, |local|)
    ensures newMatched == NewlyMatched(local, updated)
  {
    updated, newMatched, remoteMatched := local, [], definite;
    for localIndex := 0 to |local|
      invariant MatchedSoFar(local, updated, remote, remoteMatched, localIndex)
      invariant newMatched == NewlyMatched(local[..localIndex], updated[..localIndex])
    {
      var lhi := local[localIndex];
      var remoteIndex := |remote|;
      if lhi.matched.None? {
        remoteIndex := FirstFreeMatch(lhi, remote, remoteMatched);
      }
      if remoteIndex < |remote| {
        var updated' := updated[localIndex := lhi.(matched := Some(remote[remoteIndex]))];
        MatchOne(local, updated, remote, remoteMatched, localIndex, remoteIndex);
        NewlyMatchedStep(local, updated', localIndex);
        assert updated'[..localIndex] == updated[..localIndex];
        remoteMatched := remoteMatched[remoteIndex := true];
        updated := updated';
        newMatched := newMatched + [lhi];
      } else {
        MatchNone(local, updated, remote, remoteMatched, localIndex);
        NewlyMatchedStep(local, updated, localIndex);
      }
    }
    assert local[..|local|] == local && updated[..|local|] == updated;
  }

  lemma MatchNone(
    local: seq<HistoryItem>, updated: seq<HistoryItem>, remote: seq<ReserveTransaction>, flags: seq<bool>, l: nat)
    requires MatchedSoFar(local, updated, remote, flags, l) && l < |local|
    requires local[l].matched.None? ==> NoFreeMatch(local[l], remote, flags)
    ensures MatchedSoFar(local, updated, remote, flags, l + 1)
    ensures updated[l] == local[l]
  {
  }

  lemma NewlyMatchedStep(local: seq<HistoryItem>, updated: seq<HistoryItem>, i: nat)
    requires |local| == |updated| && i < |local|
    ensures NewlyMatched(local[..i + 1], updated[..i + 1]) ==
            NewlyMatched(local[..i], updated[..i]) +
            if local[i].matched.None? && updated[i].matched.Some? then [local[i]] else []
  {
    assert local[..i + 1][..i] == local[..i] && updated[..i + 1][..i] == updated[..i];
  }

  /** The inner loop: the first free transaction that matches the item, if any. */
  method FirstFreeMatch(lhi: HistoryItem, remote: seq<ReserveTransaction>, remoteMatched: seq<bool>)
    returns (remoteIndex: nat)
    requires |remoteMatched| == |remote|
    ensures remoteIndex <= |remote|
    ensures forall r | 0 <= r < remoteIndex :: !remoteMatched[r] ==> !WaitsFor(lhi, remote[r])
    ensures remoteIndex < |remote| ==>
              !remoteMatched[remoteIndex] && WaitsFor(lhi, remote[remoteIndex])
  {
    remoteIndex := 0;
    while remoteIndex < |remote|
      invariant remoteIndex <= |remote|
      invariant forall r | 0 <= r < remoteIndex :: !remoteMatched[r] ==> !WaitsFor(lhi, remote[r])
    {
      LocalMatchIsWaiting(lhi, remote[remoteIndex]);
      if !remoteMatched[remoteIndex] && IsLocalRemoteHistoryMatch(lhi, remote[remoteIndex]) {
        return;
      }
      remoteIndex := remoteIndex + 1;
    }
  }

  method AddNewItems(remote: seq<ReserveTransaction>, remoteMatched: seq<bool>) returns (added: seq<HistoryItem>)
    requires |remoteMatched| == |remote|
    ensures added == NewItems(remote, remoteMatched)
  {
    added := [];
    for remoteIndex := 0 to |remote|
      invariant added == NewItems(remote[..remoteIndex], remoteMatched[..remoteIndex])
    {
      NewItemsStep(remote, remoteMatched, remoteIndex);
      if remoteMatched[remoteIndex] {
        continue;
      }
      var rhi := remote[remoteIndex];
      var newItem :=
        match rhi
        case Closing(_, _) => HistoryItem(ClosingItem, None, Some(rhi))
        case Credit(_, _) => HistoryItem(CreditItem, None, Some(rhi))
        case Recoup(_, _, _) => HistoryItem(RecoupItem, None, Some(rhi))
        case Withdraw(_, _) => HistoryItem(WithdrawItem, None, Some(rhi));
      added := added + [newItem];
    }
    assert remote[..|remote|] == remote && remoteMatched[..|remote|] == remoteMatched;
  }

  lemma NewItemsStep(remote: seq<ReserveTransaction>, flags: seq<bool>, i: nat)
    requires |flags| == |remote| && i < |remote|
    ensures NewItems(remote[..i + 1], flags[..i + 1]) ==
            NewItems(remote[..i], flags[..i]) + if flags[i] then [] else [NewItem(remote[i])]
  {
    assert remote[..i + 1][..i] == remote[..i] && flags[..i + 1][..i] == flags[..i];
  }

  lemma {:induction false} MatchedCountConcat(s: seq<HistoryItem>, t: seq<HistoryItem>, k: ReserveTransaction)
    ensures MatchedCount(s + t, k) == MatchedCount(s, k) + MatchedCount(t, k)
  {
    if t == [] {
      assert s + t == s;
    } else {
      MatchedCountConcat(s, t[..|t| - 1], k);
      assert (s + t)[..|s + t| - 1] == s + t[..|t| - 1];
    }
  }

  lemma MatchedCountStep(s: seq<HistoryItem>, item: HistoryItem, k: ReserveTransaction)
    ensures MatchedCount(s + [item], k) == MatchedCount(s, k) + Is(MatchedWith(item, k))
  {
    assert (s + [item])[..|s|] == s;
  }

  lemma {:induction false} MatchedCountOfNewItems(remote: seq<ReserveTransaction>, flags: seq<bool>,
      k: ReserveTransaction)
    requires |flags| == |remote|
    ensures MatchedCount(NewItems(remote, flags), k) == CountWhere(remote, flags, false, k)
  {
    if remote != [] {
      var n := |remote| - 1;
      MatchedCountOfNewItems(remote[..n], flags[..n], k);
      var rest := NewItems(remote[..n], flags[..n]);
      if flags[n] {
        assert rest + [] == rest;
      } else {
        MatchedCountStep(rest, NewItem(remote[n]), k);
      }
    }
  }

  /** What reconcileReserveHistory promises about its result; the flags mark the transactions
      that were matched with an item the wallet already had. */
  ghost predicate ReconciledBy(
    local: seq<HistoryItem>, remote: seq<ReserveTransaction>, out: Reconciliation, flags: seq<bool>)
  {
    var updated := out.updatedLocalHistory;
    && |flags| == |remote|
    && out.newAddedItems == NewItems(remote, flags)
    && |updated| == |local| + |out.newAddedItems|
    && updated[|local|..] == out.newAddedItems
    && (forall i | 0 <= i < |local| :: SameOrNewlyMatched(local[i], updated[i], remote))
    && (forall i | 0 <= i < |local| :: updated[i].matched.None? ==> NoFreeMatch(local[i], remote, flags))
    && out.newMatchedItems == NewlyMatched(local, updated[..|local|])
    && InAgreement(updated, remote)
  }

  ghost predicate Reconciled(local: seq<HistoryItem>, remote: seq<ReserveTransaction>, out: Reconciliation) {
    exists flags :: ReconciledBy(local, remote, out, flags)
  }

  /** Reconciliation fails exactly when the exchange's history has lost a matched transaction;
      otherwise it brings the two histories into agreement. */
  method ReconcileReserveHistory(local: seq<HistoryItem>, remote: seq<ReserveTransaction>)
    returns (r: Result<Reconciliation, ReconcileError>)
    ensures r.Success? <==> NothingLost(local, remote)
    ensures r.Success? ==> Reconciled(local, remote, r.value)
  {
    var localMatched, remoteMatched := FindDefiniteMatches(local, remote);
    PairingIsPerfect(local, remote, localMatched, remoteMatched);
    for localIndex := 0 to |local|
      invariant forall l | 0 <= l < localIndex :: local[l].matched.Some? ==> localMatched[l]
    {
      if localMatched[localIndex] {
        continue;
      }
      if local[localIndex].matched.Some? {
        return Failure(NowUnmatched);
      }
    }
    forall k
      ensures MatchedCount(local, k) == CountWhere(remote, remoteMatched, true, k)
    {
      FlaggedAndMatched(local, localMatched, k);
    }
    var updated, newMatchedItems, allMatched := FindNewMatches(local, remote, remoteMatched);
    var newAddedItems := AddNewItems(remote, allMatched);
    var out := Reconciliation(updated + newAddedItems, newAddedItems, newMatchedItems);
    NewHistoryAgrees(local, remote, out, updated, allMatched);
    return Success(out);
  }

  lemma NewHistoryAgrees(
    local: seq<HistoryItem>, remote: seq<ReserveTransaction>, out: Reconciliation, updated: seq<HistoryItem>,
        flags: seq<bool>)
    requires MatchedSoFar(local, updated, remote, flags, |local|)
    requires out == Reconciliation(updated + NewItems(remote, flags), NewItems(remote, flags),
               NewlyMatched(local, updated))
    ensures ReconciledBy(local, remote, out, flags)
  {
    forall k
      ensures MatchedCount(out.updatedLocalHistory, k) == RemoteCount(remote, k)
    {
      MatchedCountConcat(updated, out.newAddedItems, k);
      MatchedCountOfNewItems(remote, flags, k);
      CountsSplit(remote, flags, k);
    }
    assert out.updatedLocalHistory[..|local|] == updated;
  }
}

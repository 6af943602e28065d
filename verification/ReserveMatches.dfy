// Which transactions of the exchange find an item of the wallet that waits for them: greedy matching,
// counted by type and amount (src/util/reserveHistoryUtil.ts, reconcileReserveHistory).
module ReserveMatches {
  import opened Wrappers
  import opened Amounts
  import opened ReserveHistory
  import opened ReserveSummary

  /** The exchange gives every transaction one amount. */
  ghost predicate ConsistentAmounts(remote: seq<ReserveTransaction>) {
    forall a, b | a in remote && b in remote && Key(a) == Key(b) :: a.amount == b.amount
  }

  predicate IsOf(t: ReserveTransaction, itemType: ItemType, a: Money) {
    TypeOf(t) == itemType && t.amount == a
  }

  /** How many transactions of the given type and amount the exchange reports. */
  function Reported(remote: seq<ReserveTransaction>, itemType: ItemType, a: Money): nat {
    if remote == [] then 0
    else Reported(remote[..|remote| - 1], itemType, a) + Is(IsOf(remote[|remote| - 1], itemType, a))
  }

  predicate IsConfirmed(item: HistoryItem, itemType: ItemType, a: Money) {
    item.matched.Some? && IsOf(item.matched.value, itemType, a)
  }

  /** How many items are matched with such a transaction. */
  function Confirmed(history: seq<HistoryItem>, itemType: ItemType, a: Money): nat {
    if history == [] then 0
    else Confirmed(history[..|history| - 1], itemType, a) + Is(IsConfirmed(history[|history| - 1], itemType, a))
  }

  predicate IsWaiting(item: HistoryItem, itemType: ItemType, a: Money) {
    item.matched.None? && item.itemType == itemType && item.expectedAmount == Some(a)
  }

  /** How many items still wait for one. */
  function Waiting(history: seq<HistoryItem>, itemType: ItemType, a: Money): nat {
    if history == [] then 0
    else Waiting(history[..|history| - 1], itemType, a) + Is(IsWaiting(history[|history| - 1], itemType, a))
  }

  /** How many reported ones have not been matched under these flags. */
  function Free(remote: seq<ReserveTransaction>, flags: seq<bool>, itemType: ItemType, a: Money): nat
    requires |flags| == |remote|
  {
    if remote == [] then 0
    else
      var n := |remote| - 1;
      Free(remote[..n], flags[..n], itemType, a) + Is(!flags[n] && IsOf(remote[n], itemType, a))
  }

  // ----- Counts of combined histories -----

  lemma {:induction false} CountsConcat(s: seq<HistoryItem>, t: seq<HistoryItem>, itemType: ItemType, a: Money)
    ensures Confirmed(s + t, itemType, a) == Confirmed(s, itemType, a) + Confirmed(t, itemType, a)
    ensures Waiting(s + t, itemType, a) == Waiting(s, itemType, a) + Waiting(t, itemType, a)
  {
    if t == [] {
      assert s + t == s;
    } else {
      CountsConcat(s, t[..|t| - 1], itemType, a);
      assert (s + t)[..|s + t| - 1] == s + t[..|t| - 1];
    }
  }

  lemma OneItem(x: HistoryItem, itemType: ItemType, a: Money)
    ensures Confirmed([x], itemType, a) == Is(IsConfirmed(x, itemType, a))
    ensures Waiting([x], itemType, a) == Is(IsWaiting(x, itemType, a))
  {
    assert [x][..0] == [];
  }

  lemma RemoveConfirmed(local: seq<HistoryItem>, i: nat, itemType: ItemType, a: Money)
    requires i < |local|
    ensures Confirmed(local, itemType, a) ==
            Confirmed(local[..i] + local[i + 1..], itemType, a) + Is(IsConfirmed(local[i], itemType, a))
  {
    var s, x, t := local[..i], local[i], local[i + 1..];
    assert local == (s + [x]) + t;
    CountsConcat(s + [x], t, itemType, a);
    CountsConcat(s, [x], itemType, a);
    CountsConcat(s, t, itemType, a);
    OneItem(x, itemType, a);
  }

  lemma {:induction false} NoneConfirmed(local: seq<HistoryItem>, itemType: ItemType, a: Money)
    requires forall k :: MatchedCount(local, k) == 0
    ensures Confirmed(local, itemType, a) == 0
  {
    if local != [] {
      var init := local[..|local| - 1];
      forall k ensures MatchedCount(init, k) == 0 {
        assert MatchedCount(local, k) == 0;
      }
      NoneConfirmed(init, itemType, a);
      LastIsCounted(local);
    }
  }

  /** In agreement the wallet has matched, of each type and amount, as many items as are reported. */
  lemma {:induction false} AgreementConfirmsReported(
    local: seq<HistoryItem>, remote: seq<ReserveTransaction>, itemType: ItemType, a: Money)
    requires InAgreement(local, remote) && EqualAmounts(local, remote)
    ensures Confirmed(local, itemType, a) == Reported(remote, itemType, a)
    decreases |remote|
  {
    if remote == [] {
      NoneConfirmed(local, itemType, a);
    } else {
      var remote', t := remote[..|remote| - 1], remote[|remote| - 1];
      assert MatchedCount(local, Key(t)) == RemoteCount(remote, Key(t)) > 0;
      var i := FindMatched(local, Key(t));
      var local' := local[..i] + local[i + 1..];
      forall k ensures MatchedCount(local', k) == RemoteCount(remote', k) {
        RemoveItem(local, i, k, INCOMING);
        assert MatchedCount(local, k) == RemoteCount(remote, k);
      }
      RemoveConfirmed(local, i, itemType, a);
      StillEqualAmounts(local, i, remote);
      AgreementConfirmsReported(local', remote', itemType, a);
      assert local[i].matched.value.amount == t.amount;
      SameType(local[i].matched.value, t);
    }
  }

  lemma SameType(t: ReserveTransaction, u: ReserveTransaction)
    requires Key(t) == Key(u)
    ensures TypeOf(t) == TypeOf(u)
  {
  }

  lemma StillEqualAmounts(local: seq<HistoryItem>, i: nat, remote: seq<ReserveTransaction>)
    requires EqualAmounts(local, remote) && i < |local| && remote != []
    ensures EqualAmounts(local[..i] + local[i + 1..], remote[..|remote| - 1])
  {
    var local', remote' := local[..i] + local[i + 1..], remote[..|remote| - 1];
    forall j, r | 0 <= j < |local'| && 0 <= r < |remote'| && local'[j].matched.Some?
      ensures Key(local'[j].matched.value) == Key(remote'[r]) ==> local'[j].matched.value.amount == remote'[r].amount
    {
      assert local'[j] == local[if j < i then j else j + 1];
    }
  }

  // ----- Counts under a reconciliation -----

  /** An item that is matched waited for just this type and amount, and waits no longer. */
  lemma {:induction false} MatchingMovesCounts(before: seq<HistoryItem>, after: seq<HistoryItem>,
      remote: seq<ReserveTransaction>, itemType: ItemType, a: Money)
    requires |before| == |after| && forall i | 0 <= i < |before| :: SameOrNewlyMatched(before[i], after[i], remote)
    ensures var newly := Waiting(NewlyMatched(before, after), itemType, a);
            && Waiting(before, itemType, a) == Waiting(after, itemType, a) + newly
            && (itemType != ClosingItem ==>
                  Confirmed(after, itemType, a) == Confirmed(before, itemType, a) + newly)
  {
    hide SameOrNewlyMatched, IsWaiting, IsConfirmed;
    if before != [] {
      var n := |before| - 1;
      MatchingMovesCounts(before[..n], after[..n], remote, itemType, a);
      assert SameOrNewlyMatched(before[n], after[n], remote);
      MatchingMovesItem(before[n], after[n], remote, itemType, a);
      NewlyMatchedLast(before, after, itemType, a);
    }
  }

  lemma MatchingMovesItem(before: HistoryItem, after: HistoryItem, remote: seq<ReserveTransaction>,
      itemType: ItemType, a: Money)
    requires SameOrNewlyMatched(before, after, remote)
    ensures var newly := if before.matched.None? && after.matched.Some? then Is(IsWaiting(before, itemType, a)) else 0;
            && Is(IsWaiting(before, itemType, a)) == Is(IsWaiting(after, itemType, a)) + newly
            && (itemType != ClosingItem ==>
                  Is(IsConfirmed(after, itemType, a)) == Is(IsConfirmed(before, itemType, a)) + newly)
  {
  }

  lemma NewlyMatchedLast(before: seq<HistoryItem>, after: seq<HistoryItem>, itemType: ItemType, a: Money)
    requires |before| == |after| > 0
    ensures var n := |before| - 1;
            Waiting(NewlyMatched(before, after), itemType, a) ==
            Waiting(NewlyMatched(before[..n], after[..n]), itemType, a)
              + if before[n].matched.None? && after[n].matched.Some? then Is(IsWaiting(before[n], itemType, a)) else 0
  {
    var n := |before| - 1;
    var newly := NewlyMatched(before[..n], after[..n]);
    CountsConcat(newly, [before[n]], itemType, a);
    OneItem(before[n], itemType, a);
    assert newly + [] == newly;
  }

  lemma {:induction false} AddedAreFree(
    remote: seq<ReserveTransaction>, flags: seq<bool>, itemType: ItemType, a: Money)
    requires |flags| == |remote|
    ensures Confirmed(NewItems(remote, flags), itemType, a) == Free(remote, flags, itemType, a)
    ensures Waiting(NewItems(remote, flags), itemType, a) == 0
  {
    if remote == [] {
      assert NewItems(remote, flags) == [];
    } else {
      AddedAreFree(remote[..|remote| - 1], flags[..|flags| - 1], itemType, a);
      LastAdded(remote, flags, itemType, a);
    }
  }

  lemma LastAdded(remote: seq<ReserveTransaction>, flags: seq<bool>, itemType: ItemType, a: Money)
    requires |flags| == |remote| > 0
    ensures var n := |remote| - 1;
            var rest := NewItems(remote[..n], flags[..n]);
            && Confirmed(NewItems(remote, flags), itemType, a)
                 == Confirmed(rest, itemType, a) + Is(!flags[n] && IsOf(remote[n], itemType, a))
            && Waiting(NewItems(remote, flags), itemType, a) == Waiting(rest, itemType, a)
  {
    hide Confirmed, Waiting, IsOf, NewItem;
    var n := |remote| - 1;
    var rest := NewItems(remote[..n], flags[..n]);
    NewItemCounts(remote[n], itemType, a);
    CountsConcat(rest, [NewItem(remote[n])], itemType, a);
    assert rest + [] == rest;
  }

  lemma NewItemCounts(t: ReserveTransaction, itemType: ItemType, a: Money)
    ensures Confirmed([NewItem(t)], itemType, a) == Is(IsOf(t, itemType, a))
    ensures Waiting([NewItem(t)], itemType, a) == 0
  {
    OneItem(NewItem(t), itemType, a);
  }

  lemma {:induction false} NoneFree(remote: seq<ReserveTransaction>, flags: seq<bool>, itemType: ItemType, a: Money)
    requires |flags| == |remote|
    requires forall r | 0 <= r < |remote| :: flags[r] || !IsOf(remote[r], itemType, a)
    ensures Free(remote, flags, itemType, a) == 0
  {
    if remote != [] {
      NoneFree(remote[..|remote| - 1], flags[..|remote| - 1], itemType, a);
    }
  }

  lemma {:induction false} SomeWaiting(history: seq<HistoryItem>, itemType: ItemType, a: Money) returns (i: nat)
    requires Waiting(history, itemType, a) > 0
    ensures i < |history| && IsWaiting(history[i], itemType, a)
  {
    if IsWaiting(history[|history| - 1], itemType, a) {
      i := |history| - 1;
    } else {
      i := SomeWaiting(history[..|history| - 1], itemType, a);
    }
  }

  /** No item keeps waiting while a transaction that it waits for stays free. */
  lemma WaitingOrFree(local: seq<HistoryItem>, remote: seq<ReserveTransaction>, out: Reconciliation, flags: seq<bool>,
      itemType: ItemType, a: Money)
    requires ReconciledBy(local, remote, out, flags) && itemType != ClosingItem
    ensures Waiting(out.updatedLocalHistory[..|local|], itemType, a) == 0 || Free(remote, flags, itemType, a) == 0
  {
    if Waiting(out.updatedLocalHistory[..|local|], itemType, a) > 0 {
      var i := SomeWaiting(out.updatedLocalHistory[..|local|], itemType, a);
      assert out.updatedLocalHistory[i] == out.updatedLocalHistory[..|local|][i];
      assert SameOrNewlyMatched(local[i], out.updatedLocalHistory[i], remote);
      assert NoFreeMatch(local[i], remote, flags);
      NoneFree(remote, flags, itemType, a);
    }
  }

  /** New matches and new items are transactions of the exchange, so they have its amounts. */
  lemma ReconciledAmounts(local: seq<HistoryItem>, remote: seq<ReserveTransaction>, out: Reconciliation)
    requires Reconciled(local, remote, out) && EqualAmounts(local, remote) && ConsistentAmounts(remote)
    ensures EqualAmounts(out.updatedLocalHistory, remote)
  {
    var flags :| ReconciledBy(local, remote, out, flags);
    NewItemsAreMatched(remote, flags);
    var updated := out.updatedLocalHistory;
    forall i, r | 0 <= i < |updated| && 0 <= r < |remote| && updated[i].matched.Some?
      ensures Key(updated[i].matched.value) == Key(remote[r]) ==> updated[i].matched.value.amount == remote[r].amount
    {
      if i < |local| {
        assert SameOrNewlyMatched(local[i], updated[i], remote);
      } else {
        assert updated[i] == out.newAddedItems[i - |local|];
      }
    }
  }

  lemma {:induction false} NewItemsAreMatched(remote: seq<ReserveTransaction>, flags: seq<bool>)
    requires |flags| == |remote|
    ensures forall i | 0 <= i < |NewItems(remote, flags)| ::
              var item := NewItems(remote, flags)[i];
              item.matched.Some? && item.matched.value in remote && item == NewItem(item.matched.value)
  {
    if remote != [] {
      NewItemsAreMatched(remote[..|remote| - 1], flags[..|remote| - 1]);
    }
  }

  function AtLeastZero(n: int): nat {
    if n < 0 then 0 else n
  }

  /** Credits, recoups and withdrawals are matched by type and amount as far as possible. Of those that
      the wallet had not yet matched, as many as items wait for them are matched with such items, and only
      the rest is added as new; so nothing is added while an item still waits for it. */
  lemma TransactionsFindWaitingItems(local: seq<HistoryItem>, remote: seq<ReserveTransaction>, out: Reconciliation,
      itemType: ItemType, a: Money)
    requires Reconciled(local, remote, out) && EqualAmounts(local, remote) && ConsistentAmounts(remote)
    requires itemType != ClosingItem
    ensures var waiting := Waiting(local, itemType, a);
            var unmatched := Reported(remote, itemType, a) - Confirmed(local, itemType, a);
            && unmatched >= 0
            && Confirmed(out.newAddedItems, itemType, a) == AtLeastZero(unmatched - waiting)
            && Waiting(out.newMatchedItems, itemType, a) == unmatched - AtLeastZero(unmatched - waiting)
            && Waiting(out.updatedLocalHistory, itemType, a) == AtLeastZero(waiting - unmatched)
            && Confirmed(out.updatedLocalHistory, itemType, a) == Reported(remote, itemType, a)
  {
    hide Reported, Confirmed, Waiting, Free, NewlyMatched, NewItems, SameOrNewlyMatched, NoFreeMatch, EqualAmounts,
        ConsistentAmounts, InAgreement;
    var flags :| ReconciledBy(local, remote, out, flags);
    var updated, added := out.updatedLocalHistory[..|local|], out.newAddedItems;
    assert out.updatedLocalHistory == updated + added;
    ReconciledAmounts(local, remote, out);
    AgreementConfirmsReported(out.updatedLocalHistory, remote, itemType, a);
    CountsConcat(updated, added, itemType, a);
    MatchingMovesCounts(local, updated, remote, itemType, a);
    AddedAreFree(remote, flags, itemType, a);
    WaitingOrFree(local, remote, out, flags, itemType, a);
  }

  /** A closing is never expected: each one that is not matched yet is added. */
  lemma ClosingsAreAdded(local: seq<HistoryItem>, remote: seq<ReserveTransaction>, out: Reconciliation, a: Money)
    requires Reconciled(local, remote, out) && EqualAmounts(local, remote) && ConsistentAmounts(remote)
    ensures Confirmed(out.newAddedItems, ClosingItem, a) ==
            Reported(remote, ClosingItem, a) - Confirmed(local, ClosingItem, a)
  {
    hide Reported, Confirmed, Waiting, Free, NewlyMatched, NewItems, SameOrNewlyMatched, NoFreeMatch, EqualAmounts,
        ConsistentAmounts, InAgreement;
    var flags :| ReconciledBy(local, remote, out, flags);
    var updated, added := out.updatedLocalHistory[..|local|], out.newAddedItems;
    assert out.updatedLocalHistory == updated + added;
    ReconciledAmounts(local, remote, out);
    AgreementConfirmsReported(out.updatedLocalHistory, remote, ClosingItem, a);
    CountsConcat(updated, added, ClosingItem, a);
    MatchingKeepsClosings(local, updated, remote, a);
  }

  lemma {:induction false} MatchingKeepsClosings(before: seq<HistoryItem>, after: seq<HistoryItem>,
      remote: seq<ReserveTransaction>, a: Money)
    requires |before| == |after| && forall i | 0 <= i < |before| :: SameOrNewlyMatched(before[i], after[i], remote)
    ensures Confirmed(after, ClosingItem, a) == Confirmed(before, ClosingItem, a)
  {
    if before != [] {
      var n := |before| - 1;
      MatchingKeepsClosings(before[..n], after[..n], remote, a);
      assert SameOrNewlyMatched(before[n], after[n], remote);
    }
  }
}

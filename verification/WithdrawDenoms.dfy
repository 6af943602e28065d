// Choosing denominations: the list of coins to withdraw for an amount, and the cost of a refresh.
module WithdrawDenoms {
  import opened Wrappers
  import opened Division
  import opened Amounts

  datatype Denom = Denom(denomPub: string, value: Money, feeWithdraw: Money, feeRefresh: Money, withdrawable: bool)

  const MAX_COINS: nat := 1000

  function Cost(d: Denom): Money {
    Plus(d.value, d.feeWithdraw)
  }

  function WithdrawableDenoms(ds: seq<Denom>): seq<Denom> {
    if ds == [] then []
    else
      var d := ds[|ds| - 1];
      WithdrawableDenoms(ds[..|ds| - 1]) + if d.withdrawable then [d] else []
  }

  lemma {:induction false} WithdrawableMembers(ds: seq<Denom>)
    ensures forall d :: d in WithdrawableDenoms(ds) <==> d in ds && d.withdrawable
  {
    if ds != [] {
      WithdrawableMembers(ds[..|ds| - 1]);
      assert ds == ds[..|ds| - 1] + [ds[|ds| - 1]];
    }
  }

  // ---- Descending by value ---------------------------------------------------------------------

  ghost predicate Descending(ds: seq<Denom>) {
    forall i, j :: 0 <= i < j < |ds| ==> ds[i].value >= ds[j].value
  }

  /** Placing d behind the last denomination that is worth at least as much. */
  function PlaceDenom(ds: seq<Denom>, d: Denom): seq<Denom> {
    if ds == [] || ds[|ds| - 1].value >= d.value then ds + [d]
    else PlaceDenom(ds[..|ds| - 1], d) + [ds[|ds| - 1]]
  }

  function SortDenoms(ds: seq<Denom>): seq<Denom> {
    if ds == [] then [] else PlaceDenom(SortDenoms(ds[..|ds| - 1]), ds[|ds| - 1])
  }

  lemma {:induction false} PlaceDenomMembers(ds: seq<Denom>, d: Denom)
    ensures multiset(PlaceDenom(ds, d)) == multiset(ds) + multiset{d}
  {
    if ds != [] && ds[|ds| - 1].value < d.value {
      assert ds == ds[..|ds| - 1] + [ds[|ds| - 1]];
      PlaceDenomMembers(ds[..|ds| - 1], d);
    }
  }

  /** The last denomination placed is worth at least bound if all of them are. */
  lemma {:induction false} PlaceDenomBounds(ds: seq<Denom>, d: Denom, bound: Money)
    requires d.value >= bound && forall i :: 0 <= i < |ds| ==> ds[i].value >= bound
    ensures forall i :: 0 <= i < |PlaceDenom(ds, d)| ==> PlaceDenom(ds, d)[i].value >= bound
  {
    if ds != [] && ds[|ds| - 1].value < d.value {
      PlaceDenomBounds(ds[..|ds| - 1], d, bound);
    }
  }

  lemma {:induction false} PlaceDenomDescends(ds: seq<Denom>, d: Denom)
    requires Descending(ds)
    ensures Descending(PlaceDenom(ds, d))
  {
    if ds != [] && ds[|ds| - 1].value < d.value {
      PlaceDenomDescends(ds[..|ds| - 1], d);
      PlaceDenomBounds(ds[..|ds| - 1], d, ds[|ds| - 1].value);
    }
  }

  /** The denominations tried are the withdrawable ones, the most valuable first. */
  lemma {:induction false} SortDenomsSorts(ds: seq<Denom>)
    ensures Descending(SortDenoms(ds)) && multiset(SortDenoms(ds)) == multiset(ds)
  {
    if ds != [] {
      SortDenomsSorts(ds[..|ds| - 1]);
      PlaceDenomMembers(SortDenoms(ds[..|ds| - 1]), ds[|ds| - 1]);
      PlaceDenomDescends(SortDenoms(ds[..|ds| - 1]), ds[|ds| - 1]);
      assert ds == ds[..|ds| - 1] + [ds[|ds| - 1]];
    }
  }

  // ---- Rescanning ------------------------------------------------------------------------------

  function FirstFit(ds: seq<Denom>, remaining: Money): Option<Denom> {
    if ds == [] then None
    else if remaining < Cost(ds[0]) then FirstFit(ds[1..], remaining)
    else Some(ds[0])
  }

  lemma {:induction false} FirstFitFits(ds: seq<Denom>, remaining: Money)
    ensures FirstFit(ds, remaining).Some? ==>
              Cost(FirstFit(ds, remaining).value) <= remaining && FirstFit(ds, remaining).value in ds
    ensures FirstFit(ds, remaining).None? ==> forall d :: d in ds ==> remaining < Cost(d)
  {
    if ds != [] && remaining < Cost(ds[0]) {
      FirstFitFits(ds[1..], remaining);
    }
  }

  /** At most n times: scan for the first denomination that still fits and take one coin of it. */
  function Rescan(ds: seq<Denom>, remaining: Money, n: nat): seq<Denom> {
    var d := FirstFit(ds, remaining);
    if n == 0 || d.None? then [] else [d.value] + Rescan(ds, Minus(remaining, Cost(d.value)), n - 1)
  }

  function WithdrawList(amount: Money, ds: seq<Denom>): seq<Denom> {
    Rescan(SortDenoms(WithdrawableDenoms(ds)), amount, MAX_COINS)
  }

  function TotalCost(ds: seq<Denom>): nat {
    if ds == [] then 0 else Cost(ds[0]) + TotalCost(ds[1..])
  }

  function TotalValue(ds: seq<Denom>): nat {
    if ds == [] then 0 else ds[0].value + TotalValue(ds[1..])
  }

  function TotalFees(ds: seq<Denom>): nat {
    if ds == [] then 0 else ds[0].feeWithdraw + TotalFees(ds[1..])
  }

  method GetWithdrawDenomList(amountAvailable: Money, denoms: seq<Denom>) returns (chosen: seq<Denom>)
    ensures chosen == WithdrawList(amountAvailable, denoms)
  {
    var remaining := amountAvailable;
    chosen := [];
    var sorted := SortDenoms(WithdrawableDenoms(denoms));
    var i := 0;
    while i < MAX_COINS
      invariant 0 <= i <= MAX_COINS
      invariant chosen + Rescan(sorted, remaining, MAX_COINS - i) == WithdrawList(amountAvailable, denoms)
      decreases MAX_COINS - i
    {
      var found := false;
      ghost var before, taken := remaining, chosen;
      var j := 0;
      while j < |sorted|
        invariant 0 <= j <= |sorted|
        invariant !found && remaining == before && chosen == taken
        invariant FirstFit(sorted[j..], remaining) == FirstFit(sorted, remaining)
        decreases |sorted| - j
      {
        var d := sorted[j];
        var cost := Plus(d.value, d.feeWithdraw);
        assert sorted[j..][1..] == sorted[j + 1..];
        if remaining < cost {
          j := j + 1;
          continue;
        }
        found := true;
        remaining := Minus(remaining, cost);
        chosen := chosen + [d];
        break;
      }
      if !found {
        return;
      }
      assert chosen + Rescan(sorted, remaining, MAX_COINS - i - 1)
          == taken + ([chosen[|chosen| - 1]] + Rescan(sorted, remaining, MAX_COINS - i - 1));
      i := i + 1;
    }
  }

  // ---- One pass --------------------------------------------------------------------------------

  function Repeat(d: Denom, n: nat): (s: seq<Denom>)
    ensures |s| == n && forall i :: 0 <= i < n ==> s[i] == d
  {
    seq(n, _ => d)
  }

  ghost predicate Positive(ds: seq<Denom>) {
    forall i :: 0 <= i < |ds| ==> Cost(ds[i]) > 0
  }

  /** Each denomination in turn, as many coins as the remaining amount pays for. */
  function OnePass(ds: seq<Denom>, remaining: Money): seq<Denom>
    requires Positive(ds)
  {
    if ds == [] then []
    else Repeat(ds[0], remaining / Cost(ds[0])) + OnePass(ds[1..], remaining % Cost(ds[0]))
  }

  lemma OneCopyLess(remaining: nat, cost: nat)
    requires 0 < cost <= remaining
    ensures remaining / cost == (remaining - cost) / cost + 1
    ensures remaining % cost == (remaining - cost) % cost
  {
    var q, r := (remaining - cost) / cost, (remaining - cost) % cost;
    assert remaining - cost == cost * q + r;
    assert remaining == cost * (q + 1) + r;
    DivisionUnique(remaining, cost, q + 1, r);
  }

  lemma OnePassTakesOne(ds: seq<Denom>, remaining: Money)
    requires ds != [] && Positive(ds)
    ensures remaining >= Cost(ds[0]) ==> OnePass(ds, remaining) == [ds[0]] + OnePass(ds, Minus(remaining, Cost(ds[0])))
    ensures remaining < Cost(ds[0]) ==> OnePass(ds, remaining) == OnePass(ds[1..], remaining)
  {
    hide OnePass;
    if remaining >= Cost(ds[0]) {
      var q, r := PassOver(ds, remaining);
      assert Repeat(ds[0], q + 1) == [ds[0]] + Repeat(ds[0], q);
    } else {
      PassBy(ds, remaining);
    }
  }

  /** How many coins of the first denomination are taken, and what is then left. */
  lemma PassOver(ds: seq<Denom>, remaining: Money) returns (q: nat, r: Money)
    requires ds != [] && Positive(ds) && remaining >= Cost(ds[0])
    ensures OnePass(ds, remaining) == Repeat(ds[0], q + 1) + OnePass(ds[1..], r)
    ensures OnePass(ds, remaining - Cost(ds[0])) == Repeat(ds[0], q) + OnePass(ds[1..], r)
  {
    var c := Cost(ds[0]);
    OneCopyLess(remaining, c);
    q, r := (remaining - c) / c, (remaining - c) % c;
  }

  lemma PassBy(ds: seq<Denom>, remaining: Money)
    requires ds != [] && Positive(ds) && remaining < Cost(ds[0])
    ensures OnePass(ds, remaining) == OnePass(ds[1..], remaining)
  {
    DivisionUnique(remaining, Cost(ds[0]), 0, remaining);
    assert Repeat(ds[0], 0) == [];
  }

  /** A denomination that does not fit will not fit later either. */
  lemma {:induction false} SkipUnaffordable(ds: seq<Denom>, remaining: Money, n: nat)
    requires ds != [] && remaining < Cost(ds[0])
    ensures Rescan(ds, remaining, n) == Rescan(ds[1..], remaining, n)
    decreases n
  {
    var d := FirstFit(ds, remaining);
    if n > 0 && d.Some? {
      SkipUnaffordable(ds, Minus(remaining, Cost(d.value)), n - 1);
    }
  }

  function Take(s: seq<Denom>, n: nat): seq<Denom> {
    if |s| <= n then s else s[..n]
  }

  lemma TakeCons(d: Denom, s: seq<Denom>, n: nat)
    requires n > 0
    ensures Take([d] + s, n) == [d] + Take(s, n - 1)
  {
  }

  /** Repeated rescanning gives what one pass gives, cut off at the limit. */
  lemma {:induction false} RescanIsOnePass(ds: seq<Denom>, remaining: Money, n: nat)
    requires Positive(ds)
    ensures Rescan(ds, remaining, n) == Take(OnePass(ds, remaining), n)
    decreases |ds|, n
  {
    if ds != [] {
      hide OnePass;
      OnePassTakesOne(ds, remaining);
      if remaining < Cost(ds[0]) {
        SkipUnaffordable(ds, remaining, n);
        RescanIsOnePass(ds[1..], remaining, n);
      } else if n > 0 {
        var less := Minus(remaining, Cost(ds[0]));
        RescanIsOnePass(ds, less, n - 1);
        TakeCons(ds[0], OnePass(ds, less), n);
      }
    }
  }

  // ---- What is spent and what is left ----------------------------------------------------------

  /** The coins never cost more than the amount. If the limit is not reached, the leftover does not
      pay for any denomination. */
  lemma {:induction false} LeftoverIsBelowEveryCost(ds: seq<Denom>, remaining: Money, n: nat)
    ensures var chosen := Rescan(ds, remaining, n);
            && |chosen| <= n
            && TotalCost(chosen) <= remaining
            && (forall d :: d in chosen ==> d in ds)
            && (|chosen| < n ==> forall d :: d in ds ==> remaining - TotalCost(chosen) < Cost(d))
    decreases n
  {
    var d := FirstFit(ds, remaining);
    FirstFitFits(ds, remaining);
    if n > 0 && d.Some? {
      LeftoverIsBelowEveryCost(ds, Minus(remaining, Cost(d.value)), n - 1);
    }
  }

  lemma {:induction false} FirstFitIsMostValuable(ds: seq<Denom>, remaining: Money)
    requires Descending(ds) && FirstFit(ds, remaining).Some?
    ensures forall d :: d in ds && FirstFit(ds, remaining).value.value < d.value ==> remaining < Cost(d)
  {
    if remaining < Cost(ds[0]) {
      FirstFitIsMostValuable(ds[1..], remaining);
    }
  }

  /** When coin i is taken, nothing more valuable can be paid from what is left. */
  lemma {:induction false} RescanIsGreedy(ds: seq<Denom>, remaining: Money, n: nat, i: nat, d: Denom)
    requires Descending(ds) && i < |Rescan(ds, remaining, n)| && d in ds
    ensures var chosen := Rescan(ds, remaining, n);
            chosen[i].value < d.value ==> remaining - TotalCost(chosen[..i]) < Cost(d)
    decreases n
  {
    var first := FirstFit(ds, remaining);
    var chosen := Rescan(ds, remaining, n);
    FirstFitFits(ds, remaining);
    if i == 0 {
      FirstFitIsMostValuable(ds, remaining);
      assert chosen[..0] == [];
    } else {
      RescanIsGreedy(ds, Minus(remaining, Cost(first.value)), n - 1, i - 1, d);
      assert chosen[..i] == [chosen[0]] + chosen[1..][..i - 1];
    }
  }

  /** The list for an amount: withdrawable denominations only, each the most valuable one that the rest of
      the amount could pay for, up to the limit or until it can pay for none. */
  lemma ChosenDenoms(amount: Money, denoms: seq<Denom>)
    ensures var chosen := WithdrawList(amount, denoms);
            && |chosen| <= 1000 && TotalCost(chosen) <= amount
            && (forall d :: d in chosen ==> d in denoms && d.withdrawable)
            && (forall i: nat, d :: i < |chosen| && d in denoms && d.withdrawable && chosen[i].value < d.value ==>
                  amount - TotalCost(chosen[..i]) < Cost(d))
            && (|chosen| < 1000 ==> forall d :: d in denoms && d.withdrawable ==> amount - TotalCost(chosen) < Cost(d))
  {
    var tried := SortDenoms(WithdrawableDenoms(denoms));
    TriedDenoms(denoms);
    LeftoverIsBelowEveryCost(tried, amount, MAX_COINS);
    var chosen := WithdrawList(amount, denoms);
    hide SortDenoms, WithdrawableDenoms, Rescan, TotalCost;
    forall i: nat, d | i < |chosen| && d in denoms && d.withdrawable && chosen[i].value < d.value
      ensures amount - TotalCost(chosen[..i]) < Cost(d)
    {
      RescanIsGreedy(tried, amount, MAX_COINS, i, d);
    }
  }

  lemma TriedDenoms(denoms: seq<Denom>)
    ensures Descending(SortDenoms(WithdrawableDenoms(denoms)))
    ensures forall d :: d in SortDenoms(WithdrawableDenoms(denoms)) <==> d in denoms && d.withdrawable
  {
    var ds := WithdrawableDenoms(denoms);
    WithdrawableMembers(denoms);
    SortDenomsSorts(ds);
    forall d ensures d in SortDenoms(ds) <==> d in ds {
      assert d in multiset(SortDenoms(ds)) <==> d in multiset(ds);
    }
  }

  /** A denomination that costs nothing fits for ever: the list is then always cut off at the limit. */
  lemma {:induction false} FreeDenominationFillsList(ds: seq<Denom>, remaining: Money, n: nat, free: Denom)
    requires free in ds && Cost(free) == 0
    ensures |Rescan(ds, remaining, n)| == n
    decreases n
  {
    FirstFitFits(ds, remaining);
    if n > 0 {
      FreeDenominationFillsList(ds, Minus(remaining, Cost(FirstFit(ds, remaining).value)), n - 1, free);
    }
  }

  ghost predicate HasFree(ds: seq<Denom>) {
    exists d :: d in ds && Cost(d) == 0
  }

  lemma PositiveUnlessFree(ds: seq<Denom>)
    ensures Positive(ds) <==> !HasFree(ds)
  {
    forall i | 0 <= i < |ds| ensures Cost(ds[i]) == 0 ==> HasFree(ds) {
      assert ds[i] in ds;
    }
  }

  /** The list reaches its limit exactly if some denomination costs nothing or one pass gives that
      many coins. */
  lemma ListReachesLimitIff(ds: seq<Denom>, remaining: Money, n: nat)
    ensures |Rescan(ds, remaining, n)| == n <==>
            n == 0 || HasFree(ds) || (Positive(ds) && |OnePass(ds, remaining)| >= n)
  {
    hide Rescan, OnePass, Cost;
    PositiveUnlessFree(ds);
    if HasFree(ds) {
      var free :| free in ds && Cost(free) == 0;
      FreeDenominationFillsList(ds, remaining, n, free);
    } else {
      RescanIsOnePass(ds, remaining, n);
    }
  }

  lemma {:induction false} ValueAtMostCost(ds: seq<Denom>)
    ensures TotalValue(ds) <= TotalCost(ds)
    ensures TotalCost(ds) < MAX_UNITS ==> TotalCost(ds) == TotalValue(ds) + TotalFees(ds)
  {
    if ds != [] {
      ValueAtMostCost(ds[1..]);
    }
  }

  lemma {:induction false} TotalValueStep(ds: seq<Denom>, i: nat)
    requires i < |ds|
    ensures TotalValue(ds[..i + 1]) == TotalValue(ds[..i]) + ds[i].value
    ensures TotalValue(ds[..i + 1]) <= TotalValue(ds)
    decreases i
  {
    if i == 0 {
      assert ds[..1] == [ds[0]] && ds[..0] == [];
    } else {
      TotalValueStep(ds[1..], i - 1);
      assert ds[..i + 1][1..] == ds[1..][..i] && ds[..i][1..] == ds[1..][..i - 1];
    }
  }

  // ---- The cost of a refresh -------------------------------------------------------------------

  function RefreshList(denoms: seq<Denom>, refreshed: Denom, amountLeft: Money): seq<Denom> {
    WithdrawList(Minus(amountLeft, refreshed.feeRefresh), denoms)
  }

  /** For every amount left, the cost and the value of the new coins make up exactly that amount; a
      coin that cannot be refreshed costs all that is left on it. */
  method GetTotalRefreshCost(denoms: seq<Denom>, refreshed: Denom, amountLeft: Money) returns (cost: Money)
    ensures cost + TotalValue(RefreshList(denoms, refreshed, amountLeft)) == amountLeft
    ensures RefreshList(denoms, refreshed, amountLeft) == [] ==> cost == amountLeft
  {
    var withdrawAmount := Minus(amountLeft, refreshed.feeRefresh);
    var withdrawDenoms := GetWithdrawDenomList(withdrawAmount, denoms);
    LeftoverIsBelowEveryCost(SortDenoms(WithdrawableDenoms(denoms)), withdrawAmount, MAX_COINS);
    ValueAtMostCost(withdrawDenoms);
    assert TotalValue(withdrawDenoms) <= withdrawAmount;
    hide WithdrawList;
    var resulting: Money := 0;
    for i := 0 to |withdrawDenoms|
      invariant resulting == TotalValue(withdrawDenoms[..i])
    {
      TotalValueStep(withdrawDenoms, i);
      resulting := Plus(resulting, withdrawDenoms[i].value);
    }
    assert withdrawDenoms[..|withdrawDenoms|] == withdrawDenoms;
    cost := Minus(amountLeft, resulting);
  }

  /** The cost is the refresh fee, as far as the amount covers it, the withdrawal fees of the new
      coins, and a rest that pays for no denomination unless the list was cut off. */
  lemma RefreshCostIsFeesAndRest(denoms: seq<Denom>, refreshed: Denom, amountLeft: Money, cost: Money)
    requires amountLeft < MAX_UNITS
    requires cost + TotalValue(RefreshList(denoms, refreshed, amountLeft)) == amountLeft
    ensures var chosen := RefreshList(denoms, refreshed, amountLeft);
            var fee := if amountLeft < refreshed.feeRefresh then amountLeft else refreshed.feeRefresh;
            var rest := cost - fee - TotalFees(chosen);
            && rest >= 0
            && (|chosen| < MAX_COINS ==> forall d :: d in denoms && d.withdrawable ==> rest < Cost(d))
  {
    var withdrawAmount := Minus(amountLeft, refreshed.feeRefresh);
    ChosenDenoms(withdrawAmount, denoms);
    ValueAtMostCost(RefreshList(denoms, refreshed, amountLeft));
  }
}

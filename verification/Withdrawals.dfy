// Withdrawal groups: over every interleaving and retry of planchet processing, each planchet becomes
// a coin exactly once and no value appears or disappears.
module Withdrawals {
  import opened Amounts
  import opened MoneyMaps

  datatype Planchet = Planchet(coinPub: string, coinValue: Money)

  datatype WithdrawalGroup = WithdrawalGroup(
    exchange: string,
    currency: string,
    totalCoinValue: Money,
    planchets: seq<Planchet>,
    withdrawn: seq<bool>,
    timestampFinish: bool)

  datatype Coin = Coin(amount: Money, currency: string, exchange: string, isFresh: bool, suspended: bool)

  datatype Db = Db(coins: map<string, Coin>, groups: map<string, WithdrawalGroup>)

  datatype Outcome = Stored | NothingToDo | KeyExists

  function CountDone(flags: seq<bool>): nat {
    if flags == [] then 0 else CountDone(flags[..|flags| - 1]) + if flags[|flags| - 1] then 1 else 0
  }

  /** The transaction that records the coin of planchet i, once the exchange has signed it. */
  function Processed(db: Db, gid: string, i: nat): (Db, Outcome) {
    if gid !in db.groups || i >= |db.groups[gid].planchets| || i >= |db.groups[gid].withdrawn|
        || db.groups[gid].withdrawn[i]
    then (db, NothingToDo)
    else
      var g := db.groups[gid];
      var p := g.planchets[i];
      var flags := g.withdrawn[i := true];
      var g' := g.(withdrawn := flags, timestampFinish := g.timestampFinish || CountDone(flags) == |g.planchets|);
      if p.coinPub in db.coins then (db, KeyExists)
      else
        var coin := Coin(p.coinValue, g.currency, g.exchange, true, false);
        (Db(db.coins[p.coinPub := coin], db.groups[gid := g']), Stored)
  }

  class WalletDb {
    var coins: map<string, Coin>
    var groups: map<string, WithdrawalGroup>

    ghost function St(): Db
      reads this
    {
      Db(coins, groups)
    }

    /** Adding a coin that exists makes the whole transaction fail. */
    method ProcessPlanchet(gid: string, coinIdx: nat) returns (r: Outcome)
      requires gid in groups ==> |groups[gid].withdrawn| == |groups[gid].planchets|
      modifies this
      ensures (St(), r) == Processed(old(St()), gid, coinIdx)
    {
      if gid !in groups {
        return NothingToDo;
      }
      var ws := groups[gid];
      if coinIdx >= |ws.planchets| || ws.withdrawn[coinIdx] {
        return NothingToDo;
      }
      var planchet := ws.planchets[coinIdx];
      ws := ws.(withdrawn := ws.withdrawn[coinIdx := true]);
      var numDone := 0;
      for i := 0 to |ws.withdrawn|
        invariant numDone == CountDone(ws.withdrawn[..i])
      {
        assert ws.withdrawn[..i + 1][..i] == ws.withdrawn[..i];
        if ws.withdrawn[i] {
          numDone := numDone + 1;
        }
      }
      assert ws.withdrawn[..|ws.withdrawn|] == ws.withdrawn;
      if numDone == |ws.planchets| {
        ws := ws.(timestampFinish := true);
      }
      if planchet.coinPub in coins {
        return KeyExists;
      }
      groups := groups[gid := ws];
      coins := coins[planchet.coinPub := Coin(planchet.coinValue, ws.currency, ws.exchange, true, false)];
      return Stored;
    }
  }

  // ---- Value -----------------------------------------------------------------------------------

  function TotalValue(ps: seq<Planchet>): nat {
    if ps == [] then 0 else TotalValue(ps[..|ps| - 1]) + ps[|ps| - 1].coinValue
  }

  /** The value of the planchets whose coin is not there yet. */
  function Missing(ps: seq<Planchet>, flags: seq<bool>): nat
    requires |ps| == |flags|
  {
    if ps == [] then 0
    else Missing(ps[..|ps| - 1], flags[..|flags| - 1]) + if flags[|flags| - 1] then 0 else ps[|ps| - 1].coinValue
  }

  /** The pending amount as the balance computes it, by taking withdrawn coins off the total. */
  function PendingLoop(total: Money, ps: seq<Planchet>, flags: seq<bool>): Money
    requires |ps| == |flags|
  {
    if ps == [] then total
    else
      var w := PendingLoop(total, ps[..|ps| - 1], flags[..|flags| - 1]);
      if flags[|flags| - 1] then Minus(w, ps[|ps| - 1].coinValue) else w
  }

  lemma {:induction false} PendingIsRest(total: Money, ps: seq<Planchet>, flags: seq<bool>)
    requires |ps| == |flags|
    requires total >= TotalValue(ps)
    ensures PendingLoop(total, ps, flags) == total - TotalValue(ps) + Missing(ps, flags)
    ensures Missing(ps, flags) <= TotalValue(ps)
  {
    if ps != [] {
      PendingIsRest(total, ps[..|ps| - 1], flags[..|flags| - 1]);
    }
  }

  lemma {:induction false} MissingAfter(ps: seq<Planchet>, flags: seq<bool>, i: nat)
    requires |ps| == |flags| && i < |ps| && !flags[i]
    ensures Missing(ps, flags) == Missing(ps, flags[i := true]) + ps[i].coinValue
  {
    var n := |ps| - 1;
    if i < n {
      MissingAfter(ps[..n], flags[..n], i);
      assert flags[i := true][..n] == flags[..n][i := true];
    } else {
      assert flags[i := true][..n] == flags[..n];
    }
  }

  lemma {:induction false} CountDoneMeansAll(flags: seq<bool>)
    ensures CountDone(flags) <= |flags|
    ensures CountDone(flags) == |flags| <==> forall i :: 0 <= i < |flags| ==> flags[i]
  {
    if flags != [] {
      CountDoneMeansAll(flags[..|flags| - 1]);
    }
  }

  // ---- What every step keeps -------------------------------------------------------------------

  ghost predicate WellFormed(g: WithdrawalGroup) {
    && |g.withdrawn| == |g.planchets| && |g.planchets| > 0
    && g.totalCoinValue == TotalValue(g.planchets)
  }

  ghost predicate FinishedIffAll(g: WithdrawalGroup) {
    g.timestampFinish <==> forall i :: 0 <= i < |g.withdrawn| ==> g.withdrawn[i]
  }

  ghost predicate HasPlanchet(db: Db, gid: string, i: nat) {
    gid in db.groups && i < |db.groups[gid].planchets|
  }

  ghost function PubOf(db: Db, gid: string, i: nat): string
    requires HasPlanchet(db, gid, i)
  {
    db.groups[gid].planchets[i].coinPub
  }

  /** Planchets of all groups have different keys. */
  ghost predicate KeysDiffer(db: Db) {
    forall g, i: nat, h, j: nat | HasPlanchet(db, g, i) && HasPlanchet(db, h, j) ::
      PubOf(db, g, i) == PubOf(db, h, j) ==> g == h && i == j
  }

  /** A planchet is marked as withdrawn exactly when its coin is there. */
  ghost predicate CoinsMatchFlags(db: Db) {
    forall g, i: nat :: HasPlanchet(db, g, i) && i < |db.groups[g].withdrawn| ==>
        (db.groups[g].withdrawn[i] <==> PubOf(db, g, i) in db.coins)
  }

  ghost predicate Inv(db: Db) {
    && (forall g :: g in db.groups ==> WellFormed(db.groups[g]) && FinishedIffAll(db.groups[g]))
    && KeysDiffer(db) && CoinsMatchFlags(db)
  }

  datatype Step = Process(gid: string, coinIdx: nat) | Create(gid: string, group: WithdrawalGroup)

  /** A group is created with planchets made from fresh keys, none of them withdrawn. */
  ghost predicate Enabled(db: Db, s: Step) {
    s.Create? ==>
      && s.gid !in db.groups && WellFormed(s.group) && !s.group.timestampFinish
      && (forall i :: 0 <= i < |s.group.withdrawn| ==> !s.group.withdrawn[i])
      && (forall i :: 0 <= i < |s.group.planchets| ==> s.group.planchets[i].coinPub !in db.coins)
      && KeysDiffer(db.(groups := db.groups[s.gid := s.group]))
  }

  function Next(db: Db, s: Step): Db {
    match s
    case Process(gid, i) => Processed(db, gid, i).0
    case Create(gid, group) => db.(groups := db.groups[gid := group])
  }

  lemma ProcessKeepsInv(db: Db, gid: string, i: nat)
    requires Inv(db)
    ensures Inv(Processed(db, gid, i).0)
    ensures Processed(db, gid, i).1 != KeyExists
    ensures Processed(db, gid, i).1 == Stored <==> HasPlanchet(db, gid, i) && !db.groups[gid].withdrawn[i]
  {
    hide WellFormed, FinishedIffAll, KeysDiffer;
    var (d, r) := Processed(db, gid, i);
    if HasPlanchet(db, gid, i) {
      var g := db.groups[gid];
      GroupShape(db, gid);
      if !g.withdrawn[i] {
        assert PubOf(db, gid, i) !in db.coins;
        FlagSet(g, i);
        SamePlanchets(db, d, gid);
        forall h, j: nat | HasPlanchet(d, h, j) && j < |d.groups[h].withdrawn|
          ensures d.groups[h].withdrawn[j] <==> PubOf(d, h, j) in d.coins
        {
          OtherKey(db, gid, i, h, j);
          assert HasPlanchet(db, h, j);
        }
      }
    }
  }

  /** Processing a planchet changes no other record: it can only set the planchet's flag, mark the group
      as finished and add the planchet's coin. */
  lemma OnlyPlanchetIsTouched(db: Db, gid: string, i: nat)
    ensures var d := Processed(db, gid, i).0;
            && (forall k :: k in db.coins ==> k in d.coins && d.coins[k] == db.coins[k])
            && (forall k :: k in d.coins && k !in db.coins ==> HasPlanchet(db, gid, i) && k == PubOf(db, gid, i))
            && d.groups.Keys == db.groups.Keys
            && (forall h :: h in db.groups && h != gid ==> d.groups[h] == db.groups[h])
            && (gid in db.groups ==>
                  var g, g' := db.groups[gid], d.groups[gid];
                  && g' == g.(withdrawn := g'.withdrawn, timestampFinish := g'.timestampFinish)
                  && (g'.withdrawn == g.withdrawn || (i < |g.withdrawn| && g'.withdrawn == g.withdrawn[i := true])))
  {
  }

  lemma GroupShape(db: Db, gid: string)
    requires Inv(db) && gid in db.groups
    ensures WellFormed(db.groups[gid]) && FinishedIffAll(db.groups[gid])
    ensures |db.groups[gid].withdrawn| == |db.groups[gid].planchets|
  {
  }

  lemma FlagSet(g: WithdrawalGroup, i: nat)
    requires WellFormed(g) && FinishedIffAll(g) && i < |g.withdrawn| && !g.withdrawn[i]
    ensures var flags := g.withdrawn[i := true];
            var g' := g.(withdrawn := flags, timestampFinish := g.timestampFinish || CountDone(flags) == |g.planchets|);
            WellFormed(g') && FinishedIffAll(g')
  {
    CountDoneMeansAll(g.withdrawn[i := true]);
  }

  lemma SamePlanchets(db: Db, d: Db, gid: string)
    requires KeysDiffer(db) && gid in db.groups && gid in d.groups
    requires d.groups == db.groups[gid := d.groups[gid]] && d.groups[gid].planchets == db.groups[gid].planchets
    ensures KeysDiffer(d)
  {
    assert forall h, j: nat :: HasPlanchet(d, h, j) ==> HasPlanchet(db, h, j) && PubOf(d, h, j) == PubOf(db, h, j);
  }

  lemma OtherKey(db: Db, g: string, i: nat, h: string, j: nat)
    requires KeysDiffer(db)
    ensures HasPlanchet(db, g, i) && HasPlanchet(db, h, j) && (g != h || i != j) ==> PubOf(db, g, i) != PubOf(db, h, j)
  {
  }

  lemma CreateKeepsInv(db: Db, gid: string, group: WithdrawalGroup)
    requires Inv(db) && Enabled(db, Create(gid, group))
    ensures Inv(Next(db, Create(gid, group)))
  {
    hide KeysDiffer;
    var d := Next(db, Create(gid, group));
    assert !group.withdrawn[0];
    forall h, j: nat | HasPlanchet(d, h, j) && j < |d.groups[h].withdrawn|
      ensures d.groups[h].withdrawn[j] <==> PubOf(d, h, j) in d.coins
    {
      if h != gid {
        assert HasPlanchet(db, h, j);
      } else {
        assert PubOf(d, h, j) == group.planchets[j].coinPub;
      }
    }
  }

  // ---- Conservation ----------------------------------------------------------------------------

  /** The two slices of the balance. */
  datatype Scope = InCurrency(currency: string) | AtExchange(exchange: string)

  predicate Within(scope: Scope, currency: string, exchange: string) {
    match scope
    case InCurrency(c) => c == currency
    case AtExchange(e) => e == exchange
  }

  ghost function AmountsOf(coins: map<string, Coin>, scope: Scope): map<string, nat> {
    map k | k in coins ::
      if Within(scope, coins[k].currency, coins[k].exchange) && coins[k].isFresh && !coins[k].suspended
      then coins[k].amount else 0
  }

  function Pending(g: WithdrawalGroup): Money {
    if |g.planchets| == |g.withdrawn| then PendingLoop(g.totalCoinValue, g.planchets, g.withdrawn) else g.totalCoinValue
  }

  ghost function PendingOf(groups: map<string, WithdrawalGroup>, scope: Scope): map<string, nat> {
    map g | g in groups :: if Within(scope, groups[g].currency, groups[g].exchange) then Pending(groups[g]) else 0
  }

  /** Available balance and the pending incoming balance of the groups together, in one currency or
      at one exchange. */
  ghost function Wealth(db: Db, scope: Scope): nat {
    SumMap(AmountsOf(db.coins, scope)) + SumMap(PendingOf(db.groups, scope))
  }

  lemma NewCoinCounts(coins: map<string, Coin>, pub: string, c: Coin, scope: Scope)
    requires pub !in coins && c.isFresh && !c.suspended
    ensures SumMap(AmountsOf(coins[pub := c], scope))
         == SumMap(AmountsOf(coins, scope)) + if Within(scope, c.currency, c.exchange) then c.amount else 0
  {
    hide SumMap;
    var counted: nat := if Within(scope, c.currency, c.exchange) then c.amount else 0;
    assert AmountsOf(coins[pub := c], scope) == AmountsOf(coins, scope)[pub := counted];
    SumPut(AmountsOf(coins, scope), pub, counted);
  }

  lemma NewGroupCounts(groups: map<string, WithdrawalGroup>, gid: string, g: WithdrawalGroup, scope: Scope)
    requires gid in groups ==> groups[gid].currency == g.currency && groups[gid].exchange == g.exchange
    ensures SumMap(PendingOf(groups[gid := g], scope))
            + (if gid in groups && Within(scope, g.currency, g.exchange) then Pending(groups[gid]) else 0)
         == SumMap(PendingOf(groups, scope)) + if Within(scope, g.currency, g.exchange) then Pending(g) else 0
  {
    hide SumMap, Pending;
    var counted: nat := if Within(scope, g.currency, g.exchange) then Pending(g) else 0;
    assert PendingOf(groups[gid := g], scope) == PendingOf(groups, scope)[gid := counted];
    SumPut(PendingOf(groups, scope), gid, counted);
  }

  lemma ProcessKeepsWealth(db: Db, gid: string, i: nat, scope: Scope)
    requires Inv(db)
    ensures Wealth(Processed(db, gid, i).0, scope) == Wealth(db, scope)
  {
    hide SumMap, KeysDiffer, CoinsMatchFlags, FinishedIffAll, AmountsOf, PendingOf;
    var (d, r) := Processed(db, gid, i);
    if r == Stored {
      var g := db.groups[gid];
      var p := g.planchets[i];
      NewCoinCounts(db.coins, p.coinPub, Coin(p.coinValue, g.currency, g.exchange, true, false), scope);
      PendingIsRest(g.totalCoinValue, g.planchets, g.withdrawn);
      PendingIsRest(g.totalCoinValue, g.planchets, g.withdrawn[i := true]);
      MissingAfter(g.planchets, g.withdrawn, i);
      NewGroupCounts(db.groups, gid, d.groups[gid], scope);
    }
  }

  lemma CreateAddsWealth(db: Db, gid: string, group: WithdrawalGroup, scope: Scope)
    requires Inv(db) && Enabled(db, Create(gid, group))
    ensures Wealth(Next(db, Create(gid, group)), scope)
         == Wealth(db, scope) + if Within(scope, group.currency, group.exchange) then group.totalCoinValue else 0
  {
    hide SumMap, KeysDiffer, CoinsMatchFlags, FinishedIffAll, AmountsOf, PendingOf;
    NoneWithdrawn(group.planchets, group.withdrawn);
    PendingIsRest(group.totalCoinValue, group.planchets, group.withdrawn);
    NewGroupCounts(db.groups, gid, group, scope);
  }

  lemma {:induction false} NoneWithdrawn(ps: seq<Planchet>, flags: seq<bool>)
    requires |ps| == |flags| && forall i :: 0 <= i < |flags| ==> !flags[i]
    ensures Missing(ps, flags) == TotalValue(ps)
  {
    if ps != [] {
      NoneWithdrawn(ps[..|ps| - 1], flags[..|flags| - 1]);
    }
  }

  // ---- Runs ------------------------------------------------------------------------------------

  function Run(db: Db, steps: seq<Step>): Db {
    if steps == [] then db else Next(Run(db, steps[..|steps| - 1]), steps[|steps| - 1])
  }

  ghost predicate CanRun(db: Db, steps: seq<Step>) {
    forall n :: 0 <= n < |steps| ==> Enabled(Run(db, steps[..n]), steps[n])
  }

  function Added(s: Step, scope: Scope): nat {
    if s.Create? && Within(scope, s.group.currency, s.group.exchange) then s.group.totalCoinValue else 0
  }

  function Created(steps: seq<Step>, scope: Scope): nat {
    if steps == [] then 0 else Created(steps[..|steps| - 1], scope) + Added(steps[|steps| - 1], scope)
  }

  /** How often the run inserted the coin of planchet i. */
  function Insertions(db: Db, steps: seq<Step>, gid: string, i: nat): nat {
    if steps == [] then 0
    else
      var before := Run(db, steps[..|steps| - 1]);
      var s := steps[|steps| - 1];
      Insertions(db, steps[..|steps| - 1], gid, i)
      + if s == Process(gid, i) && Processed(before, gid, i).1 == Stored then 1 else 0
  }

  function Flag(db: Db, gid: string, i: nat): nat {
    if gid in db.groups && i < |db.groups[gid].withdrawn| && db.groups[gid].withdrawn[i] then 1 else 0
  }

  lemma ProcessSetsFlag(db: Db, h: string, j: nat, gid: string, i: nat)
    ensures Flag(Processed(db, h, j).0, gid, i)
         == Flag(db, gid, i) + if h == gid && j == i && Processed(db, h, j).1 == Stored then 1 else 0
  {
  }

  lemma CreateSetsNoFlag(db: Db, h: string, group: WithdrawalGroup, gid: string, i: nat)
    requires Enabled(db, Create(h, group))
    ensures Flag(Next(db, Create(h, group)), gid, i) == Flag(db, gid, i)
  {
  }

  lemma StepFlags(db: Db, s: Step, gid: string, i: nat, scope: Scope)
    requires Inv(db) && Enabled(db, s)
    ensures Inv(Next(db, s))
    ensures Flag(Next(db, s), gid, i)
         == Flag(db, gid, i) + if s == Process(gid, i) && Processed(db, gid, i).1 == Stored then 1 else 0
    ensures Wealth(Next(db, s), scope) == Wealth(db, scope) + Added(s, scope)
  {
    hide Inv, Wealth, Flag, Enabled, Processed;
    match s {
      case Process(h, j) =>
        ProcessSetsFlag(db, h, j, gid, i);
        ProcessKeepsInv(db, h, j);
        ProcessKeepsWealth(db, h, j, scope);
      case Create(h, group) =>
        CreateSetsNoFlag(db, h, group, gid, i);
        CreateKeepsInv(db, h, group);
        CreateAddsWealth(db, h, group, scope);
    }
  }

  /** Over every run, in each currency and at each exchange: available plus pending balance grows only by
      the groups that are created there; a
      group is marked finished exactly when all its coins are there; and the coin of a planchet is
      inserted exactly as often as its flag turned from unset to set, hence at most once. */
  lemma {:induction false} RunsConserveValue(db: Db, steps: seq<Step>, gid: string, i: nat, scope: Scope)
    requires Inv(db) && CanRun(db, steps)
    ensures Inv(Run(db, steps))
    ensures Wealth(Run(db, steps), scope) == Wealth(db, scope) + Created(steps, scope)
    ensures Flag(Run(db, steps), gid, i) == Flag(db, gid, i) + Insertions(db, steps, gid, i)
    ensures Insertions(db, steps, gid, i) <= 1
  {
    hide Inv, Wealth, Enabled, Next, Processed;
    if steps != [] {
      var t, s := steps[..|steps| - 1], steps[|steps| - 1];
      assert forall n :: 0 <= n < |t| ==> t[n] == steps[n] && t[..n] == steps[..n];
      RunsConserveValue(db, t, gid, i, scope);
      StepFlags(Run(db, t), s, gid, i, scope);
    }
  }

  /** The coin that a run has inserted for a planchet has the planchet's value and its group's currency and
      exchange, and is fresh. */
  lemma {:induction false} InsertedCoin(db: Db, steps: seq<Step>, gid: string, i: nat)
    requires Inv(db) && CanRun(db, steps) && Insertions(db, steps, gid, i) > 0
    ensures var d := Run(db, steps);
            && HasPlanchet(d, gid, i) && PubOf(d, gid, i) in d.coins
            && d.coins[PubOf(d, gid, i)] == CoinOf(d, gid, i)
  {
    hide Inv, Enabled, Processed;
    var t, s := steps[..|steps| - 1], steps[|steps| - 1];
    assert forall n :: 0 <= n < |t| ==> t[n] == steps[n] && t[..n] == steps[..n];
    if Insertions(db, t, gid, i) > 0 {
      InsertedCoin(db, t, gid, i);
      CoinStays(Run(db, t), s, gid, i);
    } else {
      RunsConserveValue(db, t, gid, i, InCurrency(""));
      StoredCoin(Run(db, t), gid, i);
    }
  }

  ghost function CoinOf(db: Db, gid: string, i: nat): Coin
    requires HasPlanchet(db, gid, i)
  {
    var g := db.groups[gid];
    Coin(g.planchets[i].coinValue, g.currency, g.exchange, true, false)
  }

  lemma StoredCoin(db: Db, gid: string, i: nat)
    requires Processed(db, gid, i).1 == Stored
    ensures var d := Processed(db, gid, i).0;
            HasPlanchet(d, gid, i) && PubOf(d, gid, i) in d.coins && d.coins[PubOf(d, gid, i)] == CoinOf(d, gid, i)
  {
  }

  lemma CoinStays(db: Db, s: Step, gid: string, i: nat)
    requires HasPlanchet(db, gid, i) && PubOf(db, gid, i) in db.coins && Enabled(db, s)
    ensures var d := Next(db, s);
            && HasPlanchet(d, gid, i) && PubOf(d, gid, i) == PubOf(db, gid, i) && PubOf(d, gid, i) in d.coins
            && d.coins[PubOf(d, gid, i)] == db.coins[PubOf(d, gid, i)] && CoinOf(d, gid, i) == CoinOf(db, gid, i)
  {
    hide KeysDiffer;
  }

  /** From a database without groups on, with any coins: the available and pending balance is that of
      the coins at the start and of the groups created since, a planchet's coin has been inserted
      exactly if its flag is set, and a group is marked finished exactly when all its coins are there. */
  lemma RunsFromTheStart(db: Db, steps: seq<Step>, gid: string, i: nat, scope: Scope)
    requires db.groups == map[] && CanRun(db, steps)
    ensures Inv(Run(db, steps))
    ensures Wealth(Run(db, steps), scope) == SumMap(AmountsOf(db.coins, scope)) + Created(steps, scope)
    ensures Insertions(db, steps, gid, i) == Flag(Run(db, steps), gid, i) <= 1
  {
    assert PendingOf(db.groups, scope) == map[];
    hide Run, CanRun, Insertions;
    RunsConserveValue(db, steps, gid, i, scope);
  }
}

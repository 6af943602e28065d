// Refreshing coins: the database transactions that create, melt and reveal refresh sessions, each
// one atomic step. Replies, retries and the order of steps are arbitrary.
module Refresh {
  import opened Wrappers
  import opened Amounts
  import opened WithdrawDenoms

  /** The keys of the coins of a session are derived from its random transfer keys: one coin for
      each gamma and each denomination. */
  datatype CoinPub = Known(name: string) | Derived(session: nat, gamma: nat, index: nat)

  datatype Coin = Coin(amount: Money, isFresh: bool)

  datatype Session = Session(
    id: nat,
    meltCoinPub: CoinPub,
    amountRefreshInput: Money,
    values: seq<Money>,
    norevealIndex: Option<nat>,
    finished: bool)

  datatype Group = Group(
    oldCoinPubs: seq<CoinPub>,
    sessions: seq<Option<Session>>,
    finishedPerCoin: seq<bool>,
    timestampFinished: bool)

  /** nextSession stands for the randomness of the transfer keys: no two sessions share them. */
  datatype Db = Db(coins: map<CoinPub, Coin>, groups: map<string, Group>, nextSession: nat)

  const KAPPA: nat := 3

  // ---- The plan of a session -------------------------------------------------------------------

  function ValuesOf(plan: seq<Denom>): seq<Money> {
    seq(|plan|, i requires 0 <= i < |plan| => plan[i].value)
  }

  function Clamp(n: nat): Money {
    if n > MAX_UNITS then MAX_UNITS else n
  }

  /** The sum of values and withdrawal fees, clamped after every addition. */
  function ValueWithFee(plan: seq<Denom>): Money {
    if plan == [] then 0
    else
      var d := plan[|plan| - 1];
      Clamp(ValueWithFee(plan[..|plan| - 1]) + d.value + d.feeWithdraw)
  }

  function SessionInput(plan: seq<Denom>, meltFee: Money): Money {
    Plus(ValueWithFee(plan), meltFee)
  }

  method CreateRefreshSession(id: nat, meltCoinPub: CoinPub, plan: seq<Denom>, meltFee: Money) returns (s: Session)
    ensures s == Session(id, meltCoinPub, SessionInput(plan, meltFee), ValuesOf(plan), None, false)
  {
    var valueWithFee: Money := 0;
    for i := 0 to |plan|
      invariant valueWithFee == ValueWithFee(plan[..i])
    {
      assert plan[..i + 1][..i] == plan[..i];
      valueWithFee := Clamp(valueWithFee + plan[i].value + plan[i].feeWithdraw);
    }
    assert plan[..|plan|] == plan;
    valueWithFee := Plus(valueWithFee, meltFee);
    s := Session(id, meltCoinPub, valueWithFee, ValuesOf(plan), None, false);
  }

  function Total(amounts: seq<Money>): nat {
    if amounts == [] then 0 else Total(amounts[..|amounts| - 1]) + amounts[|amounts| - 1]
  }

  lemma {:induction false} CostFromTheEnd(plan: seq<Denom>)
    requires plan != []
    ensures TotalCost(plan) == TotalCost(plan[..|plan| - 1]) + Cost(plan[|plan| - 1])
  {
    if |plan| > 1 {
      CostFromTheEnd(plan[1..]);
      assert plan[1..][..|plan| - 2] == plan[..|plan| - 1][1..];
    }
  }

  lemma {:induction false} InputFromCosts(plan: seq<Denom>)
    ensures TotalCost(plan) <= MAX_UNITS ==> ValueWithFee(plan) >= TotalCost(plan) >= Total(ValuesOf(plan))
    ensures TotalCost(plan) < MAX_UNITS ==> ValueWithFee(plan) == TotalCost(plan)
  {
    if plan != [] {
      var t := plan[..|plan| - 1];
      CostFromTheEnd(plan);
      InputFromCosts(t);
      assert ValuesOf(plan)[..|plan| - 1] == ValuesOf(t);
    }
  }

  lemma {:induction false} ValuesAndFeesFromTheEnd(plan: seq<Denom>)
    requires plan != []
    ensures TotalValue(plan) == TotalValue(plan[..|plan| - 1]) + plan[|plan| - 1].value
    ensures TotalFees(plan) == TotalFees(plan[..|plan| - 1]) + plan[|plan| - 1].feeWithdraw
  {
    if |plan| > 1 {
      ValuesAndFeesFromTheEnd(plan[1..]);
      assert plan[1..][..|plan| - 2] == plan[..|plan| - 1][1..];
    }
  }

  lemma {:induction false} ValueWithFeeIs(plan: seq<Denom>)
    ensures ValueWithFee(plan) == Clamp(TotalValue(plan) + TotalFees(plan))
    ensures Total(ValuesOf(plan)) == TotalValue(plan)
  {
    if plan != [] {
      ValuesAndFeesFromTheEnd(plan);
      ValueWithFeeIs(plan[..|plan| - 1]);
      assert ValuesOf(plan)[..|plan| - 1] == ValuesOf(plan[..|plan| - 1]);
    }
  }

  /** A session takes in the values of its new coins, their withdrawal fees and the melt fee, at most the
      largest amount; its outputs are the values. */
  lemma SessionTakesValuesAndFees(plan: seq<Denom>, meltFee: Money)
    ensures var sum := TotalValue(plan) + TotalFees(plan) + meltFee;
            SessionInput(plan, meltFee) == if sum <= MAX_UNITS then sum else MAX_UNITS
    ensures Total(ValuesOf(plan)) == TotalValue(plan)
  {
    ValueWithFeeIs(plan);
  }

  /** A session planned for a coin that held amount takes in at least the value of its new coins,
      and not more than the coin held if that covers the melt fee. */
  lemma PlanIsCovered(denoms: seq<Denom>, oldDenom: Denom, amount: Money)
    ensures var plan := RefreshList(denoms, oldDenom, amount);
            && Total(ValuesOf(plan)) <= SessionInput(plan, oldDenom.feeRefresh)
            && (amount >= oldDenom.feeRefresh ==> SessionInput(plan, oldDenom.feeRefresh) <= amount)
  {
    var plan := RefreshList(denoms, oldDenom, amount);
    LeftoverIsBelowEveryCost(SortDenoms(WithdrawableDenoms(denoms)), Minus(amount, oldDenom.feeRefresh), MAX_COINS);
    InputFromCosts(plan);
  }

  // ---- Steps -----------------------------------------------------------------------------------

  datatype Step =
    | CreateGroup(gid: string, pubs: seq<CoinPub>)
    | CreateSession(gid: string, i: nat, seen: Money, oldDenom: Denom, denoms: seq<Denom>)
    | Melt(gid: string, i: nat, index: nat)
    | Reveal(gid: string, i: nat, usable: seq<bool>)
    | Debit(pub: CoinPub, amount: Money)

  predicate Shaped(g: Group) {
    |g.sessions| == |g.oldCoinPubs| && |g.finishedPerCoin| == |g.oldCoinPubs|
  }

  function AllTrue(flags: seq<bool>): bool {
    forall f :: 0 <= f < |flags| ==> flags[f]
  }

  /** Setting one flag; when all are set the whole group is marked finished. */
  function MarkDone(g: Group, i: nat): Group
    requires i < |g.finishedPerCoin|
  {
    var flags := g.finishedPerCoin[i := true];
    g.(finishedPerCoin := flags, timestampFinished := g.timestampFinished || AllTrue(flags))
  }

  predicate HasSlot(db: Db, gid: string, i: nat) {
    gid in db.groups && Shaped(db.groups[gid]) && i < |db.groups[gid].oldCoinPubs|
  }

  function SlotSession(db: Db, gid: string, i: nat): Option<Session> {
    if HasSlot(db, gid, i) then db.groups[gid].sessions[i] else None
  }

  function Unwarranted(db: Db, gid: string, i: nat): Db {
    if !HasSlot(db, gid, i) then db
    else db.(groups := db.groups[gid := MarkDone(db.groups[gid], i)])
  }

  /** The coin is debited and the session recorded together, or neither. */
  function SessionStored(db: Db, gid: string, i: nat, s: Session): Db {
    if s.meltCoinPub !in db.coins || db.coins[s.meltCoinPub].amount < s.amountRefreshInput then db
    else if !HasSlot(db, gid, i) || db.groups[gid].sessions[i].Some? then db
    else
      var g := db.groups[gid];
      var c := db.coins[s.meltCoinPub];
      db.(coins := db.coins[s.meltCoinPub := Coin(Minus(c.amount, s.amountRefreshInput), false)],
          groups := db.groups[gid := g.(sessions := g.sessions[i := Some(s)])])
  }

  function Melted(db: Db, gid: string, i: nat, index: nat): Db {
    var o := SlotSession(db, gid, i);
    if o.None? || o.value.norevealIndex.Some? || o.value.finished then db
    else
      var g := db.groups[gid];
      db.(groups := db.groups[gid := g.(sessions := g.sessions[i := Some(o.value.(norevealIndex := Some(index)))])])
  }

  /** The coins of the first n denominations whose blind signature was usable. */
  function PutCoins(coins: map<CoinPub, Coin>, s: Session, gamma: nat, usable: seq<bool>, n: nat): map<CoinPub, Coin>
    requires n <= |s.values|
  {
    if n == 0 then coins
    else
      var before := PutCoins(coins, s, gamma, usable, n - 1);
      if n - 1 < |usable| && usable[n - 1] then before[Derived(s.id, gamma, n - 1) := Coin(s.values[n - 1], true)]
          else before
  }

  function Revealed(db: Db, gid: string, i: nat, usable: seq<bool>): Db {
    var o := SlotSession(db, gid, i);
    if o.None? || o.value.norevealIndex.None? || o.value.norevealIndex.value >= KAPPA || o.value.finished then db
    else
      var g := db.groups[gid];
      var s := o.value;
      db.(coins := PutCoins(db.coins, s, s.norevealIndex.value, usable, |s.values|),
          groups := db.groups[gid := MarkDone(g.(sessions := g.sessions[i := Some(s.(finished := true))]), i)])
  }

  function NewGroup(pubs: seq<CoinPub>): Group {
    Group(pubs, seq(|pubs|, _ => None), seq(|pubs|, _ => false), false)
  }

  function Next(db: Db, step: Step): Db {
    match step
    case CreateGroup(gid, pubs) => db.(groups := db.groups[gid := NewGroup(pubs)])
    case CreateSession(gid, i, seen, oldDenom, denoms) =>
      if !HasSlot(db, gid, i) then db
      else
        var plan := RefreshList(denoms, oldDenom, seen);
        if plan == [] then Unwarranted(db, gid, i)
        else
          var s := Session(db.nextSession, db.groups[gid].oldCoinPubs[i], SessionInput(plan, oldDenom.feeRefresh),
              ValuesOf(plan), None, false);
          SessionStored(db, gid, i, s).(nextSession := db.nextSession + 1)
    case Melt(gid, i, index) => Melted(db, gid, i, index)
    case Reveal(gid, i, usable) => Revealed(db, gid, i, usable)
    case Debit(pub, amount) =>
      if pub !in db.coins then db
      else db.(coins := db.coins[pub := db.coins[pub].(amount := Minus(db.coins[pub].amount, amount))])
  }

  /** Group identifiers are random: a new group never replaces another one. */
  ghost predicate Enabled(db: Db, step: Step) {
    step.CreateGroup? ==> step.gid !in db.groups
  }

  /** A session is stored exactly if its coin holds enough and its slot is free. The coin has then paid the
      input and is dormant; everything else stays. */
  lemma StoredSessionDebitsCoin(db: Db, gid: string, i: nat, s: Session)
    ensures var d := SessionStored(db, gid, i, s);
            if s.meltCoinPub in db.coins && db.coins[s.meltCoinPub].amount >= s.amountRefreshInput
                && HasSlot(db, gid, i) && SlotSession(db, gid, i).None?
            then
              && SlotSession(d, gid, i) == Some(s)
              && s.meltCoinPub in d.coins && !d.coins[s.meltCoinPub].isFresh
              && d.coins[s.meltCoinPub].amount + s.amountRefreshInput == db.coins[s.meltCoinPub].amount
              && (forall k :: k in db.coins && k != s.meltCoinPub ==> k in d.coins && d.coins[k] == db.coins[k])
              && d.coins.Keys == db.coins.Keys && d.nextSession == db.nextSession
            else d == db
  {
  }

  /** A session is made for the coin of its slot, with the denominations chosen for the amount seen on the
      coin less the melt fee. */
  lemma NewSessionFollowsPlan(db: Db, gid: string, i: nat, seen: Money, oldDenom: Denom, denoms: seq<Denom>)
    requires HasSlot(db, gid, i) && SlotSession(db, gid, i).None?
    ensures var d := Next(db, CreateSession(gid, i, seen, oldDenom, denoms));
            var plan := WithdrawList(if seen >= oldDenom.feeRefresh then seen - oldDenom.feeRefresh else 0, denoms);
            SlotSession(d, gid, i).Some? ==>
              && plan != []
              && var s := SlotSession(d, gid, i).value;
              && s.id == db.nextSession < d.nextSession
              && s.meltCoinPub == db.groups[gid].oldCoinPubs[i]
              && s.amountRefreshInput == Clamp(TotalValue(plan) + TotalFees(plan) + oldDenom.feeRefresh)
              && |s.values| == |plan| && (forall k :: 0 <= k < |plan| ==> s.values[k] == plan[k].value)
              && s.norevealIndex.None? && !s.finished
  {
    var plan := RefreshList(denoms, oldDenom, seen);
    hide WithdrawList, SessionInput;
    SessionTakesValuesAndFees(plan, oldDenom.feeRefresh);
  }

  /** The first reply to a melt sets the no-reveal index of its session; later ones, and those for
      finished sessions, change nothing. */
  lemma FirstMeltSetsIndex(db: Db, gid: string, i: nat, index: nat)
    ensures var o, d := SlotSession(db, gid, i), Melted(db, gid, i, index);
            if o.Some? && o.value.norevealIndex.None? && !o.value.finished
            then d.coins == db.coins && SlotSession(d, gid, i) == Some(o.value.(norevealIndex := Some(index)))
            else d == db
  {
  }

  class RefreshDb {
    var coins: map<CoinPub, Coin>
    var groups: map<string, Group>
    var nextSession: nat

    ghost function St(): Db
      reads this
    {
      Db(coins, groups, nextSession)
    }

    method FinishOne(g: Group, i: nat) returns (r: Group)
      requires i < |g.finishedPerCoin|
      ensures r == MarkDone(g, i)
    {
      r := g.(finishedPerCoin := g.finishedPerCoin[i := true]);
      var allDone := true;
      var k := 0;
      while k < |r.finishedPerCoin| && allDone
        invariant 0 <= k <= |r.finishedPerCoin|
        invariant allDone ==> forall f :: 0 <= f < k ==> r.finishedPerCoin[f]
        invariant !allDone ==> !AllTrue(r.finishedPerCoin)
      {
        if !r.finishedPerCoin[k] {
          allDone := false;
        }
        k := k + 1;
      }
      if allDone {
        r := r.(timestampFinished := true);
      }
    }

    method CreateRefreshGroup(gid: string, pubs: seq<CoinPub>)
      modifies this
      ensures St() == Next(old(St()), CreateGroup(gid, pubs))
    {
      groups := groups[gid := Group(pubs, seq(|pubs|, _ => None), seq(|pubs|, _ => false), false)];
    }

    /** The amount seen on the coin may be out of date when the session is stored. */
    method RefreshCreateSession(gid: string, i: nat, seen: Money, oldDenom: Denom, denoms: seq<Denom>)
      modifies this
      ensures St() == Next(old(St()), CreateSession(gid, i, seen, oldDenom, denoms))
    {
      hide WithdrawList, SessionInput;
      if gid !in groups || !Shaped(groups[gid]) || i >= |groups[gid].oldCoinPubs| {
        return;
      }
      var newCoinDenoms := GetWithdrawDenomList(Minus(seen, oldDenom.feeRefresh), denoms);
      var rg := groups[gid];
      if newCoinDenoms == [] {
        rg := FinishOne(rg, i);
        groups := groups[gid := rg];
        return;
      }
      var session := CreateRefreshSession(nextSession, rg.oldCoinPubs[i], newCoinDenoms, oldDenom.feeRefresh);
      nextSession := nextSession + 1;
      if session.meltCoinPub !in coins {
        return;
      }
      var c := coins[session.meltCoinPub];
      if MinusSaturates(c.amount, session.amountRefreshInput) || rg.sessions[i].Some? {
        return;
      }
      groups := groups[gid := rg.(sessions := rg.sessions[i := Some(session)])];
      coins := coins[session.meltCoinPub := Coin(Minus(c.amount, session.amountRefreshInput), false)];
    }

    method RefreshMelt(gid: string, i: nat, norevealIndex: nat)
      modifies this
      ensures St() == Next(old(St()), Melt(gid, i, norevealIndex))
    {
      if gid !in groups || !Shaped(groups[gid]) || i >= |groups[gid].oldCoinPubs| || groups[gid].sessions[i].None? {
        return;
      }
      var rg := groups[gid];
      var rs := rg.sessions[i].value;
      if rs.norevealIndex.Some? || rs.finished {
        return;
      }
      groups := groups[gid := rg.(sessions := rg.sessions[i := Some(rs.(norevealIndex := Some(norevealIndex)))])];
    }

    method RefreshReveal(gid: string, i: nat, usable: seq<bool>)
      modifies this
      ensures St() == Next(old(St()), Reveal(gid, i, usable))
    {
      if gid !in groups || !Shaped(groups[gid]) || i >= |groups[gid].oldCoinPubs| || groups[gid].sessions[i].None? {
        return;
      }
      var rg := groups[gid];
      var rs := rg.sessions[i].value;
      if rs.norevealIndex.None? || rs.norevealIndex.value >= KAPPA || rs.finished {
        return;
      }
      var done := FinishOne(rg.(sessions := rg.sessions[i := Some(rs.(finished := true))]), i);
      var stored := coins;
      for k := 0 to |rs.values|
        invariant stored == PutCoins(coins, rs, rs.norevealIndex.value, usable, k)
        invariant St() == old(St())
      {
        if k < |usable| && usable[k] {
          stored := stored[Derived(rs.id, rs.norevealIndex.value, k) := Coin(rs.values[k], true)];
        }
      }
      coins := stored;
      groups := groups[gid := done];
    }
  }
}

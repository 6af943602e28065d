// What every interleaving of refresh steps keeps: no value is created, the coins of a session are
// inserted exactly once, and a group is finished exactly when all its coins are.
module RefreshRuns {
  import opened Wrappers
  import opened Amounts
  import opened MoneyMaps
  import opened WithdrawDenoms
  import opened Refresh

  // ---- Value -----------------------------------------------------------------------------------

  /** What a session that is not finished has melted. */
  function OpenInput(o: Option<Session>): nat {
    if o.Some? && !o.value.finished then o.value.amountRefreshInput else 0
  }

  function OpenInputs(sessions: seq<Option<Session>>): nat {
    if sessions == [] then 0 else OpenInputs(sessions[..|sessions| - 1]) + OpenInput(sessions[|sessions| - 1])
  }

  ghost function AmountsOf(coins: map<CoinPub, Coin>): map<CoinPub, nat> {
    map k | k in coins :: coins[k].amount
  }

  ghost function InputsOf(groups: map<string, Group>): map<string, nat> {
    map g | g in groups :: OpenInputs(groups[g].sessions)
  }

  /** The amounts on all coins and the melted inputs of the sessions that are not finished. */
  ghost function Wealth(db: Db): nat {
    SumMap(AmountsOf(db.coins)) + SumMap(InputsOf(db.groups))
  }

  lemma CoinPut(coins: map<CoinPub, Coin>, pub: CoinPub, c: Coin)
    ensures SumMap(AmountsOf(coins[pub := c])) + (if pub in coins then coins[pub].amount else 0)
              == SumMap(AmountsOf(coins)) + c.amount
  {
    assert AmountsOf(coins[pub := c]) == AmountsOf(coins)[pub := c.amount];
    SumPut(AmountsOf(coins), pub, c.amount);
  }

  lemma GroupPut(groups: map<string, Group>, gid: string, g: Group)
    ensures SumMap(InputsOf(groups[gid := g])) + (if gid in groups then OpenInputs(groups[gid].sessions) else 0)
         == SumMap(InputsOf(groups)) + OpenInputs(g.sessions)
  {
    assert InputsOf(groups[gid := g]) == InputsOf(groups)[gid := OpenInputs(g.sessions)];
    SumPut(InputsOf(groups), gid, OpenInputs(g.sessions));
  }

  lemma {:induction false} SlotPut(sessions: seq<Option<Session>>, i: nat, o: Option<Session>)
    requires i < |sessions|
    ensures OpenInputs(sessions[i := o]) + OpenInput(sessions[i]) == OpenInputs(sessions) + OpenInput(o)
  {
    var n := |sessions| - 1;
    if i < n {
      SlotPut(sessions[..n], i, o);
      assert sessions[i := o][..n] == sessions[..n][i := o];
    } else {
      assert sessions[i := o][..n] == sessions[..n];
    }
  }

  lemma {:induction false} NoSessionsNoInput(n: nat)
    ensures OpenInputs(seq(n, _ => None)) == 0
  {
    if n > 0 {
      NoSessionsNoInput(n - 1);
      var e: Option<Session> := None;
      assert seq(n, _ => e)[..n - 1] == seq(n - 1, _ => e);
    }
  }

  /** The coins inserted are worth at most the session's outputs, even if one replaced another coin. */
  lemma {:induction false} PutCoinsTotal(coins: map<CoinPub, Coin>, s: Session, gamma: nat, usable: seq<bool>, n: nat)
    requires n <= |s.values|
    ensures SumMap(AmountsOf(PutCoins(coins, s, gamma, usable, n))) <= SumMap(AmountsOf(coins)) + Total(s.values[..n])
  {
    hide SumMap, AmountsOf;
    if n > 0 {
      PutCoinsTotal(coins, s, gamma, usable, n - 1);
      assert s.values[..n][..n - 1] == s.values[..n - 1];
      CoinPut(PutCoins(coins, s, gamma, usable, n - 1), Derived(s.id, gamma, n - 1), Coin(s.values[n - 1], true));
    }
  }

  // ---- Invariants ------------------------------------------------------------------------------

  ghost predicate Covered(s: Session) {
    Total(s.values) <= s.amountRefreshInput
  }

  ghost predicate FinishedIffAll(g: Group) {
    |g.oldCoinPubs| > 0 ==> (g.timestampFinished <==> AllTrue(g.finishedPerCoin))
  }

  ghost predicate GroupsGood(groups: map<string, Group>) {
    forall g :: g in groups ==> Shaped(groups[g]) && FinishedIffAll(groups[g])
  }

  ghost predicate SessionsCovered(db: Db) {
    forall g, i: nat :: SlotSession(db, g, i).Some? ==>
        Covered(SlotSession(db, g, i).value) && SlotSession(db, g, i).value.id < db.nextSession
  }

  ghost predicate IdsDiffer(db: Db) {
    forall g, i: nat, h, j: nat ::
      SlotSession(db, g, i).Some? && SlotSession(db, h, j).Some?
          && SlotSession(db, g, i).value.id == SlotSession(db, h, j).value.id
      ==> g == h && i == j
  }

  /** A coin of a session exists only once the session is finished. */
  ghost predicate CoinsAfterSessions(db: Db) {
    && (forall k :: k in db.coins && k.Derived? ==> k.session < db.nextSession)
    && forall g, i: nat, k :: SlotSession(db, g, i).Some? && k in db.coins && k.Derived?
          && k.session == SlotSession(db, g, i).value.id
         ==> SlotSession(db, g, i).value.finished
  }

  ghost predicate Inv(db: Db) {
    GroupsGood(db.groups) && SessionsCovered(db) && IdsDiffer(db) && CoinsAfterSessions(db)
  }

  // ---- A group with one slot or flag changed ---------------------------------------------------

  lemma MarkDoneIsGood(g: Group, i: nat)
    requires Shaped(g) && FinishedIffAll(g) && i < |g.oldCoinPubs|
    ensures Shaped(MarkDone(g, i)) && FinishedIffAll(MarkDone(g, i))
  {
    if g.timestampFinished {
      assert AllTrue(g.finishedPerCoin[i := true]);
    }
  }

  /** The sessions of all slots but one are untouched. */
  ghost predicate OnlySlot(db: Db, d: Db, gid: string, i: nat) {
    forall h, j: nat :: h != gid || j != i ==> SlotSession(d, h, j) == SlotSession(db, h, j)
  }

  lemma SlotWritten(db: Db, d: Db, gid: string, i: nat, o: Option<Session>)
    requires HasSlot(db, gid, i) && gid in d.groups && d.groups == db.groups[gid := d.groups[gid]]
    requires Shaped(d.groups[gid]) && |d.groups[gid].oldCoinPubs| == |db.groups[gid].oldCoinPubs|
    requires d.groups[gid].sessions == db.groups[gid].sessions[i := o]
    ensures OnlySlot(db, d, gid, i) && SlotSession(d, gid, i) == o
  {
  }

  lemma SlotChangeKeepsInv(db: Db, d: Db, gid: string, i: nat)
    requires SessionsCovered(db) && IdsDiffer(db) && OnlySlot(db, d, gid, i) && d.nextSession >= db.nextSession
    requires var o, n := SlotSession(db, gid, i), SlotSession(d, gid, i);
             n.Some? ==> Covered(n.value) && n.value.id < d.nextSession &&
                         if o.Some? then n.value.id == o.value.id else n.value.id >= db.nextSession
    ensures SessionsCovered(d) && IdsDiffer(d)
  {
    hide Covered, SlotSession;
  }

  // ---- Each step -------------------------------------------------------------------------------

  lemma UnwarrantedKeeps(db: Db, gid: string, i: nat)
    requires Inv(db)
    ensures Inv(Unwarranted(db, gid, i)) && Wealth(Unwarranted(db, gid, i)) == Wealth(db)
    ensures forall h, j: nat :: SlotSession(Unwarranted(db, gid, i), h, j) == SlotSession(db, h, j)
  {
    hide SumMap, Covered, FinishedIffAll;
    var d := Unwarranted(db, gid, i);
    if HasSlot(db, gid, i) {
      var g := db.groups[gid];
      MarkDoneIsGood(g, i);
      assert g.sessions[i := g.sessions[i]] == g.sessions;
      SlotWritten(db, d, gid, i, g.sessions[i]);
      GroupPut(db.groups, gid, d.groups[gid]);
      SlotChangeKeepsInv(db, d, gid, i);
      assert forall h, j: nat :: SlotSession(d, h, j) == SlotSession(db, h, j);
    }
  }

  lemma SessionStoredKeeps(db: Db, gid: string, i: nat, s: Session)
    requires Inv(db) && Covered(s) && s.id == db.nextSession && !s.finished
    ensures var d := SessionStored(db, gid, i, s).(nextSession := db.nextSession + 1);
            Inv(d) && Wealth(d) == Wealth(db) && OnlySlot(db, d, gid, i)
    ensures var d := SessionStored(db, gid, i, s).(nextSession := db.nextSession + 1);
            SlotSession(d, gid, i) == SlotSession(db, gid, i)
                || (SlotSession(db, gid, i).None? && SlotSession(d, gid, i) == Some(s))
  {
    hide SumMap, Covered, FinishedIffAll, AmountsOf, InputsOf;
    var e := SessionStored(db, gid, i, s);
    var d := e.(nextSession := db.nextSession + 1);
    if e == db {
      SameSlots(db, d);
    } else {
      var g := db.groups[gid];
      SlotWritten(db, d, gid, i, Some(s));
      GroupPut(db.groups, gid, d.groups[gid]);
      SlotPut(g.sessions, i, Some(s));
      CoinPut(db.coins, s.meltCoinPub, d.coins[s.meltCoinPub]);
      SlotChangeKeepsInv(db, d, gid, i);
      NoCoinYet(db, d, gid, i);
      FinishedAnyway(g, d.groups[gid]);
    }
  }

  lemma SameSlots(db: Db, d: Db)
    requires Inv(db) && d == db.(nextSession := db.nextSession + 1)
    ensures Inv(d) && Wealth(d) == Wealth(db)
    ensures forall h, j: nat :: SlotSession(d, h, j) == SlotSession(db, h, j)
  {
    hide Covered, FinishedIffAll;
    assert forall h, j: nat :: SlotSession(d, h, j) == SlotSession(db, h, j);
  }

  /** The new session is so new that none of its coins exists. */
  lemma NoCoinYet(db: Db, d: Db, gid: string, i: nat)
    requires CoinsAfterSessions(db) && OnlySlot(db, d, gid, i)
    requires d.coins.Keys == db.coins.Keys && d.nextSession >= db.nextSession
    requires SlotSession(d, gid, i).Some? ==>
               SlotSession(d, gid, i).value.id >= db.nextSession ||
               (SlotSession(db, gid, i).Some? && SlotSession(d, gid, i).value.id == SlotSession(db, gid, i).value.id
                && (SlotSession(db, gid, i).value.finished ==> SlotSession(d, gid, i).value.finished))
    ensures CoinsAfterSessions(d)
  {
    hide SlotSession;
  }

  lemma MeltedKeeps(db: Db, gid: string, i: nat, index: nat)
    requires Inv(db)
    ensures Inv(Melted(db, gid, i, index)) && Wealth(Melted(db, gid, i, index)) == Wealth(db)
    ensures OnlySlot(db, Melted(db, gid, i, index), gid, i)
  {
    hide SumMap, Covered, FinishedIffAll, AmountsOf, InputsOf;
    var d := Melted(db, gid, i, index);
    if d != db {
      var o := d.groups[gid].sessions[i];
      SlotWritten(db, d, gid, i, o);
      SlotPut(db.groups[gid].sessions, i, o);
      GroupPut(db.groups, gid, d.groups[gid]);
      CoveredAnyway(SlotSession(db, gid, i).value, o.value);
      SlotChangeKeepsInv(db, d, gid, i);
      NoCoinYet(db, d, gid, i);
      FinishedAnyway(db.groups[gid], d.groups[gid]);
    }
  }

  lemma CoveredAnyway(s: Session, t: Session)
    requires s.values == t.values && s.amountRefreshInput == t.amountRefreshInput
    ensures Covered(s) <==> Covered(t)
  {
  }

  lemma FinishedAnyway(g: Group, h: Group)
    requires g.oldCoinPubs == h.oldCoinPubs && g.finishedPerCoin == h.finishedPerCoin
               && g.timestampFinished == h.timestampFinished
    ensures FinishedIffAll(g) <==> FinishedIffAll(h)
  {
  }

  /** Which coins a reveal writes. */
  lemma {:induction false} PutCoinsKeys(coins: map<CoinPub, Coin>, s: Session, gamma: nat, usable: seq<bool>, n: nat,
      k: CoinPub)
    requires n <= |s.values|
    ensures var after := PutCoins(coins, s, gamma, usable, n);
            var written := k.Derived? && k.session == s.id && k.gamma == gamma && k.index < n && k.index < |usable|
                && usable[k.index];
            && (k in after <==> k in coins || written)
            && (k in after ==> after[k] == if written then Coin(s.values[k.index], true) else coins[k])
  {
    if n > 0 {
      PutCoinsKeys(coins, s, gamma, usable, n - 1, k);
    }
  }

  lemma CoinsOfFinished(db: Db, d: Db, gid: string, i: nat, usable: seq<bool>)
    requires CoinsAfterSessions(db) && SessionsCovered(db) && IdsDiffer(db) && OnlySlot(db, d, gid, i)
    requires SlotSession(db, gid, i).Some? && SlotSession(d, gid, i)
               == Some(SlotSession(db, gid, i).value.(finished := true))
    requires d.nextSession == db.nextSession
    requires forall k :: k in d.coins ==> k in db.coins || (k.Derived? && k.session == SlotSession(db, gid, i).value.id)
    ensures CoinsAfterSessions(d)
  {
    hide SlotSession, Covered;
    var s := SlotSession(db, gid, i).value;
    assert s.id < db.nextSession;
    forall h, j: nat, k | SlotSession(d, h, j).Some? && k in d.coins && k.Derived?
        && k.session == SlotSession(d, h, j).value.id
      ensures SlotSession(d, h, j).value.finished
    {
      if h != gid || j != i {
        assert SlotSession(d, h, j) == SlotSession(db, h, j);
      }
    }
  }

  predicate CanReveal(db: Db, gid: string, i: nat) {
    var o := SlotSession(db, gid, i);
    o.Some? && o.value.norevealIndex.Some? && o.value.norevealIndex.value < KAPPA && !o.value.finished
  }

  /** Revealing finishes the session and inserts coins none of which existed before. */
  lemma RevealedKeeps(db: Db, gid: string, i: nat, usable: seq<bool>)
    requires Inv(db)
    ensures var d := Revealed(db, gid, i, usable);
            && Inv(d) && Wealth(d) <= Wealth(db) && OnlySlot(db, d, gid, i)
            && SlotSession(d, gid, i) == (if CanReveal(db, gid, i)
                  then Some(SlotSession(db, gid, i).value.(finished := true)) else SlotSession(db, gid, i))
            && forall k :: k in db.coins ==> k in d.coins && d.coins[k] == db.coins[k]
  {
    hide SumMap, Covered, FinishedIffAll, AmountsOf, InputsOf, CoinsAfterSessions;
    var d := Revealed(db, gid, i, usable);
    if CanReveal(db, gid, i) {
      RevealWrites(db, gid, i, usable);
      var g, s := db.groups[gid], SlotSession(db, gid, i).value;
      var o := Some(s.(finished := true));
      FinishedAnyway(g, g.(sessions := g.sessions[i := o]));
      MarkDoneIsGood(g.(sessions := g.sessions[i := o]), i);
      SlotWritten(db, d, gid, i, o);
      SlotPut(g.sessions, i, o);
      GroupPut(db.groups, gid, d.groups[gid]);
      PutCoinsTotal(db.coins, s, s.norevealIndex.value, usable, |s.values|);
      assert s.values[..|s.values|] == s.values;
      CoveredTotal(s);
      CoveredAnyway(s, o.value);
      SlotChangeKeepsInv(db, d, gid, i);
      CoinsOfFinished(db, d, gid, i, usable);
    }
  }

  lemma CoveredTotal(s: Session)
    requires Covered(s)
    ensures Total(s.values) <= s.amountRefreshInput
  {
  }

  /** The coin of a session that was not revealed, for an output whose blind signature is usable. */
  predicate Signed(s: Session, usable: seq<bool>, k: CoinPub) {
    && k.Derived? && k.session == s.id && s.norevealIndex == Some(k.gamma)
    && k.index < |s.values| && k.index < |usable| && usable[k.index]
  }

  /** Revealing inserts just these coins, each new, fresh and with the value planned for it. */
  lemma RevealWrites(db: Db, gid: string, i: nat, usable: seq<bool>)
    requires Inv(db) && CanReveal(db, gid, i)
    ensures var d, s := Revealed(db, gid, i, usable), SlotSession(db, gid, i).value;
            && d.coins == PutCoins(db.coins, s, s.norevealIndex.value, usable, |s.values|)
            && (forall k :: k in d.coins <==> k in db.coins || Signed(s, usable, k))
            && (forall k :: k in db.coins ==> !Signed(s, usable, k) && d.coins[k] == db.coins[k])
            && (forall k :: Signed(s, usable, k) ==> d.coins[k] == Coin(s.values[k.index], true))
  {
    hide Covered, FinishedIffAll, PutCoins;
    var d, s := Revealed(db, gid, i, usable), SlotSession(db, gid, i).value;
    forall k
      ensures k in d.coins <==> k in db.coins || Signed(s, usable, k)
      ensures k in db.coins ==> !Signed(s, usable, k) && d.coins[k] == db.coins[k]
      ensures Signed(s, usable, k) ==> d.coins[k] == Coin(s.values[k.index], true)
    {
      PutCoinsKeys(db.coins, s, s.norevealIndex.value, usable, |s.values|, k);
    }
  }

  lemma NewGroupKeeps(db: Db, gid: string, pubs: seq<CoinPub>)
    requires Inv(db) && gid !in db.groups
    ensures var d := Next(db, CreateGroup(gid, pubs));
            Inv(d) && Wealth(d) == Wealth(db) && forall h, j: nat :: SlotSession(d, h, j) == SlotSession(db, h, j)
  {
    hide SumMap, Covered, AmountsOf, InputsOf;
    var d := Next(db, CreateGroup(gid, pubs));
    NoSessionsNoInput(|pubs|);
    GroupPut(db.groups, gid, NewGroup(pubs));
    assert |pubs| > 0 ==> !NewGroup(pubs).finishedPerCoin[0];
    assert forall h, j: nat :: SlotSession(d, h, j) == SlotSession(db, h, j);
    SameSessions(db, d);
  }

  lemma SameSessions(db: Db, d: Db)
    requires SessionsCovered(db) && IdsDiffer(db) && CoinsAfterSessions(db)
    requires forall h, j: nat :: SlotSession(d, h, j) == SlotSession(db, h, j)
    requires d.coins.Keys == db.coins.Keys && d.nextSession == db.nextSession
    ensures SessionsCovered(d) && IdsDiffer(d) && CoinsAfterSessions(d)
  {
    hide SlotSession, Covered;
  }

  lemma DebitKeeps(db: Db, pub: CoinPub, amount: Money)
    requires Inv(db)
    ensures var d := Next(db, Debit(pub, amount));
            Inv(d) && Wealth(d) <= Wealth(db) && forall h, j: nat :: SlotSession(d, h, j) == SlotSession(db, h, j)
  {
    hide SumMap, Covered, AmountsOf, InputsOf, FinishedIffAll;
    var d := Next(db, Debit(pub, amount));
    if pub in db.coins {
      CoinPut(db.coins, pub, d.coins[pub]);
      assert forall h, j: nat :: SlotSession(d, h, j) == SlotSession(db, h, j);
      SameSessions(db, d);
    }
  }

  // ---- All steps -------------------------------------------------------------------------------

  /** What may become of the session in a slot: it is created once, and from then on only its
      no-reveal index and its finishing may be set, each once. */
  ghost predicate Evolves(o: Option<Session>, n: Option<Session>) {
    o.Some? ==>
      && n.Some?
      && n.value.(norevealIndex := o.value.norevealIndex, finished := o.value.finished) == o.value
      && (o.value.norevealIndex.Some? ==> n.value.norevealIndex == o.value.norevealIndex)
      && (o.value.finished ==> n.value.finished)
  }

  function Finished(db: Db, gid: string, i: nat): nat {
    if SlotSession(db, gid, i).Some? && SlotSession(db, gid, i).value.finished then 1 else 0
  }

  /** Whether the step inserts the coins of the session in the slot. */
  function Inserts(db: Db, step: Step, gid: string, i: nat): nat {
    if step.Reveal? && step.gid == gid && step.i == i && CanReveal(db, gid, i) then 1 else 0
  }

  lemma StepKeeps(db: Db, step: Step, gid: string, i: nat)
    requires Inv(db) && Enabled(db, step)
    ensures Inv(Next(db, step)) && Wealth(Next(db, step)) <= Wealth(db)
    ensures Evolves(SlotSession(db, gid, i), SlotSession(Next(db, step), gid, i))
    ensures Finished(Next(db, step), gid, i) == Finished(db, gid, i) + Inserts(db, step, gid, i)
  {
    hide Inv, Wealth, SlotSession, Unwarranted, SessionStored, Melted, Revealed;
    match step {
      case CreateGroup(g, pubs) => NewGroupKeeps(db, g, pubs);
      case CreateSession(g, j, seen, oldDenom, denoms) => CreateSessionKeeps(db, g, j, seen, oldDenom, denoms);
      case Melt(g, j, index) =>
        MeltedKeeps(db, g, j, index);
        MeltEvolves(db, g, j, index);
      case Reveal(g, j, usable) => RevealedKeeps(db, g, j, usable);
      case Debit(pub, amount) => DebitKeeps(db, pub, amount);
    }
  }

  lemma MeltEvolves(db: Db, gid: string, i: nat, index: nat)
    ensures Evolves(SlotSession(db, gid, i), SlotSession(Melted(db, gid, i, index), gid, i))
    ensures Finished(Melted(db, gid, i, index), gid, i) == Finished(db, gid, i)
  {
  }

  lemma CreateSessionKeeps(db: Db, gid: string, i: nat, seen: Money, oldDenom: Denom, denoms: seq<Denom>)
    requires Inv(db)
    ensures var d := Next(db, CreateSession(gid, i, seen, oldDenom, denoms));
            && Inv(d) && Wealth(d) == Wealth(db) && OnlySlot(db, d, gid, i)
            && (SlotSession(d, gid, i) == SlotSession(db, gid, i)
                || (SlotSession(db, gid, i).None? && SlotSession(d, gid, i).Some?
                    && !SlotSession(d, gid, i).value.finished))
  {
    hide Inv, Wealth, SlotSession, Unwarranted, SessionStored, RefreshList, SessionInput;
    if HasSlot(db, gid, i) {
      var plan := RefreshList(denoms, oldDenom, seen);
      if plan == [] {
        UnwarrantedKeeps(db, gid, i);
      } else {
        PlanIsCovered(denoms, oldDenom, seen);
        var s := Session(db.nextSession, db.groups[gid].oldCoinPubs[i], SessionInput(plan, oldDenom.feeRefresh),
            ValuesOf(plan), None, false);
        SessionStoredKeeps(db, gid, i, s);
      }
    }
  }

  // ---- Runs ------------------------------------------------------------------------------------

  function Run(db: Db, steps: seq<Step>): Db {
    if steps == [] then db else Next(Run(db, steps[..|steps| - 1]), steps[|steps| - 1])
  }

  ghost predicate CanRun(db: Db, steps: seq<Step>) {
    forall n :: 0 <= n < |steps| ==> Enabled(Run(db, steps[..n]), steps[n])
  }

  /** How often the run inserted the coins of the session in the slot. */
  function Insertions(db: Db, steps: seq<Step>, gid: string, i: nat): nat {
    if steps == [] then 0
    else
      Insertions(db, steps[..|steps| - 1], gid, i)
      + Inserts(Run(db, steps[..|steps| - 1]), steps[|steps| - 1], gid, i)
  }

  lemma EvolvesOn(a: Option<Session>, b: Option<Session>, c: Option<Session>)
    requires Evolves(a, b) && Evolves(b, c)
    ensures Evolves(a, c)
  {
  }

  /** Over every interleaving and retry, also with two groups that name the same coin: coin amounts
      plus open melt inputs never grow; the coins of a session are inserted exactly as often as the
      session went from open to finished, hence at most once; a session never changes once stored;
      and a non-empty group is marked finished exactly when all its flags are set. */
  lemma {:induction false} RunsCreateNoValue(db: Db, steps: seq<Step>, gid: string, i: nat)
    requires Inv(db) && CanRun(db, steps)
    ensures Inv(Run(db, steps)) && Wealth(Run(db, steps)) <= Wealth(db)
    ensures Finished(Run(db, steps), gid, i) == Finished(db, gid, i) + Insertions(db, steps, gid, i)
    ensures Insertions(db, steps, gid, i) <= 1
    ensures Evolves(SlotSession(db, gid, i), SlotSession(Run(db, steps), gid, i))
  {
    hide Inv, Wealth, Enabled, Next, SlotSession, Inserts, Finished;
    FinishedIsFlag(Run(db, steps), gid, i);
    if steps != [] {
      var t, s := steps[..|steps| - 1], steps[|steps| - 1];
      assert forall n :: 0 <= n < |t| ==> t[n] == steps[n] && t[..n] == steps[..n];
      RunsCreateNoValue(db, t, gid, i);
      StepKeeps(Run(db, t), s, gid, i);
      EvolvesOn(SlotSession(db, gid, i), SlotSession(Run(db, t), gid, i), SlotSession(Run(db, steps), gid, i));
    }
  }

  lemma FinishedIsFlag(db: Db, gid: string, i: nat)
    ensures Finished(db, gid, i) <= 1
  {
  }

  /** Before any refresh: no groups, and no coins of sessions. */
  ghost predicate Start(db: Db) {
    db.groups == map[] && forall k :: k in db.coins ==> k.Known?
  }

  // ---- Melted coins and flags over runs --------------------------------------------------------

  /** The session in a slot has melted the coin of that slot, which is not used for payments any more. */
  ghost predicate MeltsOwnCoin(db: Db, gid: string, i: nat) {
    SlotSession(db, gid, i).Some? ==>
      var pub := SlotSession(db, gid, i).value.meltCoinPub;
      pub == db.groups[gid].oldCoinPubs[i] && pub in db.coins && !db.coins[pub].isFresh
  }

  /** A dormant coin stays, and stays dormant; a group keeps the coins it is for. */
  ghost predicate StayDormant(db: Db, d: Db) {
    && (forall k :: k in db.coins && !db.coins[k].isFresh ==> k in d.coins && !d.coins[k].isFresh)
    && forall g :: g in db.groups ==> g in d.groups && d.groups[g].oldCoinPubs == db.groups[g].oldCoinPubs
  }

  lemma StepKeepsDormant(db: Db, step: Step)
    requires Inv(db) && Enabled(db, step)
    ensures StayDormant(db, Next(db, step))
  {
    hide Inv, SlotSession, PutCoins;
    match step {
      case Reveal(g, j, usable) => RevealedKeeps(db, g, j, usable);
      case _ =>
    }
  }

  lemma StepMeltsDormant(db: Db, step: Step, gid: string, i: nat)
    requires Inv(db) && Enabled(db, step)
    ensures SlotSession(db, gid, i).None? ==> MeltsOwnCoin(Next(db, step), gid, i)
  {
    hide Inv, RefreshList, SessionInput, PutCoins;
  }

  lemma StillMelted(db: Db, d: Db, gid: string, i: nat)
    requires MeltsOwnCoin(db, gid, i) && StayDormant(db, d) && SlotSession(db, gid, i).Some?
    requires Evolves(SlotSession(db, gid, i), SlotSession(d, gid, i))
    ensures MeltsOwnCoin(d, gid, i)
  {
  }

  /** Over every run: a session melts the coin of its own slot, and that coin is dormant from then on. */
  lemma {:induction false} MeltedCoinsStayDormant(db: Db, steps: seq<Step>, gid: string, i: nat)
    requires Start(db) && CanRun(db, steps)
    ensures MeltsOwnCoin(Run(db, steps), gid, i)
  {
    hide Inv, MeltsOwnCoin, SlotSession, Next, Enabled, StayDormant, Evolves;
    if steps == [] {
      NoSlotsAtStart(db, gid, i);
    } else {
      var t, s := steps[..|steps| - 1], steps[|steps| - 1];
      assert forall n :: 0 <= n < |t| ==> t[n] == steps[n] && t[..n] == steps[..n];
      MeltedCoinsStayDormant(db, t, gid, i);
      StartIsGood(db);
      RunsCreateNoValue(db, t, gid, i);
      StepKeepsDormant(Run(db, t), s);
      StepKeeps(Run(db, t), s, gid, i);
      StepMeltsDormant(Run(db, t), s, gid, i);
      if SlotSession(Run(db, t), gid, i).Some? {
        StillMelted(Run(db, t), Run(db, steps), gid, i);
      }
    }
  }

  lemma NoSlotsAtStart(db: Db, gid: string, i: nat)
    requires Start(db)
    ensures MeltsOwnCoin(db, gid, i)
  {
  }

  lemma StartIsGood(db: Db)
    requires Start(db)
    ensures Inv(db)
  {
  }

  predicate IsDone(db: Db, gid: string, i: nat) {
    HasSlot(db, gid, i) && db.groups[gid].finishedPerCoin[i]
  }

  /** The flag of a coin is set by revealing its session or by finding that refreshing it is not worth it;
      nothing unsets it. */
  lemma FlagIsSetIff(db: Db, step: Step, gid: string, i: nat)
    requires Inv(db) && Enabled(db, step)
    ensures IsDone(Next(db, step), gid, i) <==>
              || IsDone(db, gid, i)
              || (step.Reveal? && step.gid == gid && step.i == i && CanReveal(db, gid, i))
              || (step.CreateSession? && step.gid == gid && step.i == i && HasSlot(db, gid, i)
                  && RefreshList(step.denoms, step.oldDenom, step.seen) == [])
  {
    hide SessionsCovered, IdsDiffer, CoinsAfterSessions, RefreshList, SessionInput, PutCoins, FinishedIffAll;
  }

  /** In every run that starts with any coins and no groups, a non-empty group is marked finished
      exactly when the flags of all its coins are set. */
  lemma GroupFinishedIff(db: Db, steps: seq<Step>, gid: string)
    requires Start(db) && CanRun(db, steps)
    requires gid in Run(db, steps).groups && Run(db, steps).groups[gid].oldCoinPubs != []
    ensures var g := Run(db, steps).groups[gid];
            && |g.finishedPerCoin| == |g.oldCoinPubs|
            && (g.timestampFinished <==> forall i :: 0 <= i < |g.oldCoinPubs| ==> g.finishedPerCoin[i])
  {
    hide Run;
    RunsCreateNoValue(db, steps, gid, 0);
  }
}

// The wallet balance: every coin and every withdrawal group adds to the entry of its currency and
// to the entry of its exchange.
module Balance {
  import opened Amounts
  import opened MoneyMaps
  import opened Withdrawals

  datatype Field = Available | PendingIncoming

  datatype Entry = Entry(currency: string, available: Money, pendingIncoming: Money)

  function Get(e: Entry, f: Field): Money {
    match f
    case Available => e.available
    case PendingIncoming => e.pendingIncoming
  }

  function Bumped(e: Entry, f: Field, amount: Money): Entry {
    match f
    case Available => e.(available := Plus(e.available, amount))
    case PendingIncoming => e.(pendingIncoming := Plus(e.pendingIncoming, amount))
  }

  /** One amount to be added to a field of the balance. */
  datatype Part = Part(field: Field, amount: Money, currency: string, exchange: string)

  datatype Sheet = Sheet(byCurrency: map<string, Entry>, byExchange: map<string, Entry>)

  function EntryOr(m: map<string, Entry>, key: string, currency: string): Entry {
    if key in m then m[key] else Entry(currency, 0, 0)
  }

  /** The sheet after one addition, and whether it did not throw: an exchange whose entry is in
      another currency makes it throw after the currency's entry has been changed. */
  function AddedTo(s: Sheet, p: Part): (Sheet, bool) {
    var c := EntryOr(s.byCurrency, p.currency, p.currency);
    var byCurrency := s.byCurrency[p.currency := Bumped(c, p.field, p.amount)];
    var e := EntryOr(s.byExchange, p.exchange, p.currency);
    if e.currency != p.currency then (Sheet(byCurrency, s.byExchange), false)
    else (Sheet(byCurrency, s.byExchange[p.exchange := Bumped(e, p.field, p.amount)]), true)
  }

  /** Adding what one record contributes, if anything. */
  function AddedAll(s: Sheet, ps: seq<Part>): (Sheet, bool)
    requires |ps| <= 1
  {
    if ps == [] then (s, true) else AddedTo(s, ps[0])
  }

  function Folded(ps: seq<Part>): (Sheet, bool) {
    if ps == [] then (Sheet(map[], map[]), true)
    else
      var (s, ok) := Folded(ps[..|ps| - 1]);
      if ok then AddedTo(s, ps[|ps| - 1]) else (s, false)
  }

  function CoinPart(c: Coin): (ps: seq<Part>)
    ensures |ps| <= 1
  {
    if !c.suspended && c.isFresh then [Part(Available, c.amount, c.currency, c.exchange)] else []
  }

  function CoinParts(coins: map<string, Coin>, pubs: seq<string>): seq<Part>
    requires forall k :: k in pubs ==> k in coins
  {
    if pubs == [] then [] else CoinParts(coins, pubs[..|pubs| - 1]) + CoinPart(coins[pubs[|pubs| - 1]])
  }

  function GroupParts(groups: map<string, WithdrawalGroup>, gids: seq<string>): seq<Part>
    requires forall g :: g in gids ==> g in groups
  {
    if gids == [] then []
    else
      var g := groups[gids[|gids| - 1]];
      GroupParts(groups, gids[..|gids| - 1]) + [Part(PendingIncoming, Pending(g), g.currency, g.exchange)]
  }

  /** The additions in the order in which the tables list their records. */
  function Parts(db: Db, pubs: seq<string>, gids: seq<string>): seq<Part>
    requires (forall k :: k in pubs ==> k in db.coins) && (forall g :: g in gids ==> g in db.groups)
  {
    CoinParts(db.coins, pubs) + GroupParts(db.groups, gids)
  }

  method PendingOfGroup(g: WithdrawalGroup) returns (w: Money)
    requires |g.planchets| == |g.withdrawn|
    ensures w == Pending(g)
  {
    w := g.totalCoinValue;
    for i := 0 to |g.planchets|
      invariant w == PendingLoop(g.totalCoinValue, g.planchets[..i], g.withdrawn[..i])
    {
      assert g.planchets[..i + 1][..i] == g.planchets[..i];
      assert g.withdrawn[..i + 1][..i] == g.withdrawn[..i];
      if g.withdrawn[i] {
        w := Minus(w, g.planchets[i].coinValue);
      }
    }
    assert g.planchets[..|g.planchets|] == g.planchets;
    assert g.withdrawn[..|g.withdrawn|] == g.withdrawn;
  }

  class WalletBalance {
    var byCurrency: map<string, Entry>
    var byExchange: map<string, Entry>

    ghost function St(): Sheet
      reads this
    {
      Sheet(byCurrency, byExchange)
    }

    constructor ()
      ensures St() == Sheet(map[], map[])
    {
      byCurrency, byExchange := map[], map[];
    }

    method AddTo(field: Field, amount: Money, currency: string, exchange: string) returns (ok: bool)
      modifies this
      ensures (St(), ok) == AddedTo(old(St()), Part(field, amount, currency, exchange))
    {
      var entryCurr := if currency in byCurrency then byCurrency[currency] else Entry(currency, 0, 0);
      var entryEx := if exchange in byExchange then byExchange[exchange] else Entry(currency, 0, 0);
      byCurrency := byCurrency[currency := Bumped(entryCurr, field, amount)];
      if entryEx.currency != currency {
        return false;
      }
      byExchange := byExchange[exchange := Bumped(entryEx, field, amount)];
      return true;
    }

    method AddCoin(c: Coin) returns (ok: bool)
      modifies this
      ensures (St(), ok) == AddedAll(old(St()), CoinPart(c))
    {
      ok := true;
      if !c.suspended && c.isFresh {
        ok := AddTo(Available, c.amount, c.currency, c.exchange);
      }
    }

    method AddGroup(g: WithdrawalGroup) returns (ok: bool)
      requires |g.planchets| == |g.withdrawn|
      modifies this
      ensures (St(), ok) == AddedAll(old(St()), [Part(PendingIncoming, Pending(g), g.currency, g.exchange)])
    {
      var w := PendingOfGroup(g);
      ok := AddTo(PendingIncoming, w, g.currency, g.exchange);
    }

    method GetBalances(db: Db, pubs: seq<string>, gids: seq<string>) returns (ok: bool)
      requires (forall k :: k in pubs ==> k in db.coins) && (forall g :: g in gids ==> g in db.groups)
      requires forall g :: g in db.groups ==> |db.groups[g].planchets| == |db.groups[g].withdrawn|
      requires St() == Sheet(map[], map[])
      modifies this
      ensures (St(), ok) == Folded(Parts(db, pubs, gids))
    {
      StartOfParts(db, pubs, gids);
      hide AddedAll, CoinPart, Pending, Folded, CoinParts, GroupParts, Parts;
      ghost var all := Parts(db, pubs, gids);
      ghost var done: seq<Part> := [];
      for i := 0 to |pubs|
        invariant done == CoinParts(db.coins, pubs[..i])
        invariant (St(), true) == Folded(done)
      {
        CoinPartsStep(db, pubs, gids, i);
        FoldStep(done, CoinPart(db.coins[pubs[i]]), all);
        ok := AddCoin(db.coins[pubs[i]]);
        if !ok {
          return;
        }
        done := CoinParts(db.coins, pubs[..i + 1]);
      }
      assert pubs[..|pubs|] == pubs && done + GroupParts(db.groups, gids[..0]) == done;
      for j := 0 to |gids|
        invariant done == CoinParts(db.coins, pubs) + GroupParts(db.groups, gids[..j])
        invariant (St(), true) == Folded(done)
      {
        var g := db.groups[gids[j]];
        GroupPartsStep(db, pubs, gids, j);
        ghost var last := [Part(PendingIncoming, Pending(g), g.currency, g.exchange)];
        assert done + last == CoinParts(db.coins, pubs) + GroupParts(db.groups, gids[..j + 1]);
        FoldStep(done, last, all);
        ok := AddGroup(g);
        if !ok {
          return;
        }
        done := done + last;
      }
      assert gids[..|gids|] == gids;
      ok := true;
    }
  }

  lemma StartOfParts(db: Db, pubs: seq<string>, gids: seq<string>)
    requires (forall k :: k in pubs ==> k in db.coins) && (forall g :: g in gids ==> g in db.groups)
    ensures Folded([]) == (Sheet(map[], map[]), true)
    ensures CoinParts(db.coins, pubs[..0]) == [] && GroupParts(db.groups, gids[..0]) == []
    ensures Parts(db, pubs, gids) == CoinParts(db.coins, pubs) + GroupParts(db.groups, gids)
  {
  }

  lemma {:induction false} CoinPartsGrow(coins: map<string, Coin>, pubs: seq<string>, i: nat)
    requires i <= |pubs| && forall k :: k in pubs ==> k in coins
    ensures CoinParts(coins, pubs[..i]) <= CoinParts(coins, pubs)
    decreases |pubs|
  {
    if i == |pubs| {
      assert pubs[..i] == pubs;
    } else {
      assert pubs[..|pubs| - 1][..i] == pubs[..i];
      CoinPartsGrow(coins, pubs[..|pubs| - 1], i);
    }
  }

  lemma {:induction false} GroupPartsGrow(groups: map<string, WithdrawalGroup>, gids: seq<string>, i: nat)
    requires i <= |gids| && forall g :: g in gids ==> g in groups
    ensures GroupParts(groups, gids[..i]) <= GroupParts(groups, gids)
    decreases |gids|
  {
    if i == |gids| {
      assert gids[..i] == gids;
    } else {
      assert gids[..|gids| - 1][..i] == gids[..i];
      GroupPartsGrow(groups, gids[..|gids| - 1], i);
    }
  }

  lemma CoinPartsStep(db: Db, pubs: seq<string>, gids: seq<string>, i: nat)
    requires (forall k :: k in pubs ==> k in db.coins) && (forall g :: g in gids ==> g in db.groups)
    requires i < |pubs|
    ensures CoinParts(db.coins, pubs[..i + 1]) == CoinParts(db.coins, pubs[..i]) + CoinPart(db.coins[pubs[i]])
    ensures CoinParts(db.coins, pubs[..i + 1]) <= Parts(db, pubs, gids)
  {
    assert pubs[..i + 1][..i] == pubs[..i];
    CoinPartsGrow(db.coins, pubs, i + 1);
  }

  lemma GroupPartsStep(db: Db, pubs: seq<string>, gids: seq<string>, j: nat)
    requires (forall k :: k in pubs ==> k in db.coins) && (forall g :: g in gids ==> g in db.groups)
    requires j < |gids|
    ensures var g := db.groups[gids[j]];
            GroupParts(db.groups, gids[..j + 1]) == GroupParts(db.groups, gids[..j])
                + [Part(PendingIncoming, Pending(g), g.currency, g.exchange)]
    ensures CoinParts(db.coins, pubs) + GroupParts(db.groups, gids[..j + 1]) <= Parts(db, pubs, gids)
  {
    assert gids[..j + 1][..j] == gids[..j];
    GroupPartsGrow(db.groups, gids, j + 1);
  }

  /** One more record; after a throw the remaining ones change nothing. */
  lemma FoldStep(done: seq<Part>, next: seq<Part>, all: seq<Part>)
    requires Folded(done).1 && |next| <= 1
    requires done + next <= all
    ensures Folded(done + next) == AddedAll(Folded(done).0, next)
    ensures !Folded(done + next).1 ==> Folded(all) == Folded(done + next)
  {
    if next == [] {
      assert done + next == done;
    } else {
      assert (done + next)[..|done|] == done;
    }
    FoldStops(all, |done + next|);
    assert all[..|done + next|] == done + next;
  }

  lemma {:induction false} FoldStops(ps: seq<Part>, n: nat)
    requires n <= |ps|
    ensures !Folded(ps[..n]).1 ==> Folded(ps) == Folded(ps[..n])
    decreases |ps|
  {
    if n == |ps| {
      assert ps[..n] == ps;
    } else {
      assert ps[..|ps| - 1][..n] == ps[..n];
      FoldStops(ps[..|ps| - 1], n);
    }
  }

  // ---- What the entries say --------------------------------------------------------------------

  /** The parts of a field that belong to a currency, or to an exchange. */
  function PartTotal(ps: seq<Part>, f: Field, scope: Scope): nat {
    if ps == [] then 0
    else
      var p := ps[|ps| - 1];
      PartTotal(ps[..|ps| - 1], f, scope)
        + if p.field == f && Within(scope, p.currency, p.exchange) then p.amount else 0
  }

  function Clamped(n: nat): Money {
    if n > MAX_UNITS then MAX_UNITS else n
  }

  /** The entries, absent ones counting as zero. */
  function Shown(m: map<string, Entry>, key: string, f: Field): Money {
    if key in m then Get(m[key], f) else 0
  }

  ghost predicate OneCurrencyPerExchange(ps: seq<Part>) {
    forall i, j :: 0 <= i < |ps| && 0 <= j < |ps| && ps[i].exchange == ps[j].exchange ==>
        ps[i].currency == ps[j].currency
  }

  /** Each exchange's entry is in the currency of that exchange's parts. */
  ghost predicate EntriesOf(s: Sheet, ps: seq<Part>) {
    && (forall e :: e in s.byExchange <==> exists i :: 0 <= i < |ps| && ps[i].exchange == e)
    && (forall i :: 0 <= i < |ps| ==>
          ps[i].exchange in s.byExchange && s.byExchange[ps[i].exchange].currency == ps[i].currency)
  }

  lemma {:induction false} FoldFailsIff(ps: seq<Part>)
    ensures Folded(ps).1 <==> OneCurrencyPerExchange(ps)
    ensures Folded(ps).1 ==> EntriesOf(Folded(ps).0, ps)
  {
    if ps != [] {
      hide AddedTo, EntriesOf, OneCurrencyPerExchange;
      var t, p := ps[..|ps| - 1], ps[|ps| - 1];
      assert ps == t + [p];
      FoldFailsIff(t);
      FewerParts(t, p);
      if Folded(t).1 {
        NextEntry(t, p, Folded(t).0);
      }
    }
  }

  lemma FewerParts(t: seq<Part>, p: Part)
    ensures OneCurrencyPerExchange(t + [p]) ==> OneCurrencyPerExchange(t)
  {
    var ps := t + [p];
    assert forall i :: 0 <= i < |t| ==> t[i] == ps[i];
  }

  lemma NextEntry(t: seq<Part>, p: Part, s: Sheet)
    requires EntriesOf(s, t) && OneCurrencyPerExchange(t)
    ensures AddedTo(s, p).1 <==> OneCurrencyPerExchange(t + [p])
    ensures AddedTo(s, p).1 ==> EntriesOf(AddedTo(s, p).0, t + [p])
  {
    EntryCurrency(t, p, s);
    CurrencyOfNext(t, p);
    if AddedTo(s, p).1 {
      EntryOfNext(t, p, s, AddedTo(s, p).0);
    }
  }

  lemma EntryCurrency(t: seq<Part>, p: Part, s: Sheet)
    requires EntriesOf(s, t)
    ensures AddedTo(s, p).1 <==> forall i :: 0 <= i < |t| && t[i].exchange == p.exchange ==> t[i].currency == p.currency
  {
    if p.exchange in s.byExchange {
      var i :| 0 <= i < |t| && t[i].exchange == p.exchange;
    }
  }

  lemma CurrencyOfNext(t: seq<Part>, p: Part)
    requires OneCurrencyPerExchange(t)
    ensures OneCurrencyPerExchange(t + [p]) <==> forall i :: 0 <= i < |t| && t[i].exchange == p.exchange ==>
              t[i].currency == p.currency
  {
    var ps := t + [p];
    assert ps[|t|] == p;
    forall i | 0 <= i < |t| ensures ps[i] == t[i] {
    }
    if OneCurrencyPerExchange(ps) {
      forall i | 0 <= i < |t| && t[i].exchange == p.exchange ensures t[i].currency == p.currency {
        assert ps[i].exchange == ps[|t|].exchange;
      }
    }
  }

  lemma EntryOfNext(t: seq<Part>, p: Part, s: Sheet, s': Sheet)
    requires EntriesOf(s, t) && AddedTo(s, p) == (s', true)
    ensures EntriesOf(s', t + [p])
  {
    var ps := t + [p];
    assert ps[|t|] == p;
    forall e ensures e in s'.byExchange <==> exists i :: 0 <= i < |ps| && ps[i].exchange == e {
      if i :| 0 <= i < |t| && t[i].exchange == e {
        assert ps[i].exchange == e;
      }
    }
    forall i | 0 <= i < |ps|
      ensures ps[i].exchange in s'.byExchange && s'.byExchange[ps[i].exchange].currency == ps[i].currency
    {
      if i < |t| {
        assert ps[i] == t[i];
        assert t[i].exchange in s.byExchange;
      }
    }
  }

  /** Every entry is the clamped sum of what belongs to its currency, or to its exchange. */
  lemma {:induction false} EntriesAreTotals(ps: seq<Part>, f: Field, key: string)
    requires Folded(ps).1
    ensures Shown(Folded(ps).0.byCurrency, key, f) == Clamped(PartTotal(ps, f, InCurrency(key)))
    ensures Shown(Folded(ps).0.byExchange, key, f) == Clamped(PartTotal(ps, f, AtExchange(key)))
  {
    if ps != [] {
      var t, p := ps[..|ps| - 1], ps[|ps| - 1];
      EntriesAreTotals(t, f, key);
      EntryAfter(Folded(t).0, p, f, key);
      hide AddedTo, Shown;
    }
  }

  lemma EntryAfter(s: Sheet, p: Part, f: Field, key: string)
    ensures var d := AddedTo(s, p);
            d.1 ==>
              && Shown(d.0.byCurrency, key, f) == (if p.field == f && p.currency == key
                    then Plus(Shown(s.byCurrency, key, f), p.amount) else Shown(s.byCurrency, key, f))
              && Shown(d.0.byExchange, key, f) == (if p.field == f && p.exchange == key
                    then Plus(Shown(s.byExchange, key, f), p.amount) else Shown(s.byExchange, key, f))
  {
  }

  // ---- The two slices agree --------------------------------------------------------------------

  /** A field of the exchanges whose entries are in a currency. */
  ghost function Slice(m: map<string, Entry>, f: Field, currency: string): map<string, nat> {
    map e | e in m :: if m[e].currency == currency then Get(m[e], f) else 0
  }

  lemma {:induction false} TotalsWithin(ps: seq<Part>, f: Field, currency: string, exchange: string)
    requires OneCurrencyPerExchange(ps)
    requires exists i :: 0 <= i < |ps| && ps[i].exchange == exchange && ps[i].currency == currency
    ensures PartTotal(ps, f, AtExchange(exchange)) <= PartTotal(ps, f, InCurrency(currency))
  {
    var t, p := ps[..|ps| - 1], ps[|ps| - 1];
    var i :| 0 <= i < |ps| && ps[i].exchange == exchange && ps[i].currency == currency;
    if k :| 0 <= k < |t| && t[k].exchange == exchange {
      assert ps[k].exchange == ps[i].exchange;
      TotalsWithin(t, f, currency, exchange);
    } else {
      NoPartsNoTotal(t, f, exchange);
    }
  }

  lemma {:induction false} NoPartsNoTotal(ps: seq<Part>, f: Field, exchange: string)
    requires forall k :: 0 <= k < |ps| ==> ps[k].exchange != exchange
    ensures PartTotal(ps, f, AtExchange(exchange)) == 0
  {
    if ps != [] {
      NoPartsNoTotal(ps[..|ps| - 1], f, exchange);
    }
  }

  /** If nothing was clamped, the entries of the exchanges in a currency sum up to the entry of the
      currency. */
  lemma {:induction false} SlicesAgree(ps: seq<Part>, f: Field, currency: string)
    requires Folded(ps).1 && PartTotal(ps, f, InCurrency(currency)) <= MAX_UNITS
    ensures SumMap(Slice(Folded(ps).0.byExchange, f, currency)) == Shown(Folded(ps).0.byCurrency, currency, f)
  {
    EntriesAreTotals(ps, f, currency);
    if ps != [] {
      var t, p := ps[..|ps| - 1], ps[|ps| - 1];
      var s := Folded(t).0;
      SlicesAgree(t, f, currency);
      EntriesAreTotals(t, f, currency);
      EntriesAreTotals(t, f, p.exchange);
      FoldFailsIff(ps);
      if p.currency == currency {
        TotalsWithin(ps, f, currency, p.exchange);
      }
      SliceStep(s, p, f, currency);
    } else {
      assert Slice(map[], f, currency) == map[];
    }
  }

  lemma SliceStep(s: Sheet, p: Part, f: Field, currency: string)
    requires AddedTo(s, p).1
    requires p.field == f && p.currency == currency ==> Shown(s.byExchange, p.exchange, f) + p.amount <= MAX_UNITS
    ensures SumMap(Slice(AddedTo(s, p).0.byExchange, f, currency))
         == SumMap(Slice(s.byExchange, f, currency)) + if p.field == f && p.currency == currency then p.amount else 0
  {
    hide SumMap;
    var e := Bumped(EntryOr(s.byExchange, p.exchange, p.currency), p.field, p.amount);
    var v: nat := if p.currency == currency then Get(e, f) else 0;
    assert Slice(s.byExchange[p.exchange := e], f, currency) == Slice(s.byExchange, f, currency)[p.exchange := v];
    SumPut(Slice(s.byExchange, f, currency), p.exchange, v);
  }

  // ---- The balance of a database ---------------------------------------------------------------

  ghost predicate Enumerates<V>(ks: seq<string>, m: map<string, V>) {
    && (forall k :: k in ks <==> k in m)
    && forall i, j :: 0 <= i < j < |ks| ==> ks[i] != ks[j]
  }

  function SumOver(m: map<string, nat>, ks: seq<string>): nat
    requires forall k :: k in ks ==> k in m
  {
    if ks == [] then 0 else SumOver(m, ks[..|ks| - 1]) + m[ks[|ks| - 1]]
  }

  lemma {:induction false} SumOverUnchanged(m: map<string, nat>, k: string, ks: seq<string>)
    requires (forall j :: j in ks ==> j in m) && k !in ks
    ensures SumOver(m - {k}, ks) == SumOver(m, ks)
  {
    if ks != [] {
      SumOverUnchanged(m, k, ks[..|ks| - 1]);
    }
  }

  lemma FewerEnumerated<V>(m: map<string, V>, t: seq<string>, k: string)
    requires Enumerates(t + [k], m)
    ensures Enumerates(t, m - {k}) && k !in t && k in m
    ensures forall j :: j in t ==> j in m
  {
    var ks := t + [k];
    assert ks[|t|] == k && forall i :: 0 <= i < |t| ==> ks[i] == t[i];
    assert forall j :: j in ks <==> j in t || j == k;
  }

  lemma {:induction false} SumOverAll(m: map<string, nat>, ks: seq<string>)
    requires Enumerates(ks, m)
    ensures SumOver(m, ks) == SumMap(m)
  {
    if ks == [] {
      assert m == map[];
    } else {
      hide Enumerates, SumMap;
      var t, k := ks[..|ks| - 1], ks[|ks| - 1];
      assert ks == t + [k];
      SumRemove(m, k);
      FewerEnumerated(m, t, k);
      SumOverAll(m - {k}, t);
      SumOverUnchanged(m, k, t);
    }
  }

  lemma CoinPartCounts(ps: seq<Part>, c: Coin, scope: Scope)
    ensures PartTotal(ps + CoinPart(c), Available, scope)
         == PartTotal(ps, Available, scope)
            + if Within(scope, c.currency, c.exchange) && c.isFresh && !c.suspended then c.amount else 0
    ensures PartTotal(ps + CoinPart(c), PendingIncoming, scope) == PartTotal(ps, PendingIncoming, scope)
  {
    assert ps + [] == ps;
    TotalOfAppended(ps, Part(Available, c.amount, c.currency, c.exchange), scope);
  }

  lemma {:induction false} CoinPartsTotal(coins: map<string, Coin>, pubs: seq<string>, scope: Scope)
    requires forall k :: k in pubs ==> k in coins
    ensures PartTotal(CoinParts(coins, pubs), Available, scope) == SumOver(AmountsOf(coins, scope), pubs)
    ensures PartTotal(CoinParts(coins, pubs), PendingIncoming, scope) == 0
  {
    if pubs != [] {
      hide PartTotal, SumOver, AmountsOf, CoinPart;
      var t, k := pubs[..|pubs| - 1], pubs[|pubs| - 1];
      assert pubs == t + [k];
      CoinPartsTotal(coins, t, scope);
      CoinPartCounts(CoinParts(coins, t), coins[k], scope);
      CountedAmount(coins, t, k, scope);
    }
  }

  lemma CountedAmount(coins: map<string, Coin>, t: seq<string>, k: string, scope: Scope)
    requires k in coins && forall j :: j in t ==> j in coins
    ensures var c := coins[k];
            SumOver(AmountsOf(coins, scope), t + [k]) == SumOver(AmountsOf(coins, scope), t)
              + if Within(scope, c.currency, c.exchange) && c.isFresh && !c.suspended then c.amount else 0
  {
    assert (t + [k])[..|t|] == t;
  }

  lemma TotalOfAppended(ps: seq<Part>, p: Part, scope: Scope)
    ensures forall f :: PartTotal(ps + [p], f, scope)
                     == PartTotal(ps, f, scope)
                        + if p.field == f && Within(scope, p.currency, p.exchange) then p.amount else 0
  {
    assert (ps + [p])[..|ps|] == ps;
  }

  lemma {:induction false} GroupPartsTotal(ps: seq<Part>, groups: map<string, WithdrawalGroup>, gids: seq<string>,
      scope: Scope)
    requires forall g :: g in gids ==> g in groups
    ensures PartTotal(ps + GroupParts(groups, gids), PendingIncoming, scope)
         == PartTotal(ps, PendingIncoming, scope) + SumOver(PendingOf(groups, scope), gids)
    ensures PartTotal(ps + GroupParts(groups, gids), Available, scope) == PartTotal(ps, Available, scope)
  {
    if gids == [] {
      assert ps + GroupParts(groups, gids) == ps;
    } else {
      var t, g := gids[..|gids| - 1], groups[gids[|gids| - 1]];
      GroupPartsTotal(ps, groups, t, scope);
      var p := Part(PendingIncoming, Pending(g), g.currency, g.exchange);
      assert ps + GroupParts(groups, gids) == (ps + GroupParts(groups, t)) + [p];
      TotalOfAppended(ps + GroupParts(groups, t), p, scope);
    }
  }

  /** In each currency and at each exchange the balance shows the sum of the fresh coins as available
      and the value of the coins still to be withdrawn as pending, in whatever order the tables list
      them. */
  lemma BalanceIsWealth(db: Db, pubs: seq<string>, gids: seq<string>, scope: Scope)
    requires Enumerates(pubs, db.coins) && Enumerates(gids, db.groups)
    requires Folded(Parts(db, pubs, gids)).1
    ensures var s := Folded(Parts(db, pubs, gids)).0;
            var e := match scope
                     case InCurrency(c) => EntryOr(s.byCurrency, c, c)
                     case AtExchange(e) => EntryOr(s.byExchange, e, "");
            && e.available == Clamped(SumMap(AmountsOf(db.coins, scope)))
            && e.pendingIncoming == Clamped(SumMap(PendingOf(db.groups, scope)))
            && (Wealth(db, scope) <= MAX_UNITS ==> e.available + e.pendingIncoming == Wealth(db, scope))
  {
    hide SumMap, Folded, AmountsOf, PendingOf, Parts;
    PartsOf(db, pubs, gids);
    CoinPartsTotal(db.coins, pubs, scope);
    GroupPartsTotal(CoinParts(db.coins, pubs), db.groups, gids, scope);
    SumsOfTables(db, pubs, gids, scope);
    var key := match scope case InCurrency(c) => c case AtExchange(e) => e;
    EntriesAreTotals(Parts(db, pubs, gids), Available, key);
    EntriesAreTotals(Parts(db, pubs, gids), PendingIncoming, key);
  }

  lemma PartsOf(db: Db, pubs: seq<string>, gids: seq<string>)
    requires Enumerates(pubs, db.coins) && Enumerates(gids, db.groups)
    ensures Parts(db, pubs, gids) == CoinParts(db.coins, pubs) + GroupParts(db.groups, gids)
  {
  }

  lemma SumsOfTables(db: Db, pubs: seq<string>, gids: seq<string>, scope: Scope)
    requires Enumerates(pubs, db.coins) && Enumerates(gids, db.groups)
    ensures SumOver(AmountsOf(db.coins, scope), pubs) == SumMap(AmountsOf(db.coins, scope))
    ensures SumOver(PendingOf(db.groups, scope), gids) == SumMap(PendingOf(db.groups, scope))
  {
    assert Enumerates(pubs, AmountsOf(db.coins, scope));
    assert Enumerates(gids, PendingOf(db.groups, scope));
    SumOverAll(AmountsOf(db.coins, scope), pubs);
    SumOverAll(PendingOf(db.groups, scope), gids);
  }
}

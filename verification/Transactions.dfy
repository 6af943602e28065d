// Transactions of the in-memory IndexedDB backend for one database, as functions of its state: reads,
// what a transaction does, and what rollback, commit, export and import give.
module Transactions {
  import opened Wrappers
  import opened KeyMaps
  import opened IndexData
  import opened ObjectStores
  import opened StoreRuns
  import opened Dumps
  import opened Database
  import opened IndexScan
  import opened StoreScan

  datatype TransactionLevel = Disconnected | Connected | Read | Write | VersionChange

  function Rank(l: TransactionLevel): nat {
    match l
    case Disconnected => 0
    case Connected => 1
    case Read => 2
    case Write => 3
    case VersionChange => 4
  }

  datatype Mode = ReadOnly | ReadWrite | OtherMode

  datatype Dump = Dump(schema: map<string, IndexSchema>, stores: map<string, StoreDump>)

  datatype State = State(
    txLevel: TransactionLevel,
    scope: Option<set<string>>,
    stores: map<string, ObjectStore>,
    schema: map<string, IndexSchema>,
    transactions: set<nat>,
    nextTransaction: nat,
    nextConnection: nat)

  // ---- Reading ---------------------------------------------------------------------------------

  datatype ResultLevel = OnlyCount | OnlyKeys | Full

  datatype GetRequest = GetRequest(
    indexName: Option<string>, range: Option<KeyRange>, unique: bool,
    lastIndexPosition: Option<Key>, lastObjectStorePosition: Option<Key>,
    advanceIndexKey: Option<Key>, advancePrimaryKey: Option<Key>,
    limit: int, resultLevel: ResultLevel)

  datatype Response = Response(
    count: nat, indexKeys: Option<seq<Key>>, primaryKeys: Option<seq<Key>>, values: Option<seq<Value>>)

  function RangeOf(req: GetRequest): KeyRange {
    if req.range.Some? then req.range.value else KeyRange(None, None, true, true)
  }

  /** A position in an index comes with the primary key returned last. */
  predicate ProperRequest(req: GetRequest) {
    req.lastIndexPosition.Some? ==> req.indexName.Some? && req.lastObjectStorePosition.Some?
  }

  function CursorOf(req: GetRequest): Cursor
    requires ProperRequest(req)
  {
    Cursor(if req.lastIndexPosition.Some?
           then Some(Entry(req.lastIndexPosition.value, req.lastObjectStorePosition.value)) else None,
           req.advanceIndexKey, req.advancePrimaryKey)
  }

  function IndexKeysOf(s: seq<Entry>): seq<Key> {
    seq(|s|, i requires 0 <= i < |s| => s[i].indexKey)
  }

  function PrimaryKeysOf(s: seq<Entry>): seq<Key> {
    seq(|s|, i requires 0 <= i < |s| => s[i].primaryKey)
  }

  function ValuesOf(records: map<Key, Value>, keys: seq<Key>): seq<Value>
    requires forall k :: k in keys ==> k in records
  {
    seq(|keys|, i requires 0 <= i < |keys| => records[keys[i]])
  }

  /** What a request gives; it depends on the readable contents of the store only. */
  function Got(v: View, req: GetRequest): Result<Response, Error>
    requires ProperRequest(req)
  {
    var range := RangeOf(req);
    if req.indexName.Some? then
      if req.indexName.value !in v.indexes then Failure(TypeError)
      else if req.advanceIndexKey.Some? && req.lastIndexPosition.None? && range.lower.None? then Failure(TypeError)
      else
        var entries := Page(FullScan(v.indexes[req.indexName.value], range, req.unique, CursorOf(req)), req.limit);
        var keys := PrimaryKeysOf(entries);
        if req.resultLevel.Full? && exists k :: k in keys && k !in v.records then Failure(RecordMissing)
        else Success(Response(|entries|,
                              if req.resultLevel.OnlyCount? then None else Some(IndexKeysOf(entries)),
                              if req.resultLevel.OnlyCount? then None else Some(keys),
                              if req.resultLevel.Full? then Some(ValuesOf(v.records, keys)) else None))
    else if req.advanceIndexKey.Some? then Failure(UnsupportedRequest)
    else
      var all := AllKeys(v.records.Keys, range, req.lastObjectStorePosition, req.advancePrimaryKey);
      var keys := KeyPage(all, req.limit);
      StoredKeys(v.records, range, req);
      Success(Response(|keys|, None,
                       if req.resultLevel.OnlyCount? then None else Some(keys),
                       if req.resultLevel.Full? then Some(ValuesOf(v.records, keys)) else None))
  }

  lemma {:induction false} LeftAreKeys(keys: set<Key>, range: KeyRange, pos: Option<Key>)
    ensures forall k :: k in LeftKeys(keys, range, pos) ==> k in keys
    decreases if pos.Some? then |Above(keys, pos.value)| + 1 else 0
  {
    if pos.Some? && Includes(range, pos.value) && pos.value in keys {
      var next := NextHigherKey(keys, pos.value);
      if next.Some? {
        FewerAbove(keys, pos.value);
      }
      LeftAreKeys(keys, range, next);
    }
  }

  lemma StoredKeys(records: map<Key, Value>, range: KeyRange, req: GetRequest)
    ensures var all := AllKeys(records.Keys, range, req.lastObjectStorePosition, req.advancePrimaryKey);
            forall k :: k in KeyPage(all, req.limit) ==> k in records
  {
    var start := StartRecord(records.Keys, range, req.lastObjectStorePosition, req.advancePrimaryKey);
    LeftAreKeys(records.Keys, range, start);
  }

  /** Which lists a response holds for a result level, each with as many elements as are counted; the
      values are the records under the primary keys. */
  ghost predicate WellFormed(r: Response, records: map<Key, Value>, indexed: bool, level: ResultLevel) {
    && (r.indexKeys.Some? <==> indexed && !level.OnlyCount?)
    && (r.primaryKeys.Some? <==> !level.OnlyCount?)
    && (r.values.Some? <==> level.Full?)
    && (r.indexKeys.Some? ==> |r.indexKeys.value| == r.count)
    && (r.primaryKeys.Some? ==> |r.primaryKeys.value| == r.count)
    && (r.values.Some? ==>
          && |r.values.value| == r.count
          && forall i: nat :: i < r.count ==>
                && r.primaryKeys.value[i] in records
                && r.values.value[i] == records[r.primaryKeys.value[i]])
  }

  /** What an index request asks for: pairs of the index with an index key in the range, with unique only
      the smallest primary key of each, behind the last position and not before the keys to advance to. */
  ghost predicate AskedPair(m: Entries, req: GetRequest, ik: Key, pk: Key)
    requires ProperRequest(req)
  {
    && At(m, ik, pk)
    && (req.range.Some? ==> Includes(req.range.value, ik))
    && (req.unique ==> pk == m[ik][0])
    && (req.lastIndexPosition.Some? ==>
          || req.lastIndexPosition.value < ik
          || (req.lastIndexPosition.value == ik && !req.unique && req.lastObjectStorePosition.value < pk
              && (req.advanceIndexKey == Some(ik) && req.advancePrimaryKey.Some? ==>
                    req.advancePrimaryKey.value <= pk)))
    && (req.advanceIndexKey.Some? ==> req.advanceIndexKey.value <= ik)
  }

  lemma AskedIsWanted(m: Entries, req: GetRequest, e: Entry)
    requires ProperRequest(req)
    ensures AskedPair(m, req, e.indexKey, e.primaryKey) <==> Wanted(m, RangeOf(req), req.unique, CursorOf(req), e)
  {
  }

  /** A request whose scan starts where it should: the last position lies in the range and the scan does
      not start on an open bound that is itself an index key. */
  ghost predicate StartsRight(m: Entries, req: GetRequest)
    requires ProperRequest(req)
  {
    req.range.Some? ==>
      var range := req.range.value;
      && (req.lastIndexPosition.Some? ==> Includes(range, req.lastIndexPosition.value))
      && (req.lastIndexPosition.None? && range.lower.Some? && range.lowerOpen && range.lower.value in m ==>
            req.advanceIndexKey.Some? && range.lower.value < req.advanceIndexKey.value)
  }

  lemma StartsRightIsProper(m: Entries, req: GetRequest)
    requires ProperRequest(req) && StartsRight(m, req)
    requires req.advanceIndexKey.Some? ==> req.lastIndexPosition.Some? || RangeOf(req).lower.Some?
    ensures Proper(RangeOf(req), CursorOf(req)) && !StartsOnOpenBound(m, RangeOf(req), CursorOf(req))
  {
  }

  /** A response of an index holds pairs the request asks for, in ascending order and no more than the
      limit. None is left out in front of the last one; below the limit none is left out at all. */
  lemma IndexResponse(v: View, req: GetRequest)
    requires ProperRequest(req) && req.indexName.Some? && req.indexName.value in v.indexes
    requires Tidy(v.indexes[req.indexName.value])
    requires Got(v, req).Success?
    ensures var r, m := Got(v, req).value, v.indexes[req.indexName.value];
            && WellFormed(r, v.records, true, req.resultLevel)
            && (req.limit > 0 ==> r.count <= req.limit)
            && (!req.resultLevel.OnlyCount? ==>
                  && (forall i: nat :: i < r.count ==>
                        AskedPair(m, req, r.indexKeys.value[i], r.primaryKeys.value[i]))
                  && (forall i: nat, j: nat :: i < j < r.count ==>
                        || r.indexKeys.value[i] < r.indexKeys.value[j]
                        || (r.indexKeys.value[i] == r.indexKeys.value[j]
                            && r.primaryKeys.value[i] < r.primaryKeys.value[j]))
                  && (StartsRight(m, req) ==> forall ik, pk :: AskedPair(m, req, ik, pk) ==>
                        || (exists i: nat :: i < r.count
                              && r.indexKeys.value[i] == ik && r.primaryKeys.value[i] == pk)
                        || (r.count > 0 && r.count == req.limit
                            && (r.indexKeys.value[r.count - 1] < ik
                                || (r.indexKeys.value[r.count - 1] == ik
                                    && r.primaryKeys.value[r.count - 1] < pk)))))
  {
    hide FullScan, Tidy, Wanted, AskedPair, StartsRight, Includes;
    var m, range, c := v.indexes[req.indexName.value], RangeOf(req), CursorOf(req);
    var all := FullScan(m, range, req.unique, c);
    var entries := Page(all, req.limit);
    ScanGivesWanted(m, range, req.unique, c);
    forall i: nat | i < |entries| ensures AskedPair(m, req, entries[i].indexKey, entries[i].primaryKey) {
      assert entries[i] in all;
      AskedIsWanted(m, req, entries[i]);
    }
    if StartsRight(m, req) {
      StartsRightIsProper(m, req);
      forall ik, pk | AskedPair(m, req, ik, pk)
        ensures (exists i: nat :: i < |entries| && entries[i] == Entry(ik, pk))
             || (|entries| == req.limit > 0 && Less(entries[|entries| - 1], Entry(ik, pk)))
      {
        AskedIsWanted(m, req, Entry(ik, pk));
        ScanMembers(m, range, req.unique, c, Entry(ik, pk));
        OnPageOrBehind(all, req.limit, Entry(ik, pk));
      }
    }
    if !req.resultLevel.OnlyCount? {
      ResponseLists(v, req, entries);
    }
  }

  lemma ResponseLists(v: View, req: GetRequest, entries: seq<Entry>)
    requires ProperRequest(req) && req.indexName.Some? && req.indexName.value in v.indexes
    requires entries == Page(FullScan(v.indexes[req.indexName.value], RangeOf(req), req.unique, CursorOf(req)),
                          req.limit)
    requires Got(v, req).Success? && !req.resultLevel.OnlyCount?
    ensures var r := Got(v, req).value;
            && r.indexKeys.Some? && r.primaryKeys.Some?
            && |r.indexKeys.value| == |r.primaryKeys.value| == |entries| == r.count
            && forall i: nat :: i < |entries| ==> entries[i] == Entry(r.indexKeys.value[i], r.primaryKeys.value[i])
  {
    hide FullScan;
  }

  lemma OnPageOrBehind(all: seq<Entry>, limit: int, e: Entry)
    requires Increasing(all) && e in all
    ensures var entries := Page(all, limit);
            || (exists i: nat :: i < |entries| && entries[i] == e)
            || (|entries| == limit > 0 && Less(entries[|entries| - 1], e))
  {
    var k: nat :| k < |all| && all[k] == e;
    var entries := Page(all, limit);
    if k < |entries| {
      assert entries[k] == e;
    }
  }

  /** A response of a store holds the keys of records in the range, behind the last position and not
      before the key to advance to, in ascending order and no more than the limit. None is left out in
      front of the last one; below the limit none is left out at all. */
  lemma StoreResponse(v: View, req: GetRequest)
    requires ProperRequest(req) && req.indexName.None? && req.advanceIndexKey.None?
    ensures Got(v, req).Success?
    ensures var r := Got(v, req).value;
            && WellFormed(r, v.records, false, req.resultLevel)
            && (req.limit > 0 ==> r.count <= req.limit)
            && (!req.resultLevel.OnlyCount? ==>
                  && (forall i: nat :: i < r.count ==> AskedKey(v.records, req, r.primaryKeys.value[i]))
                  && (forall i: nat, j: nat :: i < j < r.count ==> r.primaryKeys.value[i] < r.primaryKeys.value[j])
                  && (StartsRightOnStore(v.records, req) ==> forall k :: AskedKey(v.records, req, k) ==>
                        || (exists i: nat :: i < r.count && r.primaryKeys.value[i] == k)
                        || (r.count > 0 && r.count == req.limit && r.primaryKeys.value[r.count - 1] < k)))
  {
    hide AllKeys, Includes, AskedKey, StartsRightOnStore, WantedKey, StartsOnOpenKey;
    StoredKeys(v.records, RangeOf(req), req);
    var keys := v.records.Keys;
    var range, last, advance := RangeOf(req), req.lastObjectStorePosition, req.advancePrimaryKey;
    var all := AllKeys(keys, range, last, advance);
    var page := KeyPage(all, req.limit);
    StoreScanGivesWanted(keys, range, last, advance);
    forall i: nat | i < |page| ensures AskedKey(v.records, req, page[i]) {
      assert page[i] in all;
      AskedKeyIsWanted(v.records, req, page[i]);
    }
    if StartsRightOnStore(v.records, req) {
      StoreStartsProperly(v.records, req);
      StoreScanGives(keys, range, last, advance);
      forall k | AskedKey(v.records, req, k)
        ensures (exists i: nat :: i < |page| && page[i] == k) || (|page| == req.limit > 0 && page[|page| - 1] < k)
      {
        AskedKeyIsWanted(v.records, req, k);
        KeyOnPageOrBehind(all, req.limit, k);
      }
    }
  }

  ghost predicate AskedKey(records: map<Key, Value>, req: GetRequest, k: Key) {
    && k in records
    && (req.range.Some? ==> Includes(req.range.value, k))
    && (req.lastObjectStorePosition.Some? ==> req.lastObjectStorePosition.value < k)
    && (req.advancePrimaryKey.Some? ==> req.advancePrimaryKey.value <= k)
  }

  ghost predicate StartsRightOnStore(records: map<Key, Value>, req: GetRequest) {
    req.range.Some? ==>
      var range := req.range.value;
      && (req.lastObjectStorePosition.Some? ==> Includes(range, req.lastObjectStorePosition.value))
      && (req.lastObjectStorePosition.None? && range.lower.Some? && range.lowerOpen && range.lower.value in records ==>
            req.advancePrimaryKey.Some? && range.lower.value < req.advancePrimaryKey.value)
  }

  lemma StoreStartsProperly(records: map<Key, Value>, req: GetRequest)
    requires StartsRightOnStore(records, req)
    ensures req.lastObjectStorePosition.Some? ==> Includes(RangeOf(req), req.lastObjectStorePosition.value)
    ensures !StartsOnOpenKey(records.Keys, RangeOf(req), req.lastObjectStorePosition, req.advancePrimaryKey)
  {
  }

  lemma AskedKeyIsWanted(records: map<Key, Value>, req: GetRequest, k: Key)
    ensures AskedKey(records, req, k) <==>
            WantedKey(records.Keys, RangeOf(req), req.lastObjectStorePosition, req.advancePrimaryKey, k)
  {
  }

  lemma KeyOnPageOrBehind(all: seq<Key>, limit: int, k: Key)
    requires Ascending(all) && k in all
    ensures var page := KeyPage(all, limit);
            (exists i: nat :: i < |page| && page[i] == k) || (|page| == limit > 0 && page[|page| - 1] < k)
  {
    var i: nat :| i < |all| && all[i] == k;
    var page := KeyPage(all, limit);
    if i < |page| {
      assert page[i] == k;
    }
  }

  /** A read fails exactly for an index that does not exist, for an index key to advance to without a
      position or a lower bound to advance from, for one without an index, and, if values are asked for, for a
      record that the index lists but the store does not hold. */
  lemma ReadFailsIff(v: View, req: GetRequest)
    requires ProperRequest(req)
    ensures req.indexName.None? ==>
              Got(v, req).Failure? == req.advanceIndexKey.Some?
              && (Got(v, req).Failure? ==> Got(v, req).error == UnsupportedRequest)
    ensures req.indexName.Some? ==>
              var misplaced := req.advanceIndexKey.Some? && req.lastIndexPosition.None?
                                 && (req.range.Some? ==> req.range.value.lower.None?);
              if req.indexName.value !in v.indexes || misplaced then Got(v, req) == Failure(TypeError)
              else
                var listed := Got(v, req.(resultLevel := OnlyKeys));
                && listed.Success?
                && (Got(v, req).Failure? ==> Got(v, req).error == RecordMissing)
                && (Got(v, req).Failure? <==>
                      && req.resultLevel.Full?
                      && exists k :: k in listed.value.primaryKeys.value && k !in v.records)
  {
    hide FullScan, AllKeys;
    if req.indexName.None? {
      StoredKeys(v.records, RangeOf(req), req);
    }
  }

  /** The result level only decides which lists come with the count. */
  lemma LevelsCountTheSame(v: View, req: GetRequest)
    requires ProperRequest(req) && Got(v, req).Success?
    ensures var keys := Got(v, req.(resultLevel := OnlyKeys));
            && keys.Success? && keys.value.count == Got(v, req).value.count
            && (!req.resultLevel.OnlyCount? ==>
                  && Got(v, req).value.indexKeys == keys.value.indexKeys
                  && Got(v, req).value.primaryKeys == keys.value.primaryKeys)
  {
    hide FullScan, AllKeys;
    if req.indexName.None? {
      StoredKeys(v.records, RangeOf(req), req);
    }
  }

  /** A full scan of an index that is the grouped records finds every record it lists. */
  lemma GroupedScanFindsRecords(v: View, req: GetRequest, p: IndexProperties)
    requires ProperRequest(req) && req.indexName.Some? && req.indexName.value in v.indexes
    requires Grouped(v.indexes[req.indexName.value], v.records, p)
    requires Proper(RangeOf(req), CursorOf(req))
    ensures Got(v, req).Success?
  {
    var m := v.indexes[req.indexName.value];
    var all := FullScan(m, RangeOf(req), req.unique, CursorOf(req));
    forall e | e in all ensures e.primaryKey in v.records {
      if StartsOnOpenBound(m, RangeOf(req), CursorOf(req)) {
        OpenBoundStopsScan(m, RangeOf(req), req.unique, CursorOf(req));
      } else {
        ScanMembers(m, RangeOf(req), req.unique, CursorOf(req), e);
      }
      assert At(m, e.indexKey, e.primaryKey) ==> e.primaryKey in v.records;
    }
    var entries := Page(all, req.limit);
    var keys := PrimaryKeysOf(entries);
    forall i | 0 <= i < |keys| ensures keys[i] in v.records {
      assert entries[i] in all;
    }
  }

  // ---- Transactions ----------------------------------------------------------------------------

  function Guard(st: State, tx: nat, min: TransactionLevel, name: string): Option<Error> {
    if tx !in st.transactions then Some(UnknownConnection)
    else if Rank(st.txLevel) < Rank(min) then Some(NotAllowed)
    else if st.scope.Some? && name !in st.scope.value then Some(OutOfScope)
    else None
  }

  /** Which calls are admitted: those of a running transaction that has been opened for reading, or for
      writing, and has the store in its scope. */
  lemma CallIsAdmittedIff(st: State, tx: nat, name: string)
    ensures Guard(st, tx, Read, name).None? <==>
            && tx in st.transactions && st.txLevel in {Read, Write, VersionChange}
            && (st.scope.Some? ==> name in st.scope.value)
    ensures Guard(st, tx, Write, name).None? <==>
            && tx in st.transactions && st.txLevel in {Write, VersionChange}
            && (st.scope.Some? ==> name in st.scope.value)
  {
  }

  /** The state after a store or a range delete on the store called name. */
  function Wrote(st: State, tx: nat, name: string, op: Operation): State {
    if Guard(st, tx, Write, name).Some? || name !in st.stores || name !in st.schema then st
    else st.(stores := st.stores[name := Step(st.stores[name], st.schema[name], op)])
  }

  datatype Call = Call(name: string, op: Operation)

  function WroteAll(st: State, tx: nat, calls: seq<Call>): State {
    if calls == [] then st
    else Wrote(WroteAll(st, tx, calls[..|calls| - 1]), tx, calls[|calls| - 1].name, calls[|calls| - 1].op)
  }

  function LevelOf(mode: Mode): TransactionLevel {
    if mode.ReadOnly? then Read else Write
  }

  function Begun(st: State, names: set<string>, mode: Mode): State {
    var t := st.(nextTransaction := st.nextTransaction + 1);
    if mode.OtherMode? then t
    else t.(txLevel := LevelOf(mode), scope := Some(names), transactions := st.transactions + {st.nextTransaction})
  }

  function Ended(st: State, tx: nat): State {
    st.(txLevel := Connected, scope := None, transactions := st.transactions - {tx})
  }

  function Undone(st: State, tx: nat): State {
    Ended(st, tx).(stores := map n | n in st.stores :: RolledBack(st.stores[n]))
  }

  function Published(st: State, tx: nat): State {
    Ended(st, tx).(stores := map n | n in st.stores :: Committed(st.stores[n]))
  }

  function Exported(st: State): Dump {
    Dump(st.schema, map n | n in st.stores :: DumpOf(st.stores[n]))
  }

  /** The index lists ascend, every declared index exists, and outside a transaction nothing is left
      modified. */
  ghost predicate Good(st: State) {
    && st.schema.Keys == st.stores.Keys
    && (forall n :: n in st.stores ==> AllTidy(st.stores[n].indexes))
    && 1 <= st.nextTransaction && (forall t :: t in st.transactions ==> 1 <= t < st.nextTransaction)
    && (st.transactions != {} <==> Rank(st.txLevel) >= Rank(Read))
    && (st.transactions == {} ==> forall n :: n in st.stores ==> Clean(st.stores[n]))
    && (forall t, u :: t in st.transactions && u in st.transactions ==> t == u)
  }

  ghost predicate SameCommitted(a: State, b: State) {
    && a.stores.Keys == b.stores.Keys && a.schema == b.schema
    && forall n :: n in a.stores ==> SameOriginals(a.stores[n], b.stores[n])
  }

  lemma WroteKeepsGood(st: State, tx: nat, name: string, op: Operation)
    requires Good(st)
    ensures Good(Wrote(st, tx, name, op))
    ensures SameCommitted(st, Wrote(st, tx, name, op))
    ensures Wrote(st, tx, name, op) == st.(stores := Wrote(st, tx, name, op).stores)
  {
    hide Step, AllTidy, Clean;
    if Guard(st, tx, Write, name).None? && name in st.stores {
      StepKeepsTidy(st.stores[name], st.schema[name], op);
      StepKeepsOriginals(st.stores[name], st.schema[name], op);
    }
  }

  lemma {:induction false} CallsKeepGood(st: State, tx: nat, calls: seq<Call>)
    requires Good(st)
    ensures Good(WroteAll(st, tx, calls))
    ensures SameCommitted(st, WroteAll(st, tx, calls))
    ensures WroteAll(st, tx, calls) == st.(stores := WroteAll(st, tx, calls).stores)
  {
    hide Wrote, Good;
    if calls != [] {
      var t := calls[..|calls| - 1];
      CallsKeepGood(st, tx, t);
      WroteKeepsGood(WroteAll(st, tx, t), tx, calls[|calls| - 1].name, calls[|calls| - 1].op);
      SameCommittedTrans(st, WroteAll(st, tx, t), WroteAll(st, tx, calls));
    }
  }

  /** The calls of a transaction reach the stores in its scope only, and none at all if it only reads or is
      not running. In the scope of one that writes, a call does what its operation does. */
  lemma {:induction false} ScopeIsRespected(st: State, tx: nat, calls: seq<Call>, name: string)
    requires name in st.stores
    ensures var t := WroteAll(st, tx, calls);
            && t == st.(stores := t.stores)
            && t.stores.Keys == st.stores.Keys
            && (tx !in st.transactions || st.txLevel in {Disconnected, Connected, Read} ==> t.stores == st.stores)
            && (st.scope.Some? && name !in st.scope.value ==> t.stores[name] == st.stores[name])
            && (tx in st.transactions && st.txLevel in {Write, VersionChange} && name in st.schema
                && (st.scope.Some? ==> name in st.scope.value) ==>
                  t.stores[name] == Run(st.stores[name], st.schema[name], OperationsOn(calls, name)))
  {
    hide Step;
    if calls != [] {
      ScopeIsRespected(st, tx, calls[..|calls| - 1], name);
      var ops := OperationsOn(calls[..|calls| - 1], name);
      assert (ops + [calls[|calls| - 1].op])[..|ops|] == ops && ops + [] == ops;
    }
  }

  ghost function OperationsOn(calls: seq<Call>, name: string): seq<Operation> {
    if calls == [] then []
    else
      var last := calls[|calls| - 1];
      OperationsOn(calls[..|calls| - 1], name) + if last.name == name then [last.op] else []
  }

  lemma SameCommittedTrans(a: State, b: State, c: State)
    requires SameCommitted(a, b) && SameCommitted(b, c)
    ensures SameCommitted(a, c)
  {
  }

  /** A transaction that stores and deletes in any way and is then rolled back leaves every read,
      every key generator and the dump as they were before it. */
  lemma RollbackIsExact(st: State, names: set<string>, mode: Mode, calls: seq<Call>)
    requires Good(st) && st.txLevel.Connected? && !mode.OtherMode?
    ensures var tx := st.nextTransaction;
            var r := Undone(WroteAll(Begun(st, names, mode), tx, calls), tx);
            && r.stores.Keys == st.stores.Keys && r.schema == st.schema
            && (forall n :: n in st.stores ==> ViewOf(r.stores[n]) == ViewOf(st.stores[n]))
            && Exported(r) == Exported(st)
            && r.txLevel == st.txLevel && r.transactions == {} && Good(r)
  {
    hide ViewOf, DumpOf, RolledBack, Clean, SameOriginals, AllTidy;
    var tx := st.nextTransaction;
    var b := Begun(st, names, mode);
    assert Good(b);
    var t := WroteAll(b, tx, calls);
    CallsKeepGood(b, tx, calls);
    var r := Undone(t, tx);
    assert st.transactions == {};
    assert t.transactions == b.transactions == {tx};
    forall n | n in st.stores
      ensures ViewOf(r.stores[n]) == ViewOf(st.stores[n]) && DumpOf(r.stores[n]) == DumpOf(st.stores[n])
      ensures Clean(r.stores[n]) && AllTidy(r.stores[n].indexes)
    {
      assert SameOriginals(b.stores[n], t.stores[n]);
      RollbackRestoresView(st.stores[n], t.stores[n]);
      RolledBackIsTidy(t.stores[n]);
    }
    assert Exported(r).stores == Exported(st).stores;
  }

  lemma RollbackIsGood(st: State, tx: nat)
    requires Good(st) && tx in st.transactions
    ensures Good(Undone(st, tx))
  {
    hide AllTidy;
    forall n | n in st.stores ensures AllTidy(RolledBack(st.stores[n]).indexes) {
      RolledBackIsTidy(st.stores[n]);
    }
  }

  lemma RolledBackIsTidy(s: ObjectStore)
    requires AllTidy(s.indexes)
    ensures AllTidy(RolledBack(s).indexes)
  {
  }

  lemma CommittedIsTidy(s: ObjectStore)
    requires AllTidy(s.indexes)
    ensures AllTidy(Committed(s).indexes)
  {
  }

  /** After a commit the dump holds exactly the contents the transaction could read last, and every
      later read gives the same as one before the commit; the key generator may only differ where
      an explicit key set it to zero. */
  lemma CommitIsExact(st: State, tx: nat)
    requires Good(st) && tx in st.transactions
    ensures var r := Published(st, tx);
            && Good(r) && r.stores.Keys == st.stores.Keys
            && forall n :: n in st.stores ==> Publishes(st.stores[n], r.stores[n], Exported(r).stores[n])
  {
    hide DumpOf, Committed, Clean, AllTidy, Publishes;
    var r := Published(st, tx);
    forall n | n in st.stores
      ensures Clean(r.stores[n]) && AllTidy(r.stores[n].indexes)
      ensures Publishes(st.stores[n], r.stores[n], Exported(r).stores[n])
    {
      CommitPublishesView(st.stores[n]);
      CommittedIsTidy(st.stores[n]);
    }
  }

  lemma ViewRecords(s: ObjectStore)
    ensures ViewOf(s).records == Records(s)
  {
  }

  // ---- Agreement over transactions -------------------------------------------------------------

  ghost predicate IndexesAgree(exact: bool, st: State) {
    && st.schema.Keys == st.stores.Keys
    && forall n :: n in st.stores ==> StoreAgrees(exact, st.stores[n], st.schema[n])
  }

  ghost predicate FitsAll(st: State, calls: seq<Call>) {
    && (forall n :: n in st.schema ==> NoUnique(st.schema[n]))
    && forall c :: c in calls && c.name in st.schema ==> Fits(c.op, st.schema[c.name])
  }

  ghost predicate StableCall(st: State, c: Call) {
    c.op.Put? && c.name in st.stores && c.name in st.schema ==>
        KeepsIndexKeys(st.stores[c.name], st.schema[c.name], c.op.req)
  }

  ghost predicate StableCalls(st: State, tx: nat, calls: seq<Call>) {
    forall i :: 0 <= i < |calls| ==> StableCall(WroteAll(st, tx, calls[..i]), calls[i])
  }

  lemma CallKeepsAgreement(exact: bool, st: State, tx: nat, c: Call)
    requires IndexesAgree(exact, st)
    requires c.name in st.schema ==> NoUnique(st.schema[c.name]) && Fits(c.op, st.schema[c.name])
    requires exact ==> StableCall(st, c)
    ensures IndexesAgree(exact, Wrote(st, tx, c.name, c.op))
    ensures Wrote(st, tx, c.name, c.op).schema == st.schema
  {
    hide StoreAgrees, Step, Fits, NoUnique, KeepsIndexKeys;
    if c.name in st.stores {
      StepKeepsAgreement(exact, st.stores[c.name], st.schema[c.name], c.op);
    }
  }

  /** Over any calls of a transaction, on any of its stores and failed or not, every index lists
      every record; without overwrites that change an index key it is the grouped records. */
  lemma {:induction false} CallsKeepAgreement(exact: bool, st: State, tx: nat, calls: seq<Call>)
    requires IndexesAgree(exact, st) && FitsAll(st, calls)
    requires exact ==> StableCalls(st, tx, calls)
    ensures IndexesAgree(exact, WroteAll(st, tx, calls))
    ensures WroteAll(st, tx, calls).schema == st.schema
  {
    hide IndexesAgree, Fits, NoUnique, StableCall, Wrote;
    if calls != [] {
      var t, c := calls[..|calls| - 1], calls[|calls| - 1];
      assert forall i :: 0 <= i < |t| ==> t[i] == calls[i] && t[..i] == calls[..i];
      CallsKeepAgreement(exact, st, tx, t);
      assert c in calls;
      AgreeingSchema(exact, st);
      CallKeepsAgreement(exact, WroteAll(st, tx, t), tx, c);
    }
  }

  lemma AgreeingSchema(exact: bool, st: State)
    requires IndexesAgree(exact, st)
    ensures st.schema.Keys == st.stores.Keys
  {
  }

  lemma AgreementIsReadable(exact: bool, s: ObjectStore, t: ObjectStore, schema: IndexSchema)
    requires ViewOf(s).records == ViewOf(t).records && ViewOf(s).indexes == ViewOf(t).indexes
    requires StoreAgrees(exact, s, schema)
    ensures StoreAgrees(exact, t, schema)
  {
    hide Agrees, Data;
    assert s.indexes.Keys == ViewOf(s).indexes.Keys == t.indexes.Keys;
    forall n | n in schema ensures Agrees(exact, Data(t.indexes[n.name]), Records(t), n.props) {
      assert ViewOf(s).indexes[n.name] == ViewOf(t).indexes[n.name];
    }
  }

  /** Whether a transaction commits or rolls back, the indexes agree with the records afterwards. */
  lemma TransactionsKeepAgreement(exact: bool, st: State, names: set<string>, mode: Mode, calls: seq<Call>)
    requires Good(st) && st.txLevel.Connected? && !mode.OtherMode?
    requires IndexesAgree(exact, st) && FitsAll(st, calls)
    requires exact ==> StableCalls(Begun(st, names, mode), st.nextTransaction, calls)
    ensures var tx := st.nextTransaction;
            var t := WroteAll(Begun(st, names, mode), tx, calls);
            IndexesAgree(exact, Published(t, tx)) && IndexesAgree(exact, Undone(t, tx))
  {
    hide StoreAgrees, Step, ViewOf, RolledBack, Committed, NoUnique, Fits, Clean, AllTidy, StableCalls;
    var tx := st.nextTransaction;
    var b := Begun(st, names, mode);
    assert Good(b) && IndexesAgree(exact, b);
    CallsKeepAgreement(exact, b, tx, calls);
    CallsKeepGood(b, tx, calls);
    var t := WroteAll(b, tx, calls);
    assert tx in t.transactions;
    CommitIsExact(t, tx);
    RollbackIsExact(st, names, mode, calls);
    forall n | n in t.stores
      ensures StoreAgrees(exact, Published(t, tx).stores[n], t.schema[n])
      ensures StoreAgrees(exact, Undone(t, tx).stores[n], t.schema[n])
    {
      ViewRecords(t.stores[n]);
      AgreementIsReadable(exact, t.stores[n], Published(t, tx).stores[n], t.schema[n]);
      AgreementIsReadable(exact, st.stores[n], Undone(t, tx).stores[n], t.schema[n]);
    }
  }

  // ---- From a new database on -------------------------------------------------------------------

  /** A transaction from beginning to end. */
  datatype Transaction = Transaction(names: set<string>, mode: Mode, calls: seq<Call>, commits: bool)

  function After(st: State, t: Transaction): State {
    var tx := st.nextTransaction;
    var last := WroteAll(Begun(st, t.names, t.mode), tx, t.calls);
    if t.commits then Published(last, tx) else Undone(last, tx)
  }

  function AfterAll(st: State, ts: seq<Transaction>): State {
    if ts == [] then st else After(AfterAll(st, ts[..|ts| - 1]), ts[|ts| - 1])
  }

  /** A connected database whose stores have never been written to. */
  ghost predicate NewDatabase(st: State) {
    && st.txLevel.Connected? && st.transactions == {} && st.nextTransaction >= 1
    && st.schema.Keys == st.stores.Keys
    && forall n :: n in st.stores ==>
          && DistinctNames(st.schema[n]) && Declared(st.schema[n], st.stores[n].indexes)
          && st.stores[n] == ObjectStore(map[], None, 1, None, st.stores[n].indexes)
          && forall i :: i in st.stores[n].indexes ==> st.stores[n].indexes[i] == Index(map[], None)
  }

  ghost predicate Running(st: State) {
    Good(st) && st.txLevel.Connected?
  }

  lemma NewDatabaseAgrees(st: State)
    requires NewDatabase(st)
    ensures Running(st) && IndexesAgree(true, st)
  {
    hide Clean, AllTidy, StoreAgrees;
    forall n | n in st.stores
      ensures Clean(st.stores[n]) && AllTidy(st.stores[n].indexes) && StoreAgrees(true, st.stores[n], st.schema[n])
    {
      EmptyStoreIsGood(st.stores[n]);
      EmptyStoreAgrees(st.stores[n], st.schema[n]);
    }
  }

  lemma EmptyStoreIsGood(s: ObjectStore)
    requires s == ObjectStore(map[], None, 1, None, s.indexes)
    requires forall i :: i in s.indexes ==> s.indexes[i] == Index(map[], None)
    ensures Clean(s) && AllTidy(s.indexes)
  {
  }

  /** What the transactions ask for: permitted modes, indexable values, and where the exact agreement
      is wanted, no overwrite that changes an index key. */
  ghost predicate Orderly(exact: bool, st: State, t: Transaction) {
    && !t.mode.OtherMode? && FitsAll(st, t.calls)
    && (exact ==> StableCalls(Begun(st, t.names, t.mode), st.nextTransaction, t.calls))
  }

  ghost predicate AllOrderly(exact: bool, st: State, ts: seq<Transaction>) {
    forall i :: 0 <= i < |ts| ==> Orderly(exact, AfterAll(st, ts[..i]), ts[i])
  }

  lemma TransactionEnds(st: State, t: Transaction)
    requires Running(st) && !t.mode.OtherMode?
    ensures Running(After(st, t)) && After(st, t).schema == st.schema
  {
    hide AllTidy, Clean, Committed, RolledBack, Step, Publishes, ViewOf, DumpOf, SameOriginals;
    var tx := st.nextTransaction;
    var b := Begun(st, t.names, t.mode);
    assert Good(b);
    CallsKeepGood(b, tx, t.calls);
    var last := WroteAll(b, tx, t.calls);
    assert tx in last.transactions;
    if t.commits {
      CommitIsExact(last, tx);
    } else {
      RollbackIsGood(last, tx);
    }
  }

  lemma TransactionAgrees(exact: bool, st: State, t: Transaction)
    requires Running(st) && IndexesAgree(exact, st) && Orderly(exact, st, t)
    ensures IndexesAgree(exact, After(st, t))
  {
    hide Good, IndexesAgree, WroteAll, Published, Undone;
    TransactionsKeepAgreement(exact, st, t.names, t.mode, t.calls);
  }

  /** From a new database on, after any sequence of transactions, committed or rolled back, every
      index lists every record; without overwrites that change an index key it is the grouped
      records. */
  lemma {:induction false} AgreementFromTheStart(exact: bool, st: State, ts: seq<Transaction>)
    requires NewDatabase(st) && AllOrderly(exact, st, ts)
    ensures Running(AfterAll(st, ts)) && IndexesAgree(exact, AfterAll(st, ts))
  {
    if ts == [] {
      NewDatabaseAgrees(st);
      ExactAgreesListed(st);
    } else {
      hide NewDatabase, Running, IndexesAgree, After, Orderly;
      var t, last := ts[..|ts| - 1], ts[|ts| - 1];
      assert forall i :: 0 <= i < |t| ==> t[i] == ts[i] && t[..i] == ts[..i];
      AgreementFromTheStart(exact, st, t);
      ModeOfOrderly(exact, AfterAll(st, t), last);
      TransactionEnds(AfterAll(st, t), last);
      TransactionAgrees(exact, AfterAll(st, t), last);
    }
  }

  /** What a transaction leaves behind: on each store of its scope the effect of its own operations on it
      in their order, if it writes and commits, and nothing anywhere else. */
  lemma TransactionEffect(st: State, t: Transaction, name: string)
    requires Running(st) && !t.mode.OtherMode? && name in st.stores
    ensures name in After(st, t).stores
    ensures Records(After(st, t).stores[name]) ==
            if t.commits && t.mode.ReadWrite? && name in t.names
            then Records(Run(st.stores[name], st.schema[name], OperationsOn(t.calls, name)))
            else Records(st.stores[name])
  {
    hide AllTidy, Clean, Committed, RolledBack, Step, DumpOf, SameOriginals, Run, OperationsOn;
    var tx := st.nextTransaction;
    var b := Begun(st, t.names, t.mode);
    assert Good(b);
    CallsKeepGood(b, tx, t.calls);
    ScopeIsRespected(b, tx, t.calls, name);
    var last := WroteAll(b, tx, t.calls);
    if t.commits {
      CommitIsExact(last, tx);
      ViewRecords(last.stores[name]);
      ViewRecords(Published(last, tx).stores[name]);
    } else {
      RollbackIsExact(st, t.names, t.mode, t.calls);
      ViewRecords(st.stores[name]);
      ViewRecords(Undone(last, tx).stores[name]);
    }
  }

  lemma ModeOfOrderly(exact: bool, st: State, t: Transaction)
    requires Orderly(exact, st, t)
    ensures !t.mode.OtherMode?
  {
  }

  lemma ExactAgreesListed(st: State)
    requires IndexesAgree(true, st)
    ensures IndexesAgree(false, st)
  {
    hide Grouped, Listed;
  }

  // ---- Dumps -----------------------------------------------------------------------------------

  function Loaded(d: Dump): map<string, ObjectStore> {
    map n | n in d.stores :: Imported(d.stores[n])
  }

  /** A backend loaded from an exported dump has the same committed contents and exports the same
      dump again. */
  lemma ImportOfExport(st: State)
    ensures Loaded(Exported(st)) == map n | n in st.stores :: RolledBack(st.stores[n])
    ensures (map n | n in st.stores :: DumpOf(Loaded(Exported(st))[n])) == Exported(st).stores
  {
    hide DumpOf, Imported, RolledBack, ViewOf;
    forall n | n in st.stores
      ensures Imported(DumpOf(st.stores[n])) == RolledBack(st.stores[n])
      ensures DumpOf(RolledBack(st.stores[n])) == DumpOf(st.stores[n])
    {
      ImportOfDump(st.stores[n]);
      RolledBackDump(st.stores[n]);
    }
  }

  lemma RolledBackDump(s: ObjectStore)
    ensures DumpOf(RolledBack(s)) == DumpOf(s)
  {
    assert DumpOf(RolledBack(s)).indexes == DumpOf(s).indexes;
  }
}

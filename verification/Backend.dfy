// The backend object: its methods update the fields in place and do to the database what the
// specification of a transaction says.
module Backend {
  import opened Wrappers
  import opened KeyMaps
  import opened IndexData
  import opened ObjectStores
  import opened StoreRuns
  import opened Dumps
  import opened Database
  import opened IndexScan
  import opened StoreScan
  import opened Transactions

  /** The dump names the same stores twice, and its index lists are non-empty and ascending. */
  ghost predicate Importable(d: Dump) {
    && d.schema.Keys == d.stores.Keys
    && forall n :: n in d.stores ==> AllTidy(Imported(d.stores[n]).indexes)
  }

  method RollbackStore(s: ObjectStore) returns (r: ObjectStore)
    ensures r == RolledBack(s)
  {
    var indexes: map<string, Index> := map[];
    var todo := s.indexes.Keys;
    while todo != {}
      invariant todo <= s.indexes.Keys
      invariant indexes.Keys == s.indexes.Keys - todo
      invariant forall n :: n in indexes ==> indexes[n] == Index(s.indexes[n].originalData, None)
      decreases todo
    {
      var name :| name in todo;
      indexes := indexes[name := Index(s.indexes[name].originalData, None)];
      todo := todo - {name};
    }
    r := s.(modifiedData := None, modifiedKeyGenerator := None, indexes := indexes);
  }

  method CommitStore(s: ObjectStore) returns (r: ObjectStore)
    ensures r == Committed(s)
  {
    r := s.(originalData := if s.modifiedData.Some? then s.modifiedData.value else s.originalData);
    if r.modifiedKeyGenerator.Some? {
      r := r.(originalKeyGenerator := r.modifiedKeyGenerator.value);
    }
    var indexes: map<string, Index> := map[];
    var todo := s.indexes.Keys;
    while todo != {}
      invariant todo <= s.indexes.Keys
      invariant indexes.Keys == s.indexes.Keys - todo
      invariant forall n :: n in indexes ==> indexes[n] == s.indexes[n].(originalData := Data(s.indexes[n]))
      decreases todo
    {
      var name :| name in todo;
      var index := s.indexes[name];
      indexes := indexes[name := index.(originalData := Data(index))];
      todo := todo - {name};
    }
    r := r.(indexes := indexes);
  }

  method DumpStore(s: ObjectStore) returns (d: StoreDump)
    ensures d == DumpOf(s)
  {
    var indexes: map<string, seq<(Key, seq<Key>)>> := map[];
    var todo := s.indexes.Keys;
    while todo != {}
      invariant todo <= s.indexes.Keys
      invariant indexes.Keys == s.indexes.Keys - todo
      invariant forall n :: n in indexes ==> indexes[n] == Pairs(s.indexes[n].originalData)
      decreases todo
    {
      var name :| name in todo;
      var entries := ListPairs(s.indexes[name].originalData);
      indexes := indexes[name := entries];
      todo := todo - {name};
    }
    var records := ListPairs(s.originalData);
    d := StoreDump(records, s.originalKeyGenerator, indexes);
  }

  method LoadStore(d: StoreDump) returns (s: ObjectStore)
    ensures s == Imported(d)
  {
    var indexes: map<string, Index> := map[];
    var todo := d.indexes.Keys;
    while todo != {}
      invariant todo <= d.indexes.Keys
      invariant indexes.Keys == d.indexes.Keys - todo
      invariant forall n :: n in indexes ==> indexes[n] == Index(FromPairs(d.indexes[n]), None)
      decreases todo
    {
      var name :| name in todo;
      var data := BuildMap(d.indexes[name]);
      indexes := indexes[name := Index(data, None)];
      todo := todo - {name};
    }
    var data := BuildMap(d.records);
    s := ObjectStore(data, None, d.keyGenerator, None, indexes);
  }

  method RollbackStores(stores: map<string, ObjectStore>) returns (r: map<string, ObjectStore>)
    ensures r == map n | n in stores :: RolledBack(stores[n])
  {
    hide RolledBack;
    r := map[];
    var todo := stores.Keys;
    while todo != {}
      invariant todo <= stores.Keys
      invariant r.Keys == stores.Keys - todo
      invariant forall n :: n in r ==> r[n] == RolledBack(stores[n])
      decreases todo
    {
      var name :| name in todo;
      var s := RollbackStore(stores[name]);
      r := r[name := s];
      todo := todo - {name};
    }
  }

  method CommitStores(stores: map<string, ObjectStore>) returns (r: map<string, ObjectStore>)
    ensures r == map n | n in stores :: Committed(stores[n])
  {
    hide Committed;
    r := map[];
    var todo := stores.Keys;
    while todo != {}
      invariant todo <= stores.Keys
      invariant r.Keys == stores.Keys - todo
      invariant forall n :: n in r ==> r[n] == Committed(stores[n])
      decreases todo
    {
      var name :| name in todo;
      var s := CommitStore(stores[name]);
      r := r[name := s];
      todo := todo - {name};
    }
  }

  method DumpStores(stores: map<string, ObjectStore>) returns (r: map<string, StoreDump>)
    ensures r == map n | n in stores :: DumpOf(stores[n])
  {
    hide DumpOf;
    r := map[];
    var todo := stores.Keys;
    while todo != {}
      invariant todo <= stores.Keys
      invariant r.Keys == stores.Keys - todo
      invariant forall n :: n in r ==> r[n] == DumpOf(stores[n])
      decreases todo
    {
      var name :| name in todo;
      var s := DumpStore(stores[name]);
      r := r[name := s];
      todo := todo - {name};
    }
  }

  method LoadStores(stores: map<string, StoreDump>) returns (r: map<string, ObjectStore>)
    ensures r == map n | n in stores :: Imported(stores[n])
  {
    hide Imported;
    r := map[];
    var todo := stores.Keys;
    while todo != {}
      invariant todo <= stores.Keys
      invariant r.Keys == stores.Keys - todo
      invariant forall n :: n in r ==> r[n] == Imported(stores[n])
      decreases todo
    {
      var name :| name in todo;
      var s := LoadStore(stores[name]);
      r := r[name := s];
      todo := todo - {name};
    }
  }

  class MemoryBackend {
    var txLevel: TransactionLevel
    var txRestrictObjectStores: Option<set<string>>
    var stores: map<string, ObjectStore>
    var schema: map<string, IndexSchema>
    var transactions: set<nat>
    var transactionIdCounter: nat
    var connectionIdCounter: nat

    ghost function St(): State
      reads this
    {
      State(txLevel, txRestrictObjectStores, stores, schema, transactions, transactionIdCounter, connectionIdCounter)
    }

    ghost predicate Valid()
      reads this
    {
      Good(St())
    }

    /** A new backend whose database has empty object stores with the given indexes. */
    constructor (s: map<string, IndexSchema>)
      ensures Valid() && schema == s
      ensures txLevel == Disconnected && transactions == {} && transactionIdCounter == 1 && connectionIdCounter == 1
      ensures stores.Keys == s.Keys && forall n :: n in s ==>
                stores[n] == ObjectStore(map[], None, 1, None, map i | i in s[n] :: i.name := Index(map[], None))
    {
      txLevel, txRestrictObjectStores := Disconnected, None;
      stores := map n | n in s :: ObjectStore(map[], None, 1, None, map i | i in s[n] :: i.name := Index(map[], None));
      schema := s;
      transactions := {};
      transactionIdCounter, connectionIdCounter := 1, 1;
    }

    method ConnectDatabase() returns (cookie: nat)
      requires Valid() && txLevel.Disconnected?
      modifies this
      ensures Valid() && cookie == old(connectionIdCounter)
      ensures St() == old(St()).(txLevel := Connected, scope := None, nextConnection := cookie + 1)
    {
      cookie := connectionIdCounter;
      connectionIdCounter := connectionIdCounter + 1;
      txLevel, txRestrictObjectStores := Connected, None;
    }

    method BeginTransaction(names: set<string>, mode: Mode) returns (r: Result<nat, Error>)
      requires Valid() && txLevel.Connected?
      modifies this
      ensures Valid() && St() == Begun(old(St()), names, mode)
      ensures r == if mode.OtherMode? then Failure(UnsupportedMode) else Success(old(transactionIdCounter))
    {
      var cookie := transactionIdCounter;
      transactionIdCounter := transactionIdCounter + 1;
      match mode {
        case ReadOnly => txLevel := Read;
        case ReadWrite => txLevel := Write;
        case OtherMode => return Failure(UnsupportedMode);
      }
      txRestrictObjectStores := Some(names);
      transactions := transactions + {cookie};
      return Success(cookie);
    }

    method CheckCall(tx: nat, min: TransactionLevel, name: string) returns (error: Option<Error>)
      ensures error == Guard(St(), tx, min, name)
    {
      if tx !in transactions {
        return Some(UnknownConnection);
      }
      if Rank(txLevel) < Rank(min) {
        return Some(NotAllowed);
      }
      if txRestrictObjectStores.Some? && name !in txRestrictObjectStores.value {
        return Some(OutOfScope);
      }
      return None;
    }

    method StoreRecord(tx: nat, name: string, req: StoreRequest) returns (r: Result<Key, Error>)
      requires Valid()
      modifies this
      ensures Valid() && St() == Wrote(old(St()), tx, name, Put(req))
      ensures var g := Guard(old(St()), tx, Write, name);
              r == if g.Some? then Failure(g.value)
                   else if name !in old(stores) then Failure(TypeError)
                   else StoredRecord(old(stores[name]), schema[name], req).key
    {
      hide StoredRecord, Good;
      WroteKeepsGood(St(), tx, name, Put(req));
      var error := CheckCall(tx, Write, name);
      if error.Some? {
        return Failure(error.value);
      }
      SchemaIsComplete(St());
      if name !in stores {
        return Failure(TypeError);
      }
      var s: ObjectStore;
      s, r := ObjectStores.StoreRecord(stores[name], schema[name], req);
      stores := stores[name := s];
    }

    method DeleteRecord(tx: nat, name: string, range: KeyRange) returns (error: Option<Error>)
      requires Valid()
      modifies this
      ensures Valid() && St() == Wrote(old(St()), tx, name, Remove(range))
      ensures var g := Guard(old(St()), tx, Write, name);
              error == if g.Some? then g
                       else if name !in old(stores) then Some(TypeError)
                       else DeletedRange(old(stores[name]), schema[name], range).error
    {
      hide DeletedRange, Good;
      WroteKeepsGood(St(), tx, name, Remove(range));
      error := CheckCall(tx, Write, name);
      if error.Some? {
        return;
      }
      SchemaIsComplete(St());
      if name !in stores {
        return Some(TypeError);
      }
      var s: ObjectStore;
      s, error := ObjectStores.DeleteRecord(stores[name], schema[name], range);
      stores := stores[name := s];
    }

    /** A read changes nothing and depends on the readable contents only. */
    method GetRecords(tx: nat, name: string, req: GetRequest) returns (r: Result<Response, Error>)
      requires Valid() && ProperRequest(req)
      ensures var g := Guard(St(), tx, Read, name);
              r == if g.Some? then Failure(g.value)
                   else if name !in stores then Failure(StoreNotFound)
                   else Got(ViewOf(stores[name]), req)
    {
      var error := CheckCall(tx, Read, name);
      if error.Some? {
        return Failure(error.value);
      }
      if name !in stores {
        return Failure(StoreNotFound);
      }
      assert AllTidy(stores[name].indexes);
      r := ReadStore(stores[name], req);
    }

    method Rollback(tx: nat) returns (error: Option<Error>)
      requires Valid()
      modifies this
      ensures Valid()
      ensures error == if tx in old(transactions) then None else Some(UnknownConnection)
      ensures St() == if error.Some? then old(St()) else Undone(old(St()), tx)
    {
      if tx !in transactions {
        return Some(UnknownConnection);
      }
      hide Good, RolledBack;
      RollbackIsGood(St(), tx);
      txLevel, txRestrictObjectStores := Connected, None;
      stores := RollbackStores(stores);
      transactions := transactions - {tx};
      return None;
    }

    method Commit(tx: nat) returns (error: Option<Error>)
      requires Valid()
      modifies this
      ensures Valid()
      ensures error == if tx in old(transactions) then None else Some(UnknownConnection)
      ensures St() == if error.Some? then old(St()) else Published(old(St()), tx)
    {
      if tx !in transactions {
        return Some(UnknownConnection);
      }
      hide Good, Committed;
      CommitIsExact(St(), tx);
      txLevel, txRestrictObjectStores := Connected, None;
      stores := CommitStores(stores);
      transactions := transactions - {tx};
      return None;
    }

    method ExportDump() returns (d: Dump)
      requires Valid()
      ensures d == Exported(St())
    {
      var dumps := DumpStores(stores);
      d := Dump(schema, dumps);
    }

    method ImportDump(d: Dump) returns (error: Option<Error>)
      requires Valid()
      modifies this
      ensures error.Some? || Importable(d) ==> Valid()
      ensures error == if old(transactionIdCounter) != 1 || old(connectionIdCounter) != 1 then Some(ImportTooLate)
                else None
      ensures St() == if error.Some? then old(St())
                      else State(Disconnected, None, Loaded(d), d.schema, old(transactions), 1, 1)
    {
      if transactionIdCounter != 1 || connectionIdCounter != 1 {
        return Some(ImportTooLate);
      }
      hide Imported, AllTidy, Clean;
      NothingBegunYet(St());
      if Importable(d) {
        LoadedIsGood(d);
      }
      var loaded := LoadStores(d.stores);
      stores, schema := loaded, d.schema;
      txLevel, txRestrictObjectStores := Disconnected, None;
      return None;
    }
  }

  lemma NothingBegunYet(st: State)
    requires Good(st) && st.nextTransaction == 1
    ensures st.transactions == {}
  {
    assert forall t :: t !in st.transactions;
  }

  /** What a backend exports can be imported. */
  lemma ExportedIsImportable(st: State)
    requires Good(st)
    ensures Importable(Exported(st))
  {
    hide AllTidy, Imported, DumpOf, RolledBack;
    forall n | n in st.stores ensures AllTidy(Imported(DumpOf(st.stores[n])).indexes) {
      ImportOfDump(st.stores[n]);
      RolledBackIsTidy(st.stores[n]);
    }
  }

  lemma LoadedIsGood(d: Dump)
    requires Importable(d)
    ensures forall n :: n in d.stores ==> AllTidy(Loaded(d)[n].indexes) && Clean(Loaded(d)[n])
  {
  }

  lemma SchemaIsComplete(st: State)
    requires Good(st)
    ensures st.schema.Keys == st.stores.Keys
  {
  }

  method ReadStore(s: ObjectStore, req: GetRequest) returns (r: Result<Response, Error>)
    requires ProperRequest(req) && AllTidy(s.indexes)
    ensures r == Got(ViewOf(s), req)
  {
    hide FullScan, AllKeys;
    var range := if req.range.Some? then req.range.value else KeyRange(None, None, true, true);
    var storeData := if s.modifiedData.Some? then s.modifiedData.value else s.originalData;
    if req.indexName.Some? {
      var name := req.indexName.value;
      if name !in s.indexes {
        return Failure(TypeError);
      }
      var indexData := if s.indexes[name].modifiedData.Some? then s.indexes[name].modifiedData.value
          else s.indexes[name].originalData;
      assert ViewOf(s).indexes[name] == indexData;
      var scan := ScanIndex(indexData, range, req.unique, CursorOf(req), req.limit);
      if scan.Failure? {
        return Failure(scan.error);
      }
      var entries := scan.value;
      var primaryKeys := PrimaryKeysOf(entries);
      var values: seq<Value> := [];
      if req.resultLevel.Full? {
        var missing, vs := CollectValues(storeData, primaryKeys);
        if missing {
          return Failure(RecordMissing);
        }
        values := vs;
      }
      return Success(Response(|entries|,
                              if req.resultLevel.OnlyCount? then None else Some(IndexKeysOf(entries)),
                              if req.resultLevel.OnlyCount? then None else Some(primaryKeys),
                              if req.resultLevel.Full? then Some(values) else None));
    } else {
      if req.advanceIndexKey.Some? {
        return Failure(UnsupportedRequest);
      }
      var keys := ScanStore(storeData, range, req.lastObjectStorePosition, req.advancePrimaryKey, req.limit);
      StoredKeys(storeData, range, req);
      var missing, values := CollectValues(storeData, keys);
      return Success(Response(|keys|, None,
                              if req.resultLevel.OnlyCount? then None else Some(keys),
                              if req.resultLevel.Full? then Some(values) else None));
    }
  }

  method CollectValues(records: map<Key, Value>, keys: seq<Key>) returns (missing: bool, values: seq<Value>)
    ensures missing <==> exists k :: k in keys && k !in records
    ensures !missing ==> values == ValuesOf(records, keys)
  {
    missing, values := false, [];
    for i := 0 to |keys|
      invariant |values| == i
      invariant forall j :: 0 <= j < i ==> keys[j] in records && values[j] == records[keys[j]]
    {
      if keys[i] !in records {
        return true, [];
      }
      values := values + [records[keys[i]]];
    }
  }
}

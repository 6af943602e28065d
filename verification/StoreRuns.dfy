// What every run of stores and range deletes on one object store keeps: the indexes agree with the
// records. Also which records a range delete removes.
module StoreRuns {
  import opened Wrappers
  import opened KeyMaps
  import opened IndexData
  import opened ObjectStores

  /** With exact, the index is the grouped records; otherwise it at least lists every record. */
  ghost predicate Agrees(exact: bool, entries: Entries, records: map<Key, Value>, p: IndexProperties) {
    Listed(entries, records, p) && (exact ==> Grouped(entries, records, p))
  }

  ghost predicate AllAgree(exact: bool, ixs: map<string, Index>, records: map<Key, Value>, schema: IndexSchema) {
    && DistinctNames(schema) && Declared(schema, ixs)
    && forall n :: n in schema ==> Agrees(exact, Data(ixs[n.name]), records, n.props)
  }

  ghost predicate StoreAgrees(exact: bool, s: ObjectStore, schema: IndexSchema) {
    AllAgree(exact, s.indexes, Records(s), schema)
  }

  /** The value has exactly one key for every index of the schema. */
  ghost predicate Indexable(v: Value, schema: IndexSchema) {
    forall n :: n in schema ==> KeyOf(v, n.props).Some?
  }

  ghost predicate NoUnique(schema: IndexSchema) {
    forall n :: n in schema ==> !n.props.unique
  }

  ghost predicate SameIndexKeys(a: Value, b: Value, schema: IndexSchema) {
    forall n :: n in schema ==> KeyOf(a, n.props) == KeyOf(b, n.props)
  }

  // ---- One change ------------------------------------------------------------------------------

  lemma StoringKeepsAll(exact: bool, ixs: map<string, Index>, records: map<Key, Value>, schema: IndexSchema, pk: Key,
      v: Value)
    requires AllAgree(exact, ixs, records, schema) && NoUnique(schema) && Indexable(v, schema)
    requires exact && pk in records ==> SameIndexKeys(records[pk], v, schema)
    ensures var o := ChangedEverywhere(Inserting, ixs, schema, pk, v);
            o.error == None && AllAgree(exact, o.state, records[pk := v], schema)
  {
    hide Changed, Grouped, Listed, KeyOf, DistinctNames;
    forall n | n in schema
      ensures var o := Changed(Inserting, ixs[n.name], pk, v, n.props);
              o.error == None && Agrees(exact, Data(o.state), records[pk := v], n.props)
    {
      StoringKeepsListed(ixs[n.name], records, pk, v, n.props);
      if exact {
        StoringKeepsGrouped(ixs[n.name], records, pk, v, n.props);
      }
    }
    EachIndexChanges(Inserting, ixs, schema, pk, v);
  }

  lemma DeletingKeepsAll(exact: bool, ixs: map<string, Index>, records: map<Key, Value>, schema: IndexSchema, pk: Key)
    requires AllAgree(exact, ixs, records, schema) && pk in records
    ensures var o := ChangedEverywhere(Deleting, ixs, schema, pk, records[pk]);
            o.error == None && AllAgree(exact, o.state, records - {pk}, schema)
  {
    hide Changed, Grouped, Listed, KeyOf, DistinctNames;
    forall n | n in schema
      ensures var o := Changed(Deleting, ixs[n.name], pk, records[pk], n.props);
              o.error == None && Agrees(exact, Data(o.state), records - {pk}, n.props)
    {
      DeletingKeepsListed(ixs[n.name], records, pk, n.props);
      if exact {
        DeletingKeepsGrouped(ixs[n.name], records, pk, n.props);
      }
    }
    EachIndexChanges(Deleting, ixs, schema, pk, records[pk]);
  }

  // ---- Storing ---------------------------------------------------------------------------------

  ghost predicate IndexableRequest(req: StoreRequest, schema: IndexSchema) {
    && Indexable(req.value, schema)
    && forall g: int :: req.make(g).Success? ==> Indexable(req.make(g).value.value, schema)
  }

  /** If the request overwrites a record, the new value has the same index keys. */
  ghost predicate KeepsIndexKeys(s: ObjectStore, schema: IndexSchema, req: StoreRequest) {
    var c := Choose(s, req);
    c.Success? && c.value.key in Records(s) ==> SameIndexKeys(Records(s)[c.value.key], c.value.value, schema)
  }

  /** Storing keeps the agreement. An update of an existing record needs a key under which there is one,
      and gives it the new value; any other store needs a key to be made, and one that is free if nothing
      may be overwritten. A store that fails keeps all records. */
  lemma PutKeepsAgreement(exact: bool, s: ObjectStore, schema: IndexSchema, req: StoreRequest)
    requires StoreAgrees(exact, s, schema) && NoUnique(schema) && IndexableRequest(req, schema)
    requires exact ==> KeepsIndexKeys(s, schema, req)
    ensures var t := StoredRecord(s, schema, req);
            StoreAgrees(exact, t.store, schema) && (t.key.Failure? ==> Records(t.store) == Records(s))
    ensures req.level.UpdateExisting? ==>
              var t := StoredRecord(s, schema, req);
              && (t.key.Success? <==> req.key.Some? && req.key.value in Records(s))
              && (t.key.Success? ==>
                    && t.key == Success(req.key.value)
                    && Records(t.store) == Records(s)[req.key.value := req.value])
    ensures !req.level.UpdateExisting? ==>
              var t, made := StoredRecord(s, schema, req), req.make(KeyGenerator(s));
              && (t.key.Success? <==>
                    made.Success? && !(req.level.NoOverwrite? && made.value.key in Records(s)))
              && (t.key.Success? ==>
                    && t.key == Success(made.value.key)
                    && Records(t.store) == Records(s)[made.value.key := made.value.value])
  {
    hide AllAgree, ChangedEverywhere, Indexable;
    if Choose(s, req).Success? {
      StoringRequest(exact, s, schema, req);
    }
  }

  lemma StoringRequest(exact: bool, s: ObjectStore, schema: IndexSchema, req: StoreRequest)
    requires StoreAgrees(exact, s, schema) && NoUnique(schema) && IndexableRequest(req, schema)
    requires exact ==> KeepsIndexKeys(s, schema, req)
    requires Choose(s, req).Success?
    ensures var m := Choose(s, req).value;
            var o := ChangedEverywhere(Inserting, s.indexes, schema, m.key, m.value);
            o.error == None && AllAgree(exact, o.state, Records(s)[m.key := m.value], schema)
  {
    hide AllAgree, ChangedEverywhere, Indexable, SameIndexKeys, NoUnique;
    var m := Choose(s, req).value;
    StoringKeepsAll(exact, s.indexes, Records(s), schema, m.key, m.value);
  }

  /** The index finds its keys in the value, and if it is unique none of them is taken. */
  ghost predicate Accepts(index: Index, v: Value, p: IndexProperties) {
    && GetIndexKeys(v, p).Success?
    && (p.unique ==> forall k :: k in GetIndexKeys(v, p).value ==> k !in Data(index))
  }

  lemma {:induction false} TakenKeysFail(index: Index, pk: Key, keys: seq<Key>)
    ensures ChangeKeys(Inserting, Data(index), pk, true, index, keys).error == None <==>
            forall k :: k in keys ==> k !in Data(index)
  {
    if keys != [] {
      var t, last := keys[..|keys| - 1], keys[|keys| - 1];
      assert keys == t + [last];
      TakenKeysFail(index, pk, t);
      assert last in keys;
    }
  }

  lemma InsertFailsIff(index: Index, pk: Key, v: Value, p: IndexProperties)
    ensures Changed(Inserting, index, pk, v, p).error == None <==> Accepts(index, v, p)
  {
    hide ChangeKeys;
    if GetIndexKeys(v, p).Success? {
      if p.unique {
        TakenKeysFail(index, pk, GetIndexKeys(v, p).value);
      } else {
        OnlyLastNewKeyIsInserted(index, pk, GetIndexKeys(v, p).value);
      }
    }
  }

  lemma {:induction false} IndexedMeansAllAccept(ixs: map<string, Index>, schema: IndexSchema, pk: Key, v: Value)
    requires DistinctNames(schema) && Declared(schema, ixs)
    requires ChangedEverywhere(Inserting, ixs, schema, pk, v).error == None
    ensures forall n :: n in schema ==> Accepts(ixs[n.name], v, n.props)
  {
    hide Accepts, Changed;
    if schema != [] {
      var t, x := schema[..|schema| - 1], schema[|schema| - 1];
      assert schema == t + [x];
      LastNameIsNew(schema);
      IndexedMeansAllAccept(ixs, t, pk, v);
      assert x in schema;
      ChangeKeepsNames(Inserting, ixs, t, pk, v, x.name);
      InsertFailsIff(ixs[x.name], pk, v, x.props);
    }
  }

  /** A value that some index does not accept, for want of a key or because a unique key is taken,
      makes the store fail, but only after the record has been written: the failed call is not undone. */
  lemma RefusedRecordIsStoredAnyway(s: ObjectStore, schema: IndexSchema, req: StoreRequest)
    requires DistinctNames(schema) && Declared(schema, s.indexes)
    requires Choose(s, req).Success? && !(req.level.NoOverwrite? && Choose(s, req).value.key in Records(s))
    ensures var t, m := StoredRecord(s, schema, req), Choose(s, req).value;
            && Records(t.store) == Records(s)[m.key := m.value]
            && (t.key.Success? <==> forall n :: n in schema ==> Accepts(s.indexes[n.name], m.value, n.props))
  {
    hide Accepts, Changed, ChangedEverywhere, Choose, DistinctNames;
    var m := Choose(s, req).value;
    if forall n :: n in schema ==> Accepts(s.indexes[n.name], m.value, n.props) {
      forall n | n in schema ensures Changed(Inserting, s.indexes[n.name], m.key, m.value, n.props).error == None {
        InsertFailsIff(s.indexes[n.name], m.key, m.value, n.props);
      }
      EachIndexChanges(Inserting, s.indexes, schema, m.key, m.value);
    }
    if ChangedEverywhere(Inserting, s.indexes, schema, m.key, m.value).error == None {
      IndexedMeansAllAccept(s.indexes, schema, m.key, m.value);
    }
  }

  /** The first index that does not accept the value. */
  ghost predicate FirstRefusal(ixs: map<string, Index>, schema: IndexSchema, v: Value, i: nat) {
    && i < |schema| && schema[i].name in ixs && !Accepts(ixs[schema[i].name], v, schema[i].props)
    && forall j :: 0 <= j < i ==> schema[j].name in ixs && Accepts(ixs[schema[j].name], v, schema[j].props)
  }

  lemma {:induction false} TakenKeysError(index: Index, pk: Key, unique: bool, keys: seq<Key>)
    ensures ChangeKeys(Inserting, Data(index), pk, unique, index, keys).error in {None, Some(ConstraintError)}
  {
    if keys != [] {
      TakenKeysError(index, pk, unique, keys[..|keys| - 1]);
    }
  }

  /** The error of a store is that of the first index that refuses the value: no key found, or a
      unique key taken. */
  lemma {:induction false} FirstRefusalIsReported(ixs: map<string, Index>, schema: IndexSchema, pk: Key, v: Value,
      i: nat)
    requires DistinctNames(schema) && FirstRefusal(ixs, schema, v, i)
    ensures ChangedEverywhere(Inserting, ixs, schema, pk, v).error ==
            Some(if GetIndexKeys(v, schema[i].props).Failure? then DataError else ConstraintError)
    decreases |schema|
  {
    var t, x := schema[..|schema| - 1], schema[|schema| - 1];
    LastNameIsNew(schema);
    if i < |t| {
      assert t[i] == schema[i];
      FirstRefusalIsReported(ixs, t, pk, v, i);
    } else {
      forall n | n in t ensures Changed(Inserting, ixs[n.name], pk, v, n.props).error == None {
        InsertFailsIff(ixs[n.name], pk, v, n.props);
      }
      EachIndexChanges(Inserting, ixs, t, pk, v);
      ChangeKeepsNames(Inserting, ixs, t, pk, v, x.name);
      InsertFailsIff(ixs[x.name], pk, v, x.props);
      if GetIndexKeys(v, x.props).Success? {
        TakenKeysError(ixs[x.name], pk, x.props.unique, GetIndexKeys(v, x.props).value);
      }
    }
  }

  /** Updating an existing record gives it the new value, whether or not an index then refuses the value.
      The other records and the key generator stay; without a key or such a record nothing changes. */
  lemma UpdateGivesNewValue(s: ObjectStore, schema: IndexSchema, req: StoreRequest)
    requires DistinctNames(schema) && Declared(schema, s.indexes) && req.level.UpdateExisting?
    ensures var t := StoredRecord(s, schema, req);
            && t.store.originalData == s.originalData
            && t.store.originalKeyGenerator == s.originalKeyGenerator
            && t.store.modifiedKeyGenerator == s.modifiedKeyGenerator
            && if req.key.Some? && req.key.value in Records(s) then
                 && Records(t.store) == Records(s)[req.key.value := req.value]
                 && (t.key.Success? ==> t.key.value == req.key.value)
                 && (t.key.Success? <==> forall n :: n in schema ==> Accepts(s.indexes[n.name], req.value, n.props))
               else
                 && t.key == Failure(if req.key.None? then KeyNotGiven else NoSuchRecord)
                 && Records(t.store) == Records(s) && t.store.indexes == s.indexes
  {
    hide Accepts, ChangedEverywhere, DistinctNames;
    if req.key.Some? && req.key.value in Records(s) {
      RefusedRecordIsStoredAnyway(s, schema, req);
    }
  }

  /** Any other store writes the key, value and generator made from the generator in force, which is
      the modified one unless that is absent or zero. A key that may not be overwritten is refused, with
      the generator set all the same. */
  lemma MadeRecordIsStored(s: ObjectStore, schema: IndexSchema, req: StoreRequest, generator: int)
    requires DistinctNames(schema) && Declared(schema, s.indexes) && !req.level.UpdateExisting?
    requires if s.modifiedKeyGenerator in {None, Some(0)} then generator == s.originalKeyGenerator
             else s.modifiedKeyGenerator == Some(generator)
    ensures var t := StoredRecord(s, schema, req);
            && t.store.originalData == s.originalData
            && t.store.originalKeyGenerator == s.originalKeyGenerator
            && match req.make(generator)
               case Failure(e) =>
                 && t.key == Failure(e) && Records(t.store) == Records(s) && t.store.indexes == s.indexes
                 && t.store.modifiedKeyGenerator == s.modifiedKeyGenerator
               case Success(m) =>
                 && t.store.modifiedKeyGenerator == Some(m.updatedKeyGenerator)
                 && if req.level.NoOverwrite? && m.key in Records(s) then
                      && t.key == Failure(RefusingToOverwrite)
                      && Records(t.store) == Records(s) && t.store.indexes == s.indexes
                    else
                      && Records(t.store) == Records(s)[m.key := m.value]
                      && (t.key.Success? ==> t.key.value == m.key)
                      && (t.key.Success? <==> forall n :: n in schema ==> Accepts(s.indexes[n.name], m.value, n.props))
  {
    hide Accepts, ChangedEverywhere, DistinctNames;
    if req.make(generator).Success? && !(req.level.NoOverwrite? && req.make(generator).value.key in Records(s)) {
      RefusedRecordIsStoredAnyway(s, schema, req);
    }
  }

  // ---- Deleting --------------------------------------------------------------------------------

  /** The delete loop that starts on key from removes key k. */
  ghost predicate Sweeps(range: KeyRange, keys: set<Key>, from: Key, k: Key) {
    && from <= k
    && (range.upper.Some? ==>
          if range.upperOpen then !(range.upper.value in keys && from <= range.upper.value <= k)
          else k <= range.upper.value)
  }

  lemma SweepStep(range: KeyRange, keys: set<Key>, from: Key, k: Key)
    requires from in keys && k in keys && !StopsAt(range, from)
    ensures var next := NextHigherKey(keys - {from}, from);
            Sweeps(range, keys, from, k) <==> k == from || (next.Some? && Sweeps(range, keys - {from}, next.value, k))
  {
    var next := NextHigherKey(keys - {from}, from);
    if k != from {
      assert k in keys - {from};
    }
    if range.upper.Some? && range.upper.value != from {
      assert range.upper.value in keys <==> range.upper.value in keys - {from};
    }
  }

  lemma {:induction false} DeleteLoop(exact: bool, d: Deletion, schema: IndexSchema, range: KeyRange, cur: Option<Key>)
    requires AllAgree(exact, d.indexes, d.records, schema)
    requires cur.Some? ==> cur.value in d.records
    ensures var o := DeletedFrom(d, schema, range, cur);
            && o.error == None
            && AllAgree(exact, o.state.indexes, o.state.records, schema)
            && (forall k :: k in o.state.records <==>
                            k in d.records && !(cur.Some? && Sweeps(range, d.records.Keys, cur.value, k)))
            && (forall k :: k in o.state.records ==> o.state.records[k] == d.records[k])
    decreases |d.records|
  {
    hide AllAgree, ChangedEverywhere, Sweeps;
    if cur.Some? && !StopsAt(range, cur.value) {
      var c := cur.value;
      var o := ChangedEverywhere(Deleting, d.indexes, schema, c, d.records[c]);
      DeletingKeepsAll(exact, d.indexes, d.records, schema, c);
      var rest := d.records - {c};
      assert rest.Keys == d.records.Keys - {c};
      DeleteLoop(exact, Deletion(rest, o.state), schema, range, NextHigherKey(rest.Keys, c));
      forall k | k in d.records
        ensures Sweeps(range, d.records.Keys, c, k) <==>
                k == c || (NextHigherKey(rest.Keys, c).Some? && Sweeps(range, rest.Keys,
                    NextHigherKey(rest.Keys, c).value, k))
      {
        SweepStep(range, d.records.Keys, c, k);
      }
    } else if cur.Some? {
      forall k ensures !Sweeps(range, d.records.Keys, cur.value, k) {
        StoppedSweepsNothing(range, d.records.Keys, cur.value, k);
      }
    }
  }

  lemma StoppedSweepsNothing(range: KeyRange, keys: set<Key>, from: Key, k: Key)
    requires from in keys && StopsAt(range, from)
    ensures !Sweeps(range, keys, from, k)
  {
  }

  /** An open upper bound that no reached record sits on does not stop the loop: it goes on to
      delete the records above it. */
  ghost predicate Overruns(range: KeyRange, keys: set<Key>) {
    && range.upper.Some? && range.upperOpen
    && !(range.upper.value in keys && AboveLower(range, range.upper.value))
    && exists k :: k in keys && AboveLower(range, k) && range.upper.value < k
  }

  lemma FirstKeyIsLeast(keys: set<Key>, range: KeyRange)
    ensures var f := FirstKey(keys, range);
            && (f.Failure? <==> range.lower.Some? && range.lowerOpen && keys != {} && forall k :: k in keys ==>
                  !AboveLower(range, k))
            && (f.Success? && f.value.Some? ==>
                  f.value.value in keys && forall k :: k in keys ==> (AboveLower(range, k) <==> f.value.value <= k))
            && (f.Success? && f.value.None? ==> forall k :: k in keys ==> !AboveLower(range, k))
            && (f.Failure? ==> f.error == TypeError)
  {
  }

  lemma SweptAreInRange(keys: set<Key>, range: KeyRange, k: Key)
    requires FirstKey(keys, range).Success? && k in keys
    requires !Overruns(range, keys)
    ensures FirstKey(keys, range).value.Some? && Sweeps(range, keys, FirstKey(keys, range).value.value, k) <==>
              Includes(range, k)
  {
    FirstKeyIsLeast(keys, range);
  }

  lemma OverrunSweepsMore(keys: set<Key>, range: KeyRange) returns (k: Key)
    requires FirstKey(keys, range).Success? && Overruns(range, keys)
    ensures k in keys && !Includes(range, k)
    ensures FirstKey(keys, range).value.Some? && Sweeps(range, keys, FirstKey(keys, range).value.value, k)
  {
    FirstKeyIsLeast(keys, range);
    k :| k in keys && AboveLower(range, k) && range.upper.value < k;
  }

  /** A range delete on a store whose indexes list its records never finds an index entry missing;
      it throws only when nothing lies above an open lower bound. It removes exactly the records in
      the range if and only if it does not overrun an open upper bound. */
  lemma DeleteRangeIsExact(exact: bool, s: ObjectStore, schema: IndexSchema, range: KeyRange)
    requires StoreAgrees(exact, s, schema)
    ensures var o := DeletedRange(s, schema, range);
            && StoreAgrees(exact, o.state, schema)
            && o.error == (if range.lower.Some? && range.lowerOpen && Records(s) != map[]
                              && forall k :: k in Records(s) ==> !AboveLower(range, k)
                           then Some(TypeError) else None)
            && (Records(o.state) == (map k | k in Records(s) && !Includes(range, k) :: Records(s)[k])
                <==> !Overruns(range, Records(s).Keys))
  {
    hide AllAgree, DeletedFrom, FirstKey, Overruns, Sweeps;
    var records := Records(s);
    var keys := records.Keys;
    FirstKeyIsLeast(keys, range);
    EmptyRecords(records);
    var outside := map k | k in records && !Includes(range, k) :: records[k];
    var o := DeletedRange(s, schema, range);
    var f := FirstKey(keys, range);
    if f.Failure? {
      NothingToOverrun(keys, range);
      SameRecords(records, outside);
    } else {
      DeleteLoop(exact, Deletion(records, s.indexes), schema, range, f.value);
      if !Overruns(range, keys) {
        forall k | k in keys
          ensures f.value.Some? && Sweeps(range, keys, f.value.value, k) <==> Includes(range, k)
        {
          SweptAreInRange(keys, range, k);
        }
        SameRecords(Records(o.state), outside);
      } else {
        var k := OverrunSweepsMore(keys, range);
        assert k !in Records(o.state) && k in outside;
      }
    }
  }

  lemma EmptyRecords(records: map<Key, Value>)
    ensures records == map[] <==> records.Keys == {}
  {
    if records.Keys == {} {
      assert records == map[];
    }
  }

  lemma NothingToOverrun(keys: set<Key>, range: KeyRange)
    requires forall k :: k in keys ==> !AboveLower(range, k)
    ensures !Overruns(range, keys)
  {
  }

  lemma SameRecords(a: map<Key, Value>, b: map<Key, Value>)
    requires forall k :: k in a ==> k in b && a[k] == b[k]
    requires forall k :: k in b ==> k in a
    ensures a == b
  {
  }

  // ---- Where agreement starts ------------------------------------------------------------------

  /** Every record has the index's one key, and in a unique index no two have the same. */
  ghost predicate AllIndexable(records: map<Key, Value>, p: IndexProperties) {
    && (forall k :: k in records ==> KeyOf(records[k], p).Some?)
    && (p.unique ==> forall j, k :: j in records && k in records && KeyOf(records[j], p) == KeyOf(records[k], p) ==>
          j == k)
  }

  /** Keys are not extracted one by one from an array of key paths. */
  predicate SingleKeyed(p: IndexProperties) {
    !(p.multiEntry && p.keyPath.Paths?)
  }

  /** A new index over existing records succeeds exactly if they can all be indexed; it then is the
      grouped records. */
  method PopulateIndex(records: map<Key, Value>, p: IndexProperties) returns (index: Index, error: Option<Error>)
    ensures SingleKeyed(p) ==> (error == None <==> AllIndexable(records, p))
    ensures SingleKeyed(p) && error == None ==> Grouped(Data(index), records, p)
  {
    index, error := Index(map[], None), None;
    var pos := MinKey(records.Keys);
    ghost var done: map<Key, Value> := map[];
    hide Changed, KeyOf, Grouped;
    assert Grouped(Data(index), done, p) by { NothingGrouped(p); }
    while pos.Some?
      invariant pos.Some? ==> pos.value in records
      invariant error == None
      invariant forall k :: k in done <==> k in records && (pos.Some? ==> k < pos.value)
      invariant forall k :: k in done ==> done[k] == records[k]
      invariant SingleKeyed(p) ==> Grouped(Data(index), done, p) && AllIndexable(done, p)
      decreases if pos.Some? then |Above(records.Keys, pos.value)| + 1 else 0
    {
      var k := pos.value;
      if SingleKeyed(p) {
        NextIndexable(index, done, k, records[k], p);
        SubsetIndexable(done[k := records[k]], records, p);
      }
      index, error := InsertIntoIndex(index, k, records[k], p);
      if error.Some? {
        return;
      }
      done := done[k := records[k]];
      pos := NextHigherKey(records.Keys, k);
      if pos.Some? {
        FewerAbove(records.Keys, k);
      }
    }
    SameRecords(done, records);
  }

  lemma NothingGrouped(p: IndexProperties)
    ensures Grouped(map[], map[], p)
  {
  }

  lemma SubsetIndexable(part: map<Key, Value>, records: map<Key, Value>, p: IndexProperties)
    requires forall k :: k in part ==> k in records && part[k] == records[k]
    ensures AllIndexable(records, p) ==> AllIndexable(part, p)
  {
    hide KeyOf;
  }

  lemma OneMoreIndexable(records: map<Key, Value>, pk: Key, v: Value, p: IndexProperties)
    requires AllIndexable(records, p) && pk !in records
    ensures AllIndexable(records[pk := v], p) <==>
            KeyOf(v, p).Some? && (p.unique ==> forall k :: k in records ==> KeyOf(records[k], p) != KeyOf(v, p))
  {
    hide KeyOf;
    var more := records[pk := v];
    assert more[pk] == v;
    forall k | k in records ensures k in more && more[k] == records[k] && k != pk {
    }
    if AllIndexable(more, p) && p.unique {
      forall k | k in records ensures KeyOf(records[k], p) != KeyOf(v, p) {
        assert KeyOf(more[k], p) == KeyOf(more[pk], p) ==> k == pk;
      }
    }
  }

  /** Inserting one more record fails exactly if the records can then no longer all be indexed. */
  lemma NextIndexable(index: Index, records: map<Key, Value>, pk: Key, v: Value, p: IndexProperties)
    requires SingleKeyed(p) && Grouped(Data(index), records, p) && AllIndexable(records, p) && pk !in records
    ensures var o := Changed(Inserting, index, pk, v, p);
            && (o.error == None <==> AllIndexable(records[pk := v], p))
            && (o.error == None ==> Grouped(Data(o.state), records[pk := v], p))
  {
    assert KeyOf(v, p).None? <==> GetIndexKeys(v, p).Failure?;
    assert KeyOf(v, p).None? ==> Changed(Inserting, index, pk, v, p).error.Some?;
    OneMoreIndexable(records, pk, v, p);
    hide Changed, KeyOf, Grouped, AllIndexable;
    if KeyOf(v, p).Some? {
      if p.unique {
        UniqueRefusesExactlyTakenKeys(index, records, pk, v, p);
      }
      if !p.unique || forall k :: k in records ==> KeyOf(records[k], p) != KeyOf(v, p) {
        StoringFreeKeyKeepsGrouped(index, records, pk, v, p);
      }
    }
  }

  /** An object store without records agrees with its empty indexes. */
  lemma EmptyStoreAgrees(s: ObjectStore, schema: IndexSchema)
    requires DistinctNames(schema) && Declared(schema, s.indexes) && Records(s) == map[]
    requires forall n :: n in schema ==> Data(s.indexes[n.name]) == map[]
    ensures StoreAgrees(true, s, schema)
  {
  }

  // ---- Runs ------------------------------------------------------------------------------------

  datatype Operation = Put(req: StoreRequest) | Remove(range: KeyRange)

  function Step(s: ObjectStore, schema: IndexSchema, op: Operation): ObjectStore {
    match op
    case Put(req) => StoredRecord(s, schema, req).store
    case Remove(range) => DeletedRange(s, schema, range).state
  }

  function Run(s: ObjectStore, schema: IndexSchema, ops: seq<Operation>): ObjectStore {
    if ops == [] then s else Step(Run(s, schema, ops[..|ops| - 1]), schema, ops[|ops| - 1])
  }

  ghost predicate Fits(op: Operation, schema: IndexSchema) {
    op.Put? ==> IndexableRequest(op.req, schema)
  }

  /** No store of the run changes the index keys of a record it overwrites. */
  ghost predicate Stable(s: ObjectStore, schema: IndexSchema, ops: seq<Operation>) {
    forall i :: 0 <= i < |ops| && ops[i].Put? ==> KeepsIndexKeys(Run(s, schema, ops[..i]), schema, ops[i].req)
  }

  lemma StepKeepsAgreement(exact: bool, s: ObjectStore, schema: IndexSchema, op: Operation)
    requires StoreAgrees(exact, s, schema) && NoUnique(schema) && Fits(op, schema)
    requires exact && op.Put? ==> KeepsIndexKeys(s, schema, op.req)
    ensures StoreAgrees(exact, Step(s, schema, op), schema)
  {
    match op {
      case Put(req) => PutKeepsAgreement(exact, s, schema, req);
      case Remove(range) => DeleteRangeIsExact(exact, s, schema, range);
    }
  }

  /** After any sequence of stores and range deletes, failed ones included, every record is listed
      under its current key in every index; and if overwrites keep the index keys, every index is
      exactly the records grouped by index key. */
  lemma {:induction false} RunsKeepAgreement(exact: bool, s: ObjectStore, schema: IndexSchema, ops: seq<Operation>)
    requires StoreAgrees(exact, s, schema) && NoUnique(schema)
    requires forall op :: op in ops ==> Fits(op, schema)
    requires exact ==> Stable(s, schema, ops)
    ensures StoreAgrees(exact, Run(s, schema, ops), schema)
  {
    hide StoreAgrees, NoUnique, Fits, Step;
    if ops != [] {
      var t, op := ops[..|ops| - 1], ops[|ops| - 1];
      assert forall i :: 0 <= i < |t| ==> t[i] == ops[i] && t[..i] == ops[..i];
      RunsKeepAgreement(exact, s, schema, t);
      assert op in ops;
      StepKeepsAgreement(exact, Run(s, schema, t), schema, op);
    }
  }
}

// Object stores of the in-memory IndexedDB backend: storing one record, deleting a range of
// records, and the agreement of the indexes with the records over every run of the two.
module ObjectStores {
  import opened Wrappers
  import opened KeyMaps
  import opened IndexData

  datatype NamedIndex = NamedIndex(name: string, props: IndexProperties)

  type IndexSchema = seq<NamedIndex>

  datatype ObjectStore = ObjectStore(
    originalData: map<Key, Value>,
    modifiedData: Option<map<Key, Value>>,
    originalKeyGenerator: int,
    modifiedKeyGenerator: Option<int>,
    indexes: map<string, Index>)

  function Records(s: ObjectStore): map<Key, Value> {
    if s.modifiedData.Some? then s.modifiedData.value else s.originalData
  }

  /** A number of 0 counts as absent where the source chooses between the two generators. */
  function KeyGenerator(s: ObjectStore): int {
    if s.modifiedKeyGenerator.Some? && s.modifiedKeyGenerator.value != 0
    then s.modifiedKeyGenerator.value else s.originalKeyGenerator
  }

  // ---- A change of every index of a store ------------------------------------------------------

  function ChangedEverywhere(c: Change, ixs: map<string, Index>, schema: IndexSchema, pk: Key,
      v: Value): Outcome<map<string, Index>>
  {
    if schema == [] then Outcome(ixs, None)
    else
      var o := ChangedEverywhere(c, ixs, schema[..|schema| - 1], pk, v);
      var n := schema[|schema| - 1];
      if o.error.Some? then o
      else if n.name !in o.state then Outcome(o.state, Some(IndexMissing))
      else
        var i := Changed(c, o.state[n.name], pk, v, n.props);
        Outcome(o.state[n.name := i.state], i.error)
  }

  lemma {:induction false} EverywhereStopsAtError(c: Change, ixs: map<string, Index>, schema: IndexSchema, pk: Key,
      v: Value, n: nat)
    requires n <= |schema|
    ensures ChangedEverywhere(c, ixs, schema[..n], pk, v).error.Some? ==>
              ChangedEverywhere(c, ixs, schema, pk, v) == ChangedEverywhere(c, ixs, schema[..n], pk, v)
    decreases |schema|
  {
    if n == |schema| {
      assert schema[..n] == schema;
    } else {
      assert schema[..|schema| - 1][..n] == schema[..n];
      EverywhereStopsAtError(c, ixs, schema[..|schema| - 1], pk, v, n);
    }
  }

  method ChangeIndexes(c: Change, indexes: map<string, Index>, schema: IndexSchema, pk: Key, v: Value)
    returns (r: map<string, Index>, error: Option<Error>)
    ensures Outcome(r, error) == ChangedEverywhere(c, indexes, schema, pk, v)
  {
    r, error := indexes, None;
    for i := 0 to |schema|
      invariant error == None
      invariant Outcome(r, error) == ChangedEverywhere(c, indexes, schema[..i], pk, v)
    {
      assert schema[..i + 1][..i] == schema[..i];
      EverywhereStopsAtError(c, indexes, schema, pk, v, i + 1);
      var n := schema[i];
      if n.name !in r {
        return r, Some(IndexMissing);
      }
      var index: Index;
      match c {
        case Inserting => index, error := InsertIntoIndex(r[n.name], pk, v, n.props);
        case Deleting => index, error := DeleteFromIndex(r[n.name], pk, v, n.props);
      }
      r := r[n.name := index];
      if error.Some? {
        return;
      }
    }
    assert schema[..|schema|] == schema;
  }

  ghost predicate DistinctNames(schema: IndexSchema) {
    forall i, j :: 0 <= i < j < |schema| ==> schema[i].name != schema[j].name
  }

  ghost predicate Declared(schema: IndexSchema, ixs: map<string, Index>) {
    forall n :: n in schema ==> n.name in ixs
  }

  lemma {:induction false} ChangeKeepsNames(c: Change, ixs: map<string, Index>, schema: IndexSchema, pk: Key, v: Value,
      other: string)
    ensures ChangedEverywhere(c, ixs, schema, pk, v).state.Keys == ixs.Keys
    ensures (forall n :: n in schema ==> n.name != other) && other in ixs ==>
              ChangedEverywhere(c, ixs, schema, pk, v).state[other] == ixs[other]
  {
    hide Changed;
    if schema != [] {
      var t, x := schema[..|schema| - 1], schema[|schema| - 1];
      assert schema == t + [x];
      ChangeKeepsNames(c, ixs, t, pk, v, other);
      assert x in schema;
    }
  }

  lemma LastNameIsNew(schema: IndexSchema)
    requires DistinctNames(schema) && schema != []
    ensures DistinctNames(schema[..|schema| - 1])
    ensures forall n :: n in schema[..|schema| - 1] ==> n in schema && n.name != schema[|schema| - 1].name
  {
  }

  /** When each index accepts the change, each of them is changed. */
  lemma {:induction false} EachIndexChanges(c: Change, ixs: map<string, Index>, schema: IndexSchema, pk: Key, v: Value)
    requires DistinctNames(schema) && Declared(schema, ixs)
    requires forall n :: n in schema ==> Changed(c, ixs[n.name], pk, v, n.props).error == None
    ensures var o := ChangedEverywhere(c, ixs, schema, pk, v);
            && o.error == None
            && o.state.Keys == ixs.Keys
            && (forall n :: n in schema ==> o.state[n.name] == Changed(c, ixs[n.name], pk, v, n.props).state)
  {
    hide Changed, DistinctNames;
    if schema != [] {
      var t, x := schema[..|schema| - 1], schema[|schema| - 1];
      assert schema == t + [x];
      LastNameIsNew(schema);
      EachIndexChanges(c, ixs, t, pk, v);
      ChangeKeepsNames(c, ixs, t, pk, v, x.name);
      assert x in schema;
    }
  }

  // ---- Storing a record ------------------------------------------------------------------------

  datatype StoreLevel = NoOverwrite | AllowOverwrite | UpdateExisting

  datatype StoreKeyResult = StoreKeyResult(updatedKeyGenerator: int, key: Key, value: Value)

  /** make says which key and value the request amounts to for a given key generator. */
  datatype StoreRequest = StoreRequest(
    level: StoreLevel, key: Option<Key>, value: Value, make: int -> Result<StoreKeyResult, Error>)

  datatype Stored = Stored(store: ObjectStore, key: Result<Key, Error>)

  function StartWriting(s: ObjectStore): ObjectStore {
    if s.modifiedData.None? then s.(modifiedData := Some(s.originalData)) else s
  }

  function Choose(s: ObjectStore, req: StoreRequest): Result<StoreKeyResult, Error> {
    if req.level.UpdateExisting? then
      if req.key.None? then Failure(KeyNotGiven)
      else if req.key.value !in Records(s) then Failure(NoSuchRecord)
      else Success(StoreKeyResult(KeyGenerator(s), req.key.value, req.value))
    else req.make(KeyGenerator(s))
  }

  function StoredRecord(s: ObjectStore, schema: IndexSchema, req: StoreRequest): Stored {
    var w := StartWriting(s);
    match Choose(s, req)
    case Failure(e) => Stored(w, Failure(e))
    case Success(m) =>
      var g := if req.level.UpdateExisting? then w else w.(modifiedKeyGenerator := Some(m.updatedKeyGenerator));
      if req.level.NoOverwrite? && m.key in Records(s) then Stored(g, Failure(RefusingToOverwrite))
      else
        var o := ChangedEverywhere(Inserting, s.indexes, schema, m.key, m.value);
        Stored(g.(modifiedData := Some(Records(s)[m.key := m.value]), indexes := o.state),
               if o.error.Some? then Failure(o.error.value) else Success(m.key))
  }

  method StoreRecord(store: ObjectStore, schema: IndexSchema, req: StoreRequest)
    returns (s: ObjectStore, result: Result<Key, Error>)
    ensures Stored(s, result) == StoredRecord(store, schema, req)
  {
    s := store;
    if s.modifiedData.None? {
      s := s.(modifiedData := Some(s.originalData));
    }
    var modifiedData := s.modifiedData.value;
    var key: Key, value: Value;
    if req.level.UpdateExisting? {
      if req.key.None? {
        return s, Failure(KeyNotGiven);
      }
      if req.key.value !in modifiedData {
        return s, Failure(NoSuchRecord);
      }
      key, value := req.key.value, req.value;
    } else {
      var keygen := if s.modifiedKeyGenerator.Some? && s.modifiedKeyGenerator.value != 0
                    then s.modifiedKeyGenerator.value else s.originalKeyGenerator;
      match req.make(keygen) {
        case Failure(e) => return s, Failure(e);
        case Success(m) =>
          key, value := m.key, m.value;
          s := s.(modifiedKeyGenerator := Some(m.updatedKeyGenerator));
      }
      if key in modifiedData && !req.level.AllowOverwrite? {
        return s, Failure(RefusingToOverwrite);
      }
    }
    s := s.(modifiedData := Some(modifiedData[key := value]));
    var indexes, error := ChangeIndexes(Inserting, s.indexes, schema, key, value);
    s := s.(indexes := indexes);
    result := if error.Some? then Failure(error.value) else Success(key);
  }

  // ---- Deleting a range ------------------------------------------------------------------------

  datatype KeyRange = KeyRange(lower: Option<Key>, upper: Option<Key>, lowerOpen: bool, upperOpen: bool)

  predicate AboveLower(range: KeyRange, k: Key) {
    range.lower.Some? ==> range.lower.value < k || (range.lower.value == k && !range.lowerOpen)
  }

  predicate BelowUpper(range: KeyRange, k: Key) {
    range.upper.Some? ==> k < range.upper.value || (k == range.upper.value && !range.upperOpen)
  }

  predicate Includes(range: KeyRange, k: Key) {
    AboveLower(range, k) && BelowUpper(range, k)
  }

  /** The loop stops at an open upper bound only when it stands on the bound itself. */
  predicate StopsAt(range: KeyRange, k: Key) {
    range.upper.Some? && if range.upperOpen then k == range.upper.value else k > range.upper.value
  }

  /** The first key to delete; looking up an undefined key fails unless the store is empty. */
  function FirstKey(keys: set<Key>, range: KeyRange): Result<Option<Key>, Error> {
    var k := if range.lower.None? then MinKey(keys)
             else if range.lowerOpen then NextHigherKey(keys, range.lower.value)
             else range.lower;
    if k.None? then (if keys == {} then Success(None) else Failure(TypeError))
    else if k.value in keys then Success(k)
    else Success(NextHigherKey(keys, k.value))
  }

  datatype Deletion = Deletion(records: map<Key, Value>, indexes: map<string, Index>)

  function DeletedFrom(d: Deletion, schema: IndexSchema, range: KeyRange, cur: Option<Key>): Outcome<Deletion>
    decreases |d.records|
  {
    if cur.None? || StopsAt(range, cur.value) then Outcome(d, None)
    else if cur.value !in d.records then Outcome(d, Some(RecordMissing))
    else
      var k := cur.value;
      var o := ChangedEverywhere(Deleting, d.indexes, schema, k, d.records[k]);
      if o.error.Some? then Outcome(d.(indexes := o.state), o.error)
      else DeletedFrom(Deletion(d.records - {k}, o.state), schema, range, NextHigherKey((d.records - {k}).Keys, k))
  }

  function DeletedRange(s: ObjectStore, schema: IndexSchema, range: KeyRange): Outcome<ObjectStore> {
    var w := StartWriting(s);
    match FirstKey(Records(s).Keys, range)
    case Failure(e) => Outcome(w, Some(e))
    case Success(first) =>
      var o := DeletedFrom(Deletion(Records(s), s.indexes), schema, range, first);
      var t := w.(indexes := o.state.indexes);
      Outcome(if o.error.Some? then t else t.(modifiedData := Some(o.state.records)), o.error)
  }

  method DeleteRecord(store: ObjectStore, schema: IndexSchema, range: KeyRange)
    returns (s: ObjectStore, error: Option<Error>)
    ensures Outcome(s, error) == DeletedRange(store, schema, range)
  {
    s, error := store, None;
    if s.modifiedData.None? {
      s := s.(modifiedData := Some(s.originalData));
    }
    var modifiedData := s.modifiedData.value;
    var currKey: Option<Key>;
    if range.lower.None? {
      currKey := MinKey(modifiedData.Keys);
    } else {
      currKey := range.lower;
      if range.lowerOpen {
        currKey := NextHigherKey(modifiedData.Keys, currKey.value);
      }
    }
    if currKey.None? {
      if modifiedData.Keys != {} {
        return s, Some(TypeError);
      }
    } else if currKey.value !in modifiedData {
      currKey := NextHigherKey(modifiedData.Keys, currKey.value);
    }
    while currKey.Some? && !StopsAt(range, currKey.value)
      invariant DeletedFrom(Deletion(modifiedData, s.indexes), schema, range, currKey)
             == DeletedFrom(Deletion(Records(store), store.indexes), schema, range,
                 FirstKey(Records(store).Keys, range).value)
      invariant s == StartWriting(store).(indexes := s.indexes)
      invariant FirstKey(Records(store).Keys, range).Success?
      decreases |modifiedData|
    {
      if currKey.value !in modifiedData {
        return s, Some(RecordMissing);
      }
      var indexes, e := ChangeIndexes(Deleting, s.indexes, schema, currKey.value, modifiedData[currKey.value]);
      s := s.(indexes := indexes);
      if e.Some? {
        return s, e;
      }
      modifiedData := modifiedData - {currKey.value};
      currKey := NextHigherKey(modifiedData.Keys, currKey.value);
    }
    s := s.(modifiedData := Some(modifiedData));
  }
}

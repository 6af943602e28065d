// Transactions over the object stores of one database: what a rollback restores, what a commit
// publishes, and what a dump holds.
module Database {
  import opened Wrappers
  import opened KeyMaps
  import opened IndexData
  import opened ObjectStores
  import opened StoreRuns
  import opened Dumps

  // ---- One store -------------------------------------------------------------------------------

  function RolledBack(s: ObjectStore): ObjectStore {
    ObjectStore(s.originalData, None, s.originalKeyGenerator, None,
                map n | n in s.indexes :: Index(s.indexes[n].originalData, None))
  }

  function Committed(s: ObjectStore): ObjectStore {
    s.(originalData := Records(s),
       originalKeyGenerator := if s.modifiedKeyGenerator.Some? then s.modifiedKeyGenerator.value
           else s.originalKeyGenerator,
       indexes := map n | n in s.indexes :: s.indexes[n].(originalData := Data(s.indexes[n])))
  }

  function DumpOf(s: ObjectStore): StoreDump {
    StoreDump(Pairs(s.originalData), s.originalKeyGenerator, map n | n in s.indexes :: Pairs(s.indexes[n].originalData))
  }

  function Imported(d: StoreDump): ObjectStore {
    ObjectStore(FromPairs(d.records), None, d.keyGenerator, None,
                map n | n in d.indexes :: Index(FromPairs(d.indexes[n]), None))
  }

  /** All that reads and writes of a store depend on. */
  datatype View = View(records: map<Key, Value>, keyGenerator: int, indexes: map<string, Entries>)

  function ViewOf(s: ObjectStore): View {
    View(Records(s), KeyGenerator(s), map n | n in s.indexes :: Data(s.indexes[n]))
  }

  /** Between transactions a modified part, if there is one, is what was committed last. */
  ghost predicate Clean(s: ObjectStore) {
    && Records(s) == s.originalData
    && (s.modifiedKeyGenerator.Some? ==> s.modifiedKeyGenerator.value == s.originalKeyGenerator)
    && forall n :: n in s.indexes ==> Data(s.indexes[n]) == s.indexes[n].originalData
  }

  /** The committed parts of two stores are the same. */
  ghost predicate SameOriginals(s: ObjectStore, t: ObjectStore) {
    && s.originalData == t.originalData && s.originalKeyGenerator == t.originalKeyGenerator
    && s.indexes.Keys == t.indexes.Keys
    && forall n :: n in s.indexes ==> s.indexes[n].originalData == t.indexes[n].originalData
  }

  ghost predicate SameIndexOriginals(a: map<string, Index>, b: map<string, Index>) {
    a.Keys == b.Keys && forall n :: n in a ==> a[n].originalData == b[n].originalData
  }

  lemma {:induction false} ChangesKeepOriginals(c: Change, ixs: map<string, Index>, schema: IndexSchema, pk: Key,
      v: Value)
    ensures SameIndexOriginals(ixs, ChangedEverywhere(c, ixs, schema, pk, v).state)
  {
    hide Changed;
    if schema != [] {
      var n := schema[|schema| - 1];
      var o := ChangedEverywhere(c, ixs, schema[..|schema| - 1], pk, v);
      ChangesKeepOriginals(c, ixs, schema[..|schema| - 1], pk, v);
      if n.name in o.state {
        ChangedKeepsOriginal(c, o.state[n.name], pk, v, n.props);
      }
    }
  }

  lemma ChangedKeepsOriginal(c: Change, index: Index, pk: Key, v: Value, p: IndexProperties)
    ensures Changed(c, index, pk, v, p).state.originalData == index.originalData
  {
    match GetIndexKeys(v, p) {
      case Failure(_) =>
      case Success(keys) => OriginalIsKept(c, Data(index), pk, p.unique, index, keys);
    }
  }

  lemma {:induction false} DeletesKeepOriginals(d: Deletion, schema: IndexSchema, range: KeyRange, cur: Option<Key>)
    ensures SameIndexOriginals(d.indexes, DeletedFrom(d, schema, range, cur).state.indexes)
    decreases |d.records|
  {
    hide ChangedEverywhere, StopsAt;
    if cur.Some? && !StopsAt(range, cur.value) && cur.value in d.records {
      var k := cur.value;
      var o := ChangedEverywhere(Deleting, d.indexes, schema, k, d.records[k]);
      ChangesKeepOriginals(Deleting, d.indexes, schema, k, d.records[k]);
      DeletesKeepOriginals(Deletion(d.records - {k}, o.state), schema, range, NextHigherKey((d.records - {k}).Keys, k));
    }
  }

  /** No store or delete, failed or not, touches what was committed. */
  lemma StepKeepsOriginals(s: ObjectStore, schema: IndexSchema, op: Operation)
    ensures SameOriginals(s, Step(s, schema, op))
  {
    hide ChangedEverywhere, DeletedFrom;
    match op {
      case Put(req) =>
        var c := Choose(s, req);
        if c.Success? {
          ChangesKeepOriginals(Inserting, s.indexes, schema, c.value.key, c.value.value);
        }
      case Remove(range) =>
        var f := FirstKey(Records(s).Keys, range);
        if f.Success? {
          DeletesKeepOriginals(Deletion(Records(s), s.indexes), schema, range, f.value);
        }
    }
  }

  /** Rolling back restores all that could be read before, since the committed parts are the same. */
  lemma RollbackRestoresView(s: ObjectStore, t: ObjectStore)
    requires Clean(s) && SameOriginals(s, t)
    ensures ViewOf(RolledBack(t)) == ViewOf(s)
    ensures DumpOf(RolledBack(t)) == DumpOf(s)
    ensures Clean(RolledBack(t))
  {
    assert ViewOf(RolledBack(t)).indexes == ViewOf(s).indexes;
    assert DumpOf(RolledBack(t)).indexes == DumpOf(s).indexes;
  }

  /** t, dumped as d, makes the modified contents of s the committed ones: they are all that can be
      read, and the dump is exactly they. A key generator of zero was not in effect before. */
  ghost predicate Publishes(s: ObjectStore, t: ObjectStore, d: StoreDump) {
    var v := ViewOf(s);
    var generatorJumps := s.modifiedKeyGenerator == Some(0) && s.originalKeyGenerator != 0;
    && ViewOf(t).records == v.records == Records(s) && ViewOf(t).indexes == v.indexes
    && (ViewOf(t) == v <==> !generatorJumps)
    && d.records == Pairs(v.records) && d.indexes == (map n | n in v.indexes :: Pairs(v.indexes[n]))
    && (d.keyGenerator == v.keyGenerator <==> !generatorJumps)
  }

  lemma CommitPublishesView(s: ObjectStore)
    ensures Publishes(s, Committed(s), DumpOf(Committed(s)))
    ensures Clean(Committed(s))
  {
    assert ViewOf(Committed(s)).indexes == ViewOf(s).indexes;
    assert DumpOf(Committed(s)).indexes == (map n | n in ViewOf(s).indexes :: Pairs(ViewOf(s).indexes[n]));
  }

  /** Importing a dump of a store gives a store with the same committed contents and nothing else. */
  lemma ImportOfDump(s: ObjectStore)
    ensures Imported(DumpOf(s)) == RolledBack(s)
  {
    FromPairsOfPairs(s.originalData);
    forall n | n in s.indexes ensures FromPairs(Pairs(s.indexes[n].originalData)) == s.indexes[n].originalData {
      FromPairsOfPairs(s.indexes[n].originalData);
    }
    assert Imported(DumpOf(s)).indexes == RolledBack(s).indexes;
  }

  /** Dumping an imported dump gives it back exactly when its lists ascend. */
  lemma DumpOfImportIff(d: StoreDump)
    ensures DumpOf(Imported(d)) == d <==>
            AscendingPairs(d.records) && forall n :: n in d.indexes ==> AscendingPairs(d.indexes[n])
  {
    PairsOfFromPairsIff(d.records);
    var e := DumpOf(Imported(d));
    forall n | n in d.indexes ensures e.indexes[n] == d.indexes[n] <==> AscendingPairs(d.indexes[n]) {
      PairsOfFromPairsIff(d.indexes[n]);
    }
    assert e.indexes == d.indexes <==> forall n :: n in d.indexes ==> e.indexes[n] == d.indexes[n];
  }

  // ---- The index lists stay ascending ----------------------------------------------------------

  ghost predicate AllTidy(ixs: map<string, Index>) {
    forall n :: n in ixs ==> Tidy(ixs[n].originalData) && Tidy(Data(ixs[n]))
  }

  lemma ChangedKeepsTidy(c: Change, index: Index, pk: Key, v: Value, p: IndexProperties)
    requires Tidy(Data(index))
    ensures Tidy(Data(Changed(c, index, pk, v, p).state))
  {
    match GetIndexKeys(v, p) {
      case Failure(_) =>
      case Success(keys) => ChangeKeepsTidy(c, Data(index), pk, p.unique, index, keys);
    }
  }

  lemma {:induction false} ChangesKeepTidy(c: Change, ixs: map<string, Index>, schema: IndexSchema, pk: Key, v: Value)
    requires AllTidy(ixs)
    ensures AllTidy(ChangedEverywhere(c, ixs, schema, pk, v).state)
  {
    hide Changed, Tidy, Data;
    if schema != [] {
      var n := schema[|schema| - 1];
      var o := ChangedEverywhere(c, ixs, schema[..|schema| - 1], pk, v);
      ChangesKeepTidy(c, ixs, schema[..|schema| - 1], pk, v);
      if n.name in o.state {
        ChangedKeepsTidy(c, o.state[n.name], pk, v, n.props);
        ChangedKeepsOriginal(c, o.state[n.name], pk, v, n.props);
      }
    }
  }

  lemma {:induction false} DeletesKeepTidy(d: Deletion, schema: IndexSchema, range: KeyRange, cur: Option<Key>)
    requires AllTidy(d.indexes)
    ensures AllTidy(DeletedFrom(d, schema, range, cur).state.indexes)
    decreases |d.records|
  {
    hide ChangedEverywhere, StopsAt, AllTidy;
    if cur.Some? && !StopsAt(range, cur.value) && cur.value in d.records {
      var k := cur.value;
      var o := ChangedEverywhere(Deleting, d.indexes, schema, k, d.records[k]);
      ChangesKeepTidy(Deleting, d.indexes, schema, k, d.records[k]);
      DeletesKeepTidy(Deletion(d.records - {k}, o.state), schema, range, NextHigherKey((d.records - {k}).Keys, k));
    }
  }

  lemma StepKeepsTidy(s: ObjectStore, schema: IndexSchema, op: Operation)
    requires AllTidy(s.indexes)
    ensures AllTidy(Step(s, schema, op).indexes)
  {
    hide ChangedEverywhere, DeletedFrom, AllTidy;
    match op {
      case Put(req) =>
        var c := Choose(s, req);
        if c.Success? {
          ChangesKeepTidy(Inserting, s.indexes, schema, c.value.key, c.value.value);
        }
      case Remove(range) =>
        var f := FirstKey(Records(s).Keys, range);
        if f.Success? {
          DeletesKeepTidy(Deletion(Records(s), s.indexes), schema, range, f.value);
        }
    }
  }
}

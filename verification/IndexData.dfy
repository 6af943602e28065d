// Secondary indexes of the in-memory IndexedDB backend: the map from an index key to the ascending
// list of primary keys of the records that have that key.
module IndexData {
  import opened Wrappers
  import opened KeyMaps

  datatype Error =
    | UnknownConnection | NotAllowed | OutOfScope | StoreNotFound | UnsupportedMode
    | KeyNotGiven | NoSuchRecord | RefusingToOverwrite | DataError | ConstraintError
    | IndexMissing | IndexEntryMissing | RecordMissing | TypeError | ImportTooLate | UnsupportedRequest

  /** The state an operation leaves behind, also when it throws half-way. */
  datatype Outcome<+T> = Outcome(state: T, error: Option<Error>)

  datatype KeyPath = Path(name: string) | Paths(names: seq<string>)

  /** A record's value; keyAt holds the key found under each path at which a valid key is found. */
  datatype Value = Value(keyAt: map<KeyPath, Key>, content: int)

  datatype IndexProperties = IndexProperties(keyPath: KeyPath, multiEntry: bool, unique: bool)

  type Entries = map<Key, seq<Key>>

  datatype Index = Index(originalData: Entries, modifiedData: Option<Entries>)

  function Data(index: Index): Entries {
    if index.modifiedData.Some? then index.modifiedData.value else index.originalData
  }

  function SubKeys(names: seq<string>, v: Value): seq<Key> {
    if names == [] then []
    else
      var p := Path(names[|names| - 1]);
      SubKeys(names[..|names| - 1], v) + if p in v.keyAt then [v.keyAt[p]] else []
  }

  function GetIndexKeys(v: Value, p: IndexProperties): Result<seq<Key>, Error> {
    if p.multiEntry && p.keyPath.Paths? then Success(SubKeys(p.keyPath.names, v))
    else if p.keyPath in v.keyAt then Success([v.keyAt[p.keyPath]])
    else Failure(DataError)
  }

  /** A multi-entry index over several paths takes the keys found under any of them; every other index
      needs a key under its path, and takes just that. */
  lemma IndexKeysFound(v: Value, p: IndexProperties, k: Key)
    ensures p.multiEntry && p.keyPath.Paths? ==>
              && GetIndexKeys(v, p).Success?
              && (k in GetIndexKeys(v, p).value <==>
                    exists n :: n in p.keyPath.names && Path(n) in v.keyAt && v.keyAt[Path(n)] == k)
    ensures !(p.multiEntry && p.keyPath.Paths?) ==>
              if p.keyPath in v.keyAt then GetIndexKeys(v, p) == Success([v.keyAt[p.keyPath]])
              else GetIndexKeys(v, p) == Failure(DataError)
  {
    if p.keyPath.Paths? {
      SubKeysFound(p.keyPath.names, v, k);
    }
  }

  lemma {:induction false} SubKeysFound(names: seq<string>, v: Value, k: Key)
    ensures k in SubKeys(names, v) <==> exists n :: n in names && Path(n) in v.keyAt && v.keyAt[Path(n)] == k
  {
    if names != [] {
      var t, last := names[..|names| - 1], names[|names| - 1];
      assert names == t + [last];
      SubKeysFound(t, v, k);
      assert last in names;
    }
  }

  // ---- One insertion and one removal -----------------------------------------------------------

  /** Listing primary key pk under ik, as the next content of an index whose content was base. */
  function InsertKey(base: Entries, pk: Key, unique: bool, index: Index, ik: Key): Outcome<Index> {
    if ik !in base then Outcome(index.(modifiedData := Some(base[ik := [pk]])), None)
    else if unique then Outcome(index, Some(ConstraintError))
    else if pk in base[ik] then Outcome(index, None)
    else Outcome(index.(modifiedData := Some(base[ik := SortKeys(base[ik] + [pk])])), None)
  }

  function DeleteKey(base: Entries, pk: Key, index: Index, ik: Key): Outcome<Index> {
    if ik !in base then Outcome(index, Some(IndexEntryMissing))
    else
      var rest := WithoutKey(base[ik], pk);
      Outcome(index.(modifiedData := Some(if rest == [] then base - {ik} else base[ik := rest])), None)
  }

  datatype Change = Inserting | Deleting

  /** The index after the first keys of a record were inserted or deleted. Every step starts from
      the content the index had before the first of them. */
  function ChangeKeys(c: Change, base: Entries, pk: Key, unique: bool, index: Index, keys: seq<Key>): Outcome<Index>
  {
    if keys == [] then Outcome(index, None)
    else
      var o := ChangeKeys(c, base, pk, unique, index, keys[..|keys| - 1]);
      if o.error.Some? then o
      else match c
        case Inserting => InsertKey(base, pk, unique, o.state, keys[|keys| - 1])
        case Deleting => DeleteKey(base, pk, o.state, keys[|keys| - 1])
  }

  function Changed(c: Change, index: Index, pk: Key, v: Value, p: IndexProperties): Outcome<Index> {
    match GetIndexKeys(v, p)
    case Failure(e) => Outcome(index, Some(e))
    case Success(keys) => ChangeKeys(c, Data(index), pk, p.unique, index, keys)
  }

  lemma {:induction false} ChangeStopsAtError(c: Change, base: Entries, pk: Key, unique: bool, index: Index,
      keys: seq<Key>, n: nat)
    requires n <= |keys|
    ensures ChangeKeys(c, base, pk, unique, index, keys[..n]).error.Some? ==>
              ChangeKeys(c, base, pk, unique, index, keys) == ChangeKeys(c, base, pk, unique, index, keys[..n])
    decreases |keys|
  {
    if n == |keys| {
      assert keys[..n] == keys;
    } else {
      assert keys[..|keys| - 1][..n] == keys[..n];
      ChangeStopsAtError(c, base, pk, unique, index, keys[..|keys| - 1], n);
    }
  }

  method InsertIntoIndex(index: Index, pk: Key, v: Value, p: IndexProperties) returns (r: Index, error: Option<Error>)
    ensures Outcome(r, error) == Changed(Inserting, index, pk, v, p)
  {
    r, error := index, None;
    var indexData := Data(index);
    match GetIndexKeys(v, p) {
      case Failure(e) => return index, Some(e);
      case Success(indexKeys) =>
        for i := 0 to |indexKeys|
          invariant error == None
          invariant Outcome(r, error) == ChangeKeys(Inserting, indexData, pk, p.unique, index, indexKeys[..i])
        {
          var indexKey := indexKeys[i];
          assert indexKeys[..i + 1][..i] == indexKeys[..i];
          ChangeStopsAtError(Inserting, indexData, pk, p.unique, index, indexKeys, i + 1);
          if indexKey in indexData {
            var existing := indexData[indexKey];
            if p.unique {
              return r, Some(ConstraintError);
            } else if pk !in existing {
              r := r.(modifiedData := Some(indexData[indexKey := SortKeys(existing + [pk])]));
            }
          } else {
            r := r.(modifiedData := Some(indexData[indexKey := [pk]]));
          }
        }
        assert indexKeys[..|indexKeys|] == indexKeys;
    }
  }

  method DeleteFromIndex(index: Index, pk: Key, v: Value, p: IndexProperties) returns (r: Index, error: Option<Error>)
    ensures Outcome(r, error) == Changed(Deleting, index, pk, v, p)
  {
    r, error := index, None;
    var indexData := Data(index);
    match GetIndexKeys(v, p) {
      case Failure(e) => return index, Some(e);
      case Success(indexKeys) =>
        for i := 0 to |indexKeys|
          invariant error == None
          invariant Outcome(r, error) == ChangeKeys(Deleting, indexData, pk, p.unique, index, indexKeys[..i])
        {
          var indexKey := indexKeys[i];
          assert indexKeys[..i + 1][..i] == indexKeys[..i];
          ChangeStopsAtError(Deleting, indexData, pk, p.unique, index, indexKeys, i + 1);
          if indexKey !in indexData {
            return r, Some(IndexEntryMissing);
          }
          var newPrimaryKeys := WithoutKey(indexData[indexKey], pk);
          if newPrimaryKeys == [] {
            r := r.(modifiedData := Some(indexData - {indexKey}));
          } else {
            r := r.(modifiedData := Some(indexData[indexKey := newPrimaryKeys]));
          }
        }
        assert indexKeys[..|indexKeys|] == indexKeys;
    }
  }

  lemma {:induction false} OriginalIsKept(c: Change, base: Entries, pk: Key, unique: bool, index: Index, keys: seq<Key>)
    ensures ChangeKeys(c, base, pk, unique, index, keys).state.originalData == index.originalData
  {
    if keys != [] {
      OriginalIsKept(c, base, pk, unique, index, keys[..|keys| - 1]);
    }
  }

  // ---- Agreement with the records --------------------------------------------------------------

  /** The one index key of a value, if it has exactly one. */
  function KeyOf(v: Value, p: IndexProperties): Option<Key> {
    match GetIndexKeys(v, p)
    case Failure(_) => None
    case Success(keys) => if |keys| == 1 then Some(keys[0]) else None
  }

  ghost predicate At(entries: Entries, ik: Key, pk: Key) {
    ik in entries && pk in entries[ik]
  }

  /** Every record is listed under its current index key. */
  ghost predicate Listed(entries: Entries, records: map<Key, Value>, p: IndexProperties) {
    forall pk :: pk in records ==> KeyOf(records[pk], p).Some? && At(entries, KeyOf(records[pk], p).value, pk)
  }

  ghost predicate Tidy(entries: Entries) {
    forall ik :: ik in entries ==> entries[ik] != [] && Ascending(entries[ik])
  }

  ghost predicate OnlyRecords(entries: Entries, records: map<Key, Value>, p: IndexProperties) {
    forall ik: Key, pk: Key :: At(entries, ik, pk) ==> pk in records && KeyOf(records[pk], p) == Some(ik)
  }

  /** The index is the records grouped by index key, each group in ascending order. */
  ghost predicate Grouped(entries: Entries, records: map<Key, Value>, p: IndexProperties) {
    Listed(entries, records, p) && Tidy(entries) && OnlyRecords(entries, records, p)
  }

  /** There is only one such index, so Grouped says what the index contains. */
  lemma GroupedIsUnique(a: Entries, b: Entries, records: map<Key, Value>, p: IndexProperties)
    requires Grouped(a, records, p) && Grouped(b, records, p)
    ensures a == b
  {
    SameGroups(a, b, records, p);
    SameGroups(b, a, records, p);
    SameMap(a, b);
  }

  lemma SameMap<K, V>(a: map<K, V>, b: map<K, V>)
    requires forall k :: k in a ==> k in b && a[k] == b[k]
    requires forall k :: k in b ==> k in a
    ensures a == b
  {
  }

  lemma SameGroups(a: Entries, b: Entries, records: map<Key, Value>, p: IndexProperties)
    requires Grouped(a, records, p) && Grouped(b, records, p)
    ensures forall ik :: ik in a ==> ik in b && a[ik] == b[ik]
  {
    forall ik | ik in a ensures ik in b && a[ik] == b[ik] {
      var first := a[ik][0];
      assert At(a, ik, first);
      assert At(b, ik, first);
      forall pk ensures pk in a[ik] <==> pk in b[ik] {
        assert At(a, ik, pk) <==> pk in a[ik];
        assert At(b, ik, pk) <==> pk in b[ik];
      }
      AscendingIsUnique(a[ik], b[ik]);
    }
  }

  lemma SingleKeyChange(c: Change, index: Index, pk: Key, v: Value, p: IndexProperties)
    requires KeyOf(v, p).Some?
    ensures Changed(c, index, pk, v, p) ==
            match c
            case Inserting => InsertKey(Data(index), pk, p.unique, index, KeyOf(v, p).value)
            case Deleting => DeleteKey(Data(index), pk, index, KeyOf(v, p).value)
  {
    var keys := GetIndexKeys(v, p).value;
    assert keys[..0] == [];
    assert ChangeKeys(c, Data(index), pk, p.unique, index, keys[..0]) == Outcome(index, None);
  }

  /** What inserting one key into an index without uniqueness does to the listing. */
  lemma InsertAt(index: Index, pk: Key, ik: Key)
    ensures InsertKey(Data(index), pk, false, index, ik).error == None
    ensures forall j, k :: At(Data(InsertKey(Data(index), pk, false, index, ik).state), j, k) <==>
                           At(Data(index), j, k) || (j == ik && k == pk)
    ensures Tidy(Data(index)) ==> Tidy(Data(InsertKey(Data(index), pk, false, index, ik).state))
  {
    var d := Data(index);
    var e := Data(InsertKey(d, pk, false, index, ik).state);
    if ik in d && pk !in d[ik] {
      forall k ensures k in e[ik] <==> k in d[ik] || k == pk {
        SortMembers(d[ik] + [pk], k);
      }
      if Tidy(d) {
        SortAppended(d[ik], pk);
        assert pk in e[ik];
      }
    }
    forall j, k ensures At(e, j, k) <==> At(d, j, k) || (j == ik && k == pk) {
    }
  }

  lemma DeleteAt(index: Index, pk: Key, ik: Key)
    requires ik in Data(index)
    ensures DeleteKey(Data(index), pk, index, ik).error == None
    ensures forall j, k :: At(Data(DeleteKey(Data(index), pk, index, ik).state), j, k) <==>
                           At(Data(index), j, k) && !(j == ik && k == pk)
    ensures Tidy(Data(index)) ==> Tidy(Data(DeleteKey(Data(index), pk, index, ik).state))
  {
    var d := Data(index);
    var e := Data(DeleteKey(d, pk, index, ik).state);
    forall k ensures k in WithoutKey(d[ik], pk) <==> k in d[ik] && k != pk {
      WithoutKeyMembers(d[ik], pk, k);
    }
    if Tidy(d) {
      WithoutKeyAscending(d[ik], pk);
    }
    forall j, k ensures At(e, j, k) <==> At(d, j, k) && !(j == ik && k == pk) {
      if j == ik && WithoutKey(d[ik], pk) == [] {
        assert k !in WithoutKey(d[ik], pk);
      }
    }
  }

  /** Storing a record keeps every record listed under its current key, whatever it replaces. */
  lemma StoringKeepsListed(index: Index, records: map<Key, Value>, pk: Key, v: Value, p: IndexProperties)
    requires Listed(Data(index), records, p)
    requires KeyOf(v, p).Some? && !p.unique
    ensures var o := Changed(Inserting, index, pk, v, p);
            o.error == None && Listed(Data(o.state), records[pk := v], p)
  {
    SingleKeyChange(Inserting, index, pk, v, p);
    InsertAt(index, pk, KeyOf(v, p).value);
  }

  /** Storing keeps the index equal to the grouped records if an overwritten record had the same
      index key. */
  lemma StoringKeepsGrouped(index: Index, records: map<Key, Value>, pk: Key, v: Value, p: IndexProperties)
    requires Grouped(Data(index), records, p)
    requires KeyOf(v, p).Some? && !p.unique
    requires pk in records ==> KeyOf(records[pk], p) == KeyOf(v, p)
    ensures var o := Changed(Inserting, index, pk, v, p);
            o.error == None && Grouped(Data(o.state), records[pk := v], p)
  {
    SingleKeyChange(Inserting, index, pk, v, p);
    InsertAt(index, pk, KeyOf(v, p).value);
  }

  /** A value whose key no record of a unique index has is inserted like into any other index. */
  lemma StoringFreeKeyKeepsGrouped(index: Index, records: map<Key, Value>, pk: Key, v: Value, p: IndexProperties)
    requires Grouped(Data(index), records, p) && pk !in records
    requires KeyOf(v, p).Some?
    requires p.unique ==> forall k :: k in records ==> KeyOf(records[k], p) != KeyOf(v, p)
    ensures var o := Changed(Inserting, index, pk, v, p);
            o.error == None && Grouped(Data(o.state), records[pk := v], p)
  {
    var ik := KeyOf(v, p).value;
    SingleKeyChange(Inserting, index, pk, v, p);
    InsertAt(index, pk, ik);
    if ik in Data(index) {
      assert At(Data(index), ik, Data(index)[ik][0]);
    }
  }

  /** An overwrite that changes the index key leaves the old entry behind: the index no longer
      lists only what is stored. */
  lemma StaleEntryStays(index: Index, records: map<Key, Value>, pk: Key, v: Value, p: IndexProperties)
    requires Grouped(Data(index), records, p)
    requires KeyOf(v, p).Some? && !p.unique
    requires pk in records && KeyOf(records[pk], p) != KeyOf(v, p)
    ensures !OnlyRecords(Data(Changed(Inserting, index, pk, v, p).state), records[pk := v], p)
  {
    SingleKeyChange(Inserting, index, pk, v, p);
    InsertAt(index, pk, KeyOf(v, p).value);
    var stale := KeyOf(records[pk], p).value;
    assert At(Data(index), stale, pk);
    assert At(Data(Changed(Inserting, index, pk, v, p).state), stale, pk);
  }

  /** So an overwrite keeps the index grouped if and only if it keeps the record's index key. */
  lemma OverwriteKeepsGroupedIff(index: Index, records: map<Key, Value>, pk: Key, v: Value, p: IndexProperties)
    requires Grouped(Data(index), records, p) && pk in records
    requires KeyOf(v, p).Some? && !p.unique
    ensures Grouped(Data(Changed(Inserting, index, pk, v, p).state), records[pk := v], p) <==>
            KeyOf(records[pk], p) == KeyOf(v, p)
  {
    if KeyOf(records[pk], p) == KeyOf(v, p) {
      StoringKeepsGrouped(index, records, pk, v, p);
    } else {
      StaleEntryStays(index, records, pk, v, p);
    }
  }

  lemma DeletingKeepsListed(index: Index, records: map<Key, Value>, pk: Key, p: IndexProperties)
    requires Listed(Data(index), records, p) && pk in records
    ensures var o := Changed(Deleting, index, pk, records[pk], p);
            o.error == None && Listed(Data(o.state), records - {pk}, p)
  {
    var ik := KeyOf(records[pk], p).value;
    assert At(Data(index), ik, pk);
    SingleKeyChange(Deleting, index, pk, records[pk], p);
    DeleteAt(index, pk, ik);
  }

  lemma DeletingKeepsGrouped(index: Index, records: map<Key, Value>, pk: Key, p: IndexProperties)
    requires Grouped(Data(index), records, p) && pk in records
    ensures var o := Changed(Deleting, index, pk, records[pk], p);
            o.error == None && Grouped(Data(o.state), records - {pk}, p)
  {
    var ik := KeyOf(records[pk], p).value;
    assert At(Data(index), ik, pk);
    SingleKeyChange(Deleting, index, pk, records[pk], p);
    DeleteAt(index, pk, ik);
  }

  lemma {:induction false} SortMembers(s: seq<Key>, k: Key)
    ensures k in SortKeys(s) <==> k in s
  {
    if s != [] {
      SortMembers(s[..|s| - 1], k);
      PlaceMembers(SortKeys(s[..|s| - 1]), s[|s| - 1], k);
      assert s == s[..|s| - 1] + [s[|s| - 1]];
    }
  }

  /** Every change, also one that fails half-way, keeps the lists non-empty and ascending. */
  lemma {:induction false} ChangeKeepsTidy(c: Change, base: Entries, pk: Key, unique: bool, index: Index,
      keys: seq<Key>)
    requires Tidy(base) && Tidy(Data(index))
    ensures Tidy(Data(ChangeKeys(c, base, pk, unique, index, keys).state))
  {
    hide Tidy;
    if keys != [] {
      var ik := keys[|keys| - 1];
      ChangeKeepsTidy(c, base, pk, unique, index, keys[..|keys| - 1]);
      TidyInsert(base, pk, ik);
      if ik in base {
        TidyDelete(base, pk, ik);
      }
    }
  }

  lemma TidyInsert(base: Entries, pk: Key, ik: Key)
    requires Tidy(base)
    ensures Tidy(base[ik := [pk]])
    ensures ik in base && pk !in base[ik] ==> Tidy(base[ik := SortKeys(base[ik] + [pk])])
  {
    if ik in base && pk !in base[ik] {
      SortAppended(base[ik], pk);
      assert pk in SortKeys(base[ik] + [pk]);
    }
  }

  lemma TidyDelete(base: Entries, pk: Key, ik: Key)
    requires Tidy(base) && ik in base
    ensures Tidy(base - {ik})
    ensures WithoutKey(base[ik], pk) != [] ==> Tidy(base[ik := WithoutKey(base[ik], pk)])
  {
    WithoutKeyAscending(base[ik], pk);
  }

  // ---- Unique and multi-entry indexes ----------------------------------------------------------

  /** A unique index over its grouped records refuses a value exactly when some stored record has
      its key - also when that is the very record being stored again. */
  lemma UniqueRefusesExactlyTakenKeys(index: Index, records: map<Key, Value>, pk: Key, v: Value, p: IndexProperties)
    requires Grouped(Data(index), records, p)
    requires KeyOf(v, p).Some? && p.unique
    ensures Changed(Inserting, index, pk, v, p).error ==
            if exists k :: k in records && KeyOf(records[k], p) == KeyOf(v, p) then Some(ConstraintError) else None
  {
    var ik := KeyOf(v, p).value;
    SingleKeyChange(Inserting, index, pk, v, p);
    if ik in Data(index) {
      var k := Data(index)[ik][0];
      assert At(Data(index), ik, k);
      assert k in records && KeyOf(records[k], p) == KeyOf(v, p);
    }
    if k :| k in records && KeyOf(records[k], p) == KeyOf(v, p) {
      assert At(Data(index), ik, k);
    }
  }

  /** The last of the keys under which pk is not listed in base. */
  function LastNew(base: Entries, pk: Key, keys: seq<Key>): (r: Option<Key>)
    ensures r.None? ==> forall k :: k in keys ==> At(base, k, pk)
    ensures r.Some? ==> r.value in keys && !At(base, r.value, pk)
  {
    if keys == [] then None
    else
      var last := keys[|keys| - 1];
      assert keys == keys[..|keys| - 1] + [last];
      assert last in keys;
      if last in base && pk in base[last] then LastNew(base, pk, keys[..|keys| - 1]) else Some(last)
  }

  /** Of several keys only the last new one reaches the index, since each step starts from the
      content before the insertion. */
  lemma {:induction false} OnlyLastNewKeyIsInserted(index: Index, pk: Key, keys: seq<Key>)
    ensures ChangeKeys(Inserting, Data(index), pk, false, index, keys).error == None
    ensures var e := Data(ChangeKeys(Inserting, Data(index), pk, false, index, keys).state);
            var n := LastNew(Data(index), pk, keys);
            e == if n.Some? then Data(InsertKey(Data(index), pk, false, index, n.value).state) else Data(index)
  {
    if keys != [] {
      OnlyLastNewKeyIsInserted(index, pk, keys[..|keys| - 1]);
    }
  }

  /** So a multi-entry index lists a stored record under all its keys exactly when at most one of
      them was new. */
  lemma MultiEntryListsAllIff(index: Index, pk: Key, v: Value, p: IndexProperties)
    requires p.multiEntry && p.keyPath.Paths? && !p.unique
    ensures var keys := SubKeys(p.keyPath.names, v);
            (forall k :: k in keys ==> At(Data(Changed(Inserting, index, pk, v, p).state), k, pk)) <==>
            (forall a, b :: a in keys && b in keys && !At(Data(index), a, pk) && !At(Data(index), b, pk) ==> a == b)
  {
    var keys := SubKeys(p.keyPath.names, v);
    OnlyLastNewKeyIsInserted(index, pk, keys);
    var n := LastNew(Data(index), pk, keys);
    if n.Some? {
      InsertAt(index, pk, n.value);
    }
  }

  lemma {:induction false} OnlyLastKeyIsDeleted(index: Index, pk: Key, unique: bool, keys: seq<Key>)
    requires keys != [] && forall k :: k in keys ==> k in Data(index)
    ensures ChangeKeys(Deleting, Data(index), pk, unique, index, keys).error == None
    ensures Data(ChangeKeys(Deleting, Data(index), pk, unique, index, keys).state)
              == Data(DeleteKey(Data(index), pk, index, keys[|keys| - 1]).state)
  {
    var t, last := keys[..|keys| - 1], keys[|keys| - 1];
    assert keys == t + [last];
    if t != [] {
      OnlyLastKeyIsDeleted(index, pk, unique, t);
    } else {
      assert ChangeKeys(Deleting, Data(index), pk, unique, index, t) == Outcome(index, None);
    }
    assert last in keys;
  }

  /** Likewise deleting a record takes it off the list of its last key only: a multi-entry index is rid of
      it exactly when all its keys are the same. */
  lemma MultiEntryForgetsIff(index: Index, pk: Key, v: Value, p: IndexProperties)
    requires p.multiEntry && p.keyPath.Paths?
    requires forall k :: k in SubKeys(p.keyPath.names, v) ==> At(Data(index), k, pk)
    ensures var keys, o := SubKeys(p.keyPath.names, v), Changed(Deleting, index, pk, v, p);
            && o.error == None
            && ((forall k :: k in keys ==> !At(Data(o.state), k, pk)) <==>
                forall a, b :: a in keys && b in keys ==> a == b)
  {
    var keys := SubKeys(p.keyPath.names, v);
    if keys != [] {
      assert keys[|keys| - 1] in keys;
      OnlyLastKeyIsDeleted(index, pk, p.unique, keys);
      DeleteAt(index, pk, keys[|keys| - 1]);
    }
  }
}

// The forward scan of an object store by primary key, in one call or page by page.
module StoreScan {
  import opened Wrappers
  import opened KeyMaps
  import opened IndexData
  import opened ObjectStores

  /** The keys a scan still has to give that stands on pos. */
  function LeftKeys(keys: set<Key>, range: KeyRange, pos: Option<Key>): seq<Key>
    decreases if pos.Some? then |Above(keys, pos.value)| + 1 else 0
  {
    if pos.None? || !Includes(range, pos.value) || pos.value !in keys then []
    else
      var next := NextHigherKey(keys, pos.value);
      assert next.Some? ==> |Above(keys, next.value)| < |Above(keys, pos.value)| by {
        if next.Some? { FewerAbove(keys, pos.value); }
      }
      [pos.value] + LeftKeys(keys, range, next)
  }

  function FurthestKey(a: Option<Key>, b: Option<Key>): Option<Key> {
    if a.None? then b else if b.None? then a else if a.value >= b.value then a else b
  }

  function StartRecord(keys: set<Key>, range: KeyRange, last: Option<Key>, advance: Option<Key>): Option<Key> {
    var pos := FurthestKey(advance, if last.Some? then last else range.lower);
    if pos.None? then MinKey(keys)
    else if pos.value !in keys || last == pos then NextHigherKey(keys, pos.value)
    else pos
  }

  function AllKeys(keys: set<Key>, range: KeyRange, last: Option<Key>, advance: Option<Key>): seq<Key> {
    LeftKeys(keys, range, StartRecord(keys, range, last, advance))
  }

  function KeyPage(s: seq<Key>, limit: int): seq<Key> {
    if 0 < limit < |s| then s[..limit] else s
  }

  method ScanStore(records: map<Key, Value>, range: KeyRange, last: Option<Key>, advance: Option<Key>, limit: int)
    returns (results: seq<Key>)
    ensures results == KeyPage(AllKeys(records.Keys, range, last, advance), limit)
  {
    hide Includes;
    var keys := records.Keys;
    var pos := FurthestKey(advance, if last.Some? then last else range.lower);
    if pos.Some? {
      if pos.value !in records || (last.Some? && last.value == pos.value) {
        pos := NextHigherKey(keys, pos.value);
      }
    } else {
      pos := MinKey(keys);
    }
    assert pos == StartRecord(keys, range, last, advance);
    ghost var all := LeftKeys(keys, range, pos);
    results := [];
    while !(limit != 0 && |results| == limit) && pos.Some? && Includes(range, pos.value)
      invariant pos.Some? ==> pos.value in keys
      invariant limit > 0 ==> |results| <= limit
      invariant results + LeftKeys(keys, range, pos) == all
      decreases if pos.Some? then |Above(keys, pos.value)| + 1 else 0
    {
      var next := NextHigherKey(keys, pos.value);
      if next.Some? {
        FewerAbove(keys, pos.value);
      }
      assert (results + [pos.value]) + LeftKeys(keys, range, next)
               == results + ([pos.value] + LeftKeys(keys, range, next));
      results := results + [pos.value];
      pos := next;
    }
  }

  // ---- What a scan gives -----------------------------------------------------------------------

  lemma {:induction false} LeftKeysMembers(keys: set<Key>, range: KeyRange, pos: Option<Key>, k: Key)
    requires pos.Some? ==> pos.value in keys && AboveLower(range, pos.value)
    ensures k in LeftKeys(keys, range, pos) <==> pos.Some? && pos.value <= k && k in keys && BelowUpper(range, k)
    decreases if pos.Some? then |Above(keys, pos.value)| + 1 else 0
  {
    if pos.Some? && Includes(range, pos.value) {
      var next := NextHigherKey(keys, pos.value);
      if next.Some? {
        FewerAbove(keys, pos.value);
      }
      LeftKeysMembers(keys, range, next, k);
    }
  }

  lemma {:induction false} LeftKeysAscending(keys: set<Key>, range: KeyRange, pos: Option<Key>)
    requires pos.Some? ==> pos.value in keys && AboveLower(range, pos.value)
    ensures Ascending(LeftKeys(keys, range, pos))
    decreases if pos.Some? then |Above(keys, pos.value)| + 1 else 0
  {
    if pos.Some? && Includes(range, pos.value) {
      var next := NextHigherKey(keys, pos.value);
      if next.Some? {
        FewerAbove(keys, pos.value);
      }
      LeftKeysAscending(keys, range, next);
      var tail := LeftKeys(keys, range, next);
      forall k | k in tail ensures pos.value < k {
        LeftKeysMembers(keys, range, next, k);
      }
      AscendingCons(pos.value, tail);
    }
  }

  lemma AscendingCons(x: Key, tail: seq<Key>)
    requires Ascending(tail)
    requires forall k :: k in tail ==> x < k
    ensures Ascending([x] + tail)
  {
    var s := [x] + tail;
    forall i, j | 0 <= i < j < |s| ensures s[i] < s[j] {
      assert s[j] == tail[j - 1] && tail[j - 1] in tail;
    }
  }

  ghost predicate WantedKey(keys: set<Key>, range: KeyRange, last: Option<Key>, advance: Option<Key>, k: Key) {
    && k in keys && Includes(range, k)
    && (last.Some? ==> last.value < k)
    && (advance.Some? ==> advance.value <= k)
  }

  predicate StartsOnOpenKey(keys: set<Key>, range: KeyRange, last: Option<Key>, advance: Option<Key>) {
    && last.None? && range.lower.Some? && range.lowerOpen && range.lower.value in keys
    && (advance.Some? ==> advance.value <= range.lower.value)
  }

  /** The scan of a store gives keys in ascending order: exactly the wanted ones, unless it starts on an
      open bound that is a stored key, when it gives nothing. */
  lemma StoreScanGives(keys: set<Key>, range: KeyRange, last: Option<Key>, advance: Option<Key>)
    requires last.Some? ==> Includes(range, last.value)
    ensures Ascending(AllKeys(keys, range, last, advance))
    ensures !StartsOnOpenKey(keys, range, last, advance) ==>
              forall k :: k in AllKeys(keys, range, last, advance) <==> WantedKey(keys, range, last, advance, k)
    ensures StartsOnOpenKey(keys, range, last, advance) ==> AllKeys(keys, range, last, advance) == []
  {
    var pos := StartRecord(keys, range, last, advance);
    if !StartsOnOpenKey(keys, range, last, advance) {
      LeftKeysAscending(keys, range, pos);
      forall k ensures k in AllKeys(keys, range, last, advance) <==> WantedKey(keys, range, last, advance, k) {
        LeftKeysMembers(keys, range, pos, k);
      }
    }
  }

  /** Whatever it gives is wanted, in ascending order, even for a last key outside the range. */
  lemma StoreScanGivesWanted(keys: set<Key>, range: KeyRange, last: Option<Key>, advance: Option<Key>)
    ensures Ascending(AllKeys(keys, range, last, advance))
    ensures forall k :: k in AllKeys(keys, range, last, advance) ==> WantedKey(keys, range, last, advance, k)
  {
    var pos := StartRecord(keys, range, last, advance);
    if pos.Some? && Includes(range, pos.value) {
      LeftKeysAscending(keys, range, pos);
      forall k | k in AllKeys(keys, range, last, advance) ensures WantedKey(keys, range, last, advance, k) {
        LeftKeysMembers(keys, range, pos, k);
      }
    }
  }

  /** So it gives exactly the wanted keys if and only if it does not start on such a bound while some
      key is wanted. */
  lemma StoreScanIsExact(keys: set<Key>, range: KeyRange, last: Option<Key>, advance: Option<Key>)
    requires last.Some? ==> Includes(range, last.value)
    ensures Ascending(AllKeys(keys, range, last, advance))
    ensures (forall k :: k in AllKeys(keys, range, last, advance) <==> WantedKey(keys, range, last, advance, k)) <==>
            !(StartsOnOpenKey(keys, range, last, advance) && exists k :: WantedKey(keys, range, last, advance, k))
  {
    StoreScanGives(keys, range, last, advance);
    hide AllKeys, WantedKey, StartsOnOpenKey;
  }

  /** Continuing behind the key at position i gives the rest of the whole scan. */
  lemma StoreScanContinues(keys: set<Key>, range: KeyRange, last: Option<Key>, advance: Option<Key>, i: nat)
    requires last.Some? ==> Includes(range, last.value)
    requires i < |AllKeys(keys, range, last, advance)|
    ensures var all := AllKeys(keys, range, last, advance);
            AllKeys(keys, range, Some(all[i]), None) == all[i + 1..]
  {
    hide AllKeys;
    var all := AllKeys(keys, range, last, advance);
    StoreScanGives(keys, range, last, advance);
    assert all[i] in all;
    StoreScanGives(keys, range, Some(all[i]), None);
    var rest := AllKeys(keys, range, Some(all[i]), None);
    forall k ensures k in rest <==> k in all[i + 1..] {
      InKeyTail(all, i, k);
    }
    AscendingIsUnique(rest, all[i + 1..]);
  }

  lemma InKeyTail(s: seq<Key>, i: nat, k: Key)
    requires Ascending(s) && i < |s|
    ensures k in s[i + 1..] <==> k in s && s[i] < k
  {
    if k in s {
      var j: nat :| j < |s| && s[j] == k;
      if j > i {
        assert s[i + 1..][j - i - 1] == k;
      }
    }
  }

  /** Feeding the last key of each page back gives what one unlimited scan gives. */
  method ScanStoreByPages(records: map<Key, Value>, range: KeyRange, limit: int) returns (results: seq<Key>)
    requires limit > 0
    ensures results == AllKeys(records.Keys, range, None, None)
  {
    hide AllKeys;
    var last: Option<Key> := None;
    ghost var all := AllKeys(records.Keys, range, None, None);
    results := [];
    while true
      invariant |results| <= |all| && results == all[..|results|]
      invariant last == if results == [] then None else Some(results[|results| - 1])
      decreases |all| - |results|
    {
      var page := ScanStore(records, range, last, None, limit);
      if results != [] {
        StoreScanContinues(records.Keys, range, None, None, |results| - 1);
      }
      assert AllKeys(records.Keys, range, last, None) == all[|results|..];
      if page == [] {
        return;
      }
      assert all[..|results|] + page == all[..|results| + |page|];
      results := results + page;
      last := Some(page[|page| - 1]);
    }
  }
}

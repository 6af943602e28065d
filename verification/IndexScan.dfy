// The forward scan of an index, in one call or page by page, as a cursor runs it.
module IndexScan {
  import opened Wrappers
  import opened KeyMaps
  import opened IndexData
  import opened ObjectStores

  datatype Entry = Entry(indexKey: Key, primaryKey: Key)

  /** Where a request continues: behind the entry returned last, and not before the keys to advance to. */
  datatype Cursor = Cursor(last: Option<Entry>, advanceIndexKey: Option<Key>, advancePrimaryKey: Option<Key>)

  predicate Less(a: Entry, b: Entry) {
    a.indexKey < b.indexKey || (a.indexKey == b.indexKey && a.primaryKey < b.primaryKey)
  }

  ghost predicate Increasing(s: seq<Entry>) {
    forall i, j :: 0 <= i < j < |s| ==> Less(s[i], s[j])
  }

  /** The entries a scan still has to give that stands on index key pos and primary key number sub;
      seen says that this index key has already been given. */
  function Left(m: Entries, range: KeyRange, unique: bool, pos: Option<Key>, sub: nat, seen: bool): seq<Entry>
    decreases if pos.Some? then |Above(m.Keys, pos.value)| + 1 else 0,
              if pos.Some? && pos.value in m then |m[pos.value]| - sub else 0
  {
    if pos.None? || !Includes(range, pos.value) || pos.value !in m then []
    else if sub < |m[pos.value]| && !(unique && seen) then
      [Entry(pos.value, m[pos.value][sub])] + Left(m, range, unique, pos, sub + 1, true)
    else
      var next := NextHigherKey(m.Keys, pos.value);
      assert next.Some? ==> |Above(m.Keys, next.value)| < |Above(m.Keys, pos.value)| by {
        if next.Some? { FewerAbove(m.Keys, pos.value); }
      }
      Left(m, range, unique, next, 0, false)
  }

  function Page(s: seq<Entry>, limit: int): seq<Entry> {
    if 0 < limit < |s| then s[..limit] else s
  }

  // ---- Starting position -----------------------------------------------------------------------

  function StartKey(m: Entries, range: KeyRange, c: Cursor): Option<Key> {
    var from := if c.last.Some? then Some(c.last.value.indexKey) else range.lower;
    var to := if c.advanceIndexKey.Some? && from.Some? && c.advanceIndexKey.value > from.value then c.advanceIndexKey
        else from;
    if to.None? then MinKey(m.Keys)
    else if to.value in m then to
    else NextHigherKey(m.Keys, to.value)
  }

  /** Whether the primary key lies behind the last position, on the index key of that position. */
  predicate Behind(c: Cursor, pk: Key) {
    && (c.last.Some? ==> c.last.value.primaryKey < pk)
    && (c.last.Some? && c.advanceIndexKey == Some(c.last.value.indexKey) && c.advancePrimaryKey.Some? ==>
          c.advancePrimaryKey.value <= pk)
  }

  /** The first position at or after from whose primary key lies behind the last one. */
  function FirstBehind(pks: seq<Key>, c: Cursor, from: nat): (sub: nat)
    requires from <= |pks|
    ensures from <= sub <= |pks|
    ensures forall i :: from <= i < sub ==> !Behind(c, pks[i])
    ensures sub < |pks| ==> Behind(c, pks[sub])
    decreases |pks| - from
  {
    if from == |pks| || Behind(c, pks[from]) then from else FirstBehind(pks, c, from + 1)
  }

  method SkipSeen(pks: seq<Key>, c: Cursor) returns (pos: nat)
    requires pks != [] && Ascending(pks) && c.last.Some?
    ensures pos == FirstBehind(pks, c, 0)
  {
    var primaryPos := c.last.value.primaryKey;
    if c.advanceIndexKey == Some(c.last.value.indexKey) && c.advancePrimaryKey.Some?
        && c.advancePrimaryKey.value > primaryPos {
      primaryPos := c.advancePrimaryKey.value;
    }
    pos := 0;
    while pos < |pks| && !(c.last.value.primaryKey < pks[pos])
      invariant pos <= |pks|
      invariant forall i :: 0 <= i < pos ==> pks[i] <= c.last.value.primaryKey
    {
      pos := pos + 1;
    }
    while pos < |pks| && !(primaryPos <= pks[pos])
      invariant pos <= |pks|
      invariant forall i :: 0 <= i < pos ==> !Behind(c, pks[i])
      invariant pos < |pks| ==> c.last.value.primaryKey < pks[pos]
    {
      pos := pos + 1;
    }
  }

  /** Everything a request gives without a limit. */
  function FullScan(m: Entries, range: KeyRange, unique: bool, c: Cursor): seq<Entry> {
    var pos := StartKey(m, range, c);
    if StandsOnLast(c, pos) && pos.value in m
    then Left(m, range, unique, pos, FirstBehind(m[pos.value], c, 0), true)
    else Left(m, range, unique, pos, 0, false)
  }

  /** The loop of the scan, from a position on. */
  method Walk(m: Entries, range: KeyRange, unique: bool, c: Cursor, start: Option<Key>, startSub: nat, limit: int)
    returns (results: seq<Entry>)
    requires start.Some? ==> start.value in m
    requires start.Some? && c.last.Some? ==> c.last.value.indexKey <= start.value
    ensures results == Page(Left(m, range, unique, start, startSub, StandsOnLast(c, start)), limit)
  {
    hide Left;
    var indexPos := start;
    var sub: nat := startSub;
    results := [];
    ghost var seen := StandsOnLast(c, start);
    ghost var all := Left(m, range, unique, start, startSub, seen);
    assert results + all == all;
    while !(limit != 0 && |results| == limit) && indexPos.Some? && Includes(range, indexPos.value)
      invariant indexPos.Some? ==> indexPos.value in m
      invariant limit > 0 ==> |results| <= limit
      invariant seen <==> StandsOnLast(c, indexPos) || StandsOn(results, indexPos)
      invariant NotPassed(c, results, indexPos)
      invariant results + Left(m, range, unique, indexPos, sub, seen) == all
      decreases if indexPos.Some? then |Above(m.Keys, indexPos.value)| + 1 else 0,
                if indexPos.Some? then |m[indexPos.value]| - sub else 0
    {
      LeftStep(m, range, unique, indexPos.value, sub, seen);
      if sub >= |m[indexPos.value]| {
        var next := NextHigherKey(m.Keys, indexPos.value);
        if next.Some? {
          FewerAbove(m.Keys, indexPos.value);
        }
        indexPos, sub, seen := next, 0, false;
      } else {
        var skip := unique && (StandsOn(results, indexPos) || StandsOnLast(c, indexPos));
        if !skip {
          var entry := Entry(indexPos.value, m[indexPos.value][sub]);
          assert (results + [entry]) + Left(m, range, unique, indexPos, sub + 1, true)
              == results + ([entry] + Left(m, range, unique, indexPos, sub + 1, true));
          results := results + [entry];
          seen := true;
        }
        sub := sub + 1;
      }
    }
    if !(indexPos.Some? && Includes(range, indexPos.value)) {
      NothingLeft(m, range, unique, indexPos, sub, seen);
    }
  }

  predicate StandsOnLast(c: Cursor, pos: Option<Key>) {
    pos.Some? && c.last.Some? && pos.value == c.last.value.indexKey
  }

  predicate StandsOn(results: seq<Entry>, pos: Option<Key>) {
    pos.Some? && results != [] && results[|results| - 1].indexKey == pos.value
  }

  ghost predicate NotPassed(c: Cursor, results: seq<Entry>, pos: Option<Key>) {
    pos.Some? ==>
      && (c.last.Some? ==> c.last.value.indexKey <= pos.value)
      && (results != [] ==> results[|results| - 1].indexKey <= pos.value)
  }

  lemma LeftStep(m: Entries, range: KeyRange, unique: bool, pos: Key, sub: nat, seen: bool)
    requires pos in m && Includes(range, pos)
    ensures Left(m, range, unique, Some(pos), sub, seen) ==
            if sub >= |m[pos]| then Left(m, range, unique, NextHigherKey(m.Keys, pos), 0, false)
            else if unique && seen then Left(m, range, unique, Some(pos), sub + 1, seen)
            else [Entry(pos, m[pos][sub])] + Left(m, range, unique, Some(pos), sub + 1, true)
  {
  }

  lemma NothingLeft(m: Entries, range: KeyRange, unique: bool, pos: Option<Key>, sub: nat, seen: bool)
    requires !(pos.Some? && Includes(range, pos.value))
    ensures Left(m, range, unique, pos, sub, seen) == []
  {
  }

  method ScanIndex(m: Entries, range: KeyRange, unique: bool, c: Cursor, limit: int)
      returns (r: Result<seq<Entry>, Error>)
    requires Tidy(m)
    ensures r.Failure? <==> c.advanceIndexKey.Some? && c.last.None? && range.lower.None?
    ensures r.Failure? ==> r.error == TypeError
    ensures r.Success? ==> r.value == Page(FullScan(m, range, unique, c), limit)
  {
    hide Left, Includes;
    var indexPos := if c.last.Some? then Some(c.last.value.indexKey) else range.lower;
    if c.advanceIndexKey.Some? {
      if indexPos.None? {
        return Failure(TypeError);
      }
      if c.advanceIndexKey.value > indexPos.value {
        indexPos := c.advanceIndexKey;
      }
    }
    if indexPos.None? {
      indexPos := MinKey(m.Keys);
    }
    if indexPos.Some? && indexPos.value !in m {
      indexPos := NextHigherKey(m.Keys, indexPos.value);
    }
    assert indexPos == StartKey(m, range, c);
    var sub: nat := 0;
    if StandsOnLast(c, indexPos) {
      sub := SkipSeen(m[indexPos.value], c);
    }
    var results := Walk(m, range, unique, c, indexPos, sub, limit);
    return Success(results);
  }

  // ---- What a scan gives -----------------------------------------------------------------------

  /** The entries of the index not before position (pos, sub). */
  ghost predicate NotBefore(m: Entries, unique: bool, pos: Key, sub: nat, seen: bool, p: Entry)
    requires At(m, p.indexKey, p.primaryKey) && pos in m
  {
    if p.indexKey == pos
    then !(unique && seen) && sub < |m[pos]| && if unique then p.primaryKey == m[pos][sub]
        else m[pos][sub] <= p.primaryKey
    else pos < p.indexKey && (unique ==> p.primaryKey == m[p.indexKey][0])
  }

  lemma InAscending(s: seq<Key>, sub: nat, k: Key)
    requires Ascending(s) && sub < |s|
    ensures k in s ==> s[sub] <= k ==> k == s[sub] || (sub + 1 < |s| && s[sub + 1] <= k)
    ensures sub + 1 < |s| ==> s[sub] < s[sub + 1]
    ensures s[0] <= s[sub]
  {
    if k in s {
      var i: nat :| i < |s| && s[i] == k;
    }
  }

  lemma HeadOrTail(p: Entry, x: Entry, tail: seq<Entry>)
    ensures p in [x] + tail <==> p == x || p in tail
  {
  }

  lemma {:induction false} LeftMembers(m: Entries, range: KeyRange, unique: bool, pos: Option<Key>, sub: nat,
      seen: bool, p: Entry)
    requires Tidy(m)
    requires pos.Some? ==> pos.value in m && AboveLower(range, pos.value)
    ensures p in Left(m, range, unique, pos, sub, seen) <==>
            && pos.Some? && At(m, p.indexKey, p.primaryKey) && BelowUpper(range, p.indexKey)
            && NotBefore(m, unique, pos.value, sub, seen, p)
    decreases if pos.Some? then |Above(m.Keys, pos.value)| + 1 else 0,
              if pos.Some? && pos.value in m then |m[pos.value]| - sub else 0
  {
    hide Left, Tidy;
    if pos.None? || !Includes(range, pos.value) {
      NothingLeft(m, range, unique, pos, sub, seen);
    } else {
      var k := pos.value;
      LeftStep(m, range, unique, k, sub, seen);
      assert m[k] != [] && Ascending(m[k]) by { TidyAt(m, k); }
      if sub >= |m[k]| || (unique && seen) {
        LeftSkips(m, range, unique, k, sub, seen);
        var next := NextHigherKey(m.Keys, k);
        if next.Some? {
          FewerAbove(m.Keys, k);
          TidyAt(m, next.value);
          FirstIsLeast(m, next.value, p);
        }
        LeftMembers(m, range, unique, next, 0, false, p);
      } else {
        LeftMembers(m, range, unique, pos, sub + 1, true, p);
        HeadOrTail(p, Entry(k, m[k][sub]), Left(m, range, unique, pos, sub + 1, true));
        InAscending(m[k], sub, p.primaryKey);
      }
    }
  }

  lemma TidyAt(m: Entries, k: Key)
    requires Tidy(m) && k in m
    ensures m[k] != [] && Ascending(m[k])
  {
  }

  lemma FirstIsLeast(m: Entries, k: Key, p: Entry)
    requires Tidy(m) && k in m
    ensures p.indexKey == k && p.primaryKey in m[k] ==> m[k][0] <= p.primaryKey
  {
    if p.indexKey == k && p.primaryKey in m[k] {
      var i: nat :| i < |m[k]| && m[k][i] == p.primaryKey;
    }
  }

  /** An index key that is used up or already given is left for the next one. */
  lemma {:induction false} LeftSkips(m: Entries, range: KeyRange, unique: bool, pos: Key, sub: nat, seen: bool)
    requires pos in m && Includes(range, pos)
    requires sub >= |m[pos]| || (unique && seen)
    ensures Left(m, range, unique, Some(pos), sub, seen) == Left(m, range, unique, NextHigherKey(m.Keys, pos), 0, false)
  {
  }

  lemma IncreasingCons(x: Entry, tail: seq<Entry>)
    requires Increasing(tail)
    requires forall q :: q in tail ==> Less(x, q)
    ensures Increasing([x] + tail)
  {
    var s := [x] + tail;
    forall i, j | 0 <= i < j < |s| ensures Less(s[i], s[j]) {
      assert s[j] == tail[j - 1] && tail[j - 1] in tail;
      if i > 0 {
        assert s[i] == tail[i - 1];
      }
    }
  }

  lemma {:induction false} LeftIncreasing(m: Entries, range: KeyRange, unique: bool, pos: Option<Key>, sub: nat,
      seen: bool)
    requires Tidy(m)
    requires pos.Some? ==> pos.value in m && AboveLower(range, pos.value)
    ensures Increasing(Left(m, range, unique, pos, sub, seen))
    decreases if pos.Some? then |Above(m.Keys, pos.value)| + 1 else 0,
              if pos.Some? && pos.value in m then |m[pos.value]| - sub else 0
  {
    hide Left, Tidy;
    if pos.None? || !Includes(range, pos.value) {
      NothingLeft(m, range, unique, pos, sub, seen);
    } else {
      var k := pos.value;
      LeftStep(m, range, unique, k, sub, seen);
      if sub >= |m[k]| || (unique && seen) {
        LeftSkips(m, range, unique, k, sub, seen);
        if NextHigherKey(m.Keys, k).Some? {
          FewerAbove(m.Keys, k);
        }
        LeftIncreasing(m, range, unique, NextHigherKey(m.Keys, k), 0, false);
      } else {
        var tail := Left(m, range, unique, pos, sub + 1, true);
        LeftIncreasing(m, range, unique, pos, sub + 1, true);
        TidyAt(m, k);
        forall q | q in tail ensures Less(Entry(k, m[k][sub]), q) {
          LeftMembers(m, range, unique, pos, sub + 1, true, q);
        }
        IncreasingCons(Entry(k, m[k][sub]), tail);
      }
    }
  }

  /** The entries a request asks for: those in the range behind the last one returned and not before
      the key to advance to; with unique, only the smallest primary key of each index key. */
  ghost predicate Wanted(m: Entries, range: KeyRange, unique: bool, c: Cursor, p: Entry) {
    && At(m, p.indexKey, p.primaryKey) && Includes(range, p.indexKey)
    && (unique ==> p.primaryKey == m[p.indexKey][0])
    && (c.last.Some? ==>
          c.last.value.indexKey < p.indexKey || (!unique && p.indexKey == c.last.value.indexKey
              && Behind(c, p.primaryKey)))
    && (c.advanceIndexKey.Some? ==> c.advanceIndexKey.value <= p.indexKey)
  }

  /** A first scan whose open lower bound is itself an index key. */
  predicate StartsOnOpenBound(m: Entries, range: KeyRange, c: Cursor) {
    && c.last.None? && range.lower.Some? && range.lowerOpen && range.lower.value in m
    && (c.advanceIndexKey.Some? ==> c.advanceIndexKey.value <= range.lower.value)
  }

  /** A position given as the last one was inside the range; an index key to advance to needs one
      or a lower bound. */
  predicate Proper(range: KeyRange, c: Cursor) {
    && (c.last.Some? ==> Includes(range, c.last.value.indexKey))
    && (c.advanceIndexKey.Some? ==> c.last.Some? || range.lower.Some?)
  }

  lemma StartKeyIsLeast(m: Entries, range: KeyRange, c: Cursor)
    requires Proper(range, c)
    ensures var pos := StartKey(m, range, c);
            && (pos.Some? ==> pos.value in m)
            && (pos.Some? && c.last.Some? ==> c.last.value.indexKey <= pos.value)
            && (pos.Some? && !StartsOnOpenBound(m, range, c) ==> AboveLower(range, pos.value))
            && (pos.Some? && StartsOnOpenBound(m, range, c) ==> pos == range.lower)
            && (pos.Some? && c.advanceIndexKey.Some? ==> c.advanceIndexKey.value <= pos.value)
            && forall k | && k in m && AboveLower(range, k)
                          && (c.last.Some? ==> c.last.value.indexKey <= k)
                          && (c.advanceIndexKey.Some? ==> c.advanceIndexKey.value <= k)
                        :: pos.Some? && pos.value <= k
  {
  }

  lemma BehindIsUpward(pks: seq<Key>, c: Cursor, k: Key)
    requires Ascending(pks) && k in pks
    ensures var sub := FirstBehind(pks, c, 0);
            Behind(c, k) <==> sub < |pks| && pks[sub] <= k
  {
    var i: nat :| i < |pks| && pks[i] == k;
  }

  /** An unlimited scan gives exactly the wanted entries. */
  lemma ScanMembers(m: Entries, range: KeyRange, unique: bool, c: Cursor, p: Entry)
    requires Tidy(m) && Proper(range, c) && !StartsOnOpenBound(m, range, c)
    ensures p in FullScan(m, range, unique, c) <==> Wanted(m, range, unique, c, p)
  {
    hide Left, Tidy, StartKey;
    var pos := StartKey(m, range, c);
    StartKeyIsLeast(m, range, c);
    if StandsOnLast(c, pos) {
      var sub := FirstBehind(m[pos.value], c, 0);
      LeftMembers(m, range, unique, pos, sub, true, p);
      TidyAt(m, pos.value);
      if p.indexKey == pos.value && p.primaryKey in m[pos.value] {
        BehindIsUpward(m[pos.value], c, p.primaryKey);
      }
    } else {
      LeftMembers(m, range, unique, pos, 0, false, p);
      if pos.Some? {
        TidyAt(m, pos.value);
        FirstIsLeast(m, pos.value, p);
      }
    }
  }

  /** It gives them in ascending order, so each of them once. */
  lemma ScanIsIncreasing(m: Entries, range: KeyRange, unique: bool, c: Cursor)
    requires Tidy(m) && Proper(range, c) && !StartsOnOpenBound(m, range, c)
    ensures Increasing(FullScan(m, range, unique, c))
  {
    var pos := StartKey(m, range, c);
    StartKeyIsLeast(m, range, c);
    if StandsOnLast(c, pos) {
      LeftIncreasing(m, range, unique, pos, FirstBehind(m[pos.value], c, 0), true);
    } else {
      LeftIncreasing(m, range, unique, pos, 0, false);
    }
  }

  lemma OpenBoundStopsScan(m: Entries, range: KeyRange, unique: bool, c: Cursor)
    requires Proper(range, c) && StartsOnOpenBound(m, range, c)
    ensures FullScan(m, range, unique, c) == []
  {
    StartKeyIsLeast(m, range, c);
    NothingLeft(m, range, unique, StartKey(m, range, c), 0, false);
  }

  /** A scan gives exactly the wanted entries if and only if it does not start on an open bound that
      is an index key while something is wanted. */
  lemma ScanIsCompleteIff(m: Entries, range: KeyRange, unique: bool, c: Cursor)
    requires Tidy(m) && Proper(range, c)
    ensures (forall p :: p in FullScan(m, range, unique, c) <==> Wanted(m, range, unique, c, p)) <==>
            !(StartsOnOpenBound(m, range, c) && exists p :: Wanted(m, range, unique, c, p))
  {
    hide FullScan, Wanted, Tidy;
    if StartsOnOpenBound(m, range, c) {
      OpenBoundStopsScan(m, range, unique, c);
    } else {
      forall p ensures p in FullScan(m, range, unique, c) <==> Wanted(m, range, unique, c, p) {
        ScanMembers(m, range, unique, c, p);
      }
    }
  }

  /** Whatever a scan gives is wanted, in ascending order, even for a last position outside the range. */
  lemma ScanGivesWanted(m: Entries, range: KeyRange, unique: bool, c: Cursor)
    requires Tidy(m) && (c.advanceIndexKey.Some? ==> c.last.Some? || range.lower.Some?)
    ensures Increasing(FullScan(m, range, unique, c))
    ensures forall p :: p in FullScan(m, range, unique, c) ==> Wanted(m, range, unique, c, p)
  {
    hide Left, Tidy, StartKey;
    var pos := StartKey(m, range, c);
    StartIsNotBefore(m, range, c);
    if pos.Some? && !AboveLower(range, pos.value) {
      NothingLeft(m, range, unique, pos, 0, false);
      NothingLeft(m, range, unique, pos, if StandsOnLast(c, pos) then FirstBehind(m[pos.value], c, 0) else 0, true);
    } else if pos.Some? {
      var seen := StandsOnLast(c, pos);
      var sub := if seen then FirstBehind(m[pos.value], c, 0) else 0;
      TidyAt(m, pos.value);
      LeftIncreasing(m, range, unique, pos, sub, seen);
      forall p | p in FullScan(m, range, unique, c) ensures Wanted(m, range, unique, c, p) {
        LeftMembers(m, range, unique, pos, sub, seen, p);
        FoundIsWanted(m, range, unique, c, pos.value, p);
      }
    } else {
      NothingLeft(m, range, unique, pos, 0, false);
    }
  }

  lemma StartIsNotBefore(m: Entries, range: KeyRange, c: Cursor)
    requires c.advanceIndexKey.Some? ==> c.last.Some? || range.lower.Some?
    ensures var pos := StartKey(m, range, c);
            pos.Some? ==>
              && pos.value in m && (c.last.Some? ==> c.last.value.indexKey <= pos.value)
              && (c.advanceIndexKey.Some? ==> c.advanceIndexKey.value <= pos.value)
  {
  }

  lemma FoundIsWanted(m: Entries, range: KeyRange, unique: bool, c: Cursor, pos: Key, p: Entry)
    requires Tidy(m) && pos in m && AboveLower(range, pos)
    requires c.last.Some? ==> c.last.value.indexKey <= pos
    requires c.advanceIndexKey.Some? ==> c.advanceIndexKey.value <= pos
    requires At(m, p.indexKey, p.primaryKey) && BelowUpper(range, p.indexKey)
    requires var seen := StandsOnLast(c, Some(pos));
             NotBefore(m, unique, pos, if seen then FirstBehind(m[pos], c, 0) else 0, seen, p)
    ensures Wanted(m, range, unique, c, p)
  {
    if p.indexKey == pos {
      TidyAt(m, pos);
      FirstIsLeast(m, pos, p);
      if StandsOnLast(c, Some(pos)) {
        BehindIsUpward(m[pos], c, p.primaryKey);
      }
    }
  }

  // ---- Paging ----------------------------------------------------------------------------------

  lemma NoEntries(a: seq<Entry>, b: seq<Entry>)
    requires forall p :: p in b ==> p in a
    ensures a == [] ==> b == []
  {
    if b != [] {
      var x := b[0];
      assert x in a;
      assert |a| > 0;
    }
  }

  lemma {:induction false} SameEntries(a: seq<Entry>, b: seq<Entry>)
    requires Increasing(a) && Increasing(b)
    requires forall p :: p in a <==> p in b
    ensures a == b
  {
    NoEntries(a, b);
    NoEntries(b, a);
    if a != [] {
      assert a[0] in a && a[0] in b;
      assert b[0] in b && b[0] in a;
      forall p ensures p in a[1..] <==> p in b[1..] {
        assert p in a <==> p == a[0] || p in a[1..];
        assert p in b <==> p == b[0] || p in b[1..];
      }
      SameEntries(a[1..], b[1..]);
      assert a == [a[0]] + a[1..] && b == [b[0]] + b[1..];
    }
  }

  lemma InTail(s: seq<Entry>, k: nat, p: Entry)
    requires Increasing(s) && k < |s|
    ensures p in s[k + 1..] <==> p in s && Less(s[k], p)
  {
    if p in s {
      var i: nat :| i < |s| && s[i] == p;
      if i > k {
        assert s[k + 1..][i - k - 1] == p;
      }
    }
  }

  /** Wanted behind an entry that was wanted itself. */
  lemma WantedBehind(m: Entries, range: KeyRange, unique: bool, c: Cursor, x: Entry, p: Entry)
    requires Wanted(m, range, unique, c, x)
    ensures Wanted(m, range, unique, Cursor(Some(x), None, None), p) <==> Wanted(m, range, unique, c, p) && Less(x, p)
  {
  }

  /** Continuing behind the entry at position k gives the rest of the whole scan. */
  lemma ScanContinues(m: Entries, range: KeyRange, unique: bool, c: Cursor, k: nat)
    requires Tidy(m) && Proper(range, c) && !StartsOnOpenBound(m, range, c)
    requires k < |FullScan(m, range, unique, c)|
    ensures var all := FullScan(m, range, unique, c);
            FullScan(m, range, unique, Cursor(Some(all[k]), None, None)) == all[k + 1..]
  {
    hide FullScan, Wanted, Tidy, Less;
    var all := FullScan(m, range, unique, c);
    var next := Cursor(Some(all[k]), None, None);
    ScanMembers(m, range, unique, c, all[k]);
    assert all[k] in all;
    assert Proper(range, next) by { WantedIsIncluded(m, range, unique, c, all[k]); }
    ScanIsIncreasing(m, range, unique, c);
    ScanIsIncreasing(m, range, unique, next);
    forall p ensures p in FullScan(m, range, unique, next) <==> p in all[k + 1..] {
      ScanMembers(m, range, unique, next, p);
      ScanMembers(m, range, unique, c, p);
      WantedBehind(m, range, unique, c, all[k], p);
      InTail(all, k, p);
    }
    SameEntries(FullScan(m, range, unique, next), all[k + 1..]);
  }

  lemma WantedIsIncluded(m: Entries, range: KeyRange, unique: bool, c: Cursor, x: Entry)
    ensures Wanted(m, range, unique, c, x) ==> Includes(range, x.indexKey)
  {
  }

  /** Feeding the last position of each page back until a page is empty gives what one unlimited
      scan gives, for every page size. */
  method ScanByPages(m: Entries, range: KeyRange, unique: bool, limit: int) returns (results: seq<Entry>)
    requires Tidy(m) && limit > 0
    ensures results == FullScan(m, range, unique, Cursor(None, None, None))
  {
    hide FullScan, Tidy, StartsOnOpenBound;
    var c := Cursor(None, None, None);
    ghost var first := c;
    ghost var all := FullScan(m, range, unique, first);
    if StartsOnOpenBound(m, range, first) {
      OpenBoundStopsScan(m, range, unique, first);
    }
    results := [];
    while true
      invariant |results| <= |all| && results == all[..|results|]
      invariant c == Cursor(if results == [] then None else Some(results[|results| - 1]), None, None)
      decreases |all| - |results|
    {
      var page := ScanIndex(m, range, unique, c, limit);
      if results != [] {
        assert c.last.value == all[|results| - 1];
        ScanContinues(m, range, unique, first, |results| - 1);
      }
      assert FullScan(m, range, unique, c) == all[|results|..];
      if page.value == [] {
        assert results == all;
        return;
      }
      assert all[..|results|] + page.value == all[..|results| + |page.value|];
      results := results + page.value;
      c := Cursor(Some(page.value[|page.value| - 1]), None, None);
    }
  }
}

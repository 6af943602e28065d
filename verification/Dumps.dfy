// Dumps of an object store: ascending lists of its records and index entries, and back.
module Dumps {
  import opened Wrappers
  import opened KeyMaps
  import opened IndexData

  datatype StoreDump = StoreDump(
    records: seq<(Key, Value)>, keyGenerator: int, indexes: map<string, seq<(Key, seq<Key>)>>)

  /** The pairs of m from key pos on, ascending. */
  function PairsFrom<V>(m: map<Key, V>, pos: Option<Key>): seq<(Key, V)>
    decreases if pos.Some? then |Above(m.Keys, pos.value)| + 1 else 0
  {
    if pos.None? || pos.value !in m then []
    else
      var next := NextHigherKey(m.Keys, pos.value);
      assert next.Some? ==> |Above(m.Keys, next.value)| < |Above(m.Keys, pos.value)| by {
        if next.Some? { FewerAbove(m.Keys, pos.value); }
      }
      [(pos.value, m[pos.value])] + PairsFrom(m, next)
  }

  function Pairs<V>(m: map<Key, V>): seq<(Key, V)> {
    PairsFrom(m, MinKey(m.Keys))
  }

  /** Later pairs overwrite earlier ones with the same key. */
  function FromPairs<V>(s: seq<(Key, V)>): map<Key, V> {
    if s == [] then map[] else FromPairs(s[..|s| - 1])[s[|s| - 1].0 := s[|s| - 1].1]
  }

  method ListPairs<V>(m: map<Key, V>) returns (s: seq<(Key, V)>)
    ensures s == Pairs(m)
  {
    var pos := MinKey(m.Keys);
    s := [];
    assert s + PairsFrom(m, pos) == Pairs(m);
    while pos.Some?
      invariant pos.Some? ==> pos.value in m
      invariant s + PairsFrom(m, pos) == Pairs(m)
      decreases if pos.Some? then |Above(m.Keys, pos.value)| + 1 else 0
    {
      var next := NextHigherKey(m.Keys, pos.value);
      if next.Some? {
        FewerAbove(m.Keys, pos.value);
      }
      assert (s + [(pos.value, m[pos.value])]) + PairsFrom(m, next)
               == s + ([(pos.value, m[pos.value])] + PairsFrom(m, next));
      s := s + [(pos.value, m[pos.value])];
      pos := next;
    }
  }

  method BuildMap<V>(s: seq<(Key, V)>) returns (m: map<Key, V>)
    ensures m == FromPairs(s)
  {
    m := map[];
    for i := 0 to |s|
      invariant m == FromPairs(s[..i])
    {
      assert s[..i + 1][..i] == s[..i];
      m := m[s[i].0 := s[i].1];
    }
    assert s[..|s|] == s;
  }

  // ---- Round trips -----------------------------------------------------------------------------

  ghost predicate AscendingPairs<V>(s: seq<(Key, V)>) {
    forall i, j :: 0 <= i < j < |s| ==> s[i].0 < s[j].0
  }

  lemma {:induction false} PairsFromMembers<V>(m: map<Key, V>, pos: Option<Key>, x: (Key, V))
    requires pos.Some? ==> pos.value in m
    ensures x in PairsFrom(m, pos) <==> pos.Some? && pos.value <= x.0 && x.0 in m && m[x.0] == x.1
    decreases if pos.Some? then |Above(m.Keys, pos.value)| + 1 else 0
  {
    if pos.Some? {
      var next := NextHigherKey(m.Keys, pos.value);
      if next.Some? {
        FewerAbove(m.Keys, pos.value);
      }
      PairsFromMembers(m, next, x);
    }
  }

  lemma {:induction false} PairsFromAscending<V>(m: map<Key, V>, pos: Option<Key>)
    requires pos.Some? ==> pos.value in m
    ensures AscendingPairs(PairsFrom(m, pos))
    decreases if pos.Some? then |Above(m.Keys, pos.value)| + 1 else 0
  {
    if pos.Some? {
      var next := NextHigherKey(m.Keys, pos.value);
      if next.Some? {
        FewerAbove(m.Keys, pos.value);
      }
      PairsFromAscending(m, next);
      var tail := PairsFrom(m, next);
      var s := [(pos.value, m[pos.value])] + tail;
      forall i, j | 0 <= i < j < |s| ensures s[i].0 < s[j].0 {
        assert s[j] == tail[j - 1] && tail[j - 1] in tail;
        PairsFromMembers(m, next, tail[j - 1]);
      }
    }
  }

  lemma {:induction false} FromPairsMembers<V>(s: seq<(Key, V)>, k: Key)
    requires AscendingPairs(s)
    ensures k in FromPairs(s) <==> exists i :: 0 <= i < |s| && s[i].0 == k
    ensures forall i :: 0 <= i < |s| && s[i].0 == k ==> FromPairs(s)[k] == s[i].1
  {
    if s != [] {
      FromPairsMembers(s[..|s| - 1], k);
    }
  }

  /** Reading a list of pairs back gives the map it was made from. */
  lemma FromPairsOfPairs<V>(m: map<Key, V>)
    ensures FromPairs(Pairs(m)) == m
  {
    var s := Pairs(m);
    PairsFromAscending(m, MinKey(m.Keys));
    forall k ensures k in FromPairs(s) <==> k in m {
      FromPairsMembers(s, k);
      if k in m {
        PairsFromMembers(m, MinKey(m.Keys), (k, m[k]));
        var i: nat :| i < |s| && s[i] == (k, m[k]);
      }
      forall i | 0 <= i < |s| && s[i].0 == k ensures k in m {
        PairsFromMembers(m, MinKey(m.Keys), s[i]);
      }
    }
    forall k | k in m ensures FromPairs(s)[k] == m[k] {
      FromPairsMembers(s, k);
      PairsFromMembers(m, MinKey(m.Keys), (k, m[k]));
      var i: nat :| i < |s| && s[i] == (k, m[k]);
    }
  }

  lemma {:induction false} PairsAreUnique<V>(a: seq<(Key, V)>, b: seq<(Key, V)>)
    requires AscendingPairs(a) && AscendingPairs(b)
    requires FromPairs(a) == FromPairs(b)
    ensures a == b
  {
    hide FromPairs, AscendingPairs;
    NoPairs(a, b);
    NoPairs(b, a);
    if a != [] && b != [] {
      var la, lb := a[|a| - 1], b[|b| - 1];
      LastPairIsLargest(a);
      LastPairIsLargest(b);
      assert la == lb;
      PairsAreUnique(a[..|a| - 1], b[..|b| - 1]);
      assert a == a[..|a| - 1] + [la] && b == b[..|b| - 1] + [lb];
    }
  }

  lemma NoPairs<V>(a: seq<(Key, V)>, b: seq<(Key, V)>)
    requires FromPairs(a) == FromPairs(b)
    ensures a == [] ==> b == []
  {
    if b != [] {
      assert b[|b| - 1].0 in FromPairs(b);
    }
  }

  lemma LastPairIsLargest<V>(s: seq<(Key, V)>)
    requires AscendingPairs(s) && s != []
    ensures var l := s[|s| - 1];
            && l.0 in FromPairs(s) && FromPairs(s)[l.0] == l.1
            && (forall k :: k in FromPairs(s) ==> k <= l.0)
            && FromPairs(s[..|s| - 1]) == FromPairs(s) - {l.0}
            && AscendingPairs(s[..|s| - 1])
  {
    forall k | k in FromPairs(s) ensures k <= s[|s| - 1].0 {
      FromPairsMembers(s, k);
    }
    FromPairsMembers(s[..|s| - 1], s[|s| - 1].0);
  }

  /** A list survives being read and written again exactly when its keys ascend. */
  lemma PairsOfFromPairsIff<V>(s: seq<(Key, V)>)
    ensures Pairs(FromPairs(s)) == s <==> AscendingPairs(s)
  {
    var m := FromPairs(s);
    PairsFromAscending(m, MinKey(m.Keys));
    FromPairsOfPairs(m);
    if AscendingPairs(s) {
      PairsAreUnique(Pairs(m), s);
    }
  }
}

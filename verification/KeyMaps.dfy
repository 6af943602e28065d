// Persistent maps with number keys, visited in ascending key order.
module KeyMaps {
  import opened Wrappers

  type Key = nat

  ghost function Any<T>(s: set<T>): (x: T)
    requires |s| > 0
    ensures x in s
  {
    var x :| x in s;
    x
  }

  lemma {:induction false} Least(ks: set<Key>) returns (m: Key)
    requires |ks| > 0
    ensures m in ks && forall k :: k in ks ==> m <= k
    decreases |ks|
  {
    var x := Any(ks);
    var rest := ks - {x};
    if |rest| == 0 {
      m := x;
      assert ks == {x};
    } else {
      var y := Least(rest);
      m := if x < y then x else y;
      forall k | k in ks ensures m <= k {
        assert k == x || k in rest;
      }
    }
  }

  lemma LeastExists(ks: set<Key>)
    requires ks != {}
    ensures exists m :: m in ks && forall k :: k in ks ==> m <= k
  {
    var m := Least(ks);
  }

  function MinKey(ks: set<Key>): (r: Option<Key>)
    ensures r.None? <==> ks == {}
    ensures r.Some? ==> r.value in ks && forall k :: k in ks ==> r.value <= k
  {
    if ks == {} then None
    else
      LeastExists(ks);
      var m :| m in ks && forall k :: k in ks ==> m <= k;
      Some(m)
  }

  function Above(ks: set<Key>, k: Key): set<Key> {
    set j | j in ks && k < j
  }

  function NextHigherKey(ks: set<Key>, k: Key): (r: Option<Key>)
    ensures r.None? <==> forall j :: j in ks ==> j <= k
    ensures r.Some? ==> r.value in ks && k < r.value && forall j :: j in ks && k < j ==> r.value <= j
  {
    assert forall j :: j in Above(ks, k) <==> j in ks && k < j;
    MinKey(Above(ks, k))
  }

  /** Moving to the next higher key leaves fewer keys above. */
  lemma FewerAbove(ks: set<Key>, k: Key)
    requires NextHigherKey(ks, k).Some?
    ensures |Above(ks, NextHigherKey(ks, k).value)| < |Above(ks, k)|
  {
    var n := NextHigherKey(ks, k).value;
    assert Above(ks, k) == Above(ks, n) + ({n} + (Above(ks, k) - Above(ks, n)));
    assert n in Above(ks, k) - Above(ks, n);
    assert |Above(ks, k) - Above(ks, n)| == |Above(ks, k)| - |Above(ks, n)|;
  }

  // ---- Ascending key lists ---------------------------------------------------------------------

  ghost predicate Ascending(s: seq<Key>) {
    forall i, j :: 0 <= i < j < |s| ==> s[i] < s[j]
  }

  lemma EmptyTogether(a: seq<Key>, b: seq<Key>)
    requires forall k :: k in b ==> k in a
    ensures a == [] ==> b == []
  {
    if b != [] {
      var x := b[0];
      assert x in a;
      assert |a| > 0;
    }
  }

  /** Two strictly ascending lists of the same keys are the same list. */
  lemma {:induction false} AscendingIsUnique(a: seq<Key>, b: seq<Key>)
    requires Ascending(a) && Ascending(b)
    requires forall k :: k in a <==> k in b
    ensures a == b
  {
    EmptyTogether(a, b);
    EmptyTogether(b, a);
    if a != [] {
      assert a[0] in a && a[0] in b;
      assert b[0] in b && b[0] in a;
      forall k ensures k in a[1..] <==> k in b[1..] {
        assert k in a <==> k == a[0] || k in a[1..];
        assert k in b <==> k == b[0] || k in b[1..];
      }
      AscendingIsUnique(a[1..], b[1..]);
      assert a == [a[0]] + a[1..] && b == [b[0]] + b[1..];
    }
  }

  /** Placing k behind the last element not above it, as sorting a list with k at its end does. */
  function Place(s: seq<Key>, k: Key): seq<Key> {
    if s == [] || s[|s| - 1] <= k then s + [k]
    else Place(s[..|s| - 1], k) + [s[|s| - 1]]
  }

  function SortKeys(s: seq<Key>): seq<Key> {
    if s == [] then [] else Place(SortKeys(s[..|s| - 1]), s[|s| - 1])
  }

  lemma {:induction false} PlaceMembers(s: seq<Key>, k: Key, j: Key)
    ensures j in Place(s, k) <==> j == k || j in s
  {
    if s != [] && s[|s| - 1] > k {
      PlaceMembers(s[..|s| - 1], k, j);
      assert s == s[..|s| - 1] + [s[|s| - 1]];
    }
  }

  lemma {:induction false} PlaceAscending(s: seq<Key>, k: Key)
    requires Ascending(s) && k !in s
    ensures Ascending(Place(s, k))
  {
    if s != [] && s[|s| - 1] > k {
      var t, x := s[..|s| - 1], s[|s| - 1];
      PlaceAscending(t, k);
      forall j | j in Place(t, k) ensures j < x {
        PlaceMembers(t, k, j);
      }
      var p := Place(t, k);
      forall i, j | 0 <= i < j < |p + [x]| ensures (p + [x])[i] < (p + [x])[j] {
        assert (p + [x])[i] == p[i] && p[i] in p;
      }
    } else {
      forall i | 0 <= i < |s| ensures s[i] < k {
        assert s[i] in s;
      }
    }
  }

  lemma {:induction false} SortOfAscending(s: seq<Key>)
    requires Ascending(s)
    ensures SortKeys(s) == s
  {
    if s != [] {
      SortOfAscending(s[..|s| - 1]);
      assert s == s[..|s| - 1] + [s[|s| - 1]];
    }
  }

  /** Sorting an ascending list with one new key at its end keeps it strictly ascending. */
  lemma SortAppended(s: seq<Key>, k: Key)
    requires Ascending(s) && k !in s
    ensures Ascending(SortKeys(s + [k]))
    ensures forall j :: j in SortKeys(s + [k]) <==> j in s || j == k
  {
    assert (s + [k])[..|s|] == s;
    SortOfAscending(s);
    PlaceAscending(s, k);
    forall j ensures j in SortKeys(s + [k]) <==> j in s || j == k {
      PlaceMembers(s, k, j);
    }
  }

  function WithoutKey(s: seq<Key>, k: Key): seq<Key> {
    if s == [] then []
    else if s[|s| - 1] == k then WithoutKey(s[..|s| - 1], k)
    else WithoutKey(s[..|s| - 1], k) + [s[|s| - 1]]
  }

  lemma {:induction false} WithoutKeyMembers(s: seq<Key>, k: Key, j: Key)
    ensures j in WithoutKey(s, k) <==> j in s && j != k
  {
    if s != [] {
      WithoutKeyMembers(s[..|s| - 1], k, j);
      assert s == s[..|s| - 1] + [s[|s| - 1]];
    }
  }

  lemma {:induction false} WithoutKeyAscending(s: seq<Key>, k: Key)
    requires Ascending(s)
    ensures Ascending(WithoutKey(s, k))
  {
    if s != [] {
      var t, x := s[..|s| - 1], s[|s| - 1];
      WithoutKeyAscending(t, k);
      var p := WithoutKey(t, k);
      forall j | j in p ensures j < x {
        WithoutKeyMembers(t, k, j);
      }
      if x != k {
        forall i, j | 0 <= i < j < |p + [x]| ensures (p + [x])[i] < (p + [x])[j] {
          assert (p + [x])[i] == p[i] && p[i] in p;
        }
      }
    }
  }
}

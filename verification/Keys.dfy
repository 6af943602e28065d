// The order on IndexedDB keys. Numbers come before dates, dates before strings, strings before
// binary keys, binary keys before arrays; keys of one type compare by value, and arrays and binary
// keys compare element by element with the shorter one first.
module Keys {
  datatype Key =
    | Number(number: real)
    | Date(time: int)
    | Text(text: seq<int>)
    | Binary(bytes: seq<int>)
    | Array(items: seq<Key>)

  function TypeRank(k: Key): int {
    match k
    case Number(_) => 0
    case Date(_) => 1
    case Text(_) => 2
    case Binary(_) => 3
    case Array(_) => 4
  }

  function CompareReals(a: real, b: real): int {
    if a == b then 0 else if a > b then 1 else -1
  }

  function CompareInts(a: int, b: int): int {
    if a == b then 0 else if a > b then 1 else -1
  }

  function CompareLists(a: seq<int>, b: seq<int>): int
  {
    if a == [] || b == [] then CompareInts(|a|, |b|)
    else if a[0] != b[0] then CompareInts(a[0], b[0])
    else CompareLists(a[1..], b[1..])
  }

  function CompareKeys(a: Key, b: Key): int
    decreases a, 1
  {
    if TypeRank(a) != TypeRank(b) then (if TypeRank(a) > TypeRank(b) then 1 else -1)
    else match a
      case Number(x) => CompareReals(x, b.number)
      case Date(x) => CompareInts(x, b.time)
      case Text(x) => CompareLists(x, b.text)
      case Binary(x) => CompareLists(x, b.bytes)
      case Array(x) => CompareItems(x, b.items)
  }

  function CompareItems(a: seq<Key>, b: seq<Key>): int
    decreases a, 0
  {
    if a == [] || b == [] then CompareInts(|a|, |b|)
    else if CompareKeys(a[0], b[0]) != 0 then CompareKeys(a[0], b[0])
    else CompareItems(a[1..], b[1..])
  }

  // ---- A total order ---------------------------------------------------------------------------

  lemma {:induction false} ListsSwap(a: seq<int>, b: seq<int>)
    ensures CompareLists(a, b) == -CompareLists(b, a)
    ensures CompareLists(a, b) == 0 <==> a == b
    ensures CompareLists(a, b) in {-1, 0, 1}
  {
    if a != [] && b != [] && a[0] == b[0] {
      ListsSwap(a[1..], b[1..]);
      assert a == [a[0]] + a[1..] && b == [b[0]] + b[1..];
    }
  }

  lemma {:induction false} ListsTransitive(a: seq<int>, b: seq<int>, c: seq<int>)
    requires CompareLists(a, b) <= 0 && CompareLists(b, c) <= 0
    ensures CompareLists(a, c) <= 0
  {
    if a != [] && b != [] && c != [] && a[0] == b[0] == c[0] {
      ListsTransitive(a[1..], b[1..], c[1..]);
    }
  }

  /** Comparing the other way round gives the opposite sign, and only equal keys compare equal. */
  lemma {:induction false} KeysSwap(a: Key, b: Key)
    ensures CompareKeys(a, b) == -CompareKeys(b, a)
    ensures CompareKeys(a, b) == 0 <==> a == b
    ensures CompareKeys(a, b) in {-1, 0, 1}
    decreases a, 1
  {
    match (a, b) {
      case (Text(x), Text(y)) => ListsSwap(x, y);
      case (Binary(x), Binary(y)) => ListsSwap(x, y);
      case (Array(x), Array(y)) => ItemsSwap(x, y);
      case _ =>
    }
  }

  lemma {:induction false} ItemsSwap(a: seq<Key>, b: seq<Key>)
    ensures CompareItems(a, b) == -CompareItems(b, a)
    ensures CompareItems(a, b) == 0 <==> a == b
    ensures CompareItems(a, b) in {-1, 0, 1}
    decreases a, 0
  {
    if a != [] && b != [] {
      KeysSwap(a[0], b[0]);
      ItemsSwap(a[1..], b[1..]);
      assert a == [a[0]] + a[1..] && b == [b[0]] + b[1..];
    }
  }

  lemma {:induction false} KeysTransitive(a: Key, b: Key, c: Key)
    requires CompareKeys(a, b) <= 0 && CompareKeys(b, c) <= 0
    ensures CompareKeys(a, c) <= 0
    decreases a, 1
  {
    if TypeRank(a) == TypeRank(b) == TypeRank(c) {
      match a {
        case Text(x) => ListsTransitive(x, b.text, c.text);
        case Binary(x) => ListsTransitive(x, b.bytes, c.bytes);
        case Array(x) => ItemsTransitive(x, b.items, c.items);
        case _ =>
      }
    }
  }

  lemma {:induction false} ItemsTransitive(a: seq<Key>, b: seq<Key>, c: seq<Key>)
    requires CompareItems(a, b) <= 0 && CompareItems(b, c) <= 0
    ensures CompareItems(a, c) <= 0
    decreases a, 0
  {
    if a != [] && b != [] && c != [] {
      KeysSwap(a[0], b[0]);
      KeysSwap(b[0], c[0]);
      KeysSwap(a[0], c[0]);
      if CompareKeys(a[0], b[0]) <= 0 && CompareKeys(b[0], c[0]) <= 0 {
        KeysTransitive(a[0], b[0], c[0]);
      }
      if CompareKeys(a[0], b[0]) == 0 && CompareKeys(b[0], c[0]) == 0 {
        ItemsTransitive(a[1..], b[1..], c[1..]);
      }
    }
  }

  // ---- What the order means --------------------------------------------------------------------

  /** The first place where two lists differ, or where the shorter one ends. */
  ghost predicate FirstDifference<T>(a: seq<T>, b: seq<T>, k: nat) {
    && k <= |a| && k <= |b|
    && (forall i: nat :: i < k ==> a[i] == b[i])
    && (k == |a| || k == |b| || a[k] != b[k])
  }

  lemma FirstDifferenceCons<T>(a: seq<T>, b: seq<T>, k: nat)
    requires a != [] && b != [] && a[0] == b[0] && FirstDifference(a[1..], b[1..], k)
    ensures FirstDifference(a, b, k + 1)
  {
    forall i: nat | i < k + 1 ensures a[i] == b[i] {
      if i > 0 {
        assert a[1..][i - 1] == b[1..][i - 1];
      }
    }
  }

  /** Strings and binary keys are ordered by their first different element, and a list comes behind
      its proper prefixes. */
  lemma {:induction false} ListOrder(a: seq<int>, b: seq<int>) returns (k: nat)
    ensures FirstDifference(a, b, k)
    ensures CompareLists(a, b) < 0 <==> k < |b| && (k == |a| || a[k] < b[k])
    ensures CompareLists(a, b) > 0 <==> k < |a| && (k == |b| || a[k] > b[k])
  {
    if a == [] || b == [] || a[0] != b[0] {
      k := 0;
    } else {
      var t := ListOrder(a[1..], b[1..]);
      FirstDifferenceCons(a, b, t);
      k := t + 1;
    }
  }

  lemma {:induction false} ItemOrder(a: seq<Key>, b: seq<Key>) returns (k: nat)
    ensures FirstDifference(a, b, k)
    ensures CompareItems(a, b) < 0 <==> k < |b| && (k == |a| || CompareKeys(a[k], b[k]) < 0)
    ensures CompareItems(a, b) > 0 <==> k < |a| && (k == |b| || CompareKeys(a[k], b[k]) > 0)
  {
    if a == [] || b == [] {
      k := 0;
    } else {
      KeysSwap(a[0], b[0]);
      if a[0] != b[0] {
        k := 0;
      } else {
        var t := ItemOrder(a[1..], b[1..]);
        FirstDifferenceCons(a, b, t);
        k := t + 1;
      }
    }
  }

  /** Numbers come before dates, dates before strings, strings before binary keys, and these before
      arrays; numbers and dates are ordered by value, and all lists by their first difference k. */
  lemma KeyOrder(a: Key, b: Key) returns (k: nat)
    ensures a.Array? && b.Array? ==> FirstDifference(a.items, b.items, k)
    ensures a.Text? && b.Text? ==> FirstDifference(a.text, b.text, k)
    ensures a.Binary? && b.Binary? ==> FirstDifference(a.bytes, b.bytes, k)
    ensures CompareKeys(a, b) < 0 <==>
            match (a, b)
            case (Number(x), Number(y)) => x < y
            case (Date(x), Date(y)) => x < y
            case (Text(x), Text(y)) => k < |y| && (k == |x| || x[k] < y[k])
            case (Binary(x), Binary(y)) => k < |y| && (k == |x| || x[k] < y[k])
            case (Array(x), Array(y)) => k < |y| && (k == |x| || CompareKeys(x[k], y[k]) < 0)
            case _ =>
              || (a.Number? && !b.Number?)
              || (a.Date? && (b.Text? || b.Binary? || b.Array?))
              || (a.Text? && (b.Binary? || b.Array?))
              || (a.Binary? && b.Array?)
  {
    k := 0;
    match (a, b) {
      case (Text(x), Text(y)) => k := ListOrder(x, y);
      case (Binary(x), Binary(y)) => k := ListOrder(x, y);
      case (Array(x), Array(y)) => k := ItemOrder(x, y);
      case _ =>
    }
  }

  // ---- Keys as numbers -------------------------------------------------------------------------

  ghost function Below(keys: set<Key>, k: Key): set<Key> {
    set j | j in keys && CompareKeys(j, k) < 0
  }

  /** The rank of a key among the finitely many keys a run ever uses. */
  ghost function Rank(keys: set<Key>, k: Key): nat {
    |Below(keys, k)|
  }

  lemma SmallerSet<T>(a: set<T>, b: set<T>, x: T)
    requires a <= b && x in b && x !in a
    ensures |a| < |b|
  {
    assert |b - a| == |b| - |a|;
    assert x in b - a;
  }

  lemma {:induction false} LessRanksLess(keys: set<Key>, a: Key, b: Key)
    requires a in keys && CompareKeys(a, b) < 0
    ensures Rank(keys, a) < Rank(keys, b)
  {
    forall j | j in Below(keys, a) ensures j in Below(keys, b) {
      KeysTransitive(j, a, b);
      KeysSwap(j, b);
      KeysSwap(j, a);
      KeysSwap(a, b);
      if j == b { KeysSwap(b, a); }
    }
    KeysSwap(a, a);
    SmallerSet(Below(keys, a), Below(keys, b), a);
  }

  /** Replacing every key of a run by its rank changes no comparison, so the store and its indexes
      may be modelled with natural numbers for keys. */
  lemma {:induction false} RankKeepsOrder(keys: set<Key>, a: Key, b: Key)
    requires a in keys && b in keys
    ensures CompareKeys(a, b) < 0 <==> Rank(keys, a) < Rank(keys, b)
    ensures a == b <==> Rank(keys, a) == Rank(keys, b)
  {
    KeysSwap(a, b);
    if CompareKeys(a, b) < 0 {
      LessRanksLess(keys, a, b);
    } else if CompareKeys(a, b) > 0 {
      LessRanksLess(keys, b, a);
    }
  }
}

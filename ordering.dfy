/** The ordering every table and ranking of the dashboard uses.

    JavaScript's `Array.prototype.sort` is stable, and every comparator of
    the dashboard compares one key per row (a number, a date or a string)
    and flips the sign for a descending order. Such a sort is modelled as a
    stable insertion sort by a `SortKey`; strings compare as JavaScript's
    `<` does, by code units, lexicographically. */
module Ordering {

  import opened Common

  datatype SortKey = Num(n: real) | Text(s: string)

  datatype Direction = Asc | Desc

  /** JavaScript's `a < b` on two strings. */
  predicate StrLess(a: string, b: string) {
    if |a| == 0 then |b| > 0
    else if |b| == 0 then false
    else if a[0] != b[0] then a[0] < b[0]
    else StrLess(a[1..], b[1..])
  }

  lemma {:induction false} StrLessIrreflexive(a: string)
    ensures !StrLess(a, a)
  {
    if |a| > 0 {
      StrLessIrreflexive(a[1..]);
    }
  }

  lemma {:induction false} StrLessTransitive(a: string, b: string, c: string)
    requires StrLess(a, b) && StrLess(b, c)
    ensures StrLess(a, c)
  {
    if |a| > 0 && |b| > 0 && |c| > 0 && a[0] == b[0] && b[0] == c[0] {
      StrLessTransitive(a[1..], b[1..], c[1..]);
    }
  }

  lemma {:induction false} StrLessTotal(a: string, b: string)
    ensures a == b || StrLess(a, b) || StrLess(b, a)
  {
    if |a| > 0 && |b| > 0 && a[0] == b[0] {
      StrLessTotal(a[1..], b[1..]);
      if a[1..] == b[1..] {
        assert a == [a[0]] + a[1..] && b == [b[0]] + b[1..];
      }
    }
  }

  /** The strict order of keys. Numbers come before strings; no table of
      the dashboard mixes the two. */
  predicate KeyLess(a: SortKey, b: SortKey) {
    match (a, b)
    case (Num(x), Num(y)) => x < y
    case (Text(x), Text(y)) => StrLess(x, y)
    case (Num(_), Text(_)) => true
    case (Text(_), Num(_)) => false
  }

  /** The comparator's "comes first": smaller key first for `Asc`,
      larger key first for `Desc`. */
  predicate Before(a: SortKey, b: SortKey, dir: Direction) {
    if dir == Asc then KeyLess(a, b) else KeyLess(b, a)
  }

  lemma BeforeIrreflexive(a: SortKey, dir: Direction)
    ensures !Before(a, a, dir)
  {
    if a.Text? {
      StrLessIrreflexive(a.s);
    }
  }

  lemma StrLessAsymmetric(a: string, b: string)
    requires StrLess(a, b)
    ensures !StrLess(b, a) && a != b
  {
    StrLessIrreflexive(a);
    if StrLess(b, a) {
      StrLessTransitive(a, b, a);
    }
  }

  lemma StrLessOrEqualTransitive(a: string, b: string, c: string)
    requires a == b || StrLess(a, b)
    requires b == c || StrLess(b, c)
    ensures a == c || StrLess(a, c)
  {
    if a != b && b != c {
      StrLessTransitive(a, b, c);
    }
  }

  /** Not coming first is transitive: this is what makes the comparator a
      consistent one. */
  lemma NotBeforeTransitive(a: SortKey, b: SortKey, c: SortKey, dir: Direction)
    requires !Before(a, b, dir) && !Before(b, c, dir)
    ensures !Before(a, c, dir)
  {
    if a.Text? && b.Text? && c.Text? {
      StrLessTotal(a.s, b.s);
      StrLessTotal(b.s, c.s);
      if dir == Asc {
        StrLessOrEqualTransitive(c.s, b.s, a.s);
        if StrLess(a.s, c.s) {
          StrLessAsymmetric(a.s, c.s);
        }
      } else {
        StrLessOrEqualTransitive(a.s, b.s, c.s);
        if StrLess(c.s, a.s) {
          StrLessAsymmetric(c.s, a.s);
        }
      }
    }
  }

  lemma BeforeAsymmetric(a: SortKey, b: SortKey, dir: Direction)
    requires Before(a, b, dir)
    ensures !Before(b, a, dir)
  {
    if a.Text? && b.Text? && Before(b, a, dir) {
      StrLessTransitive(a.s, b.s, a.s);
      StrLessIrreflexive(a.s);
    }
  }

  // ---------------------------------------------------------------------
  // The stable sort

  function Insert<T>(x: T, s: seq<T>, key: T -> SortKey, dir: Direction): seq<T> {
    if s == [] then [x]
    else if Before(key(s[0]), key(x), dir) then [s[0]] + Insert(x, s[1..], key, dir)
    else [x] + s
  }

  /** `[...s].sort(cmp)` for a comparator that orders by `key` in direction `dir`. */
  function SortBy<T>(s: seq<T>, key: T -> SortKey, dir: Direction): seq<T> {
    if s == [] then [] else Insert(s[0], SortBy(s[1..], key, dir), key, dir)
  }

  /** No element comes after one that the comparator puts before it. */
  predicate Ordered<T>(s: seq<T>, key: T -> SortKey, dir: Direction) {
    forall i, j :: 0 <= i < j < |s| ==> !Before(key(s[j]), key(s[i]), dir)
  }

  /** The elements whose key equals `k`, in their order in `s`. */
  function WithKey<T>(s: seq<T>, key: T -> SortKey, k: SortKey): seq<T> {
    if s == [] then []
    else (if key(s[0]) == k then [s[0]] else []) + WithKey(s[1..], key, k)
  }

  lemma {:induction false} InsertPermutes<T>(x: T, s: seq<T>, key: T -> SortKey, dir: Direction)
    ensures multiset(Insert(x, s, key, dir)) == multiset(s) + multiset{x}
  {
    if s != [] && Before(key(s[0]), key(x), dir) {
      InsertPermutes(x, s[1..], key, dir);
      assert s == [s[0]] + s[1..];
    }
  }

  /** The sort returns a permutation of its input. */
  lemma {:induction false} SortByPermutes<T>(s: seq<T>, key: T -> SortKey, dir: Direction)
    ensures multiset(SortBy(s, key, dir)) == multiset(s)
    ensures |SortBy(s, key, dir)| == |s|
  {
    if s != [] {
      SortByPermutes(s[1..], key, dir);
      InsertPermutes(s[0], SortBy(s[1..], key, dir), key, dir);
      assert s == [s[0]] + s[1..];
    }
    assert |multiset(SortBy(s, key, dir))| == |SortBy(s, key, dir)|;
  }

  lemma {:induction false} InsertOrdered<T>(x: T, s: seq<T>, key: T -> SortKey, dir: Direction)
    requires Ordered(s, key, dir)
    ensures Ordered(Insert(x, s, key, dir), key, dir)
    ensures multiset(Insert(x, s, key, dir)) == multiset(s) + multiset{x}
  {
    InsertPermutes(x, s, key, dir);
    if s == [] {
    } else if Before(key(s[0]), key(x), dir) {
      var t := Insert(x, s[1..], key, dir);
      InsertOrdered(x, s[1..], key, dir);
      var r := [s[0]] + t;
      assert multiset(t) == multiset(s[1..]) + multiset{x};
      forall j | 0 < j < |r|
        ensures !Before(key(r[j]), key(r[0]), dir)
      {
        assert r[j] in multiset(t);
        if r[j] == x {
          BeforeAsymmetric(key(s[0]), key(x), dir);
        } else {
          assert r[j] in multiset(s[1..]);
          var m :| 0 <= m < |s[1..]| && s[1..][m] == r[j];
          assert s[m + 1] == r[j];
        }
      }
    } else {
      var r := [x] + s;
      forall j | 0 < j < |r|
        ensures !Before(key(r[j]), key(r[0]), dir)
      {
        if j > 1 {
          NotBeforeTransitive(key(s[j - 1]), key(s[0]), key(x), dir);
        }
      }
    }
  }

  /** The sort's result is ordered by the comparator. */
  lemma {:induction false} SortByOrdered<T>(s: seq<T>, key: T -> SortKey, dir: Direction)
    ensures Ordered(SortBy(s, key, dir), key, dir)
  {
    if s != [] {
      SortByOrdered(s[1..], key, dir);
      InsertOrdered(s[0], SortBy(s[1..], key, dir), key, dir);
    }
  }

  lemma {:induction false} WithKeyAppend<T>(a: seq<T>, b: seq<T>, key: T -> SortKey, k: SortKey)
    ensures WithKey(a + b, key, k) == WithKey(a, key, k) + WithKey(b, key, k)
  {
    if a != [] {
      WithKeyAppend(a[1..], b, key, k);
      assert (a + b)[0] == a[0];
      assert (a + b)[1..] == a[1..] + b;
    } else {
      assert a + b == b;
    }
  }

  lemma {:induction false} InsertKeepsKeyOrder<T>(x: T, s: seq<T>, key: T -> SortKey, dir: Direction, k: SortKey)
    ensures WithKey(Insert(x, s, key, dir), key, k) == WithKey([x] + s, key, k)
  {
    if s != [] && Before(key(s[0]), key(x), dir) {
      InsertKeepsKeyOrder(x, s[1..], key, dir, k);
      BeforeIrreflexive(key(x), dir);
      assert key(s[0]) != key(x);
      WithKeyAppend([s[0]], Insert(x, s[1..], key, dir), key, k);
      WithKeyAppend([x], s[1..], key, k);
      WithKeyAppend([x], s, key, k);
      WithKeyAppend([s[0]], s[1..], key, k);
      assert s == [s[0]] + s[1..];
    }
  }

  /** Stability: elements with equal keys keep their relative order. */
  lemma {:induction false} SortByStable<T>(s: seq<T>, key: T -> SortKey, dir: Direction, k: SortKey)
    ensures WithKey(SortBy(s, key, dir), key, k) == WithKey(s, key, k)
  {
    if s != [] {
      SortByStable(s[1..], key, dir, k);
      InsertKeepsKeyOrder(s[0], SortBy(s[1..], key, dir), key, dir, k);
      WithKeyAppend([s[0]], SortBy(s[1..], key, dir), key, k);
      WithKeyAppend([s[0]], s[1..], key, k);
      assert s == [s[0]] + s[1..];
    }
  }

  /** An ordered sequence is left as it is. */
  lemma {:induction false} SortOrderedIsIdentity<T>(s: seq<T>, key: T -> SortKey, dir: Direction)
    requires Ordered(s, key, dir)
    ensures SortBy(s, key, dir) == s
  {
    if s != [] {
      SortOrderedIsIdentity(s[1..], key, dir);
      if |s| > 1 {
        assert !Before(key(s[1]), key(s[0]), dir);
      }
    }
  }

  /** Sorting again with the same key and direction changes nothing. */
  lemma SortByIdempotent<T>(s: seq<T>, key: T -> SortKey, dir: Direction)
    ensures SortBy(SortBy(s, key, dir), key, dir) == SortBy(s, key, dir)
  {
    SortByOrdered(s, key, dir);
    SortOrderedIsIdentity(SortBy(s, key, dir), key, dir);
  }

  /** What the rankings use: a prefix of an ordered sequence is ordered. */
  lemma PrefixOrdered<T>(s: seq<T>, n: nat, key: T -> SortKey, dir: Direction)
    requires Ordered(s, key, dir) && n <= |s|
    ensures Ordered(s[..n], key, dir)
  {
  }

  /** What a top-`n` list taken after the sort leaves out ranks no higher
      than anything it keeps. */
  lemma SortedPrefixDominates<T>(s: seq<T>, key: T -> SortKey, dir: Direction, n: nat, x: T)
    requires x in s && x !in Take(SortBy(s, key, dir), n)
    ensures forall i :: 0 <= i < |Take(SortBy(s, key, dir), n)| ==>
              !Before(key(x), key(Take(SortBy(s, key, dir), n)[i]), dir)
  {
    var sorted := SortBy(s, key, dir);
    var t := Take(sorted, n);
    SortByPermutes(s, key, dir);
    SortByOrdered(s, key, dir);
    assert x in multiset(sorted);
    var j :| 0 <= j < |sorted| && sorted[j] == x;
    assert j >= |t|;
    forall i | 0 <= i < |t|
      ensures !Before(key(x), key(t[i]), dir)
    {
      assert t[i] == sorted[i];
    }
  }

  /** Among the first `n` of a stable sort, the elements of one key are a
      prefix of that key's elements in the input order. */
  lemma TopKeepsTies<T>(s: seq<T>, key: T -> SortKey, dir: Direction, n: nat, k: SortKey)
    ensures WithKey(Take(SortBy(s, key, dir), n), key, k) <= WithKey(s, key, k)
  {
    var sorted := SortBy(s, key, dir);
    var t := Take(sorted, n);
    assert sorted == t + sorted[|t|..];
    WithKeyAppend(t, sorted[|t|..], key, k);
    SortByStable(s, key, dir, k);
  }

  // ---------------------------------------------------------------------
  // The sort state of a table

  /** `{ key, direction }`: no key means the table shows rows as fetched. */
  datatype SortConfig<K> = SortConfig(key: Option<K>, dir: Direction)

  /** `requestSort(key)`: pressing the current key while it is ascending
      switches to descending; every other press selects the key ascending. */
  function RequestSort<K(==)>(c: SortConfig<K>, k: K): (r: SortConfig<K>)
    ensures r.key == Some(k)
    ensures r.dir == Desc <==> c.key == Some(k) && c.dir == Asc
  {
    if c.key == Some(k) && c.dir == Asc then SortConfig(Some(k), Desc)
    else SortConfig(Some(k), Asc)
  }

  /** Once a key is current, pressing it toggles: three presses are one. */
  lemma RequestSortToggles<K>(c: SortConfig<K>, k: K)
    ensures RequestSort(RequestSort(c, k), k).dir != RequestSort(c, k).dir
    ensures RequestSort(RequestSort(RequestSort(c, k), k), k) == RequestSort(c, k)
  {
  }
}

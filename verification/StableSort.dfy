/** Stable sorting by descending key, as `Array.prototype.sort` does it with a `b - a` comparator. */
module StableSort {

  function Insert<T>(key: T -> int, x: T, sorted: seq<T>): seq<T>
  {
    if sorted == [] || key(x) >= key(sorted[0]) then [x] + sorted
    else [sorted[0]] + Insert(key, x, sorted[1..])
  }

  function Sort<T>(key: T -> int, s: seq<T>): seq<T>
  {
    if s == [] then [] else Insert(key, s[0], Sort(key, s[1..]))
  }

  ghost predicate Descending<T>(key: T -> int, s: seq<T>)
  {
    forall i, j :: 0 <= i < j < |s| ==> key(s[i]) >= key(s[j])
  }

  /** The elements with one key, in order. */
  function WithKey<T>(key: T -> int, s: seq<T>, k: int): seq<T>
  {
    if s == [] then []
    else (if key(s[0]) == k then [s[0]] else []) + WithKey(key, s[1..], k)
  }

  lemma {:induction false} InsertMembers<T>(key: T -> int, x: T, sorted: seq<T>)
    ensures multiset(Insert(key, x, sorted)) == multiset(sorted) + multiset{x}
  {
    if sorted != [] && key(x) < key(sorted[0]) {
      InsertMembers(key, x, sorted[1..]);
      assert sorted == [sorted[0]] + sorted[1..];
    }
  }

  /** Inserting an element that is not too large below a bound stays below the bound. */
  lemma {:induction false} InsertBelow<T>(key: T -> int, x: T, sorted: seq<T>, bound: int)
    requires key(x) <= bound && forall i :: 0 <= i < |sorted| ==> key(sorted[i]) <= bound
    ensures forall i :: 0 <= i < |Insert(key, x, sorted)| ==> key(Insert(key, x, sorted)[i]) <= bound
  {
    if sorted != [] && key(x) < key(sorted[0]) {
      InsertBelow(key, x, sorted[1..], bound);
    }
  }

  lemma {:induction false} InsertDescending<T>(key: T -> int, x: T, sorted: seq<T>)
    requires Descending(key, sorted)
    ensures Descending(key, Insert(key, x, sorted))
  {
    if sorted != [] && key(x) < key(sorted[0]) {
      InsertDescending(key, x, sorted[1..]);
      InsertBelow(key, x, sorted[1..], key(sorted[0]));
    }
  }

  lemma WithKeyCons<T>(key: T -> int, x: T, s: seq<T>, k: int)
    ensures WithKey(key, [x] + s, k) == (if key(x) == k then [x] else []) + WithKey(key, s, k)
  {
    assert ([x] + s)[1..] == s;
  }

  lemma {:induction false} InsertStable<T>(key: T -> int, x: T, sorted: seq<T>, k: int)
    ensures WithKey(key, Insert(key, x, sorted), k) == (if key(x) == k then [x] else []) + WithKey(key, sorted, k)
  {
    if sorted == [] || key(x) >= key(sorted[0]) {
      WithKeyCons(key, x, sorted, k);
    } else {
      InsertStable(key, x, sorted[1..], k);
      WithKeyCons(key, sorted[0], Insert(key, x, sorted[1..]), k);
      assert sorted == [sorted[0]] + sorted[1..];
    }
  }

  /**
   The result is descending, a permutation, and for every key the elements with that key appear
   exactly as in the input.
   */
  lemma {:induction false} SortIsStable<T>(key: T -> int, s: seq<T>)
    ensures Descending(key, Sort(key, s)) && multiset(Sort(key, s)) == multiset(s)
    ensures forall k :: WithKey(key, Sort(key, s), k) == WithKey(key, s, k)
  {
    if s != [] {
      SortIsStable(key, s[1..]);
      var sorted := Sort(key, s[1..]);
      InsertDescending(key, s[0], sorted);
      InsertMembers(key, s[0], sorted);
      assert s == [s[0]] + s[1..];
      forall k
        ensures WithKey(key, Sort(key, s), k) == WithKey(key, s, k)
      {
        InsertStable(key, s[0], sorted, k);
      }
    }
  }

  lemma {:induction false} InsertCongruent<T>(f: T -> int, g: T -> int, x: T, sorted: seq<T>)
    requires f(x) == g(x) && forall i :: 0 <= i < |sorted| ==> f(sorted[i]) == g(sorted[i])
    ensures Insert(f, x, sorted) == Insert(g, x, sorted)
    ensures forall i :: 0 <= i < |Insert(f, x, sorted)| ==> f(Insert(f, x, sorted)[i]) == g(Insert(f, x, sorted)[i])
  {
    if sorted != [] && f(x) < f(sorted[0]) {
      InsertCongruent(f, g, x, sorted[1..]);
    }
  }

  /** Only the keys of the elements matter. */
  lemma {:induction false} SortCongruent<T>(f: T -> int, g: T -> int, s: seq<T>)
    requires forall i :: 0 <= i < |s| ==> f(s[i]) == g(s[i])
    ensures Sort(f, s) == Sort(g, s)
    ensures forall i :: 0 <= i < |Sort(f, s)| ==> f(Sort(f, s)[i]) == g(Sort(f, s)[i])
  {
    if s != [] {
      SortCongruent(f, g, s[1..]);
      InsertCongruent(f, g, s[0], Sort(f, s[1..]));
    }
  }
}

/**
 Listings of a table: the entries that are present, row by row and each row from left to right,
 or stably sorted by priority.
 */
module Listing {
  import opened StableSort
  import opened Wrappers

  type Place = (nat, nat)

  predicate Before(a: Place, b: Place)
  {
    a.0 < b.0 || (a.0 == b.0 && a.1 < b.1)
  }

  predicate Filled<T>(rows: seq<seq<Option<T>>>, p: Place)
  {
    p.0 < |rows| && p.1 < |rows[p.0]| && rows[p.0][p.1].Some?
  }

  predicate At<T(==)>(rows: seq<seq<Option<T>>>, p: Place, x: T)
  {
    Filled(rows, p) && rows[p.0][p.1].value == x
  }

  /** `places` says where each entry of `out` stands; no entry before `bound` is missing. */
  ghost predicate Covers<T>(rows: seq<seq<Option<T>>>, bound: Place, out: seq<T>, places: seq<Place>)
  {
    && |places| == |out|
    && (forall k :: 0 <= k < |out| ==> At(rows, places[k], out[k]) && Before(places[k], bound))
    && (forall p :: Filled(rows, p) && Before(p, bound) ==> p in places)
  }

  ghost predicate Ascending(places: seq<Place>)
  {
    forall j, k :: 0 <= j < k < |places| ==> Before(places[j], places[k])
  }

  /** Every present entry once, in the order of the table. */
  ghost predicate IsListing<T>(rows: seq<seq<Option<T>>>, out: seq<T>)
  {
    exists places: seq<Place> :: Covers(rows, (|rows|, 0), out, places) && Ascending(places)
  }

  /** Every present entry once, by descending key and among equals in the order of the table. */
  ghost predicate IsSortedListing<T>(rows: seq<seq<Option<T>>>, key: T -> int, out: seq<T>)
  {
    exists places: seq<Place> :: Covers(rows, (|rows|, 0), out, places) && SortedBy(key, out, places)
  }

  ghost predicate SortedBy<T>(key: T -> int, out: seq<T>, places: seq<Place>)
  {
    && |places| == |out|
    && forall j, k :: 0 <= j < k < |out| ==>
                        key(out[j]) > key(out[k]) || (key(out[j]) == key(out[k]) && Before(places[j], places[k]))
  }

  // ---------------------------------------------------------------- building a listing row by row

  function Present<T>(cells: seq<Option<T>>): seq<T>
  {
    if cells == [] then []
    else
      Present(cells[..|cells| - 1]) + if cells[|cells| - 1].Some? then [cells[|cells| - 1].value] else []
  }

  ghost predicate Listed<T>(rows: seq<seq<Option<T>>>, bound: Place, out: seq<T>, places: seq<Place>)
  {
    Covers(rows, bound, out, places) && Ascending(places)
  }

  lemma AddCell<T>(rows: seq<seq<Option<T>>>, r: nat, c: nat, out: seq<T>, places: seq<Place>)
    returns (more: seq<Place>)
    requires r < |rows| && c < |rows[r]| && Listed(rows, (r, c), out, places)
    ensures Listed(rows, (r, c + 1), out + (if rows[r][c].Some? then [rows[r][c].value] else []), more)
  {
    if rows[r][c].Some? {
      more := places + [(r, c)];
    } else {
      more := places;
      assert out + [] == out;
    }
    forall p | Filled(rows, p) && Before(p, (r, c + 1))
      ensures p in more
    {
      assert p == (r, c) || Before(p, (r, c));
    }
  }

  lemma {:induction false} AddCells<T>(rows: seq<seq<Option<T>>>, r: nat, c: nat, out: seq<T>, places: seq<Place>)
    returns (more: seq<Place>)
    requires r < |rows| && c <= |rows[r]| && Listed(rows, (r, 0), out, places)
    ensures Listed(rows, (r, c), out + Present(rows[r][..c]), more)
    decreases c
  {
    if c == 0 {
      assert out + [] == out;
      more := places;
    } else {
      more := AddCells(rows, r, c - 1, out, places);
      more := AddCell(rows, r, c - 1, out + Present(rows[r][..c - 1]), more);
      assert rows[r][..c][..c - 1] == rows[r][..c - 1];
      var cell := if rows[r][c - 1].Some? then [rows[r][c - 1].value] else [];
      assert (out + Present(rows[r][..c - 1])) + cell == out + (Present(rows[r][..c - 1]) + cell);
    }
  }

  lemma AddRow<T>(rows: seq<seq<Option<T>>>, r: nat, out: seq<T>, places: seq<Place>) returns (more: seq<Place>)
    requires r < |rows| && Listed(rows, (r, 0), out, places)
    ensures Listed(rows, (r + 1, 0), out + Present(rows[r]), more)
  {
    more := AddCells(rows, r, |rows[r]|, out, places);
    assert rows[r][..|rows[r]|] == rows[r];
    forall p | Filled(rows, p) && Before(p, (r + 1, 0))
      ensures p in more
    {
      assert Before(p, (r, |rows[r]|));
    }
  }

  /** The first `n` rows are listed. */
  ghost predicate ListedTo<T>(rows: seq<seq<Option<T>>>, n: nat, out: seq<T>)
  {
    exists places: seq<Place> :: Listed(rows, (n, 0), out, places)
  }

  lemma NothingListed<T>(rows: seq<seq<Option<T>>>)
    ensures ListedTo(rows, 0, [])
  {
    assert Listed(rows, (0, 0), [], []);
  }

  lemma RowListed<T>(rows: seq<seq<Option<T>>>, n: nat, out: seq<T>, more: seq<T>)
    requires n < |rows| && ListedTo(rows, n, out) && more == out + Present(rows[n])
    ensures ListedTo(rows, n + 1, more)
  {
    var places: seq<Place> :| Listed(rows, (n, 0), out, places);
    var _ := AddRow(rows, n, out, places);
  }

  lemma AllListed<T>(rows: seq<seq<Option<T>>>, out: seq<T>)
    requires ListedTo(rows, |rows|, out)
    ensures IsListing(rows, out)
  {
  }

  // ---------------------------------------------------------------- sorting a listing

  function Values<T>(s: seq<(T, Place)>): (r: seq<T>)
    ensures |r| == |s| && forall i :: 0 <= i < |s| ==> r[i] == s[i].0
  {
    seq(|s|, i requires 0 <= i < |s| => s[i].0)
  }

  function Places<T>(s: seq<(T, Place)>): (r: seq<Place>)
    ensures |r| == |s| && forall i :: 0 <= i < |s| ==> r[i] == s[i].1
  {
    seq(|s|, i requires 0 <= i < |s| => s[i].1)
  }

  predicate After<T>(key: T -> int, a: (T, Place), b: (T, Place))
  {
    key(a.0) > key(b.0) || (key(a.0) == key(b.0) && Before(a.1, b.1))
  }

  ghost predicate Chain<T>(key: T -> int, s: seq<(T, Place)>)
  {
    forall j, k :: 0 <= j < k < |s| ==> After(key, s[j], s[k])
  }

  /** The key of an entry that carries its place along. */
  function Placed<T>(key: T -> int): ((T, Place)) -> int
  {
    (p: (T, Place)) => key(p.0)
  }

  lemma ChainCons<T>(key: T -> int, x: (T, Place), s: seq<(T, Place)>)
    requires Chain(key, s) && forall k :: 0 <= k < |s| ==> After(key, x, s[k])
    ensures Chain(key, [x] + s)
  {
  }

  lemma {:induction false} InsertChain<T>(key: T -> int, x: (T, Place), s: seq<(T, Place)>)
    requires Chain(key, s) && forall i :: 0 <= i < |s| ==> Before(x.1, s[i].1)
    ensures Chain(key, Insert(Placed(key), x, s))
    decreases |s|
  {
    if s == [] || key(x.0) >= key(s[0].0) {
      forall k | 0 <= k < |s|
        ensures After(key, x, s[k])
      {
        assert k > 0 ==> After(key, s[0], s[k]);
      }
      ChainCons(key, x, s);
    } else {
      InsertChain(key, x, s[1..]);
      var rest := Insert(Placed(key), x, s[1..]);
      InsertMembers(Placed(key), x, s[1..]);
      forall k | 0 <= k < |rest|
        ensures After(key, s[0], rest[k])
      {
        assert rest[k] in multiset(rest);
        assert rest[k] == x || rest[k] in s[1..];
      }
      ChainCons(key, s[0], rest);
    }
  }

  lemma {:induction false} SortChain<T>(key: T -> int, s: seq<(T, Place)>)
    requires forall j, k :: 0 <= j < k < |s| ==> Before(s[j].1, s[k].1)
    ensures Chain(key, Sort(Placed(key), s))
    decreases |s|
  {
    if s != [] {
      SortChain(key, s[1..]);
      var sorted := Sort(Placed(key), s[1..]);
      SortIsStable(Placed(key), s[1..]);
      forall i | 0 <= i < |sorted|
        ensures Before(s[0].1, sorted[i].1)
      {
        assert sorted[i] in multiset(sorted);
        assert sorted[i] in s[1..];
      }
      InsertChain(key, s[0], sorted);
    }
  }

  lemma ValuesCons<T>(x: (T, Place), s: seq<(T, Place)>)
    ensures Values([x] + s) == [x.0] + Values(s)
  {
  }

  lemma {:induction false} InsertValues<T>(key: T -> int, x: (T, Place), s: seq<(T, Place)>)
    ensures Values(Insert(Placed(key), x, s)) == Insert(key, x.0, Values(s))
    decreases |s|
  {
    if s != [] && key(x.0) < key(s[0].0) {
      InsertValues(key, x, s[1..]);
      ValuesCons(s[0], Insert(Placed(key), x, s[1..]));
      assert Values(s)[1..] == Values(s[1..]);
    } else {
      ValuesCons(x, s);
    }
  }

  lemma {:induction false} SortValues<T>(key: T -> int, s: seq<(T, Place)>)
    ensures Values(Sort(Placed(key), s)) == Sort(key, Values(s))
    decreases |s|
  {
    if s != [] {
      SortValues(key, s[1..]);
      InsertValues(key, s[0], Sort(Placed(key), s[1..]));
      assert Values(s)[1..] == Values(s[1..]);
    }
  }

  lemma PermutedCovers<T>(rows: seq<seq<Option<T>>>, bound: Place, s: seq<(T, Place)>, r: seq<(T, Place)>)
    requires Covers(rows, bound, Values(s), Places(s)) && multiset(r) == multiset(s)
    ensures Covers(rows, bound, Values(r), Places(r))
  {
    forall k | 0 <= k < |r|
      ensures At(rows, r[k].1, r[k].0) && Before(r[k].1, bound)
    {
      assert r[k] in multiset(r);
      var i :| 0 <= i < |s| && s[i] == r[k];
      assert At(rows, Places(s)[i], Values(s)[i]);
    }
    forall p | Filled(rows, p) && Before(p, bound)
      ensures p in Places(r)
    {
      var i :| 0 <= i < |s| && Places(s)[i] == p;
      assert s[i] in multiset(r);
      var k :| 0 <= k < |r| && r[k] == s[i];
      assert Places(r)[k] == p;
    }
  }

  lemma ChainIsSorted<T>(key: T -> int, s: seq<(T, Place)>)
    requires Chain(key, s)
    ensures SortedBy(key, Values(s), Places(s))
  {
    forall j, k | 0 <= j < k < |s|
      ensures After(key, (Values(s)[j], Places(s)[j]), (Values(s)[k], Places(s)[k]))
    {
      assert After(key, s[j], s[k]);
    }
  }

  /** Sorting a listing. */
  lemma SortListing<T>(rows: seq<seq<Option<T>>>, key: T -> int, out: seq<T>)
    requires IsListing(rows, out)
    ensures IsSortedListing(rows, key, Sort(key, out))
  {
    var bound: Place := (|rows|, 0);
    var places: seq<Place> :| Covers(rows, bound, out, places) && Ascending(places);
    var s := seq(|out|, i requires 0 <= i < |out| => (out[i], places[i]));
    assert Values(s) == out && Places(s) == places;
    var r := Sort(Placed(key), s);
    SortIsStable(Placed(key), s);
    SortChain(key, s);
    SortValues(key, s);
    PermutedCovers(rows, bound, s, r);
    ChainIsSorted(key, r);
  }
}

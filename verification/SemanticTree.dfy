/**
 Attachment of the kept semantic nodes: every kept node hangs below its nearest kept ancestor
 along the DOM-else-AX parent chain, or becomes a root. The parent links come from two sources
 and may form cycles.
 */
module SemanticTree {
  import opened Wrappers

  type Key = string

  /** The parent links of one canonical node. */
  datatype Links = Links(domParent: Option<Key>, axParent: Option<Key>)

  type Registry = map<Key, Links>

  /** One step along the chain; a key without a node ends it. */
  function Link(reg: Registry, k: Key): Option<Key>
  {
    if k !in reg then None
    else if reg[k].domParent.Some? then reg[k].domParent
    else reg[k].axParent
  }

  // ---------------------------------------------------------------- the parent chain

  /** The key `n` steps up from `k`. */
  function Anc(reg: Registry, k: Key, n: nat): Option<Key>
  {
    if n == 0 then Some(k)
    else match Anc(reg, k, n - 1)
         case None => None
         case Some(x) => Link(reg, x)
  }

  /** `p` is the first kept key strictly above `k`. */
  ghost predicate NearestAt(reg: Registry, kept: set<Key>, k: Key, p: Key, n: nat)
  {
    && n >= 1 && Anc(reg, k, n) == Some(p) && p in kept
    && forall m :: 1 <= m < n ==> Anc(reg, k, m).Some? && Anc(reg, k, m).value !in kept
  }

  ghost predicate NoKeptAbove(reg: Registry, kept: set<Key>, k: Key)
  {
    forall n :: n >= 1 && Anc(reg, k, n).Some? ==> Anc(reg, k, n).value !in kept
  }

  lemma {:induction false} AncAdd(reg: Registry, k: Key, a: nat, b: nat)
    ensures Anc(reg, k, a + b) == match Anc(reg, k, a) case None => None case Some(x) => Anc(reg, x, b)
  {
    if b > 0 {
      AncAdd(reg, k, a, b - 1);
    }
  }

  lemma {:induction false} ClosedChain(reg: Registry, k: Key, closed: set<Key>, n: nat)
    requires n >= 1
    requires Link(reg, k).Some? ==> Link(reg, k).value in closed
    requires forall v :: v in closed && Link(reg, v).Some? ==> Link(reg, v).value in closed
    ensures Anc(reg, k, n).Some? ==> Anc(reg, k, n).value in closed
  {
    if n > 1 {
      ClosedChain(reg, k, closed, n - 1);
    } else {
      assert Anc(reg, k, 0) == Some(k);
    }
  }

  lemma NearestIsUnique(reg: Registry, kept: set<Key>, k: Key, p: Key, n: nat, q: Key, m: nat)
    requires NearestAt(reg, kept, k, p, n) && NearestAt(reg, kept, k, q, m)
    ensures p == q && n == m
  {
  }

  /**
   The parent walk with its visited set. It always terminates, and stopping at the first
   repetition is right: from there on the chain only repeats keys that are not kept.
   */
  method NearestSemanticParent(reg: Registry, kept: set<Key>, k: Key) returns (r: Option<Key>, ghost steps: nat)
    ensures r.Some? ==> NearestAt(reg, kept, k, r.value, steps)
    ensures r.None? ==> NoKeptAbove(reg, kept, k)
  {
    var visited: set<Key> := {};
    var parentKey := Link(reg, k);
    steps := 1;
    assert Anc(reg, k, 0) == Some(k);
    while parentKey.Some? && parentKey.value !in visited
      invariant steps >= 1 && parentKey == Anc(reg, k, steps)
      invariant visited !! kept
      invariant forall m :: 1 <= m < steps ==> Anc(reg, k, m).Some? && Anc(reg, k, m).value in visited
      invariant Link(reg, k).Some? ==> Link(reg, k).value in visited || Link(reg, k) == parentKey
      invariant forall v :: v in visited && Link(reg, v).Some? ==>
                  Link(reg, v).value in visited || Link(reg, v) == parentKey
      decreases if parentKey.Some? then 1 + |reg.Keys - visited| else 0
    {
      var p := parentKey.value;
      if p in kept {
        return Some(p), steps;
      }
      assert p in reg ==> reg.Keys - (visited + {p}) == (reg.Keys - visited) - {p};
      assert p !in reg ==> Link(reg, p) == None;
      visited := visited + {p};
      parentKey := Link(reg, p);
      steps := steps + 1;
    }
    forall n | n >= 1 && Anc(reg, k, n).Some?
      ensures Anc(reg, k, n).value !in kept
    {
      ClosedChain(reg, k, visited, n);
    }
    return None, 0;
  }

  // ---------------------------------------------------------------- attachment

  /** Where a kept node hangs; a node that is its own nearest kept ancestor is a root. */
  ghost predicate AttachedTo(reg: Registry, kept: set<Key>, k: Key, p: Key)
  {
    p != k && exists n: nat :: NearestAt(reg, kept, k, p, n)
  }

  ghost predicate IsRoot(reg: Registry, kept: set<Key>, k: Key)
  {
    forall p :: !AttachedTo(reg, kept, k, p)
  }

  ghost function RootsAmong(reg: Registry, kept: set<Key>, order: seq<Key>): seq<Key>
  {
    if order == [] then []
    else
      var rest, k := RootsAmong(reg, kept, order[..|order| - 1]), order[|order| - 1];
      if k in kept && IsRoot(reg, kept, k) then rest + [k] else rest
  }

  ghost function KidsAmong(reg: Registry, kept: set<Key>, order: seq<Key>, p: Key): seq<Key>
  {
    if order == [] then []
    else
      var rest, k := KidsAmong(reg, kept, order[..|order| - 1], p), order[|order| - 1];
      if k in kept && AttachedTo(reg, kept, k, p) then rest + [k] else rest
  }

  /** The forest: the root keys and, for every kept key, its children in registry order. */
  datatype Forest = Forest(roots: seq<Key>, children: map<Key, seq<Key>>)

  method Attach(reg: Registry, kept: set<Key>, order: seq<Key>) returns (f: Forest)
    requires kept <= reg.Keys
    ensures f.roots == RootsAmong(reg, kept, order)
    ensures f.children.Keys == kept
    ensures forall p :: p in kept ==> f.children[p] == KidsAmong(reg, kept, order, p)
  {
    var roots: seq<Key> := [];
    var children: map<Key, seq<Key>> := map k | k in kept :: [];
    for i := 0 to |order|
      invariant roots == RootsAmong(reg, kept, order[..i])
      invariant children.Keys == kept
      invariant forall p :: p in kept ==> children[p] == KidsAmong(reg, kept, order[..i], p)
    {
      var k := order[i];
      assert order[..i + 1][..i] == order[..i];
      if k in kept {
        var r, steps := NearestSemanticParent(reg, kept, k);
        if r.Some? && r.value != k {
          assert AttachedTo(reg, kept, k, r.value);
          OnlyOneParent(reg, kept, k, r.value);
          children := children[r.value := children[r.value] + [k]];
        } else {
          NotAttached(reg, kept, k, r, steps);
          roots := roots + [k];
        }
      }
    }
    assert order[..|order|] == order;
    f := Forest(roots, children);
  }

  lemma OnlyOneParent(reg: Registry, kept: set<Key>, k: Key, p: Key)
    requires AttachedTo(reg, kept, k, p)
    ensures forall q :: AttachedTo(reg, kept, k, q) ==> q == p
  {
    var n: nat :| NearestAt(reg, kept, k, p, n);
    forall q | AttachedTo(reg, kept, k, q)
      ensures q == p
    {
      var m: nat :| NearestAt(reg, kept, k, q, m);
      NearestIsUnique(reg, kept, k, p, n, q, m);
    }
  }

  lemma NotAttached(reg: Registry, kept: set<Key>, k: Key, r: Option<Key>, n: nat)
    requires r.Some? ==> r.value == k && NearestAt(reg, kept, k, k, n)
    requires r.None? ==> NoKeptAbove(reg, kept, k)
    ensures IsRoot(reg, kept, k)
  {
    forall p | AttachedTo(reg, kept, k, p)
      ensures false
    {
      var m: nat :| NearestAt(reg, kept, k, p, m);
      if r.Some? {
        NearestIsUnique(reg, kept, k, k, n, p, m);
      }
    }
  }

  // ---------------------------------------------------------------- every node exactly once

  lemma {:induction false} RootsMembers(reg: Registry, kept: set<Key>, order: seq<Key>)
    ensures forall k :: k in RootsAmong(reg, kept, order) <==> k in order && k in kept && IsRoot(reg, kept, k)
  {
    if order != [] {
      RootsMembers(reg, kept, order[..|order| - 1]);
      assert order == order[..|order| - 1] + [order[|order| - 1]];
    }
  }

  lemma {:induction false} KidsMembers(reg: Registry, kept: set<Key>, order: seq<Key>, p: Key)
    ensures forall k :: k in KidsAmong(reg, kept, order, p) <==> k in order && k in kept && AttachedTo(reg, kept, k, p)
  {
    if order != [] {
      KidsMembers(reg, kept, order[..|order| - 1], p);
      assert order == order[..|order| - 1] + [order[|order| - 1]];
    }
  }

  ghost predicate NoDuplicates(s: seq<Key>)
  {
    forall i, j :: 0 <= i < j < |s| ==> s[i] != s[j]
  }

  lemma {:induction false} KidsDistinct(reg: Registry, kept: set<Key>, order: seq<Key>, p: Key)
    requires NoDuplicates(order)
    ensures NoDuplicates(KidsAmong(reg, kept, order, p))
  {
    if order != [] {
      var init, k := order[..|order| - 1], order[|order| - 1];
      KidsDistinct(reg, kept, init, p);
      KidsMembers(reg, kept, init, p);
      assert k !in init;
    }
  }

  lemma {:induction false} RootsDistinct(reg: Registry, kept: set<Key>, order: seq<Key>)
    requires NoDuplicates(order)
    ensures NoDuplicates(RootsAmong(reg, kept, order))
  {
    if order != [] {
      var init, k := order[..|order| - 1], order[|order| - 1];
      RootsDistinct(reg, kept, init);
      RootsMembers(reg, kept, init);
      assert k !in init;
    }
  }

  /** Each kept key is in exactly one place: once among the roots, or once below one parent. */
  lemma AttachedExactlyOnce(reg: Registry, kept: set<Key>, order: seq<Key>, k: Key)
    requires NoDuplicates(order) && k in order && k in kept
    ensures NoDuplicates(RootsAmong(reg, kept, order))
    ensures forall p :: NoDuplicates(KidsAmong(reg, kept, order, p))
    ensures k in RootsAmong(reg, kept, order) ==> forall p :: k !in KidsAmong(reg, kept, order, p)
    ensures k !in RootsAmong(reg, kept, order) ==> exists p :: k in KidsAmong(reg, kept, order, p)
    ensures forall p, q :: k in KidsAmong(reg, kept, order, p) && k in KidsAmong(reg, kept, order, q) ==> p == q
  {
    RootsDistinct(reg, kept, order);
    RootsMembers(reg, kept, order);
    forall p
      ensures NoDuplicates(KidsAmong(reg, kept, order, p))
      ensures k in KidsAmong(reg, kept, order, p) <==> AttachedTo(reg, kept, k, p)
    {
      KidsDistinct(reg, kept, order, p);
      KidsMembers(reg, kept, order, p);
    }
    if k !in RootsAmong(reg, kept, order) {
      var p :| AttachedTo(reg, kept, k, p);
      assert k in KidsAmong(reg, kept, order, p);
    } else {
      forall p
        ensures k !in KidsAmong(reg, kept, order, p)
      {
        KidsMembers(reg, kept, order, p);
        assert !AttachedTo(reg, kept, k, p);
      }
    }
    forall p, q | k in KidsAmong(reg, kept, order, p) && k in KidsAmong(reg, kept, order, q)
      ensures p == q
    {
      OnlyOneParent(reg, kept, k, p);
    }
  }

  // ---------------------------------------------------------------- reachability

  /** `k` is `n` levels below a root of the forest. */
  ghost predicate AtLevel(reg: Registry, kept: set<Key>, order: seq<Key>, k: Key, n: nat)
    decreases n
  {
    if n == 0 then k in RootsAmong(reg, kept, order)
    else exists p :: p in kept && k in KidsAmong(reg, kept, order, p) && AtLevel(reg, kept, order, p, n - 1)
  }

  ghost predicate Reachable(reg: Registry, kept: set<Key>, order: seq<Key>, k: Key)
  {
    exists n: nat :: AtLevel(reg, kept, order, k, n)
  }

  ghost predicate Above(reg: Registry, k: Key, q: Key, n: nat)
  {
    n >= 1 && Anc(reg, k, n) == Some(q)
  }

  /** Two different kept nodes that are each above the other. */
  ghost predicate Entangled(reg: Registry, kept: set<Key>, k: Key, q: Key)
  {
    && k in kept && q in kept && k != q
    && exists a: nat, b: nat :: Above(reg, k, q, a) && Above(reg, q, k, b)
  }

  ghost predicate Covers(kept: set<Key>, order: seq<Key>)
  {
    NoDuplicates(order) && forall k :: k in kept ==> k in order
  }

  lemma AboveTransitive(reg: Registry, k: Key, p: Key, q: Key, a: nat, b: nat)
    requires Above(reg, k, p, a) && Above(reg, p, q, b)
    ensures Above(reg, k, q, a + b)
  {
    AncAdd(reg, k, a, b);
  }

  /** `trail` is the attachment path walked so far, from the start node up to `k`. */
  lemma {:induction false} WalkToRoot(reg: Registry, kept: set<Key>, order: seq<Key>, k: Key, seen: set<Key>)
    requires Covers(kept, order) && k in kept && seen <= kept && k !in seen
    requires forall q, r :: !Entangled(reg, kept, q, r)
    requires forall s :: s in seen ==> exists a: nat :: Above(reg, s, k, a)
    ensures Reachable(reg, kept, order, k)
    decreases |kept - seen|
  {
    RootsMembers(reg, kept, order);
    if IsRoot(reg, kept, k) {
      assert AtLevel(reg, kept, order, k, 0);
    } else {
      var p :| AttachedTo(reg, kept, k, p);
      var n: nat :| NearestAt(reg, kept, k, p, n);
      assert Above(reg, k, p, n);
      if p in seen {
        var a: nat :| Above(reg, p, k, a);
        assert Entangled(reg, kept, k, p);
        assert false;
      }
      var seen' := seen + {k};
      forall s | s in seen'
        ensures exists a: nat :: Above(reg, s, p, a)
      {
        if s in seen {
          var a: nat :| Above(reg, s, k, a);
          AboveTransitive(reg, s, k, p, a, n);
        }
      }
      assert kept - seen' == (kept - seen) - {k};
      WalkToRoot(reg, kept, order, p, seen');
      KidsMembers(reg, kept, order, p);
      var m: nat :| AtLevel(reg, kept, order, p, m);
      assert AtLevel(reg, kept, order, k, m + 1);
    }
  }

  lemma OneLevelUp(reg: Registry, kept: set<Key>, order: seq<Key>, k: Key, n: nat) returns (p: Key, m: nat)
    requires n > 0 && AtLevel(reg, kept, order, k, n)
    ensures p in kept && AtLevel(reg, kept, order, p, n - 1) && Anc(reg, k, m) == Some(p)
  {
    p :| p in kept && k in KidsAmong(reg, kept, order, p) && AtLevel(reg, kept, order, p, n - 1);
    KidsMembers(reg, kept, order, p);
    m :| NearestAt(reg, kept, k, p, m);
  }

  /** A reachable node has a root at or above it along the parent chain. */
  lemma {:induction false} RootAbove(reg: Registry, kept: set<Key>, order: seq<Key>, k: Key, n: nat)
    returns (r: Key, j: nat)
    requires k in kept && AtLevel(reg, kept, order, k, n)
    ensures r in kept && IsRoot(reg, kept, r) && Anc(reg, k, j) == Some(r)
    decreases n
  {
    if n == 0 {
      RootsMembers(reg, kept, order);
      r, j := k, 0;
    } else {
      var p, m := OneLevelUp(reg, kept, order, k, n);
      var i;
      r, i := RootAbove(reg, kept, order, p, n - 1);
      AncAdd(reg, k, m, i);
      j := m + i;
    }
  }

  lemma {:induction false} Cycle(reg: Registry, k: Key, period: nat, times: nat)
    requires Anc(reg, k, period) == Some(k)
    ensures Anc(reg, k, period * times) == Some(k)
  {
    if times > 0 {
      Cycle(reg, k, period, times - 1);
      AncAdd(reg, k, period * (times - 1), period);
      assert period * (times - 1) + period == period * times;
    }
  }

  lemma {:induction false} Reduce(reg: Registry, k: Key, period: nat, t: nat) returns (t': nat)
    requires period >= 1 && Anc(reg, k, period) == Some(k)
    ensures t' < period && Anc(reg, k, t') == Anc(reg, k, t)
    decreases t
  {
    if t < period {
      t' := t;
    } else {
      AncAdd(reg, k, period, t - period);
      t' := Reduce(reg, k, period, t - period);
    }
  }

  /** A kept node with a different kept node above it is not a root. */
  lemma RootHasNothingAbove(reg: Registry, kept: set<Key>, r: Key, x: Key, t: nat)
    requires r in kept && x in kept && x != r && Above(reg, r, x, t)
    ensures !IsRoot(reg, kept, r)
  {
    var n := FirstKept(reg, kept, r, t);
    var p := Anc(reg, r, n).value;
    if p == r {
      var t' := Reduce(reg, r, n, t);
      assert false;
    }
    assert AttachedTo(reg, kept, r, p);
  }

  lemma {:induction false} FirstKept(reg: Registry, kept: set<Key>, k: Key, t: nat) returns (n: nat)
    requires t >= 1 && Anc(reg, k, t).Some? && Anc(reg, k, t).value in kept
    ensures 1 <= n <= t && Anc(reg, k, n).Some? && NearestAt(reg, kept, k, Anc(reg, k, n).value, n)
  {
    n := 1;
    EarlierExists(reg, k, 1, t);
    while Anc(reg, k, n).value !in kept
      invariant 1 <= n <= t && Anc(reg, k, n).Some?
      invariant forall m :: 1 <= m < n ==> Anc(reg, k, m).Some? && Anc(reg, k, m).value !in kept
      decreases t - n
    {
      n := n + 1;
      EarlierExists(reg, k, n, t);
    }
  }

  lemma {:induction false} EarlierExists(reg: Registry, k: Key, n: nat, t: nat)
    requires n <= t && Anc(reg, k, t).Some?
    ensures Anc(reg, k, n).Some?
    decreases t - n
  {
    if n < t {
      EarlierExists(reg, k, n + 1, t);
    }
  }

  lemma EntangledIsUnreachable(reg: Registry, kept: set<Key>, order: seq<Key>, k: Key, q: Key)
    requires Entangled(reg, kept, k, q)
    ensures !Reachable(reg, kept, order, k)
  {
    if Reachable(reg, kept, order, k) {
      var n: nat :| AtLevel(reg, kept, order, k, n);
      var r, j := RootAbove(reg, kept, order, k, n);
      var a: nat, b: nat :| Above(reg, k, q, a) && Above(reg, q, k, b);
      AboveTransitive(reg, k, q, k, a, b);
      var back := BackToStart(reg, k, r, a + b, j);
      if r != k {
        RootHasNothingAbove(reg, kept, r, k, back);
      } else {
        RootHasNothingAbove(reg, kept, k, q, a);
      }
    }
  }

  /** From anywhere above a node on a cycle the chain leads back to the node. */
  lemma BackToStart(reg: Registry, k: Key, r: Key, period: nat, j: nat) returns (back: nat)
    requires period >= 1 && Anc(reg, k, period) == Some(k) && Anc(reg, k, j) == Some(r)
    ensures Above(reg, r, k, back)
  {
    var total := period * (j + 1);
    assert total > j by {
      assert period * (j + 1) == period * j + period;
      assert period * j >= j;
    }
    Cycle(reg, k, period, j + 1);
    back := total - j;
    AncAdd(reg, k, j, back);
  }

  /**
   All kept nodes are reachable from the roots exactly when no two of them are above each
   other; cycles that pass through at most one kept node do no harm.
   */
  lemma AllReachableIff(reg: Registry, kept: set<Key>, order: seq<Key>)
    requires Covers(kept, order)
    ensures (forall k :: k in kept ==> Reachable(reg, kept, order, k)) <==>
            (forall k, q :: !Entangled(reg, kept, k, q))
  {
    if forall k, q :: !Entangled(reg, kept, k, q) {
      forall k | k in kept
        ensures Reachable(reg, kept, order, k)
      {
        WalkToRoot(reg, kept, order, k, {});
      }
    } else {
      var k, q :| Entangled(reg, kept, k, q);
      EntangledIsUnreachable(reg, kept, order, k, q);
    }
  }

  ghost predicate Acyclic(reg: Registry)
  {
    forall k, n :: n >= 1 ==> Anc(reg, k, n) != Some(k)
  }

  /** On acyclic parent links the nodes reachable from the roots number exactly `semanticNodeCount`. */
  lemma ReachableCount(reg: Registry, kept: set<Key>, order: seq<Key>)
    requires Covers(kept, order) && Acyclic(reg)
    ensures |set k | k in kept && Reachable(reg, kept, order, k)| == |kept|
  {
    forall k, q | Entangled(reg, kept, k, q)
      ensures false
    {
      var a: nat, b: nat :| Above(reg, k, q, a) && Above(reg, q, k, b);
      AboveTransitive(reg, k, q, k, a, b);
    }
    AllReachableIff(reg, kept, order);
    assert (set k | k in kept && Reachable(reg, kept, order, k)) == kept;
  }
}

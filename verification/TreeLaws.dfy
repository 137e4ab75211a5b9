/**
 Where the kept semantic nodes hang, told by the parent fields of the registered nodes, and the order
 of siblings.
 */
module TreeLaws {
  import opened SemanticTree
  import opened Wrappers

  /** `p` is the DOM parent of `k`, or its accessibility parent if it has no DOM parent. */
  predicate IsParent(reg: Registry, k: Key, p: Key)
  {
    k in reg && if reg[k].domParent.Some? then reg[k].domParent == Some(p) else reg[k].axParent == Some(p)
  }

  /** From `k` upwards, each the parent of the one before; between the ends nothing is kept. */
  ghost predicate IsChain(reg: Registry, kept: set<Key>, k: Key, chain: seq<Key>, p: Key)
  {
    && |chain| >= 2 && chain[0] == k && chain[|chain| - 1] == p
    && (forall i :: 0 < i < |chain| ==> IsParent(reg, chain[i - 1], chain[i]))
    && (forall i :: 0 < i < |chain| - 1 ==> chain[i] !in kept)
  }

  lemma {:induction false} ChainIsAncestry(reg: Registry, kept: set<Key>, k: Key, chain: seq<Key>, p: Key, n: nat)
    requires IsChain(reg, kept, k, chain, p) && n < |chain|
    ensures Anc(reg, k, n) == Some(chain[n])
  {
    if n > 0 {
      ChainIsAncestry(reg, kept, k, chain, p, n - 1);
      assert IsParent(reg, chain[n - 1], chain[n]);
    }
  }

  lemma {:induction false} AncestryOf(reg: Registry, k: Key, n: nat) returns (chain: seq<Key>)
    requires Anc(reg, k, n).Some?
    ensures |chain| == n + 1 && forall i :: 0 <= i <= n ==> Anc(reg, k, i) == Some(chain[i])
    ensures forall i :: 0 < i <= n ==> IsParent(reg, chain[i - 1], chain[i])
  {
    if n == 0 {
      chain := [k];
    } else {
      chain := AncestryOf(reg, k, n - 1);
      chain := chain + [Anc(reg, k, n).value];
    }
  }

  /** A kept node hangs below the first kept node above it, along DOM parents where there are any. */
  lemma AttachedIffChain(reg: Registry, kept: set<Key>, k: Key, p: Key)
    ensures AttachedTo(reg, kept, k, p) <==>
            p != k && p in kept && exists chain :: IsChain(reg, kept, k, chain, p)
  {
    if AttachedTo(reg, kept, k, p) {
      var n: nat :| NearestAt(reg, kept, k, p, n);
      var chain := AncestryOf(reg, k, n);
      assert IsChain(reg, kept, k, chain, p);
    }
    if p != k && p in kept && exists chain :: IsChain(reg, kept, k, chain, p) {
      var chain :| IsChain(reg, kept, k, chain, p);
      var n := |chain| - 1;
      forall m | 0 <= m <= n
        ensures Anc(reg, k, m) == Some(chain[m])
      {
        ChainIsAncestry(reg, kept, k, chain, p, m);
      }
      assert NearestAt(reg, kept, k, p, n);
    }
  }

  /** In particular a kept DOM parent is the parent, whatever the accessibility tree says. */
  lemma KeptDomParentWins(reg: Registry, kept: set<Key>, order: seq<Key>, k: Key, p: Key)
    requires k in reg && reg[k].domParent == Some(p) && k in kept && p in kept && k != p && k in order
    ensures k in KidsAmong(reg, kept, order, p) && k !in RootsAmong(reg, kept, order)
  {
    assert IsChain(reg, kept, k, [k, p], p);
    AttachedIffChain(reg, kept, k, p);
    KidsMembers(reg, kept, order, p);
    RootsMembers(reg, kept, order);
  }

  /** A kept node without parent fields is a root. */
  lemma NoParentIsRoot(reg: Registry, kept: set<Key>, order: seq<Key>, k: Key)
    requires k in reg && reg[k] == Links(None, None) && k in kept && k in order
    ensures k in RootsAmong(reg, kept, order)
  {
    forall p
      ensures !AttachedTo(reg, kept, k, p)
    {
      AttachedIffChain(reg, kept, k, p);
      forall chain: seq<Key>
        ensures !IsChain(reg, kept, k, chain, p)
      {
        if |chain| >= 2 && chain[0] == k {
          assert !IsParent(reg, chain[0], chain[1]);
        }
      }
    }
    RootsMembers(reg, kept, order);
  }

  // ---------------------------------------------------------------- order

  ghost predicate Precedes(order: seq<Key>, x: Key, y: Key)
  {
    exists a, b :: 0 <= a < b < |order| && order[a] == x && order[b] == y
  }

  /** What comes first in `s` comes first in `order`. */
  ghost predicate InOrder(s: seq<Key>, order: seq<Key>)
  {
    forall i, j :: 0 <= i < j < |s| ==> Precedes(order, s[i], s[j])
  }

  lemma PrecedesSnoc(init: seq<Key>, k: Key, x: Key, y: Key)
    ensures Precedes(init, x, y) ==> Precedes(init + [k], x, y)
    ensures x in init ==> Precedes(init + [k], x, k)
  {
    var order := init + [k];
    if Precedes(init, x, y) {
      var a, b :| 0 <= a < b < |init| && init[a] == x && init[b] == y;
      assert order[a] == x && order[b] == y;
    }
    if x in init {
      var a :| 0 <= a < |init| && init[a] == x;
      assert order[a] == x && order[|init|] == k;
    }
  }

  lemma InOrderSnoc(s: seq<Key>, init: seq<Key>, k: Key)
    requires InOrder(s, init) && forall i :: 0 <= i < |s| ==> s[i] in init
    ensures InOrder(s, init + [k]) && InOrder(s + [k], init + [k])
  {
    var more := s + [k];
    forall i, j | 0 <= i < j < |more|
      ensures Precedes(init + [k], more[i], more[j])
    {
      PrecedesSnoc(init, k, more[i], more[j]);
    }
    assert forall i, j :: 0 <= i < j < |s| ==> more[i] == s[i] && more[j] == s[j];
  }

  /** Siblings are in registry order. */
  lemma {:induction false} KidsInOrder(reg: Registry, kept: set<Key>, order: seq<Key>, p: Key)
    ensures InOrder(KidsAmong(reg, kept, order, p), order)
  {
    if order != [] {
      var init, k := order[..|order| - 1], order[|order| - 1];
      assert order == init + [k];
      KidsInOrder(reg, kept, init, p);
      KidsMembers(reg, kept, init, p);
      InOrderSnoc(KidsAmong(reg, kept, init, p), init, k);
    }
  }

  /** And so are the roots. */
  lemma {:induction false} RootsInOrder(reg: Registry, kept: set<Key>, order: seq<Key>)
    ensures InOrder(RootsAmong(reg, kept, order), order)
  {
    if order != [] {
      var init, k := order[..|order| - 1], order[|order| - 1];
      assert order == init + [k];
      RootsInOrder(reg, kept, init);
      RootsMembers(reg, kept, init);
      InOrderSnoc(RootsAmong(reg, kept, init), init, k);
    }
  }
}

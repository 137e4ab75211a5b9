/**
 The traversal as the program runs it: a map of counts filled once by node id, and mutable
 counters shared by all recursive calls. On trees with unique ids it computes exactly the page
 specified by `SemanticSerializer`.
 */
module SerializerClass {
  import opened SemanticSerializer
  import opened StableSort
  import opened Wrappers

  function Ids(n: SemNode): set<nat>
    decreases n, 1
  {
    {n.id} + IdsList(n.children)
  }

  function IdsList(ns: seq<SemNode>): set<nat>
    decreases ns, 0
  {
    if ns == [] then {} else Ids(ns[0]) + IdsList(ns[1..])
  }

  ghost predicate UniqueIds(n: SemNode)
    decreases n, 1
  {
    n.id !in IdsList(n.children) && UniqueList(n.children)
  }

  ghost predicate UniqueList(ns: seq<SemNode>)
    decreases ns, 0
  {
    ns == [] || (UniqueIds(ns[0]) && UniqueList(ns[1..]) && Ids(ns[0]) !! IdsList(ns[1..]))
  }

  /** The map holds the subtree counts of every node below `n`. */
  ghost predicate Recorded(env: Env, n: SemNode, counts: map<nat, Count>)
    decreases n, 1
  {
    n.id in counts && counts[n.id] == CountOf(env, n) && RecordedList(env, n.children, counts)
  }

  ghost predicate RecordedList(env: Env, ns: seq<SemNode>, counts: map<nat, Count>)
    decreases ns, 0
  {
    ns == [] || (Recorded(env, ns[0], counts) && RecordedList(env, ns[1..], counts))
  }

  ghost predicate SameOn(ids: set<nat>, a: map<nat, Count>, b: map<nat, Count>)
  {
    forall i :: i in ids ==> (i in a <==> i in b) && (i in a ==> a[i] == b[i])
  }

  lemma {:induction false} RecordedFrame(env: Env, n: SemNode, a: map<nat, Count>, b: map<nat, Count>)
    requires Recorded(env, n, a) && SameOn(Ids(n), a, b)
    ensures Recorded(env, n, b)
    decreases n, 1
  {
    assert n.id in Ids(n);
    RecordedListFrame(env, n.children, a, b);
  }

  lemma {:induction false} RecordedListFrame(env: Env, ns: seq<SemNode>, a: map<nat, Count>, b: map<nat, Count>)
    requires RecordedList(env, ns, a) && SameOn(IdsList(ns), a, b)
    ensures RecordedList(env, ns, b)
    decreases ns, 0
  {
    if ns != [] {
      RecordedFrame(env, ns[0], a, b);
      RecordedListFrame(env, ns[1..], a, b);
    }
  }

  // ---------------------------------------------------------------- sorting by the recorded counts

  /** The sort key the program uses: the recorded count, or zero. */
  function Lookup(counts: map<nat, Count>): SemNode -> int
  {
    (n: SemNode) => if n.id in counts then counts[n.id].allowed else 0
  }

  lemma {:induction false} RecordedAt(env: Env, ns: seq<SemNode>, counts: map<nat, Count>, i: nat)
    requires RecordedList(env, ns, counts) && i < |ns|
    ensures Recorded(env, ns[i], counts)
  {
    if i > 0 {
      RecordedAt(env, ns[1..], counts, i - 1);
    }
  }

  lemma {:induction false} InsertRecorded(env: Env, key: SemNode -> int, counts: map<nat, Count>, n: SemNode,
                                          sorted: seq<SemNode>)
    requires Recorded(env, n, counts) && RecordedList(env, sorted, counts)
    ensures RecordedList(env, Insert(key, n, sorted), counts)
  {
    var r := Insert(key, n, sorted);
    if sorted == [] || key(n) >= key(sorted[0]) {
      assert r[1..] == sorted;
    } else {
      InsertRecorded(env, key, counts, n, sorted[1..]);
      assert r[1..] == Insert(key, n, sorted[1..]);
    }
  }

  lemma {:induction false} SortRecorded(env: Env, key: SemNode -> int, counts: map<nat, Count>, ns: seq<SemNode>)
    requires RecordedList(env, ns, counts)
    ensures RecordedList(env, Sort(key, ns), counts)
  {
    if ns != [] {
      SortRecorded(env, key, counts, ns[1..]);
      InsertRecorded(env, key, counts, ns[0], Sort(key, ns[1..]));
    }
  }

  lemma SortByIsOrdered(env: Env, counts: map<nat, Count>, ns: seq<SemNode>)
    requires RecordedList(env, ns, counts)
    ensures Sort(Lookup(counts), ns) == Ordered(env, ns)
    ensures RecordedList(env, Sort(Lookup(counts), ns), counts)
  {
    forall i | 0 <= i < |ns|
      ensures Lookup(counts)(ns[i]) == Allowed(env)(ns[i])
    {
      RecordedAt(env, ns, counts, i);
    }
    SortCongruent(Lookup(counts), Allowed(env), ns);
    SortRecorded(env, Lookup(counts), counts, ns);
  }

  // ---------------------------------------------------------------- the class

  class Serializer {
    const env: Env
    var counts: map<nat, Count>
    var retainedNodes: nat
    var retainedBytes: nat
    var truncated: bool

    constructor (env: Env, treeTruncated: bool)
      ensures this.env == env && State() == Budget(0, 0, treeTruncated) && counts == map[]
    {
      this.env := env;
      counts, retainedNodes, retainedBytes, truncated := map[], 0, 0, treeTruncated;
    }

    function State(): Budget
      reads this
    {
      Budget(retainedNodes, retainedBytes, truncated)
    }

    method SubtreeCounts(n: SemNode) returns (c: Count)
      requires UniqueIds(n)
      modifies this`counts
      ensures c == CountOf(env, n) && Recorded(env, n, counts)
      ensures forall i :: i !in Ids(n) ==> SameOn({i}, old(counts), counts)
      decreases n, 1
    {
      var rest := CountChildren(n.children);
      c := Count(OwnCount(env, n).any + rest.any, OwnCount(env, n).allowed + rest.allowed);
      ghost var before := counts;
      counts := counts[n.id := c];
      RecordedListFrame(env, n.children, before, counts);
    }

    method CountChildren(ns: seq<SemNode>) returns (c: Count)
      requires UniqueList(ns)
      modifies this`counts
      ensures c == CountList(env, ns) && RecordedList(env, ns, counts)
      ensures forall i :: i !in IdsList(ns) ==> SameOn({i}, old(counts), counts)
      decreases ns, 0
    {
      if ns == [] {
        return Count(0, 0);
      }
      var first := SubtreeCounts(ns[0]);
      ghost var before := counts;
      var rest := CountChildren(ns[1..]);
      assert SameOn(Ids(ns[0]), before, counts) by {
        forall i | i in Ids(ns[0])
          ensures (i in before <==> i in counts) && (i in before ==> before[i] == counts[i])
        {
          assert i !in IdsList(ns[1..]);
          assert SameOn({i}, before, counts);
          assert i in {i};
        }
      }
      RecordedFrame(env, ns[0], before, counts);
      c := Count(first.any + rest.any, first.allowed + rest.allowed);
    }

    method SerializeNode(n: SemNode, contextual: bool) returns (a: Option<AgentNode>)
      requires Recorded(env, n, counts)
      modifies this`retainedNodes, this`retainedBytes, this`truncated
      ensures (a, State()) == Serialize(env, n, contextual, old(State()))
      decreases Size(n), 0
    {
      var count := counts[n.id];
      var target := Target(env, n);
      if target.Some? && target.value.ref !in env.allowed {
        return None;
      }
      if target.None? && count.any > 0 && count.allowed == 0 {
        return None;
      }
      if target.None? && count.allowed == 0 && !contextual && n.role !in CONTEXT_ROLES {
        return None;
      }
      var estimatedBytes := OwnBytes(n.role, n.caption, target);
      if retainedNodes >= env.maxNodes || retainedBytes + estimatedBytes > env.maxBytes {
        truncated := true;
        return None;
      }
      retainedNodes := retainedNodes + 1;
      retainedBytes := retainedBytes + estimatedBytes;
      SortByIsOrdered(env, counts, n.children);
      SortSize(Allowed(env), n.children);
      var children := SerializeSiblings(Sort(Lookup(counts), n.children), count.allowed > 0 || contextual);
      return Some(AgentNode(n.role, n.caption, target, children));
    }

    method SerializeSiblings(ns: seq<SemNode>, contextual: bool) returns (xs: seq<AgentNode>)
      requires RecordedList(env, ns, counts)
      modifies this`retainedNodes, this`retainedBytes, this`truncated
      ensures (xs, State()) == SerializeList(env, ns, contextual, old(State()))
      decreases SizeList(ns), 1
    {
      if ns == [] {
        return [];
      }
      var first := SerializeNode(ns[0], contextual);
      var rest := SerializeSiblings(ns[1..], contextual);
      xs := if first.Some? then [first.value] + rest else rest;
      assert [] + rest == rest;
    }

    /** The whole of `serializeSemanticTreePage`. */
    method SerializePage(roots: seq<SemNode>) returns (page: seq<AgentNode>)
      requires UniqueList(roots) && retainedNodes == 0 && retainedBytes == 0
      modifies this
      ensures (page, State()) == Page(env, roots, old(truncated))
    {
      var _ := CountChildren(roots);
      SortByIsOrdered(env, counts, roots);
      page := SerializeSiblings(Sort(Lookup(counts), roots), false);
    }
  }
}

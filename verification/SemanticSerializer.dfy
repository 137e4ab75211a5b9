/**
 Serialization of a semantic page tree under a node and a byte budget. The counters are shared
 by the whole traversal, children with more allowed targets come first, and a node that is not
 kept takes its whole subtree with it.
 */
module SemanticSerializer {
  import opened StableSort
  import opened Wrappers

  /** `caption` stands for the name, text, level and state that are copied to the output. */
  datatype SemNode = SemNode(id: nat, role: string, caption: string, targetKey: string, children: seq<SemNode>)

  datatype TargetRef = TargetRef(ref: string, frameRef: string)

  datatype AgentNode = AgentNode(role: string, caption: string, target: Option<TargetRef>, children: seq<AgentNode>)

  datatype Env = Env(refs: map<string, TargetRef>, allowed: set<string>, maxNodes: nat, maxBytes: nat)

  datatype Count = Count(any: nat, allowed: nat)

  datatype Budget = Budget(nodes: nat, bytes: nat, truncated: bool)

  const CONTEXT_ROLES: set<string> := {
    "document", "main", "navigation", "region", "article", "form", "dialog", "alertdialog", "heading",
    "list", "listitem", "table", "row", "cell", "columnheader", "rowheader", "group", "paragraph",
    "label", "caption", "note", "status", "alert", "description" }

  function Target(env: Env, n: SemNode): Option<TargetRef>
  {
    if n.targetKey != "" && n.targetKey in env.refs then Some(env.refs[n.targetKey]) else None
  }

  /** Bytes of a node's own fields; the children are charged separately. */
  function OwnBytes(role: string, caption: string, target: Option<TargetRef>): nat
  {
    11 + |role| + |caption| +
    match target case None => 0 case Some(t) => 38 + |t.ref| + |t.frameRef|
  }

  // ---------------------------------------------------------------- sizes and counts

  function Size(n: SemNode): nat
    decreases n, 1
  {
    1 + SizeList(n.children)
  }

  function SizeList(ns: seq<SemNode>): nat
    decreases ns, 0
  {
    if ns == [] then 0 else Size(ns[0]) + SizeList(ns[1..])
  }

  function OwnCount(env: Env, n: SemNode): Count
  {
    match Target(env, n)
    case None => Count(0, 0)
    case Some(t) =>
      if t.ref == "" then Count(0, 0) else if t.ref in env.allowed then Count(1, 1) else Count(1, 0)
  }

  function CountOf(env: Env, n: SemNode): Count
    decreases n, 1
  {
    var rest := CountList(env, n.children);
    Count(OwnCount(env, n).any + rest.any, OwnCount(env, n).allowed + rest.allowed)
  }

  function CountList(env: Env, ns: seq<SemNode>): Count
    decreases ns, 0
  {
    if ns == [] then Count(0, 0)
    else
      var first, rest := CountOf(env, ns[0]), CountList(env, ns[1..]);
      Count(first.any + rest.any, first.allowed + rest.allowed)
  }

  // ---------------------------------------------------------------- order of siblings

  function Allowed(env: Env): SemNode -> int
  {
    (n: SemNode) => CountOf(env, n).allowed
  }

  /** `actionableFirst`: more allowed targets first, original order among equals. */
  function Ordered(env: Env, ns: seq<SemNode>): seq<SemNode>
  {
    Sort(Allowed(env), ns)
  }

  lemma {:induction false} InsertSize(key: SemNode -> int, n: SemNode, sorted: seq<SemNode>)
    ensures SizeList(Insert(key, n, sorted)) == Size(n) + SizeList(sorted)
  {
    var r := Insert(key, n, sorted);
    if sorted == [] || key(n) >= key(sorted[0]) {
      assert r[1..] == sorted;
    } else {
      assert r[1..] == Insert(key, n, sorted[1..]);
      InsertSize(key, n, sorted[1..]);
    }
  }

  lemma {:induction false} SortSize(key: SemNode -> int, ns: seq<SemNode>)
    ensures SizeList(Sort(key, ns)) == SizeList(ns)
  {
    if ns != [] {
      SortSize(key, ns[1..]);
      InsertSize(key, ns[0], Sort(key, ns[1..]));
    }
  }

  // ---------------------------------------------------------------- the traversal

  /** Whether the node is passed over before the budget is consulted. */
  predicate PassedOver(env: Env, n: SemNode, contextual: bool)
  {
    var count := CountOf(env, n);
    match Target(env, n)
    case Some(t) => t.ref !in env.allowed
    case None =>
      count.allowed == 0 && (count.any > 0 || (!contextual && n.role !in CONTEXT_ROLES))
  }

  predicate Affordable(env: Env, n: SemNode, b: Budget)
  {
    b.nodes < env.maxNodes && b.bytes + OwnBytes(n.role, n.caption, Target(env, n)) <= env.maxBytes
  }

  function Charge(env: Env, n: SemNode, b: Budget): Budget
  {
    Budget(b.nodes + 1, b.bytes + OwnBytes(n.role, n.caption, Target(env, n)), b.truncated)
  }

  function Serialize(env: Env, n: SemNode, contextual: bool, b: Budget): (Option<AgentNode>, Budget)
    decreases Size(n), 0
  {
    if PassedOver(env, n, contextual) then (None, b)
    else if !Affordable(env, n, b) then (None, b.(truncated := true))
    else
      SortSize(Allowed(env), n.children);
      var inContext := CountOf(env, n).allowed > 0 || contextual;
      var (kids, b') := SerializeList(env, Ordered(env, n.children), inContext, Charge(env, n, b));
      (Some(AgentNode(n.role, n.caption, Target(env, n), kids)), b')
  }

  function SerializeList(env: Env, ns: seq<SemNode>, contextual: bool, b: Budget): (seq<AgentNode>, Budget)
    decreases SizeList(ns), 1
  {
    if ns == [] then ([], b)
    else
      var (first, b1) := Serialize(env, ns[0], contextual, b);
      var (rest, b2) := SerializeList(env, ns[1..], contextual, b1);
      ((match first case None => [] case Some(a) => [a]) + rest, b2)
  }

  function Page(env: Env, roots: seq<SemNode>, treeTruncated: bool): (seq<AgentNode>, Budget)
  {
    SerializeList(env, Ordered(env, roots), false, Budget(0, 0, treeTruncated))
  }

  // ---------------------------------------------------------------- budgets

  function Nodes(a: AgentNode): nat
    decreases a, 1
  {
    1 + NodesList(a.children)
  }

  function NodesList(xs: seq<AgentNode>): nat
    decreases xs, 0
  {
    if xs == [] then 0 else Nodes(xs[0]) + NodesList(xs[1..])
  }

  function Bytes(a: AgentNode): nat
    decreases a, 1
  {
    OwnBytes(a.role, a.caption, a.target) + BytesList(a.children)
  }

  function BytesList(xs: seq<AgentNode>): nat
    decreases xs, 0
  {
    if xs == [] then 0 else Bytes(xs[0]) + BytesList(xs[1..])
  }

  ghost predicate Within(env: Env, b: Budget)
  {
    b.nodes <= env.maxNodes && b.bytes <= env.maxBytes
  }

  /** The counters account for exactly the emitted nodes and bytes and never pass their limits. */
  lemma {:induction false} NodeIsCharged(env: Env, n: SemNode, contextual: bool, b: Budget)
    requires Within(env, b)
    ensures var (a, b') := Serialize(env, n, contextual, b);
            && Within(env, b') && (b.truncated ==> b'.truncated)
            && b'.nodes == b.nodes + (if a.Some? then Nodes(a.value) else 0)
            && b'.bytes == b.bytes + (if a.Some? then Bytes(a.value) else 0)
    decreases Size(n), 0
  {
    if !PassedOver(env, n, contextual) && Affordable(env, n, b) {
      SortSize(Allowed(env), n.children);
      ListIsCharged(env, Ordered(env, n.children), CountOf(env, n).allowed > 0 || contextual, Charge(env, n, b));
    }
  }

  lemma {:induction false} ListIsCharged(env: Env, ns: seq<SemNode>, contextual: bool, b: Budget)
    requires Within(env, b)
    ensures var (xs, b') := SerializeList(env, ns, contextual, b);
            && Within(env, b') && (b.truncated ==> b'.truncated)
            && b'.nodes == b.nodes + NodesList(xs)
            && b'.bytes == b.bytes + BytesList(xs)
    decreases SizeList(ns), 1
  {
    if ns != [] {
      NodeIsCharged(env, ns[0], contextual, b);
      var (first, b1) := Serialize(env, ns[0], contextual, b);
      ListIsCharged(env, ns[1..], contextual, b1);
      var (rest, _) := SerializeList(env, ns[1..], contextual, b1);
      if first.Some? {
        assert ([first.value] + rest)[1..] == rest;
      } else {
        assert [] + rest == rest;
      }
    }
  }

  // ---------------------------------------------------------------- shape

  /** `a` is `n` with whole subtrees removed and siblings in their serialized order. */
  ghost predicate Embeds(env: Env, a: AgentNode, n: SemNode)
    decreases a, 1
  {
    && a.role == n.role && a.caption == n.caption && a.target == Target(env, n)
    && EmbedsList(env, a.children, Ordered(env, n.children))
  }

  ghost predicate EmbedsList(env: Env, xs: seq<AgentNode>, ns: seq<SemNode>)
    decreases xs, 0, |ns|
  {
    if xs == [] then true
    else
      && ns != []
      && (|| (Embeds(env, xs[0], ns[0]) && EmbedsList(env, xs[1..], ns[1..]))
          || EmbedsList(env, xs, ns[1..]))
  }

  lemma {:induction false} NodeEmbeds(env: Env, n: SemNode, contextual: bool, b: Budget)
    ensures var a := Serialize(env, n, contextual, b).0; a.Some? ==> Embeds(env, a.value, n)
    decreases Size(n), 0
  {
    if !PassedOver(env, n, contextual) && Affordable(env, n, b) {
      SortSize(Allowed(env), n.children);
      ListEmbeds(env, Ordered(env, n.children), CountOf(env, n).allowed > 0 || contextual, Charge(env, n, b));
    }
  }

  lemma {:induction false} ListEmbeds(env: Env, ns: seq<SemNode>, contextual: bool, b: Budget)
    ensures EmbedsList(env, SerializeList(env, ns, contextual, b).0, ns)
    decreases SizeList(ns), 1
  {
    if ns != [] {
      NodeEmbeds(env, ns[0], contextual, b);
      var (first, b1) := Serialize(env, ns[0], contextual, b);
      ListEmbeds(env, ns[1..], contextual, b1);
      var (rest, _) := SerializeList(env, ns[1..], contextual, b1);
      if first.Some? {
        assert ([first.value] + rest)[1..] == rest;
      } else {
        assert [] + rest == rest;
      }
    }
  }

  // ---------------------------------------------------------------- targets

  function RefsOf(a: AgentNode): multiset<string>
    decreases a, 1
  {
    (match a.target case None => multiset{} case Some(t) => multiset{t.ref}) + RefsOfList(a.children)
  }

  function RefsOfList(xs: seq<AgentNode>): multiset<string>
    decreases xs, 0
  {
    if xs == [] then multiset{} else RefsOf(xs[0]) + RefsOfList(xs[1..])
  }

  /** The refs of allowed targets below (and at) `n` that are not below a disallowed target. */
  function Visible(env: Env, n: SemNode): multiset<string>
    decreases n, 1
  {
    match Target(env, n)
    case None => VisibleList(env, n.children)
    case Some(t) => if t.ref in env.allowed then multiset{t.ref} + VisibleList(env, n.children) else multiset{}
  }

  function VisibleList(env: Env, ns: seq<SemNode>): multiset<string>
    decreases ns, 0
  {
    if ns == [] then multiset{} else Visible(env, ns[0]) + VisibleList(env, ns[1..])
  }

  /** The counting skips empty refs, so an empty ref must not be handed out as an allowed one. */
  ghost predicate NoEmptyAllowed(env: Env)
  {
    forall k :: k in env.refs && k != "" ==> env.refs[k].ref != "" || "" !in env.allowed
  }

  lemma {:induction false} NoAllowedNothingVisible(env: Env, n: SemNode)
    requires NoEmptyAllowed(env) && CountOf(env, n).allowed == 0
    ensures Visible(env, n) == multiset{}
    decreases n, 1
  {
    NoAllowedNothingVisibleList(env, n.children);
  }

  lemma {:induction false} NoAllowedNothingVisibleList(env: Env, ns: seq<SemNode>)
    requires NoEmptyAllowed(env) && CountList(env, ns).allowed == 0
    ensures VisibleList(env, ns) == multiset{}
    decreases ns, 0
  {
    if ns != [] {
      NoAllowedNothingVisible(env, ns[0]);
      NoAllowedNothingVisibleList(env, ns[1..]);
    }
  }

  lemma {:induction false} VisibleIsAllowed(env: Env, n: SemNode)
    ensures forall r :: r in Visible(env, n) ==> r in env.allowed
    decreases n, 1
  {
    VisibleListIsAllowed(env, n.children);
  }

  lemma {:induction false} VisibleListIsAllowed(env: Env, ns: seq<SemNode>)
    ensures forall r :: r in VisibleList(env, ns) ==> r in env.allowed
    decreases ns, 0
  {
    if ns != [] {
      VisibleIsAllowed(env, ns[0]);
      VisibleListIsAllowed(env, ns[1..]);
    }
  }

  lemma {:induction false} InsertVisible(env: Env, key: SemNode -> int, n: SemNode, sorted: seq<SemNode>)
    ensures VisibleList(env, Insert(key, n, sorted)) == Visible(env, n) + VisibleList(env, sorted)
  {
    var r := Insert(key, n, sorted);
    if sorted == [] || key(n) >= key(sorted[0]) {
      assert r[1..] == sorted;
    } else {
      assert r[1..] == Insert(key, n, sorted[1..]);
      InsertVisible(env, key, n, sorted[1..]);
    }
  }

  lemma {:induction false} SortVisible(env: Env, key: SemNode -> int, ns: seq<SemNode>)
    ensures VisibleList(env, Sort(key, ns)) == VisibleList(env, ns)
  {
    if ns != [] {
      SortVisible(env, key, ns[1..]);
      InsertVisible(env, key, ns[0], Sort(key, ns[1..]));
    }
  }

  /** Emitted refs are visible ones, each at most as often; all of them if nothing was cut. */
  ghost predicate Conserves(env: Env, emitted: multiset<string>, visible: multiset<string>, b': Budget)
  {
    emitted <= visible && (NoEmptyAllowed(env) && !b'.truncated ==> emitted == visible)
  }

  lemma {:induction false} NodeConserves(env: Env, n: SemNode, contextual: bool, b: Budget)
    ensures var (a, b') := Serialize(env, n, contextual, b);
            && (b.truncated ==> b'.truncated)
            && Conserves(env, if a.Some? then RefsOf(a.value) else multiset{}, Visible(env, n), b')
    decreases Size(n), 0
  {
    if PassedOver(env, n, contextual) {
      if Target(env, n).None? && NoEmptyAllowed(env) {
        NoAllowedNothingVisible(env, n);
      }
    } else if Affordable(env, n, b) {
      SortSize(Allowed(env), n.children);
      SortVisible(env, Allowed(env), n.children);
      ListConserves(env, Ordered(env, n.children), CountOf(env, n).allowed > 0 || contextual, Charge(env, n, b));
    }
  }

  lemma {:induction false} ListConserves(env: Env, ns: seq<SemNode>, contextual: bool, b: Budget)
    ensures var (xs, b') := SerializeList(env, ns, contextual, b);
            (b.truncated ==> b'.truncated) && Conserves(env, RefsOfList(xs), VisibleList(env, ns), b')
    decreases SizeList(ns), 1
  {
    if ns != [] {
      NodeConserves(env, ns[0], contextual, b);
      var (first, b1) := Serialize(env, ns[0], contextual, b);
      ListConserves(env, ns[1..], contextual, b1);
      var (rest, _) := SerializeList(env, ns[1..], contextual, b1);
      if first.Some? {
        assert ([first.value] + rest)[1..] == rest;
      } else {
        assert [] + rest == rest;
      }
    }
  }

  // ---------------------------------------------------------------- main result

  /**
   Every page: within both budgets, a pruned copy of the source in sibling order, with allowed
   refs only, each at most as often as it is visible; and if the page is not marked truncated
   and no empty ref is allowed, every visible target is there exactly as often as in the source.
   */
  lemma PageIsFaithful(env: Env, roots: seq<SemNode>, treeTruncated: bool)
    ensures var (page, b) := Page(env, roots, treeTruncated);
            && NodesList(page) <= env.maxNodes && BytesList(page) <= env.maxBytes
            && EmbedsList(env, page, Ordered(env, roots))
            && (forall r :: r in RefsOfList(page) ==> r in env.allowed)
            && RefsOfList(page) <= VisibleList(env, roots)
            && (NoEmptyAllowed(env) && !b.truncated ==> RefsOfList(page) == VisibleList(env, roots))
            && (treeTruncated ==> b.truncated)
  {
    var ordered := Ordered(env, roots);
    ListIsCharged(env, ordered, false, Budget(0, 0, treeTruncated));
    ListEmbeds(env, ordered, false, Budget(0, 0, treeTruncated));
    ListConserves(env, ordered, false, Budget(0, 0, treeTruncated));
    SortVisible(env, Allowed(env), roots);
    VisibleListIsAllowed(env, roots);
  }

  ghost predicate Complete(env: Env, roots: seq<SemNode>)
  {
    var (page, b) := Page(env, roots, false);
    !b.truncated ==> RefsOfList(page) == VisibleList(env, roots)
  }

  /** A target with an empty ref below a plain node: the page drops it without marking the cut. */
  function LostTarget(key: string): seq<SemNode>
  {
    [SemNode(0, "generic", "", "", [SemNode(1, "button", "", key, [])])]
  }

  /** Untruncated pages are complete for all trees exactly when no empty ref is allowed. */
  lemma CompleteIffNoEmptyRef(env: Env)
    ensures (forall roots :: Complete(env, roots)) <==> NoEmptyAllowed(env)
  {
    if NoEmptyAllowed(env) {
      forall roots
        ensures Complete(env, roots)
      {
        PageIsFaithful(env, roots, false);
      }
    } else {
      var k :| k in env.refs && k != "" && env.refs[k].ref == "" && "" in env.allowed;
      EmptyRefIsLost(env, k);
    }
  }

  lemma EmptyRefIsLost(env: Env, key: string)
    requires key in env.refs && key != "" && env.refs[key].ref == "" && "" in env.allowed
    ensures !Complete(env, LostTarget(key))
  {
    var roots := LostTarget(key);
    var parent := roots[0];
    var child := parent.children[0];
    assert CountList(env, []) == Count(0, 0);
    assert CountOf(env, child) == Count(0, 0);
    assert parent.children[1..] == [] && roots[1..] == [];
    assert CountList(env, parent.children) == Count(0, 0);
    assert PassedOver(env, parent, false);
    assert Sort(Allowed(env), roots) == roots;
    assert VisibleList(env, parent.children) == Visible(env, child) + multiset{};
    assert VisibleList(env, roots) == Visible(env, parent) + multiset{};
    assert "" in Visible(env, child);
    var start := Budget(0, 0, false);
    assert Serialize(env, parent, false, start) == (None, start);
    var none: seq<AgentNode> := [];
    assert none + none == none;
    assert SerializeList(env, roots[1..], false, start) == (none, start);
    assert SerializeList(env, roots, false, start) == (none, start);
    assert RefsOfList(none) == multiset{};
  }
}

/**
 The registry that fuses DOM, layout and accessibility nodes. Nodes are found by key and,
 through a second index that every insertion maintains, by backend node id.
 */
module SemanticRegistry {
  import opened Decimals
  import Tree = SemanticTree
  import opened Wrappers

  type Key = string

  datatype DomNode = DomNode(
    backendNodeId: nat,
    frameId: Option<string>,
    children: seq<DomNode>,
    shadowRoots: seq<DomNode>,
    content: Option<DomNode>)

  datatype AXNode = AXNode(nodeId: string, backendId: Option<nat>, childIds: seq<string>)

  datatype Canonical = Canonical(
    frameId: string,
    backendNodeId: Option<nat>,
    inDom: bool,
    inSnapshot: bool,
    inAX: bool,
    isTarget: bool,
    semanticSource: Option<Key>,
    domParent: Option<Key>,
    axParent: Option<Key>)

  /** The registered nodes. */
  type Nodes = map<Key, Canonical>

  /** Pairs of a child's key and a parent's, in the order in which they are made. */
  type Edges = seq<(Key, Key)>

  function NewNode(frameId: string, backendNodeId: Option<nat>): Canonical
  {
    Canonical(frameId, backendNodeId, false, false, false, false, None, None, None)
  }

  function CanonicalKey(frameId: string, backendNodeId: nat): Key
  {
    frameId + ":" + Decimal(backendNodeId)
  }

  /** The last colon of a key stands behind the frame id. */
  lemma LastColon(f: string, b: nat)
    ensures var k := CanonicalKey(f, b);
            k[|f|] == ':' && forall j :: |f| < j < |k| ==> k[j] != ':'
  {
    DecimalIsDigits(b);
    assert forall j :: |f| < j < |CanonicalKey(f, b)| ==> CanonicalKey(f, b)[j] == Decimal(b)[j - |f| - 1];
  }

  /** A key belongs to one frame and one backend id: a frame id may contain colons, a number does not. */
  lemma CanonicalKeyInjective(f: string, b: nat, f': string, b': nat)
    requires CanonicalKey(f, b) == CanonicalKey(f', b')
    ensures f == f' && b == b'
  {
    var k := CanonicalKey(f, b);
    LastColon(f, b);
    LastColon(f', b');
    assert |f| == |f'|;
    assert f == k[..|f|] == f' && Decimal(b) == k[|f| + 1..] == Decimal(b');
    DecimalInjective(b, b');
  }

  /** The keys a full scan of the nodes finds for a backend id. */
  function KeysWith(nodes: Nodes, b: nat): set<Key>
  {
    set k | k in nodes && nodes[k].backendNodeId == Some(b)
  }

  /** The answer of `resolveKey`, stated over the nodes alone. */
  ghost predicate Resolves(nodes: Nodes, mainFrameId: string, b: nat, frameId: string, r: Option<Key>)
  {
    var found := KeysWith(nodes, b);
    if frameId != "" && CanonicalKey(frameId, b) in nodes then r == Some(CanonicalKey(frameId, b))
    else if |found| == 1 then r.Some? && r.value in found
    else r == if CanonicalKey(mainFrameId, b) in found then Some(CanonicalKey(mainFrameId, b)) else None
  }

  lemma ResolvesOnce(nodes: Nodes, mainFrameId: string, b: nat, frameId: string, r: Option<Key>, q: Option<Key>)
    requires Resolves(nodes, mainFrameId, b, frameId, r) && Resolves(nodes, mainFrameId, b, frameId, q)
    ensures r == q
  {
    var found := KeysWith(nodes, b);
    if |found| == 1 && !(frameId != "" && CanonicalKey(frameId, b) in nodes) {
      OnlyMember(found, r.value, q.value);
    }
  }

  lemma OnlyMember(s: set<Key>, x: Key, y: Key)
    requires |s| == 1 && x in s && y in s
    ensures x == y
  {
    assert |s - {x}| == 0;
    assert y !in s - {x};
  }

  ghost function Resolved(nodes: Nodes, mainFrameId: string, b: nat, frameId: string): (r: Option<Key>)
    ensures Resolves(nodes, mainFrameId, b, frameId, r)
  {
    var found := KeysWith(nodes, b);
    if frameId != "" && CanonicalKey(frameId, b) in nodes then Some(CanonicalKey(frameId, b))
    else if |found| == 1 then
      assert found != {};
      var k :| k in found;
      Some(k)
    else if CanonicalKey(mainFrameId, b) in found then Some(CanonicalKey(mainFrameId, b))
    else None
  }

  /** Borrowed semantics come from the node that `resolveKey` names, or from the key it would have. */
  ghost predicate IsSource(nodes: Nodes, mainFrameId: string, frameId: string, b: nat, source: Option<Key>)
  {
    exists r :: Resolves(nodes, mainFrameId, b, frameId, r) &&
                source == if r.Some? then r else Some(CanonicalKey(frameId, b))
  }

  /** A layout record goes to the node that `resolveKey` names, or to the key it would have. */
  ghost predicate IsLayoutKey(nodes: Nodes, mainFrameId: string, b: nat, layoutFrameId: string, key: Key)
  {
    exists r :: Resolves(nodes, mainFrameId, b, layoutFrameId, r) &&
                key == if r.Some? then r.value
                       else CanonicalKey(if layoutFrameId != "" then layoutFrameId else mainFrameId, b)
  }

  predicate Borrows(backendNodeId: nat, semanticBackendNodeId: Option<nat>)
  {
    semanticBackendNodeId.Some? && semanticBackendNodeId.value != backendNodeId
  }

  /** One node became a target, was registered if need be, and took its borrowed semantics, if any. */
  ghost predicate TargetAdded(a: Nodes, b: Nodes, mainFrameId: string, frameId: string,
                              backendNodeId: nat, semanticBackendNodeId: Option<nat>)
  {
    var key := CanonicalKey(frameId, backendNodeId);
    var was := if key in a then a[key] else NewNode(frameId, Some(backendNodeId));
    && key in b && b == a[key := was.(isTarget := true, semanticSource := b[key].semanticSource)]
    && if Borrows(backendNodeId, semanticBackendNodeId)
       then IsSource(b, mainFrameId, frameId, semanticBackendNodeId.value, b[key].semanticSource)
       else b[key].semanticSource == was.semanticSource
  }

  lemma TargetIsAdded(a: Nodes, was: Nodes, source: Option<Key>, mainFrameId: string,
                      frameId: string, backendNodeId: nat, semanticBackendNodeId: Option<nat>)
    requires var key := CanonicalKey(frameId, backendNodeId);
             && was == (if key in a then a else a[key := NewNode(frameId, Some(backendNodeId))])
             && if Borrows(backendNodeId, semanticBackendNodeId)
                then IsSource(was, mainFrameId, frameId, semanticBackendNodeId.value, source)
                else source == was[key].semanticSource
    ensures var key := CanonicalKey(frameId, backendNodeId);
            TargetAdded(a, was[key := was[key].(isTarget := true, semanticSource := source)], mainFrameId, frameId,
                        backendNodeId, semanticBackendNodeId)
  {
    var key := CanonicalKey(frameId, backendNodeId);
    if Borrows(backendNodeId, semanticBackendNodeId) {
      var node := was[key].(isTarget := true, semanticSource := source);
      SourceStays(was, key, node, mainFrameId, frameId, semanticBackendNodeId.value, source);
    }
  }

  lemma SourceStays(nodes: Nodes, key: Key, node: Canonical, mainFrameId: string, frameId: string, b: nat,
                    source: Option<Key>)
    requires key in nodes && node.backendNodeId == nodes[key].backendNodeId
    requires IsSource(nodes, mainFrameId, frameId, b, source)
    ensures IsSource(nodes[key := node], mainFrameId, frameId, b, source)
  {
    var r :| Resolves(nodes, mainFrameId, b, frameId, r) &&
             source == if r.Some? then r else Some(CanonicalKey(frameId, b));
    assert KeysWith(nodes[key := node], b) == KeysWith(nodes, b);
    assert Resolves(nodes[key := node], mainFrameId, b, frameId, r);
  }

  /** Both directions: every indexed key is a node with that id, every node with an id is indexed. */
  ghost predicate IndexAgrees(nodes: Nodes, index: map<nat, set<Key>>)
  {
    && (forall b, k :: b in index && k in index[b] ==> k in nodes && nodes[k].backendNodeId == Some(b))
    && (forall k :: k in nodes && nodes[k].backendNodeId.Some? ==>
                      nodes[k].backendNodeId.value in index && k in index[nodes[k].backendNodeId.value])
  }

  /** The insertion order lists every node once. */
  ghost predicate OrderAgrees(nodes: Nodes, order: seq<Key>)
  {
    && (forall i, j :: 0 <= i < j < |order| ==> order[i] != order[j])
    && (forall k :: k in order <==> k in nodes)
  }

  /** A parent link names another registered node. */
  ghost predicate LinkInside(nodes: Nodes, k: Key, parent: Option<Key>)
  {
    parent.Some? ==> parent.value in nodes && parent.value != k
  }

  ghost predicate LinksInside(nodes: Nodes)
  {
    forall k {:trigger LinkInside(nodes, k, nodes[k].domParent)} {:trigger LinkInside(nodes, k, nodes[k].axParent)} ::
      k in nodes ==> LinkInside(nodes, k, nodes[k].domParent) && LinkInside(nodes, k, nodes[k].axParent)
  }

  lemma UpdateKeepsAgreement(nodes: Nodes, index: map<nat, set<Key>>, order: seq<Key>, key: Key, node: Canonical)
    requires IndexAgrees(nodes, index) && OrderAgrees(nodes, order) && LinksInside(nodes)
    requires key in nodes && node.backendNodeId == nodes[key].backendNodeId
    requires LinkInside(nodes, key, node.domParent) && LinkInside(nodes, key, node.axParent)
    ensures var nodes' := nodes[key := node];
            IndexAgrees(nodes', index) && OrderAgrees(nodes', order) && LinksInside(nodes')
  {
    var nodes' := nodes[key := node];
    forall k | k in nodes'
      ensures LinkInside(nodes', k, nodes'[k].domParent) && LinkInside(nodes', k, nodes'[k].axParent)
    {
      if k != key {
        assert LinkInside(nodes, k, nodes[k].domParent) && LinkInside(nodes, k, nodes[k].axParent);
      }
    }
  }

  lemma InsertKeepsLinks(nodes: Nodes, key: Key, node: Canonical)
    requires LinksInside(nodes) && key !in nodes && node.domParent.None? && node.axParent.None?
    ensures LinksInside(nodes[key := node])
  {
    var nodes' := nodes[key := node];
    forall k | k in nodes'
      ensures LinkInside(nodes', k, nodes'[k].domParent) && LinkInside(nodes', k, nodes'[k].axParent)
    {
      if k != key {
        assert LinkInside(nodes, k, nodes[k].domParent) && LinkInside(nodes, k, nodes[k].axParent);
      }
    }
  }

  // ---------------------------------------------------------------- what adding a DOM tree means

  ghost function FrameOf(n: DomNode, inheritedFrameId: string): string
  {
    if n.frameId.Some? then n.frameId.value else inheritedFrameId
  }

  ghost function KeyOf(n: DomNode, inheritedFrameId: string): Key
  {
    CanonicalKey(FrameOf(n, inheritedFrameId), n.backendNodeId)
  }

  /** The keys of a DOM tree; shadow roots and content documents belong to it. */
  ghost function DomKeys(n: DomNode, inheritedFrameId: string): set<Key>
    decreases n, 1
  {
    var frameId := FrameOf(n, inheritedFrameId);
    {KeyOf(n, inheritedFrameId)} + DomKeysBelow(n, frameId)
  }

  ghost function DomKeysBelow(n: DomNode, frameId: string): set<Key>
    decreases n, 0
  {
    DomKeysOf(n.children, frameId) + DomKeysOf(n.shadowRoots, frameId) + DomKeysIn(n.content, frameId)
  }

  ghost function DomKeysIn(content: Option<DomNode>, frameId: string): set<Key>
    decreases content, 0
  {
    if content.Some? then DomKeys(content.value, frameId) else {}
  }

  ghost function DomKeysOf(ns: seq<DomNode>, frameId: string): set<Key>
    decreases ns, 0
  {
    if ns == [] then {} else DomKeys(ns[0], frameId) + DomKeysOf(ns[1..], frameId)
  }

  ghost function ParentEdge(key: Key, parent: Option<Key>): Edges
  {
    if parent.Some? && parent.value != key then [(key, parent.value)] else []
  }

  /** Its pairs of a key and a different key one level up. */
  ghost function DomEdges(n: DomNode, inheritedFrameId: string, parent: Option<Key>): Edges
    decreases n, 1
  {
    var frameId, key := FrameOf(n, inheritedFrameId), KeyOf(n, inheritedFrameId);
    ParentEdge(key, parent) + DomEdgesBelow(n, frameId, key)
  }

  ghost function DomEdgesBelow(n: DomNode, frameId: string, key: Key): Edges
    decreases n, 0
  {
    DomEdgesOf(n.children, frameId, key) + DomEdgesOf(n.shadowRoots, frameId, key) + DomEdgesIn(n.content, frameId, key)
  }

  ghost function DomEdgesIn(content: Option<DomNode>, frameId: string, parent: Key): Edges
    decreases content, 0
  {
    if content.Some? then DomEdges(content.value, frameId, Some(parent)) else []
  }

  ghost function DomEdgesOf(ns: seq<DomNode>, frameId: string, parent: Key): Edges
    decreases ns, 0
  {
    if ns == [] then [] else DomEdges(ns[0], frameId, Some(parent)) + DomEdgesOf(ns[1..], frameId, parent)
  }

  /** The parent named by the last edge of `k`, or the one before if there is none. */
  ghost function LastParent(edges: Edges, k: Key, before: Option<Key>): Option<Key>
  {
    if edges == [] then before
    else if edges[|edges| - 1].0 == k then Some(edges[|edges| - 1].1)
    else LastParent(edges[..|edges| - 1], k, before)
  }

  lemma {:induction false} NoEdge(edges: Edges, k: Key, before: Option<Key>)
    requires forall i :: 0 <= i < |edges| ==> edges[i].0 != k
    ensures LastParent(edges, k, before) == before
    decreases |edges|
  {
    if edges != [] {
      NoEdge(edges[..|edges| - 1], k, before);
    }
  }

  /** Every later edge overwrites the earlier ones. */
  lemma {:induction false} LastEdgeWins(edges: Edges, k: Key, before: Option<Key>, i: nat)
    requires i < |edges| && edges[i].0 == k && forall j :: i < j < |edges| ==> edges[j].0 != k
    ensures LastParent(edges, k, before) == Some(edges[i].1)
    decreases |edges|
  {
    if i < |edges| - 1 {
      LastEdgeWins(edges[..|edges| - 1], k, before, i);
    }
  }

  lemma {:induction false} LastParentTwice(edges: Edges, edges': Edges, k: Key, before: Option<Key>)
    ensures LastParent(edges + edges', k, before) == LastParent(edges', k, LastParent(edges, k, before))
    decreases |edges'|
  {
    if edges' == [] {
      assert edges + edges' == edges;
    } else {
      var all := edges + edges';
      assert all[..|all| - 1] == edges + edges'[..|edges'| - 1];
      LastParentTwice(edges, edges'[..|edges'| - 1], k, before);
    }
  }

  /** The node registered under `k`, or a blank one. */
  ghost function At(nodes: Nodes, k: Key): Canonical
  {
    if k in nodes then nodes[k] else NewNode("", None)
  }

  /** Exactly `keys` were registered or marked as DOM nodes; nothing but marks and DOM parents changed. */
  ghost predicate DomAdded(a: Nodes, b: Nodes, keys: set<Key>, edges: Edges)
  {
    && b.Keys == a.Keys + keys
    && (forall k :: k in a ==> b[k].frameId == a[k].frameId && b[k].backendNodeId == a[k].backendNodeId)
    && (forall k :: k in b && k !in a ==> IsCanonical(k, b[k]))
    && forall k :: DomAddedAt(At(a, k), At(b, k), k, keys, edges)
  }

  /** The node is filed under the key of its own frame and backend id. */
  ghost predicate IsCanonical(k: Key, node: Canonical)
  {
    node.backendNodeId.Some? && k == CanonicalKey(node.frameId, node.backendNodeId.value)
  }

  ghost predicate DomAddedAt(before: Canonical, after: Canonical, k: Key, keys: set<Key>, edges: Edges)
  {
    && (after.inDom <==> before.inDom || k in keys)
    && after.domParent == LastParent(edges, k, before.domParent)
    && after.inSnapshot == before.inSnapshot && after.inAX == before.inAX && after.isTarget == before.isTarget
    && after.semanticSource == before.semanticSource && after.axParent == before.axParent
  }

  lemma DomAddedTwice(a: Nodes, b: Nodes, c: Nodes,
                      keys: set<Key>, edges: Edges, keys': set<Key>, edges': Edges)
    requires DomAdded(a, b, keys, edges) && DomAdded(b, c, keys', edges')
    ensures DomAdded(a, c, keys + keys', edges + edges')
  {
    forall k
      ensures DomAddedAt(At(a, k), At(c, k), k, keys + keys', edges + edges')
    {
      assert DomAddedAt(At(a, k), At(b, k), k, keys, edges);
      LastParentTwice(edges, edges', k, At(a, k).domParent);
    }
  }

  /** One node is registered, marked and linked. */
  lemma DomAddedOne(a: Nodes, b: Nodes, key: Key, parent: Option<Key>)
    requires b.Keys == a.Keys + {key} && (key !in a ==> IsCanonical(key, b[key]))
    requires forall k :: k in a && k != key ==> b[k] == a[k]
    requires var was := At(a, key);
             b[key] == was.(frameId := if key in a then was.frameId else b[key].frameId,
                            backendNodeId := if key in a then was.backendNodeId else b[key].backendNodeId,
                            inDom := true,
                            domParent := if parent.Some? && parent.value != key then parent else was.domParent)
    ensures DomAdded(a, b, {key}, ParentEdge(key, parent))
  {
    var edges := ParentEdge(key, parent);
    forall k
      ensures DomAddedAt(At(a, k), At(b, k), k, {key}, edges)
    {
      if k == key && edges != [] {
        LastEdgeWins(edges, k, At(a, k).domParent, 0);
      } else {
        NoEdge(edges, k, At(a, k).domParent);
      }
    }
  }

  lemma ComposeDom(a: Nodes, b: Nodes, c: Nodes, n: DomNode, inheritedFrameId: string, parent: Option<Key>)
    requires var frameId, key := FrameOf(n, inheritedFrameId), KeyOf(n, inheritedFrameId);
             && DomAdded(a, b, {key}, ParentEdge(key, parent))
             && DomAdded(b, c, DomKeysBelow(n, frameId), DomEdgesBelow(n, frameId, key))
    ensures DomAdded(a, c, DomKeys(n, inheritedFrameId), DomEdges(n, inheritedFrameId, parent))
  {
    var frameId, key := FrameOf(n, inheritedFrameId), KeyOf(n, inheritedFrameId);
    var ks := DomKeysBelow(n, frameId);
    var es := DomEdgesBelow(n, frameId, key);
    DomAddedTwice(a, b, c, {key}, ParentEdge(key, parent), ks, es);
    assert {key} + ks == DomKeys(n, inheritedFrameId);
    assert ParentEdge(key, parent) + es == DomEdges(n, inheritedFrameId, parent);
  }

  lemma NothingAdded(a: Nodes)
    ensures DomAdded(a, a, {}, [])
  {
  }

  /**
   In a fresh registry every node of a DOM tree is found again by its backend id: within its own
   frame always, and without a frame if it belongs to the main frame or no other node has the id.
   */
  lemma DomNodesResolve(nodes: Nodes, mainFrameId: string, keys: set<Key>, edges: Edges, k: Key)
    requires DomAdded(map[], nodes, keys, edges) && k in keys
    ensures IsCanonical(k, nodes[k])
    ensures var b, frameId := nodes[k].backendNodeId.value, nodes[k].frameId;
            && (frameId != "" ==> Resolves(nodes, mainFrameId, b, frameId, Some(k)))
            && (frameId == mainFrameId || KeysWith(nodes, b) == {k} ==> Resolves(nodes, mainFrameId, b, "", Some(k)))
  {
    assert k in nodes && IsCanonical(k, nodes[k]);
    var found := KeysWith(nodes, nodes[k].backendNodeId.value);
    assert k in found;
  }

  // ---------------------------------------------------------------- what adding an accessibility tree means

  /** The edge made by an accessibility node that lists `childId`. */
  ghost function ChildEdge(parentKey: Key, childId: string, keyByAxId: map<string, Key>): Edges
  {
    if childId in keyByAxId && keyByAxId[childId] != parentKey then [(keyByAxId[childId], parentKey)] else []
  }

  ghost function ChildEdges(parentKey: Key, childIds: seq<string>, n: nat, keyByAxId: map<string, Key>): Edges
    requires n <= |childIds|
  {
    if n == 0 then []
    else ChildEdges(parentKey, childIds, n - 1, keyByAxId) + ChildEdge(parentKey, childIds[n - 1], keyByAxId)
  }

  /** The edges of the first `n` accessibility nodes. */
  ghost function AXEdges(axNodes: seq<AXNode>, n: nat, keyByAxId: map<string, Key>): Edges
    requires n <= |axNodes|
  {
    if n == 0 then []
    else AXEdges(axNodes, n - 1, keyByAxId) + EdgesFrom(axNodes[n - 1], keyByAxId)
  }

  ghost function EdgesFrom(ax: AXNode, keyByAxId: map<string, Key>): Edges
  {
    if ax.nodeId in keyByAxId then ChildEdges(keyByAxId[ax.nodeId], ax.childIds, |ax.childIds|, keyByAxId) else []
  }

  /** Only accessibility parents changed, and they follow `edges`. */
  ghost predicate AXLinked(a: Nodes, b: Nodes, edges: Edges)
  {
    && a.Keys == b.Keys
    && forall k {:trigger AXLinkedAt(a[k], b[k], k, edges)} :: k in a ==> AXLinkedAt(a[k], b[k], k, edges)
  }

  ghost predicate AXLinkedAt(before: Canonical, after: Canonical, k: Key, edges: Edges)
  {
    after == before.(axParent := LastParent(edges, k, before.axParent))
  }

  lemma AXLinkedTwice(a: Nodes, b: Nodes, c: Nodes, edges: Edges, edges': Edges)
    requires AXLinked(a, b, edges) && AXLinked(b, c, edges')
    ensures AXLinked(a, c, edges + edges')
  {
    forall k | k in a
      ensures AXLinkedAt(a[k], c[k], k, edges + edges')
    {
      assert AXLinkedAt(a[k], b[k], k, edges) && AXLinkedAt(b[k], c[k], k, edges');
      LastParentTwice(edges, edges', k, a[k].axParent);
    }
  }

  lemma AXLinkedOne(a: Nodes, child: Key, parent: Key)
    requires child in a
    ensures AXLinked(a, a[child := a[child].(axParent := Some(parent))], [(child, parent)])
  {
    forall k | k in a
      ensures AXLinkedAt(a[k], a[child := a[child].(axParent := Some(parent))][k], k, [(child, parent)])
    {
      if k == child {
        LastEdgeWins([(child, parent)], k, a[k].axParent, 0);
      } else {
        NoEdge([(child, parent)], k, a[k].axParent);
      }
    }
  }

  lemma NothingLinked(a: Nodes)
    ensures AXLinked(a, a, [])
  {
  }

  /** The key and frame of an accessibility node: those of its DOM node, if that can be told. */
  ghost function AXKeyOf(nodes: Nodes, mainFrameId: string, ax: AXNode): (Key, string)
  {
    if ax.backendId.None? || ax.backendId.value == 0 then ("ax:" + ax.nodeId, mainFrameId)
    else
      match Resolved(nodes, mainFrameId, ax.backendId.value, "")
      case None => (CanonicalKey(mainFrameId, ax.backendId.value), mainFrameId)
      case Some(key) => (key, if key in nodes then nodes[key].frameId else mainFrameId)
  }

  /** The node is marked; a new one records the backend id, even zero. */
  ghost function AXRegistered(nodes: Nodes, mainFrameId: string, ax: AXNode): Nodes
  {
    var (key, frameId) := AXKeyOf(nodes, mainFrameId, ax);
    nodes[key := (if key in nodes then nodes[key] else NewNode(frameId, ax.backendId)).(inAX := true)]
  }

  /** The nodes after the first `n` accessibility nodes have been registered. */
  ghost function AXNodes(nodes: Nodes, mainFrameId: string, axNodes: seq<AXNode>, n: nat): Nodes
    requires n <= |axNodes|
  {
    if n == 0 then nodes else AXRegistered(AXNodes(nodes, mainFrameId, axNodes, n - 1), mainFrameId, axNodes[n - 1])
  }

  /** The keys remembered for their ids; a repeated id remembers the last one. */
  ghost function AXKeys(nodes: Nodes, mainFrameId: string, axNodes: seq<AXNode>, n: nat): map<string, Key>
    requires n <= |axNodes|
  {
    if n == 0 then map[]
    else
      AXKeys(nodes, mainFrameId, axNodes, n - 1)[
        axNodes[n - 1].nodeId := AXKeyOf(AXNodes(nodes, mainFrameId, axNodes, n - 1), mainFrameId, axNodes[n - 1]).0]
  }

  /** Accessibility marks were added; nothing else about a node changed, and new nodes have no parent yet. */
  ghost predicate AXMarked(a: Nodes, b: Nodes)
  {
    && a.Keys <= b.Keys
    && (forall k :: k in a ==> b[k] == a[k].(inAX := b[k].inAX) && (a[k].inAX ==> b[k].inAX))
    && (forall k :: k in b && k !in a ==> b[k] == NewNode(b[k].frameId, b[k].backendNodeId).(inAX := true))
  }

  lemma {:induction false} AXNodesAreMarked(nodes: Nodes, mainFrameId: string, axNodes: seq<AXNode>, n: nat)
    requires n <= |axNodes|
    ensures AXMarked(nodes, AXNodes(nodes, mainFrameId, axNodes, n))
  {
    if n > 0 {
      var before := AXNodes(nodes, mainFrameId, axNodes, n - 1);
      AXNodesAreMarked(nodes, mainFrameId, axNodes, n - 1);
      OneIsMarked(before, mainFrameId, axNodes[n - 1]);
      AXMarkedTwice(nodes, before, AXRegistered(before, mainFrameId, axNodes[n - 1]));
    }
  }

  /** The remembered keys name marked nodes. */
  lemma {:induction false} AXKeysAreMarked(nodes: Nodes, mainFrameId: string, axNodes: seq<AXNode>, n: nat)
    requires n <= |axNodes|
    ensures KeysMarked(AXNodes(nodes, mainFrameId, axNodes, n), AXKeys(nodes, mainFrameId, axNodes, n))
  {
    if n > 0 {
      var before, ax := AXNodes(nodes, mainFrameId, axNodes, n - 1), axNodes[n - 1];
      AXKeysAreMarked(nodes, mainFrameId, axNodes, n - 1);
      OneIsMarked(before, mainFrameId, ax);
      KeysStayMarked(before, AXRegistered(before, mainFrameId, ax), AXKeys(nodes, mainFrameId, axNodes, n - 1),
                     ax.nodeId, AXKeyOf(before, mainFrameId, ax).0);
    }
  }

  /** An id is remembered exactly when some accessibility node carries it. */
  lemma {:induction false} RememberedIds(nodes: Nodes, mainFrameId: string, axNodes: seq<AXNode>, n: nat, id: string)
    requires n <= |axNodes|
    ensures id in AXKeys(nodes, mainFrameId, axNodes, n) <==> exists i :: 0 <= i < n && axNodes[i].nodeId == id
  {
    if n > 0 {
      RememberedIds(nodes, mainFrameId, axNodes, n - 1, id);
    }
  }

  lemma OneIsMarked(nodes: Nodes, mainFrameId: string, ax: AXNode)
    ensures var (key, after) := (AXKeyOf(nodes, mainFrameId, ax).0, AXRegistered(nodes, mainFrameId, ax));
            AXMarked(nodes, after) && key in after && after[key].inAX
  {
  }

  lemma KeysStayMarked(a: Nodes, b: Nodes, keys: map<string, Key>, id: string, key: Key)
    requires KeysMarked(a, keys) && AXMarked(a, b) && key in b && b[key].inAX
    ensures KeysMarked(b, keys[id := key])
  {
  }

  /**
   A backend id of zero counts as missing when the key is chosen, so such a node never joins a DOM
   node; but it is recorded, and a scan for id zero finds the node.
   */
  lemma ZeroIdIsRecorded(nodes: Nodes, mainFrameId: string, ax: AXNode)
    requires ax.backendId == Some(0) && "ax:" + ax.nodeId !in nodes
    ensures var key, after := "ax:" + ax.nodeId, AXRegistered(nodes, mainFrameId, ax);
            && after == nodes[key := NewNode(mainFrameId, Some(0)).(inAX := true)]
            && key in KeysWith(after, 0) && KeysWith(after, 0) == KeysWith(nodes, 0) + {key}
  {
  }

  ghost predicate KnownKeys(keyByAxId: map<string, Key>, known: set<Key>)
  {
    forall id :: id in keyByAxId ==> keyByAxId[id] in known
  }

  ghost predicate KeysMarked(nodes: Nodes, keyByAxId: map<string, Key>)
  {
    forall id :: id in keyByAxId ==> keyByAxId[id] in nodes && nodes[keyByAxId[id]].inAX
  }

  lemma AXMarkedTwice(a: Nodes, b: Nodes, c: Nodes)
    requires AXMarked(a, b) && AXMarked(b, c)
    ensures AXMarked(a, c)
  {
  }

  class CanonicalNodeRegistry {
    const mainFrameId: string
    var nodes: Nodes
    var order: seq<Key>
    var keysByBackendNodeId: map<nat, set<Key>>

    /** The index agrees with the nodes, and parent links lead to other registered nodes. */
    ghost predicate Valid()
      reads this
    {
      && IndexAgrees(nodes, keysByBackendNodeId)
      && OrderAgrees(nodes, order)
      && LinksInside(nodes)
    }

    constructor (mainFrameId: string)
      ensures Valid() && nodes == map[] && this.mainFrameId == mainFrameId
    {
      this.mainFrameId := mainFrameId;
      nodes, order, keysByBackendNodeId := map[], [], map[];
    }

    method Ensure(key: Key, frameId: string, backendNodeId: Option<nat>)
      requires Valid()
      modifies this
      ensures Valid()
      ensures order == if key in old(nodes) then old(order) else old(order) + [key]
      ensures nodes == if key in old(nodes) then old(nodes)
                       else old(nodes)[key := NewNode(frameId, backendNodeId)]
    {
      if key in nodes {
        return;
      }
      InsertKeepsLinks(nodes, key, NewNode(frameId, backendNodeId));
      nodes := nodes[key := NewNode(frameId, backendNodeId)];
      order := order + [key];
      if backendNodeId.Some? {
        var b := backendNodeId.value;
        var keys := if b in keysByBackendNodeId then keysByBackendNodeId[b] else {};
        keysByBackendNodeId := keysByBackendNodeId[b := keys + {key}];
      }
    }

    /** The index answers like a full scan would. */
    method ResolveKey(backendNodeId: nat, frameId: string) returns (r: Option<Key>)
      requires Valid()
      ensures Resolves(nodes, mainFrameId, backendNodeId, frameId, r)
      ensures r.Some? ==> r.value in nodes
    {
      if frameId != "" {
        var exact := CanonicalKey(frameId, backendNodeId);
        if exact in nodes {
          return Some(exact);
        }
      }
      if backendNodeId !in keysByBackendNodeId {
        assert KeysWith(nodes, backendNodeId) == {};
        return None;
      }
      var keys := keysByBackendNodeId[backendNodeId];
      assert keys == KeysWith(nodes, backendNodeId);
      if |keys| == 0 {
        return None;
      }
      if |keys| == 1 {
        var k :| k in keys;
        return Some(k);
      }
      var mainFrameKey := CanonicalKey(mainFrameId, backendNodeId);
      return if mainFrameKey in keys then Some(mainFrameKey) else None;
    }

    /** Overwrite the mutable fields of a registered node. */
    method Update(key: Key, node: Canonical)
      requires Valid() && key in nodes
      requires node.frameId == nodes[key].frameId && node.backendNodeId == nodes[key].backendNodeId
      requires LinkInside(nodes, key, node.domParent) && LinkInside(nodes, key, node.axParent)
      modifies this`nodes
      ensures Valid() && nodes == old(nodes)[key := node]
    {
      UpdateKeepsAgreement(nodes, keysByBackendNodeId, order, key, node);
      nodes := nodes[key := node];
    }

    /** Register one DOM node below its parent and then everything below it. */
    method VisitDom(node: DomNode, inheritedFrameId: string, parentKey: Option<Key>)
      requires Valid() && (parentKey.Some? ==> parentKey.value in nodes)
      modifies this
      ensures Valid()
      ensures DomAdded(old(nodes), nodes, DomKeys(node, inheritedFrameId), DomEdges(node, inheritedFrameId, parentKey))
      decreases node, 2
    {
      var frameId := if node.frameId.Some? then node.frameId.value else inheritedFrameId;
      var key := CanonicalKey(frameId, node.backendNodeId);
      MarkDom(key, frameId, node.backendNodeId, parentKey);
      ghost var marked := nodes;
      VisitBelow(node, frameId, key);
      ComposeDom(old(nodes), marked, nodes, node, inheritedFrameId, parentKey);
    }

    method VisitBelow(node: DomNode, frameId: string, key: Key)
      requires Valid() && key in nodes
      modifies this
      ensures Valid()
      ensures DomAdded(old(nodes), nodes, DomKeysBelow(node, frameId), DomEdgesBelow(node, frameId, key))
      decreases node, 0
    {
      VisitAll(node.children, frameId, key);
      ghost var n1 := nodes;
      VisitAll(node.shadowRoots, frameId, key);
      ghost var n2 := nodes;
      VisitContent(node.content, frameId, key);
      ghost var ks, es := DomKeysOf(node.children, frameId), DomEdgesOf(node.children, frameId, key);
      ghost var ks', es' := DomKeysOf(node.shadowRoots, frameId), DomEdgesOf(node.shadowRoots, frameId, key);
      DomAddedTwice(old(nodes), n1, n2, ks, es, ks', es');
      DomAddedTwice(old(nodes), n2, nodes, ks + ks', es + es', DomKeysIn(node.content, frameId),
                    DomEdgesIn(node.content, frameId, key));
    }

    method VisitContent(content: Option<DomNode>, frameId: string, parentKey: Key)
      requires Valid() && parentKey in nodes
      modifies this
      ensures Valid()
      ensures DomAdded(old(nodes), nodes, DomKeysIn(content, frameId), DomEdgesIn(content, frameId, parentKey))
      decreases content, 0
    {
      if content.None? {
        NothingAdded(nodes);
        return;
      }
      VisitDom(content.value, frameId, Some(parentKey));
    }

    method VisitAll(ns: seq<DomNode>, frameId: string, parentKey: Key)
      requires Valid() && parentKey in nodes
      modifies this
      ensures Valid()
      ensures DomAdded(old(nodes), nodes, DomKeysOf(ns, frameId), DomEdgesOf(ns, frameId, parentKey))
      decreases ns, 0
    {
      if ns == [] {
        NothingAdded(nodes);
        return;
      }
      VisitDom(ns[0], frameId, Some(parentKey));
      ghost var before := nodes;
      VisitAll(ns[1..], frameId, parentKey);
      DomAddedTwice(old(nodes), before, nodes, DomKeys(ns[0], frameId), DomEdges(ns[0], frameId, Some(parentKey)),
                    DomKeysOf(ns[1..], frameId), DomEdgesOf(ns[1..], frameId, parentKey));
    }

    /** Every node of the tree is registered and linked to a node one level up; nothing else changes. */
    method AddDOMTree(root: DomNode)
      requires Valid()
      modifies this
      ensures Valid()
      ensures DomAdded(old(nodes), nodes, DomKeys(root, mainFrameId), DomEdges(root, mainFrameId, None))
    {
      VisitDom(root, mainFrameId, None);
    }

    method MarkDom(key: Key, frameId: string, backendNodeId: nat, parentKey: Option<Key>)
      requires Valid() && (parentKey.Some? ==> parentKey.value in nodes)
      requires key == CanonicalKey(frameId, backendNodeId)
      modifies this
      ensures Valid() && key in nodes
      ensures DomAdded(old(nodes), nodes, {key}, ParentEdge(key, parentKey))
    {
      Ensure(key, frameId, Some(backendNodeId));
      assert LinkInside(nodes, key, nodes[key].domParent) && LinkInside(nodes, key, nodes[key].axParent);
      var canonical := nodes[key].(inDom := true);
      if parentKey.Some? && parentKey.value != key {
        canonical := canonical.(domParent := parentKey);
      }
      Update(key, canonical);
      DomAddedOne(old(nodes), nodes, key, parentKey);
    }

    /** Layout records attach to the node `resolveKey` names, or make a new one. */
    method AddSnapshotRecord(backendNodeId: nat, layoutFrameId: string) returns (key: Key)
      requires Valid()
      modifies this
      ensures Valid() && IsLayoutKey(old(nodes), mainFrameId, backendNodeId, layoutFrameId, key)
      ensures var frameId := if layoutFrameId != "" then layoutFrameId else mainFrameId;
              var was := if key in old(nodes) then old(nodes)[key] else NewNode(frameId, Some(backendNodeId));
              nodes == old(nodes)[key := was.(inSnapshot := true)]
    {
      var frameId;
      key, frameId := LayoutKey(backendNodeId, layoutFrameId);
      Ensure(key, frameId, Some(backendNodeId));
      assert LinkInside(nodes, key, nodes[key].domParent) && LinkInside(nodes, key, nodes[key].axParent);
      Update(key, nodes[key].(inSnapshot := true));
    }

    method LayoutKey(backendNodeId: nat, layoutFrameId: string) returns (key: Key, frameId: string)
      requires Valid()
      ensures IsLayoutKey(nodes, mainFrameId, backendNodeId, layoutFrameId, key)
      ensures key !in nodes ==> frameId == if layoutFrameId != "" then layoutFrameId else mainFrameId
    {
      var existingKey := ResolveKey(backendNodeId, layoutFrameId);
      frameId := if layoutFrameId != "" then layoutFrameId
                 else if existingKey.Some? then nodes[existingKey.value].frameId
                 else mainFrameId;
      key := if existingKey.Some? then existingKey.value else CanonicalKey(frameId, backendNodeId);
    }

    /** An accessibility node shares the key of its DOM node, if that can be told, and gets its own otherwise. */
    method AXKey(ax: AXNode) returns (key: Key, frameId: string)
      requires Valid()
      ensures (key, frameId) == AXKeyOf(nodes, mainFrameId, ax)
    {
      if ax.backendId.None? || ax.backendId.value == 0 {
        return "ax:" + ax.nodeId, mainFrameId;
      }
      var b := ax.backendId.value;
      var existingKey := ResolveKey(b, "");
      ResolvesOnce(nodes, mainFrameId, b, "", existingKey, Resolved(nodes, mainFrameId, b, ""));
      if existingKey.Some? {
        return existingKey.value, nodes[existingKey.value].frameId;
      }
      return CanonicalKey(mainFrameId, b), mainFrameId;
    }

    method RegisterOneAX(ax: AXNode) returns (key: Key)
      requires Valid()
      modifies this
      ensures Valid() && nodes == AXRegistered(old(nodes), mainFrameId, ax)
      ensures key == AXKeyOf(old(nodes), mainFrameId, ax).0
    {
      var frameId;
      key, frameId := AXKey(ax);
      Ensure(key, frameId, ax.backendId);
      assert LinkInside(nodes, key, nodes[key].domParent) && LinkInside(nodes, key, nodes[key].axParent);
      Update(key, nodes[key].(inAX := true));
    }

    /** First pass of `addAXTree`: register every node and remember its key. */
    method RegisterAX(axNodes: seq<AXNode>) returns (keyByAxId: map<string, Key>)
      requires Valid()
      modifies this
      ensures Valid() && nodes == AXNodes(old(nodes), mainFrameId, axNodes, |axNodes|)
      ensures keyByAxId == AXKeys(old(nodes), mainFrameId, axNodes, |axNodes|)
    {
      keyByAxId := map[];
      for i := 0 to |axNodes|
        invariant Valid() && nodes == AXNodes(old(nodes), mainFrameId, axNodes, i)
        invariant keyByAxId == AXKeys(old(nodes), mainFrameId, axNodes, i)
      {
        var key := RegisterOneAX(axNodes[i]);
        keyByAxId := keyByAxId[axNodes[i].nodeId := key];
      }
    }

    /**
     Every accessibility node is registered under the key it resolves to at its turn, and every
     node listed as a child of another ends up below the last of the nodes that list it; the other
     nodes keep their parent.
     */
    method AddAXTree(axNodes: seq<AXNode>)
      requires Valid()
      modifies this
      ensures Valid()
      ensures var marked := AXNodes(old(nodes), mainFrameId, axNodes, |axNodes|);
              var keys := AXKeys(old(nodes), mainFrameId, axNodes, |axNodes|);
              && AXMarked(old(nodes), marked) && KeysMarked(marked, keys)
              && AXLinked(marked, nodes, AXEdges(axNodes, |axNodes|, keys))
    {
      var keys := RegisterAX(axNodes);
      AXNodesAreMarked(old(nodes), mainFrameId, axNodes, |axNodes|);
      AXKeysAreMarked(old(nodes), mainFrameId, axNodes, |axNodes|);
      LinkAX(axNodes, keys);
    }

    /** Second pass: a child that is known and not the parent itself is linked below it. */
    method LinkAX(axNodes: seq<AXNode>, keyByAxId: map<string, Key>)
      requires Valid() && KnownKeys(keyByAxId, nodes.Keys)
      modifies this`nodes
      ensures Valid() && AXLinked(old(nodes), nodes, AXEdges(axNodes, |axNodes|, keyByAxId))
    {
      NothingLinked(nodes);
      for i := 0 to |axNodes|
        invariant Valid() && AXLinked(old(nodes), nodes, AXEdges(axNodes, i, keyByAxId))
      {
        ghost var before := nodes;
        if axNodes[i].nodeId in keyByAxId {
          LinkChildren(keyByAxId[axNodes[i].nodeId], axNodes[i].childIds, keyByAxId);
        } else {
          NothingLinked(nodes);
        }
        AXLinkedTwice(old(nodes), before, nodes, AXEdges(axNodes, i, keyByAxId), EdgesFrom(axNodes[i], keyByAxId));
      }
    }

    method LinkChildren(parentKey: Key, childIds: seq<string>, keyByAxId: map<string, Key>)
      requires Valid() && parentKey in nodes && KnownKeys(keyByAxId, nodes.Keys)
      modifies this`nodes
      ensures Valid() && AXLinked(old(nodes), nodes, ChildEdges(parentKey, childIds, |childIds|, keyByAxId))
    {
      NothingLinked(nodes);
      for j := 0 to |childIds|
        invariant Valid() && AXLinked(old(nodes), nodes, ChildEdges(parentKey, childIds, j, keyByAxId))
      {
        ghost var before, edges := nodes, ChildEdges(parentKey, childIds, j, keyByAxId);
        ghost var edge := ChildEdge(parentKey, childIds[j], keyByAxId);
        assert before.Keys == old(nodes).Keys;
        LinkChild(parentKey, childIds[j], keyByAxId);
        assert AXLinked(before, nodes, edge);
        AXLinkedTwice(old(nodes), before, nodes, edges, edge);
        assert ChildEdges(parentKey, childIds, j + 1, keyByAxId) == edges + edge;
      }
    }

    method LinkChild(parentKey: Key, childId: string, keyByAxId: map<string, Key>)
      requires Valid() && parentKey in nodes && KnownKeys(keyByAxId, nodes.Keys)
      modifies this`nodes
      ensures Valid() && AXLinked(old(nodes), nodes, ChildEdge(parentKey, childId, keyByAxId))
    {
      if childId !in keyByAxId || keyByAxId[childId] == parentKey {
        NothingLinked(nodes);
        return;
      }
      var childKey := keyByAxId[childId];
      assert LinkInside(nodes, childKey, nodes[childKey].domParent) && LinkInside(nodes, childKey, Some(parentKey));
      AXLinkedOne(nodes, childKey, parentKey);
      Update(childKey, nodes[childKey].(axParent := Some(parentKey)));
    }

    /** An interactive element becomes the target of its own node and may borrow semantics from another. */
    method AddInteractiveElement(backendNodeId: nat, elementFrameId: string, semanticBackendNodeId: Option<nat>)
      returns (key: Key)
      requires Valid()
      modifies this
      ensures Valid()
      ensures var frameId := if elementFrameId != "" then elementFrameId else mainFrameId;
              && key == CanonicalKey(frameId, backendNodeId)
              && TargetAdded(old(nodes), nodes, mainFrameId, frameId, backendNodeId, semanticBackendNodeId)
    {
      var frameId := if elementFrameId != "" then elementFrameId else mainFrameId;
      key := CanonicalKey(frameId, backendNodeId);
      Ensure(key, frameId, Some(backendNodeId));
      ghost var was := nodes;
      assert LinkInside(nodes, key, nodes[key].domParent) && LinkInside(nodes, key, nodes[key].axParent);
      var source := BorrowedSource(backendNodeId, frameId, semanticBackendNodeId, nodes[key].semanticSource);
      Update(key, nodes[key].(isTarget := true, semanticSource := source));
      TargetIsAdded(old(nodes), was, source, mainFrameId, frameId, backendNodeId, semanticBackendNodeId);
    }

    method BorrowedSource(backendNodeId: nat, frameId: string, semanticBackendNodeId: Option<nat>, current: Option<Key>)
      returns (source: Option<Key>)
      requires Valid()
      ensures if Borrows(backendNodeId, semanticBackendNodeId)
              then IsSource(nodes, mainFrameId, frameId, semanticBackendNodeId.value, source) else source == current
    {
      if !Borrows(backendNodeId, semanticBackendNodeId) {
        return current;
      }
      source := SemanticSource(semanticBackendNodeId.value, frameId);
    }

    method SemanticSource(backendNodeId: nat, frameId: string) returns (source: Option<Key>)
      requires Valid()
      ensures IsSource(nodes, mainFrameId, frameId, backendNodeId, source)
    {
      var resolved := ResolveKey(backendNodeId, frameId);
      source := if resolved.Some? then resolved else Some(CanonicalKey(frameId, backendNodeId));
    }

    /** The parent links handed to the attachment: none dangles and none points to its own node. */
    function LinksView(): Tree.Registry
      reads this
    {
      map k | k in nodes :: Tree.Links(nodes[k].domParent, nodes[k].axParent)
    }

    lemma LinksStayInside(k: Key)
      requires Valid()
      ensures Tree.Link(LinksView(), k).Some? ==>
                Tree.Link(LinksView(), k).value in nodes && Tree.Link(LinksView(), k).value != k
    {
      if k in nodes {
        assert LinkInside(nodes, k, nodes[k].domParent) && LinkInside(nodes, k, nodes[k].axParent);
      }
    }
  }
}

/**
 How a page makes kept nodes unreachable: an accessibility node that lists the DOM parent of its own
 element as a child. The DOM parent of such a pair is the child's parent, its accessibility parent
 the child, and the walk upwards goes round in a circle.
 */
module ParentCycles {
  import opened SemanticRegistry
  import Tree = SemanticTree
  import opened Wrappers

  // ---------------------------------------------------------------- a circle of two

  /** Whatever else the links hold, two kept nodes that are each other's parent are lost. */
  lemma CircleIsUnreachable(links: Tree.Registry, a: Key, b: Key, kept: set<Key>, order: seq<Key>)
    requires a != b && a in kept && b in kept
    requires Tree.Link(links, a) == Some(b) && Tree.Link(links, b) == Some(a)
    ensures Lost(links, kept, order, a, b)
  {
    assert Tree.Anc(links, a, 0) == Some(a) && Tree.Anc(links, b, 0) == Some(b);
    assert Tree.Above(links, a, b, 1) && Tree.Above(links, b, a, 1);
    Tree.EntangledIsUnreachable(links, kept, order, a, b);
    Tree.EntangledIsUnreachable(links, kept, order, b, a);
  }

  // ---------------------------------------------------------------- the page

  /** A document element with one child. */
  function Page(parentId: nat, childId: nat): DomNode
  {
    DomNode(parentId, None, [DomNode(childId, None, [], [], None)], [], None)
  }

  /** The child's accessibility node lists the parent's. */
  function Accessibility(parentId: nat, childId: nat): seq<AXNode>
  {
    [AXNode("child", Some(childId), ["parent"]), AXNode("parent", Some(parentId), [])]
  }

  /** The registered DOM nodes of the page. */
  ghost predicate IsPair(nodes: Nodes, a: Key, parentId: nat, b: Key, childId: nat)
  {
    && a != b && nodes.Keys == {a, b}
    && nodes[a].backendNodeId == Some(parentId) && nodes[b].backendNodeId == Some(childId)
    && nodes[a].domParent == None && nodes[b].domParent == Some(a)
  }

  lemma PageEdges(frame: string, parentId: nat, childId: nat)
    requires parentId != childId
    ensures var a, b := CanonicalKey(frame, parentId), CanonicalKey(frame, childId);
            && a != b && DomKeys(Page(parentId, childId), frame) == {a, b}
            && DomEdges(Page(parentId, childId), frame, None) == [(b, a)]
  {
    var a, b := CanonicalKey(frame, parentId), CanonicalKey(frame, childId);
    if a == b {
      CanonicalKeyInjective(frame, parentId, frame, childId);
    }
    var kids := Page(parentId, childId).children;
    assert kids[1..] == [];
    assert DomKeysOf([], frame) == {} && DomEdgesOf([], frame, b) == [] && DomEdgesOf([], frame, a) == [];
    assert DomKeysBelow(kids[0], frame) == {} && DomEdgesBelow(kids[0], frame, b) == [];
    assert DomKeys(kids[0], frame) == {b} && DomEdges(kids[0], frame, Some(a)) == [(b, a)];
    assert DomKeysOf(kids, frame) == {b} && DomEdgesOf(kids, frame, a) == [(b, a)];
    var page := Page(parentId, childId);
    assert DomKeysBelow(page, frame) == {b} && DomEdgesBelow(page, frame, a) == [(b, a)];
  }

  lemma PageIsPair(nodes: Nodes, frame: string, parentId: nat, childId: nat)
    requires parentId != childId
    requires DomAdded(map[], nodes, DomKeys(Page(parentId, childId), frame),
                      DomEdges(Page(parentId, childId), frame, None))
    ensures IsPair(nodes, CanonicalKey(frame, parentId), parentId, CanonicalKey(frame, childId), childId)
  {
    var a, b := CanonicalKey(frame, parentId), CanonicalKey(frame, childId);
    var edges := [(b, a)];
    PageEdges(frame, parentId, childId);
    assert IsCanonical(a, nodes[a]) && IsCanonical(b, nodes[b]);
    CanonicalKeyInjective(nodes[a].frameId, nodes[a].backendNodeId.value, frame, parentId);
    CanonicalKeyInjective(nodes[b].frameId, nodes[b].backendNodeId.value, frame, childId);
    assert DomAddedAt(At(map[], a), At(nodes, a), a, {a, b}, edges);
    assert DomAddedAt(At(map[], b), At(nodes, b), b, {a, b}, edges);
    NoEdge(edges, a, None);
    LastEdgeWins(edges, b, None, 0);
  }

  /** Registering an accessibility node of the pair only marks it. */
  lemma JoinsDomNode(nodes: Nodes, frame: string, a: Key, parentId: nat, b: Key, childId: nat, ax: AXNode)
    requires IsPair(nodes, a, parentId, b, childId) && parentId != childId && parentId != 0 && childId != 0
    requires ax.backendId == Some(parentId) || ax.backendId == Some(childId)
    ensures AXKeyOf(nodes, frame, ax).0 == if ax.backendId == Some(parentId) then a else b
    ensures IsPair(AXRegistered(nodes, frame, ax), a, parentId, b, childId)
  {
    assert KeysWith(nodes, parentId) == {a} && KeysWith(nodes, childId) == {b};
  }

  lemma PairIsLinked(nodes: Nodes, frame: string, a: Key, parentId: nat, b: Key, childId: nat)
    requires IsPair(nodes, a, parentId, b, childId) && parentId != childId && parentId != 0 && childId != 0
    ensures var ax := Accessibility(parentId, childId);
            && IsPair(AXNodes(nodes, frame, ax, 2), a, parentId, b, childId)
            && AXEdges(ax, 2, AXKeys(nodes, frame, ax, 2)) == [(a, b)]
  {
    var ax := Accessibility(parentId, childId);
    var first := AXRegistered(nodes, frame, ax[0]);
    JoinsDomNode(nodes, frame, a, parentId, b, childId, ax[0]);
    JoinsDomNode(first, frame, a, parentId, b, childId, ax[1]);
    assert AXNodes(nodes, frame, ax, 0) == nodes && AXNodes(nodes, frame, ax, 1) == first;
    var keys := AXKeys(nodes, frame, ax, 2);
    assert AXKeys(nodes, frame, ax, 1) == map["child" := b] && keys == map["child" := b, "parent" := a];
    EdgesOfPair(ax, keys, a, b);
  }

  lemma EdgesOfPair(ax: seq<AXNode>, keys: map<string, Key>, a: Key, b: Key)
    requires |ax| == 2 && ax[0].nodeId == "child" && ax[0].childIds == ["parent"] && ax[1].childIds == []
    requires keys == map["child" := b, "parent" := a] && a != b
    ensures AXEdges(ax, 2, keys) == [(a, b)]
  {
    assert ChildEdges(b, ["parent"], 0, keys) == [] && ChildEdges(b, ["parent"], 1, keys) == [(a, b)];
    assert EdgesFrom(ax[0], keys) == [(a, b)] && EdgesFrom(ax[1], keys) == [];
    assert AXEdges(ax, 0, keys) == [] && AXEdges(ax, 1, keys) == [(a, b)];
  }

  /** The DOM nodes, then the accessibility nodes of the page. */
  method BuildPage(frame: string, parentId: nat, childId: nat) returns (registry: CanonicalNodeRegistry)
    requires parentId != childId && parentId != 0 && childId != 0
    ensures fresh(registry) && IsCircle(registry.nodes, CanonicalKey(frame, parentId), CanonicalKey(frame, childId))
  {
    registry := new CanonicalNodeRegistry(frame);
    registry.AddDOMTree(Page(parentId, childId));
    ghost var dom, a, b := registry.nodes, CanonicalKey(frame, parentId), CanonicalKey(frame, childId);
    PageIsPair(dom, frame, parentId, childId);
    PairIsLinked(dom, frame, a, parentId, b, childId);
    registry.AddAXTree(Accessibility(parentId, childId));
    CircleOf(AXNodes(dom, frame, Accessibility(parentId, childId), 2), registry.nodes, a, parentId, b, childId);
  }

  /**
   The registry builds such a circle from a two-element page, for any two non-zero backend ids: the parent
   links of both elements exist and lead to each other, so once both are kept neither is in the tree.
   */
  method CyclicPage(frame: string, parentId: nat, childId: nat) returns (links: Tree.Registry, a: Key, b: Key)
    requires parentId != childId && parentId != 0 && childId != 0
    ensures a == CanonicalKey(frame, parentId) && b == CanonicalKey(frame, childId)
    ensures a in links && b in links
    ensures forall kept, order :: a in kept && b in kept ==> Lost(links, kept, order, a, b)
  {
    a, b := CanonicalKey(frame, parentId), CanonicalKey(frame, childId);
    var registry := BuildPage(frame, parentId, childId);
    links := registry.LinksView();
    assert Tree.Link(links, a) == Some(b) && Tree.Link(links, b) == Some(a);
    forall kept, order | a in kept && b in kept
      ensures Lost(links, kept, order, a, b)
    {
      CircleIsUnreachable(links, a, b, kept, order);
    }
  }

  ghost predicate Lost(links: Tree.Registry, kept: set<Key>, order: seq<Key>, a: Key, b: Key)
  {
    && Tree.Entangled(links, kept, a, b)
    && !Tree.Reachable(links, kept, order, a) && !Tree.Reachable(links, kept, order, b)
  }

  ghost predicate IsCircle(nodes: Nodes, a: Key, b: Key)
  {
    && a != b && a in nodes && b in nodes
    && nodes[b].domParent == Some(a) && nodes[a].domParent == None && nodes[a].axParent == Some(b)
  }

  lemma CircleOf(marked: Nodes, nodes: Nodes, a: Key, parentId: nat, b: Key, childId: nat)
    requires IsPair(marked, a, parentId, b, childId) && AXLinked(marked, nodes, [(a, b)])
    ensures IsCircle(nodes, a, b)
  {
    var edges := [(a, b)];
    assert AXLinkedAt(marked[a], nodes[a], a, edges) && AXLinkedAt(marked[b], nodes[b], b, edges);
    LastEdgeWins(edges, a, marked[a].axParent, 0);
    NoEdge(edges, b, marked[b].axParent);
  }
}

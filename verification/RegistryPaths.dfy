/**
 What the registry makes of a DOM tree and of an accessibility tree, told by the way from the
 document to a node and by positions in the list of accessibility nodes.
 */
module RegistryPaths {
  import opened Decimals
  import opened SemanticRegistry
  import opened Wrappers

  // ---------------------------------------------------------------- the way to a DOM node

  /** One step down: to a child, into a shadow root, or into the document of a frame. */
  datatype Hop = ToChild(i: nat) | ToShadow(i: nat) | ToContent

  function Enter(n: DomNode, hop: Hop): Option<DomNode>
  {
    match hop
    case ToChild(i) => if i < |n.children| then Some(n.children[i]) else None
    case ToShadow(i) => if i < |n.shadowRoots| then Some(n.shadowRoots[i]) else None
    case ToContent => n.content
  }

  /** The node and its frame: its own if it says so, or the one of the node above. */
  function Walk(n: DomNode, inherited: string, hops: seq<Hop>): Option<(DomNode, string)>
    decreases |hops|
  {
    var frameId := if n.frameId.Some? then n.frameId.value else inherited;
    if hops == [] then Some((n, frameId))
    else match Enter(n, hops[0])
         case None => None
         case Some(m) => Walk(m, frameId, hops[1..])
  }

  predicate LeadsTo(n: DomNode, inherited: string, hops: seq<Hop>, k: Key)
  {
    match Walk(n, inherited, hops)
    case None => false
    case Some((m, frameId)) => k == CanonicalKey(frameId, m.backendNodeId)
  }

  lemma LeadsOn(n: DomNode, inherited: string, hop: Hop, hops: seq<Hop>, k: Key)
    ensures LeadsTo(n, inherited, [hop] + hops, k) <==>
            Enter(n, hop).Some? && LeadsTo(Enter(n, hop).value, FrameOf(n, inherited), hops, k)
  {
    assert ([hop] + hops)[1..] == hops;
  }

  // ---------------------------------------------------------------- keys

  lemma {:induction false} KeysOfList(ns: seq<DomNode>, frameId: string, k: Key)
    ensures k in DomKeysOf(ns, frameId) <==> exists i :: 0 <= i < |ns| && k in DomKeys(ns[i], frameId)
    decreases |ns|
  {
    if ns != [] {
      KeysOfList(ns[1..], frameId, k);
      if i :| 0 <= i < |ns| && k in DomKeys(ns[i], frameId) {
        assert i > 0 ==> ns[1..][i - 1] == ns[i];
      }
      if i :| 0 <= i < |ns[1..]| && k in DomKeys(ns[1..][i], frameId) {
        assert ns[1..][i] == ns[i + 1];
      }
    }
  }

  /** A key below a node is a key of something one step down. */
  lemma KeyBelow(n: DomNode, frameId: string, k: Key) returns (hop: Hop)
    requires k in DomKeysBelow(n, frameId)
    ensures Enter(n, hop).Some? && k in DomKeys(Enter(n, hop).value, frameId)
  {
    KeysOfList(n.children, frameId, k);
    KeysOfList(n.shadowRoots, frameId, k);
    if k in DomKeysOf(n.children, frameId) {
      var i :| 0 <= i < |n.children| && k in DomKeys(n.children[i], frameId);
      hop := ToChild(i);
    } else if k in DomKeysOf(n.shadowRoots, frameId) {
      var i :| 0 <= i < |n.shadowRoots| && k in DomKeys(n.shadowRoots[i], frameId);
      hop := ToShadow(i);
    } else {
      hop := ToContent;
    }
  }

  lemma KeysOneDown(n: DomNode, frameId: string, hop: Hop, k: Key)
    requires Enter(n, hop).Some? && k in DomKeys(Enter(n, hop).value, frameId)
    ensures k in DomKeysBelow(n, frameId)
  {
    KeysOfList(n.children, frameId, k);
    KeysOfList(n.shadowRoots, frameId, k);
  }

  lemma {:induction false} WayToKey(n: DomNode, inherited: string, k: Key) returns (hops: seq<Hop>)
    requires k in DomKeys(n, inherited)
    ensures LeadsTo(n, inherited, hops, k)
    decreases n
  {
    if k == KeyOf(n, inherited) {
      hops := [];
    } else {
      var hop := KeyBelow(n, FrameOf(n, inherited), k);
      var rest := WayToKey(Enter(n, hop).value, FrameOf(n, inherited), k);
      LeadsOn(n, inherited, hop, rest, k);
      hops := [hop] + rest;
    }
  }

  lemma {:induction false} KeyAtEnd(n: DomNode, inherited: string, hops: seq<Hop>, k: Key)
    requires LeadsTo(n, inherited, hops, k)
    ensures k in DomKeys(n, inherited)
    decreases |hops|
  {
    if hops != [] {
      assert hops == [hops[0]] + hops[1..];
      KeyAtEnd(Enter(n, hops[0]).value, FrameOf(n, inherited), hops[1..], k);
      KeysOneDown(n, FrameOf(n, inherited), hops[0], k);
    }
  }

  /** A DOM tree registers exactly the nodes that can be reached through children, shadow roots and documents. */
  lemma RegisteredIffReached(n: DomNode, inherited: string, k: Key)
    ensures k in DomKeys(n, inherited) <==> exists hops :: LeadsTo(n, inherited, hops, k)
  {
    if k in DomKeys(n, inherited) {
      var hops := WayToKey(n, inherited, k);
    }
    if hops :| LeadsTo(n, inherited, hops, k) {
      KeyAtEnd(n, inherited, hops, k);
    }
  }

  // ---------------------------------------------------------------- parents

  lemma {:induction false} EdgesOfList(ns: seq<DomNode>, frameId: string, parent: Key, e: (Key, Key))
    ensures e in DomEdgesOf(ns, frameId, parent) <==>
            exists i :: 0 <= i < |ns| && e in DomEdges(ns[i], frameId, Some(parent))
    decreases |ns|
  {
    if ns != [] {
      EdgesOfList(ns[1..], frameId, parent, e);
      if i :| 0 <= i < |ns| && e in DomEdges(ns[i], frameId, Some(parent)) {
        assert i > 0 ==> ns[1..][i - 1] == ns[i];
      }
      if i :| 0 <= i < |ns[1..]| && e in DomEdges(ns[1..][i], frameId, Some(parent)) {
        assert ns[1..][i] == ns[i + 1];
      }
    }
  }

  lemma EdgeBelow(n: DomNode, frameId: string, key: Key, e: (Key, Key)) returns (hop: Hop)
    requires e in DomEdgesBelow(n, frameId, key)
    ensures Enter(n, hop).Some? && e in DomEdges(Enter(n, hop).value, frameId, Some(key))
  {
    EdgesOfList(n.children, frameId, key, e);
    EdgesOfList(n.shadowRoots, frameId, key, e);
    if e in DomEdgesOf(n.children, frameId, key) {
      var i :| 0 <= i < |n.children| && e in DomEdges(n.children[i], frameId, Some(key));
      hop := ToChild(i);
    } else if e in DomEdgesOf(n.shadowRoots, frameId, key) {
      var i :| 0 <= i < |n.shadowRoots| && e in DomEdges(n.shadowRoots[i], frameId, Some(key));
      hop := ToShadow(i);
    } else {
      hop := ToContent;
    }
  }

  lemma EdgesOneDown(n: DomNode, frameId: string, key: Key, hop: Hop, e: (Key, Key))
    requires Enter(n, hop).Some? && e in DomEdges(Enter(n, hop).value, frameId, Some(key))
    ensures e in DomEdgesBelow(n, frameId, key)
  {
    EdgesOfList(n.children, frameId, key, e);
    EdgesOfList(n.shadowRoots, frameId, key, e);
  }

  /** `p` is at the end of the way and `k`, another key, one step further. */
  ghost predicate StepsDown(n: DomNode, inherited: string, hops: seq<Hop>, hop: Hop, k: Key, p: Key)
  {
    k != p && LeadsTo(n, inherited, hops, p) && LeadsTo(n, inherited, hops + [hop], k)
  }

  lemma StepsDownOn(n: DomNode, inherited: string, first: Hop, hops: seq<Hop>, hop: Hop, k: Key, p: Key)
    ensures StepsDown(n, inherited, [first] + hops, hop, k, p) <==>
            Enter(n, first).Some? && StepsDown(Enter(n, first).value, FrameOf(n, inherited), hops, hop, k, p)
  {
    LeadsOn(n, inherited, first, hops, p);
    assert [first] + hops + [hop] == [first] + (hops + [hop]);
    LeadsOn(n, inherited, first, hops + [hop], k);
  }

  lemma {:induction false} WayToEdge(n: DomNode, inherited: string, parent: Option<Key>, k: Key, p: Key)
    returns (hops: seq<Hop>, hop: Hop)
    requires (k, p) in DomEdges(n, inherited, parent)
    ensures (parent == Some(p) && k == KeyOf(n, inherited) && k != p) || StepsDown(n, inherited, hops, hop, k, p)
    decreases n
  {
    hops, hop := [], ToContent;
    var frameId, key := FrameOf(n, inherited), KeyOf(n, inherited);
    if (k, p) !in ParentEdge(key, parent) {
      var first := EdgeBelow(n, frameId, key, (k, p));
      var m := Enter(n, first).value;
      hops, hop := WayToEdge(m, frameId, Some(key), k, p);
      if StepsDown(m, frameId, hops, hop, k, p) {
        StepsDownOn(n, inherited, first, hops, hop, k, p);
        hops := [first] + hops;
      } else {
        LeadsOn(n, inherited, first, [], k);
        assert [first] + [] == [first] && [] + [first] == [first];
        hops, hop := [], first;
      }
    }
  }

  lemma {:induction false} EdgeAtEnd(n: DomNode, inherited: string, parent: Option<Key>, hops: seq<Hop>, hop: Hop,
                                     k: Key, p: Key)
    requires StepsDown(n, inherited, hops, hop, k, p)
    ensures (k, p) in DomEdges(n, inherited, parent)
    decreases |hops|
  {
    var frameId, key := FrameOf(n, inherited), KeyOf(n, inherited);
    if hops == [] {
      assert [] + [hop] == [hop] + [];
      LeadsOn(n, inherited, hop, [], k);
      assert (k, p) in ParentEdge(k, Some(key));
      EdgesOneDown(n, frameId, key, hop, (k, p));
    } else {
      assert hops == [hops[0]] + hops[1..];
      StepsDownOn(n, inherited, hops[0], hops[1..], hop, k, p);
      EdgeAtEnd(Enter(n, hops[0]).value, frameId, Some(key), hops[1..], hop, k, p);
      EdgesOneDown(n, frameId, key, hops[0], (k, p));
    }
  }

  /** The parents that a document gives its nodes are exactly the nodes one step above. */
  lemma LinkedIffOneStepDown(n: DomNode, inherited: string, k: Key, p: Key)
    ensures (k, p) in DomEdges(n, inherited, None) <==>
            exists hops, hop :: StepsDown(n, inherited, hops, hop, k, p)
  {
    if (k, p) in DomEdges(n, inherited, None) {
      var hops, hop := WayToEdge(n, inherited, None, k, p);
    }
    if hops, hop :| StepsDown(n, inherited, hops, hop, k, p) {
      EdgeAtEnd(n, inherited, None, hops, hop, k, p);
    }
  }

  // ---------------------------------------------------------------- accessibility nodes

  /** Node `i` lists, as its `j`-th child, the node remembered under `k`; its own key is `p`. */
  ghost predicate ListsChild(axNodes: seq<AXNode>, n: nat, keys: map<string, Key>, i: nat, j: nat, k: Key, p: Key)
    requires n <= |axNodes|
  {
    && i < n && j < |axNodes[i].childIds| && k != p
    && axNodes[i].nodeId in keys && keys[axNodes[i].nodeId] == p
    && axNodes[i].childIds[j] in keys && keys[axNodes[i].childIds[j]] == k
  }

  lemma {:induction false} ChildEdgesListed(parent: Key, childIds: seq<string>, n: nat, keys: map<string, Key>, k: Key,
                                            p: Key)
    requires n <= |childIds|
    ensures (k, p) in ChildEdges(parent, childIds, n, keys) <==>
            p == parent && k != p && exists j :: 0 <= j < n && childIds[j] in keys && keys[childIds[j]] == k
  {
    if n > 0 {
      ChildEdgesListed(parent, childIds, n - 1, keys, k, p);
    }
  }

  /** The accessibility parents are exactly the nodes that list the child. */
  lemma {:induction false} LinkedIffListed(axNodes: seq<AXNode>, n: nat, keys: map<string, Key>, k: Key, p: Key)
    requires n <= |axNodes|
    ensures (k, p) in AXEdges(axNodes, n, keys) <==>
            exists i: nat, j: nat :: ListsChild(axNodes, n, keys, i, j, k, p)
  {
    if n > 0 {
      LinkedIffListed(axNodes, n - 1, keys, k, p);
      var ax := axNodes[n - 1];
      if (k, p) in AXEdges(axNodes, n - 1, keys) {
        var i: nat, j: nat :| ListsChild(axNodes, n - 1, keys, i, j, k, p);
        assert ListsChild(axNodes, n, keys, i, j, k, p);
      }
      if ax.nodeId in keys {
        ChildEdgesListed(keys[ax.nodeId], ax.childIds, |ax.childIds|, keys, k, p);
        if (k, p) in EdgesFrom(ax, keys) {
          var j :| 0 <= j < |ax.childIds| && ax.childIds[j] in keys && keys[ax.childIds[j]] == k;
          assert ListsChild(axNodes, n, keys, n - 1, j, k, p);
        }
      }
      if i: nat, j: nat :| ListsChild(axNodes, n, keys, i, j, k, p) {
        assert i < n - 1 ==> ListsChild(axNodes, n - 1, keys, i, j, k, p);
      }
    }
  }

  lemma RememberedNext(nodes: Nodes, mainFrameId: string, axNodes: seq<AXNode>, n: nat)
    requires n < |axNodes|
    ensures AXKeys(nodes, mainFrameId, axNodes, n + 1) ==
            AXKeys(nodes, mainFrameId, axNodes, n)[
              axNodes[n].nodeId := AXKeyOf(AXNodes(nodes, mainFrameId, axNodes, n), mainFrameId, axNodes[n]).0]
  {
  }

  /** The key remembered for an id is the one of the last node with that id, at the time it was registered. */
  lemma {:induction false} LastIsRemembered(nodes: Nodes, mainFrameId: string, axNodes: seq<AXNode>, n: nat, i: nat)
    requires i < n <= |axNodes| && forall j :: i < j < n ==> axNodes[j].nodeId != axNodes[i].nodeId
    ensures axNodes[i].nodeId in AXKeys(nodes, mainFrameId, axNodes, n)
    ensures AXKeys(nodes, mainFrameId, axNodes, n)[axNodes[i].nodeId] ==
            AXKeyOf(AXNodes(nodes, mainFrameId, axNodes, i), mainFrameId, axNodes[i]).0
  {
    RememberedNext(nodes, mainFrameId, axNodes, n - 1);
    if i < n - 1 {
      LastIsRemembered(nodes, mainFrameId, axNodes, n - 1, i);
    }
  }

  /**
   The key of an accessibility node: its own without a backend id, else that of the only node with
   the id or of the one in the main frame, registered there if there is none.
   */
  lemma KeyOfAccessibilityNode(nodes: Nodes, mainFrameId: string, ax: AXNode)
    ensures var key := AXKeyOf(nodes, mainFrameId, ax).0;
            if ax.backendId.None? || ax.backendId.value == 0 then key == "ax:" + ax.nodeId
            else
              var found := set k | k in nodes && nodes[k].backendNodeId == ax.backendId;
              if |found| == 1 then found == {key} else key == mainFrameId + ":" + Decimal(ax.backendId.value)
  {
    if ax.backendId.Some? && ax.backendId.value != 0 {
      var found := KeysWith(nodes, ax.backendId.value);
      assert found == set k | k in nodes && nodes[k].backendNodeId == ax.backendId;
      if |found| == 1 {
        var key := AXKeyOf(nodes, mainFrameId, ax).0;
        assert key in found && |found - {key}| == 0;
        assert found == {key};
      }
    }
  }
}

/**
 The depth-first scan of the DOM for interactive elements. A proxy of a virtual editor is
 published under the id of one of its ancestors, so that the ids of the elements stay distinct
 depends on ancestors being processed first.
 */
module PageScan {
  import opened Wrappers

  /** What the predicates of the scanner say about a node, and its three kinds of children. */
  datatype DomNode = DomNode(
    backendNodeId: nat,
    isLeafOrSkipped: bool,
    isContainer: bool,
    isInteractive: bool,
    isVisible: bool,
    isDescribable: bool,
    isEditorProxy: bool,
    children: seq<DomNode>,
    shadowRoots: seq<DomNode>,
    content: Option<DomNode>)

  /** `proxyFor` is set on an element published for a hidden editor input. */
  datatype Element = Element(backendNodeId: nat, proxyFor: Option<nat>)

  /** Which ancestor can host a proxy, which proxies can be described, and when the scan is aborted. */
  datatype Env = Env(hosts: (DomNode, DomNode) -> bool, describes: (DomNode, DomNode) -> bool, aborted: nat -> bool)

  function IdsOf(es: seq<Element>): (r: set<nat>)
    ensures forall id :: id in r <==> exists i :: 0 <= i < |es| && es[i].backendNodeId == id
  {
    set i | 0 <= i < |es| :: es[i].backendNodeId
  }

  ghost predicate DistinctIds(es: seq<Element>)
  {
    forall i, j :: 0 <= i < j < |es| ==> es[i].backendNodeId != es[j].backendNodeId
  }

  /** A node that gets an element of its own. */
  predicate Qualifies(n: DomNode)
  {
    !n.isLeafOrSkipped && !n.isContainer && n.isInteractive && n.isVisible && n.isDescribable
  }

  // ---------------------------------------------------------------- which nodes a scan visits

  predicate Seen(visited: seq<DomNode>, id: nat)
  {
    exists i :: 0 <= i < |visited| && visited[i].backendNodeId == id
  }

  /** The nodes visited so far, after an uninterrupted scan below `n`. */
  function Scan(n: DomNode, visited: seq<DomNode>): seq<DomNode>
    decreases n, 1
  {
    if Seen(visited, n.backendNodeId) then visited
    else if n.isLeafOrSkipped then visited + [n]
    else ScanIn(n.content, ScanAll(n.shadowRoots, ScanAll(n.children, visited + [n])))
  }

  function ScanAll(ns: seq<DomNode>, visited: seq<DomNode>): seq<DomNode>
    decreases ns, 0
  {
    if ns == [] then visited else ScanAll(ns[1..], Scan(ns[0], visited))
  }

  function ScanIn(content: Option<DomNode>, visited: seq<DomNode>): seq<DomNode>
    decreases content, 0
  {
    if content.Some? then Scan(content.value, visited) else visited
  }

  /** The nodes of a document in document order, without what lies below skipped nodes. */
  function Preorder(n: DomNode): seq<DomNode>
    decreases n, 1
  {
    if n.isLeafOrSkipped then [n]
    else [n] + PreorderAll(n.children) + PreorderAll(n.shadowRoots) + PreorderIn(n.content)
  }

  function PreorderAll(ns: seq<DomNode>): seq<DomNode>
    decreases ns, 0
  {
    if ns == [] then [] else Preorder(ns[0]) + PreorderAll(ns[1..])
  }

  function PreorderIn(content: Option<DomNode>): seq<DomNode>
    decreases content, 0
  {
    if content.Some? then Preorder(content.value) else []
  }

  /** `m` is reached from `n` through children, shadow roots and frame documents, never from a skipped node. */
  ghost predicate Reaches(n: DomNode, m: DomNode)
    decreases n
  {
    || n == m
    || (&& !n.isLeafOrSkipped
        && (|| (exists i :: 0 <= i < |n.children| && Reaches(n.children[i], m))
            || (exists i :: 0 <= i < |n.shadowRoots| && Reaches(n.shadowRoots[i], m))
            || (n.content.Some? && Reaches(n.content.value, m))))
  }

  lemma {:induction false} PreorderIsReached(n: DomNode, m: DomNode)
    ensures m in Preorder(n) <==> Reaches(n, m)
    decreases n, 1
  {
    if !n.isLeafOrSkipped {
      AllAreReached(n.children, m);
      AllAreReached(n.shadowRoots, m);
      if n.content.Some? {
        PreorderIsReached(n.content.value, m);
      }
    }
  }

  lemma {:induction false} AllAreReached(ns: seq<DomNode>, m: DomNode)
    ensures m in PreorderAll(ns) <==> exists i :: 0 <= i < |ns| && Reaches(ns[i], m)
    decreases ns, 0
  {
    if ns != [] {
      PreorderIsReached(ns[0], m);
      AllAreReached(ns[1..], m);
      if i :| 0 <= i < |ns| && Reaches(ns[i], m) {
        assert i > 0 ==> ns[1..][i - 1] == ns[i];
      }
      if i :| 0 <= i < |ns[1..]| && Reaches(ns[1..][i], m) {
        assert ns[1..][i] == ns[i + 1];
      }
    }
  }

  ghost predicate DistinctNodes(ns: seq<DomNode>)
  {
    forall i, j :: 0 <= i < j < |ns| ==> ns[i].backendNodeId != ns[j].backendNodeId
  }

  lemma DistinctPrefix(a: seq<DomNode>, b: seq<DomNode>)
    requires DistinctNodes(a + b)
    ensures DistinctNodes(a)
  {
    forall i, j | 0 <= i < j < |a|
      ensures a[i].backendNodeId != a[j].backendNodeId
    {
      assert (a + b)[i] == a[i] && (a + b)[j] == a[j];
    }
  }

  lemma NotSeen(visited: seq<DomNode>, n: DomNode)
    requires DistinctNodes(visited + [n])
    ensures !Seen(visited, n.backendNodeId)
  {
    forall i | 0 <= i < |visited|
      ensures visited[i].backendNodeId != n.backendNodeId
    {
      assert (visited + [n])[i] == visited[i] && (visited + [n])[|visited|] == n;
    }
  }

  /** In a document with distinct ids, the scan visits every node, in document order. */
  lemma {:induction false} ScanIsPreorder(n: DomNode, visited: seq<DomNode>)
    requires DistinctNodes(visited + Preorder(n))
    ensures Scan(n, visited) == visited + Preorder(n)
    decreases n, 1
  {
    var a, b, c := PreorderAll(n.children), PreorderAll(n.shadowRoots), PreorderIn(n.content);
    if n.isLeafOrSkipped {
      NotSeen(visited, n);
    } else {
      var start := visited + [n];
      assert visited + Preorder(n) == start + (a + b + c);
      DistinctPrefix(start, a + b + c);
      NotSeen(visited, n);
      assert start + (a + b + c) == (start + a) + (b + c);
      DistinctPrefix(start + a, b + c);
      ScanAllIsPreorder(n.children, start);
      assert (start + a) + (b + c) == (start + a + b) + c;
      DistinctPrefix(start + a + b, c);
      ScanAllIsPreorder(n.shadowRoots, start + a);
      if n.content.Some? {
        ScanIsPreorder(n.content.value, start + a + b);
      }
    }
  }

  lemma {:induction false} ScanAllIsPreorder(ns: seq<DomNode>, visited: seq<DomNode>)
    requires DistinctNodes(visited + PreorderAll(ns))
    ensures ScanAll(ns, visited) == visited + PreorderAll(ns)
    decreases ns, 0
  {
    if ns != [] {
      var first, rest := Preorder(ns[0]), PreorderAll(ns[1..]);
      assert visited + (first + rest) == (visited + first) + rest;
      DistinctPrefix(visited + first, rest);
      ScanIsPreorder(ns[0], visited);
      ScanAllIsPreorder(ns[1..], visited + first);
    }
  }

  // ---------------------------------------------------------------- the scanner

  /** A hidden input that a virtual editor reads its keys from. */
  predicate IsHiddenProxy(n: DomNode)
  {
    !n.isLeafOrSkipped && !n.isContainer && n.isInteractive && !n.isVisible && n.isEditorProxy
  }

  /** The ancestors of `n` within its document, outermost first. */
  ghost predicate IsPath(path: seq<DomNode>, n: DomNode)
  {
    path == [] ||
    var parent := path[|path| - 1];
    (n in parent.children || n in parent.shadowRoots) && IsPath(path[..|path| - 1], parent)
  }

  lemma PathExtends(path: seq<DomNode>, parent: DomNode)
    requires IsPath(path, parent)
    ensures forall i :: 0 <= i < |parent.children| ==> IsPath(path + [parent], parent.children[i])
    ensures forall i :: 0 <= i < |parent.shadowRoots| ==> IsPath(path + [parent], parent.shadowRoots[i])
  {
    assert (path + [parent])[..|path|] == path;
  }

  /** The `k`-th ancestor is the nearest one that can host the proxy, and the proxy can be described there. */
  ghost predicate Hosts(env: Env, n: DomNode, path: seq<DomNode>, k: nat)
  {
    && k < |path| && env.hosts(path[k], n) && env.describes(n, path[k])
    && forall j :: k < j < |path| ==> !env.hosts(path[j], n)
  }

  /** What the scan has seen: the visited nodes and the ancestors they were visited under. */
  datatype Seeing = Seeing(visited: seq<DomNode>, paths: seq<seq<DomNode>>)

  ghost predicate StandsFor(env: Env, s: Seeing, i: nat, e: Element)
  {
    && i < |s.visited| == |s.paths|
    && if e.proxyFor.None? then s.visited[i].backendNodeId == e.backendNodeId && Qualifies(s.visited[i])
       else
         && s.visited[i].backendNodeId == e.proxyFor.value && IsHiddenProxy(s.visited[i])
         && exists k: nat :: Hosts(env, s.visited[i], s.paths[i], k) &&
                             s.paths[i][k].backendNodeId == e.backendNodeId
  }

  /** An element is that of a visited node, or stands in for a visited editor input below its node. */
  ghost predicate Grounded(env: Env, e: Element, s: Seeing)
  {
    Seen(s.visited, e.backendNodeId) && exists i: nat :: StandsFor(env, s, i, e)
  }

  function Extended(s: Seeing, n: DomNode, path: seq<DomNode>): Seeing
  {
    Seeing(s.visited + [n], s.paths + [path])
  }

  lemma GroundedStays(env: Env, e: Element, s: Seeing, n: DomNode, path: seq<DomNode>)
    requires Grounded(env, e, s)
    ensures Grounded(env, e, Extended(s, n, path))
  {
    var i: nat :| StandsFor(env, s, i, e);
    var s' := Extended(s, n, path);
    assert s'.visited[i] == s.visited[i] && s'.paths[i] == s.paths[i];
    assert StandsFor(env, s', i, e);
    var j :| 0 <= j < |s.visited| && s.visited[j].backendNodeId == e.backendNodeId;
    assert (s.visited + [n])[j] == s.visited[j];
  }

  /** The node, if it qualifies, or the host of the proxy it is, has an element. */
  ghost predicate HasElement(env: Env, s: Seeing, i: nat, ids: set<nat>)
    requires i < |s.visited| == |s.paths|
  {
    && (Qualifies(s.visited[i]) ==> s.visited[i].backendNodeId in ids)
    && (IsHiddenProxy(s.visited[i]) ==>
          forall k: nat :: Hosts(env, s.visited[i], s.paths[i], k) ==> s.paths[i][k].backendNodeId in ids)
  }

  /** The first `n` visited nodes have the elements they should have. */
  ghost predicate AllHave(env: Env, s: Seeing, n: nat, ids: set<nat>)
    requires n <= |s.visited| == |s.paths|
  {
    forall i :: 0 <= i < n ==> HasElement(env, s, i, ids)
  }

  lemma HaveMore(env: Env, s: Seeing, n: nat, ids: set<nat>, more: set<nat>)
    requires n <= |s.visited| == |s.paths| && AllHave(env, s, n, ids) && ids <= more
    ensures AllHave(env, s, n, more)
  {
    forall i | 0 <= i < n
      ensures HasElement(env, s, i, more)
    {
      assert HasElement(env, s, i, ids);
    }
  }

  /** What earlier nodes have they keep. */
  lemma EarlierHave(env: Env, s: Seeing, n: DomNode, path: seq<DomNode>, ids: set<nat>)
    requires |s.visited| == |s.paths| && AllHave(env, s, |s.visited|, ids)
    ensures AllHave(env, Extended(s, n, path), |s.visited|, ids)
  {
    forall i | 0 <= i < |s.visited|
      ensures HasElement(env, Extended(s, n, path), i, ids)
    {
      assert HasElement(env, s, i, ids);
    }
  }

  lemma LastHas(env: Env, s: Seeing, ids: set<nat>)
    requires |s.visited| == |s.paths| > 0 && AllHave(env, s, |s.visited| - 1, ids)
    requires HasElement(env, s, |s.visited| - 1, ids)
    ensures AllHave(env, s, |s.visited|, ids)
  {
  }

  lemma OnlyOneHosts(env: Env, n: DomNode, path: seq<DomNode>, j: nat, k: nat)
    requires Hosts(env, n, path, j) && Hosts(env, n, path, k)
    ensures j == k
  {
  }

  /** In the fields of the document: the node's own element, or one that stands in for it at its nearest host. */
  ghost predicate IsElementOf(env: Env, e: Element, n: DomNode)
  {
    && !n.isLeafOrSkipped && !n.isContainer && n.isInteractive
    && match e.proxyFor
       case None => n.isVisible && n.isDescribable && e.backendNodeId == n.backendNodeId
       case Some(id) =>
         && !n.isVisible && n.isEditorProxy && id == n.backendNodeId
         && exists path: seq<DomNode>, k: nat ::
              IsPath(path, n) && Hosts(env, n, path, k) && path[k].backendNodeId == e.backendNodeId
  }

  /** A visible, interactive, describable node has an element; a hidden editor input has one at its nearest host. */
  ghost predicate IsReported(env: Env, n: DomNode, ids: set<nat>)
  {
    && (!n.isLeafOrSkipped && !n.isContainer && n.isInteractive && n.isVisible && n.isDescribable ==>
          n.backendNodeId in ids)
    && (!n.isLeafOrSkipped && !n.isContainer && n.isInteractive && !n.isVisible && n.isEditorProxy ==>
          exists path: seq<DomNode> ::
            IsPath(path, n) && forall k: nat :: Hosts(env, n, path, k) ==> path[k].backendNodeId in ids)
  }

  ghost predicate IsElementAmong(env: Env, e: Element, nodes: seq<DomNode>)
  {
    exists i :: 0 <= i < |nodes| && IsElementOf(env, e, nodes[i])
  }

  ghost predicate Reports(env: Env, root: DomNode, es: seq<Element>)
  {
    && DistinctIds(es)
    && (forall n :: n in Preorder(root) ==> IsReported(env, n, IdsOf(es)))
    && (forall k :: 0 <= k < |es| ==> IsElementAmong(env, es[k], Preorder(root)))
  }

  class Scanner {
    const env: Env
    var elements: seq<Element>
    var processed: set<nat>
    var entered: nat
    ghost var visited: seq<DomNode>
    ghost var paths: seq<seq<DomNode>>
    ghost var wasAborted: bool

    constructor (env: Env)
      ensures Valid() && Complete() && elements == [] && processed == {} && visited == [] && !wasAborted
    {
      this.env := env;
      elements, processed, entered := [], {}, 0;
      visited, paths, wasAborted := [], [], false;
    }

    /** No node is visited twice, no two elements share an id, and every element is grounded. */
    ghost predicate Valid()
      reads this
    {
      && DistinctNodes(visited)
      && (forall id :: Seen(visited, id) <==> id in processed)
      && DistinctIds(elements)
      && (forall k :: 0 <= k < |elements| ==> Grounded(env, elements[k], Sight()))
      && |paths| == |visited| && forall i :: 0 <= i < |paths| ==> IsPath(paths[i], visited[i])
    }

    ghost function Sight(): Seeing
      reads this
    {
      Seeing(visited, paths)
    }

    /** Every visited node that should have an element has one. */
    ghost predicate Complete()
      requires |paths| == |visited|
      reads this
    {
      AllHave(env, Sight(), |visited|, IdsOf(elements))
    }

    method PushElement(e: Element)
      requires Valid() && e.backendNodeId !in IdsOf(elements) && Grounded(env, e, Sight())
      modifies this`elements
      ensures Valid() && elements == old(elements) + [e] && IdsOf(elements) == old(IdsOf(elements)) + {e.backendNodeId}
    {
      ghost var before := elements;
      elements := elements + [e];
      IdsOfAppend(before, e);
    }

    /** `findIndex` and the overwrite or push of a proxy element. */
    method PublishProxy(host: nat, proxy: nat)
      requires Valid() && host in processed && Grounded(env, Element(host, Some(proxy)), Sight())
      modifies this`elements
      ensures Valid() && IdsOf(elements) == old(IdsOf(elements)) + {host}
      ensures Element(host, Some(proxy)) in elements
    {
      var existing := 0;
      while existing < |elements| && elements[existing].backendNodeId != host
        invariant 0 <= existing <= |elements|
        invariant forall k :: 0 <= k < existing ==> elements[k].backendNodeId != host
      {
        existing := existing + 1;
      }
      var e := Element(host, Some(proxy));
      if existing < |elements| {
        Overwrite(existing, e);
      } else {
        PushElement(e);
      }
    }

    method Overwrite(at: nat, e: Element)
      requires Valid() && at < |elements| && elements[at].backendNodeId == e.backendNodeId && Grounded(env, e, Sight())
      modifies this`elements
      ensures Valid() && elements == old(elements)[at := e] && e in elements
      ensures IdsOf(elements) == old(IdsOf(elements)) + {e.backendNodeId}
    {
      ghost var before := elements;
      elements := elements[at := e];
      assert elements[at] == e;
      SameIds(before, elements);
    }

    /** The nearest ancestor that can host the proxy. */
    method FindHost(node: DomNode, ancestors: seq<DomNode>) returns (host: Option<DomNode>, ghost at: nat)
      ensures host.Some? ==>
                && at < |ancestors| && ancestors[at] == host.value && env.hosts(host.value, node)
                && forall k :: at < k < |ancestors| ==> !env.hosts(ancestors[k], node)
      ensures host.None? ==> forall k :: 0 <= k < |ancestors| ==> !env.hosts(ancestors[k], node)
    {
      var i := |ancestors|;
      while i > 0
        invariant 0 <= i <= |ancestors|
        invariant forall k :: i <= k < |ancestors| ==> !env.hosts(ancestors[k], node)
      {
        i := i - 1;
        if env.hosts(ancestors[i], node) {
          return Some(ancestors[i]), i;
        }
      }
      return None, 0;
    }

    /** The element of the node just visited, or a proxy published under an ancestor's id. */
    method Inspect(node: DomNode, ancestors: seq<DomNode>)
      requires Valid() && visited != [] && visited[|visited| - 1] == node && paths[|visited| - 1] == ancestors
      requires node.backendNodeId !in IdsOf(elements) && !node.isLeafOrSkipped
      requires AllHave(env, Sight(), |visited| - 1, IdsOf(elements))
      requires forall k :: 0 <= k < |ancestors| ==> ancestors[k].backendNodeId in processed
      modifies this`elements
      ensures Valid() && Complete()
    {
      ghost var s, ids := Sight(), IdsOf(elements);
      if !node.isContainer {
        if node.isVisible && node.isInteractive {
          if node.isDescribable {
            assert StandsFor(env, s, |visited| - 1, Element(node.backendNodeId, None));
            PushElement(Element(node.backendNodeId, None));
          }
        } else if node.isInteractive && node.isEditorProxy {
          PublishForHost(node, ancestors);
        }
      }
      HaveMore(env, s, |visited| - 1, ids, IdsOf(elements));
      LastHas(env, s, IdsOf(elements));
    }

    method PublishForHost(node: DomNode, ancestors: seq<DomNode>)
      requires Valid() && visited != [] && visited[|visited| - 1] == node && paths[|visited| - 1] == ancestors
      requires IsHiddenProxy(node) && forall k :: 0 <= k < |ancestors| ==> ancestors[k].backendNodeId in processed
      modifies this`elements
      ensures Valid() && IdsOf(elements) >= old(IdsOf(elements))
      ensures forall k: nat :: Hosts(env, node, ancestors, k) ==> ancestors[k].backendNodeId in IdsOf(elements)
    {
      var host, at := FindHost(node, ancestors);
      if host.Some? && env.describes(node, host.value) {
        ProxyIsGrounded(node, ancestors, at);
        PublishProxy(host.value.backendNodeId, node.backendNodeId);
        forall k: nat | Hosts(env, node, ancestors, k)
          ensures k == at
        {
          OnlyOneHosts(env, node, ancestors, at, k);
        }
      }
    }

    lemma ProxyIsGrounded(node: DomNode, ancestors: seq<DomNode>, at: nat)
      requires Valid() && visited != [] && visited[|visited| - 1] == node && paths[|visited| - 1] == ancestors
      requires IsHiddenProxy(node) && Hosts(env, node, ancestors, at) && ancestors[at].backendNodeId in processed
      ensures Grounded(env, Element(ancestors[at].backendNodeId, Some(node.backendNodeId)), Sight())
    {
      assert StandsFor(env, Sight(), |visited| - 1,
                       Element(ancestors[at].backendNodeId, Some(node.backendNodeId)));
    }

    method Mark(node: DomNode, ghost ancestors: seq<DomNode>)
      requires Valid() && node.backendNodeId !in processed && IsPath(ancestors, node)
      modifies this`processed, this`visited, this`paths
      ensures Valid() && processed == old(processed) + {node.backendNodeId}
      ensures visited == old(visited) + [node] && node.backendNodeId !in IdsOf(elements)
      ensures paths == old(paths) + [ancestors]
    {
      forall k | 0 <= k < |elements|
        ensures Grounded(env, elements[k], Extended(Sight(), node, ancestors))
        ensures elements[k].backendNodeId != node.backendNodeId
      {
        GroundedStays(env, elements[k], Sight(), node, ancestors);
        assert Seen(visited, elements[k].backendNodeId);
      }
      MarkDistinct(visited, node);
      processed := processed + {node.backendNodeId};
      visited := visited + [node];
      paths := paths + [ancestors];
    }

    /**
     However often it is aborted, a scan keeps the invariants; an uninterrupted one visits
     exactly the nodes of `Scan`.
     */
    method Traverse(node: DomNode, ancestors: seq<DomNode>)
      requires Valid() && Complete() && IsPath(ancestors, node)
      requires forall k :: 0 <= k < |ancestors| ==> ancestors[k].backendNodeId in processed
      modifies this
      ensures Valid() && Complete() && processed >= old(processed) && (old(wasAborted) ==> wasAborted)
      ensures !wasAborted ==> visited == Scan(node, old(visited))
      decreases node, 1
    {
      entered := entered + 1;
      if env.aborted(entered) {
        wasAborted := true;
        return;
      }
      if node.backendNodeId in processed {
        return;
      }
      EarlierHave(env, Sight(), node, ancestors, IdsOf(elements));
      Mark(node, ancestors);
      if node.isLeafOrSkipped {
        return;
      }
      Inspect(node, ancestors);
      TraverseBelow(node, ancestors);
    }

    /** Children, shadow roots and the document of a frame, where ancestors start afresh. */
    method TraverseBelow(node: DomNode, ancestors: seq<DomNode>)
      requires Valid() && Complete() && IsPath(ancestors, node) && node.backendNodeId in processed
      requires forall k :: 0 <= k < |ancestors| ==> ancestors[k].backendNodeId in processed
      modifies this
      ensures Valid() && Complete() && processed >= old(processed) && (old(wasAborted) ==> wasAborted)
      ensures !wasAborted ==>
                visited == ScanIn(node.content, ScanAll(node.shadowRoots, ScanAll(node.children, old(visited))))
      decreases node, 0
    {
      PathExtends(ancestors, node);
      var path := ancestors + [node];
      TraverseAll(node.children, path);
      TraverseAll(node.shadowRoots, path);
      if node.content.Some? {
        Traverse(node.content.value, []);
      }
    }

    /** An uninterrupted scan of a document with distinct ids reports what it should. */
    method ScanPage(root: DomNode)
      requires Valid() && elements == [] && processed == {} && visited == [] && !wasAborted
      modifies this
      ensures !wasAborted && DistinctNodes(Preorder(root)) ==> Reports(env, root, elements)
    {
      Traverse(root, []);
      if DistinctNodes(Preorder(root)) {
        assert [] + Preorder(root) == Preorder(root);
        ScanIsPreorder(root, []);
        if !wasAborted {
          SightIsReport(root);
        }
      }
    }

    lemma SightIsReport(root: DomNode)
      requires Valid() && Complete() && visited == Preorder(root)
      ensures Reports(env, root, elements)
    {
      var s := Sight();
      forall n | n in Preorder(root)
        ensures IsReported(env, n, IdsOf(elements))
      {
        var i :| 0 <= i < |visited| && visited[i] == n;
        assert HasElement(env, s, i, IdsOf(elements));
        assert IsPath(paths[i], n);
      }
      forall k | 0 <= k < |elements|
        ensures IsElementAmong(env, elements[k], Preorder(root))
      {
        assert Grounded(env, elements[k], s);
        var i: nat :| StandsFor(env, s, i, elements[k]);
        assert IsPath(paths[i], visited[i]);
        assert IsElementOf(env, elements[k], visited[i]);
      }
    }

    method TraverseAll(ns: seq<DomNode>, path: seq<DomNode>)
      requires Valid() && Complete() && forall i :: 0 <= i < |ns| ==> IsPath(path, ns[i])
      requires forall k :: 0 <= k < |path| ==> path[k].backendNodeId in processed
      modifies this
      ensures Valid() && Complete() && processed >= old(processed) && (old(wasAborted) ==> wasAborted)
      ensures !wasAborted ==> visited == ScanAll(ns, old(visited))
      decreases ns, 0
    {
      if ns != [] {
        Traverse(ns[0], path);
        TraverseAll(ns[1..], path);
      }
    }
  }

  lemma MarkDistinct(visited: seq<DomNode>, n: DomNode)
    requires DistinctNodes(visited) && !Seen(visited, n.backendNodeId)
    ensures DistinctNodes(visited + [n])
    ensures forall id :: Seen(visited + [n], id) <==> Seen(visited, id) || id == n.backendNodeId
  {
    var all := visited + [n];
    assert all[|visited|] == n;
    forall id | Seen(visited, id)
      ensures Seen(all, id)
    {
      var i :| 0 <= i < |visited| && visited[i].backendNodeId == id;
      assert all[i].backendNodeId == id;
    }
  }

  lemma IdsOfAppend(es: seq<Element>, e: Element)
    ensures IdsOf(es + [e]) == IdsOf(es) + {e.backendNodeId}
  {
    var all := es + [e];
    forall id | id in IdsOf(es)
      ensures id in IdsOf(all)
    {
      var i :| 0 <= i < |es| && es[i].backendNodeId == id;
      assert all[i].backendNodeId == id;
    }
    assert all[|es|] == e;
  }

  lemma SameIds(a: seq<Element>, b: seq<Element>)
    requires |a| == |b| && forall i :: 0 <= i < |a| ==> a[i].backendNodeId == b[i].backendNodeId
    ensures IdsOf(a) == IdsOf(b)
  {
    forall id | id in IdsOf(a)
      ensures id in IdsOf(b)
    {
      var i :| 0 <= i < |a| && a[i].backendNodeId == id;
      assert b[i].backendNodeId == id;
    }
    forall id | id in IdsOf(b)
      ensures id in IdsOf(a)
    {
      var i :| 0 <= i < |b| && b[i].backendNodeId == id;
      assert a[i].backendNodeId == id;
    }
  }
}

/**
 What a serialized page shows, told by the paths through the source tree: which nodes belong on
 the page, and that the page has them all unless the budgets are too small for them.
 */
module SerializerLaws {
  import opened Paths
  import opened SemanticSerializer
  import opened StableSort
  import opened Wrappers

  // ---------------------------------------------------------------- nodes and refs

  function NodeAt(ns: seq<SemNode>, path: seq<nat>): Option<SemNode>
    decreases |path|
  {
    if path == [] || path[0] >= |ns| then None
    else if |path| == 1 then Some(ns[path[0]])
    else NodeAt(ns[path[0]].children, path[1..])
  }

  predicate IsTarget(env: Env, n: SemNode)
  {
    n.targetKey != "" && n.targetKey in env.refs
  }

  /** The node is a target with a ref that is not empty and, if asked for, allowed. */
  predicate Names(env: Env, n: SemNode, allowedOnly: bool)
  {
    IsTarget(env, n) && env.refs[n.targetKey].ref != "" && (allowedOnly ==> env.refs[n.targetKey].ref in env.allowed)
  }

  ghost predicate Hit(env: Env, ns: seq<SemNode>, allowedOnly: bool, path: seq<nat>)
  {
    NodeAt(ns, path).Some? && Names(env, NodeAt(ns, path).value, allowedOnly)
  }

  /** Such a target is at or below the node. */
  ghost predicate Carries(env: Env, n: SemNode, allowedOnly: bool)
  {
    Names(env, n, allowedOnly) || exists path :: Hit(env, n.children, allowedOnly, path)
  }

  /**
   Whether a node belongs on the page once its ancestors do: a target if its ref is allowed; another
   node if an allowed target is below it, or if no target is below it and it gives context, by its
   role or by standing inside a node with an allowed target.
   */
  ghost predicate Fit(env: Env, n: SemNode, inside: bool)
  {
    if IsTarget(env, n) then env.refs[n.targetKey].ref in env.allowed
    else Carries(env, n, true) || (!Carries(env, n, false) && (inside || n.role in CONTEXT_ROLES))
  }

  /** The path leads to a node, and that node and all on the way to it belong on the page. */
  ghost predicate Shown(env: Env, ns: seq<SemNode>, inside: bool, path: seq<nat>)
    decreases |path|
  {
    && path != [] && path[0] < |ns|
    && Fit(env, ns[path[0]], inside)
    && (|path| == 1 || Shown(env, ns[path[0]].children, inside || Carries(env, ns[path[0]], true), path[1..]))
  }

  // ---------------------------------------------------------------- the counts count paths

  function Number(c: Count, allowedOnly: bool): nat
  {
    if allowedOnly then c.allowed else c.any
  }

  ghost predicate AreHits(env: Env, ns: seq<SemNode>, allowedOnly: bool, paths: set<seq<nat>>)
  {
    forall path :: path in paths <==> Hit(env, ns, allowedOnly, path)
  }

  lemma {:induction false} CountsPaths(env: Env, ns: seq<SemNode>, allowedOnly: bool) returns (paths: set<seq<nat>>)
    ensures AreHits(env, ns, allowedOnly, paths) && |paths| == Number(CountList(env, ns), allowedOnly)
    decreases ns
  {
    if ns == [] {
      paths := {};
    } else {
      var own := Names(env, ns[0], allowedOnly);
      var below := CountsPaths(env, ns[0].children, allowedOnly);
      var rest := CountsPaths(env, ns[1..], allowedOnly);
      assert [] !in below && [] !in rest;
      paths := JoinPaths(own, below, rest);
      forall path
        ensures path in paths <==> Hit(env, ns, allowedOnly, path)
      {
        HitByParts(env, ns, allowedOnly, below, rest, path);
      }
    }
  }

  lemma HitByParts(env: Env, ns: seq<SemNode>, allowedOnly: bool, below: set<seq<nat>>, rest: set<seq<nat>>,
                   path: seq<nat>)
    requires ns != [] && AreHits(env, ns[0].children, allowedOnly, below) && AreHits(env, ns[1..], allowedOnly, rest)
    ensures Hit(env, ns, allowedOnly, path) <==>
            path != [] && if path[0] > 0 then [path[0] - 1] + path[1..] in rest
                          else if |path| == 1 then Names(env, ns[0], allowedOnly)
                          else path[1..] in below
  {
    HitCons(env, ns, allowedOnly, path);
  }

  lemma HitCons(env: Env, ns: seq<SemNode>, allowedOnly: bool, path: seq<nat>)
    requires ns != []
    ensures Hit(env, ns, allowedOnly, path) <==>
            path != [] && if path[0] > 0 then Hit(env, ns[1..], allowedOnly, [path[0] - 1] + path[1..])
                          else if |path| == 1 then Names(env, ns[0], allowedOnly)
                          else Hit(env, ns[0].children, allowedOnly, path[1..])
  {
    if path != [] && path[0] > 0 {
      assert ([path[0] - 1] + path[1..])[1..] == path[1..];
    }
  }

  lemma CarriesIsCounted(env: Env, n: SemNode, allowedOnly: bool)
    ensures Carries(env, n, allowedOnly) <==> Number(CountOf(env, n), allowedOnly) > 0
  {
    var paths := CountsPaths(env, n.children, allowedOnly);
    if paths != {} {
      var path :| path in paths;
      assert Hit(env, n.children, allowedOnly, path);
    }
  }

  lemma FitIsNotPassedOver(env: Env, n: SemNode, inside: bool)
    ensures Fit(env, n, inside) <==> !PassedOver(env, n, inside)
  {
    CarriesIsCounted(env, n, true);
    CarriesIsCounted(env, n, false);
  }

  /** Of two siblings the one with more allowed targets at or below it is serialized first. */
  lemma MoreAllowedFirst(env: Env, ns: seq<SemNode>, i: nat, j: nat, ps: set<seq<nat>>, qs: set<seq<nat>>)
    requires i < j < |Ordered(env, ns)|
    requires AreHits(env, [Ordered(env, ns)[i]], true, ps) && AreHits(env, [Ordered(env, ns)[j]], true, qs)
    ensures |ps| >= |qs|
  {
    SortIsStable(Allowed(env), ns);
    HitsAreCounted(env, Ordered(env, ns)[i], ps);
    HitsAreCounted(env, Ordered(env, ns)[j], qs);
    assert Allowed(env)(Ordered(env, ns)[i]) >= Allowed(env)(Ordered(env, ns)[j]);
  }

  lemma HitsAreCounted(env: Env, n: SemNode, paths: set<seq<nat>>)
    requires AreHits(env, [n], true, paths)
    ensures |paths| == Allowed(env)(n)
  {
    var counted := CountsPaths(env, [n], true);
    assert forall path :: path in paths <==> path in counted;
    assert paths == counted;
    assert [n][1..] == [];
    assert CountList(env, [n][1..]) == Count(0, 0);
  }

  // ---------------------------------------------------------------- bytes

  /** The JSON text of a node's own fields; `caption` holds the optional fields between role and ref. */
  function OwnText(role: string, caption: string, target: Option<TargetRef>): string
  {
    "{\"role\":\"" + role + "\"" + caption +
    match target
    case None => "}"
    case Some(t) => ",\"ref\":\"" + t.ref + "\",\"frame\":\"" + t.frameRef + "\",\"actionable\":true}"
  }

  lemma BytesAreOfText(role: string, caption: string, target: Option<TargetRef>)
    ensures OwnBytes(role, caption, target) == |OwnText(role, caption, target)|
  {
  }

  // ---------------------------------------------------------------- what the page should hold

  datatype Label = Label(role: string, caption: string, target: Option<TargetRef>)

  function LabelsOf(xs: seq<AgentNode>): multiset<Label>
    decreases xs
  {
    if xs == [] then multiset{}
    else multiset{Label(xs[0].role, xs[0].caption, xs[0].target)} + LabelsOf(xs[0].children) + LabelsOf(xs[1..])
  }

  function SourceLabel(env: Env, n: SemNode): Label
  {
    Label(n.role, n.caption, if IsTarget(env, n) then Some(env.refs[n.targetKey]) else None)
  }

  /** The labels and bytes of the nodes that belong on the page. */
  datatype Demand = Demand(labels: multiset<Label>, bytes: nat)

  function Plus(a: Demand, b: Demand): Demand
  {
    Demand(a.labels + b.labels, a.bytes + b.bytes)
  }

  ghost function Wanted(env: Env, n: SemNode, inside: bool): Demand
    decreases Size(n), 0
  {
    if !Fit(env, n, inside) then Demand(multiset{}, 0)
    else Plus(Demand(multiset{SourceLabel(env, n)}, OwnBytes(n.role, n.caption, Target(env, n))),
              WantedList(env, n.children, inside || Carries(env, n, true)))
  }

  ghost function WantedList(env: Env, ns: seq<SemNode>, inside: bool): Demand
    decreases SizeList(ns), 1
  {
    if ns == [] then Demand(multiset{}, 0) else Plus(Wanted(env, ns[0], inside), WantedList(env, ns[1..], inside))
  }

  lemma WantedFirst(env: Env, n: SemNode, rest: seq<SemNode>, inside: bool)
    ensures WantedList(env, [n] + rest, inside) == Plus(Wanted(env, n, inside), WantedList(env, rest, inside))
  {
    assert ([n] + rest)[1..] == rest;
  }

  lemma {:induction false} InsertWanted(env: Env, key: SemNode -> int, n: SemNode, sorted: seq<SemNode>, inside: bool)
    ensures WantedList(env, Insert(key, n, sorted), inside) ==
            Plus(Wanted(env, n, inside), WantedList(env, sorted, inside))
    decreases |sorted|
  {
    if sorted == [] || key(n) >= key(sorted[0]) {
      WantedFirst(env, n, sorted, inside);
    } else {
      InsertWanted(env, key, n, sorted[1..], inside);
      WantedFirst(env, sorted[0], Insert(key, n, sorted[1..]), inside);
    }
  }

  lemma {:induction false} SortWanted(env: Env, key: SemNode -> int, ns: seq<SemNode>, inside: bool)
    ensures WantedList(env, Sort(key, ns), inside) == WantedList(env, ns, inside)
  {
    if ns != [] {
      SortWanted(env, key, ns[1..], inside);
      InsertWanted(env, key, ns[0], Sort(key, ns[1..]), inside);
    }
  }

  // ---------------------------------------------------------------- the traversal meets the demand

  predicate Fits(env: Env, b: Budget, d: Demand)
  {
    b.nodes + |d.labels| <= env.maxNodes && b.bytes + d.bytes <= env.maxBytes
  }

  /** At most the demand is emitted; all of it unless something was cut; and nothing is cut if it fits. */
  ghost predicate Meets(env: Env, labels: multiset<Label>, d: Demand, b: Budget, b': Budget)
  {
    && labels <= d.labels
    && (b.truncated ==> b'.truncated)
    && (!b'.truncated ==> labels == d.labels && b'.nodes == b.nodes + |d.labels| && b'.bytes == b.bytes + d.bytes)
    && (!b.truncated && Fits(env, b, d) ==> !b'.truncated)
  }

  function LabelsOfOne(a: Option<AgentNode>): multiset<Label>
  {
    match a
    case None => multiset{}
    case Some(x) => multiset{Label(x.role, x.caption, x.target)} + LabelsOf(x.children)
  }

  lemma MeetsBoth(env: Env, l1: multiset<Label>, d1: Demand, l2: multiset<Label>, d2: Demand, b: Budget, b1: Budget,
                  b2: Budget)
    requires Meets(env, l1, d1, b, b1) && Meets(env, l2, d2, b1, b2)
    ensures Meets(env, l1 + l2, Plus(d1, d2), b, b2)
  {
    assert |Plus(d1, d2).labels| == |d1.labels| + |d2.labels|;
  }

  lemma {:induction false} NodeMeets(env: Env, n: SemNode, inside: bool, b: Budget)
    requires Within(env, b)
    ensures var (a, b') := Serialize(env, n, inside, b);
            Within(env, b') && Meets(env, LabelsOfOne(a), Wanted(env, n, inside), b, b')
    decreases Size(n), 0
  {
    NodeIsCharged(env, n, inside, b);
    FitIsNotPassedOver(env, n, inside);
    if Fit(env, n, inside) {
      var own := Demand(multiset{SourceLabel(env, n)}, OwnBytes(n.role, n.caption, Target(env, n)));
      var kids := Ordered(env, n.children);
      CarriesIsCounted(env, n, true);
      var inContext := CountOf(env, n).allowed > 0 || inside;
      SortSize(Allowed(env), n.children);
      SortWanted(env, Allowed(env), n.children, inContext);
      var below := WantedList(env, n.children, inContext);
      assert |own.labels + below.labels| == 1 + |below.labels|;
      if Affordable(env, n, b) {
        ListMeets(env, kids, inContext, Charge(env, n, b));
        var (xs, b') := SerializeList(env, kids, inContext, Charge(env, n, b));
        MeetsBoth(env, own.labels, own, LabelsOf(xs), below, b, Charge(env, n, b), b');
      }
    }
  }

  lemma {:induction false} ListMeets(env: Env, ns: seq<SemNode>, inside: bool, b: Budget)
    requires Within(env, b)
    ensures var (xs, b') := SerializeList(env, ns, inside, b);
            Within(env, b') && Meets(env, LabelsOf(xs), WantedList(env, ns, inside), b, b')
    decreases SizeList(ns), 1
  {
    if ns != [] {
      NodeMeets(env, ns[0], inside, b);
      var (first, b1) := Serialize(env, ns[0], inside, b);
      ListMeets(env, ns[1..], inside, b1);
      var (rest, b2) := SerializeList(env, ns[1..], inside, b1);
      MeetsBoth(env, LabelsOfOne(first), Wanted(env, ns[0], inside), LabelsOf(rest), WantedList(env, ns[1..], inside),
                b, b1, b2);
      if first.Some? {
        assert ([first.value] + rest)[1..] == rest;
      } else {
        assert [] + rest == rest;
      }
    }
  }

  // ---------------------------------------------------------------- the demand counts paths

  ghost predicate ShownAs(env: Env, ns: seq<SemNode>, inside: bool, l: Label, path: seq<nat>)
  {
    Shown(env, ns, inside, path) && NodeAt(ns, path).Some? && SourceLabel(env, NodeAt(ns, path).value) == l
  }

  lemma ShownCons(env: Env, ns: seq<SemNode>, inside: bool, l: Label, path: seq<nat>)
    requires ns != []
    ensures ShownAs(env, ns, inside, l, path) <==>
            path != [] &&
            if path[0] > 0 then ShownAs(env, ns[1..], inside, l, [path[0] - 1] + path[1..])
            else Fit(env, ns[0], inside) &&
                 if |path| == 1 then SourceLabel(env, ns[0]) == l
                 else ShownAs(env, ns[0].children, inside || Carries(env, ns[0], true), l, path[1..])
  {
    if path != [] && path[0] > 0 {
      assert ([path[0] - 1] + path[1..])[1..] == path[1..];
    }
  }

  lemma WantedCons(env: Env, ns: seq<SemNode>, inside: bool, l: Label)
    requires ns != []
    ensures WantedList(env, ns, inside).labels[l] ==
            WantedList(env, ns[1..], inside).labels[l] +
            if !Fit(env, ns[0], inside) then 0
            else (if SourceLabel(env, ns[0]) == l then 1 else 0) +
                 WantedList(env, ns[0].children, inside || Carries(env, ns[0], true)).labels[l]
  {
  }

  ghost predicate AreShown(env: Env, ns: seq<SemNode>, inside: bool, l: Label, paths: set<seq<nat>>)
  {
    forall path :: path in paths <==> ShownAs(env, ns, inside, l, path)
  }

  lemma {:induction false} WantedPaths(env: Env, ns: seq<SemNode>, inside: bool, l: Label)
    returns (paths: set<seq<nat>>)
    ensures AreShown(env, ns, inside, l, paths) && |paths| == WantedList(env, ns, inside).labels[l]
    decreases ns
  {
    if ns == [] {
      paths := {};
    } else {
      var rest := WantedPaths(env, ns[1..], inside, l);
      var below: set<seq<nat>> := {};
      if Fit(env, ns[0], inside) {
        below := WantedPaths(env, ns[0].children, inside || Carries(env, ns[0], true), l);
      }
      paths := ShownJoin(env, ns, inside, l, below, rest);
      WantedCons(env, ns, inside, l);
    }
  }

  ghost predicate AreParts(env: Env, ns: seq<SemNode>, inside: bool, l: Label, below: set<seq<nat>>,
                           rest: set<seq<nat>>)
    requires ns != []
  {
    && AreShown(env, ns[1..], inside, l, rest)
    && if Fit(env, ns[0], inside) then AreShown(env, ns[0].children, inside || Carries(env, ns[0], true), l, below)
       else below == {}
  }

  lemma ShownByParts(env: Env, ns: seq<SemNode>, inside: bool, l: Label, below: set<seq<nat>>, rest: set<seq<nat>>,
                     path: seq<nat>)
    requires ns != [] && AreParts(env, ns, inside, l, below, rest)
    ensures ShownAs(env, ns, inside, l, path) <==>
            path != [] && if path[0] > 0 then [path[0] - 1] + path[1..] in rest
                          else if |path| == 1 then Fit(env, ns[0], inside) && SourceLabel(env, ns[0]) == l
                          else path[1..] in below
  {
    ShownCons(env, ns, inside, l, path);
  }

  lemma ShownJoin(env: Env, ns: seq<SemNode>, inside: bool, l: Label, below: set<seq<nat>>, rest: set<seq<nat>>)
    returns (paths: set<seq<nat>>)
    requires ns != [] && AreParts(env, ns, inside, l, below, rest)
    ensures AreShown(env, ns, inside, l, paths)
    ensures |paths| == (if Fit(env, ns[0], inside) && SourceLabel(env, ns[0]) == l then 1 else 0) + |below| + |rest|
  {
    assert [] !in rest by {
      assert !ShownAs(env, ns[1..], inside, l, []);
    }
    assert [] !in below by {
      assert !ShownAs(env, ns[0].children, inside || Carries(env, ns[0], true), l, []);
    }
    paths := JoinPaths(Fit(env, ns[0], inside) && SourceLabel(env, ns[0]) == l, below, rest);
    forall path
      ensures path in paths <==> ShownAs(env, ns, inside, l, path)
    {
      ShownByParts(env, ns, inside, l, below, rest, path);
    }
  }

  // ---------------------------------------------------------------- main results

  /**
   A page has every label at most as often as nodes with that label belong on it, and exactly as
   often if it is not marked truncated.
   */
  lemma PageShowsWhatBelongs(env: Env, roots: seq<SemNode>, treeTruncated: bool, l: Label)
    returns (paths: set<seq<nat>>)
    ensures AreShown(env, roots, false, l, paths)
    ensures var (page, b) := Page(env, roots, treeTruncated);
            LabelsOf(page)[l] <= |paths| && (!b.truncated ==> LabelsOf(page)[l] == |paths|)
  {
    paths := WantedPaths(env, roots, false, l);
    SortWanted(env, Allowed(env), roots, false);
    ListMeets(env, Ordered(env, roots), false, Budget(0, 0, treeTruncated));
  }

  /** The mark is exact: the page is cut if and only if the tree was, or what belongs on it exceeds a budget. */
  lemma TruncatedIffTooMuch(env: Env, roots: seq<SemNode>, treeTruncated: bool)
    ensures var d := WantedList(env, roots, false);
            Page(env, roots, treeTruncated).1.truncated <==>
            treeTruncated || |d.labels| > env.maxNodes || d.bytes > env.maxBytes
  {
    SortWanted(env, Allowed(env), roots, false);
    ListMeets(env, Ordered(env, roots), false, Budget(0, 0, treeTruncated));
  }

  function SourceBytes(env: Env, ns: seq<SemNode>): nat
    decreases ns
  {
    if ns == [] then 0
    else OwnBytes(ns[0].role, ns[0].caption, Target(env, ns[0])) + SourceBytes(env, ns[0].children) +
         SourceBytes(env, ns[1..])
  }

  lemma {:induction false} WantedIsInSource(env: Env, ns: seq<SemNode>, inside: bool)
    ensures |WantedList(env, ns, inside).labels| <= SizeList(ns)
    ensures WantedList(env, ns, inside).bytes <= SourceBytes(env, ns)
    decreases ns
  {
    if ns != [] {
      WantedIsInSource(env, ns[1..], inside);
      WantedIsInSource(env, ns[0].children, inside || Carries(env, ns[0], true));
    }
  }

  /** A tree that fits both budgets as a whole is never cut. */
  lemma SmallTreesAreWhole(env: Env, roots: seq<SemNode>)
    requires SizeList(roots) <= env.maxNodes && SourceBytes(env, roots) <= env.maxBytes
    ensures !Page(env, roots, false).1.truncated
  {
    WantedIsInSource(env, roots, false);
    TruncatedIffTooMuch(env, roots, false);
  }
}

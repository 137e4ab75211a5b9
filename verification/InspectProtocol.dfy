/**
 The life of an opaque ref under every interleaving of inspections, continuations, ref
 resolutions, page mutations and navigation events. `inspect` suspends at each `await`, so
 it appears as separate steps; between any two of them every other step may happen.
 Any number of inspections may be under way at once.
 */
module InspectProtocol {
  import opened SnapshotModel
  import opened SnapshotStore
  import Paging
  import Nav = NavigationEvents
  import opened Wrappers

  // ---------------------------------------------------------------- state

  /** What happened to the documents, in order. */
  datatype Event = MainInvalidated | FrameInvalidated(identity: Identity)

  datatype Phase =
    | ReadingSummary
    | Scanning
    | Updating(scanned: seq<Node>, kept: seq<Node>, filteredAt: nat)

  /** An inspection under way: what it captured before its first `await`, and how far it got. */
  datatype Inspection = Inspection(
    generation: nat,
    baseline: map<FrameKey, nat>,
    mark: nat,
    kind: Kind,
    phase: Phase)

  /**
   The record of an issued snapshot. `mark` and `issuedAt` are lengths of the history: when
   the scan started and when its refs were handed out. `frozen` is the element list at that
   moment; `delivered` collects the pages served from it so far, and `targets` and
   `deliveredTargets` are the same for its editable query.
   */
  datatype Issue = Issue(
    mark: nat,
    issuedAt: nat,
    scanned: seq<Node>,
    frozen: seq<Element>,
    delivered: seq<Element>,
    targets: seq<Element>,
    deliveredTargets: seq<Element>)

  datatype World = World(
    session: Session,
    clock: int,
    history: seq<Event>,
    inspections: map<nat, Inspection>,
    issues: map<nat, Issue>,
    nextId: nat)

  const INITIAL := World(Session(0, map[], [], None), 0, [], map[], map[], 0)

  datatype Step =
    | Tick(now: int)
    | BeginInspect(task: nat, kind: Kind)
    | SummaryRead(task: nat)
    | ScanDone(task: nat, scanned: seq<Node>)
    | UpdateDone(task: nat, refs: seq<string>, layout: Layout, limit: int, treeBytes: nat, now: int)
    | InspectFails(task: nat)
    | Navigate
    | FrameEvent(identity: Identity)
    | Transport(event: Nav.TransportEvent, env: Nav.Env)
    | Mutate
    | ResolveRef(ref: string, now: int)
    | Continue(id: nat, request: Paging.Request, now: int)
    | StartEditable(limit: int)
    | ContinueEditable(id: nat, request: Paging.Request, now: int)

  // ---------------------------------------------------------------- steps

  /** `browserElementFrameIsCurrent`: no epoch of the element's document has moved. */
  predicate FrameCurrent(baseline: map<FrameKey, nat>, epochs: map<FrameKey, nat>, n: Node)
  {
    forall k :: k in KeysOf(n.frameId, n.sessionId) ==> Epoch(epochs, k) == Epoch(baseline, k)
  }

  function CurrentNodes(ns: seq<Node>, baseline: map<FrameKey, nat>, epochs: map<FrameKey, nat>): seq<Node>
  {
    if ns == [] then []
    else
      var rest := CurrentNodes(ns[..|ns| - 1], baseline, epochs);
      if FrameCurrent(baseline, epochs, ns[|ns| - 1]) then rest + [ns[|ns| - 1]] else rest
  }

  function Records(ns: seq<Node>, refs: seq<string>): (r: seq<Element>)
    requires |ns| == |refs|
    ensures |r| == |ns| && forall i :: 0 <= i < |ns| ==> r[i] == Element(refs[i], ns[i])
  {
    seq(|ns|, i requires 0 <= i < |ns| => Element(refs[i], ns[i]))
  }

  function Editables(es: seq<Element>): seq<Element>
  {
    if es == [] then []
    else
      var rest := Editables(es[..|es| - 1]);
      if es[|es| - 1].node.editable then rest + [es[|es| - 1]] else rest
  }

  function Later(w: World, now: int): int
  {
    if now < w.clock then w.clock else now
  }

  function Drop(w: World, task: nat): World
  {
    w.(inspections := w.inspections - {task})
  }

  /** Serve a page from the list of the `i`-th snapshot and record what was delivered. */
  function ServeList(w: World, i: nat, r: Paging.Request): World
    requires i < |w.session.store|
  {
    var s := w.session.store[i];
    if s.id !in w.issues || !Paging.Wellformed(s.cursor) then w
    else
      var (c, reply) := Paging.Serve(Paging.InspectMode(s.layout), s.cursor, r);
      var iss := w.issues[s.id];
      if reply.Served? then
        w.(session := w.session.(store := w.session.store[i := s.(cursor := c)]),
           issues := w.issues[s.id := iss.(delivered := iss.delivered + reply.elements)])
      else w
  }

  /** The same for the editable query of the `i`-th snapshot. */
  function ServeTargets(w: World, i: nat, r: Paging.Request): World
    requires i < |w.session.store|
  {
    var s := w.session.store[i];
    if s.id !in w.issues || s.editable.None? || !Paging.Wellformed(s.editable.value) then w
    else
      var (c, reply) := Paging.Serve(Paging.EditableMode, s.editable.value, r);
      var iss := w.issues[s.id];
      if reply.Served? then
        w.(session := w.session.(store := w.session.store[i := s.(editable := Some(c))]),
           issues := w.issues[s.id := iss.(deliveredTargets := iss.deliveredTargets + reply.elements)])
      else w
  }

  /** Store a freshly taken snapshot and close its inspection. */
  function Stored(w: World, task: nat, snap: Snap, iss: Issue, now: int): World
  {
    w.(session := Store(w.session, snap, w.clock, now),
       clock := now,
       inspections := w.inspections - {task},
       issues := w.issues[w.nextId := iss],
       nextId := w.nextId + 1)
  }

  function ServeById(w: World, id: nat, r: Paging.Request): World
  {
    match IndexOfId(w.session.store, id)
    case None => w
    case Some(i) => ServeList(w, i, r)
  }

  /** The synchronous tail of `inspect`: filter once more, hand out refs, store, serve page one. */
  function Publish(w: World, step: Step): World
    requires step.UpdateDone? && step.task in w.inspections && w.inspections[step.task].phase.Updating?
  {
    var ins := w.inspections[step.task];
    var nodes := CurrentNodes(ins.phase.kept, ins.baseline, w.session.epochs);
    if |step.refs| != |nodes| then w
    else
      var now := Later(w, step.now);
      var frozen := Records(nodes, step.refs);
      var snap := Snap(w.nextId, ins.generation, now, None, ins.kind, Cursor(frozen, Some(0)), None, false,
                       step.layout);
      var iss := Issue(ins.mark, |w.history|, ins.phase.scanned, frozen, [], [], []);
      ServeById(Stored(w, step.task, snap, iss, now), snap.id, Paging.Request(0, step.limit, step.treeBytes))
  }

  function AttachTargets(w: World, i: nat, limit: int): World
    requires i < |w.session.store|
  {
    var s := w.session.store[i];
    if s.id !in w.issues then w
    else
      var targets := Editables(s.cursor.elements);
      var attached := w.(
          session := w.session.(store := w.session.store[i := s.(editable := Some(Cursor(targets, Some(0))))]),
          issues := w.issues[s.id := w.issues[s.id].(targets := targets, deliveredTargets := [])]);
      ServeTargets(attached, i, Paging.Request(0, limit, 0))
  }

  function Looked(w: World, id: nat, now: int): (World, Option<nat>)
  {
    var (session, found) := Get(w.session, id, w.clock, Later(w, now));
    (w.(session := session, clock := Later(w, now)), found)
  }

  function MainReplaced(w: World): World
  {
    w.(session := Invalidate(w.session), history := w.history + [MainInvalidated])
  }

  function ChildReplaced(w: World, identity: Identity): World
  {
    w.(session := InvalidateFrame(w.session, identity), history := w.history + [FrameInvalidated(identity)])
  }

  /** One step of the system; a step that is not possible in `w` changes nothing. */
  function Apply(w: World, step: Step): World
  {
    match step
    case Tick(now) => w.(clock := Later(w, now))
    case BeginInspect(task, kind) =>
      if task in w.inspections then w
      else
        w.(inspections := w.inspections[task :=
             Inspection(w.session.generation, w.session.epochs, |w.history|, kind, ReadingSummary)])
    case SummaryRead(task) =>
      if task !in w.inspections || !w.inspections[task].phase.ReadingSummary? then w
      else if w.inspections[task].generation != w.session.generation then Drop(w, task)
      else w.(inspections := w.inspections[task := w.inspections[task].(phase := Scanning)])
    case ScanDone(task, scanned) =>
      if task !in w.inspections || !w.inspections[task].phase.Scanning? then w
      else if w.inspections[task].generation != w.session.generation then Drop(w, task)
      else
        var kept := CurrentNodes(scanned, w.inspections[task].baseline, w.session.epochs);
        w.(inspections := w.inspections[task :=
             w.inspections[task].(phase := Updating(scanned, kept, |w.history|))])
    case UpdateDone(task, _, _, _, _, _) =>
      if task !in w.inspections || !w.inspections[task].phase.Updating? then w
      else if w.inspections[task].generation != w.session.generation then Drop(w, task)
      else Publish(w, step)
    case InspectFails(task) => Drop(w, task)
    case Navigate => MainReplaced(w)
    case FrameEvent(identity) => ChildReplaced(w, identity)
    case Transport(event, env) =>
      (match Nav.EffectOf(event, env)
       case Ignored => w
       case ReplacesMain => MainReplaced(w)
       case ReplacesChild(identity) => ChildReplaced(w, identity))
    case Mutate => w.(session := InvalidateObservations(w.session))
    case ResolveRef(ref, now) =>
      w.(session := Resolve(w.session, ref, w.clock, Later(w, now)).0, clock := Later(w, now))
    case Continue(id, request, now) =>
      var (w1, found) := Looked(w, id, now);
      if found.None? || found.value >= |w1.session.store| || w1.session.store[found.value].kind != Inspect then w1
      else ServeList(w1, found.value, request)
    case StartEditable(limit) =>
      if w.session.latest.None? then w
      else
        var found := IndexOfId(w.session.store, w.session.latest.value);
        if found.None? then w else AttachTargets(w, found.value, limit)
    case ContinueEditable(id, request, now) =>
      var (w1, found) := Looked(w, id, now);
      if found.None? || found.value >= |w1.session.store| || w1.session.store[found.value].kind != QueryEditable then w1
      else ServeTargets(w1, found.value, request)
  }

  function Run(w: World, steps: seq<Step>): World
    decreases |steps|
  {
    if steps == [] then w else Apply(Run(w, steps[..|steps| - 1]), steps[|steps| - 1])
  }

  // ---------------------------------------------------------------- what the history means

  /** Main-document invalidations so far. */
  ghost function Mains(h: seq<Event>): nat
  {
    if h == [] then 0 else Mains(h[..|h| - 1]) + if h[|h| - 1].MainInvalidated? then 1 else 0
  }

  /** Invalidations counted under a key since the last main-document invalidation. */
  ghost function Hits(h: seq<Event>, k: FrameKey): nat
  {
    if h == [] then 0
    else
      match h[|h| - 1]
      case MainInvalidated => 0
      case FrameInvalidated(identity) =>
        Hits(h[..|h| - 1], k) + if k in KeysOf(identity.frameId, identity.sessionId) then 1 else 0
  }

  ghost predicate NoMainSince(h: seq<Event>, mark: nat)
  {
    forall i :: mark <= i < |h| ==> !h[i].MainInvalidated?
  }

  /** No document event since `mark` names the document of `n`. */
  ghost predicate Untouched(h: seq<Event>, mark: nat, n: Node)
  {
    forall i :: mark <= i < |h| && h[i].FrameInvalidated? ==> !Matches(n, h[i].identity)
  }

  ghost function Live(ns: seq<Node>, h: seq<Event>, mark: nat): seq<Node>
  {
    if ns == [] then []
    else
      var rest := Live(ns[..|ns| - 1], h, mark);
      if Untouched(h, mark, ns[|ns| - 1]) then rest + [ns[|ns| - 1]] else rest
  }

  ghost function LiveElements(es: seq<Element>, h: seq<Event>, mark: nat): (r: seq<Element>)
    ensures |r| <= |es|
    ensures forall e :: e in r <==> e in es && Untouched(h, mark, e.node)
  {
    if es == [] then []
    else
      var rest := LiveElements(es[..|es| - 1], h, mark);
      assert es == es[..|es| - 1] + [es[|es| - 1]];
      if Untouched(h, mark, es[|es| - 1].node) then rest + [es[|es| - 1]] else rest
  }

  function NodesOf(es: seq<Element>): (r: seq<Node>)
    ensures |r| == |es| && forall i :: 0 <= i < |es| ==> r[i] == es[i].node
  {
    seq(|es|, i requires 0 <= i < |es| => es[i].node)
  }

  lemma {:induction false} MainsMonotone(h: seq<Event>, mark: nat)
    requires mark <= |h|
    ensures Mains(h[..mark]) <= Mains(h)
    ensures Mains(h[..mark]) == Mains(h) <==> NoMainSince(h, mark)
  {
    if mark == |h| {
      assert h[..mark] == h;
    } else {
      var init := h[..|h| - 1];
      MainsMonotone(init, mark);
      assert init[..mark] == h[..mark];
      assert NoMainSince(h, mark) <==> NoMainSince(init, mark) && !h[|h| - 1].MainInvalidated?;
    }
  }

  /** Without a main-document invalidation, the key counts only grow, by the events that carry the key. */
  lemma {:induction false} HitsSince(h: seq<Event>, mark: nat, k: FrameKey)
    requires mark <= |h| && NoMainSince(h, mark)
    ensures Hits(h[..mark], k) <= Hits(h, k)
    ensures Hits(h[..mark], k) == Hits(h, k) <==>
            forall i :: mark <= i < |h| ==> k !in KeysOf(h[i].identity.frameId, h[i].identity.sessionId)
  {
    if mark == |h| {
      assert h[..mark] == h;
    } else {
      var init := h[..|h| - 1];
      HitsSince(init, mark, k);
      assert init[..mark] == h[..mark];
    }
  }

  ghost predicate EpochsAgree(epochs: map<FrameKey, nat>, h: seq<Event>)
  {
    forall k :: Epoch(epochs, k) == Hits(h, k)
  }

  /** Comparing epochs against the captured baseline detects exactly the relevant frame events. */
  lemma EpochCheckIsExact(h: seq<Event>, mark: nat, baseline: map<FrameKey, nat>, epochs: map<FrameKey, nat>, n: Node)
    requires mark <= |h| && NoMainSince(h, mark)
    requires EpochsAgree(baseline, h[..mark]) && EpochsAgree(epochs, h)
    ensures FrameCurrent(baseline, epochs, n) <==> Untouched(h, mark, n)
  {
    var keys := KeysOf(n.frameId, n.sessionId);
    forall k | k in keys
      ensures Epoch(epochs, k) == Epoch(baseline, k) <==>
              forall i :: mark <= i < |h| ==> k !in KeysOf(h[i].identity.frameId, h[i].identity.sessionId)
    {
      HitsSince(h, mark, k);
    }
    forall i | mark <= i < |h|
      ensures Matches(n, h[i].identity) <==>
              exists k :: k in keys && k in KeysOf(h[i].identity.frameId, h[i].identity.sessionId)
    {
      MatchesIsSharedKey(n, h[i].identity);
      var both := keys * KeysOf(h[i].identity.frameId, h[i].identity.sessionId);
      if both != {} {
        var k :| k in both;
        assert k in keys && k in KeysOf(h[i].identity.frameId, h[i].identity.sessionId);
      }
    }
  }

  lemma {:induction false} CurrentNodesAreLive(
      ns: seq<Node>, h: seq<Event>, mark: nat, baseline: map<FrameKey, nat>, epochs: map<FrameKey, nat>)
    requires mark <= |h| && NoMainSince(h, mark)
    requires EpochsAgree(baseline, h[..mark]) && EpochsAgree(epochs, h)
    ensures CurrentNodes(ns, baseline, epochs) == Live(ns, h, mark)
  {
    if ns != [] {
      CurrentNodesAreLive(ns[..|ns| - 1], h, mark, baseline, epochs);
      EpochCheckIsExact(h, mark, baseline, epochs, ns[|ns| - 1]);
    }
  }

  lemma {:induction false} LiveAgain(ns: seq<Node>, h: seq<Event>, mark: nat, t: nat)
    requires t <= |h|
    ensures Live(Live(ns, h[..t], mark), h, mark) == Live(ns, h, mark)
  {
    if ns != [] {
      var init, last := ns[..|ns| - 1], ns[|ns| - 1];
      LiveAgain(init, h, mark, t);
      var rest := Live(init, h[..t], mark);
      if Untouched(h[..t], mark, last) {
        assert (rest + [last])[..|rest|] == rest;
      } else {
        var i :| mark <= i < |h[..t]| && h[..t][i].FrameInvalidated? && Matches(last, h[..t][i].identity);
        assert h[i] == h[..t][i];
      }
    }
  }

  lemma {:induction false} LiveIsUntouched(ns: seq<Node>, h: seq<Event>, mark: nat)
    ensures forall n :: n in Live(ns, h, mark) ==> Untouched(h, mark, n)
  {
    if ns != [] {
      LiveIsUntouched(ns[..|ns| - 1], h, mark);
    }
  }

  lemma {:induction false} AllLive(es: seq<Element>, h: seq<Event>, mark: nat)
    requires forall i :: 0 <= i < |es| ==> Untouched(h, mark, es[i].node)
    ensures LiveElements(es, h, mark) == es
  {
    if es != [] {
      AllLive(es[..|es| - 1], h, mark);
      assert es == es[..|es| - 1] + [es[|es| - 1]];
    }
  }

  lemma UntouchedExtended(h: seq<Event>, mark: nat, n: Node, identity: Identity)
    requires mark <= |h|
    ensures Untouched(h + [FrameInvalidated(identity)], mark, n) <==>
            Untouched(h, mark, n) && !Matches(n, identity)
  {
    var h' := h + [FrameInvalidated(identity)];
    assert h'[|h|] == FrameInvalidated(identity);
    assert forall i :: 0 <= i < |h| ==> h'[i] == h[i];
  }

  lemma {:induction false} StripIsLive(es: seq<Element>, h: seq<Event>, mark: nat, identity: Identity)
    requires mark <= |h|
    ensures Strip(LiveElements(es, h, mark), identity) ==
            LiveElements(es, h + [FrameInvalidated(identity)], mark)
  {
    if es != [] {
      var init, last := es[..|es| - 1], es[|es| - 1];
      StripIsLive(init, h, mark, identity);
      UntouchedExtended(h, mark, last.node, identity);
      var rest := LiveElements(init, h, mark);
      assert (rest + [last])[..|rest|] == rest;
    }
  }

  // ---------------------------------------------------------------- invariant

  function Reach(next: Option<nat>, total: nat): nat
  {
    match next case Some(n) => n case None => total
  }

  ghost predicate IssueOk(h: seq<Event>, iss: Issue)
  {
    && iss.mark <= iss.issuedAt <= |h|
    && NodesOf(iss.frozen) == Live(iss.scanned, h[..iss.issuedAt], iss.mark)
    && iss.delivered <= iss.frozen
    && iss.deliveredTargets <= iss.targets
  }

  ghost predicate SnapOk(h: seq<Event>, iss: Issue, s: Snap)
  {
    && iss.mark <= |h|
    && s.generation == Mains(h) && Mains(h[..iss.mark]) == Mains(h)
    && s.cursor.elements == LiveElements(iss.frozen, h, iss.mark)
    && (!s.invalidated ==> s.cursor.elements == iss.frozen && Paging.Wellformed(s.cursor))
    && Reach(s.cursor.nextOffset, |iss.frozen|) <= |iss.frozen|
    && iss.delivered == iss.frozen[..Reach(s.cursor.nextOffset, |iss.frozen|)]
    && (s.editable.Some? ==> TargetsOk(iss, s))
  }

  ghost predicate TargetsOk(iss: Issue, s: Snap)
    requires s.editable.Some?
  {
    var c := s.editable.value;
    && (!s.invalidated ==>
          c.elements == iss.targets && iss.targets == Editables(iss.frozen) && Paging.Wellformed(c))
    && Reach(c.nextOffset, |iss.targets|) <= |iss.targets|
    && iss.deliveredTargets == iss.targets[..Reach(c.nextOffset, |iss.targets|)]
  }

  ghost predicate InspectionOk(h: seq<Event>, ins: Inspection)
  {
    && ins.mark <= |h|
    && ins.generation == Mains(h[..ins.mark])
    && EpochsAgree(ins.baseline, h[..ins.mark])
    && (ins.phase.Updating? ==>
          && ins.mark <= ins.phase.filteredAt <= |h|
          && ins.phase.kept == Live(ins.phase.scanned, h[..ins.phase.filteredAt], ins.mark))
  }

  ghost predicate SessionOk(session: Session, clock: int, h: seq<Event>, issues: map<nat, Issue>)
  {
    && Valid(session)
    && session.generation == Mains(h)
    && EpochsAgree(session.epochs, h)
    && forall s :: s in session.store ==>
                     s.id in issues && SnapOk(h, issues[s.id], s) && AccessTime(s) <= clock
  }

  ghost predicate Inv(w: World)
  {
    && SessionOk(w.session, w.clock, w.history, w.issues)
    && (forall id :: id in w.issues ==> id < w.nextId && IssueOk(w.history, w.issues[id]))
    && (forall t :: t in w.inspections ==> InspectionOk(w.history, w.inspections[t]))
  }

  // ---------------------------------------------------------------- every step keeps the invariant

  /** Reads may drop snapshots and refresh access times, but change nothing else. */
  ghost predicate OnlyReads(v: Session, v': Session, now: int)
  {
    && v'.generation == v.generation && v'.epochs == v.epochs
    && forall s' :: s' in v'.store ==>
                      exists s :: s in v.store && (s' == s || s' == s.(lastAccessedAt := Some(now)))
  }

  lemma ReadsKeepSession(session: Session, session': Session, clock: int, now: int, h: seq<Event>,
                         issues: map<nat, Issue>)
    requires SessionOk(session, clock, h, issues) && clock <= now
    requires Valid(session') && OnlyReads(session, session', now)
    ensures SessionOk(session', now, h, issues)
  {
    forall s' | s' in session'.store
      ensures s'.id in issues && SnapOk(h, issues[s'.id], s') && AccessTime(s') <= now
    {
      var s :| s in session.store && (s' == s || s' == s.(lastAccessedAt := Some(now)));
    }
  }

  lemma PruneOnlyReads(v: Session, pruneNow: int, now: int)
    requires Valid(v)
    ensures Valid(Prune(v, pruneNow)) && OnlyReads(v, Prune(v, pruneNow), now)
  {
    PruneKeepsValid(v, pruneNow);
  }

  lemma TouchOnlyReads(v: Session, v1: Session, i: nat, now: int)
    requires Valid(v1) && OnlyReads(v, v1, now) && i < |v1.store|
    ensures var v2 := v1.(store := Touch(v1.store, i, now)); Valid(v2) && OnlyReads(v, v2, now)
  {
    TouchKeepsValid(v1, i, now);
    var t := Touch(v1.store, i, now);
    forall s' | s' in t
      ensures exists s :: s in v.store && (s' == s || s' == s.(lastAccessedAt := Some(now)))
    {
      var j :| 0 <= j < |t| && t[j] == s';
      assert v1.store[j] in v1.store;
      var s :| s in v.store && (v1.store[j] == s || v1.store[j] == s.(lastAccessedAt := Some(now)));
    }
  }

  lemma GetOnlyReads(v: Session, id: nat, pruneNow: int, now: int)
    requires Valid(v)
    ensures Valid(Get(v, id, pruneNow, now).0) && OnlyReads(v, Get(v, id, pruneNow, now).0, now)
    ensures var (v', found) := Get(v, id, pruneNow, now);
            found.Some? ==> found.value < |v'.store| && !v'.store[found.value].invalidated
  {
    PruneOnlyReads(v, pruneNow, now);
    var p := Prune(v, pruneNow);
    if Continuable(p, id).Some? {
      TouchOnlyReads(v, p, Continuable(p, id).value, now);
    }
  }

  lemma ResolveOnlyReads(v: Session, ref: string, pruneNow: int, now: int)
    requires Valid(v)
    ensures Valid(Resolve(v, ref, pruneNow, now).0) && OnlyReads(v, Resolve(v, ref, pruneNow, now).0, now)
  {
    PruneOnlyReads(v, pruneNow, now);
    var p := Prune(v, pruneNow);
    var owner := Owner(p.store, p.generation, ref);
    if owner.Some? {
      TouchOnlyReads(v, p, owner.value, now);
    }
  }

  lemma GetKeepsSession(w: World, id: nat, now: int)
    requires Inv(w)
    ensures Inv(Looked(w, id, now).0)
    ensures var (w1, found) := Looked(w, id, now);
            found.Some? ==> found.value < |w1.session.store| && !w1.session.store[found.value].invalidated
  {
    var later := Later(w, now);
    GetOnlyReads(w.session, id, w.clock, later);
    var (w1, _) := Looked(w, id, now);
    ReadsKeepSession(w.session, w1.session, w.clock, later, w.history, w.issues);
  }

  lemma ResolveKeepsSession(w: World, ref: string, now: int)
    requires Inv(w)
    ensures Inv(Apply(w, ResolveRef(ref, now)))
  {
    var later := Later(w, now);
    ResolveOnlyReads(w.session, ref, w.clock, later);
    var session := Resolve(w.session, ref, w.clock, later).0;
    ReadsKeepSession(w.session, session, w.clock, later, w.history, w.issues);
  }

  /** Replacing one snapshot by a version that still agrees with its (updated) issue record. */
  lemma ReplaceKeepsStore(session: Session, clock: int, h: seq<Event>, issues: map<nat, Issue>, i: nat, s': Snap,
                          iss': Issue)
    requires SessionOk(session, clock, h, issues) && i < |session.store| && SnapOk(h, iss', s')
    requires var s := session.store[i];
             s'.id == s.id && s'.generation == s.generation && AccessTime(s') == AccessTime(s)
    ensures SessionOk(session.(store := session.store[i := s']), clock, h, issues[s'.id := iss'])
  {
    var store, store', issues' := session.store, session.store[i := s'], issues[s'.id := iss'];
    RewriteKeepsValid(session, session.(store := store'));
    assert store[i] in store;
    forall t | t in store'
      ensures t.id in issues' && SnapOk(h, issues'[t.id], t) && AccessTime(t) <= clock
    {
      var j :| 0 <= j < |store'| && store'[j] == t;
      if j != i {
        assert store[j] in store && store[j].id != store[i].id;
      }
    }
  }

  lemma ReplaceKeepsSession(w: World, i: nat, s': Snap, iss': Issue)
    requires Inv(w) && i < |w.session.store|
    requires var s := w.session.store[i];
             s'.id == s.id && s'.generation == s.generation && s'.lastAccessedAt == s.lastAccessedAt &&
             s'.createdAt == s.createdAt
    requires SnapOk(w.history, iss', s') && IssueOk(w.history, iss')
    ensures Inv(w.(session := w.session.(store := w.session.store[i := s']), issues := w.issues[s'.id := iss']))
  {
    assert w.session.store[i] in w.session.store;
    ReplaceKeepsStore(w.session, w.clock, w.history, w.issues, i, s', iss');
  }

  lemma PrefixGrows(frozen: seq<Element>, a: nat, b: nat)
    requires a <= b <= |frozen|
    ensures frozen[..a] + frozen[a..b] == frozen[..b]
  {
  }

  lemma ServeListKeeps(w: World, i: nat, r: Paging.Request)
    requires Inv(w) && i < |w.session.store| && !w.session.store[i].invalidated
    ensures Inv(ServeList(w, i, r))
  {
    var s := w.session.store[i];
    assert s in w.session.store;
    var iss := w.issues[s.id];
    var mode := Paging.InspectMode(s.layout);
    Paging.ServeLaw(mode, s.cursor, r);
    var (c, reply) := Paging.Serve(mode, s.cursor, r);
    if reply.Served? {
      PrefixGrows(iss.frozen, Paging.Covered(s.cursor), Paging.Covered(c));
      ReplaceKeepsSession(w, i, s.(cursor := c), iss.(delivered := iss.delivered + reply.elements));
    }
  }

  lemma ServeTargetsKeeps(w: World, i: nat, r: Paging.Request)
    requires Inv(w) && i < |w.session.store|
    requires var s := w.session.store[i];
             s.editable.Some? && s.id in w.issues ==>
               s.editable.value.elements == w.issues[s.id].targets && Paging.Wellformed(s.editable.value)
    ensures Inv(ServeTargets(w, i, r))
  {
    var s := w.session.store[i];
    assert s in w.session.store;
    if s.editable.Some? {
      var iss := w.issues[s.id];
      Paging.ServeLaw(Paging.EditableMode, s.editable.value, r);
      var (c, reply) := Paging.Serve(Paging.EditableMode, s.editable.value, r);
      if reply.Served? {
        PrefixGrows(iss.targets, Paging.Covered(s.editable.value), Paging.Covered(c));
        ReplaceKeepsSession(w, i, s.(editable := Some(c)),
                            iss.(deliveredTargets := iss.deliveredTargets + reply.elements));
      }
    }
  }

  lemma AttachTargetsKeeps(w: World, i: nat, limit: int)
    requires Inv(w) && i < |w.session.store|
    ensures Inv(AttachTargets(w, i, limit))
  {
    var s := w.session.store[i];
    assert s in w.session.store;
    var iss := w.issues[s.id];
    var targets := Editables(s.cursor.elements);
    var s' := s.(editable := Some(Cursor(targets, Some(0))));
    var iss' := iss.(targets := targets, deliveredTargets := []);
    ReplaceKeepsSession(w, i, s', iss');
    var attached := w.(session := w.session.(store := w.session.store[i := s']), issues := w.issues[s.id := iss']);
    assert attached.session.store[i] == s';
    ServeTargetsKeeps(attached, i, Paging.Request(0, limit, 0));
  }

  /** A scan that is published hands out refs exactly for the nodes no event has touched since it began. */
  lemma PublishedNodes(w: World, task: nat)
    requires Inv(w) && task in w.inspections && w.inspections[task].phase.Updating?
    requires w.inspections[task].generation == w.session.generation
    ensures var ins := w.inspections[task];
            CurrentNodes(ins.phase.kept, ins.baseline, w.session.epochs) ==
            Live(ins.phase.scanned, w.history, ins.mark)
    ensures NoMainSince(w.history, w.inspections[task].mark)
  {
    var ins := w.inspections[task];
    MainsMonotone(w.history, ins.mark);
    CurrentNodesAreLive(ins.phase.kept, w.history, ins.mark, ins.baseline, w.session.epochs);
    LiveAgain(ins.phase.scanned, w.history, ins.mark, ins.phase.filteredAt);
  }

  lemma FreshId(w: World)
    requires Inv(w)
    ensures !Has(w.session.store, w.nextId)
  {
    forall i | 0 <= i < |w.session.store|
      ensures w.session.store[i].id != w.nextId
    {
      assert w.session.store[i] in w.session.store;
    }
  }

  lemma StoreKeepsSession(w: World, snap: Snap, iss: Issue, now: int)
    requires Inv(w) && w.clock <= now
    requires snap.id == w.nextId && SnapOk(w.history, iss, snap)
    ensures SessionOk(Store(w.session, snap, w.clock, now), now, w.history, w.issues[snap.id := iss])
    ensures forall s :: s in Store(w.session, snap, w.clock, now).store && s.id == snap.id ==>
                          s == snap.(lastAccessedAt := Some(now))
  {
    FreshId(w);
    StoreKeepsValid(w.session, snap, w.clock, now);
    StoredIsOk(w, Store(w.session, snap, w.clock, now), snap, iss, now);
  }

  lemma StoredIsOk(w: World, v: Session, snap: Snap, iss: Issue, now: int)
    requires Inv(w) && w.clock <= now && Valid(v)
    requires snap.id == w.nextId && SnapOk(w.history, iss, snap)
    requires v.generation == w.session.generation && v.epochs == w.session.epochs
    requires forall s :: s in v.store ==> s == snap.(lastAccessedAt := Some(now)) || s in w.session.store
    ensures SessionOk(v, now, w.history, w.issues[snap.id := iss])
    ensures forall s :: s in v.store && s.id == snap.id ==> s == snap.(lastAccessedAt := Some(now))
  {
    var stamped := snap.(lastAccessedAt := Some(now));
    assert SnapOk(w.history, iss, stamped);
    forall s | s in v.store && s != stamped
      ensures s.id != snap.id && s.id in w.issues && SnapOk(w.history, w.issues[s.id], s) && AccessTime(s) <= now
    {
      assert s in w.session.store;
    }
  }

  /** The record and the snapshot made by a publication agree. */
  lemma PublishedAgree(h: seq<Event>, ins: Inspection, nodes: seq<Node>, refs: seq<string>, snap: Snap, iss: Issue)
    requires InspectionOk(h, ins) && ins.phase.Updating? && ins.generation == Mains(h)
    requires nodes == Live(ins.phase.scanned, h, ins.mark) && |refs| == |nodes|
    requires iss == Issue(ins.mark, |h|, ins.phase.scanned, Records(nodes, refs), [], [], [])
    requires snap.generation == ins.generation && snap.cursor == Cursor(iss.frozen, Some(0))
    requires snap.editable.None? && !snap.invalidated
    ensures SnapOk(h, iss, snap) && IssueOk(h, iss)
  {
    LiveIsUntouched(ins.phase.scanned, h, ins.mark);
    forall i | 0 <= i < |iss.frozen|
      ensures Untouched(h, ins.mark, iss.frozen[i].node)
    {
      assert iss.frozen[i].node == nodes[i] && nodes[i] in nodes;
    }
    AllLive(iss.frozen, h, ins.mark);
    assert h[..|h|] == h;
    assert NodesOf(iss.frozen) == nodes;
  }

  lemma StoredKeeps(w: World, snap: Snap, iss: Issue, now: int, task: nat)
    requires Inv(w) && w.clock <= now
    requires snap.id == w.nextId && SnapOk(w.history, iss, snap) && IssueOk(w.history, iss)
    ensures Inv(Stored(w, task, snap, iss, now))
    ensures forall s :: s in Stored(w, task, snap, iss, now).session.store && s.id == snap.id ==>
                          s.invalidated == snap.invalidated
  {
    StoreKeepsSession(w, snap, iss, now);
  }

  lemma ServeByIdKeeps(w: World, id: nat, r: Paging.Request)
    requires Inv(w)
    requires forall s :: s in w.session.store && s.id == id ==> !s.invalidated
    ensures Inv(ServeById(w, id, r))
  {
    var found := IndexOfId(w.session.store, id);
    if found.Some? {
      assert w.session.store[found.value] in w.session.store;
      ServeListKeeps(w, found.value, r);
    }
  }

  lemma PublishKeeps(w: World, step: Step)
    requires Inv(w) && step.UpdateDone? && step.task in w.inspections && w.inspections[step.task].phase.Updating?
    requires w.inspections[step.task].generation == w.session.generation
    ensures Inv(Publish(w, step))
  {
    var ins := w.inspections[step.task];
    var nodes := CurrentNodes(ins.phase.kept, ins.baseline, w.session.epochs);
    if |step.refs| == |nodes| {
      PublishedNodes(w, step.task);
      var now := Later(w, step.now);
      var frozen := Records(nodes, step.refs);
      var snap := Snap(w.nextId, ins.generation, now, None, ins.kind, Cursor(frozen, Some(0)), None, false,
                       step.layout);
      var iss := Issue(ins.mark, |w.history|, ins.phase.scanned, frozen, [], [], []);
      PublishedAgree(w.history, ins, nodes, step.refs, snap, iss);
      StoredKeeps(w, snap, iss, now, step.task);
      ServeByIdKeeps(Stored(w, step.task, snap, iss, now), snap.id, Paging.Request(0, step.limit, step.treeBytes));
    }
  }

  lemma ExtendHistory(h: seq<Event>, e: Event, k: nat)
    requires k <= |h|
    ensures (h + [e])[..k] == h[..k] && (h + [e])[..|h|] == h
  {
  }

  lemma NavigateKeeps(w: World)
    requires Inv(w)
    ensures Inv(MainReplaced(w))
  {
    ExtendHistory(w.history, MainInvalidated, |w.history|);
    HistoryGrows(w, MainInvalidated);
  }

  /** Records of the past only mention prefixes of the history. */
  lemma HistoryGrows(w: World, e: Event)
    requires Inv(w)
    ensures forall id :: id in w.issues ==> IssueOk(w.history + [e], w.issues[id])
    ensures forall t :: t in w.inspections ==> InspectionOk(w.history + [e], w.inspections[t])
  {
    forall id | id in w.issues
      ensures IssueOk(w.history + [e], w.issues[id])
    {
      ExtendHistory(w.history, e, w.issues[id].issuedAt);
    }
    forall t | t in w.inspections
      ensures InspectionOk(w.history + [e], w.inspections[t])
    {
      var ins := w.inspections[t];
      ExtendHistory(w.history, e, ins.mark);
      if ins.phase.Updating? {
        ExtendHistory(w.history, e, ins.phase.filteredAt);
      }
    }
  }

  lemma StripKeepsSnap(h: seq<Event>, iss: Issue, s: Snap, identity: Identity)
    requires SnapOk(h, iss, s)
    ensures SnapOk(h + [FrameInvalidated(identity)], iss, StripSnap(s, identity))
  {
    var e := FrameInvalidated(identity);
    ExtendHistory(h, e, iss.mark);
    StripIsLive(iss.frozen, h, iss.mark, identity);
  }

  lemma NoKeysNoMatch(n: Node, identity: Identity)
    requires KeysOf(identity.frameId, identity.sessionId) == {}
    ensures !Matches(n, identity)
  {
    MatchesIsSharedKey(n, identity);
  }

  lemma {:induction false} NoKeysNoStrip(es: seq<Element>, identity: Identity)
    requires KeysOf(identity.frameId, identity.sessionId) == {}
    ensures Strip(es, identity) == es
  {
    if es != [] {
      NoKeysNoStrip(es[..|es| - 1], identity);
      NoKeysNoMatch(es[|es| - 1].node, identity);
      assert es == es[..|es| - 1] + [es[|es| - 1]];
    }
  }

  /** Also for an identity without keys, the store after a frame event is the stripped store. */
  lemma FrameStore(v: Session, identity: Identity)
    ensures var v' := InvalidateFrame(v, identity);
            && |v'.store| == |v.store| && v'.generation == v.generation && v'.latest == v.latest
            && (forall i :: 0 <= i < |v.store| ==> v'.store[i] == StripSnap(v.store[i], identity))
            && forall k :: Epoch(v'.epochs, k) ==
                           Epoch(v.epochs, k) + if k in KeysOf(identity.frameId, identity.sessionId) then 1 else 0
  {
    if KeysOf(identity.frameId, identity.sessionId) == {} {
      forall i | 0 <= i < |v.store|
        ensures StripSnap(v.store[i], identity) == v.store[i]
      {
        NoKeysNoStrip(v.store[i].cursor.elements, identity);
      }
    }
  }

  lemma FrameEventCounts(v: Session, h: seq<Event>, identity: Identity)
    requires v.generation == Mains(h) && EpochsAgree(v.epochs, h)
    ensures var h', v' := h + [FrameInvalidated(identity)], InvalidateFrame(v, identity);
            v'.generation == Mains(h') && EpochsAgree(v'.epochs, h')
  {
    FrameStore(v, identity);
    ExtendHistory(h, FrameInvalidated(identity), |h|);
  }

  lemma FrameEventSnaps(w: World, identity: Identity)
    requires Inv(w)
    ensures forall t :: t in InvalidateFrame(w.session, identity).store ==>
                          && t.id in w.issues
                          && SnapOk(w.history + [FrameInvalidated(identity)], w.issues[t.id], t)
                          && AccessTime(t) <= w.clock
  {
    var v' := InvalidateFrame(w.session, identity);
    FrameStore(w.session, identity);
    forall t | t in v'.store
      ensures t.id in w.issues && SnapOk(w.history + [FrameInvalidated(identity)], w.issues[t.id], t)
      ensures AccessTime(t) <= w.clock
    {
      var j :| 0 <= j < |v'.store| && v'.store[j] == t;
      var s := w.session.store[j];
      assert s in w.session.store;
      StripKeepsSnap(w.history, w.issues[s.id], s, identity);
    }
  }

  lemma FrameEventKeepsValid(v: Session, identity: Identity)
    requires Valid(v)
    ensures Valid(InvalidateFrame(v, identity))
  {
    FrameStore(v, identity);
    RewriteKeepsValid(v, InvalidateFrame(v, identity));
  }

  lemma FrameEventKeeps(w: World, identity: Identity)
    requires Inv(w)
    ensures Inv(ChildReplaced(w, identity))
  {
    HistoryGrows(w, FrameInvalidated(identity));
    FrameEventCounts(w.session, w.history, identity);
    FrameEventSnaps(w, identity);
    FrameEventKeepsValid(w.session, identity);
  }

  lemma MutateKeeps(w: World)
    requires Inv(w)
    ensures Inv(Apply(w, Mutate))
  {
    var v' := InvalidateObservations(w.session);
    RewriteKeepsValid(w.session, v');
    forall t | t in v'.store
      ensures t.id in w.issues && SnapOk(w.history, w.issues[t.id], t) && AccessTime(t) <= w.clock
    {
      var j :| 0 <= j < |v'.store| && v'.store[j] == t;
      assert w.session.store[j] in w.session.store;
    }
  }

  lemma ScanDoneKeeps(w: World, task: nat, scanned: seq<Node>)
    requires Inv(w)
    ensures Inv(Apply(w, ScanDone(task, scanned)))
  {
    if task in w.inspections && w.inspections[task].phase.Scanning?
       && w.inspections[task].generation == w.session.generation {
      var ins := w.inspections[task];
      MainsMonotone(w.history, ins.mark);
      CurrentNodesAreLive(scanned, w.history, ins.mark, ins.baseline, w.session.epochs);
      assert w.history[..|w.history|] == w.history;
    }
  }

  lemma ContinueKeeps(w: World, id: nat, request: Paging.Request, now: int)
    requires Inv(w)
    ensures Inv(Apply(w, Continue(id, request, now)))
  {
    GetKeepsSession(w, id, now);
    var (w1, found) := Looked(w, id, now);
    if found.Some? && w1.session.store[found.value].kind == Inspect {
      ServeListKeeps(w1, found.value, request);
    }
  }

  lemma ContinueEditableKeeps(w: World, id: nat, request: Paging.Request, now: int)
    requires Inv(w)
    ensures Inv(Apply(w, ContinueEditable(id, request, now)))
  {
    GetKeepsSession(w, id, now);
    var (w1, found) := Looked(w, id, now);
    if found.Some? && w1.session.store[found.value].kind == QueryEditable {
      assert w1.session.store[found.value] in w1.session.store;
      ServeTargetsKeeps(w1, found.value, request);
    }
  }

  lemma BeginKeeps(w: World, task: nat, kind: Kind)
    requires Inv(w)
    ensures Inv(Apply(w, BeginInspect(task, kind)))
  {
    assert w.history[..|w.history|] == w.history;
  }

  lemma StepKeeps(w: World, step: Step)
    requires Inv(w)
    ensures Inv(Apply(w, step))
  {
    match step
    case Tick(_) =>
    case BeginInspect(task, kind) => BeginKeeps(w, task, kind);
    case SummaryRead(_) =>
    case ScanDone(task, scanned) => ScanDoneKeeps(w, task, scanned);
    case UpdateDone(task, _, _, _, _, _) =>
      if task in w.inspections && w.inspections[task].phase.Updating?
         && w.inspections[task].generation == w.session.generation {
        PublishKeeps(w, step);
      }
    case InspectFails(_) =>
    case Navigate => NavigateKeeps(w);
    case FrameEvent(identity) => FrameEventKeeps(w, identity);
    case Transport(event, env) =>
      match Nav.EffectOf(event, env) {
        case Ignored =>
        case ReplacesMain => NavigateKeeps(w);
        case ReplacesChild(identity) => FrameEventKeeps(w, identity);
      }
    case Mutate => MutateKeeps(w);
    case ResolveRef(ref, now) => ResolveKeepsSession(w, ref, now);
    case Continue(id, request, now) => ContinueKeeps(w, id, request, now);
    case StartEditable(limit) =>
      if w.session.latest.Some? {
        var found := IndexOfId(w.session.store, w.session.latest.value);
        if found.Some? {
          AttachTargetsKeeps(w, found.value, limit);
        }
      }
    case ContinueEditable(id, request, now) => ContinueEditableKeeps(w, id, request, now);
  }

  lemma {:induction false} RunKeeps(steps: seq<Step>)
    ensures Inv(Run(INITIAL, steps))
    decreases |steps|
  {
    if steps != [] {
      RunKeeps(steps[..|steps| - 1]);
      StepKeeps(Run(INITIAL, steps[..|steps| - 1]), steps[|steps| - 1]);
    }
  }

  // ---------------------------------------------------------------- main results

  /** What a successful resolution says about the history. */
  ghost predicate Vouched(w: World, ref: string, found: Option<(nat, Element)>)
  {
    match found
    case None => true
    case Some((id, e)) =>
      && e.ref == ref
      && id in w.issues && e in w.issues[id].frozen
      && NoMainSince(w.history, w.issues[id].mark)
      && Untouched(w.history, w.issues[id].mark, e.node)
  }

  lemma ResolvedIsVouched(w: World, ref: string, pruneNow: int, now: int)
    requires Inv(w)
    ensures Vouched(w, ref, Resolve(w.session, ref, pruneNow, now).1)
  {
    var p := Prune(w.session, pruneNow);
    PruneKeepsValid(w.session, pruneNow);
    var owner := Owner(p.store, p.generation, ref);
    if owner.Some? {
      var s := p.store[owner.value];
      assert s in p.store && s in w.session.store;
      MainsMonotone(w.history, w.issues[s.id].mark);
      var es := s.cursor.elements;
      assert es[FindRef(es, ref).value] in es;
    }
  }

  /**
   A ref that resolves, in any reachable state and at any time, was handed out by a scan since
   whose start the main document has not been invalidated and the element's own document has
   not been named by any frame event, by frame id or by command session.
   */
  lemma RefsAreCurrent(steps: seq<Step>, ref: string, pruneNow: int, now: int)
    ensures var w := Run(INITIAL, steps); Vouched(w, ref, Resolve(w.session, ref, pruneNow, now).1)
  {
    RunKeeps(steps);
    ResolvedIsVouched(Run(INITIAL, steps), ref, pruneNow, now);
  }

  /** An element vouched for after an event was not revoked by it. */
  lemma VouchedSurvives(before: World, w: World, e: Event, ref: string, found: Option<(nat, Element)>)
    requires Inv(before) && w.issues == before.issues && w.history == before.history + [e]
    requires Vouched(w, ref, found) && found.Some?
    ensures e.FrameInvalidated? && !Matches(found.value.1.node, e.identity)
  {
    var id := found.value.0;
    assert IssueOk(before.history, before.issues[id]);
    assert w.history[|before.history|] == e;
  }

  lemma NotRevoked(before: World, event: Nav.TransportEvent, env: Nav.Env, ref: string, found: Option<(nat, Element)>)
    requires Inv(before)
    requires Vouched(Apply(before, Transport(event, env)), ref, found)
    ensures found.Some? ==> !Nav.Revokes(Nav.EffectOf(event, env), found.value.1.node)
  {
    if found.Some? {
      var w := Apply(before, Transport(event, env));
      match Nav.EffectOf(event, env) {
        case Ignored =>
        case ReplacesMain => VouchedSurvives(before, w, MainInvalidated, ref, found);
        case ReplacesChild(identity) => VouchedSurvives(before, w, FrameInvalidated(identity), ref, found);
      }
    }
  }

  /**
   Right after a protocol event, no ref to an element the event revokes resolves any more,
   whatever happened before.
   */
  lemma EventsRevokeRefs(steps: seq<Step>, event: Nav.TransportEvent, env: Nav.Env, ref: string, pruneNow: int,
                         now: int)
    ensures var w := Apply(Run(INITIAL, steps), Transport(event, env));
            match Resolve(w.session, ref, pruneNow, now).1
            case None => true
            case Some((_, e)) => !Nav.Revokes(Nav.EffectOf(event, env), e.node)
  {
    RunKeeps(steps);
    var before := Run(INITIAL, steps);
    var w := Apply(before, Transport(event, env));
    StepKeeps(before, Transport(event, env));
    ResolvedIsVouched(w, ref, pruneNow, now);
    NotRevoked(before, event, env, ref, Resolve(w.session, ref, pruneNow, now).1);
  }

  /**
   Conversely a handed-out ref keeps resolving: if its snapshot is retained and has not
   expired, and no event since the scan began named the element's document, the ref resolves.
   */
  lemma CurrentRefsResolve(steps: seq<Step>, s: Snap, e: Element, pruneNow: int, now: int)
    requires var w := Run(INITIAL, steps);
             && s in w.session.store && AccessTime(s) >= pruneNow - TTL_MS
             && s.id in w.issues && e in w.issues[s.id].frozen
             && Untouched(w.history, w.issues[s.id].mark, e.node)
    ensures Resolve(Run(INITIAL, steps).session, e.ref, pruneNow, now).1.Some?
  {
    RunKeeps(steps);
    LiveRefResolves(Run(INITIAL, steps), s, e, pruneNow, now);
  }

  lemma LiveRefResolves(w: World, s: Snap, e: Element, pruneNow: int, now: int)
    requires Inv(w) && s in w.session.store && AccessTime(s) >= pruneNow - TTL_MS
    requires e in w.issues[s.id].frozen && Untouched(w.history, w.issues[s.id].mark, e.node)
    ensures Resolve(w.session, e.ref, pruneNow, now).1.Some?
  {
    assert e in s.cursor.elements;
    AliveOwnerResolves(w.session, s, e.ref, pruneNow, now);
  }

  /** What a retained snapshot can address is exactly its frozen list minus the touched documents. */
  lemma RetainedElementsExact(steps: seq<Step>, s: Snap)
    requires s in Run(INITIAL, steps).session.store
    ensures var w := Run(INITIAL, steps);
            && s.id in w.issues && w.issues[s.id].issuedAt <= |w.history|
            && s.cursor.elements == LiveElements(w.issues[s.id].frozen, w.history, w.issues[s.id].mark)
            && NodesOf(w.issues[s.id].frozen) ==
               Live(w.issues[s.id].scanned, w.history[..w.issues[s.id].issuedAt], w.issues[s.id].mark)
            && (!s.invalidated ==> s.cursor.elements == w.issues[s.id].frozen)
  {
    RunKeeps(steps);
  }

  /**
   Pages under every interleaving: what was delivered from a snapshot is always an initial part
   of its frozen list, and all of it once the continuation is finished; likewise the targets of
   its editable query.
   */
  lemma PagesAreFaithful(steps: seq<Step>, id: nat)
    requires id in Run(INITIAL, steps).issues
    ensures var w := Run(INITIAL, steps);
            var iss := w.issues[id];
            && iss.delivered <= iss.frozen && iss.deliveredTargets <= iss.targets
            && forall s :: s in w.session.store && s.id == id ==>
                             && (s.cursor.nextOffset.None? ==> iss.delivered == iss.frozen)
                             && (s.editable.Some? && s.editable.value.nextOffset.None? ==>
                                   iss.deliveredTargets == iss.targets)
                             && (s.editable.Some? && !s.invalidated ==> iss.targets == Editables(iss.frozen))
  {
    RunKeeps(steps);
    var w := Run(INITIAL, steps);
    var iss := w.issues[id];
    assert iss.frozen[..|iss.frozen|] == iss.frozen && iss.targets[..|iss.targets|] == iss.targets;
  }

  /** The store stays bounded and of one generation, and a fresh snapshot becomes the latest. */
  lemma StoreInvariant(steps: seq<Step>, snap: Snap, now: int)
    requires var w := Run(INITIAL, steps); snap.id == w.nextId && w.clock <= now
    ensures var w := Run(INITIAL, steps);
            && |w.session.store| <= MAX_RETAINED
            && (forall s :: s in w.session.store ==> s.generation == w.session.generation)
            && (w.session.latest.Some? ==> Has(w.session.store, w.session.latest.value))
            && Store(w.session, snap, w.clock, now).latest == Some(snap.id)
  {
    RunKeeps(steps);
    var w := Run(INITIAL, steps);
    FreshId(w);
    StoreRetainsLatest(w.session, snap, w.clock, now);
  }
}

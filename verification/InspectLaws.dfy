/**
 What the inspection protocol does for its client: an undisturbed scan is published whole, a
 continuation delivers exactly under conditions the client can see, and after a mutation of the
 page nothing more is delivered from what was scanned before.
 */
module InspectLaws {
  import opened InspectProtocol
  import opened Listing
  import opened SnapshotModel
  import opened SnapshotStore
  import Nav = NavigationEvents
  import Paging
  import StoreLaws
  import opened Wrappers

  // ---------------------------------------------------------------- an undisturbed scan

  lemma {:induction false} NothingHappened(ns: seq<Node>, h: seq<Event>)
    ensures Live(ns, h, |h|) == ns
  {
    if ns != [] {
      NothingHappened(ns[..|ns| - 1], h);
      assert ns == ns[..|ns| - 1] + [ns[|ns| - 1]];
    }
  }

  /** The world in which the task has scanned the page with nothing in between. */
  function Scanned(w: World, task: nat, kind: Kind, scanned: seq<Node>): World
  {
    Apply(Apply(Apply(w, BeginInspect(task, kind)), SummaryRead(task)), ScanDone(task, scanned))
  }

  /** The inspection after its scan, when nothing has happened since it began. */
  function Whole(w: World, kind: Kind, phase: Phase): Inspection
  {
    Inspection(w.session.generation, w.session.epochs, |w.history|, kind, phase)
  }

  lemma BegunIs(w: World, task: nat, kind: Kind)
    requires task !in w.inspections
    ensures Apply(Apply(w, BeginInspect(task, kind)), SummaryRead(task)) ==
            w.(inspections := w.inspections[task := Whole(w, kind, Scanning)])
  {
    var w1 := Apply(w, BeginInspect(task, kind));
    assert w1 == w.(inspections := w.inspections[task := Whole(w, kind, ReadingSummary)]);
  }

  lemma AllCurrent(w: World, scanned: seq<Node>)
    requires Inv(w)
    ensures CurrentNodes(scanned, w.session.epochs, w.session.epochs) == scanned
  {
    assert w.history[..|w.history|] == w.history;
    CurrentNodesAreLive(scanned, w.history, |w.history|, w.session.epochs, w.session.epochs);
    NothingHappened(scanned, w.history);
  }

  lemma ScannedIsKept(w: World, task: nat, kind: Kind, scanned: seq<Node>)
    requires Inv(w) && task !in w.inspections
    ensures var w' := Scanned(w, task, kind, scanned);
            && task in w'.inspections
            && w' == w.(inspections := w.inspections[task :=
                          Whole(w, kind, Updating(scanned, scanned, |w.history|))])
  {
    BegunIs(w, task, kind);
    AllCurrent(w, scanned);
  }

  lemma ScannedKeeps(w: World, task: nat, kind: Kind, scanned: seq<Node>)
    requires Inv(w)
    ensures Inv(Scanned(w, task, kind, scanned))
  {
    StepKeeps(w, BeginInspect(task, kind));
    var w1 := Apply(w, BeginInspect(task, kind));
    StepKeeps(w1, SummaryRead(task));
    StepKeeps(Apply(w1, SummaryRead(task)), ScanDone(task, scanned));
  }

  /** The snapshot as it is stored, before its first page is served. */
  ghost predicate IsStored(w: World, id: nat, now: int, scanned: seq<Node>, refs: seq<string>)
    requires |refs| == |scanned|
  {
    && Has(w.session.store, id)
    && (forall s :: s in w.session.store && s.id == id ==> s.lastAccessedAt == Some(now))
    && id in w.issues && w.issues[id].frozen == Records(scanned, refs) && w.issues[id].mark == |w.history|
  }

  lemma StoredIsThere(w: World, task: nat, snap: Snap, iss: Issue, now: int, scanned: seq<Node>, refs: seq<string>)
    requires Inv(w) && w.clock <= now && |refs| == |scanned|
    requires snap.id == w.nextId && SnapOk(w.history, iss, snap)
    requires iss.frozen == Records(scanned, refs) && iss.mark == |w.history|
    ensures IsStored(Stored(w, task, snap, iss, now), snap.id, now, scanned, refs)
  {
    FreshId(w);
    StoreKeepsSession(w, snap, iss, now);
    StoreRetainsLatest(w.session, snap, w.clock, now);
    var store := Store(w.session, snap, w.clock, now).store;
    var i :| 0 <= i < |store| && store[i] == snap.(lastAccessedAt := Some(now));
    assert store[i].id == snap.id;
  }

  lemma ServingKeepsStored(w: World, id: nat, r: Paging.Request, now: int, scanned: seq<Node>, refs: seq<string>)
    requires |refs| == |scanned| && IsStored(w, id, now, scanned, refs)
    ensures IsStored(ServeById(w, id, r), id, now, scanned, refs)
  {
    var w' := ServeById(w, id, r);
    var found := IndexOfId(w.session.store, id);
    var i := found.value;
    assert |w'.session.store| == |w.session.store|;
    forall j | 0 <= j < |w.session.store|
      ensures w'.session.store[j].id == w.session.store[j].id
      ensures w'.session.store[j].lastAccessedAt == w.session.store[j].lastAccessedAt
    {
    }
    assert w'.session.store[i].id == id;
    forall s | s in w'.session.store && s.id == id
      ensures s.lastAccessedAt == Some(now)
    {
      var j :| 0 <= j < |w'.session.store| && w'.session.store[j] == s;
      assert w.session.store[j] in w.session.store;
    }
  }

  lemma PublishesAll(w: World, step: Step, scanned: seq<Node>)
    requires Inv(w) && step.UpdateDone? && step.task in w.inspections && |step.refs| == |scanned|
    requires var ins := w.inspections[step.task];
             && ins.generation == w.session.generation && ins.mark == |w.history|
             && ins.phase == Updating(scanned, scanned, |w.history|)
    ensures IsStored(Publish(w, step), w.nextId, Later(w, step.now), scanned, step.refs)
    ensures Publish(w, step).history == w.history
  {
    var ins := w.inspections[step.task];
    var now := Later(w, step.now);
    PublishedNodes(w, step.task);
    NothingHappened(scanned, w.history);
    var frozen := Records(scanned, step.refs);
    var snap := Snap(w.nextId, ins.generation, now, None, ins.kind, Cursor(frozen, Some(0)), None, false, step.layout);
    var iss := Issue(ins.mark, |w.history|, scanned, frozen, [], [], []);
    PublishedAgree(w.history, ins, scanned, step.refs, snap, iss);
    StoredIsThere(w, step.task, snap, iss, now, scanned, step.refs);
    ServingKeepsStored(Stored(w, step.task, snap, iss, now), snap.id, Paging.Request(0, step.limit, step.treeBytes),
                       now, scanned, step.refs);
  }

  /**
   In every reachable state an inspection that nothing disturbs hands out a ref for every scanned node,
   in order, and each of them resolves for the next five minutes.
   */
  lemma UndisturbedScansArePublished(steps: seq<Step>, task: nat, kind: Kind, scanned: seq<Node>, done: Step,
                                     pruneNow: int, now: int)
    requires task !in Run(INITIAL, steps).inspections
    requires done.UpdateDone? && done.task == task && |done.refs| == |scanned|
    requires pruneNow <= Later(Run(INITIAL, steps), done.now) + 300_000
    ensures var w := Run(INITIAL, steps);
            var w' := Apply(Scanned(w, task, kind, scanned), done);
            && w.nextId in w'.issues && w'.issues[w.nextId].frozen == Records(scanned, done.refs)
            && forall i :: 0 <= i < |scanned| ==> Resolve(w'.session, done.refs[i], pruneNow, now).1.Some?
  {
    var w := Run(INITIAL, steps);
    RunKeeps(steps);
    ScannedIsKept(w, task, kind, scanned);
    ScannedKeeps(w, task, kind, scanned);
    PublishedResolve(w, Scanned(w, task, kind, scanned), scanned, done, pruneNow, now);
  }

  lemma PublishedResolve(w: World, s: World, scanned: seq<Node>, done: Step, pruneNow: int, now: int)
    requires Inv(s) && s.session == w.session && s.clock == w.clock && s.history == w.history && s.nextId == w.nextId
    requires done.UpdateDone? && done.task in s.inspections && |done.refs| == |scanned|
    requires var ins := s.inspections[done.task];
             && ins.generation == w.session.generation && ins.mark == |w.history|
             && ins.phase == Updating(scanned, scanned, |w.history|)
    requires pruneNow <= Later(w, done.now) + 300_000
    ensures var w' := Apply(s, done);
            && w.nextId in w'.issues && w'.issues[w.nextId].frozen == Records(scanned, done.refs)
            && forall i :: 0 <= i < |scanned| ==> Resolve(w'.session, done.refs[i], pruneNow, now).1.Some?
  {
    var w' := Apply(s, done);
    assert w' == Publish(s, done);
    PublishesAll(s, done, scanned);
    StepKeeps(s, done);
    var id := w.nextId;
    var k :| 0 <= k < |w'.session.store| && w'.session.store[k].id == id;
    var snap := w'.session.store[k];
    assert snap in w'.session.store;
    forall i | 0 <= i < |scanned|
      ensures Resolve(w'.session, done.refs[i], pruneNow, now).1.Some?
    {
      var e := w'.issues[id].frozen[i];
      assert e == Element(done.refs[i], scanned[i]) && e in w'.issues[id].frozen;
      LiveRefResolves(w', snap, e, pruneNow, now);
    }
  }

  // ---------------------------------------------------------------- continuations

  /** The snapshot can still be continued at the offset asked for. */
  ghost predicate MayContinue(w: World, s: Snap, r: Paging.Request)
  {
    && AccessTime(s) >= w.clock - 300_000 && !s.invalidated && s.kind == Inspect
    && s.cursor.nextOffset == Some(r.offset)
  }

  /** Looking a snapshot up finds it exactly while it has not expired and nothing has invalidated it. */
  lemma LookupFinds(v: Session, s: Snap, clock: int, now: int)
    requires Valid(v) && s in v.store && s.generation == v.generation
    ensures var (v', found) := Get(v, s.id, clock, now);
            && (found.Some? <==> AccessTime(s) >= clock - 300_000 && !s.invalidated)
            && (found.Some? ==>
                  && found.value < |v'.store| && v'.store[found.value] == s.(lastAccessedAt := Some(now)))
  {
    var p := Prune(v, clock);
    PruneKeepsValid(v, clock);
    var found := IndexOfId(p.store, s.id);
    if found.Some? {
      assert p.store[found.value] in p.store;
      SameIdSameSnap(v.store, p.store[found.value], s);
    } else {
      assert s !in p.store;
    }
  }

  lemma SameIdSameSnap(store: seq<Snap>, s: Snap, t: Snap)
    requires DistinctIds(store) && s in store && t in store && s.id == t.id
    ensures s == t
  {
  }

  /**
   A continuation delivers the next elements of the frozen list exactly while its snapshot is retained,
   not expired, not invalidated, made by `inspect`, and asked from where the last page ended, unless the
   page is refused for its size; otherwise it delivers nothing.
   */
  lemma ContinueDelivers(steps: seq<Step>, s: Snap, r: Paging.Request, now: int)
    requires s in Run(INITIAL, steps).session.store
    ensures var w := Run(INITIAL, steps);
            var w' := Apply(w, Continue(s.id, r, now));
            && s.id in w.issues && s.id in w'.issues
            && var iss, delivered := w.issues[s.id], w'.issues[s.id].delivered;
               if MayContinue(w, s, r) && PageOf(s, r).Page? then
                 delivered == iss.delivered + PageOf(s, r).elements
               else delivered == iss.delivered
  {
    RunKeeps(steps);
    ContinueServes(Run(INITIAL, steps), s, r, now);
  }

  function PageOf(s: Snap, r: Paging.Request): Paging.PageOutcome
  {
    if r.offset > |s.cursor.elements| then Paging.TooLarge
    else Paging.Cut(Paging.InspectMode(s.layout), s.cursor.elements, r.offset, Paging.ClampLimit(r.limit), r.treeBytes)
  }

  lemma ContinueIs(w: World, id: nat, r: Paging.Request, now: int)
    ensures var (w1, found) := Looked(w, id, now);
            && w1.issues == w.issues && w1.session == Get(w.session, id, w.clock, After(w, now)).0
            && found == Get(w.session, id, w.clock, After(w, now)).1
            && Apply(w, Continue(id, r, now)) ==
               if found.None? || found.value >= |w1.session.store|
                  || w1.session.store[found.value].kind != Inspect then w1
               else ServeList(w1, found.value, r)
  {
  }

  lemma ContinueServes(w: World, s: Snap, r: Paging.Request, now: int)
    requires Inv(w) && s in w.session.store
    ensures var w' := Apply(w, Continue(s.id, r, now));
            && s.id in w.issues && s.id in w'.issues
            && w'.issues[s.id].delivered ==
               w.issues[s.id].delivered +
               if MayContinue(w, s, r) && PageOf(s, r).Page? then PageOf(s, r).elements else []
  {
    var later := After(w, now);
    LookupFinds(w.session, s, w.clock, later);
    ContinueIs(w, s.id, r, now);
    var none: seq<Element> := [];
    assert w.issues[s.id].delivered + none == w.issues[s.id].delivered;
    var (w1, found) := Looked(w, s.id, now);
    if found.Some? && s.kind == Inspect {
      GetKeepsSession(w, s.id, now);
      ServeDelivers(w1, found.value, r);
      SamePage(s, s.(lastAccessedAt := Some(later)), r);
    }
  }

  lemma SamePage(s: Snap, t: Snap, r: Paging.Request)
    requires t == s.(lastAccessedAt := t.lastAccessedAt)
    ensures PageOf(t, r) == PageOf(s, r)
  {
  }

  function After(w: World, now: int): int
  {
    InspectProtocol.Later(w, now)
  }

  lemma ServeDelivers(w: World, i: nat, r: Paging.Request)
    requires Inv(w) && i < |w.session.store| && !w.session.store[i].invalidated
    ensures var s, w' := w.session.store[i], ServeList(w, i, r);
            && s.id in w.issues && s.id in w'.issues
            && w'.issues[s.id].delivered ==
               w.issues[s.id].delivered +
               if s.cursor.nextOffset == Some(r.offset) && PageOf(s, r).Page? then PageOf(s, r).elements else []
  {
    var s := w.session.store[i];
    assert s in w.session.store;
    var none: seq<Element> := [];
    assert w.issues[s.id].delivered + none == w.issues[s.id].delivered;
  }

  /** The same for the editable query. */
  ghost predicate MayContinueEditable(w: World, s: Snap, r: Paging.Request)
  {
    && AccessTime(s) >= w.clock - 300_000 && !s.invalidated && s.kind == QueryEditable
    && s.editable.Some? && s.editable.value.nextOffset == Some(r.offset)
  }

  function TargetsOf(s: Snap, r: Paging.Request): Paging.PageOutcome
  {
    if s.editable.None? || r.offset > |s.editable.value.elements| then Paging.TooLarge
    else Paging.Cut(Paging.EditableMode, s.editable.value.elements, r.offset, Paging.ClampLimit(r.limit), r.treeBytes)
  }

  lemma ContinueEditableDelivers(steps: seq<Step>, s: Snap, r: Paging.Request, now: int)
    requires s in Run(INITIAL, steps).session.store
    ensures var w := Run(INITIAL, steps);
            var w' := Apply(w, ContinueEditable(s.id, r, now));
            && s.id in w.issues && s.id in w'.issues
            && var iss, delivered := w.issues[s.id], w'.issues[s.id].deliveredTargets;
               if MayContinueEditable(w, s, r) && TargetsOf(s, r).Page? then
                 delivered == iss.deliveredTargets + TargetsOf(s, r).elements
               else delivered == iss.deliveredTargets
  {
    RunKeeps(steps);
    var w := Run(INITIAL, steps);
    var later := After(w, now);
    LookupFinds(w.session, s, w.clock, later);
    ContinueEditableIs(w, s.id, r, now);
    var (w1, found) := Looked(w, s.id, now);
    if found.Some? && s.kind == QueryEditable {
      GetKeepsSession(w, s.id, now);
      TargetsDeliver(w1, found.value, r);
      SameTargets(s, s.(lastAccessedAt := Some(later)), r);
    }
  }

  lemma SameTargets(s: Snap, t: Snap, r: Paging.Request)
    requires t == s.(lastAccessedAt := t.lastAccessedAt)
    ensures TargetsOf(t, r) == TargetsOf(s, r)
  {
  }

  lemma TargetsDeliver(w: World, i: nat, r: Paging.Request)
    requires Inv(w) && i < |w.session.store| && !w.session.store[i].invalidated
    ensures var s, w' := w.session.store[i], ServeTargets(w, i, r);
            && s.id in w.issues && s.id in w'.issues
            && w'.issues[s.id].deliveredTargets ==
               if s.editable.Some? && s.editable.value.nextOffset == Some(r.offset) && TargetsOf(s, r).Page? then
                 w.issues[s.id].deliveredTargets + TargetsOf(s, r).elements
               else w.issues[s.id].deliveredTargets
  {
    var s := w.session.store[i];
    assert s in w.session.store;
  }

  // ---------------------------------------------------------------- mutations of the page

  /** Whatever the store still holds of these snapshots is invalidated. */
  ghost predicate Frozen(w: World, ids: set<nat>)
  {
    && ids <= w.issues.Keys && (forall id :: id in ids ==> id < w.nextId)
    && forall s :: s in w.session.store && s.id in ids ==> s.invalidated
  }

  /** Nothing more was delivered from them. */
  ghost predicate NothingMore(w: World, w': World, ids: set<nat>)
    requires ids <= w.issues.Keys
  {
    ids <= w'.issues.Keys && forall id :: id in ids ==> w'.issues[id].delivered == w.issues[id].delivered
  }

  lemma ReadsFrozen(w: World, v': Session, clock: int, now: int, ids: set<nat>)
    requires Frozen(w, ids) && OnlyReads(w.session, v', now)
    ensures Frozen(w.(session := v', clock := clock), ids)
  {
    forall s' | s' in v'.store && s'.id in ids
      ensures s'.invalidated
    {
      var s :| s in w.session.store && (s' == s || s' == s.(lastAccessedAt := Some(now)));
    }
  }

  lemma LookedFrozen(w: World, id: nat, now: int, ids: set<nat>)
    requires Inv(w) && Frozen(w, ids)
    ensures var (w1, found) := Looked(w, id, now);
            && Frozen(w1, ids) && NothingMore(w, w1, ids)
            && (found.Some? ==> found.value < |w1.session.store| && w1.session.store[found.value].id !in ids)
  {
    var later := After(w, now);
    GetOnlyReads(w.session, id, w.clock, later);
    var (v', found) := Get(w.session, id, w.clock, later);
    ReadsFrozen(w, v', later, later, ids);
    if found.Some? {
      assert v'.store[found.value] in v'.store;
    }
  }

  /** Serving from a snapshot that is not among them. */
  lemma ReplacedFrozen(w: World, w': World, i: nat, ids: set<nat>)
    requires Frozen(w, ids) && i < |w.session.store|
    requires ids <= w'.issues.Keys && w'.nextId == w.nextId
    requires |w'.session.store| == |w.session.store| && w'.session.store[i].id == w.session.store[i].id
    requires forall j :: 0 <= j < |w.session.store| && j != i ==> w'.session.store[j] == w.session.store[j]
    requires w.session.store[i].id in ids ==> w'.session.store[i].invalidated
    ensures Frozen(w', ids)
  {
    forall s' | s' in w'.session.store && s'.id in ids
      ensures s'.invalidated
    {
      var j :| 0 <= j < |w'.session.store| && w'.session.store[j] == s';
      assert w.session.store[j] in w.session.store;
    }
  }

  lemma ServeFrozen(w: World, i: nat, r: Paging.Request, ids: set<nat>)
    requires Frozen(w, ids) && i < |w.session.store| && w.session.store[i].id !in ids
    ensures Frozen(ServeList(w, i, r), ids) && NothingMore(w, ServeList(w, i, r), ids)
  {
    ReplacedFrozen(w, ServeList(w, i, r), i, ids);
  }

  lemma TargetsFrozen(w: World, i: nat, r: Paging.Request, ids: set<nat>)
    requires Frozen(w, ids) && i < |w.session.store|
    ensures Frozen(ServeTargets(w, i, r), ids) && NothingMore(w, ServeTargets(w, i, r), ids)
  {
    assert w.session.store[i] in w.session.store;
    ReplacedFrozen(w, ServeTargets(w, i, r), i, ids);
  }

  lemma AttachFrozen(w: World, i: nat, limit: int, ids: set<nat>)
    requires Frozen(w, ids) && i < |w.session.store|
    ensures Frozen(AttachTargets(w, i, limit), ids) && NothingMore(w, AttachTargets(w, i, limit), ids)
  {
    var s := w.session.store[i];
    assert s in w.session.store;
    if s.id in w.issues {
      var targets := Editables(s.cursor.elements);
      var attached := w.(
          session := w.session.(store := w.session.store[i := s.(editable := Some(Cursor(targets, Some(0))))]),
          issues := w.issues[s.id := w.issues[s.id].(targets := targets, deliveredTargets := [])]);
      ReplacedFrozen(w, attached, i, ids);
      TargetsFrozen(attached, i, Paging.Request(0, limit, 0), ids);
    }
  }

  lemma StoredFrozen(w: World, task: nat, snap: Snap, iss: Issue, now: int, ids: set<nat>)
    requires Inv(w) && Frozen(w, ids) && snap.id == w.nextId && snap.generation <= w.session.generation
    ensures Frozen(Stored(w, task, snap, iss, now), ids) && NothingMore(w, Stored(w, task, snap, iss, now), ids)
  {
    FreshId(w);
    StoreKeepsValid(w.session, snap, w.clock, now);
  }

  lemma PublishFrozen(w: World, step: Step, ids: set<nat>)
    requires Inv(w) && Frozen(w, ids)
    requires step.UpdateDone? && step.task in w.inspections && w.inspections[step.task].phase.Updating?
    requires w.inspections[step.task].generation == w.session.generation
    ensures Frozen(Publish(w, step), ids) && NothingMore(w, Publish(w, step), ids)
  {
    var ins := w.inspections[step.task];
    var nodes := CurrentNodes(ins.phase.kept, ins.baseline, w.session.epochs);
    if |step.refs| == |nodes| {
      var now := After(w, step.now);
      var frozen := Records(nodes, step.refs);
      var snap := Snap(w.nextId, ins.generation, now, None, ins.kind, Cursor(frozen, Some(0)), None, false,
                       step.layout);
      var iss := Issue(ins.mark, |w.history|, ins.phase.scanned, frozen, [], [], []);
      StoredFrozen(w, step.task, snap, iss, now, ids);
      ByIdFrozen(Stored(w, step.task, snap, iss, now), snap.id, Paging.Request(0, step.limit, step.treeBytes), ids);
    }
  }

  lemma ByIdFrozen(w: World, id: nat, r: Paging.Request, ids: set<nat>)
    requires Frozen(w, ids) && id !in ids
    ensures Frozen(ServeById(w, id, r), ids) && NothingMore(w, ServeById(w, id, r), ids)
  {
    var found := IndexOfId(w.session.store, id);
    if found.Some? {
      ServeFrozen(w, found.value, r, ids);
    }
  }

  lemma ResolveFrozen(w: World, ref: string, now: int, ids: set<nat>)
    requires Inv(w) && Frozen(w, ids)
    ensures var w' := Apply(w, ResolveRef(ref, now)); Frozen(w', ids) && NothingMore(w, w', ids)
  {
    var later := After(w, now);
    ResolveOnlyReads(w.session, ref, w.clock, later);
    ReadsFrozen(w, Resolve(w.session, ref, w.clock, later).0, later, later, ids);
  }

  lemma FrameFrozen(w: World, identity: Identity, ids: set<nat>)
    requires Frozen(w, ids)
    ensures Frozen(ChildReplaced(w, identity), ids) && NothingMore(w, ChildReplaced(w, identity), ids)
  {
    FrameStore(w.session, identity);
    var v' := InvalidateFrame(w.session, identity);
    forall s' | s' in v'.store && s'.id in ids
      ensures s'.invalidated
    {
      var j :| 0 <= j < |v'.store| && v'.store[j] == s';
      assert w.session.store[j] in w.session.store;
    }
  }

  lemma ContinueFrozen(w: World, id: nat, r: Paging.Request, now: int, ids: set<nat>)
    requires Inv(w) && Frozen(w, ids)
    ensures var w' := Apply(w, Continue(id, r, now)); Frozen(w', ids) && NothingMore(w, w', ids)
  {
    LookedFrozen(w, id, now, ids);
    ContinueIs(w, id, r, now);
    var (w1, found) := Looked(w, id, now);
    if found.Some? {
      ServeFrozen(w1, found.value, r, ids);
    }
  }

  lemma ContinueEditableIs(w: World, id: nat, r: Paging.Request, now: int)
    ensures var (w1, found) := Looked(w, id, now);
            Apply(w, ContinueEditable(id, r, now)) ==
            if found.None? || found.value >= |w1.session.store|
               || w1.session.store[found.value].kind != QueryEditable then w1
            else ServeTargets(w1, found.value, r)
  {
  }

  lemma ContinueEditableFrozen(w: World, id: nat, r: Paging.Request, now: int, ids: set<nat>)
    requires Inv(w) && Frozen(w, ids)
    ensures var w' := Apply(w, ContinueEditable(id, r, now)); Frozen(w', ids) && NothingMore(w, w', ids)
  {
    LookedFrozen(w, id, now, ids);
    ContinueEditableIs(w, id, r, now);
    var (w1, found) := Looked(w, id, now);
    if found.Some? {
      TargetsFrozen(w1, found.value, r, ids);
    }
  }

  lemma StartEditableFrozen(w: World, limit: int, ids: set<nat>)
    requires Frozen(w, ids)
    ensures var w' := Apply(w, StartEditable(limit)); Frozen(w', ids) && NothingMore(w, w', ids)
  {
    if w.session.latest.Some? {
      var found := IndexOfId(w.session.store, w.session.latest.value);
      if found.Some? {
        AttachFrozen(w, found.value, limit, ids);
      }
    }
  }

  lemma UpdateFrozen(w: World, step: Step, ids: set<nat>)
    requires Inv(w) && Frozen(w, ids) && step.UpdateDone?
    ensures Frozen(Apply(w, step), ids) && NothingMore(w, Apply(w, step), ids)
  {
    var task := step.task;
    if task in w.inspections && w.inspections[task].phase.Updating?
       && w.inspections[task].generation == w.session.generation {
      PublishFrozen(w, step, ids);
    }
  }

  lemma ScanStepFrozen(w: World, step: Step, ids: set<nat>)
    requires Frozen(w, ids)
    requires step.Tick? || step.BeginInspect? || step.SummaryRead? || step.ScanDone? || step.InspectFails?
    ensures Frozen(Apply(w, step), ids) && NothingMore(w, Apply(w, step), ids)
  {
  }

  lemma NavigateFrozen(w: World, ids: set<nat>)
    requires Frozen(w, ids)
    ensures Frozen(MainReplaced(w), ids) && NothingMore(w, MainReplaced(w), ids)
  {
  }

  lemma TransportFrozen(w: World, event: Nav.TransportEvent, env: Nav.Env, ids: set<nat>)
    requires Frozen(w, ids)
    ensures var w' := Apply(w, Transport(event, env)); Frozen(w', ids) && NothingMore(w, w', ids)
  {
    match Nav.EffectOf(event, env)
    case Ignored =>
    case ReplacesMain => NavigateFrozen(w, ids);
    case ReplacesChild(identity) => FrameFrozen(w, identity, ids);
  }

  lemma StepFrozen(w: World, step: Step, ids: set<nat>)
    requires Inv(w) && Frozen(w, ids)
    ensures Frozen(Apply(w, step), ids) && NothingMore(w, Apply(w, step), ids)
  {
    match step
    case Tick(_) => ScanStepFrozen(w, step, ids);
    case BeginInspect(_, _) => ScanStepFrozen(w, step, ids);
    case SummaryRead(_) => ScanStepFrozen(w, step, ids);
    case ScanDone(_, _) => ScanStepFrozen(w, step, ids);
    case UpdateDone(_, _, _, _, _, _) => UpdateFrozen(w, step, ids);
    case InspectFails(_) => ScanStepFrozen(w, step, ids);
    case Navigate => NavigateFrozen(w, ids);
    case FrameEvent(identity) => FrameFrozen(w, identity, ids);
    case Transport(event, env) => TransportFrozen(w, event, env, ids);
    case Mutate => MutateFrozen(w, ids);
    case ResolveRef(ref, now) => ResolveFrozen(w, ref, now, ids);
    case Continue(id, request, now) => ContinueFrozen(w, id, request, now, ids);
    case StartEditable(limit) => StartEditableFrozen(w, limit, ids);
    case ContinueEditable(id, request, now) => ContinueEditableFrozen(w, id, request, now, ids);
  }

  lemma MutateFrozen(w: World, ids: set<nat>)
    requires ids <= w.issues.Keys && forall id :: id in ids ==> id < w.nextId
    ensures Frozen(Apply(w, Mutate), ids) && NothingMore(w, Apply(w, Mutate), ids)
  {
    var v' := InvalidateObservations(w.session);
    forall s' | s' in v'.store
      ensures s'.invalidated
    {
      var j :| 0 <= j < |v'.store| && v'.store[j] == s';
    }
  }

  lemma RunNext(w: World, steps: seq<Step>, step: Step)
    ensures Run(w, steps + [step]) == Apply(Run(w, steps), step)
  {
    assert (steps + [step])[..|steps|] == steps;
  }

  lemma StillNothingMore(w: World, u: World, step: Step, ids: set<nat>)
    requires Inv(u) && Frozen(u, ids) && ids <= w.issues.Keys && NothingMore(w, u, ids)
    ensures Frozen(Apply(u, step), ids) && NothingMore(w, Apply(u, step), ids)
  {
    StepFrozen(u, step, ids);
  }

  /**
   After a mutation of the page no continuation delivers anything more of what was issued before it,
   in whatever way the session goes on.
   */
  lemma {:induction false} MutationEndsDelivery(steps: seq<Step>, later: seq<Step>)
    ensures var w, w' := Run(INITIAL, steps), Run(INITIAL, steps + [Mutate] + later);
            Frozen(w', w.issues.Keys) && NothingMore(w, w', w.issues.Keys)
    decreases |later|
  {
    var w := Run(INITIAL, steps);
    if later == [] {
      RunKeeps(steps);
      assert steps + [Mutate] + later == steps + [Mutate];
      RunNext(INITIAL, steps, Mutate);
      MutateFrozen(w, w.issues.Keys);
    } else {
      var init, last := later[..|later| - 1], later[|later| - 1];
      MutationEndsDelivery(steps, init);
      assert steps + [Mutate] + later == (steps + [Mutate] + init) + [last];
      RunNext(INITIAL, steps + [Mutate] + init, last);
      RunKeeps(steps + [Mutate] + init);
      StillNothingMore(w, Run(INITIAL, steps + [Mutate] + init), last, w.issues.Keys);
    }
  }

  // ---------------------------------------------------------------- the editable query

  function EditableRow(es: seq<Element>): seq<Option<Element>>
  {
    seq(|es|, i requires 0 <= i < |es| => if es[i].node.editable then Some(es[i]) else None)
  }

  lemma {:induction false} EditablesArePresent(es: seq<Element>)
    ensures Editables(es) == Present(EditableRow(es))
  {
    if es != [] {
      EditablesArePresent(es[..|es| - 1]);
      assert EditableRow(es)[..|es| - 1] == EditableRow(es[..|es| - 1]);
    }
  }

  /** The targets of the editable query are the editable elements of the list, in order. */
  lemma EditablesAreListed(es: seq<Element>)
    ensures IsListing([EditableRow(es)], Editables(es))
  {
    var rows := [EditableRow(es)];
    EditablesArePresent(es);
    NothingListed(rows);
    RowListed(rows, 0, [], Editables(es));
    AllListed(rows, Editables(es));
  }

  // ---------------------------------------------------------------- an idle session

  /** Five minutes in which nobody uses a ref end all of them, whatever the session did before. */
  lemma IdleRefsExpire(steps: seq<Step>, now: int, ref: string)
    requires now > Run(INITIAL, steps).clock + 300_000
    ensures var w := Run(INITIAL, steps + [Tick(now)]);
            w.clock == now && Resolve(w.session, ref, w.clock, w.clock).1 == None
  {
    var before, all := Run(INITIAL, steps), steps + [Tick(now)];
    RunKeeps(steps);
    assert all[..|all| - 1] == steps;
    StoreLaws.ExpiredDoNotResolve(before.session, ref, now, now);
  }
}

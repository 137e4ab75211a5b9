/**
 The mutable session state. Snapshots are shared objects that the operations update in place;
 each operation is proved to do to the abstract value of the session exactly what the
 corresponding function of `SnapshotStore` does.
 */
module BrowserSessionState {
  import opened SnapshotModel
  import Paging
  import Spec = SnapshotStore
  import opened Wrappers

  class Snapshot {
    const id: nat
    const generation: nat
    const createdAt: int
    const kind: Kind
    const layout: Layout
    var lastAccessedAt: Option<int>
    var elements: seq<Element>
    var nextOffset: Option<nat>
    var continuationInvalidated: bool
    var editableQuery: Option<Cursor>

    constructor (id: nat, generation: nat, createdAt: int, kind: Kind, elements: seq<Element>, layout: Layout)
      ensures View() == Snap(id, generation, createdAt, None, kind, Cursor(elements, Some(0)), None, false, layout)
    {
      this.id, this.generation, this.createdAt := id, generation, createdAt;
      this.kind, this.layout, this.elements := kind, layout, elements;
      lastAccessedAt, nextOffset := None, Some(0);
      continuationInvalidated, editableQuery := false, None;
    }

    function View(): Snap
      reads this
    {
      Snap(id, generation, createdAt, lastAccessedAt, kind, Cursor(elements, nextOffset), editableQuery,
           continuationInvalidated, layout)
    }

    /** An inspect continuation: check the offset, cut the page, move `nextOffset`. */
    method ContinueInspect(r: Paging.Request) returns (reply: Paging.Reply)
      requires Paging.Wellformed(View().cursor)
      modifies this`nextOffset
      ensures (View().cursor, reply) == Paging.Serve(Paging.InspectMode(layout), old(View().cursor), r)
    {
      if nextOffset != Some(r.offset) {
        return Paging.Mismatch;
      }
      var page := Paging.SnapshotPage(layout, elements, r.offset, Paging.ClampLimit(r.limit), r.treeBytes);
      if page.TooLarge? {
        return Paging.Oversized;
      }
      nextOffset := if page.end < |elements| then Some(page.end) else None;
      return Paging.Served(page.elements);
    }

    /** The same for the editable query, whose page never fails. */
    method ContinueEditable(r: Paging.Request) returns (reply: Paging.Reply)
      requires editableQuery.Some? && Paging.Wellformed(editableQuery.value) && r.treeBytes == 0
      modifies this`editableQuery
      ensures editableQuery.Some?
      ensures (editableQuery.value, reply) == Paging.Serve(Paging.EditableMode, old(editableQuery.value), r)
    {
      var current := editableQuery.value;
      if current.nextOffset != Some(r.offset) {
        return Paging.Mismatch;
      }
      var page := Paging.EditablePage(current.elements, r.offset, Paging.ClampLimit(r.limit));
      Paging.CutLaw(Paging.EditableMode, current.elements, r.offset, Paging.ClampLimit(r.limit), 0);
      editableQuery := Some(current.(nextOffset := if page.end < |current.elements| then Some(page.end) else None));
      return Paging.Served(page.elements);
    }
  }

  function Views(ss: seq<Snapshot>): (r: seq<Snap>)
    reads ss
    ensures |r| == |ss| && forall i :: 0 <= i < |ss| ==> r[i] == ss[i].View()
  {
    seq(|ss|, i requires 0 <= i < |ss| reads ss => ss[i].View())
  }

  lemma AppendView(ss: seq<Snapshot>, s: Snapshot)
    ensures Views(ss + [s]) == Views(ss) + [s.View()]
  {
    assert (ss + [s])[..|ss|] == ss;
  }

  lemma RemoveView(ss: seq<Snapshot>, i: nat)
    requires i < |ss|
    ensures Views(ss[..i] + ss[i + 1..]) == Spec.RemoveAt(Views(ss), i)
  {
  }

  lemma StoreComposes(v: Spec.Session, f: Snap, pruneNow: int, now: int, v': Spec.Session)
    requires Spec.Valid(v) && !Spec.Has(v.store, f.id) && f.generation <= v.generation
    requires var p := Spec.Prune(v, pruneNow);
             v' == Spec.Refresh(p.(store := Spec.Evict(Spec.Put(p.store, f.(lastAccessedAt := Some(now)))),
                                   latest := Some(f.id)))
    ensures v' == Spec.Store(v, f, pruneNow, now) && Spec.Valid(v')
  {
    Spec.StoreKeepsValid(v, f, pruneNow, now);
  }

  /** No other snapshot of `ss` carries the id of `s`. */
  ghost predicate OnlyHolder(ss: seq<Snapshot>, s: Snapshot)
  {
    forall t :: t in ss && t.id == s.id ==> t == s
  }

  lemma NewHolder(ss: seq<Snapshot>, s: Snapshot)
    requires !Spec.Has(Views(ss), s.id)
    ensures OnlyHolder(ss + [s], s)
  {
    forall t | t in ss
      ensures t.id != s.id
    {
      var i :| 0 <= i < |ss| && ss[i] == t;
      assert Views(ss)[i].id != s.id;
    }
  }

  lemma HolderById(ss: seq<Snapshot>, s: Snapshot)
    requires OnlyHolder(ss, s)
    ensures s in ss <==> Spec.Has(Views(ss), s.id)
  {
    if s in ss {
      var i :| 0 <= i < |ss| && ss[i] == s;
      assert Views(ss)[i].id == s.id;
    }
    if Spec.Has(Views(ss), s.id) {
      var i :| 0 <= i < |ss| && Views(ss)[i].id == s.id;
      assert ss[i] in ss;
    }
  }

  class BrowserSession {
    var generation: nat
    var frameEpochs: map<FrameKey, nat>
    var snapshots: seq<Snapshot>
    var snapshot: Snapshot?

    constructor ()
      ensures Valid() && View() == Spec.Session(0, map[], [], None)
    {
      generation, frameEpochs, snapshots, snapshot := 0, map[], [], null;
    }

    function View(): Spec.Session
      reads this, snapshots
    {
      Spec.Session(generation, frameEpochs, Views(snapshots), if snapshot == null then None else Some(snapshot.id))
    }

    /** In particular `snapshot` is a member of the store whenever it is set. */
    ghost predicate Valid()
      reads this, snapshots
    {
      && Spec.Valid(View())
      && (snapshot != null ==> snapshot in snapshots)
    }

    method RefreshLatest()
      requires snapshot != null ==> (snapshot in snapshots <==> Spec.Has(Views(snapshots), snapshot.id))
      modifies this`snapshot
      ensures View() == Spec.Refresh(old(View()))
      ensures snapshot != null ==> snapshot in snapshots
    {
      if snapshot != null && snapshot in snapshots {
        return;
      }
      snapshot := if snapshots == [] then null else snapshots[|snapshots| - 1];
    }

    /** The snapshots of the current generation that were used since `cutoff`. */
    method AliveSnapshots(cutoff: int) returns (kept: seq<Snapshot>)
      ensures Views(kept) == Spec.Keep(Views(snapshots), generation, cutoff)
      ensures forall i :: 0 <= i < |kept| ==> kept[i] in snapshots
    {
      kept := [];
      ghost var store := Views(snapshots);
      for i := 0 to |snapshots|
        invariant forall k :: 0 <= k < |kept| ==> kept[k] in snapshots
        invariant Views(kept) == Spec.Keep(store[..i], generation, cutoff)
      {
        var s := snapshots[i];
        Spec.KeepNext(store, i, generation, cutoff);
        if s.generation == generation && Spec.AccessTime(s.View()) >= cutoff {
          AppendView(kept, s);
          kept := kept + [s];
        }
      }
      assert store[..|snapshots|] == store;
    }

    method PruneSnapshots(now: int)
      requires Valid()
      modifies this`snapshots, this`snapshot
      ensures Valid() && View() == Spec.Prune(old(View()), now)
      ensures forall i :: 0 <= i < |snapshots| ==> snapshots[i] in old(snapshots)
    {
      ghost var before := View();
      var kept := AliveSnapshots(now - Spec.TTL_MS);
      SameIdSameObject(kept);
      snapshots := kept;
      assert View() == before.(store := Spec.Keep(before.store, before.generation, now - Spec.TTL_MS));
      RefreshLatest();
      assert View() == Spec.Prune(before, now);
      Spec.PruneKeepsValid(before, now);
    }

    /** Ids are unique in the store, so looking the latest snapshot up by id finds the object itself. */
    lemma SameIdSameObject(kept: seq<Snapshot>)
      requires Valid()
      requires forall i :: 0 <= i < |kept| ==> kept[i] in snapshots
      ensures snapshot != null ==> (snapshot in kept <==> Spec.Has(Views(kept), snapshot.id))
    {
      if snapshot != null {
        var store := View().store;
        var b :| 0 <= b < |snapshots| && snapshots[b] == snapshot;
        forall t | t in kept && t.id == snapshot.id
          ensures t == snapshot
        {
          var a :| 0 <= a < |snapshots| && snapshots[a] == t;
          assert store[a].id == store[b].id;
        }
        HolderById(kept, snapshot);
      }
    }

    method OldestSnapshot() returns (oldest: nat)
      requires snapshots != []
      ensures oldest == Spec.Oldest(Views(snapshots))
    {
      oldest := 0;
      ghost var store := Views(snapshots);
      assert store[..1][0] == store[0];
      for i := 1 to |snapshots|
        invariant oldest < i && oldest == Spec.Oldest(store[..i])
      {
        assert store[..i + 1][..i] == store[..i];
        if Spec.AccessTime(snapshots[i].View()) < Spec.AccessTime(snapshots[oldest].View()) {
          oldest := i;
        }
      }
      assert store[..|snapshots|] == store;
    }

    method RemoveOldest()
      requires |snapshots| > Spec.MAX_RETAINED
      modifies this`snapshots
      ensures Spec.Evict(Views(snapshots)) == Spec.Evict(old(Views(snapshots)))
      ensures |snapshots| == old(|snapshots|) - 1
      ensures forall s :: s in snapshots ==> s in old(snapshots)
    {
      var oldest := OldestSnapshot();
      Spec.EvictStep(Views(snapshots));
      RemoveAtIndex(oldest);
    }

    method RemoveAtIndex(i: nat)
      requires i < |snapshots|
      modifies this`snapshots
      ensures Views(snapshots) == Spec.RemoveAt(old(Views(snapshots)), i)
      ensures |snapshots| == old(|snapshots|) - 1
      ensures forall s :: s in snapshots ==> s in old(snapshots)
    {
      RemoveView(snapshots, i);
      snapshots := snapshots[..i] + snapshots[i + 1..];
    }

    /** The eviction loop. */
    method EvictSnapshots()
      modifies this`snapshots
      ensures Views(snapshots) == Spec.Evict(old(Views(snapshots)))
      ensures forall s :: s in snapshots ==> s in old(snapshots)
    {
      while |snapshots| > Spec.MAX_RETAINED
        invariant Spec.Evict(Views(snapshots)) == Spec.Evict(old(Views(snapshots)))
        invariant forall s :: s in snapshots ==> s in old(snapshots)
      {
        RemoveOldest();
      }
    }

    /** Stamp and insert a snapshot whose id is new. */
    method InsertSnapshot(added: Snapshot, now: int)
      requires added !in snapshots && !Spec.Has(Views(snapshots), added.id)
      modifies this`snapshots, this`snapshot, added`lastAccessedAt
      ensures added.View() == old(added.View()).(lastAccessedAt := Some(now))
      ensures Views(snapshots) == Spec.Put(old(Views(snapshots)), added.View())
      ensures snapshot == added
      ensures OnlyHolder(snapshots, added)
    {
      ghost var others := Views(snapshots);
      NewHolder(snapshots, added);
      added.lastAccessedAt := Some(now);
      assert Views(snapshots) == others;
      AppendView(snapshots, added);
      snapshots := snapshots + [added];
      snapshot := added;
    }

    method StoreBrowserSnapshot(added: Snapshot, pruneNow: int, now: int)
      requires Valid() && added !in snapshots && added.generation <= generation
      requires !Spec.Has(View().store, added.id)
      modifies this, added
      ensures Valid()
      ensures View() == Spec.Store(old(View()), old(added.View()), pruneNow, now)
    {
      ghost var v0, f0 := View(), added.View();
      PruneSnapshots(pruneNow);
      Spec.PruneForgetsNothingNew(v0, pruneNow, added.id);
      AdmitSnapshot(added, now);
      StoreComposes(v0, f0, pruneNow, now, View());
    }

    /** Insert, evict down to the bound, and pick the latest again. */
    method AdmitSnapshot(added: Snapshot, now: int)
      requires added !in snapshots && !Spec.Has(Views(snapshots), added.id)
      modifies this`snapshots, this`snapshot, added`lastAccessedAt
      ensures var v, f := old(View()), old(added.View());
              View() == Spec.Refresh(v.(store := Spec.Evict(Spec.Put(v.store, f.(lastAccessedAt := Some(now)))),
                                       latest := Some(f.id)))
      ensures snapshot != null ==> snapshot in snapshots
    {
      ghost var v, stamped := View(), added.View().(lastAccessedAt := Some(now));
      InsertSnapshot(added, now);
      assert View() == v.(store := Spec.Put(v.store, stamped), latest := Some(added.id));
      EvictSnapshots();
      HolderById(snapshots, added);
      assert View() == v.(store := Spec.Evict(Spec.Put(v.store, stamped)), latest := Some(added.id));
      RefreshLatest();
    }

    method LookupSnapshot(snapshotId: nat, now: int) returns (found: Snapshot?)
      requires Valid()
      modifies snapshots
      ensures Valid()
      ensures View() == Spec.Lookup(old(View()), snapshotId, now).0
      ensures var r := Spec.Lookup(old(View()), snapshotId, now).1;
              if r.None? then found == null
              else r.value < |snapshots| && found == snapshots[r.value]
    {
      var i := FindContinuable(snapshotId);
      if i == |snapshots| {
        return null;
      }
      found := snapshots[i];
      TouchSnapshot(i, now);
    }

    method GetBrowserSnapshot(snapshotId: nat, pruneNow: int, now: int) returns (found: Snapshot?)
      requires Valid()
      modifies this, snapshots
      ensures Valid()
      ensures View() == Spec.Get(old(View()), snapshotId, pruneNow, now).0
      ensures var r := Spec.Get(old(View()), snapshotId, pruneNow, now).1;
              if r.None? then found == null
              else r.value < |snapshots| && found == snapshots[r.value]
    {
      PruneSnapshots(pruneNow);
      found := LookupSnapshot(snapshotId, now);
    }

    /** `|snapshots|` when there is no such snapshot or it may not be continued. */
    method FindContinuable(snapshotId: nat) returns (i: nat)
      ensures i <= |snapshots|
      ensures Spec.Continuable(View(), snapshotId) == if i == |snapshots| then None else Some(i)
    {
      var at := Spec.IndexOfId(Views(snapshots), snapshotId);
      if at.None? || snapshots[at.value].generation != generation || snapshots[at.value].continuationInvalidated {
        return |snapshots|;
      }
      return at.value;
    }

    /** `snapshot.lastAccessedAt = Date.now()` through one of the aliases. */
    method TouchSnapshot(i: nat, now: int)
      requires Valid() && i < |snapshots|
      modifies snapshots[i]
      ensures Valid()
      ensures View() == old(View()).(store := Spec.Touch(old(View()).store, i, now))
    {
      DistinctObjects();
      ghost var before := View();
      snapshots[i].lastAccessedAt := Some(now);
      assert Views(snapshots) == Spec.Touch(before.store, i, now);
      Spec.TouchKeepsValid(before, i, now);
    }

    lemma DistinctObjects()
      requires Valid()
      ensures forall i, j :: 0 <= i < j < |snapshots| ==> snapshots[i] != snapshots[j]
    {
      forall i, j | 0 <= i < j < |snapshots|
        ensures snapshots[i] != snapshots[j]
      {
        assert View().store[i].id != View().store[j].id;
      }
    }

    method ResolveRetained(ref: string, now: int) returns (owner: Snapshot?, element: Option<Element>)
      requires Valid()
      modifies snapshots
      ensures Valid()
      ensures View() == Spec.ResolveIn(old(View()), ref, now).0
      ensures var r := Spec.ResolveIn(old(View()), ref, now).1;
              if r.None? then owner == null && element == None
              else owner != null && owner in snapshots && owner.id == r.value.0 && element == Some(r.value.1)
    {
      var i, at := FindOwner(ref);
      if i == |snapshots| {
        return null, None;
      }
      owner, element := snapshots[i], Some(snapshots[i].elements[at]);
      TouchSnapshot(i, now);
    }

    method ResolveBrowserSnapshotElement(ref: string, pruneNow: int, now: int)
      returns (owner: Snapshot?, element: Option<Element>)
      requires Valid()
      modifies this, snapshots
      ensures Valid()
      ensures View() == Spec.Resolve(old(View()), ref, pruneNow, now).0
      ensures var r := Spec.Resolve(old(View()), ref, pruneNow, now).1;
              if r.None? then owner == null && element == None
              else owner != null && owner in snapshots && owner.id == r.value.0 && element == Some(r.value.1)
    {
      PruneSnapshots(pruneNow);
      owner, element := ResolveRetained(ref, now);
    }

    /** The reversed search; `|snapshots|` when no snapshot owns the ref. */
    method FindOwner(ref: string) returns (i: nat, at: nat)
      ensures var r := Spec.Owner(Views(snapshots), generation, ref);
              if r.None? then i == |snapshots|
              else r == Some(i) && Spec.FindRef(snapshots[i].elements, ref) == Some(at)
    {
      ghost var store := Views(snapshots);
      var k := |snapshots|;
      assert store[..k] == store;
      while k > 0
        invariant 0 <= k <= |snapshots|
        invariant Spec.Owner(store[..k], generation, ref) == Spec.Owner(store, generation, ref)
      {
        k := k - 1;
        assert store[..k + 1][..k] == store[..k];
        if snapshots[k].generation == generation {
          var found := Spec.FindRef(snapshots[k].elements, ref);
          if found.Some? {
            return k, found.value;
          }
        }
      }
      return |snapshots|, 0;
    }

    /** A main-document navigation: everything handed out so far is revoked. */
    method Invalidate()
      modifies this
      ensures Valid() && View() == Spec.Invalidate(old(View()))
    {
      generation := generation + 1;
      frameEpochs := map[];
      snapshots, snapshot := [], null;
    }

    method InvalidateBrowserObservations()
      requires Valid()
      modifies snapshots
      ensures Valid() && View() == Spec.InvalidateObservations(old(View()))
    {
      DistinctObjects();
      ghost var before := View();
      for k := 0 to |snapshots|
        invariant forall i :: 0 <= i < |snapshots| ==>
                                snapshots[i].View() ==
                                if i < k then before.store[i].(invalidated := true) else before.store[i]
      {
        snapshots[k].continuationInvalidated := true;
      }
      assert Views(snapshots) == Spec.InvalidateObservations(before).store;
      Spec.RewriteKeepsValid(before, View());
    }

    method StripSnapshot(k: nat, identity: Identity)
      requires k < |snapshots|
      modifies snapshots[k]
      ensures snapshots[k].View() == Spec.StripSnap(old(snapshots[k].View()), identity)
    {
      var s := snapshots[k];
      var retained := Spec.Strip(s.elements, identity);
      if |retained| == |s.elements| {
        return;
      }
      s.elements := retained;
      s.continuationInvalidated := true;
      if s.editableQuery.Some? {
        var c := s.editableQuery.value;
        s.editableQuery := Some(c.(elements := Spec.Strip(c.elements, identity)));
      }
    }

    /** A replaced child document: bump its epochs and take its elements out of every snapshot. */
    method InvalidateBrowserFrame(identity: Identity)
      requires Valid()
      modifies this`frameEpochs, snapshots
      ensures Valid() && View() == Spec.InvalidateFrame(old(View()), identity)
    {
      DistinctObjects();
      ghost var before := View();
      if identity.frameId == "" && identity.sessionId == "" {
        assert KeysOf(identity.frameId, identity.sessionId) == {};
        return;
      }
      assert KeysOf(identity.frameId, identity.sessionId) != {} by {
        assert (if identity.frameId != "" then FrameKey(identity.frameId) else SessionKey(identity.sessionId))
               in KeysOf(identity.frameId, identity.sessionId);
      }
      frameEpochs := Spec.Bump(frameEpochs, KeysOf(identity.frameId, identity.sessionId));
      for k := 0 to |snapshots|
        invariant frameEpochs == Spec.InvalidateFrame(before, identity).epochs
        invariant forall i :: 0 <= i < |snapshots| ==>
                                snapshots[i].View() ==
                                if i < k then Spec.StripSnap(before.store[i], identity) else before.store[i]
      {
        StripSnapshot(k, identity);
      }
      assert Views(snapshots) == Spec.InvalidateFrame(before, identity).store;
      Spec.RewriteKeepsValid(before, View());
    }
  }
}

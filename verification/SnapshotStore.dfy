/**
 The bounded store of retained observations: a generation counter, per-document epochs
 and at most three snapshots that expire after five idle minutes. These functions are
 the specification of the operations of class `BrowserSession`.
 */
module SnapshotStore {
  import opened SnapshotModel
  import opened Wrappers

  const MAX_RETAINED := 3
  const TTL_MS := 5 * 60 * 1_000

  /** `store` lists the snapshots in insertion order; `latest` is the id of the current one. */
  datatype Session = Session(
    generation: nat,
    epochs: map<FrameKey, nat>,
    store: seq<Snap>,
    latest: Option<nat>)

  function AccessTime(s: Snap): int
  {
    match s.lastAccessedAt case Some(t) => t case None => s.createdAt
  }

  function Epoch(epochs: map<FrameKey, nat>, k: FrameKey): nat
  {
    if k in epochs then epochs[k] else 0
  }

  predicate Has(store: seq<Snap>, id: nat)
  {
    exists i :: 0 <= i < |store| && store[i].id == id
  }

  ghost predicate DistinctIds(store: seq<Snap>)
  {
    forall i, j :: 0 <= i < j < |store| ==> store[i].id != store[j].id
  }

  /** What every operation keeps. */
  ghost predicate Valid(v: Session)
  {
    && DistinctIds(v.store)
    && |v.store| <= MAX_RETAINED
    && (v.latest.Some? ==> Has(v.store, v.latest.value))
    && forall s :: s in v.store ==> s.generation <= v.generation
  }

  // ---------------------------------------------------------------- pruning

  predicate Alive(s: Snap, generation: nat, cutoff: int)
  {
    s.generation == generation && AccessTime(s) >= cutoff
  }

  function Keep(store: seq<Snap>, generation: nat, cutoff: int): (r: seq<Snap>)
    ensures forall s :: s in r <==> s in store && Alive(s, generation, cutoff)
    ensures |r| <= |store|
  {
    if store == [] then []
    else
      var rest := Keep(store[..|store| - 1], generation, cutoff);
      var last := store[|store| - 1];
      assert store == store[..|store| - 1] + [last];
      if Alive(last, generation, cutoff) then rest + [last] else rest
  }

  lemma KeepNext(store: seq<Snap>, i: nat, generation: nat, cutoff: int)
    requires i < |store|
    ensures Keep(store[..i + 1], generation, cutoff) ==
            Keep(store[..i], generation, cutoff) + if Alive(store[i], generation, cutoff) then [store[i]] else []
  {
    assert store[..i + 1][..i] == store[..i];
  }

  lemma {:induction false} KeepDistinct(store: seq<Snap>, generation: nat, cutoff: int)
    requires DistinctIds(store)
    ensures DistinctIds(Keep(store, generation, cutoff))
  {
    if store != [] {
      var init, last := store[..|store| - 1], store[|store| - 1];
      KeepDistinct(init, generation, cutoff);
      forall s | s in Keep(init, generation, cutoff)
        ensures s.id != last.id
      {
        assert s in init;
      }
    }
  }

  /** A latest pointer that lost its snapshot falls back to the youngest retained one. */
  function Refresh(v: Session): Session
  {
    if v.latest.Some? && Has(v.store, v.latest.value) then v
    else v.(latest := if v.store == [] then None else Some(v.store[|v.store| - 1].id))
  }

  function Prune(v: Session, now: int): Session
  {
    Refresh(v.(store := Keep(v.store, v.generation, now - TTL_MS)))
  }

  lemma PruneKeepsValid(v: Session, now: int)
    requires Valid(v)
    ensures Valid(Prune(v, now))
    ensures forall s :: s in Prune(v, now).store <==>
                        s in v.store && s.generation == v.generation && AccessTime(s) >= now - TTL_MS
  {
    KeepDistinct(v.store, v.generation, now - TTL_MS);
  }

  // ---------------------------------------------------------------- storing

  /** Insertion into a JavaScript `Map`: an existing key keeps its position. */
  function Put(store: seq<Snap>, snap: Snap): (r: seq<Snap>)
    ensures Has(r, snap.id)
    ensures !Has(store, snap.id) ==> r == store + [snap]
  {
    if store == [] then
      assert [snap][0].id == snap.id;
      [snap]
    else if store[0].id == snap.id then
      var r := [snap] + store[1..];
      assert r[0].id == snap.id;
      r
    else
      var rest := Put(store[1..], snap);
      var i :| 0 <= i < |rest| && rest[i].id == snap.id;
      var r := [store[0]] + rest;
      assert r[i + 1].id == snap.id;
      assert !Has(store, snap.id) ==> !Has(store[1..], snap.id) by {
        if Has(store[1..], snap.id) {
          var j :| 0 <= j < |store[1..]| && store[1..][j].id == snap.id;
          assert store[j + 1].id == snap.id;
        }
      }
      r
  }

  /** The first of the least recently used snapshots. */
  function Oldest(store: seq<Snap>): (r: nat)
    requires store != []
    ensures r < |store|
    ensures forall i :: 0 <= i < |store| ==> AccessTime(store[r]) <= AccessTime(store[i])
    ensures forall i :: 0 <= i < r ==> AccessTime(store[r]) < AccessTime(store[i])
  {
    if |store| == 1 then 0
    else
      var init := store[..|store| - 1];
      var c := Oldest(init);
      assert forall i :: 0 <= i < |init| ==> init[i] == store[i];
      if AccessTime(store[|store| - 1]) < AccessTime(store[c]) then |store| - 1 else c
  }

  function RemoveAt(store: seq<Snap>, i: nat): seq<Snap>
    requires i < |store|
  {
    store[..i] + store[i + 1..]
  }

  function Evict(store: seq<Snap>): (r: seq<Snap>)
    ensures |r| <= MAX_RETAINED
    ensures |store| <= MAX_RETAINED ==> r == store
    decreases |store|
  {
    if |store| <= MAX_RETAINED then store else Evict(RemoveAt(store, Oldest(store)))
  }

  lemma EvictStep(store: seq<Snap>)
    requires |store| > MAX_RETAINED
    ensures Evict(store) == Evict(RemoveAt(store, Oldest(store)))
  {
  }

  /** `pruneNow` and `now` are the two clock readings of one call. */
  function Store(v: Session, snap: Snap, pruneNow: int, now: int): Session
  {
    var p := Prune(v, pruneNow);
    var stamped := snap.(lastAccessedAt := Some(now));
    Refresh(p.(store := Evict(Put(p.store, stamped)), latest := Some(snap.id)))
  }

  /**
   Admission of a new snapshot: with room left it is appended; otherwise the first least
   recently used snapshot gives way, and that is the new one itself exactly when its access
   time lies before every retained one.
   */
  function Admit(p: seq<Snap>, s: Snap): (r: seq<Snap>)
    requires |p| <= MAX_RETAINED
    ensures |r| <= MAX_RETAINED
  {
    if |p| < MAX_RETAINED then p + [s]
    else if Outlived(p, s) then p
    else RemoveAt(p, Oldest(p)) + [s]
  }

  /** The store is full of snapshots that were all used later than `s`. */
  predicate Outlived(p: seq<Snap>, s: Snap)
  {
    |p| == MAX_RETAINED && forall i :: 0 <= i < |p| ==> AccessTime(p[i]) > AccessTime(s)
  }

  lemma OldestOfExtended(p: seq<Snap>, s: Snap)
    requires |p| == MAX_RETAINED
    ensures Oldest(p + [s]) == if Outlived(p, s) then |p| else Oldest(p)
  {
    var full := p + [s];
    var r, c := Oldest(full), Oldest(p);
    assert forall i :: 0 <= i < |p| ==> full[i] == p[i];
    assert full[|p|] == s;
    assert Outlived(p, s) <==> AccessTime(s) < AccessTime(p[c]);
    assert AccessTime(full[r]) <= AccessTime(full[c]);
  }

  lemma RemoveFromExtended(p: seq<Snap>, s: Snap, c: nat)
    requires c < |p|
    ensures RemoveAt(p + [s], |p|) == p
    ensures RemoveAt(p + [s], c) == RemoveAt(p, c) + [s]
  {
  }

  lemma EvictOne(p: seq<Snap>, s: Snap)
    requires |p| <= MAX_RETAINED
    ensures Evict(p + [s]) == Admit(p, s)
  {
    if |p| == MAX_RETAINED {
      OldestOfExtended(p, s);
      RemoveFromExtended(p, s, Oldest(p));
    }
  }

  lemma AdmitKeepsDistinct(p: seq<Snap>, s: Snap)
    requires |p| <= MAX_RETAINED && DistinctIds(p) && !Has(p, s.id)
    ensures DistinctIds(Admit(p, s))
    ensures forall t :: t in Admit(p, s) ==> t in p || t == s
    ensures s in Admit(p, s) <==> !Outlived(p, s)
    ensures Has(Admit(p, s), s.id) <==> !Outlived(p, s)
  {
    var r := Admit(p, s);
    if !Outlived(p, s) {
      assert r[|r| - 1].id == s.id;
    }
  }

  lemma PruneForgetsNothingNew(v: Session, now: int, id: nat)
    requires !Has(v.store, id)
    ensures !Has(Prune(v, now).store, id)
  {
    var p := Prune(v, now).store;
    forall i | 0 <= i < |p|
      ensures p[i].id != id
    {
      assert p[i] in v.store;
    }
  }

  /** The eviction loop admits a fresh snapshot, and the latest pointer follows it if it stayed. */
  lemma StoreOutcome(v: Session, snap: Snap, pruneNow: int, now: int)
    requires Valid(v) && !Has(v.store, snap.id)
    ensures var p := Prune(v, pruneNow).store;
            var stamped := snap.(lastAccessedAt := Some(now));
            && |p| <= MAX_RETAINED
            && Store(v, snap, pruneNow, now) ==
               Session(v.generation, v.epochs, Admit(p, stamped),
                       Some(if Outlived(p, stamped) then p[MAX_RETAINED - 1].id else snap.id))
  {
    PruneKeepsValid(v, pruneNow);
    PruneForgetsNothingNew(v, pruneNow, snap.id);
    AdmitOutcome(Prune(v, pruneNow), snap.(lastAccessedAt := Some(now)));
  }

  lemma AdmitOutcome(v: Session, s: Snap)
    requires |v.store| <= MAX_RETAINED && DistinctIds(v.store) && !Has(v.store, s.id)
    ensures Refresh(v.(store := Evict(Put(v.store, s)), latest := Some(s.id))) ==
            Session(v.generation, v.epochs, Admit(v.store, s),
                    Some(if Outlived(v.store, s) then v.store[MAX_RETAINED - 1].id else s.id))
  {
    EvictOne(v.store, s);
    AdmitKeepsDistinct(v.store, s);
  }

  /** Storing keeps the store valid, bounded and free of expired or older-generation snapshots. */
  lemma StoreKeepsValid(v: Session, snap: Snap, pruneNow: int, now: int)
    requires Valid(v) && !Has(v.store, snap.id) && snap.generation <= v.generation
    ensures Valid(Store(v, snap, pruneNow, now))
    ensures var v' := Store(v, snap, pruneNow, now); v'.generation == v.generation && v'.epochs == v.epochs
    ensures forall s :: s in Store(v, snap, pruneNow, now).store ==>
                          || s == snap.(lastAccessedAt := Some(now))
                          || (s in v.store && s.generation == v.generation && AccessTime(s) >= pruneNow - TTL_MS)
  {
    var p := Prune(v, pruneNow).store;
    var stamped := snap.(lastAccessedAt := Some(now));
    PruneKeepsValid(v, pruneNow);
    PruneForgetsNothingNew(v, pruneNow, snap.id);
    StoreOutcome(v, snap, pruneNow, now);
    AdmitKeepsDistinct(p, stamped);
    if Outlived(p, stamped) {
      assert Admit(p, stamped) == p;
      assert Has(p, p[MAX_RETAINED - 1].id);
    }
  }

  /** With a clock that never runs backwards a stored snapshot is retained as the latest one. */
  lemma StoreRetainsLatest(v: Session, snap: Snap, pruneNow: int, now: int)
    requires Valid(v) && !Has(v.store, snap.id)
    requires forall s :: s in v.store ==> AccessTime(s) <= now
    ensures var v' := Store(v, snap, pruneNow, now);
            v'.latest == Some(snap.id) && snap.(lastAccessedAt := Some(now)) in v'.store
  {
    PruneKeepsValid(v, pruneNow);
    StoreOutcome(v, snap, pruneNow, now);
    var p := Prune(v, pruneNow).store;
    PruneForgetsNothingNew(v, pruneNow, snap.id);
    AdmitKeepsDistinct(p, snap.(lastAccessedAt := Some(now)));
    if |p| == MAX_RETAINED {
      assert p[0] in p;
    }
  }

  // ---------------------------------------------------------------- reading

  function IndexOfId(store: seq<Snap>, id: nat): (r: Option<nat>)
    ensures r.Some? <==> Has(store, id)
    ensures r.Some? ==> r.value < |store| && store[r.value].id == id
  {
    if store == [] then None
    else if store[0].id == id then Some(0)
    else
      match IndexOfId(store[1..], id)
      case Some(i) => (assert store[i + 1] == store[1..][i]; Some(i + 1))
      case None =>
        assert forall j :: 1 <= j < |store| ==> store[j] == store[1..][j - 1];
        None
  }

  function Touch(store: seq<Snap>, i: nat, now: int): seq<Snap>
    requires i < |store|
  {
    store[i := store[i].(lastAccessedAt := Some(now))]
  }

  /** The position of a snapshot that may still be continued. */
  function Continuable(v: Session, id: nat): (r: Option<nat>)
    ensures r.Some? ==> r.value < |v.store| && v.store[r.value].id == id
  {
    match IndexOfId(v.store, id)
    case None => None
    case Some(i) =>
      if v.store[i].generation != v.generation || v.store[i].invalidated then None else Some(i)
  }

  function Lookup(p: Session, id: nat, now: int): (Session, Option<nat>)
  {
    match Continuable(p, id)
    case None => (p, None)
    case Some(i) => (p.(store := Touch(p.store, i, now)), Some(i))
  }

  function Get(v: Session, id: nat, pruneNow: int, now: int): (Session, Option<nat>)
  {
    Lookup(Prune(v, pruneNow), id, now)
  }

  function FindRef(es: seq<Element>, ref: string): (r: Option<nat>)
    ensures r.Some? ==> r.value < |es| && es[r.value].ref == ref && forall i :: 0 <= i < r.value ==> es[i].ref != ref
    ensures r.None? ==> forall i :: 0 <= i < |es| ==> es[i].ref != ref
  {
    if es == [] then None
    else if es[0].ref == ref then Some(0)
    else match FindRef(es[1..], ref)
         case Some(i) => Some(i + 1)
         case None => None
  }

  predicate Owns(s: Snap, generation: nat, ref: string)
  {
    s.generation == generation && FindRef(s.cursor.elements, ref).Some?
  }

  /** The youngest snapshot of the current generation that lists the ref. */
  function Owner(store: seq<Snap>, generation: nat, ref: string): (r: Option<nat>)
    ensures r.Some? ==>
              && r.value < |store| && Owns(store[r.value], generation, ref)
              && forall i :: r.value < i < |store| ==> !Owns(store[i], generation, ref)
    ensures r.None? ==> forall i :: 0 <= i < |store| ==> !Owns(store[i], generation, ref)
  {
    if store == [] then None
    else if Owns(store[|store| - 1], generation, ref) then Some(|store| - 1)
    else Owner(store[..|store| - 1], generation, ref)
  }

  lemma OwnerIs(store: seq<Snap>, generation: nat, ref: string, i: nat)
    requires i < |store| && Owns(store[i], generation, ref)
    requires forall j :: i < j < |store| ==> !Owns(store[j], generation, ref)
    ensures Owner(store, generation, ref) == Some(i)
  {
    var owner := Owner(store, generation, ref);
    assert owner.Some? && owner.value >= i;
  }

  function ResolveIn(p: Session, ref: string, now: int): (Session, Option<(nat, Element)>)
  {
    match Owner(p.store, p.generation, ref)
    case None => (p, None)
    case Some(i) =>
      var es := p.store[i].cursor.elements;
      (p.(store := Touch(p.store, i, now)), Some((p.store[i].id, es[FindRef(es, ref).value])))
  }

  function Resolve(v: Session, ref: string, pruneNow: int, now: int): (Session, Option<(nat, Element)>)
  {
    ResolveIn(Prune(v, pruneNow), ref, now)
  }

  /** A live snapshot of the current generation makes its refs resolvable. */
  lemma AliveOwnerResolves(v: Session, s: Snap, ref: string, pruneNow: int, now: int)
    requires Valid(v) && s in v.store && Owns(s, v.generation, ref) && AccessTime(s) >= pruneNow - TTL_MS
    ensures Resolve(v, ref, pruneNow, now).1.Some?
  {
    var p := Prune(v, pruneNow);
    PruneKeepsValid(v, pruneNow);
    var i :| 0 <= i < |p.store| && p.store[i] == s;
    assert Owns(p.store[i], p.generation, ref);
  }

  lemma TouchKeepsValid(v: Session, i: nat, now: int)
    requires Valid(v) && i < |v.store|
    ensures Valid(v.(store := Touch(v.store, i, now)))
  {
    var t := Touch(v.store, i, now);
    if v.latest.Some? {
      var j :| 0 <= j < |v.store| && v.store[j].id == v.latest.value;
      assert t[j].id == v.latest.value;
    }
    forall s | s in t
      ensures s.generation <= v.generation
    {
      var j :| 0 <= j < |t| && t[j] == s;
      assert v.store[j] in v.store;
    }
  }

  // ---------------------------------------------------------------- invalidation

  function Strip(es: seq<Element>, identity: Identity): (r: seq<Element>)
    ensures |r| <= |es|
    ensures forall e :: e in r <==> e in es && !Matches(e.node, identity)
    ensures |r| == |es| <==> r == es
  {
    if es == [] then []
    else
      var rest := Strip(es[..|es| - 1], identity);
      var last := es[|es| - 1];
      assert es == es[..|es| - 1] + [last];
      if Matches(last.node, identity) then rest else rest + [last]
  }

  function StripSnap(s: Snap, identity: Identity): Snap
  {
    var retained := Strip(s.cursor.elements, identity);
    if |retained| == |s.cursor.elements| then s
    else s.(
         cursor := s.cursor.(elements := retained),
         invalidated := true,
         editable := match s.editable
                     case None => None
                     case Some(c) => Some(c.(elements := Strip(c.elements, identity))))
  }

  function Bump(epochs: map<FrameKey, nat>, keys: set<FrameKey>): (r: map<FrameKey, nat>)
    ensures forall k :: Epoch(r, k) == Epoch(epochs, k) + if k in keys then 1 else 0
  {
    map k | k in epochs.Keys + keys :: Epoch(epochs, k) + if k in keys then 1 else 0
  }

  function InvalidateFrame(v: Session, identity: Identity): Session
  {
    var keys := KeysOf(identity.frameId, identity.sessionId);
    if keys == {} then v
    else v.(
         epochs := Bump(v.epochs, keys),
         store := seq(|v.store|, i requires 0 <= i < |v.store| => StripSnap(v.store[i], identity)))
  }

  function Invalidate(v: Session): Session
  {
    Session(v.generation + 1, map[], [], None)
  }

  function InvalidateObservations(v: Session): Session
  {
    v.(store := seq(|v.store|, i requires 0 <= i < |v.store| => v.store[i].(invalidated := true)))
  }

  /** Rewriting snapshots in place without changing their identity keeps the store valid. */
  lemma RewriteKeepsValid(v: Session, v': Session)
    requires Valid(v)
    requires v'.generation == v.generation && v'.latest == v.latest && |v'.store| == |v.store|
    requires forall i :: 0 <= i < |v.store| ==>
                           v'.store[i].id == v.store[i].id && v'.store[i].generation == v.store[i].generation
    ensures Valid(v')
  {
    if v.latest.Some? {
      var j :| 0 <= j < |v.store| && v.store[j].id == v.latest.value;
      assert v'.store[j].id == v.latest.value;
    }
    forall s | s in v'.store
      ensures s.generation <= v'.generation
    {
      var j :| 0 <= j < |v'.store| && v'.store[j] == s;
      assert v.store[j] in v.store;
    }
  }
}

/**
 What the retained snapshots are good for, in times and contents: using one keeps it for another
 five minutes, unused ones expire, and the least recently used one of three gives way.
 */
module StoreLaws {
  import opened SnapshotModel
  import opened SnapshotStore
  import opened Wrappers

  // ---------------------------------------------------------------- lists of snapshots

  lemma {:induction false} KeepConcat(a: seq<Snap>, b: seq<Snap>, generation: nat, cutoff: int)
    ensures Keep(a + b, generation, cutoff) == Keep(a, generation, cutoff) + Keep(b, generation, cutoff)
    decreases |b|
  {
    if b == [] {
      assert a + b == a;
    } else {
      var all := a + b;
      assert all[..|all| - 1] == a + b[..|b| - 1];
      KeepConcat(a, b[..|b| - 1], generation, cutoff);
    }
  }

  lemma KeepOne(s: Snap, generation: nat, cutoff: int)
    requires Alive(s, generation, cutoff)
    ensures Keep([s], generation, cutoff) == [s]
  {
    assert [s][..0] == [];
  }

  lemma LaterDisown(all: seq<Snap>, a: seq<Snap>, s: Snap, b: seq<Snap>, generation: nat, ref: string)
    requires all == a + [s] + b && forall j :: 0 <= j < |b| ==> !Owns(b[j], generation, ref)
    ensures forall j :: |a| < j < |all| ==> !Owns(all[j], generation, ref)
  {
    forall j | |a| < j < |all|
      ensures !Owns(all[j], generation, ref)
    {
      assert all[j] == b[j - |a| - 1];
    }
  }

  /** The owner of a ref stays its owner while it is alive, whatever else expires. */
  lemma OwnerStays(a: seq<Snap>, s: Snap, b: seq<Snap>, generation: nat, cutoff: int, ref: string)
    requires Owns(s, generation, ref) && Alive(s, generation, cutoff)
    requires forall j :: 0 <= j < |b| ==> !Owns(b[j], generation, ref)
    ensures var kept := Keep(a + [s] + b, generation, cutoff);
            var owner := Owner(kept, generation, ref);
            owner.Some? && owner.value < |kept| && kept[owner.value] == s
  {
    KeepConcat(a + [s], b, generation, cutoff);
    KeepConcat(a, [s], generation, cutoff);
    KeepOne(s, generation, cutoff);
    var ka, kb := Keep(a, generation, cutoff), Keep(b, generation, cutoff);
    forall j | 0 <= j < |kb|
      ensures !Owns(kb[j], generation, ref)
    {
      assert kb[j] in b;
    }
    var kept := Keep(a + [s] + b, generation, cutoff);
    assert kept == ka + [s] + kb && kept[|ka|] == s;
    LaterDisown(kept, ka, s, kb, generation, ref);
    OwnerIs(kept, generation, ref, |ka|);
  }

  // ---------------------------------------------------------------- using a snapshot keeps it

  /**
   A ref that resolves, resolves to the same element for five minutes from then on: at every later
   pruning that is no more than 300000 milliseconds after the resolution, whatever else expires.
   */
  lemma ResolvingRefreshes(v: Session, ref: string, pruneNow: int, now: int, laterPrune: int, later: int)
    requires Resolve(v, ref, pruneNow, now).1.Some? && laterPrune <= now + 300_000
    ensures var (v', found) := Resolve(v, ref, pruneNow, now);
            Resolve(v', ref, laterPrune, later).1 == found
  {
    var p := Prune(v, pruneNow);
    var i := Owner(p.store, p.generation, ref).value;
    var touched := p.store[i].(lastAccessedAt := Some(now));
    var a, b := p.store[..i], p.store[i + 1..];
    assert Touch(p.store, i, now) == a + [touched] + b;
    assert forall j :: 0 <= j < |b| ==> b[j] == p.store[i + 1 + j];
    OwnerStays(a, touched, b, p.generation, laterPrune - TTL_MS, ref);
  }

  /** A snapshot that was continued can be continued for five minutes more. */
  lemma ContinuingRefreshes(v: Session, id: nat, pruneNow: int, now: int, laterPrune: int, later: int)
    requires Valid(v) && Get(v, id, pruneNow, now).1.Some? && laterPrune <= now + 300_000
    ensures Get(Get(v, id, pruneNow, now).0, id, laterPrune, later).1.Some?
  {
    var p := Prune(v, pruneNow);
    PruneKeepsValid(v, pruneNow);
    var i := Continuable(p, id).value;
    TouchKeepsValid(p, i, now);
    var v' := p.(store := Touch(p.store, i, now));
    var s := v'.store[i];
    assert s in v'.store && Alive(s, v'.generation, laterPrune - TTL_MS);
    StaysContinuable(v', s, laterPrune);
  }

  lemma StaysContinuable(v: Session, s: Snap, pruneNow: int)
    requires Valid(v) && s in v.store && Alive(s, v.generation, pruneNow - TTL_MS) && !s.invalidated
    ensures Continuable(Prune(v, pruneNow), s.id).Some?
  {
    var p := Prune(v, pruneNow);
    PruneKeepsValid(v, pruneNow);
    assert s in p.store;
    var i :| 0 <= i < |p.store| && p.store[i] == s;
    assert p.store[i].id == s.id;
    var found := IndexOfId(p.store, s.id);
    assert found.Some? && found.value == i;
  }

  // ---------------------------------------------------------------- expiry

  /** A ref all of whose snapshots were last used more than five minutes ago does not resolve. */
  lemma ExpiredDoNotResolve(v: Session, ref: string, pruneNow: int, now: int)
    requires forall s :: s in v.store && Owns(s, v.generation, ref) ==> AccessTime(s) < pruneNow - 300_000
    ensures Resolve(v, ref, pruneNow, now).1 == None
  {
    var p := Prune(v, pruneNow);
    forall i | 0 <= i < |p.store|
      ensures !Owns(p.store[i], p.generation, ref)
    {
      assert p.store[i] in p.store;
    }
  }

  // ---------------------------------------------------------------- eviction

  /**
   Storing drops nothing that has not expired, but that of three such snapshots one that was used no
   later than the others gives way. With a clock that does not run backwards the new one always stays.
   */
  lemma StoringDropsTheOldest(v: Session, snap: Snap, pruneNow: int, now: int, s: Snap)
    requires Valid(v) && !Has(v.store, snap.id)
    requires s in v.store && s.generation == v.generation && AccessTime(s) >= pruneNow - 300_000
    requires forall t :: t in v.store ==> AccessTime(t) <= now
    ensures var v' := Store(v, snap, pruneNow, now);
            var alive := Prune(v, pruneNow).store;
            && (s !in v'.store ==> |alive| == 3 && forall t :: t in alive ==> AccessTime(s) <= AccessTime(t))
            && snap.(lastAccessedAt := Some(now)) in v'.store && |v'.store| == if |alive| == 3 then 3 else |alive| + 1
  {
    var p := Prune(v, pruneNow).store;
    var stamped := snap.(lastAccessedAt := Some(now));
    PruneKeepsValid(v, pruneNow);
    PruneForgetsNothingNew(v, pruneNow, snap.id);
    StoreOutcome(v, snap, pruneNow, now);
    assert s in p;
    if |p| == MAX_RETAINED {
      assert p[0] in p;
      OnlyOldestGoes(p, stamped, s);
    }
  }

  lemma OnlyOldestGoes(p: seq<Snap>, stamped: Snap, s: Snap)
    requires p != [] && s in p
    ensures var r := RemoveAt(p, Oldest(p)) + [stamped];
            && stamped in r && |r| == |p|
            && (s !in r ==> forall t :: t in p ==> AccessTime(s) <= AccessTime(t))
  {
    var c := Oldest(p);
    var r := RemoveAt(p, c) + [stamped];
    assert r[|r| - 1] == stamped;
    var i :| 0 <= i < |p| && p[i] == s;
    if i != c {
      assert RemoveAt(p, c)[if i < c then i else i - 1] == s;
      assert r[if i < c then i else i - 1] == s;
    }
  }
}

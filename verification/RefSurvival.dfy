/**
 What protocol events leave alone, in terms of their fields: refs into documents that stay, running
 scans, and the record of what happened.
 */
module RefSurvival {
  import opened SnapshotModel
  import opened SnapshotStore
  import opened InspectProtocol
  import Nav = NavigationEvents
  import opened Wrappers

  // ---------------------------------------------------------------- resolving in a stripped store

  function StripAll(store: seq<Snap>, identity: Identity): (r: seq<Snap>)
    ensures |r| == |store| && forall i :: 0 <= i < |store| ==> r[i] == StripSnap(store[i], identity)
  {
    seq(|store|, i requires 0 <= i < |store| => StripSnap(store[i], identity))
  }

  lemma AliveStripped(s: Snap, identity: Identity, generation: nat, cutoff: int)
    ensures Alive(StripSnap(s, identity), generation, cutoff) <==> Alive(s, generation, cutoff)
  {
  }

  lemma KeepLast(store: seq<Snap>, last: Snap, generation: nat, cutoff: int)
    ensures Keep(store + [last], generation, cutoff) ==
            Keep(store, generation, cutoff) + if Alive(last, generation, cutoff) then [last] else []
  {
    assert (store + [last])[..|store|] == store;
  }

  lemma StripAllLast(store: seq<Snap>, last: Snap, identity: Identity)
    ensures StripAll(store + [last], identity) == StripAll(store, identity) + [StripSnap(last, identity)]
  {
  }

  lemma {:induction false} KeepStripped(store: seq<Snap>, identity: Identity, generation: nat, cutoff: int)
    ensures Keep(StripAll(store, identity), generation, cutoff) == StripAll(Keep(store, generation, cutoff), identity)
    decreases |store|
  {
    if store == [] {
      assert StripAll(store, identity) == [];
    } else {
      var init, last := store[..|store| - 1], store[|store| - 1];
      KeepStripped(init, identity, generation, cutoff);
      assert store == init + [last];
      StripAllLast(init, last, identity);
      AliveStripped(last, identity, generation, cutoff);
      KeepLast(init, last, generation, cutoff);
      KeepLast(StripAll(init, identity), StripSnap(last, identity), generation, cutoff);
      StripAllLast(Keep(init, generation, cutoff), last, identity);
    }
  }

  lemma {:induction false} StripSplits(es: seq<Element>, i: nat, identity: Identity)
    requires i < |es| && !Matches(es[i].node, identity)
    ensures Strip(es[..i], identity) + [es[i]] <= Strip(es, identity)
    decreases |es|
  {
    if i == |es| - 1 {
      assert es[..i] + [es[i]] == es;
    } else {
      StripSplits(es[..|es| - 1], i, identity);
      assert es[..|es| - 1][..i] == es[..i];
    }
  }

  lemma FirstIs(es: seq<Element>, ref: string, i: nat)
    requires i < |es| && es[i].ref == ref && forall j :: 0 <= j < i ==> es[j].ref != ref
    ensures FindRef(es, ref) == Some(i)
  {
  }

  lemma NoneLeft(es: seq<Element>, ref: string, identity: Identity)
    requires FindRef(es, ref).None?
    ensures FindRef(Strip(es, identity), ref).None?
  {
    var kept := Strip(es, identity);
    forall j | 0 <= j < |kept|
      ensures kept[j].ref != ref
    {
      assert kept[j] in es;
    }
  }

  lemma FirstStays(es: seq<Element>, ref: string, identity: Identity)
    requires FindRef(es, ref).Some? && !Matches(es[FindRef(es, ref).value].node, identity)
    ensures var kept := Strip(es, identity);
            FindRef(kept, ref).Some? && kept[FindRef(kept, ref).value] == es[FindRef(es, ref).value]
  {
    var i := FindRef(es, ref).value;
    var kept, before := Strip(es, identity), Strip(es[..i], identity);
    StripSplits(es, i, identity);
    assert kept[|before|] == (before + [es[i]])[|before|];
    forall j | 0 <= j < |before|
      ensures kept[j].ref != ref
    {
      assert kept[j] == (before + [es[i]])[j] && before[j] in es[..i];
    }
    FirstIs(kept, ref, |before|);
  }

  lemma StrippedElements(s: Snap, identity: Identity)
    ensures StripSnap(s, identity).cursor.elements == Strip(s.cursor.elements, identity)
    ensures StripSnap(s, identity).generation == s.generation && StripSnap(s, identity).id == s.id
  {
  }

  lemma DisownedStays(s: Snap, generation: nat, ref: string, identity: Identity)
    requires !Owns(s, generation, ref)
    ensures !Owns(StripSnap(s, identity), generation, ref)
  {
    StrippedElements(s, identity);
    if FindRef(s.cursor.elements, ref).None? {
      NoneLeft(s.cursor.elements, ref, identity);
    }
  }

  lemma OwnedStays(s: Snap, generation: nat, ref: string, identity: Identity)
    requires Owns(s, generation, ref)
    requires !Matches(s.cursor.elements[FindRef(s.cursor.elements, ref).value].node, identity)
    ensures Owns(StripSnap(s, identity), generation, ref)
    ensures var es, kept := s.cursor.elements, StripSnap(s, identity).cursor.elements;
            kept[FindRef(kept, ref).value] == es[FindRef(es, ref).value]
  {
    StrippedElements(s, identity);
    FirstStays(s.cursor.elements, ref, identity);
  }

  lemma OwnerStripped(store: seq<Snap>, generation: nat, ref: string, identity: Identity, i: nat)
    requires Owner(store, generation, ref) == Some(i)
    requires var es := store[i].cursor.elements; !Matches(es[FindRef(es, ref).value].node, identity)
    ensures Owner(StripAll(store, identity), generation, ref) == Some(i)
  {
    OwnedStays(store[i], generation, ref, identity);
    forall j | i < j < |store|
      ensures !Owns(StripSnap(store[j], identity), generation, ref)
    {
      DisownedStays(store[j], generation, ref, identity);
    }
    OwnerIs(StripAll(store, identity), generation, ref, i);
  }

  lemma PruneStripped(v: Session, identity: Identity, pruneNow: int)
    ensures Prune(InvalidateFrame(v, identity), pruneNow).store == StripAll(Prune(v, pruneNow).store, identity)
  {
    FrameStore(v, identity);
    assert InvalidateFrame(v, identity).store == StripAll(v.store, identity);
    KeepStripped(v.store, identity, v.generation, pruneNow - TTL_MS);
  }

  /** A frame event leaves the resolution of a ref to an element it does not match as it was. */
  lemma ResolveStripped(v: Session, identity: Identity, ref: string, pruneNow: int, now: int)
    requires var found := Resolve(v, ref, pruneNow, now).1; found.Some? && !Matches(found.value.1.node, identity)
    ensures Resolve(InvalidateFrame(v, identity), ref, pruneNow, now).1 == Resolve(v, ref, pruneNow, now).1
  {
    var p := Prune(v, pruneNow);
    PruneStripped(v, identity, pruneNow);
    var i := Owner(p.store, p.generation, ref).value;
    OwnerStripped(p.store, p.generation, ref, identity, i);
    OwnedStays(p.store[i], p.generation, ref, identity);
    StrippedElements(p.store[i], identity);
  }

  // ---------------------------------------------------------------- runs

  lemma EventSteps(w: World, event: Nav.TransportEvent, env: Nav.Env)
    ensures var w' := Apply(w, Transport(event, env));
            match Nav.EffectOf(event, env)
            case Ignored => w' == w
            case ReplacesMain => w' == MainReplaced(w)
            case ReplacesChild(identity) => w' == ChildReplaced(w, identity)
  {
  }

  /**
   After any run, a protocol event leaves every ref alone whose document does not go with it: it
   resolves to the same element of the same snapshot as it would have without the event.
   */
  lemma OtherDocumentsResolve(steps: seq<Step>, event: Nav.TransportEvent, env: Nav.Env, ref: string, pruneNow: int,
                              now: int)
    requires var found := Resolve(Run(INITIAL, steps).session, ref, pruneNow, now).1;
             found.Some? && !Nav.DocumentGoes(event, env, found.value.1.node)
    ensures var w := Run(INITIAL, steps);
            var w' := Run(INITIAL, steps + [Transport(event, env)]);
            Resolve(w'.session, ref, pruneNow, now).1 == Resolve(w.session, ref, pruneNow, now).1
  {
    RunAppend(INITIAL, steps, Transport(event, env));
    OthersResolve(Run(INITIAL, steps), event, env, ref, pruneNow, now);
  }

  lemma OthersResolve(w: World, event: Nav.TransportEvent, env: Nav.Env, ref: string, pruneNow: int, now: int)
    requires var found := Resolve(w.session, ref, pruneNow, now).1;
             found.Some? && !Nav.DocumentGoes(event, env, found.value.1.node)
    ensures Resolve(Apply(w, Transport(event, env)).session, ref, pruneNow, now).1 ==
            Resolve(w.session, ref, pruneNow, now).1
  {
    EventSteps(w, event, env);
    Nav.RevokedIffDocumentGoes(event, env, Resolve(w.session, ref, pruneNow, now).1.value.1.node);
    var effect := Nav.EffectOf(event, env);
    if effect.ReplacesChild? {
      ResolveStripped(w.session, effect.identity, ref, pruneNow, now);
    }
  }

  lemma RunAppend(w: World, steps: seq<Step>, step: Step)
    ensures Run(w, steps + [step]) == Apply(Run(w, steps), step)
  {
    assert (steps + [step])[..|steps|] == steps;
  }

  /** The history of `w'` is that of `w` and at most one entry, naming exactly the documents that go. */
  ghost predicate Recorded(w: World, event: Nav.TransportEvent, env: Nav.Env, w': World)
  {
    && w'.inspections == w.inspections && w'.issues == w.issues && w'.clock == w.clock
    && (if Nav.MainDocumentGoes(event, env) then
          && w'.history == w.history + [MainInvalidated]
          && w'.session == Session(w.session.generation + 1, map[], [], None)
        else
          && (w'.history == w.history || exists id :: w'.history == w.history + [FrameInvalidated(id)])
          && w'.session.generation == w.session.generation && |w'.session.store| == |w.session.store|
          && forall n: Node :: Untouched(w'.history, |w.history|, n) <==> !Nav.DocumentGoes(event, env, n))
  }

  lemma EventIsRecorded(w: World, event: Nav.TransportEvent, env: Nav.Env)
    ensures Recorded(w, event, env, Apply(w, Transport(event, env)))
  {
    EventSteps(w, event, env);
    Nav.MainIsReplacedIff(event, env);
    var effect := Nav.EffectOf(event, env);
    var w' := Apply(w, Transport(event, env));
    if !effect.ReplacesMain? {
      forall n: Node
        ensures Untouched(w'.history, |w.history|, n) <==> !Nav.DocumentGoes(event, env, n)
      {
        Nav.RevokedIffDocumentGoes(event, env, n);
        assert effect.ReplacesChild? ==> w'.history[|w.history|] == FrameInvalidated(effect.identity);
      }
    }
  }

  /**
   After any run, an event replaces the main document, or it leaves generation, number of snapshots
   and running scans as they are and the history names exactly the documents that went with it.
   */
  lemma EventsAreRecorded(steps: seq<Step>, event: Nav.TransportEvent, env: Nav.Env)
    ensures Recorded(Run(INITIAL, steps), event, env, Run(INITIAL, steps + [Transport(event, env)]))
  {
    RunAppend(INITIAL, steps, Transport(event, env));
    EventIsRecorded(Run(INITIAL, steps), event, env);
  }

  /**
   A scan that had begun before the event never publishes a node whose document went with it,
   whatever else happens before the scan is done.
   */
  lemma ScansForgetWhatWent(steps: seq<Step>, event: Nav.TransportEvent, env: Nav.Env, later: seq<Step>, task: nat,
                            n: Node)
    requires var w := Run(INITIAL, steps + [Transport(event, env)] + later);
             && task in w.inspections && w.inspections[task].phase.Updating?
             && w.inspections[task].generation == w.session.generation
             && w.inspections[task].mark <= |Run(INITIAL, steps).history|
             && n in CurrentNodes(w.inspections[task].phase.kept, w.inspections[task].baseline, w.session.epochs)
    ensures !Nav.DocumentGoes(event, env, n)
  {
    var w0, w1 := Run(INITIAL, steps), Run(INITIAL, steps + [Transport(event, env)]);
    var w := Run(INITIAL, steps + [Transport(event, env)] + later);
    RunKeeps(steps + [Transport(event, env)] + later);
    PublishedNodes(w, task);
    LiveIsUntouched(w.inspections[task].phase.scanned, w.history, w.inspections[task].mark);
    EventsAreRecorded(steps, event, env);
    HistoryIsKept(steps + [Transport(event, env)], later);
    assert forall i :: 0 <= i < |w1.history| ==> w.history[i] == w1.history[i];
    assert Untouched(w1.history, |w0.history|, n);
    var k := |w0.history|;
    assert |w1.history| > k ==> w.history[k] == w1.history[k];
  }

  lemma {:induction false} HistoryIsKept(steps: seq<Step>, later: seq<Step>)
    ensures Run(INITIAL, steps).history <= Run(INITIAL, steps + later).history
    decreases |later|
  {
    if later == [] {
      assert steps + later == steps;
    } else {
      var init := later[..|later| - 1];
      HistoryIsKept(steps, init);
      assert steps + later == steps + init + [later[|later| - 1]];
      RunAppend(INITIAL, steps + init, later[|later| - 1]);
      HistoryGrowsOnly(Run(INITIAL, steps + init), later[|later| - 1]);
    }
  }

  lemma HistoryGrowsOnly(w: World, step: Step)
    ensures w.history <= Apply(w, step).history
  {
  }
}

/** What each protocol event does to the network log, in the fields of the event and of the entries. */
module NetworkFields {
  import opened Listing
  import opened NetworkSpec
  import opened Wrappers

  ghost predicate Ascending(es: seq<EntryView>)
  {
    forall i, j :: 0 <= i < j < |es| ==> es[i].sequence < es[j].sequence
  }

  /** The `i`-th entry is the live one of the request. */
  ghost predicate IsLive(v: LogState, requestId: string, i: nat)
  {
    i < |v.entries| && requestId in v.live && v.live[requestId] == v.entries[i].sequence
  }

  /** Only the `i`-th entry has changed. */
  ghost predicate OnlyAt(v: LogState, v': LogState, i: nat)
  {
    && |v'.entries| == |v.entries| && v'.sequence == v.sequence && v'.mainFrameId == v.mainFrameId
    && forall j :: 0 <= j < |v.entries| && j != i ==> v'.entries[j] == v.entries[j]
  }

  /** An entry still tells which request it is about and when and by whom it was made. */
  predicate SameRequest(e: EntryView, e': EntryView)
  {
    && e'.requestId == e.requestId && e'.startedAt == e.startedAt && e'.loaderId == e.loaderId
    && e'.sequence == e.sequence && e'.request == e.request
  }

  /** What a response reports replaces what the entry knew; what it leaves out stays. */
  predicate TakesResponse(e: EntryView, response: Response, e': EntryView)
  {
    && e'.status == (if response.status.Some? then response.status else e.status)
    && e'.statusText == (if response.statusText != "" then response.statusText else e.statusText)
    && e'.mimeType == (if response.mimeType != "" then response.mimeType else e.mimeType)
  }

  /** Whole milliseconds from the start, rounded half up, and never negative. */
  predicate Lasted(e: EntryView, end: real, e': EntryView)
  {
    && e'.durationMs.Some? && e'.durationMs.value >= 0
    && var exact, ms := (end - e.startedAt) * 1000.0, e'.durationMs.value as real;
       if exact < 0.0 then ms == 0.0 else exact - 0.5 < ms <= exact + 0.5
  }

  lemma DurationRounds(start: real, end: real)
    ensures var exact, ms := (end - start) * 1000.0, DurationMs(start, end) as real;
            if exact < 0.0 then ms == 0.0 else exact - 0.5 < ms <= exact + 0.5
  {
  }

  lemma FindsLive(v: LogState, requestId: string, i: nat)
    requires Ascending(v.entries) && IsLive(v, requestId, i)
    ensures Find(v.entries, v.live[requestId]) == Some(i)
  {
    var found := Find(v.entries, v.live[requestId]);
    assert found.Some? && v.entries[found.value].sequence == v.entries[i].sequence;
  }

  /** Without a live entry a response or an end of loading changes nothing. */
  lemma UnknownRequestsAreIgnored(v: LogState, ev: Event)
    requires ev.ResponseReceived? || ev.LoadingFinished? || ev.LoadingFailed?
    requires forall i: nat :: !IsLive(v, ev.requestId, i)
    ensures Handle(v, ev) == v
  {
    if ev.requestId in v.live {
      var found := Find(v.entries, v.live[ev.requestId]);
      assert found.Some? ==> IsLive(v, ev.requestId, found.value);
    }
  }

  /** A response fills in the live entry: a status from 400 on is an error, and the kind is set once. */
  lemma ResponseInFields(v: LogState, ev: Event, i: nat)
    requires Ascending(v.entries) && ev.ResponseReceived? && IsLive(v, ev.requestId, i)
    ensures var v' := Handle(v, ev);
            && OnlyAt(v, v', i) && v'.live == v.live
            && var e, e' := v.entries[i], v'.entries[i];
               && SameRequest(e, e') && TakesResponse(e, ev.response, e')
               && e'.kind == (if e.kind == "other" then ev.kind else e.kind)
               && e'.outcome == (if e'.status.Some? && e'.status.value >= 400 then HttpError else e.outcome)
               && e'.failureReason == e.failureReason && e'.durationMs == e.durationMs
  {
    FindsLive(v, ev.requestId, i);
  }

  /** The end of loading: a pending entry succeeds, any other keeps its outcome, and the entry is live no more. */
  lemma FinishInFields(v: LogState, ev: Event, i: nat)
    requires Ascending(v.entries) && ev.LoadingFinished? && IsLive(v, ev.requestId, i)
    ensures var v' := Handle(v, ev);
            && OnlyAt(v, v', i) && v'.live == v.live - {ev.requestId}
            && var e, e' := v.entries[i], v'.entries[i];
               && SameRequest(e, e') && Lasted(e, if ev.ended.Some? then ev.ended.value else e.startedAt, e')
               && e'.outcome == (if e.outcome.Pending? then Success else e.outcome)
               && e'.kind == e.kind && e'.status == e.status && e'.statusText == e.statusText
               && e'.mimeType == e.mimeType && e'.failureReason == e.failureReason
  {
    FindsLive(v, ev.requestId, i);
    var e := v.entries[i];
    DurationRounds(e.startedAt, if ev.ended.Some? then ev.ended.value else e.startedAt);
  }

  /** A failure to load: the entry fails for the reason given, whatever it was, and is live no more. */
  lemma FailureInFields(v: LogState, ev: Event, i: nat)
    requires Ascending(v.entries) && ev.LoadingFailed? && IsLive(v, ev.requestId, i)
    ensures var v' := Handle(v, ev);
            && OnlyAt(v, v', i) && v'.live == v.live - {ev.requestId}
            && var e, e' := v.entries[i], v'.entries[i];
               && SameRequest(e, e') && Lasted(e, if ev.ended.Some? then ev.ended.value else e.startedAt, e')
               && e'.outcome == Failed && e'.failureReason == ev.reason
               && e'.kind == e.kind && e'.status == e.status && e'.statusText == e.statusText
               && e'.mimeType == e.mimeType
  {
    FindsLive(v, ev.requestId, i);
    var e := v.entries[i];
    DurationRounds(e.startedAt, if ev.ended.Some? then ev.ended.value else e.startedAt);
  }

  /** A request of the main frame is logged last, pending, under the next number; at 200 entries the oldest goes. */
  lemma RequestInFields(v: LogState, ev: Event)
    requires ev.RequestWillBeSent? && ev.redirect.None? && |v.entries| <= 200
    requires ev.requestId != "" && v.mainFrameId == Some(ev.frameId)
    ensures var v' := Handle(v, ev);
            && v'.sequence == v.sequence + 1 && v'.mainFrameId == v.mainFrameId
            && v'.entries ==
               (if |v.entries| < 200 then v.entries else v.entries[1..]) +
               [EntryView(ev.requestId, ev.timestamp, ev.loaderId, v.sequence + 1, ev.request, ev.request.kind,
                          Pending, None, "", "", "", None)]
            && ev.requestId in v'.live && v'.live[ev.requestId] == v.sequence + 1
  {
    var v' := Handle(v, ev);
    var all := v.entries + [NewEntry(ev, v.sequence + 1)];
    assert |v.entries| == 200 ==> all[1..] == v.entries[1..] + [NewEntry(ev, v.sequence + 1)];
    assert v'.entries[|v'.entries| - 1].sequence == v.sequence + 1;
  }

  /** A request of another frame, or without an id, is not logged. */
  lemma OtherFramesAreIgnored(v: LogState, ev: Event)
    requires ev.RequestWillBeSent? && (ev.requestId == "" || v.mainFrameId != Some(ev.frameId))
    ensures Handle(v, ev) == v
  {
  }

  /** A redirect closes the live entry of the request before it is logged again. */
  lemma RedirectInFields(v: LogState, ev: Event, i: nat)
    requires Ascending(v.entries) && ev.RequestWillBeSent? && ev.redirect.Some? && IsLive(v, ev.requestId, i)
    ensures var v' := Superseded(v, ev);
            && OnlyAt(v, v', i) && v'.live == v.live - {ev.requestId}
            && var e, e' := v.entries[i], v'.entries[i];
               && SameRequest(e, e') && TakesResponse(e, ev.redirect.value, e') && Lasted(e, ev.timestamp, e')
               && e'.outcome == Redirect && e'.kind == e.kind && e'.failureReason == e.failureReason
    ensures ev.requestId != "" && v.mainFrameId == Some(ev.frameId) ==>
              Handle(v, ev) == Handle(Superseded(v, ev), ev.(redirect := None))
  {
    FindsLive(v, ev.requestId, i);
    DurationRounds(v.entries[i].startedAt, ev.timestamp);
  }

  // ---------------------------------------------------------------- navigations and resets

  function LoadedRow(es: seq<EntryView>, loaderId: string): seq<Option<EntryView>>
  {
    seq(|es|, i requires 0 <= i < |es| => if es[i].loaderId == Some(loaderId) then Some(es[i]) else None)
  }

  lemma {:induction false} LoadedArePresent(es: seq<EntryView>, loaderId: string)
    ensures LoadedBy(es, Some(loaderId)) == Present(LoadedRow(es, loaderId))
  {
    if es != [] {
      LoadedArePresent(es[..|es| - 1], loaderId);
      assert LoadedRow(es, loaderId)[..|es| - 1] == LoadedRow(es[..|es| - 1], loaderId);
    }
  }

  /** A navigation keeps, in order, the entries that the new document's loader has requested, and their index. */
  lemma NavigationInFields(v: LogState, ev: Event)
    requires ev.MainFrameNavigated?
    ensures var v' := Handle(v, ev);
            && v'.mainFrameId == ev.newFrameId && v'.sequence == v.sequence
            && if ev.loaderId.None? || ev.loaderId.value == "" then v'.entries == [] && v'.live == map[]
               else
                 && IsListing([LoadedRow(v.entries, ev.loaderId.value)], v'.entries)
                 && forall id :: (id in v'.live <==> id in v.live && Logs(v'.entries, v.live[id]))
                                 && (id in v'.live ==> v'.live[id] == v.live[id])
  {
    if ev.loaderId.Some? && ev.loaderId.value != "" {
      var v' := Handle(v, ev);
      var rows := [LoadedRow(v.entries, ev.loaderId.value)];
      LoadedArePresent(v.entries, ev.loaderId.value);
      NothingListed(rows);
      RowListed(rows, 0, [], v'.entries);
      AllListed(rows, v'.entries);
    }
  }

  ghost predicate Logs(es: seq<EntryView>, sequence: nat)
  {
    exists i :: 0 <= i < |es| && es[i].sequence == sequence
  }

  /**
   A detached main frame, a recovered connection and a new transport empty the log; only the last
   restarts the numbers.
   */
  lemma ResetsInFields(v: LogState, ev: Event)
    requires ev.MainFrameDetached? || ev.ConnectionRecovered? || ev.TransportReplaced?
    ensures var v' := Handle(v, ev);
            && v'.entries == [] && v'.live == map[]
            && v'.sequence == (if ev.TransportReplaced? then 0 else v.sequence)
            && v'.mainFrameId == if ev.MainFrameDetached? then None else v.mainFrameId
  {
  }
}

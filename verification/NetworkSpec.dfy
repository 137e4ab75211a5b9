/**
 The network log on values: what each protocol event does to the logged entries and to the index of
 live requests, and which requests the log holds after a run.
 */
module NetworkSpec {
  import opened Wrappers

  const MAX_ENTRIES := 200

  datatype Outcome = Pending | Success | HttpError | Failed | Redirect

  /** Absent fields of the message keep the entry's old value. */
  datatype Response = Response(status: Option<int>, statusText: string, mimeType: string)

  datatype Request = Request(verb: string, url: string, kind: string, wallTime: int)

  datatype Event =
    | RequestWillBeSent(requestId: string, frameId: string, timestamp: real, loaderId: Option<string>,
                        request: Request, redirect: Option<Response>)
    | ResponseReceived(requestId: string, response: Response, kind: string)
    | LoadingFinished(requestId: string, ended: Option<real>)
    | LoadingFailed(requestId: string, reason: string, ended: Option<real>)
    | MainFrameNavigated(newFrameId: Option<string>, loaderId: Option<string>)
    | MainFrameDetached
    | ConnectionRecovered
    | TransportReplaced

  datatype EntryView = EntryView(
    requestId: string,
    startedAt: real,
    loaderId: Option<string>,
    sequence: nat,
    request: Request,
    kind: string,
    outcome: Outcome,
    status: Option<int>,
    statusText: string,
    mimeType: string,
    failureReason: string,
    durationMs: Option<int>)

  /** `live` files the sequence number of the live entry under its request id. */
  datatype LogState = LogState(
    entries: seq<EntryView>,
    live: map<string, nat>,
    sequence: nat,
    mainFrameId: Option<string>)

  // ---------------------------------------------------------------- one entry

  /** `Math.max(0, Math.round((end - start) * 1000))`. */
  function DurationMs(start: real, end: real): (ms: int)
    ensures ms >= 0
  {
    var ms := ((end - start) * 1000.0 + 0.5).Floor;
    if ms < 0 then 0 else ms
  }

  function NewEntry(ev: Event, sequence: nat): EntryView
    requires ev.RequestWillBeSent?
  {
    EntryView(ev.requestId, ev.timestamp, ev.loaderId, sequence, ev.request, ev.request.kind,
              Pending, None, "", "", "", None)
  }

  function WithResponse(e: EntryView, r: Response): EntryView
  {
    e.(status := if r.status.Some? then r.status else e.status,
       statusText := if r.statusText != "" then r.statusText else e.statusText,
       mimeType := if r.mimeType != "" then r.mimeType else e.mimeType)
  }

  function Closed(e: EntryView, outcome: Outcome, endedAt: real): EntryView
  {
    e.(outcome := outcome, durationMs := Some(DurationMs(e.startedAt, endedAt)))
  }

  function Redirected(e: EntryView, r: Response, at: real): EntryView
  {
    Closed(WithResponse(e, r), Redirect, at)
  }

  function Responded(e: EntryView, r: Response, kind: string): EntryView
  {
    var e' := WithResponse(e, r);
    e'.(outcome := if e'.status.Some? && e'.status.value >= 400 then HttpError else e'.outcome,
        kind := if e'.kind == "other" then kind else e'.kind)
  }

  function Ended(e: EntryView, ev: Event): EntryView
    requires ev.LoadingFinished? || ev.LoadingFailed?
  {
    var endedAt := if ev.ended.Some? then ev.ended.value else e.startedAt;
    if ev.LoadingFailed? then Closed(e.(failureReason := ev.reason), Failed, endedAt)
    else Closed(e, if e.outcome.Pending? then Success else e.outcome, endedAt)
  }

  /** What the event does to the live entry of its request, if it does anything. */
  function Effect(ev: Event): EntryView -> EntryView
  {
    match ev
    case RequestWillBeSent(_, _, timestamp, _, _, Some(response)) =>
      (e: EntryView) => Redirected(e, response, timestamp)
    case ResponseReceived(_, response, kind) => (e: EntryView) => Responded(e, response, kind)
    case LoadingFinished(_, _) => (e: EntryView) => Ended(e, ev)
    case LoadingFailed(_, _, _) => (e: EntryView) => Ended(e, ev)
    case _ => (e: EntryView) => e
  }

  // ---------------------------------------------------------------- the log

  /** The position of the entry with a sequence number. */
  function Find(es: seq<EntryView>, sequence: nat): (r: Option<nat>)
    ensures r.Some? ==> r.value < |es| && es[r.value].sequence == sequence
    ensures r.None? ==> forall i :: 0 <= i < |es| ==> es[i].sequence != sequence
  {
    if es == [] then None
    else if es[|es| - 1].sequence == sequence then Some(|es| - 1)
    else Find(es[..|es| - 1], sequence)
  }

  function Youngest(es: seq<EntryView>): (r: seq<EntryView>)
    ensures |r| <= MAX_ENTRIES && (|es| <= MAX_ENTRIES ==> r == es)
  {
    if |es| <= MAX_ENTRIES then es else es[|es| - MAX_ENTRIES..]
  }

  predicate IsLogged(es: seq<EntryView>, sequence: nat)
  {
    exists i :: 0 <= i < |es| && es[i].sequence == sequence
  }

  function Indexed(live: map<string, nat>, es: seq<EntryView>): map<string, nat>
  {
    map id | id in live && IsLogged(es, live[id]) :: live[id]
  }

  /** The oldest entries fall out of the log and, unless their id is used again, out of the index. */
  function Append(v: LogState, e: EntryView): LogState
  {
    var entries := Youngest(v.entries + [e]);
    v.(entries := entries, sequence := e.sequence, live := Indexed(v.live[e.requestId := e.sequence], entries))
  }

  /** The live entry of a request is replaced by `after`, which may take it out of the index. */
  function Change(v: LogState, requestId: string, after: EntryView -> EntryView, leaves: bool): LogState
  {
    if requestId !in v.live then v
    else match Find(v.entries, v.live[requestId])
         case None => v
         case Some(i) => v.(entries := v.entries[i := after(v.entries[i])],
                            live := if leaves then v.live - {requestId} else v.live)
  }

  function LoadedBy(es: seq<EntryView>, loaderId: Option<string>): seq<EntryView>
  {
    if es == [] then []
    else
      var rest := LoadedBy(es[..|es| - 1], loaderId);
      if es[|es| - 1].loaderId == loaderId then rest + [es[|es| - 1]] else rest
  }

  /** A navigation keeps what the new document's loader requested, if it has one. */
  function Navigated(v: LogState, loaderId: Option<string>): LogState
  {
    if loaderId.None? || loaderId.value == "" then v.(entries := [], live := map[])
    else
      var entries := LoadedBy(v.entries, loaderId);
      v.(entries := entries, live := Indexed(v.live, entries))
  }

  predicate IsLoggable(v: LogState, ev: Event)
  {
    IsSentBy(v.mainFrameId, ev)
  }

  predicate IsSentBy(frameId: Option<string>, ev: Event)
  {
    ev.RequestWillBeSent? && ev.requestId != "" && frameId == Some(ev.frameId)
  }

  /** A new entry is logged; a redirect response closes the live entry of the request before. */
  function Requested(v: LogState, ev: Event): LogState
    requires ev.RequestWillBeSent?
  {
    Append(Superseded(v, ev), NewEntry(ev, v.sequence + 1))
  }

  function Superseded(v: LogState, ev: Event): LogState
    requires ev.RequestWillBeSent?
  {
    if ev.redirect.None? then v else Change(v, ev.requestId, Effect(ev), true)
  }

  lemma NavigatedFrom(v: LogState, ev: Event, v': LogState)
    requires ev.MainFrameNavigated? && v' == Navigated(v, ev.loaderId).(mainFrameId := ev.newFrameId)
    ensures v' == Handle(v, ev)
  {
  }

  lemma RequestedFrom(v: LogState, ev: Event, superseded: LogState, v': LogState)
    requires ev.RequestWillBeSent? && superseded == Superseded(v, ev)
    requires v' == Append(superseded, NewEntry(ev, superseded.sequence + 1))
    ensures v' == Requested(v, ev)
  {
  }

  function Handle(v: LogState, ev: Event): LogState
  {
    match ev
    case RequestWillBeSent(_, _, _, _, _, _) => if IsLoggable(v, ev) then Requested(v, ev) else v
    case ResponseReceived(id, _, _) => Change(v, id, Effect(ev), false)
    case LoadingFinished(id, _) => Change(v, id, Effect(ev), true)
    case LoadingFailed(id, _, _) => Change(v, id, Effect(ev), true)
    case MainFrameNavigated(newFrameId, loaderId) => Navigated(v, loaderId).(mainFrameId := newFrameId)
    case MainFrameDetached => v.(entries := [], live := map[], mainFrameId := None)
    case ConnectionRecovered => v.(entries := [], live := map[])
    case TransportReplaced => v.(entries := [], live := map[], sequence := 0)
  }

  function HandleAll(v: LogState, events: seq<Event>): LogState
  {
    if events == [] then v else Handle(HandleAll(v, events[..|events| - 1]), events[|events| - 1])
  }

  // ---------------------------------------------------------------- which requests the log holds

  /** Sequence number and request id say which request an entry is about. */
  function Requests(es: seq<EntryView>): (r: seq<(nat, string)>)
    ensures |r| == |es|
  {
    seq(|es|, i requires 0 <= i < |es| => (es[i].sequence, es[i].requestId))
  }

  /** Events after which the log still holds what it held. */
  predicate Keeps(ev: Event)
  {
    ev.RequestWillBeSent? || ev.ResponseReceived? || ev.LoadingFinished? || ev.LoadingFailed?
  }

  /** The requests of a run that are logged, numbered from `sequence` on. */
  function Accepted(mainFrameId: Option<string>, events: seq<Event>, sequence: nat): seq<(nat, string)>
  {
    if events == [] then []
    else
      var before, ev := Accepted(mainFrameId, events[..|events| - 1], sequence), events[|events| - 1];
      if IsSentBy(mainFrameId, ev)
      then before + [(sequence + |before| + 1, ev.requestId)] else before
  }

  function YoungestOf(rs: seq<(nat, string)>): (r: seq<(nat, string)>)
  {
    if |rs| <= MAX_ENTRIES then rs else rs[|rs| - MAX_ENTRIES..]
  }

  lemma ChangeKeepsRequests(v: LogState, requestId: string, after: EntryView -> EntryView, leaves: bool)
    requires forall e :: after(e).sequence == e.sequence && after(e).requestId == e.requestId
    ensures var v' := Change(v, requestId, after, leaves);
            Requests(v'.entries) == Requests(v.entries) && v'.sequence == v.sequence && v'.mainFrameId == v.mainFrameId
  {
  }

  lemma AppendAddsRequest(v: LogState, e: EntryView)
    requires |v.entries| <= MAX_ENTRIES
    ensures Requests(Append(v, e).entries) == YoungestOf(Requests(v.entries) + [(e.sequence, e.requestId)])
  {
    var all := v.entries + [e];
    assert Requests(all) == Requests(v.entries) + [(e.sequence, e.requestId)];
    if |all| > MAX_ENTRIES {
      assert Requests(all[|all| - MAX_ENTRIES..]) == Requests(all)[|all| - MAX_ENTRIES..];
    }
  }

  lemma YoungestTwice(a: seq<(nat, string)>, b: seq<(nat, string)>, r: (nat, string))
    ensures YoungestOf(YoungestOf(a + b) + [r]) == YoungestOf(a + (b + [r]))
  {
    assert a + b + [r] == a + (b + [r]);
  }

  /** The log holds what it held at `v`, and `sent` since, as far as they are the youngest. */
  ghost predicate Holds(v: LogState, sent: seq<(nat, string)>, v': LogState)
  {
    && Requests(v'.entries) == YoungestOf(Requests(v.entries) + sent)
    && v'.sequence == v.sequence + |sent| && v'.mainFrameId == v.mainFrameId && |v'.entries| <= MAX_ENTRIES
  }

  /**
   Between navigations and resets the log holds exactly the youngest of the requests it held and
   of those the main frame has sent since, in order, whatever responses and redirects arrive.
   */
  lemma {:induction false} HeldRequests(v: LogState, events: seq<Event>)
    requires |v.entries| <= MAX_ENTRIES && forall i :: 0 <= i < |events| ==> Keeps(events[i])
    ensures Holds(v, Accepted(v.mainFrameId, events, v.sequence), HandleAll(v, events))
  {
    if events == [] {
      assert Requests(v.entries) + [] == Requests(v.entries);
    } else {
      var init, ev := events[..|events| - 1], events[|events| - 1];
      HeldRequests(v, init);
      assert events == init + [ev];
      HeldNext(v, init, ev);
    }
  }

  lemma HeldNext(v: LogState, events: seq<Event>, ev: Event)
    requires Keeps(ev) && Holds(v, Accepted(v.mainFrameId, events, v.sequence), HandleAll(v, events))
    ensures Holds(v, Accepted(v.mainFrameId, events + [ev], v.sequence), HandleAll(v, events + [ev]))
  {
    var before, sent := HandleAll(v, events), Accepted(v.mainFrameId, events, v.sequence);
    HandlesNext(v, events, ev);
    AcceptsNext(v.mainFrameId, events, ev, v.sequence);
    var sent', after := Accepted(v.mainFrameId, events + [ev], v.sequence), HandleAll(v, events + [ev]);
    OneHeld(before, ev, after);
    HoldsOneMore(v, sent, before, ev, sent', after);
  }

  lemma HandlesNext(v: LogState, events: seq<Event>, ev: Event)
    ensures HandleAll(v, events + [ev]) == Handle(HandleAll(v, events), ev)
  {
    assert (events + [ev])[..|events|] == events;
  }

  ghost predicate IsSentNext(mainFrameId: Option<string>, sequence: nat, sent: seq<(nat, string)>, ev: Event,
                             sent': seq<(nat, string)>)
  {
    sent' == if IsSentBy(mainFrameId, ev) then sent + [(sequence + |sent| + 1, ev.requestId)] else sent
  }

  lemma AcceptsNext(mainFrameId: Option<string>, events: seq<Event>, ev: Event, sequence: nat)
    ensures IsSentNext(mainFrameId, sequence, Accepted(mainFrameId, events, sequence), ev,
                       Accepted(mainFrameId, events + [ev], sequence))
  {
    assert (events + [ev])[..|events|] == events;
  }

  /** The requests the log holds after an event that keeps what it held. */
  ghost predicate HoldsNext(v: LogState, ev: Event, v': LogState)
  {
    var isNew := IsLoggable(v, ev);
    && v'.mainFrameId == v.mainFrameId && |v'.entries| <= MAX_ENTRIES
    && v'.sequence == v.sequence + (if isNew then 1 else 0)
    && Requests(v'.entries) ==
       if isNew then YoungestOf(Requests(v.entries) + [(v.sequence + 1, ev.requestId)]) else Requests(v.entries)
  }

  lemma HoldsOneMore(v: LogState, sent: seq<(nat, string)>, before: LogState, ev: Event, sent': seq<(nat, string)>,
                     after: LogState)
    requires Holds(v, sent, before) && HoldsNext(before, ev, after)
    requires IsSentNext(v.mainFrameId, v.sequence, sent, ev, sent')
    ensures Holds(v, sent', after)
  {
    if IsLoggable(before, ev) {
      YoungestTwice(Requests(v.entries), sent, (v.sequence + |sent| + 1, ev.requestId));
    }
  }

  lemma OneHeld(v: LogState, ev: Event, after: LogState)
    requires |v.entries| <= MAX_ENTRIES && Keeps(ev) && after == Handle(v, ev)
    ensures HoldsNext(v, ev, after)
  {
    match ev
    case RequestWillBeSent(id, _, _, _, _, redirect) =>
      if IsLoggable(v, ev) {
        ChangeKeepsRequests(v, id, Effect(ev), true);
        var v' := if redirect.None? then v else Change(v, id, Effect(ev), true);
        AppendAddsRequest(v', NewEntry(ev, v.sequence + 1));
      }
    case ResponseReceived(id, _, _) => ChangeKeepsRequests(v, id, Effect(ev), false);
    case LoadingFinished(id, _) => ChangeKeepsRequests(v, id, Effect(ev), true);
    case LoadingFailed(id, _, _) => ChangeKeepsRequests(v, id, Effect(ev), true);
  }
}

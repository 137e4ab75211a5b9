/**
 Network diagnostics: a bounded log of entries and an index of the requests that are still
 live. Both hold the same mutable entry objects, so a response updates the logged entry
 through the index. Each operation does to the abstract value of the log exactly what the
 corresponding function of `NetworkSpec` does.
 */
module NetworkLog {
  import opened NetworkSpec
  import opened Wrappers

  class Entry {
    const requestId: string
    const startedAt: real
    const loaderId: Option<string>
    const sequence: nat
    const request: Request
    var kind: string
    var outcome: Outcome
    var status: Option<int>
    var statusText: string
    var mimeType: string
    var failureReason: string
    var durationMs: Option<int>

    constructor (ev: Event, sequence: nat)
      requires ev.RequestWillBeSent?
      ensures View() == NewEntry(ev, sequence)
    {
      requestId, startedAt, loaderId := ev.requestId, ev.timestamp, ev.loaderId;
      this.sequence, request, kind := sequence, ev.request, ev.request.kind;
      outcome, status, statusText, mimeType, failureReason, durationMs := Pending, None, "", "", "", None;
    }

    function View(): EntryView
      reads this
    {
      EntryView(requestId, startedAt, loaderId, sequence, request, kind, outcome, status, statusText, mimeType,
                failureReason, durationMs)
    }

    method ApplyResponse(r: Response)
      modifies this`status, this`statusText, this`mimeType
      ensures View() == WithResponse(old(View()), r)
    {
      if r.status.Some? {
        status := r.status;
      }
      if r.statusText != "" {
        statusText := r.statusText;
      }
      if r.mimeType != "" {
        mimeType := r.mimeType;
      }
    }

    method Finish(result: Outcome, endedAt: real)
      modifies this`outcome, this`durationMs
      ensures View() == Closed(old(View()), result, endedAt)
    {
      outcome := result;
      durationMs := Some(DurationMs(startedAt, endedAt));
    }

    method CloseRedirected(response: Response, timestamp: real)
      modifies this
      ensures View() == Redirected(old(View()), response, timestamp)
    {
      ApplyResponse(response);
      Finish(Redirect, timestamp);
    }

    method Respond(response: Response, newKind: string)
      modifies this
      ensures View() == Responded(old(View()), response, newKind)
    {
      ApplyResponse(response);
      if status.Some? && status.value >= 400 {
        outcome := HttpError;
      }
      if kind == "other" {
        kind := newKind;
      }
    }

    method End(ev: Event)
      requires ev.LoadingFinished? || ev.LoadingFailed?
      modifies this
      ensures View() == Ended(old(View()), ev)
    {
      var endedAt := if ev.ended.Some? then ev.ended.value else startedAt;
      if ev.LoadingFailed? {
        failureReason := ev.reason;
        Finish(Failed, endedAt);
      } else {
        Finish(if outcome.Pending? then Success else outcome, endedAt);
      }
    }

  }

  function Views(es: seq<Entry>): (r: seq<EntryView>)
    reads es
    ensures |r| == |es| && forall i :: 0 <= i < |es| ==> r[i] == es[i].View()
  {
    seq(|es|, i requires 0 <= i < |es| reads es => es[i].View())
  }

  /** Strictly ascending sequence numbers, none above `last`. */
  ghost predicate Ascending(es: seq<Entry>, last: int)
  {
    es == [] || (var e := es[|es| - 1]; e.sequence <= last && Ascending(es[..|es| - 1], e.sequence - 1))
  }

  lemma {:induction false} AscendingMeans(es: seq<Entry>, last: int)
    requires Ascending(es, last)
    ensures forall i, j :: 0 <= i < j < |es| ==> es[i].sequence < es[j].sequence
    ensures forall i :: 0 <= i < |es| ==> es[i].sequence <= last
  {
    if es != [] {
      AscendingMeans(es[..|es| - 1], es[|es| - 1].sequence - 1);
    }
  }

  lemma {:induction false} AscendingIf(es: seq<Entry>, last: int)
    requires forall i, j :: 0 <= i < j < |es| ==> es[i].sequence < es[j].sequence
    requires forall i :: 0 <= i < |es| ==> es[i].sequence <= last
    ensures Ascending(es, last)
  {
    if es != [] {
      AscendingIf(es[..|es| - 1], es[|es| - 1].sequence - 1);
    }
  }

  lemma AppendKeepsOrder(es: seq<Entry>, entry: Entry, last: int)
    requires Ascending(es, last) && entry.sequence == last + 1
    ensures Ascending(es + [entry], entry.sequence) && entry !in es
  {
    assert (es + [entry])[..|es|] == es;
    AscendingMeans(es, last);
  }

  lemma SuffixKeepsOrder(es: seq<Entry>, last: int, cut: nat)
    requires Ascending(es, last) && cut <= |es|
    ensures Ascending(es[cut..], last)
  {
    AscendingMeans(es, last);
    AscendingIf(es[cut..], last);
  }

  /** In a sorted log an entry is in the older part exactly when its number is not in the younger one. */
  lemma OldIffNotLogged(es: seq<Entry>, last: int, cut: nat, e: Entry)
    requires Ascending(es, last) && cut <= |es| && e in es
    ensures e in es[cut..] <==> e !in es[..cut]
    ensures e in es[cut..] <==> IsLogged(Views(es[cut..]), e.sequence)
  {
    AscendingMeans(es, last);
    var i :| 0 <= i < |es| && es[i] == e;
    if i >= cut {
      assert es[cut..][i - cut] == e && Views(es[cut..])[i - cut].sequence == e.sequence;
      forall j | 0 <= j < cut
        ensures es[..cut][j] != e
      {
        assert es[j].sequence < es[i].sequence;
      }
    } else {
      assert es[..cut][i] == e;
      forall j | 0 <= j < |es| - cut
        ensures es[cut..][j].sequence > e.sequence
      {
        assert es[cut..][j] == es[cut + j];
      }
    }
  }

  /** Numbers are unique, so an object of a sorted log is in a part of it exactly when its number is. */
  lemma LoggedObject(before: seq<Entry>, last: int, after: seq<Entry>, e: Entry)
    requires Ascending(before, last) && e in before && forall i :: 0 <= i < |after| ==> after[i] in before
    ensures e in after <==> IsLogged(Views(after), e.sequence)
  {
    AscendingMeans(before, last);
    if e in after {
      var i :| 0 <= i < |after| && after[i] == e;
      assert Views(after)[i].sequence == e.sequence;
    }
    if i :| 0 <= i < |after| && Views(after)[i].sequence == e.sequence {
      var j :| 0 <= j < |before| && before[j] == after[i];
      var k :| 0 <= k < |before| && before[k] == e;
      assert j == k;
    }
  }

  /** The live requests whose entries are still logged. */
  function LiveIn(live: map<string, Entry>, es: seq<EntryView>): map<string, Entry>
  {
    map id | id in live && IsLogged(es, live[id].sequence) :: live[id]
  }

  /** The abstract index. */
  function Numbers(live: map<string, Entry>): map<string, nat>
  {
    map id | id in live :: live[id].sequence
  }

  class NetworkDiagnostics {
    var log: seq<Entry>
    var live: map<string, Entry>
    var sequence: nat
    var mainFrameId: Option<string>

    /**
     The log is bounded and strictly ordered; every live request is a logged, unfinished entry
     filed under its own id.
     */
    ghost predicate Valid()
      reads this, log
    {
      |log| <= MAX_ENTRIES && Ascending(log, sequence) && Indexes(log)
    }

    ghost predicate Indexes(es: seq<Entry>)
      reads this, es
    {
      forall id :: id in live ==> live[id] in es && live[id].requestId == id && live[id].durationMs.None?
    }

    ghost function View(): LogState
      reads this, log
    {
      LogState(Views(log), Numbers(live), sequence, mainFrameId)
    }

    /** Entries whose duration was set are as they were. */
    twostate predicate FinishedStay(es: seq<Entry>)
      reads es
    {
      forall i :: 0 <= i < |es| && old(es[i].durationMs.Some?) ==> es[i].View() == old(es[i].View())
    }

    constructor ()
      ensures Valid() && View() == LogState([], map[], 0, None)
    {
      log, live, sequence, mainFrameId := [], map[], 0, None;
    }

    /** Take removed entries out of the index, unless their id meanwhile belongs to a newer request. */
    method DropFromIndex(removed: seq<Entry>)
      requires forall id :: id in live ==> live[id].requestId == id
      modifies this`live
      ensures live == map id | id in old(live) && old(live)[id] !in removed :: old(live)[id]
    {
      for i := 0 to |removed|
        invariant live == map id | id in old(live) && old(live)[id] !in removed[..i] :: old(live)[id]
      {
        var candidate := removed[i];
        assert removed[..i + 1] == removed[..i] + [candidate];
        if candidate.requestId in live && live[candidate.requestId] == candidate {
          live := live - {candidate.requestId};
        }
      }
      assert removed[..|removed|] == removed;
    }

    /** Append an entry; the oldest entries fall out of the log and out of the index. */
    method AppendNetworkDiagnostic(entry: Entry)
      requires Ascending(log + [entry], entry.sequence) && |log| <= MAX_ENTRIES && Indexes(log + [entry])
      modifies this`log, this`live, this`sequence
      ensures Valid() && sequence == entry.sequence
      ensures log == YoungestObjects(old(log) + [entry])
      ensures live == LiveIn(old(live), Views(log))
    {
      sequence := entry.sequence;
      log := log + [entry];
      if |log| <= MAX_ENTRIES {
        AllLogged(log, sequence, live);
        return;
      }
      DropOldest();
    }

    method DropOldest()
      requires |log| > MAX_ENTRIES && Ascending(log, sequence) && Indexes(log)
      modifies this`log, this`live
      ensures Valid() && log == YoungestObjects(old(log))
      ensures live == LiveIn(old(live), Views(log))
    {
      var cut := |log| - MAX_ENTRIES;
      SuffixKeepsOrder(log, sequence, cut);
      YoungerAreIndexed(log, sequence, cut, live);
      var removed := log[..cut];
      log := log[cut..];
      DropFromIndex(removed);
    }

    method OnRequest(ev: Event)
      requires Valid() && ev.RequestWillBeSent?
      modifies this, log
      ensures Valid() && View() == Handle(old(View()), ev)
      ensures FinishedStay(old(log))
      ensures forall i :: 0 <= i < |log| ==> log[i] in old(log) || fresh(log[i])
    {
      if ev.requestId != "" && mainFrameId == Some(ev.frameId) {
        LogRequest(ev);
      }
    }

    method LogRequest(ev: Event)
      requires Valid() && ev.RequestWillBeSent?
      modifies this`live, this`log, this`sequence, log
      ensures Valid() && View() == Requested(old(View()), ev)
      ensures FinishedStay(old(log))
      ensures forall i :: 0 <= i < |log| ==> log[i] in old(log) || fresh(log[i])
    {
      ghost var v := View();
      CloseEarlier(ev);
      ghost var closed := View();
      Register(ev, closed);
      RequestedFrom(v, ev, closed, View());
    }

    /** A redirected request that is still live is closed first. */
    method CloseEarlier(ev: Event)
      requires Valid() && ev.RequestWillBeSent?
      modifies this`live, log
      ensures Valid() && View() == Superseded(old(View()), ev)
      ensures FinishedStay(log)
    {
      if ev.redirect.Some? && ev.requestId in live {
        ghost var v := View();
        ghost var i := PositionOf(ev.requestId);
        CloseLive(ev.requestId, ev.redirect.value, ev.timestamp);
        OneChanged(v.entries, log, i);
        ChangeAt(v, ev.requestId, i, Effect(ev), true);
      }
    }

    method CloseLive(requestId: string, response: Response, timestamp: real)
      requires Valid() && requestId in live
      modifies this`live, live[requestId]
      ensures Valid() && Numbers(live) == old(Numbers(live)) - {requestId} && FinishedStay(log)
      ensures old(live)[requestId].View() == Redirected(old(live[requestId].View()), response, timestamp)
    {
      live[requestId].CloseRedirected(response, timestamp);
      live := live - {requestId};
    }

    method EndLive(requestId: string, ev: Event)
      requires Valid() && requestId in live && (ev.LoadingFinished? || ev.LoadingFailed?)
      modifies this`live, live[requestId]
      ensures Valid() && Numbers(live) == old(Numbers(live)) - {requestId} && FinishedStay(log)
      ensures old(live)[requestId].View() == Ended(old(live[requestId].View()), ev)
    {
      live[requestId].End(ev);
      live := live - {requestId};
    }

    method RespondLive(requestId: string, response: Response, kind: string)
      requires Valid() && requestId in live
      modifies live[requestId]
      ensures Valid() && FinishedStay(log)
      ensures live[requestId].View() == Responded(old(live[requestId].View()), response, kind)
    {
      live[requestId].Respond(response, kind);
    }

    method Register(ev: Event, ghost v: LogState)
      requires Valid() && ev.RequestWillBeSent? && v == View()
      modifies this`live, this`log, this`sequence
      ensures Valid() && View() == Append(v, NewEntry(ev, v.sequence + 1))
      ensures forall i :: 0 <= i < |log| ==> log[i] in old(log) || fresh(log[i])
    {
      var entry := new Entry(ev, sequence + 1);
      AppendIndexed(entry);
    }

    method AppendIndexed(entry: Entry)
      requires Valid() && entry.sequence == sequence + 1 && entry.durationMs.None?
      modifies this`live, this`log, this`sequence
      ensures Valid() && sequence == entry.sequence
      ensures Views(log) == Youngest(old(Views(log)) + [entry.View()])
      ensures Numbers(live) == Indexed(old(Numbers(live))[entry.requestId := entry.sequence], Views(log))
      ensures forall i :: 0 <= i < |log| ==> log[i] in old(log) || log[i] == entry
    {
      ghost var was, views := log, Views(log);
      IndexEntry(entry);
      ghost var indexed := live;
      AppendKeepsOrder(log, entry, sequence);
      AppendNetworkDiagnostic(entry);
      assert Views(was) == views;
      AppendView(was, entry);
      NumbersOf(indexed, Views(log));
    }

    method IndexEntry(entry: Entry)
      requires Indexes(log) && entry.durationMs.None?
      modifies this`live
      ensures Indexes(log + [entry]) && entry.requestId in live && live[entry.requestId] == entry
      ensures Numbers(live) == old(Numbers(live))[entry.requestId := entry.sequence]
    {
      live := live[entry.requestId := entry];
    }

    method OnResponse(ev: Event)
      requires Valid() && ev.ResponseReceived?
      modifies log
      ensures Valid() && View() == Handle(old(View()), ev)
      ensures FinishedStay(log)
    {
      if ev.requestId in live {
        ghost var v := View();
        ghost var i := PositionOf(ev.requestId);
        RespondLive(ev.requestId, ev.response, ev.kind);
        OneChanged(v.entries, log, i);
        ChangeAt(v, ev.requestId, i, Effect(ev), false);
      }
    }

    /** A finished or failed request leaves the index; its entry stays in the log, closed for good. */
    method OnEnd(ev: Event)
      requires Valid() && (ev.LoadingFinished? || ev.LoadingFailed?)
      modifies this`live, log
      ensures Valid() && View() == Handle(old(View()), ev)
      ensures FinishedStay(log)
    {
      if ev.requestId in live {
        EndLogged(ev.requestId, ev);
      }
    }

    method EndLogged(requestId: string, ev: Event)
      requires Valid() && requestId in live && (ev.LoadingFinished? || ev.LoadingFailed?)
      modifies this`live, log
      ensures Valid() && View() == Change(old(View()), requestId, Effect(ev), true)
      ensures FinishedStay(log)
    {
      ghost var v := View();
      ghost var i := PositionOf(requestId);
      EndLive(requestId, ev);
      OneChanged(v.entries, log, i);
      ChangeAt(v, requestId, i, Effect(ev), true);
    }

    /** The one position of a live entry in the log. */
    lemma PositionOf(requestId: string) returns (i: nat)
      requires Valid() && requestId in live
      ensures i < |log| && log[i] == live[requestId]
      ensures forall j :: 0 <= j < |log| && j != i ==> log[j] != live[requestId]
      ensures Find(Views(log), live[requestId].sequence) == Some(i)
    {
      i := UniquePosition(log, sequence, live[requestId]);
    }

    method Reset(resetSequence: bool)
      modifies this`log, this`live, this`sequence
      ensures Valid()
      ensures View() == old(View()).(entries := [], live := map[],
                                     sequence := if resetSequence then 0 else old(sequence))
    {
      if resetSequence {
        sequence := 0;
      }
      log, live := [], map[];
    }

    /** A main-frame navigation keeps only what the new document's loader requested. */
    method ResetForNavigation(loaderId: Option<string>)
      requires Valid()
      modifies this`log, this`live, this`sequence
      ensures Valid() && View() == Navigated(old(View()), loaderId)
      ensures forall i :: 0 <= i < |log| ==> log[i] in old(log)
    {
      if loaderId.None? || loaderId.value == "" {
        Reset(false);
        return;
      }
      ghost var v, was, indexed := View(), log, live;
      KeepLoaded(loaderId);
      assert Views(was) == v.entries;
      LoadedMembers(was, loaderId);
      LoadedViews(was, loaderId);
      LoadedNumbers(was, sequence, loaderId, indexed);
    }

    method KeepLoaded(loaderId: Option<string>)
      requires Valid()
      modifies this`log, this`live
      ensures Valid() && log == LoadedObjects(old(log), loaderId)
      ensures live == map id | id in old(live) && old(live)[id].loaderId == loaderId :: old(live)[id]
    {
      LoadedMembers(log, loaderId);
      LoadedAscending(log, loaderId, sequence);
      log := LoadedObjects(log, loaderId);
      live := map id | id in live && live[id].loaderId == loaderId :: live[id];
    }

    method OnNavigation(ev: Event)
      requires Valid() && ev.MainFrameNavigated?
      modifies this
      ensures Valid() && View() == Handle(old(View()), ev)
      ensures forall i :: 0 <= i < |log| ==> log[i] in old(log)
    {
      ghost var v := View();
      ResetForNavigation(ev.loaderId);
      SetMainFrame(ev.newFrameId, View());
      NavigatedFrom(v, ev, View());
    }

    method SetMainFrame(frameId: Option<string>, ghost v: LogState)
      requires Valid() && v == View()
      modifies this`mainFrameId
      ensures Valid() && View() == v.(mainFrameId := frameId)
    {
      mainFrameId := frameId;
    }

    method OnDetached(ev: Event)
      requires Valid() && ev.MainFrameDetached?
      modifies this
      ensures Valid() && View() == Handle(old(View()), ev) && log == []
    {
      Reset(false);
      mainFrameId := None;
    }

    /** One event of any kind. Entries whose duration is set are never touched again. */
    method HandleEvent(ev: Event)
      requires Valid()
      modifies this, log
      ensures Valid() && View() == Handle(old(View()), ev)
      ensures FinishedStay(old(log))
      ensures forall i :: 0 <= i < |log| ==> log[i] in old(log) || fresh(log[i])
    {
      match ev
      case RequestWillBeSent(_, _, _, _, _, _) => OnRequest(ev);
      case ResponseReceived(_, _, _) => OnResponse(ev);
      case LoadingFinished(_, _) => OnEnd(ev);
      case LoadingFailed(_, _, _) => OnEnd(ev);
      case MainFrameNavigated(_, _) => OnNavigation(ev);
      case MainFrameDetached => OnDetached(ev);
      case ConnectionRecovered => Reset(false);
      case TransportReplaced => Reset(true);
    }

    /**
     Any sequence of events from any valid state: the log is what the specification says, the
     bounds, the order and the agreement of index and log hold, and every entry that was finished
     before is still as it was.
     */
    method HandleEvents(events: seq<Event>)
      requires Valid()
      modifies this, log
      ensures Valid() && View() == HandleAll(old(View()), events)
      ensures FinishedStay(old(log))
    {
      for i := 0 to |events|
        invariant Valid() && View() == HandleAll(old(View()), events[..i])
        invariant FinishedStay(old(log))
        invariant forall k :: 0 <= k < |log| ==> log[k] in old(log) || fresh(log[k])
      {
        assert events[..i + 1][..i] == events[..i];
        HandleEvent(events[i]);
      }
      assert events[..|events|] == events;
    }
  }

  lemma UniquePosition(es: seq<Entry>, last: int, e: Entry) returns (i: nat)
    requires Ascending(es, last) && e in es
    ensures i < |es| && es[i] == e && forall j :: 0 <= j < |es| && j != i ==> es[j] != e
    ensures Find(Views(es), e.sequence) == Some(i)
  {
    i :| 0 <= i < |es| && es[i] == e;
    AscendingMeans(es, last);
    assert Views(es)[i].sequence == e.sequence;
  }

  lemma OneChanged(before: seq<EntryView>, es: seq<Entry>, i: nat)
    requires |before| == |es| && i < |es|
    requires forall j :: 0 <= j < |es| && j != i ==> es[j].View() == before[j]
    ensures Views(es) == before[i := es[i].View()]
  {
  }

  /** The change of a live entry, found at its position. */
  lemma ChangeAt(v: LogState, requestId: string, i: nat, after: EntryView -> EntryView, leaves: bool)
    requires requestId in v.live && i < |v.entries| && Find(v.entries, v.live[requestId]) == Some(i)
    ensures Change(v, requestId, after, leaves) ==
            v.(entries := v.entries[i := after(v.entries[i])], live := if leaves then v.live - {requestId} else v.live)
  {
  }

  lemma AllLogged(es: seq<Entry>, last: int, live: map<string, Entry>)
    requires Ascending(es, last) && forall id :: id in live ==> live[id] in es
    ensures live == LiveIn(live, Views(es))
  {
    forall id | id in live
      ensures IsLogged(Views(es), live[id].sequence)
    {
      OldIffNotLogged(es, last, 0, live[id]);
      assert es[0..] == es;
    }
  }

  function YoungestObjects(es: seq<Entry>): (r: seq<Entry>)
  {
    if |es| <= MAX_ENTRIES then es else es[|es| - MAX_ENTRIES..]
  }

  lemma AppendView(es: seq<Entry>, e: Entry)
    ensures Views(YoungestObjects(es + [e])) == Youngest(Views(es) + [e.View()])
    ensures forall i :: 0 <= i < |YoungestObjects(es + [e])| ==>
                          YoungestObjects(es + [e])[i] in es || YoungestObjects(es + [e])[i] == e
  {
    var all := es + [e];
    assert Views(all) == Views(es) + [e.View()];
    var r := YoungestObjects(all);
    assert forall i :: 0 <= i < |r| ==> r[i] == all[|all| - |r| + i];
  }

  lemma LoadedNumbers(es: seq<Entry>, last: int, loaderId: Option<string>, live: map<string, Entry>)
    requires Ascending(es, last) && forall id :: id in live ==> live[id] in es
    ensures var kept, l := Views(LoadedObjects(es, loaderId)), Numbers(live);
            Numbers(map id | id in live && live[id].loaderId == loaderId :: live[id]) == Indexed(l, kept)
  {
    LoadedMembers(es, loaderId);
    forall id | id in live
      ensures live[id].loaderId == loaderId <==> IsLogged(Views(LoadedObjects(es, loaderId)), live[id].sequence)
    {
      LoggedObject(es, last, LoadedObjects(es, loaderId), live[id]);
    }
  }

  lemma NumbersOf(live: map<string, Entry>, es: seq<EntryView>)
    ensures Numbers(LiveIn(live, es)) == Indexed(Numbers(live), es)
  {
  }

  lemma YoungerAreIndexed(es: seq<Entry>, last: int, cut: nat, live: map<string, Entry>)
    requires Ascending(es, last) && cut <= |es| && forall id :: id in live ==> live[id] in es
    ensures var younger := map id | id in live && live[id] !in es[..cut] :: live[id];
            && younger == LiveIn(live, Views(es[cut..]))
            && forall id :: id in younger ==> younger[id] in es[cut..]
  {
    YoungerAreLive(es, last, cut, live);
  }

  lemma YoungerAreLive(es: seq<Entry>, last: int, cut: nat, live: map<string, Entry>)
    requires Ascending(es, last) && cut <= |es| && forall id :: id in live ==> live[id] in es
    ensures forall id :: id in live ==> (live[id] in es[cut..] <==> live[id] !in es[..cut])
    ensures forall id :: id in live ==> (live[id] in es[cut..] <==> IsLogged(Views(es[cut..]), live[id].sequence))
  {
    forall id | id in live
      ensures live[id] in es[cut..] <==> live[id] !in es[..cut]
      ensures live[id] in es[cut..] <==> IsLogged(Views(es[cut..]), live[id].sequence)
    {
      OldIffNotLogged(es, last, cut, live[id]);
    }
  }

  function LoadedObjects(es: seq<Entry>, loaderId: Option<string>): seq<Entry>
  {
    if es == [] then []
    else
      var rest := LoadedObjects(es[..|es| - 1], loaderId);
      if es[|es| - 1].loaderId == loaderId then rest + [es[|es| - 1]] else rest
  }

  lemma {:induction false} LoadedMembers(es: seq<Entry>, loaderId: Option<string>)
    ensures var r := LoadedObjects(es, loaderId);
            && |r| <= |es| && (forall i :: 0 <= i < |r| ==> r[i] in es && r[i].loaderId == loaderId)
            && (forall i :: 0 <= i < |es| && es[i].loaderId == loaderId ==> es[i] in r)
  {
    if es != [] {
      var init, rest := es[..|es| - 1], LoadedObjects(es[..|es| - 1], loaderId);
      LoadedMembers(init, loaderId);
      forall i | 0 <= i < |rest|
        ensures rest[i] in es
      {
        assert rest[i] in init;
      }
      forall i | 0 <= i < |init| && es[i].loaderId == loaderId
        ensures es[i] in LoadedObjects(es, loaderId)
      {
        assert init[i] in rest;
      }
    }
  }

  lemma {:induction false} LoadedViews(es: seq<Entry>, loaderId: Option<string>)
    ensures Views(LoadedObjects(es, loaderId)) == LoadedBy(Views(es), loaderId)
  {
    if es != [] {
      var init, e := es[..|es| - 1], es[|es| - 1];
      LoadedViews(init, loaderId);
      assert Views(es)[..|es| - 1] == Views(init);
      assert Views(LoadedObjects(init, loaderId) + [e]) == Views(LoadedObjects(init, loaderId)) + [e.View()];
    }
  }

  lemma {:induction false} LoadedAscending(es: seq<Entry>, loaderId: Option<string>, last: int)
    requires Ascending(es, last)
    ensures Ascending(LoadedObjects(es, loaderId), last)
  {
    if es != [] {
      var init, e := es[..|es| - 1], es[|es| - 1];
      LoadedAscending(init, loaderId, e.sequence - 1);
      var rest := LoadedObjects(init, loaderId);
      if e.loaderId == loaderId {
        assert (rest + [e])[..|rest|] == rest;
      } else {
        AscendingMeans(rest, e.sequence - 1);
        AscendingIf(rest, last);
      }
    }
  }
}

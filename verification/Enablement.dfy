/** Which call of the control plane decides whether an extension is enabled for a session. */
module Enablement {
  import opened Assembly
  import opened Wrappers

  /** A call that settles the pair: a toggle of it in that very scope, or the end of the session. */
  predicate Settles(t: Toggle, id: string, scope: string)
  {
    match t
    case SetEnabled(extensionId, _, sessionId) => extensionId == id && sessionId == scope
    case DisposeSession(sessionId) => scope != "" && sessionId == scope
  }

  /** The last call that settles the pair is the `k`-th, and it is a toggle. */
  ghost predicate LastWord(ts: seq<Toggle>, k: nat, id: string, scope: string, enabled: bool)
  {
    && k < |ts| && ts[k] == SetEnabled(id, enabled, scope)
    && forall j :: k < j < |ts| ==> !Settles(ts[j], id, scope)
  }

  /** No toggle of the pair, or none since the session was disposed. */
  ghost predicate Silent(ts: seq<Toggle>, id: string, scope: string)
  {
    forall k: nat, enabled :: !LastWord(ts, k, id, scope, enabled)
  }

  /**
   Whatever calls a registry has taken, for each extension and session the last word of that
   session decides, else the last global word, else the flag it started with.
   */
  lemma LastWordDecides(es: seq<Loaded>, ts: seq<Toggle>, i: nat, sessionId: string)
    requires i < |es|
    ensures var (es', overrides) := ToggledAll(es, map[], ts);
            var id := es[i].id;
            && |es'| == |es| && es'[i] == es[i].(enabledGlobal := es'[i].enabledGlobal)
            && var isEnabled := IsEnabled(es'[i], overrides, sessionId);
               && (forall k: nat, enabled :: LastWord(ts, k, id, sessionId, enabled) ==> isEnabled == enabled)
               && (Silent(ts, id, sessionId) ==>
                     forall k: nat, enabled :: LastWord(ts, k, id, "", enabled) ==> isEnabled == enabled)
               && (Silent(ts, id, sessionId) && Silent(ts, id, "") ==> isEnabled == es[i].enabledGlobal)
  {
    var id := es[i].id;
    WordsAreKept(es, ts, i, sessionId);
    WordIsLast(ts, id, sessionId);
    WordIsLast(ts, id, "");
  }

  // ---------------------------------------------------------------- the last word, computed

  function Word(ts: seq<Toggle>, id: string, scope: string): Option<bool>
  {
    if ts == [] then None
    else
      var t := ts[|ts| - 1];
      if !Settles(t, id, scope) then Word(ts[..|ts| - 1], id, scope)
      else if t.SetEnabled? then Some(t.enabled)
      else None
  }

  lemma {:induction false} WordIsLast(ts: seq<Toggle>, id: string, scope: string)
    ensures forall k: nat, enabled :: LastWord(ts, k, id, scope, enabled) ==> Word(ts, id, scope) == Some(enabled)
    ensures Silent(ts, id, scope) ==> Word(ts, id, scope) == None
    decreases |ts|
  {
    if ts != [] {
      var n := |ts| - 1;
      var init, t := ts[..n], ts[n];
      WordIsLast(init, id, scope);
      if Settles(t, id, scope) {
        if t.SetEnabled? {
          assert LastWord(ts, n, id, scope, t.enabled);
        }
      } else {
        forall k: nat, enabled
          ensures LastWord(ts, k, id, scope, enabled) <==> LastWord(init, k, id, scope, enabled)
        {
          assert forall j :: 0 <= j < n ==> ts[j] == init[j];
        }
      }
    }
  }

  /** The registry holds the last words: the session's as an override, the global one as the flag. */
  lemma {:induction false} WordsAreKept(es: seq<Loaded>, ts: seq<Toggle>, i: nat, sessionId: string)
    requires i < |es|
    ensures Keeps(es, ToggledAll(es, map[], ts).0, ToggledAll(es, map[], ts).1, ts, i, sessionId)
    decreases |ts|
  {
    if ts != [] {
      var init, t := ts[..|ts| - 1], ts[|ts| - 1];
      WordsAreKept(es, init, i, sessionId);
      var before := ToggledAll(es, map[], init);
      KeepsNext(es, before.0, before.1, init, t, i, sessionId);
      assert ts == init + [t];
    }
  }

  ghost predicate Keeps(es: seq<Loaded>, es': seq<Loaded>, o: Overrides, ts: seq<Toggle>, i: nat, sessionId: string)
    requires i < |es|
  {
    var id := es[i].id;
    var own, common := Word(ts, id, sessionId), Word(ts, id, "");
    && |es'| == |es| && es'[i] == es[i].(enabledGlobal := if common.Some? then common.value else es[i].enabledGlobal)
    && "" !in o
    && (sessionId in o && id in o[sessionId] <==> sessionId != "" && own.Some?)
    && (sessionId in o && id in o[sessionId] ==> own == Some(o[sessionId][id]))
  }

  lemma KeepsNext(es: seq<Loaded>, es': seq<Loaded>, o: Overrides, ts: seq<Toggle>, t: Toggle, i: nat,
                  sessionId: string)
    requires i < |es| && Keeps(es, es', o, ts, i, sessionId)
    ensures Keeps(es, Toggled(es', o, t).0, Toggled(es', o, t).1, ts + [t], i, sessionId)
  {
    assert (ts + [t])[..|ts|] == ts;
    assert es'[i].id == es[i].id;
  }
}

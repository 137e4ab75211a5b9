/**
 What the session does with a protocol event of the browser: which navigations replace the
 main document, which replace a child document, and which are ignored.
 */
module NavigationEvents {
  import opened SnapshotModel

  datatype EventName = FrameNavigated | NavigatedWithinDocument | FrameDetached | DetachedFromTarget | Other

  /** Fields that are absent in the message are empty. */
  datatype TransportEvent = TransportEvent(
    name: EventName,
    frameId: string,
    parentId: string,
    sessionId: string,
    targetSessionId: string)

  /** What the handler consults: attached child sessions, the page's own session, the known main frame. */
  datatype Env = Env(attached: set<string>, ownSession: string, mainFrameId: string)

  datatype Scope = Main | Child | Unknown

  datatype Effect = Ignored | ReplacesMain | ReplacesChild(identity: Identity)

  predicate IsNavigation(ev: TransportEvent)
  {
    ev.name.FrameNavigated? || ev.name.NavigatedWithinDocument?
  }

  function Classify(ev: TransportEvent, env: Env): Scope
  {
    if !IsNavigation(ev) then Unknown
    else if ev.sessionId != "" && ev.sessionId in env.attached then Child
    else if ev.parentId != "" then Child
    else if env.mainFrameId != "" && ev.frameId != "" then
      if ev.frameId == env.mainFrameId then Main else Child
    else if ev.sessionId != "" && ev.sessionId != env.ownSession then Unknown
    else if ev.frameId != "" then Main
    else Unknown
  }

  function EffectOf(ev: TransportEvent, env: Env): Effect
  {
    var commandSession := if ev.sessionId != "" then ev.sessionId else ev.targetSessionId;
    match ev.name
    case FrameNavigated | NavigatedWithinDocument =>
      (match Classify(ev, env)
       case Main => ReplacesMain
       case Child => ReplacesChild(Identity(ev.frameId, commandSession))
       case Unknown => Ignored)
    case FrameDetached =>
      if ev.frameId == "" then Ignored
      else if ev.frameId == env.mainFrameId then ReplacesMain
      else ReplacesChild(Identity(ev.frameId, ""))
    case DetachedFromTarget =>
      if ev.targetSessionId == "" then Ignored else ReplacesChild(Identity("", ev.targetSessionId))
    case Other => Ignored
  }

  /**
   Whether an event revokes an element: it replaces the main document, or it names the
   element's document.
   */
  predicate Revokes(effect: Effect, n: Node)
  {
    match effect
    case Ignored => false
    case ReplacesMain => true
    case ReplacesChild(identity) => Matches(n, identity)
  }

  /**
   A navigation or detachment that names the frame of an element revokes the element, with one
   exception: a navigation on a foreign session that is not an attached frame, reports no
   parent, and arrives before the main frame is known.
   */
  lemma NamedFramesAreRevoked(ev: TransportEvent, env: Env, n: Node)
    requires ev.name.FrameDetached? || IsNavigation(ev)
    requires ev.frameId != "" && n.frameId == ev.frameId
    ensures Revokes(EffectOf(ev, env), n) <==>
            !(IsNavigation(ev) && ev.sessionId != "" && ev.sessionId !in env.attached && ev.sessionId != env.ownSession
              && ev.parentId == "" && env.mainFrameId == "")
  {
  }

  /** A detached target revokes every element of its session, and nothing else. */
  lemma DetachedSessionIsRevoked(ev: TransportEvent, env: Env, n: Node)
    requires ev.name.DetachedFromTarget? && ev.targetSessionId != ""
    ensures Revokes(EffectOf(ev, env), n) <==> n.sessionId == ev.targetSessionId
  {
  }

  // ---------------------------------------------------------------- the same in the fields of the event

  /**
   The events that replace the main document: a detachment of the known main frame, and a
   navigation without a parent, not on an attached child session, that names the known main frame
   or, while that is unknown, names any frame on the page's own session.
   */
  predicate MainDocumentGoes(ev: TransportEvent, env: Env)
  {
    ev.frameId != "" &&
    match ev.name
    case FrameDetached => ev.frameId == env.mainFrameId
    case FrameNavigated | NavigatedWithinDocument =>
      && ev.parentId == "" && (ev.sessionId == "" || ev.sessionId !in env.attached)
      && (if env.mainFrameId != "" then ev.frameId == env.mainFrameId
          else ev.sessionId == "" || ev.sessionId == env.ownSession)
    case _ => false
  }

  /** Navigations of child documents: on an attached session, with a parent, or of another frame than the main one. */
  predicate ChildNavigates(ev: TransportEvent, env: Env)
  {
    && (ev.name.FrameNavigated? || ev.name.NavigatedWithinDocument?)
    && ((ev.sessionId != "" && ev.sessionId in env.attached) || ev.parentId != "" ||
        (env.mainFrameId != "" && ev.frameId != "" && ev.frameId != env.mainFrameId))
  }

  /** The element is in the frame the event names, or belongs to the command session it came on. */
  predicate SharesDocument(ev: TransportEvent, n: Node)
  {
    || (ev.frameId != "" && n.frameId == ev.frameId)
    || (ev.sessionId != "" && n.sessionId == ev.sessionId)
    || (ev.sessionId == "" && ev.targetSessionId != "" && n.sessionId == ev.targetSessionId)
  }

  /** The element's document goes with the event. */
  predicate DocumentGoes(ev: TransportEvent, env: Env, n: Node)
  {
    || MainDocumentGoes(ev, env)
    || (ChildNavigates(ev, env) && SharesDocument(ev, n))
    || (ev.name.FrameDetached? && ev.frameId != "" && n.frameId == ev.frameId)
    || (ev.name.DetachedFromTarget? && ev.targetSessionId != "" && n.sessionId == ev.targetSessionId)
  }

  lemma MainIsReplacedIff(ev: TransportEvent, env: Env)
    ensures EffectOf(ev, env).ReplacesMain? <==> MainDocumentGoes(ev, env)
  {
  }

  /** For every event and every element, named or not: it is revoked exactly when its document goes. */
  lemma RevokedIffDocumentGoes(ev: TransportEvent, env: Env, n: Node)
    ensures Revokes(EffectOf(ev, env), n) <==> DocumentGoes(ev, env, n)
  {
    MainIsReplacedIff(ev, env);
  }

  /** A child document that navigates leaves the main document and all others alone. */
  lemma ChildNavigationIsLocal(ev: TransportEvent, env: Env, n: Node)
    requires ChildNavigates(ev, env)
    ensures !EffectOf(ev, env).ReplacesMain?
    ensures Revokes(EffectOf(ev, env), n) <==> SharesDocument(ev, n)
  {
  }
}

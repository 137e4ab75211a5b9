/**
 Values shared by the snapshot store, the paging code and the inspection protocol.
 An absent frame id or command session id is the empty string, which counts as absent wherever
 one is tested.
 */
module SnapshotModel {
  import opened Wrappers

  /** One element reported by a page scan; `bytes` is the size of its exposed JSON record. */
  datatype Node = Node(backendNodeId: int, frameId: string, sessionId: string, editable: bool, bytes: nat)

  /** A scanned element together with the opaque ref handed out for it. */
  datatype Element = Element(ref: string, node: Node)

  /** The document a navigation event talks about, by frame id and/or command session. */
  datatype Identity = Identity(frameId: string, sessionId: string)

  datatype FrameKey = FrameKey(id: string) | SessionKey(id: string)

  datatype Kind = Inspect | QueryEditable | Semantic

  /** A frozen element list and the only offset from which it may be continued. */
  datatype Cursor = Cursor(elements: seq<Element>, nextOffset: Option<nat>)

  /**
   Bytes of the parts of an inspect page that do not depend on where the page is cut:
   the summary fields, the continuation object without its two numbers, and the note
   that replaces an omitted semantic tree.
   */
  datatype Layout = Layout(fixedBytes: nat, continuationBytes: nat, omittedBytes: nat)

  datatype Snap = Snap(
    id: nat,
    generation: nat,
    createdAt: int,
    lastAccessedAt: Option<int>,
    kind: Kind,
    cursor: Cursor,
    editable: Option<Cursor>,
    invalidated: bool,
    layout: Layout)

  /** Keys under which the epochs of a document are counted. */
  function KeysOf(frameId: string, sessionId: string): set<FrameKey>
  {
    (if frameId != "" then {FrameKey(frameId)} else {}) +
    (if sessionId != "" then {SessionKey(sessionId)} else {})
  }

  predicate Matches(n: Node, identity: Identity)
  {
    || (identity.frameId != "" && n.frameId == identity.frameId)
    || (identity.sessionId != "" && n.sessionId == identity.sessionId)
  }

  /** Matching by frame id or by session is the same as sharing an epoch key. */
  lemma MatchesIsSharedKey(n: Node, identity: Identity)
    ensures Matches(n, identity) <==>
            KeysOf(n.frameId, n.sessionId) * KeysOf(identity.frameId, identity.sessionId) != {}
  {
    var a, b := KeysOf(n.frameId, n.sessionId), KeysOf(identity.frameId, identity.sessionId);
    if Matches(n, identity) {
      if identity.frameId != "" && n.frameId == identity.frameId {
        assert FrameKey(n.frameId) in a * b;
      } else {
        assert SessionKey(n.sessionId) in a * b;
      }
    }
    if a * b != {} {
      var k :| k in a * b;
    }
  }
}

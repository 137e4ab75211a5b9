# Verification model of the browser core and its neighbours

This project models the parts of the repository whose correctness depends on many operations
working together, and proves what they promise for every input, every run and every
interleaving.

* **Snapshot and ref protocol.** A session hands out opaque element refs from paged snapshots
  while navigations, frame replacements, expiry and eviction interleave with running scans.
  `SnapshotStore` specifies the session on values, `BrowserSessionState` is the mutable session
  proved against it, `Paging` the page cuts and continuations, `NavigationEvents` the reading of
  protocol events, and `InspectProtocol` a step system in which every `await` of an inspection is
  a point where any other step may happen. `RefSurvival`, `StoreLaws`, `InspectLaws` and `PagingText`
  state what events leave alone, how long snapshots last, what is published and delivered, and the
  texts whose sizes decide the cuts.
* **Action gate.** `ActionGate` is a step system of `execute`, its deadline, connection recovery
  and late-settling promises, `ActionHistory` tells its runs by their steps; `ActionDeadline` is the
  deadline arithmetic.
* **Semantic page tree.** `SemanticRegistry` fuses DOM, layout and accessibility nodes,
  `SemanticTree` attaches kept nodes to their nearest kept ancestor, `ParentCycles` shows how a page
  makes the two form a circle, `SemanticSerializer` and `SerializerClass` cut a page under node and
  byte budgets. `RegistryPaths`, `TreeLaws` and `SerializerLaws` state the results by paths through
  the source trees.
* **Protocol logs and gestures.** `NetworkSpec`, `NetworkLog`, `NetworkFields` and `NetworkQuery` (a
  ring buffer and an index that share mutable entries, specified on values and in the fields of the
  events), `DragGesture` (the script of a gesture and its clean-up under every pattern of failing
  commands), `PageScan` (the DOM scan), `PaintOrder` (occlusion).
* **Text algorithms.** `Utf8Budget` and `Utf8Encoding` (cuts by bytes, and the encoding whose bytes
  are counted), `SourceMarkers`, `HtmlEntities`, `RedactionSpec` and `Redaction`.
* **Configuration and extensions.** `ProviderMigration`, `MigratedReferences` and `MigrationFields`
  (what a migration does, what model references mean before and after it, and what becomes of each
  field), `ResolveExtensions`, `Assembly`, `Enablement`.

`SnapshotModel`, `StableSort`, `Listing`, `Paths`, `Decimals` and `Wrappers` hold shared vocabulary.

## Findings

* `positiveDeadline` returns 0 for numbers strictly between 0 and 1
  (packages/browser-core/src/browser-core.ts:680-684); `ActionDeadline.ZeroDeadline` gives the exact
  condition, `ActionDeadline.DeadlineIsSafe` the actions it reaches.
* Migrating a legacy provider whose id is itself written with the prefix `custom_provider:` changes
  what a default model reference to it means. `MigratedReferences.NewRefsKeepTheirMeaning` states
  exactly when the meaning is kept, `MigratedReferences.PrefixedIdsChangeMeaning` gives an input.
* A custom provider that the user deleted is not restored by the migration, but its key is free
  again. If a newly keyed provider that is listed earlier gets it, the default model that named the
  deleted provider is rewritten to the new one's table: `MigratedReferences.DefaultModelIsCaptured`
  gives the input, `MigratedReferences.DefaultModelDangles` the same input in the other order,
  `MigratedReferences.DeletedRefsDangleOrAreCaptured` the exact condition. Which keys are handed out
  is decided by the existing keys and the ids, names and order of the newly keyed providers
  (`MigratedReferences.HandedOutIff`); the order does not matter for a key that is no provider's
  suffixed candidate (`MigratedReferences.DeletedKeyIsReusedIff`).
* A dangling reference to a custom key that the migration hands out acquires a meaning; every other
  reference to a provider that does not move keeps its own
  (`MigratedReferences.OtherRefsKeepTheirMeaning`).
* The serializer's counting ignores empty refs, so an allowed empty ref can be dropped from a page
  that is not marked truncated; `SemanticSerializer.CompleteIffNoEmptyRef` states that this is the
  only way to lose a target.
* Cyclic parent links make kept nodes unreachable from the roots exactly when two different kept
  nodes are above each other (`SemanticTree.AllReachableIff`); a cycle through one kept node is
  harmless. A document element whose child's accessibility node lists it as a child is such a case,
  and the registry builds it (`ParentCycles.CyclicPage`).
* Head and tail of a preview overlap exactly when some single code point fits into both halves of
  the budget (`Utf8Budget.OverlapIff`, with an input in `Utf8Budget.SmallTextsOverlap`); that cannot
  happen when the text fills the budget.
* A navigation that names a frame is ignored in exactly one situation
  (`NavigationEvents.NamedFramesAreRevoked`).
* The bound of 125 seconds for uploads is never reached: an upload gets one second more than the two
  minutes that bound every request (`ActionDeadline.DeadlineInNumbers`).
* An accessibility node with backend id 0 is keyed as if the id were missing but still recorded
  under it (`SemanticRegistry.ZeroIdIsRecorded`).

## Model

| member | source | states |
|---|---|---|
| `InspectProtocol.RefsAreCurrent` | packages/browser-core/src/browser-state.ts:186-256 | In every interleaving, a ref that resolves was issued by a scan since whose start there was no main-document invalidation and no invalidation of the element's frame, by frame id or command session |
| `InspectProtocol.EventsRevokeRefs` | packages/browser-core/src/browser-core.ts:162-194 | Right after a protocol event, no ref to an element that the event revokes resolves, whatever came before |
| `RefSurvival.OtherDocumentsResolve` | packages/browser-core/src/browser-state.ts:186-261 | After any run, a protocol event leaves every ref whose document does not go with it alone: it resolves to the same element of the same snapshot as without the event |
| `RefSurvival.EventsAreRecorded` | packages/browser-core/src/browser-core.ts:162-194 | After any run, an event replaces the main document, or it leaves generation, number of snapshots and running scans as they are and touches exactly the documents that go with it |
| `RefSurvival.ScansForgetWhatWent` | packages/browser-core/src/browser-snapshot.ts:106-140 | A scan that had begun before an event never publishes a node whose document went with it, whatever else happens |
| `InspectProtocol.CurrentRefsResolve` | packages/browser-core/src/browser-state.ts:186-200 | Conversely, a ref of a retained, unexpired snapshot whose document no event has touched does resolve |
| `InspectProtocol.RetainedElementsExact` | packages/browser-core/src/browser-state.ts:224-261 | In every run a retained snapshot lists exactly its frozen elements minus those of touched documents, and froze exactly the scanned nodes no event touched between scan start and storing |
| `InspectProtocol.PagesAreFaithful` | packages/browser-core/src/browser-snapshot.ts:83-165 | In every run, what was delivered from a snapshot is an initial part of its frozen list, and all of it once the continuation has ended; likewise for the editable query |
| `InspectLaws.UndisturbedScansArePublished` | packages/browser-core/src/browser-snapshot.ts:106-165 | From every reachable state an inspection that nothing disturbs hands out a ref for every scanned node, in order, and each resolves for the next five minutes |
| `InspectLaws.ContinueDelivers` | packages/browser-core/src/browser-snapshot.ts:83-109 | A continuation delivers the next elements exactly while its snapshot is retained, unexpired, not invalidated, made by `inspect` and asked from the next offset, unless the page is refused for its size |
| `InspectLaws.ContinueEditableDelivers` | packages/browser-core/src/browser-query.ts:40-62 | The same for the continuation of an editable query |
| `InspectLaws.MutationEndsDelivery` | packages/browser-core/src/browser-state.ts:263-272 | After a mutation of the page nothing more is delivered from any snapshot issued before it, however the session goes on |
| `InspectLaws.IdleRefsExpire` | packages/browser-core/src/browser-state.ts:300-311 | Five minutes without use end every ref, whatever the session did before |
| `InspectLaws.EditablesAreListed` | packages/browser-core/src/browser-query.ts:66-75 | The targets of the editable query are exactly the editable elements of the list, in order |
| `InspectProtocol.StoreInvariant` | packages/browser-core/src/browser-state.ts:147-205 | In every run the store holds at most three snapshots of the current generation, the latest is a member, and a fresh snapshot becomes the latest |
| `InspectProtocol.EpochCheckIsExact` | packages/browser-core/src/browser-state.ts:207-222 | Comparing frame epochs with the captured baseline detects exactly the frame events that concern an element |
| `InspectProtocol.PublishedNodes` | packages/browser-core/src/browser-snapshot.ts:111-165 | The two filters of an inspection together keep exactly the scanned nodes untouched since it began |
| `InspectProtocol.StepKeeps` | packages/browser-core/src/browser-snapshot.ts:83-165 | Every step of the protocol keeps the invariant between session, history and issued refs |
| `InspectProtocol.RunKeeps` | packages/browser-core/src/browser-snapshot.ts:83-165 | The invariant holds in every reachable state |
| `NavigationEvents.NamedFramesAreRevoked` | packages/browser-core/src/browser-action-helpers.ts:7-34 | A navigation or detachment naming an element's frame revokes the element, except in exactly one situation |
| `NavigationEvents.RevokedIffDocumentGoes` | packages/browser-core/src/browser-core.ts:162-194 | For every event and every element, named or not: it is revoked exactly when the event, by its fields, replaces the main document or names the element's frame or command session as a child navigation, a frame detachment or a target detachment |
| `NavigationEvents.MainIsReplacedIff` | packages/browser-core/src/browser-action-helpers.ts:7-34 | The main document is replaced exactly by a detachment of the known main frame and by a navigation without a parent, not on an attached session, of the main frame or, while that is unknown, of a frame on the page's own session |
| `NavigationEvents.ChildNavigationIsLocal` | packages/browser-core/src/browser-action-helpers.ts:20-30 | A navigation on an attached session, with a parent, or of another frame than the known main frame revokes exactly the elements that share its frame id or command session |
| `NavigationEvents.DetachedSessionIsRevoked` | packages/browser-core/src/browser-core.ts:162-194 | A detached target revokes exactly the elements of its session |
| `SnapshotModel.MatchesIsSharedKey` | packages/browser-core/src/browser-state.ts:283-299 | Matching an identity is the same as sharing one of its epoch keys |
| `SnapshotStore.StoreOutcome` | packages/browser-core/src/browser-state.ts:147-166 | What storing leaves: the pruned store plus the new snapshot minus the least recently used, and which snapshot is then the latest |
| `SnapshotStore.StoreKeepsValid` | packages/browser-core/src/browser-state.ts:147-166 | After storing, the store is valid, bounded, and holds only the new snapshot and unexpired ones of the current generation |
| `SnapshotStore.StoreRetainsLatest` | packages/browser-core/src/browser-state.ts:147-166 | With a clock that never runs backwards the stored snapshot is retained as the latest |
| `SnapshotStore.PruneKeepsValid` | packages/browser-core/src/browser-state.ts:300-311 | Pruning removes exactly the expired and older-generation snapshots and keeps the store valid |
| `SnapshotStore.EvictOne` | packages/browser-core/src/browser-state.ts:147-166 | One eviction on a full store removes the first least recently used snapshot, the new one only if all others were used later |
| `SnapshotStore.AliveOwnerResolves` | packages/browser-core/src/browser-state.ts:186-200 | A live snapshot of the current generation makes every ref it lists resolvable |
| `StoreLaws.ResolvingRefreshes` | packages/browser-core/src/browser-state.ts:186-200 | A ref that resolves, resolves to the same element for five minutes from then on |
| `StoreLaws.ContinuingRefreshes` | packages/browser-core/src/browser-state.ts:168-184 | A snapshot that was continued can be continued for five minutes more |
| `StoreLaws.ExpiredDoNotResolve` | packages/browser-core/src/browser-state.ts:300-311 | A ref all of whose snapshots were last used more than five minutes ago does not resolve |
| `StoreLaws.StoringDropsTheOldest` | packages/browser-core/src/browser-state.ts:147-166 | Storing drops no unexpired snapshot, but of three the one used no later than the others; the new one stays |
| `BrowserSessionState.Snapshot.ContinueInspect` | packages/browser-core/src/browser-snapshot.ts:83-109 | An inspect continuation changes the shared snapshot object exactly as the value-level reply does |
| `BrowserSessionState.Snapshot.ContinueEditable` | packages/browser-core/src/browser-query.ts:40-75 | The same for a continuation of the editable query |
| `BrowserSessionState.BrowserSession.StoreBrowserSnapshot` | packages/browser-core/src/browser-state.ts:147-166 | Storing updates the session in place to the specified session and keeps it valid |
| `BrowserSessionState.BrowserSession.EvictSnapshots` | packages/browser-core/src/browser-state.ts:154-163 | The eviction loop computes the specified eviction and only removes members |
| `BrowserSessionState.BrowserSession.PruneSnapshots` | packages/browser-core/src/browser-state.ts:300-311 | Pruning in place agrees with the specified pruning, including the choice of the latest snapshot |
| `BrowserSessionState.BrowserSession.RefreshLatest` | packages/browser-core/src/browser-state.ts:313-319 | The latest snapshot is kept while it is a member and otherwise becomes the last member |
| `BrowserSessionState.BrowserSession.GetBrowserSnapshot` | packages/browser-core/src/browser-state.ts:168-184 | Lookup prunes, refuses invalidated or missing snapshots, and touches the one it returns, as specified |
| `BrowserSessionState.BrowserSession.ResolveBrowserSnapshotElement` | packages/browser-core/src/browser-state.ts:186-200 | Resolution prunes, finds the youngest owner of the ref and touches it, as specified |
| `BrowserSessionState.BrowserSession.Invalidate` | packages/browser-core/src/browser-action-targets.ts:332-338 | A main-document invalidation advances the generation, forgets all snapshots and all frame epochs |
| `BrowserSessionState.BrowserSession.InvalidateBrowserObservations` | packages/browser-core/src/browser-state.ts:263-272 | After a mutation no continuation of a current snapshot may go on |
| `BrowserSessionState.BrowserSession.InvalidateBrowserFrame` | packages/browser-core/src/browser-state.ts:224-261 | A frame event bumps the epochs of its keys and strips the matching elements from every retained snapshot, as specified |
| `Paging.FitsMonotone` | packages/browser-core/src/browser-snapshot.ts:304-350 | Pages that leave elements behind grow with their element count, so fitting is monotone |
| `Paging.LargestFittingCount` | packages/browser-core/src/browser-snapshot.ts:258-286 | The binary search returns the largest element count whose page fits |
| `Paging.SnapshotPage` | packages/browser-core/src/browser-snapshot.ts:238-293 | The page served is the specified cut: with the tree if that fits, without it otherwise, shortened only if need be |
| `Paging.CutLaw` | packages/browser-core/src/browser-snapshot.ts:238-293 | A page is a contiguous piece of the frozen list within the limit, and one that leaves elements behind is not empty |
| `Paging.InspectCutIsLongest` | packages/browser-core/src/browser-snapshot.ts:238-293 | An inspect page respects the byte budget and no longer page would; it shows the semantic tree exactly if the tree fits beside all the elements asked for |
| `Paging.InspectCutRefused` | packages/browser-core/src/browser-snapshot.ts:288-290 | A page is refused exactly when not even one element fits |
| `PagingText.PageIsText` | packages/browser-core/src/browser-snapshot.ts:304-350 | The size by which pages are cut is the length of the page's JSON text, with or without its tree |
| `Paging.EditablePage` | packages/browser-core/src/browser-query.ts:271-314 | The shrinking loop returns the specified page of editable targets |
| `Paging.EditableCutIsLongest` | packages/browser-core/src/browser-query.ts:271-314 | That page is the longest within the budget, but has at least one target |
| `Paging.ServeLaw` | packages/browser-core/src/browser-snapshot.ts:83-109 | Only the exact next offset is served, replayed and skipped ones change nothing, and a reply continues where the last one stopped |
| `Paging.PagesConcatenate` | packages/browser-core/src/browser-snapshot.ts:83-109 | Whatever requests are sent, the served pages concatenate to the stretch of the frozen list the cursor moved over |
| `Paging.FollowedToTheEnd` | packages/browser-core/src/browser-snapshot.ts:83-109 | A continuation followed to its end has delivered the frozen list: every element, once, in order |
| `Paging.EveryClientFinishes` | packages/browser-core/src/browser-snapshot.ts:83-109 | Whatever a client asks, with any limits and trees, at most one more page is served than there are elements left, and that many pages end the continuation |
| `Paging.EndIsReachable` | packages/browser-core/src/browser-query.ts:40-75 | If no page is refused, asking from the returned offset, with any limits and trees, delivers the whole list |
| `ActionGate.AcceptedMeansQuiet` | packages/browser-core/src/browser-core.ts:258-363 | Whenever a new action is accepted, no start or action promise of any earlier one is pending |
| `ActionGate.OneActionAtATime` | packages/browser-core/src/browser-core.ts:258-363 | While the session is not poisoned at most one promise is pending, and only while an action runs |
| `ActionGate.PoisonIsAbsorbing` | packages/browser-core/src/browser-core.ts:258-276 | No later step clears the poison, starts an action or creates a promise |
| `ActionGate.InterruptionVerdict` | packages/browser-core/src/browser-core.ts:336-395 | An action logged as interrupted was judged by a recovery that completed while it ran, and left the session usable exactly when that recovery succeeded and its promises settled in time |
| `ActionHistory.InterruptionsAreLogged` | packages/browser-core/src/browser-core.ts:333-363 | Once an action has failed by an interruption, or after an abort since it was accepted, the gate accepts nothing until its entry is logged, and that entry says that it was interrupted |
| `ActionHistory.EndsAreLogged` | packages/browser-core/src/browser-core.ts:331-371 | An entry says undisturbed exactly if the action completed, or failed without an interruption and without an abort since it was accepted; it says interrupted exactly if settlement ended the action |
| `ActionHistory.OthersAreReleased` | packages/browser-core/src/browser-core.ts:331-371 | A completed action, and a failure that nothing interrupted, free the gate at once, with no recovery |
| `ActionHistory.AbortIsRemembered` | packages/browser-core/src/browser-core.ts:290-318 | The abort flag of a running action says whether an abort came since it was accepted |
| `ActionHistory.InterruptedHistory` | packages/browser-core/src/browser-core.ts:336-395 | An interrupted action was busy from its acceptance to its entry; the latest recovery at the start of its settlement decides, which had completed since, and the session is usable exactly if that one succeeded and the promises settled in time |
| `ActionHistory.RecoveryIsReused` | packages/browser-core/src/browser-core.ts:373-382 | A connection that recovered while the action ran is not reset again; any other is |
| `ActionHistory.SettlementEnds` | packages/browser-core/src/browser-core.ts:343-356 | When all promises have settled the settlement ends, and the session accepts again exactly if its recovery succeeded |
| `ActionHistory.OrdinaryActionCompletes` | packages/browser-core/src/browser-core.ts:258-332 | From every reachable state that accepts, an action whose promises settle completes and the gate accepts again |
| `ActionGate.RefusalsLeaveNoTrace` | packages/browser-core/src/browser-core.ts:258-290 | Inserting a refused request anywhere in a run leaves the final state of the run unchanged |
| `ActionGate.GateIsReleased` | packages/browser-core/src/browser-core.ts:336-395 | From every reachable state with a running action the deadline, the reset and the settlement timeout alone release the gate |
| `ActionGate.StepKeeps` | packages/browser-core/src/cdp-helper.ts:242-279 | Every step keeps the invariant of control state, promises, recovery log and verdicts |
| `ActionGate.RunKeeps` | packages/browser-core/src/browser-core.ts:258-395 | The invariant holds in every reachable state |
| `ActionDeadline.ZeroDeadline` | packages/browser-core/src/browser-core.ts:680-684 | Exactly when a positive deadline comes out as zero |
| `ActionDeadline.DeadlineIsSafe` | packages/browser-core/src/browser-core.ts:686-734 | Only typing that cannot fit is rejected; a granted deadline is bounded, never shortens the request, leaves typing its time, and is zero only in the stated case |
| `ActionDeadline.DeadlineInNumbers` | packages/browser-core/src/browser-core.ts:686-734 | The granted milliseconds of every kind of action, in numbers; the bound of 125 seconds for uploads is never reached |
| `ActionDeadline.TypingInNumbers` | packages/browser-core/src/browser-core.ts:695-716 | Typing is rejected exactly if it needs more than two minutes, and otherwise gets what was asked for or the first whole millisecond that is enough |
| `ActionDeadline.RoundsDown` | packages/browser-core/src/browser-core.ts:680-684 | Positive times are rounded down to whole milliseconds, anything else falls back |
| `SemanticRegistry.CanonicalNodeRegistry.Ensure` | packages/browser-core/src/browser-semantic-registry.ts:19-35 | A new node is appended and indexed by backend id, an existing one left alone; index and nodes agree in both directions |
| `SemanticRegistry.CanonicalNodeRegistry.ResolveKey` | packages/browser-core/src/browser-semantic-registry.ts:37-47 | The index answers like a full scan: the exact key, a unique node with that backend id, or the main frame's |
| `SemanticRegistry.CanonicalNodeRegistry.AddDOMTree` | packages/browser-core/src/browser-semantic-registry.ts:49-63 | Exactly the nodes of the tree are registered and marked, new ones under the key of their own frame and backend id; each is linked to the node that was last visited one level up, and nothing else changes |
| `RegistryPaths.RegisteredIffReached` | packages/browser-core/src/browser-semantic-registry.ts:49-63 | The registered keys are exactly those of the nodes that can be reached through children, shadow roots and frame documents, in the frame they are in |
| `RegistryPaths.LinkedIffOneStepDown` | packages/browser-core/src/browser-semantic-registry.ts:49-63 | The parents that a document gives are exactly the nodes one such step above |
| `SemanticRegistry.LastEdgeWins` | packages/browser-core/src/browser-semantic-registry.ts:56-60 | Of several parents that a node is given the last one stays |
| `SemanticRegistry.DomNodesResolve` | packages/browser-core/src/browser-semantic-registry.ts:37-63 | In a fresh registry every node of a DOM tree is found again by its backend id |
| `SemanticRegistry.CanonicalKeyInjective` | packages/browser-core/src/browser-semantic-registry.ts:9-11 | A canonical key belongs to one frame and one backend id |
| `SemanticRegistry.CanonicalNodeRegistry.AddSnapshotRecord` | packages/browser-core/src/browser-semantic-registry.ts:65-77 | A layout record marks the node that resolution names, or a new one in the frame of the record or the main frame, and changes nothing else |
| `SemanticRegistry.CanonicalNodeRegistry.AXKey` | packages/browser-core/src/browser-semantic-registry.ts:82-92 | An accessibility node shares the key of its DOM node if that can be told and gets its own otherwise |
| `SemanticRegistry.CanonicalNodeRegistry.RegisterAX` | packages/browser-core/src/browser-semantic-registry.ts:79-96 | Every accessibility node is registered under the key it resolves to at its turn; each id remembers the last such key |
| `SemanticRegistry.CanonicalNodeRegistry.AddAXTree` | packages/browser-core/src/browser-semantic-registry.ts:79-108 | After that registration, which only marks, every listed child hangs below the last of the nodes that list it and all other links stay |
| `RegistryPaths.LinkedIffListed` | packages/browser-core/src/browser-semantic-registry.ts:98-107 | The accessibility parents are exactly the remembered nodes that list a remembered child other than themselves |
| `RegistryPaths.LastIsRemembered` | packages/browser-core/src/browser-semantic-registry.ts:80-97 | The key remembered for an id is that of the last node with the id, at the time it was registered |
| `RegistryPaths.KeyOfAccessibilityNode` | packages/browser-core/src/browser-semantic-registry.ts:82-92 | Without a backend id a node has its own key, else that of the only node with the id, or the one of the main frame |
| `SemanticRegistry.AXNodesAreMarked` | packages/browser-core/src/browser-semantic-registry.ts:79-96 | Registering accessibility nodes changes nothing about known nodes but the mark, and new ones have no parent |
| `SemanticRegistry.RememberedIds` | packages/browser-core/src/browser-semantic-registry.ts:80-96 | An accessibility id is remembered exactly when some node carries it |
| `SemanticRegistry.ZeroIdIsRecorded` | packages/browser-core/src/browser-semantic-registry.ts:82-93 | A backend id of zero counts as missing for the key but is recorded on the node and found by a scan |
| `SemanticRegistry.CanonicalNodeRegistry.LinkChildren` | packages/browser-core/src/browser-semantic-registry.ts:98-107 | Linking one node's children follows exactly the edges it lists, never to itself |
| `SemanticRegistry.CanonicalNodeRegistry.AddInteractiveElement` | packages/browser-core/src/browser-semantic-registry.ts:110-125 | An element becomes the target of its own node, which is made if need be and keeps its other fields, borrows semantics from the node that resolution names, and leaves other nodes alone |
| `SemanticRegistry.CanonicalNodeRegistry.LinksStayInside` | packages/browser-core/src/browser-semantic-tree.ts:405-418 | The parent links handed to the tree builder never dangle and never point to their own node |
| `SemanticTree.NearestSemanticParent` | packages/browser-core/src/browser-semantic-tree.ts:405-418 | The walk terminates and returns the first kept node strictly above, or none exactly when there is none |
| `SemanticTree.Attach` | packages/browser-core/src/browser-semantic-tree.ts:419-425 | Roots and children are the kept nodes without and with a nearest kept ancestor, in registry order |
| `SemanticTree.AttachedExactlyOnce` | packages/browser-core/src/browser-semantic-tree.ts:419-425 | Each kept node is in exactly one place |
| `TreeLaws.AttachedIffChain` | packages/browser-core/src/browser-semantic-tree.ts:405-418 | A kept node hangs below exactly the first kept node above it, along DOM parents where there are any and accessibility parents otherwise |
| `TreeLaws.KeptDomParentWins` | packages/browser-core/src/browser-semantic-tree.ts:407-413 | A kept DOM parent is the parent, whatever the accessibility tree says |
| `TreeLaws.NoParentIsRoot` | packages/browser-core/src/browser-semantic-tree.ts:409-425 | A kept node without parents is a root |
| `TreeLaws.KidsInOrder` | packages/browser-core/src/browser-semantic-tree.ts:419-425 | Siblings are in registry order |
| `TreeLaws.RootsInOrder` | packages/browser-core/src/browser-semantic-tree.ts:419-425 | And so are the roots |
| `SemanticTree.AllReachableIff` | packages/browser-core/src/browser-semantic-tree.ts:405-427 | All kept nodes are reachable from the roots exactly when no two of them are above each other |
| `SemanticTree.ReachableCount` | packages/browser-core/src/browser-semantic-tree.ts:419-440 | On acyclic links the reachable nodes number exactly `semanticNodeCount` |
| `SemanticTree.EntangledIsUnreachable` | packages/browser-core/src/browser-semantic-tree.ts:405-425 | Two kept nodes above each other cannot be reached |
| `ParentCycles.CyclicPage` | packages/browser-core/src/browser-semantic-registry.ts:49-108 | For any two different non-zero backend ids, adding a document element with one child and their accessibility nodes, of which the child lists the parent, makes both unreachable once kept |
| `ParentCycles.CircleIsUnreachable` | packages/browser-core/src/browser-semantic-tree.ts:405-425 | Two kept nodes that are each other's parent are entangled and lost, whatever else the links hold |
| `SemanticSerializer.PageIsFaithful` | packages/browser-core/src/browser-semantic-serializer.ts:56-126 | A page respects both budgets, is a pruned copy of the source in sibling order, and emits only allowed refs, each at most as often as the source has it without a disallowed ancestor, and exactly as often if the page is not marked truncated and no empty ref is allowed |
| `SerializerLaws.PageShowsWhatBelongs` | packages/browser-core/src/browser-semantic-serializer.ts:79-126 | By paths through the source: a page has every label at most as often as nodes with it belong there, and exactly as often if it is not marked truncated. A node belongs there if its ancestors do and it is an allowed target, has an allowed target below, or has no target below and gives context by its role or by standing inside a node with an allowed target |
| `SerializerLaws.TruncatedIffTooMuch` | packages/browser-core/src/browser-semantic-serializer.ts:109-126 | A page is marked truncated exactly if the tree was, or what belongs on the page exceeds the node or the byte budget |
| `SerializerLaws.SmallTreesAreWhole` | packages/browser-core/src/browser-semantic-serializer.ts:109-126 | A tree that fits both budgets as a whole is never cut |
| `SerializerLaws.CarriesIsCounted` | packages/browser-core/src/browser-semantic-serializer.ts:36-54 | The counts are positive exactly if a path leads to a target with a non-empty, or allowed, ref |
| `SerializerLaws.MoreAllowedFirst` | packages/browser-core/src/browser-semantic-serializer.ts:69-77 | Of two siblings the one with more paths to allowed targets is serialized first |
| `SerializerLaws.BytesAreOfText` | packages/browser-core/src/browser-semantic-serializer.ts:94-113 | The bytes charged for a node are those of the JSON text of its own fields |
| `SemanticSerializer.CompleteIffNoEmptyRef` | packages/browser-core/src/browser-semantic-serializer.ts:36-54 | Untruncated pages are complete for all trees exactly when no empty ref is allowed |
| `SemanticSerializer.NodeIsCharged` | packages/browser-core/src/browser-semantic-serializer.ts:109-116 | The counters account for exactly the emitted nodes and bytes and never pass their limits |
| `SemanticSerializer.NodeEmbeds` | packages/browser-core/src/browser-semantic-serializer.ts:79-121 | An emitted node is its source node with whole subtrees removed |
| `SemanticSerializer.NodeConserves` | packages/browser-core/src/browser-semantic-serializer.ts:79-121 | Emitted refs are visible ones, each at most as often, and all of them if nothing was cut |
| `SerializerClass.Serializer.SubtreeCounts` | packages/browser-core/src/browser-semantic-serializer.ts:36-54 | The recursion fills the map with the counts of every node below |
| `SerializerClass.Serializer.SerializePage` | packages/browser-core/src/browser-semantic-serializer.ts:56-126 | With unique ids, the map lookups and shared counters compute exactly the page and the truncation mark that the two modules above describe |
| `StableSort.SortIsStable` | packages/browser-core/src/browser-semantic-serializer.ts:69-77 | Sorting is a descending permutation that keeps equal keys in order |
| `NetworkLog.NetworkDiagnostics.AppendNetworkDiagnostic` | packages/browser-core/src/cdp-helper.ts:975-987 | The youngest 200 entries stay, dropped entries leave the index unless their id belongs to a newer request |
| `NetworkSpec.HeldRequests` | packages/browser-core/src/cdp-helper.ts:867-987 | Between navigations and resets the log holds exactly the youngest of the requests it held and of those the main frame has sent since, in order and consecutively numbered |
| `NetworkLog.NetworkDiagnostics.OnRequest` | packages/browser-core/src/cdp-helper.ts:867-911 | A main-frame request closes a redirected predecessor and appends one pending entry with the next sequence number, on the shared objects as on values; others change nothing |
| `NetworkLog.NetworkDiagnostics.CloseEarlier` | packages/browser-core/src/cdp-helper.ts:874-885 | A redirect response updates and closes the live entry, takes it out of the index and touches no other entry |
| `NetworkLog.NetworkDiagnostics.OnResponse` | packages/browser-core/src/cdp-helper.ts:913-965 | A response updates status, texts, outcome and kind of the live entry through the index and touches no other entry |
| `NetworkLog.NetworkDiagnostics.OnEnd` | packages/browser-core/src/cdp-helper.ts:930-950 | Finishing or failing sets outcome, reason and duration of the live entry, takes exactly it out of the index and touches no other entry |
| `NetworkLog.NetworkDiagnostics.ResetForNavigation` | packages/browser-core/src/cdp-helper.ts:1029-1041 | A navigation keeps exactly the entries of the new loader, in log and index alike |
| `NetworkFields.RequestInFields` | packages/browser-core/src/cdp-helper.ts:886-911 | A main-frame request is logged last, pending, under the next number and with its own fields; at 200 entries the oldest goes |
| `NetworkFields.RedirectInFields` | packages/browser-core/src/cdp-helper.ts:874-885 | A redirect closes the live entry of the request before, with the response and the duration, and then the request is logged like any other |
| `NetworkFields.ResponseInFields` | packages/browser-core/src/cdp-helper.ts:913-928 | A response fills in the live entry and nothing else: a status from 400 on is an error, missing fields keep their value, the kind is set once |
| `NetworkFields.FinishInFields` | packages/browser-core/src/cdp-helper.ts:930-950 | The end of loading turns pending into success, keeps any other outcome, and records the rounded duration |
| `NetworkFields.FailureInFields` | packages/browser-core/src/cdp-helper.ts:930-950 | A failure to load records outcome, reason and rounded duration |
| `NetworkFields.UnknownRequestsAreIgnored` | packages/browser-core/src/cdp-helper.ts:913-950 | Without a live entry responses and ends of loading change nothing |
| `NetworkFields.NavigationInFields` | packages/browser-core/src/cdp-helper.ts:1029-1041 | A navigation keeps, in order, exactly the entries of the new loader and their index, and nothing without a loader |
| `NetworkLog.NetworkDiagnostics.HandleEvent` | packages/browser-core/src/cdp-helper.ts:750-780 | Any event does to the shared objects what it does to the values, keeps the log bounded and ordered, every live request a logged unfinished entry under its id, and every finished entry as it was |
| `NetworkLog.NetworkDiagnostics.HandleEvents` | packages/browser-core/src/cdp-helper.ts:867-987 | The same for any sequence of events from any valid state |
| `NetworkQuery.GetNetworkDiagnostics` | packages/browser-core/src/cdp-helper.ts:643-692 | The page holds the youngest matching entries, ascending by sequence: no missing match is younger than one that is there. It is within the limit and, by its JSON text, within the byte budget, has no room for the next match, and reports the number of all matches and whether some are missing |
| `NetworkQuery.PageIsText` | packages/browser-core/src/cdp-helper.ts:668-683 | The size that is compared with the budget is the length of the page's JSON text |
| `NetworkQuery.LongerIsLarger` | packages/browser-core/src/cdp-helper.ts:643-692 | Dropping the oldest entry never makes a page larger, so the first fitting page is the longest |
| `DragGesture.DispatchDragGesture` | packages/browser-core/src/cdp-helper.ts:1238-1419 | Under every failure pattern an acknowledged press is followed by an attempted release, drop or cancel, never by both a release and drag events; interception is switched off; the gesture travels an initial part of its path and presses at the source only. On success it sent exactly the commands of its script: the acknowledged press at the source, the whole path, and the drop or release at the target |
| `DragGesture.OpenMeaning` | packages/browser-core/src/cdp-helper.ts:1412-1419 | Nothing is left open exactly when every opening attempt has a later closing one |
| `DragGesture.PathIsMonotone` | packages/browser-core/src/cdp-helper.ts:1254-1260 | The eight path points move monotonically and end exactly at the target |
| `DragGesture.DropHtml` | packages/browser-core/src/cdp-helper.ts:1359-1397 | The drag-event branch ends with an acknowledged drop at the target or an attempted cancel |
| `DragGesture.DropPointer` | packages/browser-core/src/cdp-helper.ts:1399-1411 | The pointer branch, if it succeeds, ends with an acknowledged release at the target |
| `PageScan.Scanner.Traverse` | packages/browser-core/src/cdp-page-scanner.ts:907-1088 | However often aborted, no node is visited twice, element ids are distinct, every element is that of a visited node or stands in for one at its nearest host, and every visited node has the element it should have; an uninterrupted scan visits exactly the specified nodes |
| `PageScan.Scanner.ScanPage` | packages/browser-core/src/cdp-page-scanner.ts:907-1088 | An uninterrupted scan of a document with distinct ids reports, in the fields of the nodes: every visible, interactive, describable node, every hidden editor input at its nearest hosting ancestor, nothing else, and no id twice |
| `PageScan.ScanIsPreorder` | packages/browser-core/src/cdp-page-scanner.ts:1037-1088 | With distinct ids these are all nodes of the document not below a skipped one, in document order |
| `PageScan.PreorderIsReached` | packages/browser-core/src/cdp-page-scanner.ts:1037-1088 | These are exactly the nodes reached through children, shadow roots and frame documents without passing a skipped node |
| `PageScan.Scanner.PublishProxy` | packages/browser-core/src/cdp-page-scanner.ts:1017-1033 | A proxy takes over its host's element or adds one, without repeating an id |
| `PageScan.Scanner.FindHost` | packages/browser-core/src/cdp-page-scanner.ts:850-879 | The host is the nearest suitable ancestor, and none exactly when there is none |
| `PaintOrder.FilterByPaintOrder` | packages/browser-core/src/dom-serializer.ts:187-229 | Kept and dropped elements are the input, the count is the number dropped, every element lies inside a survivor painted no earlier, and no survivor inside one listed before it |
| `PaintOrder.SurvivorsCover` | packages/browser-core/src/dom-serializer.ts:206-222 | Chains of occlusion through dropped elements end at a survivor |
| `PaintOrder.NothingKeptIsHidden` | packages/browser-core/src/dom-serializer.ts:206-222 | Nothing kept lies inside a kept element painted above it |
| `PaintOrder.ContainmentIsTransitive` | packages/browser-core/src/dom-serializer.ts:310-317 | Full containment is transitive |
| `PaintOrder.ContainmentOfPoints` | packages/browser-core/src/dom-serializer.ts:310-317 | A rectangle of no negative size is contained exactly if all its points are |
| `Utf8Budget.SegmentationsAgree` | packages/agent-extension/src/tool-output-budget.ts:220-260 | Forward and backward scanning cut every UTF-16 sequence, lone surrogates included, at the same places |
| `Utf8Budget.TakeUtf8Start` | packages/agent-extension/src/tool-output-budget.ts:220-230 | The result is the longest prefix of whole code points within the budget of bytes |
| `Utf8Budget.TakeUtf8End` | packages/agent-extension/src/tool-output-budget.ts:232-252 | The result is the longest suffix of whole code points within the budget |
| `Utf8Budget.HeadTailPreview` | packages/agent-extension/src/tool-output-budget.ts:214-218 | The preview is the longest head and tail around the notice; they overlap exactly when a code point fits into both halves, never if the text fills the budget, and the size is bounded |
| `Utf8Budget.OverlapIff` | packages/agent-extension/src/tool-output-budget.ts:214-252 | Longest prefix and longest suffix within the two halves share text exactly when some single code point fits into both |
| `Utf8Budget.TruncateUtf8` | packages/agent-extension/src/tool-output-budget.ts:320-326 | The result respects the bound, is the text itself if that fits, and otherwise the longest fitting prefix with an ellipsis |
| `Utf8Budget.Additive` | packages/agent-extension/src/tool-output-budget.ts:220-252 | Byte length is additive at code point boundaries |
| `Utf8Budget.Subadditive` | packages/agent-extension/src/tool-output-budget.ts:214-218 | Joining texts never costs more bytes than its parts |
| `Utf8Encoding.ByteLengthIsEncoded` | packages/agent-extension/src/tool-output-budget.ts:220-252 | The byte length compared with every budget is the length of the UTF-8 encoding (RFC 3629, section 3) of the text's code points, lone surrogates encoded as U+FFFD |
| `Utf8Encoding.DecodeUndoesEncode` | packages/agent-extension/src/tool-output-budget.ts:220-252 | That encoding is the one a strict decoder reads back, for every sequence of scalar values |
| `SourceMarkers.BoundedSourceReferenceMarkers` | packages/agent-extension/src/tool-output-budget.ts:146-160 | The loop keeps markers in order within the limit, and drops exactly those that do not fit after the ones kept before them |
| `SourceMarkers.AllKeptIffTheyFit` | packages/agent-extension/src/tool-output-budget.ts:146-160 | No marker is dropped exactly when all of them fit together |
| `HtmlEntities.DecodeUndoesEscape` | packages/agent-extension/src/source-reference.ts:1910-1929 | Decoding undoes both escapes on every string |
| `HtmlEntities.EscapedIsSafe` | packages/agent-extension/src/source-reference.ts:1910-1920 | Escaped attributes contain no quote or angle bracket, escaped text no angle bracket |
| `Redaction.RedactStructuredCredentials` | packages/browser-core/src/console-diagnostic-sanitizer.ts:47-91 | The worklist succeeds exactly when the nodes reachable without passing a sensitive key number at most 1000 with depth at most 12. Then every sensitive field of every reachable object holds "[REDACTED]", and every path without sensitive keys leads to what it led to before: keys, order, kinds and texts |
| `RedactionSpec.RedactsExactly` | packages/browser-core/src/console-diagnostic-sanitizer.ts:62-88 | The recursive redaction has both properties |
| `RedactionSpec.RedactionIsUnique` | packages/browser-core/src/console-diagnostic-sanitizer.ts:62-88 | And only one document has them |
| `RedactionSpec.LimitsAreCounted` | packages/browser-core/src/console-diagnostic-sanitizer.ts:54-61 | The counts behind the limits are the number and the lengths of the paths to arrays and objects |
| `Redaction.PopAndPush` | packages/browser-core/src/console-diagnostic-sanitizer.ts:54-88 | Replacing the top frame by its children keeps the account of nodes still to visit and the depth verdict |
| `Redaction.RedactedTree` | packages/browser-core/src/console-diagnostic-sanitizer.ts:62-88 | A heap redacted on a visited-closed set of nodes represents the recursive redaction |
| `ProviderMigration.GenerateKey` | packages/config/src/byok-config.ts:411-426 | The search ends at the first candidate that is neither taken nor reserved |
| `ProviderMigration.MigrateLegacyProviders` | packages/config/src/byok-config.ts:178-256 | The loop computes a migration in the specified sense: what moves, under which first free key, which recorded keys are recalled, how the three reference fields are rewritten, and nothing outside the managed runtime; it changes something exactly when there is something to migrate |
| `ProviderMigration.WalkIsMigration` | packages/config/src/byok-config.ts:198-233 | One pass over the providers overwrites no custom entry, gives every newly keyed provider its own first free candidate, and rewrites references to recorded providers exactly when their entry exists at their turn |
| `MigrationFields.MovesIff` | packages/config/src/byok-config.ts:361-388 | A provider leaves the builtin tree exactly if it is a record with key, address and models and is neither official nor managed |
| `MigrationFields.NewEntry` | packages/config/src/byok-config.ts:219-250 | A provider without a usable record gets a new entry under an unused key that is then recorded: the same provider as a custom one with an API key |
| `MigrationFields.NexusFollowsNewKey` | packages/config/src/byok-config.ts:464-475 | A nexus provider that is newly keyed leads to its own table afterwards |
| `MigrationFields.NexusFollowsRecord` | packages/config/src/byok-config.ts:464-475 | One that was migrated before leads to its recorded entry, to the table of the provider that got its key first, or nowhere |
| `MigrationFields.NexusStays` | packages/config/src/byok-config.ts:464-475 | Any other nexus provider stays and leads where it led, unless it dangled and its key is handed out |
| `MigrationFields.DefaultsFollow` | packages/config/src/byok-config.ts:442-462 | The default and the default light model of a newly keyed provider still lead to its table |
| `MigrationFields.SlugsAreSlugs` | packages/config/src/byok-config.ts:428-436 | A slug consists of lower-case words of letters and digits joined by single dashes |
| `MigrationFields.SlugKeepsLetters` | packages/config/src/byok-config.ts:428-436 | It has the letters and digits of the trimmed text, in order |
| `MigrationFields.SlugIsItself` | packages/config/src/byok-config.ts:428-436 | And a slug is its own slug |
| `MigratedReferences.NewRefsKeepTheirMeaning` | packages/config/src/byok-config.ts:442-462 | A rewritten reference resolves to the provider's own table, and means what it meant exactly under the stated condition on the provider id |
| `MigratedReferences.PrefixedIdsChangeMeaning` | packages/local-runtime/src/config/model-key.ts:31-55 | A configuration in which that condition fails: the reference meant nothing before and the provider's table after |
| `MigratedReferences.OtherRefsKeepTheirMeaning` | packages/config/src/byok-config.ts:455-462 | References to providers that do not move are left alone and keep their meaning, unless they dangle and their custom key is handed out |
| `ProviderMigration.Idempotent` | packages/config/src/byok-config.ts:178-256 | A second migration changes nothing |
| `MigratedReferences.RecordedRefsFollowTheRecord` | packages/config/src/byok-config.ts:214-233 | A reference to a provider migrated before is rewritten to its recorded entry and keeps its meaning exactly when it led to the same table |
| `MigratedReferences.DeletedStaysDeleted` | packages/config/src/byok-config.ts:203-212 | A deleted provider does not come back; its key has an entry afterwards exactly when it was handed out to a newly keyed provider, whose table then stands there |
| `MigratedReferences.DeletedRefsDangleOrAreCaptured` | packages/config/src/byok-config.ts:203-218 | A reference to a deleted provider dangles, unless its key is handed out before its turn: then it means the table of the provider that got it |
| `MigratedReferences.HandedOutIff` | packages/config/src/byok-config.ts:411-426 | A key is handed out exactly when it is, at some newly keyed provider's turn, its first free candidate |
| `MigratedReferences.BaseIsHandedOut` | packages/config/src/byok-config.ts:411-426 | In any order, a free key that is some newly keyed provider's base is handed out, and one that is no candidate of any is not |
| `MigratedReferences.DeletedKeyIsReusedIff` | packages/config/src/byok-config.ts:203-235 | If a deleted provider's key is no suffixed candidate, it is reused exactly when it is free and some newly keyed provider's base |
| `MigratedReferences.DefaultModelIsCaptured` | packages/config/src/byok-config.ts:198-238 | An input for which the default model meant the deleted provider's table and afterwards means another provider's |
| `MigratedReferences.DefaultModelDangles` | packages/config/src/byok-config.ts:198-238 | The same input listed in the other order leaves the default model dangling |
| `ResolveExtensions.Resolve` | packages/agent-runtime/src/resolve.ts:21-102 | Inputs are accepted exactly when all id checks pass, and a refusal names an id at fault. The result is the base without what is disabled and the enabled additions, in order, each replaced where asked for, with distinct ids |
| `ResolveExtensions.SelectExtensions` | packages/agent-runtime/src/resolve.ts:40-70 | The list is the base without disabled extensions followed by the enabled additions, in their orders |
| `ResolveExtensions.SwapIsHonoured` | packages/agent-runtime/src/resolve.ts:72-89 | Two extensions that replace each other change places and untouched ones stay |
| `Assembly.Registry.InitExtensions` | packages/agent-runtime/src/registry.ts:158-187 | Initialization succeeds exactly when every extension initializes and ids are distinct; any failure is final and clears the registry. Every extension starts enabled |
| `Assembly.Registry.Apply` | packages/agent-runtime/src/registry.ts:189-235 | A toggle is refused exactly for unknown ids or by an unready registry; otherwise every pair of extension and session has the enablement its scope calls for, all others keep theirs, and contributions never change |
| `Enablement.LastWordDecides` | packages/agent-runtime/src/registry.ts:189-243 | After any calls, an extension is enabled for a session as the last call about the two in that session said, unless the session was disposed since; else as the last global call said; else as it was at first |
| `Assembly.Registry.ListExtensions` | packages/agent-runtime/src/registry.ts:207-221 | The reported enablement is the one an assembly for that session uses |
| `Assembly.Registry.AssembleTurn` | packages/agent-runtime/src/registry.ts:345-435 | The turn depends only on the enablement at its start, whatever toggles interleave, and is refused exactly when tool names collide, naming the first repeated one; the registry is left as the toggles made it. It lists, each once and in load order, the tools and the non-empty prompts of the enabled extensions after the seed's, all their reminders by priority and then in load and provider order, and the enabled and disabled ids |
| `Assembly.TurnIsListed` | packages/agent-runtime/src/registry.ts:345-435 | The assembled turn is exactly that listing |
| `Assembly.Registry.AssembleModelContext` | packages/agent-runtime/src/registry.ts:326-343 | The model context agrees with the turn on tools and system prefix |
| `Assembly.OnlyEnabledContribute` | packages/agent-runtime/src/registry.ts:371-409 | A turn offers exactly the tools of the enabled extensions, and every extension is reported as either enabled or disabled |
| `Assembly.RemindersAreStable` | packages/agent-runtime/src/registry.ts:410-413 | Sorting the reminders is a stable permutation by descending priority |
| `Assembly.AppendModelContextContributions` | packages/agent-runtime/src/registry.ts:448-476 | One extension's tools and non-empty prompts are appended, or a taken name is reported |

## Left out

- The byte size of an element record, of a semantic tree and of the fixed parts of a page are given numbers; page sizes are concrete sums of them, with decimal lengths of the counters.
- Absent optional ids and an absent `frameEpochs` or `snapshots` map are modelled as empty; the code treats both alike, except that a DOM node may carry an explicitly empty frame id.
- The re-insertion of `session.snapshot` in `browserSnapshotStore` is not modelled: the latest snapshot is a member of the store in every reachable state, so that branch changes nothing.
- `frameRefs`, the element map manager, `keyboardContinuationTarget`, semantic contexts and the ordering of elements by priority are not modelled.
- Roles, names, meaningfulness, visibility, interactivity and editor-host predicates are given per node or as functions; what the page looks like is not modelled.
- Canonical nodes of the registry are values in its map, not objects; nothing outside the registry updates them.
- The node count cap and the merging of per-frame semantic trees are not modelled.
- SerializerClass.Serializer.SerializePage: requires unique node ids, because the counts are filed by id.
- PaintOrder.FilterByPaintOrder: requires distinct element indices, because dropped elements are remembered by index.
- PageScan.ScanIsPreorder: requires distinct backend ids; for documents that repeat an id the scan is specified by `Scan` only.
- NetworkQuery.GetNetworkDiagnostics: page sizes count one byte for each character of a text, without JSON escapes.
- Timers, abort signals, transports and promises appear only as steps that may succeed, fail, settle late or not at all; attaching and disposing event listeners is not modelled.
- Console diagnostics, log sanitizing by regular expressions and the classification of sensitive keys are not modelled; redaction takes the classification as a parameter.
- Redaction.RedactStructuredCredentials: the document is a tree of objects with bounded rank; JSON text cannot express sharing or cycles.
- The hash of a provider id is a parameter whose values contain no slash; prototype keys of JavaScript objects, YAML, backups and file permissions are not modelled.
- `applyRequiredProviderOverrides` and context limits are not modelled; the file-level report of whether a rewriting changed a field is not either.
- Short citation ids and their alias maps, citation normalization and evidence heuristics are not modelled.
- Hooks, turn handlers and parameters of extensions are not modelled; a contribution is what it yields for the turn at hand.
- Assembly.Registry.AssembleTurn: toggles interleave before each extension's contributions; between the contributions of one extension they could not be observed either, since the loop does not consult the registry there.
- `filterByBoundingBox` and the footer counts of the DOM serializer are not modelled.
- Integers and sequence numbers are unbounded; coordinates of a drag are the integers that the input scaling rounds to.

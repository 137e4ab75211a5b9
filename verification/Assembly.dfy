/**
 The extension registry: lifecycle, enablement per session, and the assembly of a turn. An
 assembly suspends while contributions are computed; toggles that arrive meanwhile change the
 registry but not the assembly.
 */
module Assembly {
  import opened Listing
  import opened StableSort
  import opened Wrappers

  datatype Tool = Tool(name: string, body: nat)

  datatype Reminder = Reminder(provider: string, priority: int, text: string)

  /** An extension and what its contributors yield for the turn at hand; empty prompts are skipped. */
  datatype Loaded = Loaded(
    id: string,
    enabledGlobal: bool,
    tools: seq<Tool>,
    systemPrompts: seq<string>,
    userPrompts: seq<string>,
    reminders: seq<Option<Reminder>>)

  datatype Lifecycle = New | Initializing | Ready | Failed

  /** A control-plane call; the empty session id stands for the global scope. */
  datatype Toggle =
    | SetEnabled(extensionId: string, enabled: bool, sessionId: string)
    | DisposeSession(sessionId: string)

  datatype Turn = Turn(
    tools: seq<Tool>,
    system: seq<string>,
    user: seq<string>,
    reminders: seq<Reminder>,
    enabledIds: seq<string>,
    disabledIds: seq<string>)

  datatype TurnResult = Assembled(turn: Turn) | DuplicateTool(name: string) | TurnNotReady

  datatype ContextResult =
    | Context(tools: seq<Tool>, system: seq<string>)
    | DuplicateContextTool(name: string)
    | ContextNotReady

  // ---------------------------------------------------------------- enablement

  type Overrides = map<string, map<string, bool>>

  function IsEnabled(l: Loaded, overrides: Overrides, sessionId: string): bool
  {
    if sessionId in overrides && l.id in overrides[sessionId] then overrides[sessionId][l.id] else l.enabledGlobal
  }

  /**
   What a control-plane call makes of one pair of extension and session. A session toggle decides
   for its session alone; a global one for every session without an override of its own; a
   disposed session falls back to the global flags.
   */
  function EnabledAfter(t: Toggle, l: Loaded, overrides: Overrides, sessionId: string): bool
  {
    match t
    case SetEnabled(id, enabled, scope) =>
      var isOverridden := sessionId in overrides && id in overrides[sessionId];
      if l.id == id && (if scope != "" then sessionId == scope else !isOverridden) then enabled
      else IsEnabled(l, overrides, sessionId)
    case DisposeSession(scope) =>
      if sessionId == scope then l.enabledGlobal else IsEnabled(l, overrides, sessionId)
  }

  /** A control-plane call of a ready registry; one that names an unknown extension is refused. */
  function Toggled(es: seq<Loaded>, overrides: Overrides, t: Toggle): (seq<Loaded>, Overrides)
  {
    match t
    case DisposeSession(sessionId) => (es, overrides - {sessionId})
    case SetEnabled(id, enabled, sessionId) =>
      if !IsLoaded(es, id) then (es, overrides)
      else if sessionId == "" then (WithGlobal(es, id, enabled), overrides)
      else
        var sessionMap := if sessionId in overrides then overrides[sessionId] else map[];
        (es, overrides[sessionId := sessionMap[id := enabled]])
  }

  function ToggledAll(es: seq<Loaded>, overrides: Overrides, ts: seq<Toggle>): (seq<Loaded>, Overrides)
  {
    if ts == [] then (es, overrides)
    else
      var before := ToggledAll(es, overrides, ts[..|ts| - 1]);
      Toggled(before.0, before.1, ts[|ts| - 1])
  }

  function WithGlobal(es: seq<Loaded>, id: string, enabled: bool): (r: seq<Loaded>)
    ensures |r| == |es|
    ensures forall i :: 0 <= i < |es| ==> r[i] == if es[i].id == id then es[i].(enabledGlobal := enabled) else es[i]
  {
    seq(|es|, i requires 0 <= i < |es| => if es[i].id == id then es[i].(enabledGlobal := enabled) else es[i])
  }

  lemma {:induction false} ToggledConcat(es: seq<Loaded>, overrides: Overrides, ts: seq<Toggle>, us: seq<Toggle>)
    ensures var before := ToggledAll(es, overrides, ts);
            ToggledAll(es, overrides, ts + us) == ToggledAll(before.0, before.1, us)
    decreases |us|
  {
    if us == [] {
      assert ts + us == ts;
    } else {
      ToggledConcat(es, overrides, ts, us[..|us| - 1]);
      assert (ts + us)[..|ts + us| - 1] == ts + us[..|us| - 1];
    }
  }

  /** The calls that arrive at the first `n` suspension points. */
  function Meanwhile(interference: nat -> seq<Toggle>, n: nat): seq<Toggle>
  {
    if n == 0 then [] else Meanwhile(interference, n - 1) + interference(n - 1)
  }

  predicate IsLoaded(es: seq<Loaded>, id: string)
  {
    exists k :: 0 <= k < |es| && es[k].id == id
  }

  function Flags(es: seq<Loaded>, overrides: Overrides, sessionId: string): (r: seq<bool>)
    ensures |r| == |es| && forall i :: 0 <= i < |es| ==> r[i] == IsEnabled(es[i], overrides, sessionId)
  {
    seq(|es|, i requires 0 <= i < |es| => IsEnabled(es[i], overrides, sessionId))
  }

  /** The same extensions up to their global flags. */
  ghost predicate SameContributions(a: seq<Loaded>, b: seq<Loaded>)
  {
    |a| == |b| && forall i :: 0 <= i < |a| ==> a[i] == b[i].(enabledGlobal := a[i].enabledGlobal)
  }

  // ---------------------------------------------------------------- what an assembly consists of

  function NonEmpty(ps: seq<string>): seq<string>
  {
    if ps == [] then [] else NonEmpty(ps[..|ps| - 1]) + if ps[|ps| - 1] == "" then [] else [ps[|ps| - 1]]
  }

  function Emitted(rs: seq<Option<Reminder>>): seq<Reminder>
  {
    if rs == [] then [] else Emitted(rs[..|rs| - 1]) + if rs[|rs| - 1].None? then [] else [rs[|rs| - 1].value]
  }

  function Priority(): Reminder -> int
  {
    (r: Reminder) => r.priority
  }

  /** The turn so far with one more enabled extension. */
  function Extend(t: Turn, l: Loaded): Turn
  {
    Turn(t.tools + l.tools, t.system + NonEmpty(l.systemPrompts), t.user + NonEmpty(l.userPrompts),
         t.reminders + Emitted(l.reminders), t.enabledIds + [l.id], t.disabledIds)
  }

  /** Contributions of the first `n` extensions whose flag is set, in load order and before sorting. */
  function Contributed(es: seq<Loaded>, flags: seq<bool>, n: nat): Turn
    requires n <= |es| == |flags|
  {
    if n == 0 then Turn([], [], [], [], [], [])
    else
      var t, l := Contributed(es, flags, n - 1), es[n - 1];
      if flags[n - 1] then Extend(t, l) else t.(disabledIds := t.disabledIds + [l.id])
  }

  /** The caller's own tools and user prompt come first. */
  function Seeded(t: Turn, seedTools: seq<Tool>, seedUser: string): Turn
  {
    t.(tools := seedTools + t.tools, user := NonEmpty([seedUser]) + t.user)
  }

  /** The loop's accumulator before extension `i`. */
  function Partial(es: seq<Loaded>, flags: seq<bool>, n: nat, seedTools: seq<Tool>, seedUser: string): Turn
    requires n <= |es| == |flags|
  {
    Seeded(Contributed(es, flags, n), seedTools, seedUser)
  }

  /** `l` may carry a global flag toggled since the assembly began. */
  lemma PartialStep(es: seq<Loaded>, flags: seq<bool>, n: nat, seedTools: seq<Tool>, seedUser: string, l: Loaded)
    requires n < |es| == |flags| && l == es[n].(enabledGlobal := l.enabledGlobal)
    ensures var t, t' := Partial(es, flags, n, seedTools, seedUser), Partial(es, flags, n + 1, seedTools, seedUser);
            t' == if flags[n] then Extend(t, l) else t.(disabledIds := t.disabledIds + [l.id])
  {
    var t := Contributed(es, flags, n);
    assert (seedTools + t.tools) + l.tools == seedTools + (t.tools + l.tools);
    var user, more := NonEmpty([seedUser]), NonEmpty(l.userPrompts);
    assert (user + t.user) + more == user + (t.user + more);
  }

  /** The finished turn, given the extensions and the flags it works with. */
  function TurnOf(es: seq<Loaded>, flags: seq<bool>, seedTools: seq<Tool>, seedUser: string): Turn
    requires |es| == |flags|
  {
    var t := Partial(es, flags, |es|, seedTools, seedUser);
    t.(reminders := Sort(Priority(), t.reminders))
  }

  ghost predicate DistinctNames(ts: seq<Tool>)
  {
    forall i, j :: 0 <= i < j < |ts| ==> ts[i].name != ts[j].name
  }

  function Names(ts: seq<Tool>): (r: set<string>)
    ensures forall x :: x in r <==> exists i :: 0 <= i < |ts| && ts[i].name == x
  {
    set i | 0 <= i < |ts| :: ts[i].name
  }

  lemma NamesSnoc(ts: seq<Tool>, t: Tool)
    ensures Names(ts + [t]) == Names(ts) + {t.name}
    ensures DistinctNames(ts + [t]) <==> DistinctNames(ts) && t.name !in Names(ts)
  {
    var all := ts + [t];
    assert forall i :: 0 <= i < |ts| ==> all[i] == ts[i];
    assert all[|ts|] == t;
    forall x | x in Names(ts)
      ensures x in Names(all)
    {
      var i :| 0 <= i < |ts| && ts[i].name == x;
      assert all[i].name == x;
    }
    forall i | 0 <= i < |ts| && DistinctNames(all)
      ensures ts[i].name != t.name
    {
      assert all[i].name != all[|ts|].name;
    }
    if DistinctNames(all) {
      forall i, j | 0 <= i < j < |ts|
        ensures ts[i].name != ts[j].name
      {
        assert all[i].name != all[j].name;
      }
    }
  }

  /** Push a catalog; a name that is already taken fails the assembly. */
  method AppendTools(tools: seq<Tool>, names: set<string>, more: seq<Tool>)
    returns (all: seq<Tool>, names': set<string>, dup: Option<string>)
    requires DistinctNames(tools) && names == Names(tools)
    ensures dup.None? <==> DistinctNames(tools + more)
    ensures dup.Some? ==> FirstRepeat(tools + more, dup.value)
    ensures dup.None? ==> all == tools + more && names' == Names(all)
  {
    all, names' := tools, names;
    for i := 0 to |more|
      invariant all == tools + more[..i] && DistinctNames(all) && names' == Names(all)
    {
      NamesSnoc(all, more[i]);
      assert tools + more[..i + 1] == all + [more[i]];
      if more[i].name in names' {
        assert (all + [more[i]])[..|all|] == all;
        assert RepeatsAt(all + [more[i]], |all|, more[i].name);
        RepeatStays(tools + more, all + [more[i]], more[i].name);
        return all, names', Some(more[i].name);
      }
      names' := names' + {more[i].name};
      all := all + [more[i]];
    }
    assert more[..|more|] == more;
    dup := None;
  }

  /** `name` is what the first tool that repeats a name is called. */
  ghost predicate FirstRepeat(ts: seq<Tool>, name: string)
  {
    exists j :: 0 <= j < |ts| && RepeatsAt(ts, j, name)
  }

  ghost predicate RepeatsAt(ts: seq<Tool>, j: nat, name: string)
    requires j < |ts|
  {
    ts[j].name == name && name in Names(ts[..j]) && DistinctNames(ts[..j])
  }

  lemma RepeatStays(all: seq<Tool>, prefix: seq<Tool>, name: string)
    requires prefix <= all && FirstRepeat(prefix, name)
    ensures FirstRepeat(all, name) && !DistinctNames(all)
  {
    var j :| 0 <= j < |prefix| && RepeatsAt(prefix, j, name);
    assert all[..j] == prefix[..j];
    assert RepeatsAt(all, j, name);
    var i :| 0 <= i < j && prefix[..j][i].name == name;
    assert all[i].name == all[j].name;
  }

  /** The turn is assembled unless two of its tools share a name. */
  ghost predicate IsTurn(r: TurnResult, turn: Turn)
  {
    && (r.Assembled? <==> DistinctNames(turn.tools))
    && (r.Assembled? ==> r.turn == turn) && (r.DuplicateTool? ==> FirstRepeat(turn.tools, r.name))
  }

  /** A model context has the tools and the system prompt of the turn, or both are refused. */
  ghost predicate Agrees(r: ContextResult, turn: Turn)
  {
    && (r.Context? <==> DistinctNames(turn.tools))
    && (r.Context? ==> r.tools == turn.tools && r.system == turn.system)
    && (r.DuplicateContextTool? ==> FirstRepeat(turn.tools, r.name))
  }

  /** The caller's user prompt does not matter for that. */
  lemma AgreesForAll(r: ContextResult, es: seq<Loaded>, flags: seq<bool>, seedTools: seq<Tool>)
    requires |es| == |flags| && Agrees(r, TurnOf(es, flags, seedTools, ""))
    ensures forall seedUser :: Agrees(r, TurnOf(es, flags, seedTools, seedUser))
  {
  }

  // ---------------------------------------------------------------- the turn as a listing

  function Texts(ps: seq<string>): seq<Option<string>>
  {
    seq(|ps|, i requires 0 <= i < |ps| => if ps[i] == "" then None else Some(ps[i]))
  }

  function Each<T>(xs: seq<T>): seq<Option<T>>
  {
    seq(|xs|, i requires 0 <= i < |xs| => Some(xs[i]))
  }

  /** One row for each extension in load order; a disabled extension has an empty one. */
  function Rows<T>(es: seq<Loaded>, flags: seq<bool>, row: Loaded -> seq<Option<T>>): (rows: seq<seq<Option<T>>>)
    requires |es| == |flags|
    ensures |rows| == |es| && forall i :: 0 <= i < |es| ==> rows[i] == if flags[i] then row(es[i]) else []
  {
    seq(|es|, i requires 0 <= i < |es| => if flags[i] then row(es[i]) else [])
  }

  function ToolsOf(): Loaded -> seq<Option<Tool>>
  {
    (l: Loaded) => Each(l.tools)
  }

  function SystemOf(): Loaded -> seq<Option<string>>
  {
    (l: Loaded) => Texts(l.systemPrompts)
  }

  function UserOf(): Loaded -> seq<Option<string>>
  {
    (l: Loaded) => Texts(l.userPrompts)
  }

  function RemindersOf(): Loaded -> seq<Option<Reminder>>
  {
    (l: Loaded) => l.reminders
  }

  function IdOf(): Loaded -> seq<Option<string>>
  {
    (l: Loaded) => [Some(l.id)]
  }

  function Negated(flags: seq<bool>): (r: seq<bool>)
    ensures |r| == |flags| && forall i :: 0 <= i < |flags| ==> r[i] == !flags[i]
  {
    seq(|flags|, i requires 0 <= i < |flags| => !flags[i])
  }

  /**
   What the turn consists of: after the seed's tools and user prompt, the tools and the non-empty
   prompts of the enabled extensions in load order, each once; every reminder they emit, once, by
   descending priority and among equals in load order and then provider order; and the ids.
   */
  ghost predicate ListsContributions(t: Turn, es: seq<Loaded>, flags: seq<bool>, seedTools: seq<Tool>, seedUser: string)
    requires |es| == |flags|
  {
    var first := if seedUser == "" then [] else [seedUser];
    && seedTools <= t.tools && IsListing(Rows(es, flags, ToolsOf()), t.tools[|seedTools|..])
    && IsListing(Rows(es, flags, SystemOf()), t.system)
    && first <= t.user && IsListing(Rows(es, flags, UserOf()), t.user[|first|..])
    && IsSortedListing(Rows(es, flags, RemindersOf()), (r: Reminder) => r.priority, t.reminders)
    && IsListing(Rows(es, flags, IdOf()), t.enabledIds)
    && IsListing(Rows(es, Negated(flags), IdOf()), t.disabledIds)
  }

  lemma {:induction false} NonEmptyIsPresent(ps: seq<string>)
    ensures NonEmpty(ps) == Present(Texts(ps))
  {
    if ps != [] {
      NonEmptyIsPresent(ps[..|ps| - 1]);
      assert Texts(ps)[..|ps| - 1] == Texts(ps[..|ps| - 1]);
    }
  }

  lemma {:induction false} EmittedIsPresent(rs: seq<Option<Reminder>>)
    ensures Emitted(rs) == Present(rs)
  {
    if rs != [] {
      EmittedIsPresent(rs[..|rs| - 1]);
    }
  }

  lemma {:induction false} EachIsPresent<T>(xs: seq<T>)
    ensures Present(Each(xs)) == xs
  {
    if xs != [] {
      EachIsPresent(xs[..|xs| - 1]);
      assert Each(xs)[..|xs| - 1] == Each(xs[..|xs| - 1]);
      assert xs == xs[..|xs| - 1] + [xs[|xs| - 1]];
    }
  }

  lemma OneIsPresent<T>(x: T)
    ensures Present([Some(x)]) == [x]
  {
    assert [Some(x)][..0] == [];
    assert Present<T>([]) == [];
  }

  // Each column grows by the present entries of the row.

  lemma ToolsGrow(es: seq<Loaded>, flags: seq<bool>, n: nat)
    requires n < |es| == |flags|
    ensures Contributed(es, flags, n + 1).tools ==
            Contributed(es, flags, n).tools + Present(Rows(es, flags, ToolsOf())[n])
  {
    EachIsPresent(es[n].tools);
  }

  lemma ToolsNext(es: seq<Loaded>, flags: seq<bool>, n: nat, rows: seq<seq<Option<Tool>>>)
    requires n < |es| == |flags| && rows == Rows(es, flags, ToolsOf())
    requires ListedTo(rows, n, Contributed(es, flags, n).tools)
    ensures ListedTo(rows, n + 1, Contributed(es, flags, n + 1).tools)
  {
    ToolsGrow(es, flags, n);
    RowListed(rows, n, Contributed(es, flags, n).tools, Contributed(es, flags, n + 1).tools);
  }

  lemma {:induction false} ToolsAreListed(es: seq<Loaded>, flags: seq<bool>, n: nat, rows: seq<seq<Option<Tool>>>)
    requires n <= |es| == |flags| && rows == Rows(es, flags, ToolsOf())
    ensures ListedTo(rows, n, Contributed(es, flags, n).tools)
  {
    if n == 0 {
      NothingListed(rows);
    } else {
      ToolsAreListed(es, flags, n - 1, rows);
      ToolsNext(es, flags, n - 1, rows);
    }
  }

  lemma SystemGrows(es: seq<Loaded>, flags: seq<bool>, n: nat)
    requires n < |es| == |flags|
    ensures Contributed(es, flags, n + 1).system ==
            Contributed(es, flags, n).system + Present(Rows(es, flags, SystemOf())[n])
  {
    NonEmptyIsPresent(es[n].systemPrompts);
  }

  lemma SystemNext(es: seq<Loaded>, flags: seq<bool>, n: nat, rows: seq<seq<Option<string>>>)
    requires n < |es| == |flags| && rows == Rows(es, flags, SystemOf())
    requires ListedTo(rows, n, Contributed(es, flags, n).system)
    ensures ListedTo(rows, n + 1, Contributed(es, flags, n + 1).system)
  {
    SystemGrows(es, flags, n);
    RowListed(rows, n, Contributed(es, flags, n).system, Contributed(es, flags, n + 1).system);
  }

  lemma {:induction false} SystemIsListed(es: seq<Loaded>, flags: seq<bool>, n: nat, rows: seq<seq<Option<string>>>)
    requires n <= |es| == |flags| && rows == Rows(es, flags, SystemOf())
    ensures ListedTo(rows, n, Contributed(es, flags, n).system)
  {
    if n == 0 {
      NothingListed(rows);
    } else {
      SystemIsListed(es, flags, n - 1, rows);
      SystemNext(es, flags, n - 1, rows);
    }
  }

  lemma UserGrows(es: seq<Loaded>, flags: seq<bool>, n: nat)
    requires n < |es| == |flags|
    ensures Contributed(es, flags, n + 1).user ==
            Contributed(es, flags, n).user + Present(Rows(es, flags, UserOf())[n])
  {
    NonEmptyIsPresent(es[n].userPrompts);
  }

  lemma UserNext(es: seq<Loaded>, flags: seq<bool>, n: nat, rows: seq<seq<Option<string>>>)
    requires n < |es| == |flags| && rows == Rows(es, flags, UserOf())
    requires ListedTo(rows, n, Contributed(es, flags, n).user)
    ensures ListedTo(rows, n + 1, Contributed(es, flags, n + 1).user)
  {
    UserGrows(es, flags, n);
    RowListed(rows, n, Contributed(es, flags, n).user, Contributed(es, flags, n + 1).user);
  }

  lemma {:induction false} UserIsListed(es: seq<Loaded>, flags: seq<bool>, n: nat, rows: seq<seq<Option<string>>>)
    requires n <= |es| == |flags| && rows == Rows(es, flags, UserOf())
    ensures ListedTo(rows, n, Contributed(es, flags, n).user)
  {
    if n == 0 {
      NothingListed(rows);
    } else {
      UserIsListed(es, flags, n - 1, rows);
      UserNext(es, flags, n - 1, rows);
    }
  }

  lemma RemindersGrow(es: seq<Loaded>, flags: seq<bool>, n: nat)
    requires n < |es| == |flags|
    ensures Contributed(es, flags, n + 1).reminders ==
            Contributed(es, flags, n).reminders + Present(Rows(es, flags, RemindersOf())[n])
  {
    EmittedIsPresent(es[n].reminders);
  }

  lemma RemindersNext(es: seq<Loaded>, flags: seq<bool>, n: nat, rows: seq<seq<Option<Reminder>>>)
    requires n < |es| == |flags| && rows == Rows(es, flags, RemindersOf())
    requires ListedTo(rows, n, Contributed(es, flags, n).reminders)
    ensures ListedTo(rows, n + 1, Contributed(es, flags, n + 1).reminders)
  {
    RemindersGrow(es, flags, n);
    RowListed(rows, n, Contributed(es, flags, n).reminders, Contributed(es, flags, n + 1).reminders);
  }

  lemma {:induction false} RemindersAreListed(es: seq<Loaded>, flags: seq<bool>, n: nat,
                                              rows: seq<seq<Option<Reminder>>>)
    requires n <= |es| == |flags| && rows == Rows(es, flags, RemindersOf())
    ensures ListedTo(rows, n, Contributed(es, flags, n).reminders)
  {
    if n == 0 {
      NothingListed(rows);
    } else {
      RemindersAreListed(es, flags, n - 1, rows);
      RemindersNext(es, flags, n - 1, rows);
    }
  }

  lemma EnabledGrow(es: seq<Loaded>, flags: seq<bool>, n: nat)
    requires n < |es| == |flags|
    ensures Contributed(es, flags, n + 1).enabledIds ==
            Contributed(es, flags, n).enabledIds + Present(Rows(es, flags, IdOf())[n])
  {
    OneIsPresent(es[n].id);
  }

  lemma EnabledNext(es: seq<Loaded>, flags: seq<bool>, n: nat, rows: seq<seq<Option<string>>>)
    requires n < |es| == |flags| && rows == Rows(es, flags, IdOf())
    requires ListedTo(rows, n, Contributed(es, flags, n).enabledIds)
    ensures ListedTo(rows, n + 1, Contributed(es, flags, n + 1).enabledIds)
  {
    EnabledGrow(es, flags, n);
    RowListed(rows, n, Contributed(es, flags, n).enabledIds, Contributed(es, flags, n + 1).enabledIds);
  }

  lemma {:induction false} EnabledAreListed(es: seq<Loaded>, flags: seq<bool>, n: nat, rows: seq<seq<Option<string>>>)
    requires n <= |es| == |flags| && rows == Rows(es, flags, IdOf())
    ensures ListedTo(rows, n, Contributed(es, flags, n).enabledIds)
  {
    if n == 0 {
      NothingListed(rows);
    } else {
      EnabledAreListed(es, flags, n - 1, rows);
      EnabledNext(es, flags, n - 1, rows);
    }
  }

  lemma DisabledGrow(es: seq<Loaded>, flags: seq<bool>, n: nat)
    requires n < |es| == |flags|
    ensures Contributed(es, flags, n + 1).disabledIds ==
            Contributed(es, flags, n).disabledIds + Present(Rows(es, Negated(flags), IdOf())[n])
  {
    OneIsPresent(es[n].id);
  }

  lemma DisabledNext(es: seq<Loaded>, flags: seq<bool>, n: nat, rows: seq<seq<Option<string>>>)
    requires n < |es| == |flags| && rows == Rows(es, Negated(flags), IdOf())
    requires ListedTo(rows, n, Contributed(es, flags, n).disabledIds)
    ensures ListedTo(rows, n + 1, Contributed(es, flags, n + 1).disabledIds)
  {
    DisabledGrow(es, flags, n);
    RowListed(rows, n, Contributed(es, flags, n).disabledIds, Contributed(es, flags, n + 1).disabledIds);
  }

  lemma {:induction false} DisabledAreListed(es: seq<Loaded>, flags: seq<bool>, n: nat, rows: seq<seq<Option<string>>>)
    requires n <= |es| == |flags| && rows == Rows(es, Negated(flags), IdOf())
    ensures ListedTo(rows, n, Contributed(es, flags, n).disabledIds)
  {
    if n == 0 {
      NothingListed(rows);
    } else {
      DisabledAreListed(es, flags, n - 1, rows);
      DisabledNext(es, flags, n - 1, rows);
    }
  }

  lemma RemindersAreSorted(es: seq<Loaded>, flags: seq<bool>, reminders: seq<Reminder>)
    requires |es| == |flags| && reminders == Contributed(es, flags, |es|).reminders
    ensures IsSortedListing(Rows(es, flags, RemindersOf()), (r: Reminder) => r.priority, Sort(Priority(), reminders))
  {
    RemindersAreListed(es, flags, |es|, Rows(es, flags, RemindersOf()));
    SortListing(Rows(es, flags, RemindersOf()), Priority(), reminders);
  }

  lemma TextsAreListed(es: seq<Loaded>, flags: seq<bool>, t: Turn)
    requires |es| == |flags| && t == Contributed(es, flags, |es|)
    ensures IsListing(Rows(es, flags, ToolsOf()), t.tools) && IsListing(Rows(es, flags, SystemOf()), t.system)
    ensures IsListing(Rows(es, flags, UserOf()), t.user)
  {
    ToolsAreListed(es, flags, |es|, Rows(es, flags, ToolsOf()));
    SystemIsListed(es, flags, |es|, Rows(es, flags, SystemOf()));
    UserIsListed(es, flags, |es|, Rows(es, flags, UserOf()));
  }

  lemma IdsAreListed(es: seq<Loaded>, flags: seq<bool>, t: Turn)
    requires |es| == |flags| && t == Contributed(es, flags, |es|)
    ensures IsListing(Rows(es, flags, IdOf()), t.enabledIds)
    ensures IsListing(Rows(es, Negated(flags), IdOf()), t.disabledIds)
  {
    EnabledAreListed(es, flags, |es|, Rows(es, flags, IdOf()));
    DisabledAreListed(es, flags, |es|, Rows(es, Negated(flags), IdOf()));
  }

  lemma TurnIsListed(es: seq<Loaded>, flags: seq<bool>, seedTools: seq<Tool>, seedUser: string)
    requires |es| == |flags|
    ensures ListsContributions(TurnOf(es, flags, seedTools, seedUser), es, flags, seedTools, seedUser)
  {
    var t, first := Contributed(es, flags, |es|), NonEmpty([seedUser]);
    TextsAreListed(es, flags, t);
    IdsAreListed(es, flags, t);
    RemindersAreSorted(es, flags, t.reminders);
    SeedPrompt(seedUser);
    assert (seedTools + t.tools)[|seedTools|..] == t.tools;
    assert (first + t.user)[|first|..] == t.user;
  }

  lemma SeedPrompt(seedUser: string)
    ensures NonEmpty([seedUser]) == if seedUser != "" then [seedUser] else []
  {
    assert [seedUser][..0] == [];
  }

  // ---------------------------------------------------------------- the registry

  class Registry {
    var lifecycle: Lifecycle
    var extensions: seq<Loaded>
    var overrides: Overrides

    constructor ()
      ensures Valid() && lifecycle == New && extensions == [] && overrides == map[]
    {
      lifecycle, extensions, overrides := New, [], map[];
    }

    /** Ids are unique, and session overrides are never filed under the empty session id. */
    ghost predicate Valid()
      reads this
    {
      && (forall i, j :: 0 <= i < j < |extensions| ==> extensions[i].id != extensions[j].id)
      && "" !in overrides
      && (lifecycle.New? || lifecycle.Failed? ==> extensions == [] && overrides == map[])
    }

    /**
     One pass of `init`; `inits[i]` tells whether the i-th extension initializes. Any failure is
     final. Every extension starts enabled.
     */
    method InitExtensions(exts: seq<Loaded>, inits: seq<bool>) returns (ok: bool)
      requires Valid() && |inits| == |exts|
      modifies this
      ensures Valid()
      ensures !old(lifecycle).New? ==> !ok && unchanged(this)
      ensures old(lifecycle).New? ==>
                && (ok <==> (forall i :: 0 <= i < |exts| ==> inits[i]) &&
                            (forall i, j :: 0 <= i < j < |exts| ==> exts[i].id != exts[j].id))
                && lifecycle == (if ok then Ready else Failed)
                && overrides == map[] && |extensions| == (if ok then |exts| else 0)
                && forall i :: 0 <= i < |extensions| ==> extensions[i] == exts[i].(enabledGlobal := true)
    {
      if !lifecycle.New? {
        return false;
      }
      lifecycle := Initializing;
      for i := 0 to |exts|
        invariant lifecycle.Initializing? && Valid() && overrides == map[] && |extensions| == i
        invariant forall k :: 0 <= k < i ==> extensions[k] == exts[k].(enabledGlobal := true)
        invariant forall k :: 0 <= k < i ==> inits[k]
      {
        if exists k :: 0 <= k < |extensions| && extensions[k].id == exts[i].id {
          assert !(forall a, b :: 0 <= a < b < |exts| ==> exts[a].id != exts[b].id);
          lifecycle, extensions, overrides := Failed, [], map[];
          return false;
        }
        extensions := extensions + [exts[i].(enabledGlobal := true)];
        if !inits[i] {
          lifecycle, extensions, overrides := Failed, [], map[];
          return false;
        }
      }
      lifecycle := Ready;
      return true;
    }

    /**
     One control-plane call. It is refused exactly for an unknown extension and by a registry that
     is not ready, and a refused call changes nothing.
     */
    method Apply(t: Toggle) returns (ok: bool)
      requires Valid()
      modifies this`extensions, this`overrides
      ensures Valid() && SameContributions(extensions, old(extensions))
      ensures !ok ==> extensions == old(extensions) && overrides == old(overrides)
      ensures ok <==> lifecycle.Ready? && (t.SetEnabled? ==> IsLoaded(extensions, t.extensionId))
      ensures ok ==>
                forall i, sessionId :: 0 <= i < |extensions| ==>
                  IsEnabled(extensions[i], overrides, sessionId) ==
                  EnabledAfter(t, old(extensions)[i], old(overrides), sessionId)
      ensures lifecycle.Ready? ==> (extensions, overrides) == Toggled(old(extensions), old(overrides), t)
    {
      if !lifecycle.Ready? {
        return false;
      }
      match t
      case DisposeSession(sessionId) =>
        overrides := overrides - {sessionId};
        return true;
      case SetEnabled(id, enabled, sessionId) =>
        if !IsLoaded(extensions, id) {
          return false;
        }
        if sessionId != "" {
          var sessionMap := if sessionId in overrides then overrides[sessionId] else map[];
          overrides := overrides[sessionId := sessionMap[id := enabled]];
        } else {
          var k :| 0 <= k < |extensions| && extensions[k].id == id;
          extensions := extensions[k := extensions[k].(enabledGlobal := enabled)];
          assert extensions == WithGlobal(old(extensions), id, enabled);
        }
        return true;
    }

    /** What the control plane reports is what an assembly for that session would use. */
    method ListExtensions(sessionId: string) returns (states: Option<seq<(string, bool)>>)
      requires Valid()
      ensures states.Some? <==> lifecycle.Ready?
      ensures states.Some? ==>
                && |states.value| == |extensions|
                && forall i :: 0 <= i < |extensions| ==>
                                 states.value[i] == (extensions[i].id, Flags(extensions, overrides, sessionId)[i])
    {
      if !lifecycle.Ready? {
        return None;
      }
      var out: seq<(string, bool)> := [];
      var sessionMap := if sessionId != "" && sessionId in overrides then overrides[sessionId] else map[];
      for i := 0 to |extensions|
        invariant |out| == i
        invariant forall k :: 0 <= k < i ==>
                    out[k] == (extensions[k].id, IsEnabled(extensions[k], overrides, sessionId))
      {
        var l := extensions[i];
        out := out + [(l.id, if l.id in sessionMap then sessionMap[l.id] else l.enabledGlobal)];
      }
      return Some(out);
    }

    /** While a contribution is awaited, any number of control-plane calls may run. */
    method Interfere(toggles: seq<Toggle>, ghost es: seq<Loaded>)
      requires Valid() && SameContributions(extensions, es)
      modifies this`extensions, this`overrides
      ensures Valid() && SameContributions(extensions, es)
      ensures lifecycle.Ready? ==>
                (extensions, overrides) == ToggledAll(old(extensions), old(overrides), toggles)
    {
      for i := 0 to |toggles|
        invariant Valid() && SameContributions(extensions, es)
        invariant lifecycle.Ready? ==>
                    (extensions, overrides) == ToggledAll(old(extensions), old(overrides), toggles[..i])
      {
        assert toggles[..i + 1][..i] == toggles[..i];
        var _ := Apply(toggles[i]);
      }
      assert toggles[..|toggles|] == toggles;
    }

    /** What `n` suspension points have made of the registry is what the calls that arrived there made of it. */
    ghost predicate OnlyToggled(was: seq<Loaded>, o: Overrides, interference: nat -> seq<Toggle>, n: nat)
      reads this
    {
      (extensions, overrides) == ToggledAll(was, o, Meanwhile(interference, n))
    }

    /** The registry is what the calls at some, or all, of the suspension points have made of it. */
    ghost predicate LeavesToggled(was: seq<Loaded>, o: Overrides, interference: nat -> seq<Toggle>, all: bool)
      reads this
    {
      exists n :: 0 <= n <= |was| && (all ==> n == |was|) && OnlyToggled(was, o, interference, n)
    }

    lemma LeftAfter(was: seq<Loaded>, o: Overrides, interference: nat -> seq<Toggle>, n: nat, all: bool)
      requires n <= |was| && (all ==> n == |was|)
      requires if n == 0 then (extensions, overrides) == (was, o) else OnlyToggled(was, o, interference, n)
      ensures LeavesToggled(was, o, interference, all) && OnlyToggled(was, o, interference, n)
    {
      assert OnlyToggled(was, o, interference, n);
    }

    /** One suspension point. */
    method InterfereAt(ghost es: seq<Loaded>, ghost o: Overrides, interference: nat -> seq<Toggle>, n: nat)
      requires Valid() && lifecycle.Ready? && SameContributions(extensions, es) && OnlyToggled(es, o, interference, n)
      modifies this`extensions, this`overrides
      ensures Valid() && SameContributions(extensions, es) && OnlyToggled(es, o, interference, n + 1)
    {
      Interfere(interference(n), es);
      ToggledConcat(es, o, Meanwhile(interference, n), interference(n));
    }

    /**
     The turn depends only on the enablement at the start of the call, whatever toggles arrive at
     its suspension points. It is refused exactly when tool names collide.
     */
    method AssembleTurn(sessionId: string, seedTools: seq<Tool>, seedUser: string, interference: nat -> seq<Toggle>)
      returns (r: TurnResult)
      requires Valid()
      modifies this`extensions, this`overrides
      ensures Valid() && SameContributions(extensions, old(extensions))
      ensures LeavesToggled(old(extensions), old(overrides), interference, r.Assembled?)
      ensures r.TurnNotReady? <==> !lifecycle.Ready?
      ensures lifecycle.Ready? ==>
                var flags := Flags(old(extensions), old(overrides), sessionId);
                && IsTurn(r, TurnOf(old(extensions), flags, seedTools, seedUser))
                && (r.Assembled? ==> ListsContributions(r.turn, old(extensions), flags, seedTools, seedUser))
    {
      if !lifecycle.Ready? {
        LeftAfter(extensions, overrides, interference, 0, false);
        return TurnNotReady;
      }
      var flags := Flags(extensions, overrides, sessionId);
      r := CollectTurn(flags, extensions, overrides, seedTools, seedUser, interference);
    }

    /** The turn for the enablement `flags` of the extensions `es`. */
    method CollectTurn(flags: seq<bool>, ghost es: seq<Loaded>, ghost o: Overrides, seedTools: seq<Tool>,
                       seedUser: string, interference: nat -> seq<Toggle>)
      returns (r: TurnResult)
      requires Valid() && lifecycle.Ready? && es == extensions && o == overrides && |flags| == |es|
      modifies this`extensions, this`overrides
      ensures Valid() && SameContributions(extensions, es) && LeavesToggled(es, o, interference, r.Assembled?)
      ensures !r.TurnNotReady? && IsTurn(r, TurnOf(es, flags, seedTools, seedUser))
      ensures r.Assembled? ==> ListsContributions(r.turn, es, flags, seedTools, seedUser)
    {
      var names, dup := CollectSeedToolNames(seedTools);
      if dup.Some? {
        LeftAfter(es, o, interference, 0, false);
        SeedCollides(es, flags, seedTools, seedUser, dup.value);
        return DuplicateTool(dup.value);
      }
      var t := Turn(seedTools, [], if seedUser != "" then [seedUser] else [], [], [], []);
      StartsSeeded(es, flags, seedTools, seedUser);
      t, dup := ExtendTurn(flags, es, o, seedTools, seedUser, interference, t, names);
      if dup.Some? {
        return DuplicateTool(dup.value);
      }
      TurnIsListed(es, flags, seedTools, seedUser);
      return Assembled(t.(reminders := Sort(Priority(), t.reminders)));
    }

    /** The loop over the extensions; any number of calls arrive before each round. */
    method ExtendTurn(flags: seq<bool>, ghost es: seq<Loaded>, ghost o: Overrides, ghost seedTools: seq<Tool>,
                      ghost seedUser: string, interference: nat -> seq<Toggle>, seeded: Turn, seedNames: set<string>)
      returns (t: Turn, dup: Option<string>)
      requires Valid() && lifecycle.Ready? && es == extensions && o == overrides && |flags| == |es|
      requires IsPartial(seeded, seedNames, es, flags, 0, seedTools, seedUser)
      modifies this`extensions, this`overrides
      ensures Valid() && SameContributions(extensions, es) && LeavesToggled(es, o, interference, dup.None?)
      ensures dup.None? ==> IsPartial(t, Names(t.tools), es, flags, |es|, seedTools, seedUser)
      ensures dup.Some? ==> Collides(es, flags, seedTools, seedUser, dup.value)
    {
      var n, names := |extensions|, seedNames;
      t := seeded;
      LeftAfter(es, o, interference, 0, false);
      for i := 0 to n
        invariant Valid() && SameContributions(extensions, es) && OnlyToggled(es, o, interference, i)
        invariant IsPartial(t, names, es, flags, i, seedTools, seedUser)
      {
        InterfereAt(es, o, interference, i);
        t, names, dup := AppendExtension(es, flags, i, seedTools, seedUser, extensions[i], flags[i], t, names);
        if dup.Some? {
          LeftAfter(es, o, interference, i + 1, false);
          return;
        }
      }
      LeftAfter(es, o, interference, n, true);
      dup := None;
    }

    /** The model context agrees with the turn on tools and system prompt, whatever the caller's user prompt. */
    method AssembleModelContext(sessionId: string, seedTools: seq<Tool>, interference: nat -> seq<Toggle>)
      returns (r: ContextResult)
      requires Valid()
      modifies this`extensions, this`overrides
      ensures Valid() && SameContributions(extensions, old(extensions))
      ensures LeavesToggled(old(extensions), old(overrides), interference, r.Context?)
      ensures r.ContextNotReady? <==> !lifecycle.Ready?
      ensures lifecycle.Ready? ==>
                var flags := Flags(old(extensions), old(overrides), sessionId);
                forall seedUser :: Agrees(r, TurnOf(old(extensions), flags, seedTools, seedUser))
    {
      if !lifecycle.Ready? {
        LeftAfter(extensions, overrides, interference, 0, false);
        return ContextNotReady;
      }
      var flags := Flags(extensions, overrides, sessionId);
      var n := |extensions|;
      ghost var es, o := extensions, overrides;
      var names, dup := CollectSeedToolNames(seedTools);
      if dup.Some? {
        LeftAfter(es, o, interference, 0, false);
        SeedCollides(es, flags, seedTools, "", dup.value);
        AgreesForAll(DuplicateContextTool(dup.value), es, flags, seedTools);
        return DuplicateContextTool(dup.value);
      }
      var tools, system := seedTools, [];
      assert tools == Partial(es, flags, 0, seedTools, "").tools;
      for i := 0 to n
        invariant Valid() && SameContributions(extensions, es) && OnlyToggled(es, o, interference, i)
        invariant DistinctNames(tools) && names == Names(tools)
        invariant tools == Partial(es, flags, i, seedTools, "").tools
        invariant system == Partial(es, flags, i, seedTools, "").system
      {
        InterfereAt(es, o, interference, i);
        tools, system, names, dup :=
          AppendContext(es, flags, i, seedTools, extensions[i], flags[i], tools, system, names);
        if dup.Some? {
          AgreesForAll(DuplicateContextTool(dup.value), es, flags, seedTools);
          LeftAfter(es, o, interference, i + 1, false);
          return DuplicateContextTool(dup.value);
        }
      }
      AgreesForAll(Context(tools, system), es, flags, seedTools);
      LeftAfter(es, o, interference, n, true);
      return Context(tools, system);
    }
  }

  /** Tools and non-empty system prompts of one extension; shared by both assemblies. */
  method AppendModelContextContributions(l: Loaded, tools: seq<Tool>, system: seq<string>, names: set<string>)
    returns (tools': seq<Tool>, system': seq<string>, names': set<string>, dup: Option<string>)
    requires DistinctNames(tools) && names == Names(tools)
    ensures dup.None? <==> DistinctNames(tools + l.tools)
    ensures dup.Some? ==> FirstRepeat(tools + l.tools, dup.value)
    ensures dup.None? ==>
              tools' == tools + l.tools && names' == Names(tools') && system' == system + NonEmpty(l.systemPrompts)
  {
    tools', names', dup := AppendTools(tools, names, l.tools);
    system' := AppendNonEmpty(system, l.systemPrompts);
  }

  method AppendNonEmpty(into: seq<string>, prompts: seq<string>) returns (all: seq<string>)
    ensures all == into + NonEmpty(prompts)
  {
    all := into;
    for i := 0 to |prompts|
      invariant all == into + NonEmpty(prompts[..i])
    {
      assert prompts[..i + 1][..i] == prompts[..i];
      if prompts[i] != "" {
        all := all + [prompts[i]];
      }
    }
    assert prompts[..|prompts|] == prompts;
  }

  method AppendEmitted(into: seq<Reminder>, rs: seq<Option<Reminder>>) returns (all: seq<Reminder>)
    ensures all == into + Emitted(rs)
  {
    all := into;
    for i := 0 to |rs|
      invariant all == into + Emitted(rs[..i])
    {
      assert rs[..i + 1][..i] == rs[..i];
      if rs[i].Some? {
        all := all + [rs[i].value];
      }
    }
    assert rs[..|rs|] == rs;
  }

  /** One enabled extension's part of the turn. */
  method AppendTurnContributions(l: Loaded, t: Turn, names: set<string>)
    returns (t': Turn, names': set<string>, dup: Option<string>)
    requires DistinctNames(t.tools) && names == Names(t.tools)
    ensures dup.None? <==> DistinctNames(Extend(t, l).tools)
    ensures dup.Some? ==> FirstRepeat(Extend(t, l).tools, dup.value)
    ensures dup.None? ==> t' == Extend(t, l) && names' == Names(t'.tools)
  {
    var tools, system;
    tools, system, names', dup := AppendModelContextContributions(l, t.tools, t.system, names);
    var user := AppendNonEmpty(t.user, l.userPrompts);
    var reminders := AppendEmitted(t.reminders, l.reminders);
    t' := Turn(tools, system, user, reminders, t.enabledIds + [l.id], t.disabledIds);
  }

  /** The turn after `i` extensions, and the names of its tools. */
  ghost predicate IsPartial(t: Turn, names: set<string>, es: seq<Loaded>, flags: seq<bool>, i: nat,
                            seedTools: seq<Tool>, seedUser: string)
    requires i <= |es| == |flags|
  {
    t == Partial(es, flags, i, seedTools, seedUser) && DistinctNames(t.tools) && names == Names(t.tools)
  }

  ghost predicate Collides(es: seq<Loaded>, flags: seq<bool>, seedTools: seq<Tool>, seedUser: string, name: string)
    requires |es| == |flags|
  {
    var all := TurnOf(es, flags, seedTools, seedUser).tools;
    !DistinctNames(all) && FirstRepeat(all, name)
  }

  /** One round of the loop; `l` is the `i`-th extension, up to its global flag. */
  method AppendExtension(ghost es: seq<Loaded>, ghost flags: seq<bool>, ghost i: nat, ghost seedTools: seq<Tool>,
                         ghost seedUser: string, l: Loaded, enabled: bool, t: Turn, names: set<string>)
    returns (t': Turn, names': set<string>, dup: Option<string>)
    requires i < |es| == |flags| && enabled == flags[i] && l == es[i].(enabledGlobal := l.enabledGlobal)
    requires IsPartial(t, names, es, flags, i, seedTools, seedUser)
    ensures dup.None? ==> IsPartial(t', names', es, flags, i + 1, seedTools, seedUser)
    ensures dup.Some? ==> Collides(es, flags, seedTools, seedUser, dup.value)
  {
    PartialStep(es, flags, i, seedTools, seedUser, l);
    if !enabled {
      return t.(disabledIds := t.disabledIds + [l.id]), names, None;
    }
    t', names', dup := AppendTurnContributions(l, t, names);
    if dup.Some? {
      PartialCollides(es, flags, i + 1, seedTools, seedUser, dup.value);
    }
  }

  /** The same for the tools and system prompts alone. */
  method AppendContext(ghost es: seq<Loaded>, ghost flags: seq<bool>, ghost i: nat, ghost seedTools: seq<Tool>,
                       l: Loaded, enabled: bool, tools: seq<Tool>, system: seq<string>, names: set<string>)
    returns (tools': seq<Tool>, system': seq<string>, names': set<string>, dup: Option<string>)
    requires i < |es| == |flags| && enabled == flags[i] && l == es[i].(enabledGlobal := l.enabledGlobal)
    requires DistinctNames(tools) && names == Names(tools)
    requires tools == Partial(es, flags, i, seedTools, "").tools
    requires system == Partial(es, flags, i, seedTools, "").system
    ensures dup.None? ==>
              && DistinctNames(tools') && names' == Names(tools')
              && tools' == Partial(es, flags, i + 1, seedTools, "").tools
              && system' == Partial(es, flags, i + 1, seedTools, "").system
    ensures dup.Some? ==>
              var all := TurnOf(es, flags, seedTools, "").tools;
              !DistinctNames(all) && FirstRepeat(all, dup.value)
  {
    PartialStep(es, flags, i, seedTools, "", l);
    if !enabled {
      return tools, system, names, None;
    }
    tools', system', names', dup := AppendModelContextContributions(l, tools, system, names);
    if dup.Some? {
      PartialCollides(es, flags, i + 1, seedTools, "", dup.value);
    }
  }

  method CollectSeedToolNames(seedTools: seq<Tool>) returns (names: set<string>, dup: Option<string>)
    ensures dup.None? <==> DistinctNames(seedTools)
    ensures dup.Some? ==> FirstRepeat(seedTools, dup.value)
    ensures dup.None? ==> names == Names(seedTools)
  {
    var tools;
    tools, names, dup := AppendTools([], {}, seedTools);
    assert [] + seedTools == seedTools;
  }

  lemma StartsSeeded(es: seq<Loaded>, flags: seq<bool>, seedTools: seq<Tool>, seedUser: string)
    requires |es| == |flags|
    ensures Partial(es, flags, 0, seedTools, seedUser) ==
            Turn(seedTools, [], if seedUser != "" then [seedUser] else [], [], [], [])
  {
    assert seedTools + [] == seedTools;
    var one := [seedUser];
    assert one[..|one| - 1] == [];
    assert NonEmpty(one) == if seedUser != "" then one else [];
    assert NonEmpty(one) + [] == NonEmpty(one);
  }

  /** A collision among the first `n` extensions is a collision of the whole turn. */
  lemma PartialCollides(es: seq<Loaded>, flags: seq<bool>, n: nat, seedTools: seq<Tool>, seedUser: string, name: string)
    requires n <= |es| == |flags|
    requires FirstRepeat(Partial(es, flags, n, seedTools, seedUser).tools, name)
    ensures FirstRepeat(TurnOf(es, flags, seedTools, seedUser).tools, name)
    ensures !DistinctNames(TurnOf(es, flags, seedTools, seedUser).tools)
  {
    ContributedPrefix(es, flags, n);
    RepeatStays(TurnOf(es, flags, seedTools, seedUser).tools, Partial(es, flags, n, seedTools, seedUser).tools, name);
  }

  lemma SeedCollides(es: seq<Loaded>, flags: seq<bool>, seedTools: seq<Tool>, seedUser: string, name: string)
    requires |es| == |flags| && FirstRepeat(seedTools, name)
    ensures FirstRepeat(TurnOf(es, flags, seedTools, seedUser).tools, name)
    ensures !DistinctNames(TurnOf(es, flags, seedTools, seedUser).tools)
  {
    RepeatStays(TurnOf(es, flags, seedTools, seedUser).tools, seedTools, name);
  }

  lemma {:induction false} ContributedPrefix(es: seq<Loaded>, flags: seq<bool>, n: nat)
    requires n <= |es| == |flags|
    ensures Contributed(es, flags, n).tools <= Contributed(es, flags, |es|).tools
    decreases |es| - n
  {
    if n < |es| {
      ContributedPrefix(es, flags, n + 1);
    }
  }

  /** A turn offers the seed's tools and those of the enabled extensions, and nothing of a disabled one. */
  lemma {:induction false} OnlyEnabledContribute(es: seq<Loaded>, flags: seq<bool>, n: nat)
    requires n <= |es| == |flags|
    ensures var t := Contributed(es, flags, n);
            && (forall x :: x in t.tools <==> exists i :: 0 <= i < n && flags[i] && x in es[i].tools)
            && (forall id :: id in t.enabledIds <==> exists i :: 0 <= i < n && flags[i] && es[i].id == id)
            && (forall id :: id in t.disabledIds <==> exists i :: 0 <= i < n && !flags[i] && es[i].id == id)
            && |t.enabledIds| + |t.disabledIds| == n
  {
    if n > 0 {
      OnlyEnabledContribute(es, flags, n - 1);
    }
  }

  /** Reminders come out by descending priority, as a permutation that keeps equal ones in order. */
  lemma RemindersAreStable(es: seq<Loaded>, flags: seq<bool>, seedTools: seq<Tool>, seedUser: string)
    requires |es| == |flags|
    ensures var raw, sorted := Contributed(es, flags, |es|).reminders, TurnOf(es, flags, seedTools, seedUser).reminders;
            && Descending(Priority(), sorted) && multiset(sorted) == multiset(raw)
            && forall k :: WithKey(Priority(), sorted, k) == WithKey(Priority(), raw, k)
  {
    SortIsStable(Priority(), Contributed(es, flags, |es|).reminders);
  }
}

/**
 The migration that moves user-owned providers from the builtin provider tree to the custom
 provider tree and rewrites the model references that name them.
 */
module ProviderMigration {
  import opened Decimals
  import opened Wrappers

  const RESERVED: set<string> := {"minimax", "minimax_api", "provider", "custom_provider"}
  const PREFIX := "custom_provider:"

  // ---------------------------------------------------------------- configuration

  type Table = map<string, string>

  /** `hasApiKey` and `hasBaseURL` say that the option is a string with more than whitespace. */
  datatype Provider = Provider(
    isRecord: bool,
    name: Option<string>,
    hasApiKey: bool,
    hasBaseURL: bool,
    models: Option<Table>,
    kind: string,
    authMode: string)

  /** `marker` records for each provider that was migrated before the key it was given. */
  datatype Config = Config(
    provider: map<string, Provider>,
    custom: map<string, Provider>,
    marker: map<string, string>,
    defaultModel: Option<string>,
    defaultLightModel: Option<string>,
    nexusProvider: Option<string>)

  datatype Env = Env(managedRuntime: bool, managedProviders: set<string>, hash: string -> string)

  predicate ShouldMigrate(env: Env, id: string, p: Provider)
  {
    && id != "minimax" && id != "minimax_api"
    && p.isRecord && p.hasApiKey && p.hasBaseURL && p.models.Some?
    && id !in env.managedProviders
  }

  predicate Migratable(env: Env, c: Config, id: string)
  {
    id in c.provider && ShouldMigrate(env, id, c.provider[id])
  }

  /** A usable record of an earlier migration. */
  predicate Recorded(c: Config, id: string)
  {
    id in c.marker && c.marker[id] != "" && c.marker[id] !in RESERVED
  }

  predicate NewlyKeyed(env: Env, c: Config, id: string)
  {
    Migratable(env, c, id) && !Recorded(c, id)
  }

  function ToMigrated(p: Provider): Provider
  {
    p.(kind := "custom", authMode := "api-key")
  }

  // ---------------------------------------------------------------- keys

  predicate IsSpace(c: char) { c in {' ', '\t', '\n', '\r', '\U{000B}', '\U{000C}', '\U{00A0}', '\U{FEFF}'} }

  function TrimStart(s: string): string
  {
    if s != "" && IsSpace(s[0]) then TrimStart(s[1..]) else s
  }

  function TrimEnd(s: string): string
  {
    if s != "" && IsSpace(s[|s| - 1]) then TrimEnd(s[..|s| - 1]) else s
  }

  predicate IsSimple(c: char)
  {
    'A' <= c <= 'Z' || 'a' <= c <= 'z' || '0' <= c <= '9' || c in {' ', '_', '-'}
  }

  function Lower(c: char): char
  {
    if 'A' <= c <= 'Z' then (c - 'A') + 'a' else c
  }

  /** Lower case, with every run of separators replaced by one dash. */
  function Dashed(s: string): string
  {
    if s == "" then ""
    else
      var rest := Dashed(s[1..]);
      if s[0] in {' ', '_', '-'} then (if rest != "" && rest[0] == '-' then rest else "-" + rest)
      else [Lower(s[0])] + rest
  }

  function StripDashes(s: string): string
  {
    var a := if s != "" && s[0] == '-' then s[1..] else s;
    if a != "" && a[|a| - 1] == '-' then a[..|a| - 1] else a
  }

  function Slugify(s: string): Option<string>
  {
    var trimmed := TrimEnd(TrimStart(s));
    if trimmed == "" || !(forall i :: 0 <= i < |trimmed| ==> IsSimple(trimmed[i])) then None
    else
      var slug := StripDashes(Dashed(trimmed));
      if slug == "" then None else Some(slug)
  }

  /** A key that survives inside a model reference. */
  predicate GoodKey(k: string)
  {
    k != "" && '/' !in k
  }

  lemma {:induction false} DashedHasNoSlash(s: string)
    requires '/' !in s
    ensures '/' !in Dashed(s)
  {
    if s != "" {
      DashedHasNoSlash(s[1..]);
    }
  }

  lemma SlugIsGood(s: string)
    ensures Slugify(s).Some? ==> GoodKey(Slugify(s).value)
  {
    var trimmed := TrimEnd(TrimStart(s));
    if Slugify(s).Some? {
      assert '/' !in trimmed;
      DashedHasNoSlash(trimmed);
    }
  }

  function BaseKey(env: Env, id: string, p: Provider): string
  {
    match Slugify(id)
    case Some(slug) => slug
    case None =>
      match (if p.name.Some? then Slugify(p.name.value) else None)
      case Some(slug) => slug
      case None => "provider-" + env.hash(id)
  }

  function Candidate(base: string, suffix: nat): string
  {
    if suffix == 0 then base else base + "-" + Decimal(suffix + 1)
  }

  lemma CandidatesInjective(base: string, a: nat, b: nat)
    requires Candidate(base, a) == Candidate(base, b)
    ensures a == b
  {
    if a > 0 && b > 0 {
      var x, y := Decimal(a + 1), Decimal(b + 1);
      assert (base + "-" + x)[|base| + 1..] == x && (base + "-" + y)[|base| + 1..] == y;
      DecimalInjective(a + 1, b + 1);
    }
  }

  lemma CandidateIsGood(base: string, suffix: nat)
    requires GoodKey(base)
    ensures GoodKey(Candidate(base, suffix))
  {
    DecimalIsDigits(suffix + 1);
  }

  lemma BaseIsGood(env: Env, id: string, p: Provider)
    requires '/' !in env.hash(id)
    ensures GoodKey(BaseKey(env, id, p))
  {
    SlugIsGood(id);
    if p.name.Some? {
      SlugIsGood(p.name.value);
    }
  }

  /** Candidates never repeat, so a set can rule out only as many as it has members. */
  lemma {:induction false} TriesAreBounded(base: string, n: nat, taken: set<string>)
    requires forall i :: 0 <= i < n ==> Candidate(base, i) in taken
    ensures n <= |taken|
  {
    if n > 0 {
      var last := Candidate(base, n - 1);
      forall i | 0 <= i < n - 1
        ensures Candidate(base, i) in taken - {last}
      {
        if Candidate(base, i) == last {
          CandidatesInjective(base, i, n - 1);
        }
      }
      TriesAreBounded(base, n - 1, taken - {last});
    }
  }

  /** The first suffix from `n` on whose candidate is not taken. */
  function FreshSuffix(base: string, taken: set<string>, n: nat): (r: nat)
    requires forall i :: 0 <= i < n ==> Candidate(base, i) in taken
    ensures n <= r && Candidate(base, r) !in taken
    ensures forall i :: 0 <= i < r ==> Candidate(base, i) in taken
    decreases |taken| - n
  {
    if Candidate(base, n) !in taken then n
    else
      TriesAreBounded(base, n + 1, taken);
      FreshSuffix(base, taken, n + 1)
  }

  /** The key a provider gets when the keys in `existing` are taken. */
  function FreshKey(env: Env, id: string, p: Provider, existing: set<string>): (key: string)
    ensures key !in existing && key !in RESERVED
    ensures BaseKey(env, id, p) !in existing + RESERVED ==> key == BaseKey(env, id, p)
  {
    var base := BaseKey(env, id, p);
    Candidate(base, FreshSuffix(base, existing + RESERVED, 0))
  }

  /** The search for a key ends, at the first candidate that is neither taken nor reserved. */
  method GenerateKey(env: Env, id: string, p: Provider, existing: set<string>)
    returns (key: string, ghost suffix: nat)
    ensures key == Candidate(BaseKey(env, id, p), suffix) == FreshKey(env, id, p, existing)
    ensures key !in existing && key !in RESERVED && ('/' !in env.hash(id) ==> GoodKey(key))
    ensures forall n :: 0 <= n < suffix ==> Candidate(BaseKey(env, id, p), n) in existing + RESERVED
  {
    var base := BaseKey(env, id, p);
    ghost var taken := existing + RESERVED;
    var n := 0;
    while Candidate(base, n) in existing || Candidate(base, n) in RESERVED
      invariant forall i :: 0 <= i < n ==> Candidate(base, i) in taken
      invariant FreshSuffix(base, taken, n) == FreshSuffix(base, taken, 0)
      decreases |taken| - n
    {
      TriesAreBounded(base, n + 1, taken);
      n := n + 1;
    }
    if '/' !in env.hash(id) {
      FreshKeyIsGood(env, id, p, existing);
    }
    return Candidate(base, n), n;
  }

  lemma FreshKeyIsGood(env: Env, id: string, p: Provider, existing: set<string>)
    requires '/' !in env.hash(id)
    ensures GoodKey(FreshKey(env, id, p, existing))
  {
    BaseIsGood(env, id, p);
    CandidateIsGood(BaseKey(env, id, p), FreshSuffix(BaseKey(env, id, p), existing + RESERVED, 0));
  }

  // ---------------------------------------------------------------- model references

  function SlashIndex(s: string): (i: nat)
    ensures i <= |s| && '/' !in s[..i] && (i < |s| ==> s[i] == '/')
  {
    if s == "" || s[0] == '/' then 0
    else
      var r := SlashIndex(s[1..]);
      assert s[..r + 1] == [s[0]] + s[1..][..r];
      r + 1
  }

  function RewriteModelRef(value: string, migrated: map<string, string>): string
  {
    var slash := SlashIndex(value);
    if slash == 0 || slash >= |value| - 1 then value
    else if value[..slash] !in migrated || migrated[value[..slash]] == "" then value
    else PREFIX + migrated[value[..slash]] + "/" + value[slash + 1..]
  }

  function RewriteOptional(value: Option<string>, migrated: map<string, string>): Option<string>
  {
    match value case None => None case Some(v) => Some(RewriteModelRef(v, migrated))
  }

  function RewriteNexus(value: Option<string>, migrated: map<string, string>): Option<string>
  {
    if value.Some? && value.value in migrated && migrated[value.value] != "" then Some(PREFIX + migrated[value.value])
    else value
  }

  predicate HasPrefix(id: string)
  {
    |PREFIX| <= |id| && id[..|PREFIX|] == PREFIX
  }

  /** The model table of a provider id: the resolver looks into the tree the id is qualified with. */
  function TableOfProvider(c: Config, id: string): Option<Table>
  {
    if id == "" || id == "minimax_api" then None
    else if HasPrefix(id) then
      var key := id[|PREFIX|..];
      if key != "" && key in c.custom && c.custom[key].isRecord then c.custom[key].models else None
    else if id in c.provider then c.provider[id].models
    else None
  }

  /** What a `provider/model` reference resolves to. */
  function Resolve(c: Config, ref: string): Option<(Table, string)>
  {
    var slash := SlashIndex(ref);
    if slash == 0 || slash >= |ref| - 1 then None
    else match TableOfProvider(c, ref[..slash])
         case None => None
         case Some(t) => Some((t, ref[slash + 1..]))
  }

  // ---------------------------------------------------------------- one run of the loop, on values

  /** The variables the loop updates. */
  datatype State = State(
    provider: map<string, Provider>,
    custom: map<string, Provider>,
    marker: map<string, string>,
    migrated: map<string, string>)

  /** A newly keyed provider moves under `key`. */
  function Created(c: Config, s: State, id: string, key: string): State
    requires id in c.provider
  {
    State(s.provider - {id}, s.custom[key := ToMigrated(c.provider[id])], s.marker[id := key], s.migrated[id := key])
  }

  /** What the loop does with one provider. */
  function Step(env: Env, c: Config, s: State, id: string): State
    requires id in c.provider
  {
    if !ShouldMigrate(env, id, c.provider[id]) then s
    else if Recorded(c, id) then
      var key := c.marker[id];
      var dropped := s.(provider := s.provider - {id});
      if key in s.custom && s.custom[key].isRecord then dropped.(migrated := s.migrated[id := key]) else dropped
    else Created(c, s, id, FreshKey(env, id, c.provider[id], s.custom.Keys))
  }

  ghost predicate Lists(c: Config, order: seq<string>)
  {
    forall i :: 0 <= i < |order| ==> order[i] in c.provider
  }

  function Walk(env: Env, c: Config, order: seq<string>): State
    requires Lists(c, order)
  {
    if order == [] then State(c.provider, c.custom, c.marker, map[])
    else Step(env, c, Walk(env, c, order[..|order| - 1]), order[|order| - 1])
  }

  /** `order` lists every provider once; the loop follows the order of the provider tree. */
  ghost predicate IsOrder(c: Config, order: seq<string>)
  {
    && Lists(c, order)
    && (forall i, j :: 0 <= i < j < |order| ==> order[i] != order[j])
    && forall id :: id in c.provider ==> id in order
  }

  /** The configuration after a migration, and the keys by which references are rewritten. */
  function Migrate(env: Env, c: Config, order: seq<string>): (Config, map<string, string>)
    requires Lists(c, order)
  {
    var s := Walk(env, c, order);
    (Config(s.provider, s.custom, s.marker,
            RewriteOptional(c.defaultModel, s.migrated),
            RewriteOptional(c.defaultLightModel, s.migrated),
            RewriteNexus(c.nexusProvider, s.migrated)),
     s.migrated)
  }

  // ---------------------------------------------------------------- which keys are handed out

  /** The keys given to the newly keyed providers of `order`; no table and no entry is needed to tell them. */
  function Allocated(env: Env, c: Config, order: seq<string>): (keys: set<string>)
    requires Lists(c, order)
    ensures keys !! c.custom.Keys + RESERVED
  {
    if order == [] then {}
    else
      var before, id := Allocated(env, c, order[..|order| - 1]), order[|order| - 1];
      if NewlyKeyed(env, c, id) then before + {FreshKey(env, id, c.provider[id], c.custom.Keys + before)} else before
  }

  function KeyGiven(env: Env, c: Config, order: seq<string>, i: nat): string
    requires Lists(c, order) && i < |order|
  {
    FreshKey(env, order[i], c.provider[order[i]], c.custom.Keys + Allocated(env, c, order[..i]))
  }

  /** The recorded key of `order[i]` has an entry when that provider's turn comes. */
  predicate HasEntry(env: Env, c: Config, order: seq<string>, i: nat)
    requires Lists(c, order) && i < |order| && Recorded(c, order[i])
  {
    var key := c.marker[order[i]];
    (key in c.custom && c.custom[key].isRecord) || key in Allocated(env, c, order[..i])
  }

  // ---------------------------------------------------------------- what a migration is

  /**
   No builtin entry that should move is left, no custom entry is overwritten, and every newly
   keyed provider has its own new entry; nothing else is added. References are rewritten for the
   newly keyed providers and for the recorded ones whose entry exists in time.
   */
  ghost predicate IsMigration(env: Env, c: Config, order: seq<string>, r: Config, m: map<string, string>)
  {
    && IsOrder(c, order)
    && r.provider == (map id | id in c.provider && !ShouldMigrate(env, id, c.provider[id]) :: c.provider[id])
    && (forall k :: k in c.custom ==> k in r.custom && r.custom[k] == c.custom[k])
    && r.custom.Keys == c.custom.Keys + Allocated(env, c, order)
    && (forall i :: 0 <= i < |order| && NewlyKeyed(env, c, order[i]) ==> KeyIsGiven(env, c, order, r, m, i))
    && (forall i, j :: 0 <= i < j < |order| && NewlyKeyed(env, c, order[i]) && NewlyKeyed(env, c, order[j]) ==>
                         m[order[i]] != m[order[j]])
    && (forall i :: 0 <= i < |order| && Migratable(env, c, order[i]) && Recorded(c, order[i]) ==>
                      KeyIsRecalled(env, c, order, m, i))
    && (forall id :: id in m ==> Migratable(env, c, id))
    && r.marker == c.marker + (map id | id in c.provider && NewlyKeyed(env, c, id) :: m[id])
    && r.defaultModel == RewriteOptional(c.defaultModel, m)
    && r.defaultLightModel == RewriteOptional(c.defaultLightModel, m)
    && r.nexusProvider == RewriteNexus(c.nexusProvider, m)
  }

  /** A newly keyed provider has the first free candidate, and its entry is filed there. */
  ghost predicate KeyIsGiven(env: Env, c: Config, order: seq<string>, r: Config, m: map<string, string>, i: nat)
    requires Lists(c, order) && i < |order|
  {
    var id := order[i];
    && id in m && m[id] == KeyGiven(env, c, order, i) && GoodKey(m[id])
    && m[id] in r.custom && r.custom[m[id]] == ToMigrated(c.provider[id])
  }

  /** References to a recorded provider are rewritten exactly when its entry exists in time. */
  ghost predicate KeyIsRecalled(env: Env, c: Config, order: seq<string>, m: map<string, string>, i: nat)
    requires Lists(c, order) && i < |order| && Recorded(c, order[i])
  {
    var id := order[i];
    (id in m <==> HasEntry(env, c, order, i)) && (id in m ==> m[id] == c.marker[id])
  }

  // ---------------------------------------------------------------- the invariant of the loop

  ghost predicate ProviderOk(env: Env, c: Config, order: seq<string>, provider: map<string, Provider>)
  {
    && (forall id :: id in provider <==> id in c.provider && !(id in order && ShouldMigrate(env, id, c.provider[id])))
    && (forall id :: id in provider ==> provider[id] == c.provider[id])
  }

  ghost predicate CustomOk(env: Env, c: Config, order: seq<string>, custom: map<string, Provider>)
    requires Lists(c, order)
  {
    && custom.Keys == c.custom.Keys + Allocated(env, c, order)
    && (forall k :: k in c.custom ==> custom[k] == c.custom[k])
    && (forall k :: k in custom && k !in c.custom ==> custom[k].isRecord)
  }

  ghost predicate Given(env: Env, c: Config, order: seq<string>, s: State, i: nat)
    requires Lists(c, order) && i < |order|
  {
    var id := order[i];
    && id in s.migrated && s.migrated[id] == KeyGiven(env, c, order, i)
    && id in s.marker && s.marker[id] == s.migrated[id]
    && s.migrated[id] in s.custom && s.custom[s.migrated[id]] == ToMigrated(c.provider[id])
  }

  ghost predicate MigratedOk(env: Env, c: Config, order: seq<string>, s: State)
    requires Lists(c, order)
  {
    && (forall i :: 0 <= i < |order| && NewlyKeyed(env, c, order[i]) ==> Given(env, c, order, s, i))
    && (forall i :: 0 <= i < |order| && Migratable(env, c, order[i]) && Recorded(c, order[i]) ==>
                      KeyIsRecalled(env, c, order, s.migrated, i))
    && (forall id :: id in s.migrated ==> id in order && Migratable(env, c, id))
  }

  ghost predicate MarkerOk(env: Env, c: Config, order: seq<string>, marker: map<string, string>)
  {
    && (forall id :: id in marker <==> id in c.marker || (id in order && NewlyKeyed(env, c, id)))
    && (forall id :: id in c.marker && !(id in order && NewlyKeyed(env, c, id)) ==> marker[id] == c.marker[id])
  }

  /** The state after the providers of `order` have been looked at. */
  ghost predicate Traced(env: Env, c: Config, order: seq<string>, s: State)
    requires Lists(c, order)
  {
    && ProviderOk(env, c, order, s.provider) && CustomOk(env, c, order, s.custom)
    && MigratedOk(env, c, order, s) && MarkerOk(env, c, order, s.marker)
  }

  /** What was decided about an earlier provider does not depend on the later ones. */
  lemma PrefixDecides(env: Env, c: Config, order: seq<string>, id: string, i: nat)
    requires Lists(c, order) && id in c.provider && i < |order|
    ensures Lists(c, order + [id]) && (order + [id])[i] == order[i] && (order + [id])[..i] == order[..i]
    ensures KeyGiven(env, c, order + [id], i) == KeyGiven(env, c, order, i)
    ensures Recorded(c, order[i]) ==> (HasEntry(env, c, order + [id], i) <==> HasEntry(env, c, order, i))
  {
    assert (order + [id])[..i] == order[..i];
  }

  lemma AllocatedNext(env: Env, c: Config, order: seq<string>, id: string)
    requires Lists(c, order) && id in c.provider
    ensures Lists(c, order + [id]) && (order + [id])[..|order|] == order
    ensures var before := Allocated(env, c, order);
            var key := FreshKey(env, id, c.provider[id], c.custom.Keys + before);
            && KeyGiven(env, c, order + [id], |order|) == key
            && Allocated(env, c, order + [id]) == if NewlyKeyed(env, c, id) then before + {key} else before
  {
    assert (order + [id])[..|order|] == order;
  }

  /** The decisions of `s` about `order` stand in `s'`. */
  lemma EarlierStand(env: Env, c: Config, order: seq<string>, s: State, id: string, s': State, i: nat)
    requires Lists(c, order) && id in c.provider && id !in order && i < |order| && MigratedOk(env, c, order, s)
    requires forall x :: x != id ==> (x in s'.migrated <==> x in s.migrated)
    requires forall x :: x != id && x in s.migrated ==> s'.migrated[x] == s.migrated[x]
    requires forall x :: x != id && x in s.marker ==> x in s'.marker && s'.marker[x] == s.marker[x]
    requires forall k :: k in s.custom ==> k in s'.custom && s'.custom[k] == s.custom[k]
    ensures Lists(c, order + [id]) && (order + [id])[i] == order[i]
    ensures NewlyKeyed(env, c, order[i]) ==> Given(env, c, order + [id], s', i)
    ensures Migratable(env, c, order[i]) && Recorded(c, order[i]) ==>
              KeyIsRecalled(env, c, order + [id], s'.migrated, i)
  {
    PrefixDecides(env, c, order, id, i);
    if NewlyKeyed(env, c, order[i]) {
      assert Given(env, c, order, s, i);
    } else if Migratable(env, c, order[i]) {
      assert KeyIsRecalled(env, c, order, s.migrated, i);
    }
  }

  lemma LastDecided(env: Env, c: Config, order: seq<string>, s: State, id: string)
    requires Lists(c, order) && id in c.provider && id !in s.migrated && CustomOk(env, c, order, s.custom)
    ensures Lists(c, order + [id]) && (order + [id])[|order|] == id
    ensures NewlyKeyed(env, c, id) ==> Given(env, c, order + [id], Step(env, c, s, id), |order|)
    ensures Migratable(env, c, id) && Recorded(c, id) ==>
              KeyIsRecalled(env, c, order + [id], Step(env, c, s, id).migrated, |order|)
  {
    AllocatedNext(env, c, order, id);
    assert s.custom.Keys == c.custom.Keys + Allocated(env, c, order);
    if Recorded(c, id) {
      var key := c.marker[id];
      assert key in s.custom && s.custom[key].isRecord <==>
               (key in c.custom && c.custom[key].isRecord) || key in Allocated(env, c, order);
    }
  }

  lemma StepMigrated(env: Env, c: Config, order: seq<string>, s: State, id: string)
    requires Lists(c, order) && id in c.provider && id !in order
    requires MigratedOk(env, c, order, s) && CustomOk(env, c, order, s.custom)
    ensures Lists(c, order + [id]) && MigratedOk(env, c, order + [id], Step(env, c, s, id))
  {
    var s', all := Step(env, c, s, id), order + [id];
    LastDecided(env, c, order, s, id);
    assert s.custom.Keys == c.custom.Keys + Allocated(env, c, order);
    forall i | 0 <= i < |order|
      ensures NewlyKeyed(env, c, all[i]) ==> Given(env, c, all, s', i)
      ensures Migratable(env, c, all[i]) && Recorded(c, all[i]) ==> KeyIsRecalled(env, c, all, s'.migrated, i)
    {
      EarlierStand(env, c, order, s, id, s', i);
    }
    assert forall x :: x in s'.migrated ==> x in s.migrated || (x == id && Migratable(env, c, id));
    assert forall x :: x in order ==> x in all;
    assert all[|order|] in all;
  }

  lemma StepCustom(env: Env, c: Config, order: seq<string>, s: State, id: string)
    requires Lists(c, order) && id in c.provider && CustomOk(env, c, order, s.custom)
    ensures Lists(c, order + [id]) && CustomOk(env, c, order + [id], Step(env, c, s, id).custom)
  {
    AllocatedNext(env, c, order, id);
  }

  lemma StepProvider(env: Env, c: Config, order: seq<string>, s: State, id: string)
    requires id in c.provider && id !in order && ProviderOk(env, c, order, s.provider)
    ensures ProviderOk(env, c, order + [id], Step(env, c, s, id).provider)
  {
    assert forall x :: x in order + [id] <==> x in order || x == id;
    var moves := ShouldMigrate(env, id, c.provider[id]);
    assert Step(env, c, s, id).provider == if moves then s.provider - {id} else s.provider;
  }

  lemma StepMarker(env: Env, c: Config, order: seq<string>, s: State, id: string)
    requires id in c.provider && id !in order && MarkerOk(env, c, order, s.marker)
    ensures MarkerOk(env, c, order + [id], Step(env, c, s, id).marker)
  {
    assert forall x :: x in order + [id] <==> x in order || x == id;
  }

  lemma {:induction false} WalkIsTraced(env: Env, c: Config, order: seq<string>)
    requires Lists(c, order) && forall i, j :: 0 <= i < j < |order| ==> order[i] != order[j]
    ensures Traced(env, c, order, Walk(env, c, order))
  {
    if order != [] {
      var init, id := order[..|order| - 1], order[|order| - 1];
      assert order == init + [id];
      WalkIsTraced(env, c, init);
      var s := Walk(env, c, init);
      StepMigrated(env, c, init, s, id);
      StepCustom(env, c, init, s, id);
      StepProvider(env, c, init, s, id);
      StepMarker(env, c, init, s, id);
    }
  }

  /** A key handed out early is taken from then on. */
  lemma {:induction false} KeysStayAllocated(env: Env, c: Config, order: seq<string>, i: nat, j: nat)
    requires Lists(c, order) && i < j <= |order|
    ensures Allocated(env, c, order[..i]) <= Allocated(env, c, order[..j])
    ensures NewlyKeyed(env, c, order[i]) ==> KeyGiven(env, c, order, i) in Allocated(env, c, order[..j])
    decreases j
  {
    AllocatedNext(env, c, order[..j - 1], order[j - 1]);
    assert order[..j - 1] + [order[j - 1]] == order[..j];
    if i < j - 1 {
      KeysStayAllocated(env, c, order, i, j - 1);
    }
  }

  /** Every key handed out went to some newly keyed provider. */
  lemma {:induction false} AllocatedHasOwner(env: Env, c: Config, order: seq<string>, n: nat, key: string)
    returns (j: nat)
    requires Lists(c, order) && n <= |order| && key in Allocated(env, c, order[..n])
    ensures j < n && NewlyKeyed(env, c, order[j]) && KeyGiven(env, c, order, j) == key
  {
    AllocatedNext(env, c, order[..n - 1], order[n - 1]);
    assert order[..n - 1] + [order[n - 1]] == order[..n];
    if key in Allocated(env, c, order[..n - 1]) {
      j := AllocatedHasOwner(env, c, order, n - 1, key);
    } else {
      j := n - 1;
    }
  }

  // ---------------------------------------------------------------- the loop is a migration

  lemma GivenTo(env: Env, c: Config, order: seq<string>, s: State, id: string)
    requires IsOrder(c, order) && MigratedOk(env, c, order, s) && NewlyKeyed(env, c, id)
    ensures id in s.migrated && id in s.marker && s.marker[id] == s.migrated[id]
  {
    var i :| 0 <= i < |order| && order[i] == id;
    assert Given(env, c, order, s, i);
  }

  lemma FinalMarker(env: Env, c: Config, order: seq<string>, s: State)
    requires IsOrder(c, order) && MarkerOk(env, c, order, s.marker)
    requires forall id :: NewlyKeyed(env, c, id) ==>
                            id in s.migrated && id in s.marker && s.marker[id] == s.migrated[id]
    ensures s.marker == c.marker + (map id | id in c.provider && NewlyKeyed(env, c, id) :: s.migrated[id])
  {
    var added := map id | id in c.provider && NewlyKeyed(env, c, id) :: s.migrated[id];
    assert forall id :: id in s.marker <==> id in c.marker || id in added;
    assert forall id :: id in s.marker ==> s.marker[id] == (c.marker + added)[id];
  }

  lemma FinalProvider(env: Env, c: Config, order: seq<string>, provider: map<string, Provider>)
    requires IsOrder(c, order) && ProviderOk(env, c, order, provider)
    ensures provider == map id | id in c.provider && !ShouldMigrate(env, id, c.provider[id]) :: c.provider[id]
  {
  }

  lemma WalkIsMigration(env: Env, c: Config, order: seq<string>)
    requires IsOrder(c, order) && forall id :: '/' !in env.hash(id)
    ensures var (r, m) := Migrate(env, c, order); IsMigration(env, c, order, r, m)
  {
    var s := Walk(env, c, order);
    var (r, m) := Migrate(env, c, order);
    WalkIsTraced(env, c, order);
    FinalProvider(env, c, order, s.provider);
    forall id | NewlyKeyed(env, c, id)
      ensures id in s.migrated && id in s.marker && s.marker[id] == s.migrated[id]
    {
      GivenTo(env, c, order, s, id);
    }
    FinalMarker(env, c, order, s);
    KeysAreGiven(env, c, order, s, r);
    KeysAreDistinct(env, c, order, r, m);
  }

  lemma KeysAreGiven(env: Env, c: Config, order: seq<string>, s: State, r: Config)
    requires Lists(c, order) && MigratedOk(env, c, order, s) && r.custom == s.custom
    requires forall id :: '/' !in env.hash(id)
    ensures forall i :: 0 <= i < |order| && NewlyKeyed(env, c, order[i]) ==>
                          KeyIsGiven(env, c, order, r, s.migrated, i)
  {
    forall i | 0 <= i < |order| && NewlyKeyed(env, c, order[i])
      ensures KeyIsGiven(env, c, order, r, s.migrated, i)
    {
      assert Given(env, c, order, s, i);
      FreshKeyIsGood(env, order[i], c.provider[order[i]], c.custom.Keys + Allocated(env, c, order[..i]));
    }
  }

  lemma KeysAreDistinct(env: Env, c: Config, order: seq<string>, r: Config, m: map<string, string>)
    requires Lists(c, order)
    requires forall i :: 0 <= i < |order| && NewlyKeyed(env, c, order[i]) ==> KeyIsGiven(env, c, order, r, m, i)
    ensures forall i, j :: 0 <= i < j < |order| && NewlyKeyed(env, c, order[i]) && NewlyKeyed(env, c, order[j]) ==>
                             order[i] in m && order[j] in m && m[order[i]] != m[order[j]]
  {
    forall i, j | 0 <= i < j < |order| && NewlyKeyed(env, c, order[i]) && NewlyKeyed(env, c, order[j])
      ensures order[i] in m && order[j] in m && m[order[i]] != m[order[j]]
    {
      assert KeyIsGiven(env, c, order, r, m, i) && KeyIsGiven(env, c, order, r, m, j);
      KeysStayAllocated(env, c, order, i, j);
    }
  }

  lemma {:induction false} WalkMovesNothing(env: Env, c: Config, order: seq<string>)
    requires Lists(c, order) && forall id :: !Migratable(env, c, id)
    ensures Walk(env, c, order) == State(c.provider, c.custom, c.marker, map[])
  {
    if order != [] {
      WalkMovesNothing(env, c, order[..|order| - 1]);
      assert !Migratable(env, c, order[|order| - 1]);
    }
  }

  /** After a migration nothing is left to move; running it again, in any order, changes nothing. */
  lemma Idempotent(env: Env, c: Config, order: seq<string>, again: seq<string>)
    requires IsOrder(c, order) && forall id :: '/' !in env.hash(id)
    requires Lists(Migrate(env, c, order).0, again)
    ensures var r := Migrate(env, c, order).0; Migrate(env, r, again) == (r, map[])
  {
    var (r, m) := Migrate(env, c, order);
    WalkIsMigration(env, c, order);
    NoneLeft(env, c, order, r, m);
    WalkMovesNothing(env, r, again);
  }

  lemma NoneLeft(env: Env, c: Config, order: seq<string>, r: Config, m: map<string, string>)
    requires IsMigration(env, c, order, r, m)
    ensures forall id :: !Migratable(env, r, id)
  {
  }

  // ---------------------------------------------------------------- the migration loop

  method MigrateOne(env: Env, c: Config, s: State, id: string) returns (s': State, changed: bool)
    requires id in c.provider
    ensures s' == Step(env, c, s, id)
    ensures changed <==> Migratable(env, c, id)
  {
    if !ShouldMigrate(env, id, c.provider[id]) {
      return s, false;
    }
    if id in c.marker && c.marker[id] != "" && c.marker[id] !in RESERVED {
      var key := c.marker[id];
      if !(key in s.custom && s.custom[key].isRecord) {
        return s.(provider := s.provider - {id}), true;
      }
      return s.(provider := s.provider - {id}, migrated := s.migrated[id := key]), true;
    }
    var key, suffix := GenerateKey(env, id, c.provider[id], s.custom.Keys);
    return Created(c, s, id, key), true;
  }

  method MigrateAll(env: Env, c: Config, order: seq<string>) returns (s: State, changed: bool)
    requires Lists(c, order)
    ensures s == Walk(env, c, order)
    ensures changed <==> exists k :: 0 <= k < |order| && Migratable(env, c, order[k])
  {
    s, changed := State(c.provider, c.custom, c.marker, map[]), false;
    for i := 0 to |order|
      invariant s == Walk(env, c, order[..i])
      invariant changed <==> exists k :: 0 <= k < i && Migratable(env, c, order[k])
    {
      assert order[..i + 1][..i] == order[..i];
      var step;
      s, step := MigrateOne(env, c, s, order[i]);
      changed := changed || step;
    }
    assert order[..|order|] == order;
  }

  /** `order` is the order in which the provider tree lists its entries. */
  method MigrateLegacyProviders(env: Env, c: Config, order: seq<string>)
    returns (r: Config, migrated: map<string, string>, changed: bool)
    requires IsOrder(c, order)
    requires forall id :: '/' !in env.hash(id)
    ensures !env.managedRuntime ==> r == c && migrated == map[] && !changed
    ensures env.managedRuntime ==> (r, migrated) == Migrate(env, c, order) && IsMigration(env, c, order, r, migrated)
    ensures env.managedRuntime ==> (changed <==> exists k :: 0 <= k < |order| && Migratable(env, c, order[k]))
  {
    if !env.managedRuntime {
      return c, map[], false;
    }
    var s;
    s, changed := MigrateAll(env, c, order);
    WalkIsMigration(env, c, order);
    migrated := s.migrated;
    r := Config(s.provider, s.custom, s.marker,
                RewriteOptional(c.defaultModel, migrated),
                RewriteOptional(c.defaultLightModel, migrated),
                RewriteNexus(c.nexusProvider, migrated));
  }
}

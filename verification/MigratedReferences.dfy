/**
 What model references mean before and after the provider migration, which keys a migration hands
 out, and what becomes of providers that were migrated before.
 */
module MigratedReferences {
  import opened ProviderMigration
  import opened Wrappers

  // ---------------------------------------------------------------- taking references apart

  lemma {:induction false} SlashAt(s: string, n: nat)
    requires n < |s| && s[n] == '/' && '/' !in s[..n]
    ensures SlashIndex(s) == n
  {
    if n > 0 {
      assert s[0] == s[..n][0];
      assert s[1..][..n - 1] == s[..n][1..];
      SlashAt(s[1..], n - 1);
    }
  }

  /** A provider id and a model name that a reference can be made of. */
  predicate IsRef(id: string, model: string)
  {
    id != "" && '/' !in id && model != ""
  }

  /** A reference built from a slash-free provider id is taken apart into the same parts. */
  lemma RefParts(id: string, model: string)
    requires IsRef(id, model)
    ensures var ref := id + "/" + model;
            SlashIndex(ref) == |id| < |ref| - 1 && ref[..|id|] == id && ref[|id| + 1..] == model
  {
    var ref := id + "/" + model;
    assert ref[..|id|] == id && ref[|id|] == '/';
    SlashAt(ref, |id|);
  }

  function Meaning(table: Option<Table>, model: string): Option<(Table, string)>
  {
    match table case None => None case Some(t) => Some((t, model))
  }

  lemma ResolveParts(c: Config, id: string, model: string)
    requires IsRef(id, model)
    ensures Resolve(c, id + "/" + model) == Meaning(TableOfProvider(c, id), model)
  {
    RefParts(id, model);
  }

  lemma RewriteParts(id: string, model: string, m: map<string, string>)
    requires IsRef(id, model)
    ensures RewriteModelRef(id + "/" + model, m) ==
            if id in m && m[id] != "" then PREFIX + m[id] + "/" + model else id + "/" + model
  {
    RefParts(id, model);
  }

  lemma QualifiedResolves(r: Config, key: string, model: string)
    requires GoodKey(key) && model != "" && key in r.custom && r.custom[key].isRecord
    ensures Resolve(r, PREFIX + key + "/" + model) == Meaning(r.custom[key].models, model)
  {
    ResolveParts(r, PREFIX + key, model);
    assert (PREFIX + key)[|PREFIX|..] == key && HasPrefix(PREFIX + key);
  }

  lemma PlainIdMeansItself(c: Config, id: string)
    requires id != "" && id != "minimax_api" && id in c.provider
    ensures !HasPrefix(id) ==> TableOfProvider(c, id) == c.provider[id].models
  {
  }

  lemma PositionOf(c: Config, order: seq<string>, id: string) returns (i: nat)
    requires IsOrder(c, order) && id in c.provider
    ensures i < |order| && order[i] == id
  {
    i :| 0 <= i < |order| && order[i] == id;
  }

  // ---------------------------------------------------------------- newly keyed providers

  /**
   A reference to a newly keyed provider is rewritten to one that resolves to that provider's
   model table. It meant the same before exactly when the provider id is not itself written with
   the custom prefix, or that qualified id already led to the same table.
   */
  lemma NewRefsKeepTheirMeaning(env: Env, c: Config, order: seq<string>, r: Config, m: map<string, string>,
                                id: string, model: string)
    requires IsMigration(env, c, order, r, m) && NewlyKeyed(env, c, id) && IsRef(id, model)
    ensures var before := id + "/" + model;
            var after := RewriteModelRef(before, m);
            && Resolve(r, after) == Some((c.provider[id].models.value, model))
            && (Resolve(r, after) == Resolve(c, before) <==>
                  !HasPrefix(id) || TableOfProvider(c, id) == c.provider[id].models)
  {
    var i := PositionOf(c, order, id);
    assert KeyIsGiven(env, c, order, r, m, i);
    RewriteParts(id, model, m);
    QualifiedResolves(r, m[id], model);
    ResolveParts(c, id, model);
    PlainIdMeansItself(c, id);
  }

  /**
   The exception is real: an id written with the prefix means a custom provider, here one that
   does not exist, and after the migration the reference leads to the provider itself.
   */
  lemma PrefixedIdsChangeMeaning() returns (env: Env, c: Config, id: string)
    ensures NewlyKeyed(env, c, id) && IsRef(id, "m") && IsOrder(c, [id])
    ensures var (r, m) := Migrate(env, c, [id]);
            && Resolve(c, id + "/" + "m") == None
            && Resolve(r, RewriteModelRef(id + "/" + "m", m)) == Some((c.provider[id].models.value, "m"))
  {
    env, id := Env(true, {}, _ => "0"), "custom_provider:x";
    var p := Provider(true, None, true, true, Some(map[]), "", "");
    c := Config(map[id := p], map[], map[], None, None, None);
    assert id[|PREFIX|..] == "x" && HasPrefix(id);
    ResolveParts(c, id, "m");
    assert [id][0] == id;
    WalkIsMigration(env, c, [id]);
    var (r, m) := Migrate(env, c, [id]);
    NewRefsKeepTheirMeaning(env, c, [id], r, m, id, "m");
  }

  // ---------------------------------------------------------------- providers that do not move

  /** A provider id qualified with a custom key that the migration hands out. */
  ghost predicate NamesNewKey(env: Env, c: Config, order: seq<string>, id: string)
    requires Lists(c, order)
  {
    HasPrefix(id) && id[|PREFIX|..] in Allocated(env, c, order)
  }

  /** What a migration means for one custom key and one builtin id that does not move. */
  lemma EntriesAfter(env: Env, c: Config, order: seq<string>, r: Config, m: map<string, string>,
                     key: string, id: string)
    requires IsMigration(env, c, order, r, m) && !Migratable(env, c, id)
    ensures id !in m && (id in r.provider <==> id in c.provider)
    ensures id in c.provider ==> r.provider[id] == c.provider[id]
    ensures key in r.custom <==> key in c.custom || key in Allocated(env, c, order)
    ensures key in c.custom ==> r.custom[key] == c.custom[key]
    ensures key in Allocated(env, c, order) ==>
              key !in c.custom && key != "" && r.custom[key].isRecord && r.custom[key].models.Some?
  {
    if key in Allocated(env, c, order) {
      assert order[..|order|] == order;
      var j := AllocatedHasOwner(env, c, order, |order|, key);
      assert KeyIsGiven(env, c, order, r, m, j);
    }
  }

  lemma TableOfEntries(c: Config, r: Config, id: string, isNew: bool)
    requires id in r.provider <==> id in c.provider
    requires id in c.provider ==> r.provider[id] == c.provider[id]
    requires isNew ==> HasPrefix(id)
    requires HasPrefix(id) ==>
               var key := id[|PREFIX|..];
               && (key in r.custom <==> key in c.custom || isNew)
               && (key in c.custom ==> r.custom[key] == c.custom[key])
               && (isNew ==> key !in c.custom && key != "" && r.custom[key].isRecord && r.custom[key].models.Some?)
    ensures !isNew ==> TableOfProvider(r, id) == TableOfProvider(c, id)
    ensures isNew ==> TableOfProvider(c, id) == None && TableOfProvider(r, id).Some?
  {
  }

  lemma TableStays(env: Env, c: Config, order: seq<string>, r: Config, m: map<string, string>, id: string)
    requires IsMigration(env, c, order, r, m) && !Migratable(env, c, id)
    ensures id !in m
    ensures !NamesNewKey(env, c, order, id) ==> TableOfProvider(r, id) == TableOfProvider(c, id)
    ensures NamesNewKey(env, c, order, id) ==> TableOfProvider(c, id) == None && TableOfProvider(r, id).Some?
  {
    EntriesAfter(env, c, order, r, m, if HasPrefix(id) then id[|PREFIX|..] else "", id);
    TableOfEntries(c, r, id, NamesNewKey(env, c, order, id));
  }

  /** A well-formed reference through a custom key that the migration hands out. */
  ghost predicate Captured(env: Env, c: Config, order: seq<string>, ref: string)
    requires Lists(c, order)
  {
    0 < SlashIndex(ref) < |ref| - 1 && NamesNewKey(env, c, order, ProviderOf(ref))
  }

  function ProviderOf(ref: string): string
  {
    ref[..SlashIndex(ref)]
  }

  /**
   A reference whose provider does not move is left alone. It keeps its meaning, be it a table or
   nothing, unless it dangles and its custom key is handed out to a newly keyed provider.
   */
  lemma OtherRefsKeepTheirMeaning(env: Env, c: Config, order: seq<string>, r: Config, m: map<string, string>,
                                  ref: string)
    requires IsMigration(env, c, order, r, m) && !Migratable(env, c, ProviderOf(ref))
    ensures RewriteModelRef(ref, m) == ref
    ensures Resolve(r, ref) == Resolve(c, ref) <==> !Captured(env, c, order, ref)
    ensures Captured(env, c, order, ref) ==> Resolve(c, ref) == None && Resolve(r, ref).Some?
  {
    TableStays(env, c, order, r, m, ProviderOf(ref));
    TableIsMeaning(c, r, m, ref, NamesNewKey(env, c, order, ProviderOf(ref)));
  }

  lemma TableIsMeaning(c: Config, r: Config, m: map<string, string>, ref: string, isNew: bool)
    requires var id := ProviderOf(ref);
             && id !in m
             && (!isNew ==> TableOfProvider(r, id) == TableOfProvider(c, id))
             && (isNew ==> TableOfProvider(c, id) == None && TableOfProvider(r, id).Some?)
    ensures RewriteModelRef(ref, m) == ref
    ensures var captured := 0 < SlashIndex(ref) < |ref| - 1 && isNew;
            && (Resolve(r, ref) == Resolve(c, ref) <==> !captured)
            && (captured ==> Resolve(c, ref) == None && Resolve(r, ref).Some?)
  {
  }

  // ---------------------------------------------------------------- providers migrated before

  /**
   A reference to a provider that was migrated before and still has its custom entry is rewritten
   to that entry. It keeps its meaning exactly when it led to the same table before.
   */
  lemma RecordedRefsFollowTheRecord(env: Env, c: Config, order: seq<string>, r: Config, m: map<string, string>,
                                    id: string, model: string)
    requires IsMigration(env, c, order, r, m) && Migratable(env, c, id) && Recorded(c, id) && IsRef(id, model)
    requires '/' !in c.marker[id] && HasRecord(c.custom, c.marker[id])
    ensures var before, key := id + "/" + model, c.marker[id];
            var after := RewriteModelRef(before, m);
            && after == PREFIX + key + "/" + model
            && Resolve(r, after) == Meaning(c.custom[key].models, model)
            && (Resolve(r, after) == Resolve(c, before) <==> TableOfProvider(c, id) == c.custom[key].models)
  {
    var i := PositionOf(c, order, id);
    assert KeyIsRecalled(env, c, order, m, i);
    RewriteParts(id, model, m);
    QualifiedResolves(r, c.marker[id], model);
    ResolveParts(c, id, model);
  }

  predicate HasRecord(custom: map<string, Provider>, key: string)
  {
    key in custom && custom[key].isRecord
  }

  /** A provider that was migrated before and whose custom entry the user has deleted. */
  predicate Deleted(env: Env, c: Config, id: string)
  {
    Migratable(env, c, id) && Recorded(c, id) && !HasRecord(c.custom, c.marker[id])
  }

  /**
   A deleted provider does not come back: its builtin entry goes, and its key stays free unless
   it is handed out to a newly keyed provider, whose table then stands there.
   */
  lemma DeletedStaysDeleted(env: Env, c: Config, order: seq<string>, r: Config, m: map<string, string>, id: string)
    requires IsMigration(env, c, order, r, m) && Deleted(env, c, id)
    ensures id !in r.provider
    ensures HasRecord(r.custom, c.marker[id]) <==> c.marker[id] in Allocated(env, c, order)
    ensures HasRecord(r.custom, c.marker[id]) ==>
              exists j :: 0 <= j < |order| && order[j] != id && NewlyKeyed(env, c, order[j]) &&
                          KeyGiven(env, c, order, j) == c.marker[id] &&
                          r.custom[c.marker[id]] == ToMigrated(c.provider[order[j]])
  {
    if c.marker[id] in Allocated(env, c, order) {
      assert order[..|order|] == order;
      var j := AllocatedHasOwner(env, c, order, |order|, c.marker[id]);
      assert KeyIsGiven(env, c, order, r, m, j);
    }
  }

  /**
   A default reference to a deleted provider dangles after the migration, unless its key is handed
   out before its turn: then the reference is rewritten to the table of the provider that got it.
   */
  lemma DeletedRefsDangleOrAreCaptured(env: Env, c: Config, order: seq<string>, r: Config, m: map<string, string>,
                                       i: nat, model: string)
    requires IsMigration(env, c, order, r, m) && i < |order| && Deleted(env, c, order[i])
    requires IsRef(order[i], model) && !HasPrefix(order[i])
    ensures var id := order[i];
            var before, key := id + "/" + model, c.marker[id];
            var after := RewriteModelRef(before, m);
            && Resolve(c, before) == Some((c.provider[id].models.value, model))
            && (Resolve(r, after).Some? <==> key in Allocated(env, c, order[..i]))
            && (key !in Allocated(env, c, order[..i]) ==> after == before)
            && (key in Allocated(env, c, order[..i]) ==>
                  exists j :: 0 <= j < i && NewlyKeyed(env, c, order[j]) && KeyGiven(env, c, order, j) == key &&
                              Resolve(r, after) == Some((c.provider[order[j]].models.value, model)))
  {
    var id := order[i];
    var key := c.marker[id];
    assert KeyIsRecalled(env, c, order, m, i);
    RewriteParts(id, model, m);
    ResolveParts(c, id, model);
    PlainIdMeansItself(c, id);
    if key in Allocated(env, c, order[..i]) {
      var j := AllocatedHasOwner(env, c, order, i, key);
      assert KeyIsGiven(env, c, order, r, m, j);
      QualifiedResolves(r, key, model);
    } else {
      ResolveParts(r, id, model);
    }
  }

  // ---------------------------------------------------------------- which keys are handed out

  /** `key` is the first candidate of `order[i]` that is neither reserved nor taken when its turn comes. */
  ghost predicate FirstFree(env: Env, c: Config, order: seq<string>, i: nat, key: string, n: nat)
    requires Lists(c, order) && i < |order|
  {
    var base := BaseKey(env, order[i], c.provider[order[i]]);
    var taken := c.custom.Keys + Allocated(env, c, order[..i]) + RESERVED;
    && NewlyKeyed(env, c, order[i]) && Candidate(base, n) == key && key !in taken
    && forall k :: 0 <= k < n ==> Candidate(base, k) in taken
  }

  /** A key is handed out exactly when it is, at some newly keyed provider's turn, its first free candidate. */
  lemma HandedOutIff(env: Env, c: Config, order: seq<string>, key: string)
    requires Lists(c, order)
    ensures key in Allocated(env, c, order) <==>
            exists i, n: nat :: 0 <= i < |order| && FirstFree(env, c, order, i, key, n)
  {
    assert order[..|order|] == order;
    if key in Allocated(env, c, order) {
      var i := AllocatedHasOwner(env, c, order, |order|, key);
      var base := BaseKey(env, order[i], c.provider[order[i]]);
      var n := FreshSuffix(base, c.custom.Keys + Allocated(env, c, order[..i]) + RESERVED, 0);
      assert FirstFree(env, c, order, i, key, n);
    }
    if i, n: nat :| 0 <= i < |order| && FirstFree(env, c, order, i, key, n) {
      FirstFreeIsGiven(env, c, order, i, key, n);
      KeysStayAllocated(env, c, order, i, |order|);
    }
  }

  lemma FirstFreeIsGiven(env: Env, c: Config, order: seq<string>, i: nat, key: string, n: nat)
    requires Lists(c, order) && i < |order| && FirstFree(env, c, order, i, key, n)
    ensures KeyGiven(env, c, order, i) == key
  {
    var base := BaseKey(env, order[i], c.provider[order[i]]);
    var taken := c.custom.Keys + Allocated(env, c, order[..i]) + RESERVED;
    var r := FreshSuffix(base, taken, 0);
    assert r == n;
  }

  /** Some newly keyed provider's own base key. */
  ghost predicate IsBase(env: Env, c: Config, key: string)
  {
    exists id :: NewlyKeyed(env, c, id) && BaseKey(env, id, c.provider[id]) == key
  }

  /** A candidate with a suffix of some newly keyed provider. */
  ghost predicate IsSuffixed(env: Env, c: Config, key: string)
  {
    exists id, n: nat :: NewlyKeyed(env, c, id) && n > 0 && Candidate(BaseKey(env, id, c.provider[id]), n) == key
  }

  /**
   In whatever order the providers are listed: a free key that is some newly keyed provider's base
   is handed out, and one that is no candidate of any is not.
   */
  lemma BaseIsHandedOut(env: Env, c: Config, order: seq<string>, key: string)
    requires IsOrder(c, order) && key !in c.custom && key !in RESERVED
    ensures IsBase(env, c, key) ==> key in Allocated(env, c, order)
    ensures !IsBase(env, c, key) && !IsSuffixed(env, c, key) ==> key !in Allocated(env, c, order)
  {
    assert order[..|order|] == order;
    if id :| NewlyKeyed(env, c, id) && BaseKey(env, id, c.provider[id]) == key {
      var i := PositionOf(c, order, id);
      if key !in Allocated(env, c, order[..i]) {
        assert KeyGiven(env, c, order, i) == key;
      }
      KeysStayAllocated(env, c, order, i, |order|);
    }
    if key in Allocated(env, c, order) {
      var j := AllocatedHasOwner(env, c, order, |order|, key);
      var base := BaseKey(env, order[j], c.provider[order[j]]);
      var n := FreshSuffix(base, c.custom.Keys + Allocated(env, c, order[..j]) + RESERVED, 0);
      assert key == Candidate(base, n);
    }
  }

  /** So for a deleted provider whose key is no suffixed candidate, the order does not matter. */
  lemma DeletedKeyIsReusedIff(env: Env, c: Config, order: seq<string>, r: Config, m: map<string, string>, id: string)
    requires IsMigration(env, c, order, r, m) && Deleted(env, c, id) && !IsSuffixed(env, c, c.marker[id])
    ensures HasRecord(r.custom, c.marker[id]) <==> c.marker[id] !in c.custom && IsBase(env, c, c.marker[id])
  {
    DeletedStaysDeleted(env, c, order, r, m, id);
    if c.marker[id] !in c.custom {
      BaseIsHandedOut(env, c, order, c.marker[id]);
    }
  }

  // ---------------------------------------------------------------- a captured default model

  function Byok(name: string): Provider
  {
    Provider(true, None, true, true, Some(map[name := name]), "", "")
  }

  /** `foo` was migrated before and its custom entry deleted; `FOO` is new. */
  function TwoFoos(): Config
  {
    Config(map["FOO" := Byok("new"), "foo" := Byok("old")], map[], map["foo" := "foo"],
           Some("foo" + "/" + "m"), None, None)
  }

  lemma FoosHaveOneSlug()
    ensures Slugify("FOO") == Some("foo")
  {
    assert TrimStart("FOO") == "FOO" && TrimEnd("FOO") == "FOO";
    assert "FOO"[1..] == "OO" && "OO"[1..] == "O" && "O"[1..] == "";
    assert Dashed("O") == "o" && Dashed("OO") == "oo" && Dashed("FOO") == "foo";
  }

  lemma FoosAreOrdered()
    ensures IsOrder(TwoFoos(), ["FOO", "foo"]) && IsOrder(TwoFoos(), ["foo", "FOO"])
  {
    assert ["FOO", "foo"][0] == "FOO" && ["FOO", "foo"][1] == "foo";
    assert ["foo", "FOO"][0] == "foo" && ["foo", "FOO"][1] == "FOO";
  }

  /**
   Listed before the deleted `foo`, the new `FOO` captures its default model, which meant `foo`'s
   table and now means `FOO`'s.
   */
  lemma DefaultModelIsCaptured(env: Env, order: seq<string>)
    requires env.managedProviders == {} && forall id :: '/' !in env.hash(id)
    requires order == ["FOO", "foo"]
    ensures IsOrder(TwoFoos(), order)
    ensures var before, after := "foo" + "/" + "m", PREFIX + "foo" + "/" + "m";
            var r := Migrate(env, TwoFoos(), order).0;
            && TwoFoos().defaultModel == Some(before) && r.defaultModel == Some(after)
            && Resolve(TwoFoos(), before) == Some((map["old" := "old"], "m"))
            && Resolve(r, after) == Some((map["new" := "new"], "m"))
  {
    FoosAreOrdered();
    RunOfFoos(env, order, 1);
  }

  /** Listed after it, `FOO` comes too late and the default model dangles. */
  lemma DefaultModelDangles(env: Env, order: seq<string>)
    requires env.managedProviders == {} && forall id :: '/' !in env.hash(id)
    requires order == ["foo", "FOO"]
    ensures IsOrder(TwoFoos(), order)
    ensures var before, r := "foo" + "/" + "m", Migrate(env, TwoFoos(), order).0;
            r.defaultModel == TwoFoos().defaultModel == Some(before) && Resolve(r, before) == None
  {
    FoosAreOrdered();
    RunOfFoos(env, order, 0);
  }

  /** `i` is the position of `foo`. */
  lemma RunOfFoos(env: Env, order: seq<string>, i: nat)
    requires env.managedProviders == {} && forall id :: '/' !in env.hash(id)
    requires IsOrder(TwoFoos(), order)
    requires (order == ["FOO", "foo"] && i == 1) || (order == ["foo", "FOO"] && i == 0)
    ensures var before, after := "foo" + "/" + "m", PREFIX + "foo" + "/" + "m";
            var r := Migrate(env, TwoFoos(), order).0;
            && Resolve(TwoFoos(), before) == Some((map["old" := "old"], "m"))
            && r.defaultModel == Some(if i == 0 then before else after)
            && (i == 0 ==> Resolve(r, before) == None)
            && (i == 1 ==> Resolve(r, after) == Some((map["new" := "new"], "m")))
  {
    var (r, m) := Migrate(env, TwoFoos(), order);
    KeyOfFoo(env, order, i);
    WalkIsMigration(env, TwoFoos(), order);
    CapturedIfEarlier(env, order, r, m, i);
  }

  lemma CapturedIfEarlier(env: Env, order: seq<string>, r: Config, m: map<string, string>, i: nat)
    requires env.managedProviders == {} && IsMigration(env, TwoFoos(), order, r, m)
    requires i < |order| == 2 && order[i] == "foo" && order[1 - i] == "FOO"
    requires "foo" in Allocated(env, TwoFoos(), order[..i]) <==> i == 1
    ensures Resolve(TwoFoos(), "foo" + "/" + "m") == Some((map["old" := "old"], "m"))
    ensures r.defaultModel == Some(RewriteModelRef("foo" + "/" + "m", m))
    ensures i == 0 ==> RewriteModelRef("foo" + "/" + "m", m) == "foo" + "/" + "m" &&
                       Resolve(r, "foo" + "/" + "m") == None
    ensures i == 1 ==> RewriteModelRef("foo" + "/" + "m", m) == PREFIX + "foo" + "/" + "m" &&
                       Resolve(r, PREFIX + "foo" + "/" + "m") == Some((map["new" := "new"], "m"))
  {
    FooIsDeleted(env);
    DeletedRefsDangleOrAreCaptured(env, TwoFoos(), order, r, m, i, "m");
    RefOfFoo(env, order, r, m, i);
  }

  lemma FooIsDeleted(env: Env)
    requires env.managedProviders == {}
    ensures IsRef("foo", "m") && !HasPrefix("foo") && Deleted(env, TwoFoos(), "foo")
  {
  }

  lemma RefOfFoo(env: Env, order: seq<string>, r: Config, m: map<string, string>, i: nat)
    requires env.managedProviders == {} && IsMigration(env, TwoFoos(), order, r, m)
    requires i < |order| && order[i] == "foo"
    requires "foo" in Allocated(env, TwoFoos(), order[..i]) <==> i == 1
    ensures RewriteModelRef("foo" + "/" + "m", m) == if i == 1 then PREFIX + "foo" + "/" + "m" else "foo" + "/" + "m"
  {
    FooIsDeleted(env);
    assert KeyIsRecalled(env, TwoFoos(), order, m, i);
    RewriteParts("foo", "m", m);
  }

  lemma KeyOfFoo(env: Env, order: seq<string>, i: nat)
    requires env.managedProviders == {}
    requires (order == ["FOO", "foo"] && i == 1) || (order == ["foo", "FOO"] && i == 0)
    ensures Lists(TwoFoos(), order)
    ensures "foo" in Allocated(env, TwoFoos(), order[..i]) <==> i == 1
  {
    var c := TwoFoos();
    FoosHaveOneSlug();
    if i == 1 {
      assert order[..1] == [] + ["FOO"];
      AllocatedNext(env, c, [], "FOO");
    }
  }
}

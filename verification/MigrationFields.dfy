/**
 What a provider migration does to the fields of a configuration, in terms of the fields it reads:
 which providers move and how, and where the default models and the nexus provider lead afterwards.
 */
module MigrationFields {
  import opened ProviderMigration
  import opened MigratedReferences
  import opened Wrappers

  // ---------------------------------------------------------------- which providers move

  /** A provider leaves the builtin tree exactly if it is a record with key, address and models, and user-owned. */
  lemma MovesIff(env: Env, c: Config, order: seq<string>, r: Config, m: map<string, string>, id: string)
    requires IsMigration(env, c, order, r, m) && id in c.provider
    ensures var p := c.provider[id];
            id !in r.provider <==>
            && p.isRecord && p.hasApiKey && p.hasBaseURL && p.models.Some?
            && id != "minimax" && id != "minimax_api" && id !in env.managedProviders
    ensures id in r.provider ==> r.provider[id] == c.provider[id]
  {
  }

  /**
   Without a usable record the provider gets an entry of its own: it is recorded, nothing stood there
   before, and the entry is the provider, turned into a custom one with an API key.
   */
  lemma NewEntry(env: Env, c: Config, order: seq<string>, r: Config, m: map<string, string>, id: string)
    requires IsMigration(env, c, order, r, m) && id in c.provider && id !in r.provider
    requires id in c.marker ==> c.marker[id] in {"", "minimax", "minimax_api", "provider", "custom_provider"}
    ensures id in r.marker && r.marker[id] !in c.custom && r.marker[id] in r.custom
    ensures r.marker[id] !in {"", "minimax", "minimax_api", "provider", "custom_provider"}
    ensures var p, p' := c.provider[id], r.custom[r.marker[id]];
            && p'.kind == "custom" && p'.authMode == "api-key"
            && p'.name == p.name && p'.models == p.models
            && p'.isRecord && p'.hasApiKey && p'.hasBaseURL
  {
    MovesIff(env, c, order, r, m, id);
    var i := PositionOf(c, order, id);
    assert KeyIsGiven(env, c, order, r, m, i);
  }

  // ---------------------------------------------------------------- the nexus provider

  lemma QualifiedTable(r: Config, key: string)
    requires key != "" && key in r.custom && r.custom[key].isRecord
    ensures TableOfProvider(r, PREFIX + key) == r.custom[key].models
  {
    assert (PREFIX + key)[..|PREFIX|] == PREFIX && (PREFIX + key)[|PREFIX|..] == key;
  }

  lemma FieldsOf(env: Env, c: Config, order: seq<string>, r: Config, m: map<string, string>)
    requires IsMigration(env, c, order, r, m)
    ensures r.nexusProvider == RewriteNexus(c.nexusProvider, m)
    ensures r.defaultModel == RewriteOptional(c.defaultModel, m)
    ensures r.defaultLightModel == RewriteOptional(c.defaultLightModel, m)
  {
  }

  lemma KeyOf(env: Env, c: Config, order: seq<string>, r: Config, m: map<string, string>, id: string)
    requires IsMigration(env, c, order, r, m) && NewlyKeyed(env, c, id)
    ensures id in m && m[id] != "" && m[id] in r.custom
    ensures r.custom[m[id]].isRecord && r.custom[m[id]].models == c.provider[id].models
    ensures id in c.provider && c.provider[id].models.Some? && id != "minimax_api"
  {
    var i := PositionOf(c, order, id);
    assert KeyIsGiven(env, c, order, r, m, i);
  }

  /** A nexus provider that is newly keyed is followed to its new entry. */
  lemma NexusFollowsNewKey(env: Env, c: Config, order: seq<string>, r: Config, m: map<string, string>, id: string)
    requires IsMigration(env, c, order, r, m) && c.nexusProvider == Some(id) && NewlyKeyed(env, c, id)
    ensures r.nexusProvider.Some?
    ensures TableOfProvider(r, r.nexusProvider.value) == c.provider[id].models
    ensures id != "" && !HasPrefix(id) ==> TableOfProvider(c, id) == c.provider[id].models
  {
    FieldsOf(env, c, order, r, m);
    KeyOf(env, c, order, r, m, id);
    QualifiedTable(r, m[id]);
  }

  /**
   One that was migrated before is followed to its recorded entry if that exists when its turn comes.
   Otherwise it stays, and as its builtin entry goes it leads nowhere, unless written with the prefix.
   */
  lemma NexusFollowsRecord(env: Env, c: Config, order: seq<string>, r: Config, m: map<string, string>, i: nat)
    requires IsMigration(env, c, order, r, m) && i < |order| && c.nexusProvider == Some(order[i])
    requires Migratable(env, c, order[i]) && Recorded(c, order[i])
    ensures var id, key := order[i], c.marker[order[i]];
            if HasRecord(c.custom, key) then
              r.nexusProvider.Some? && TableOfProvider(r, r.nexusProvider.value) == c.custom[key].models
            else if key in Allocated(env, c, order[..i]) then
              && r.nexusProvider.Some?
              && exists j :: 0 <= j < i && NewlyKeyed(env, c, order[j]) && KeyGiven(env, c, order, j) == key &&
                             TableOfProvider(r, r.nexusProvider.value) == c.provider[order[j]].models
            else
              r.nexusProvider == Some(id) && (!HasPrefix(id) ==> TableOfProvider(r, id) == None)
  {
    var key := c.marker[order[i]];
    assert KeyIsRecalled(env, c, order, m, i);
    if HasRecord(c.custom, key) {
      QualifiedTable(r, key);
    } else if key in Allocated(env, c, order[..i]) {
      var j := AllocatedHasOwner(env, c, order, i, key);
      assert KeyIsGiven(env, c, order, r, m, j);
      QualifiedTable(r, key);
    }
  }

  /** Any other nexus provider stays, and leads where it led, unless it dangled and its key is handed out. */
  lemma NexusStays(env: Env, c: Config, order: seq<string>, r: Config, m: map<string, string>)
    requires IsMigration(env, c, order, r, m)
    requires c.nexusProvider.Some? ==> !Migratable(env, c, c.nexusProvider.value)
    ensures r.nexusProvider == c.nexusProvider
    ensures c.nexusProvider.Some? ==>
              var id := c.nexusProvider.value;
              if NamesNewKey(env, c, order, id) then TableOfProvider(c, id) == None && TableOfProvider(r, id).Some?
              else TableOfProvider(r, id) == TableOfProvider(c, id)
  {
    if c.nexusProvider.Some? {
      TableStays(env, c, order, r, m, c.nexusProvider.value);
    }
  }

  // ---------------------------------------------------------------- the default models

  /** A default model of a newly keyed provider still leads to that provider's table, and so does the light one. */
  lemma DefaultsFollow(env: Env, c: Config, order: seq<string>, r: Config, m: map<string, string>, id: string,
                       model: string)
    requires IsMigration(env, c, order, r, m) && NewlyKeyed(env, c, id) && IsRef(id, model)
    ensures c.defaultModel == Some(id + "/" + model) ==>
              r.defaultModel.Some? && Resolve(r, r.defaultModel.value) == Some((c.provider[id].models.value, model))
    ensures c.defaultLightModel == Some(id + "/" + model) ==>
              && r.defaultLightModel.Some?
              && Resolve(r, r.defaultLightModel.value) == Some((c.provider[id].models.value, model))
    ensures c.defaultModel.None? <==> r.defaultModel.None?
    ensures c.defaultLightModel.None? <==> r.defaultLightModel.None?
  {
    FieldsOf(env, c, order, r, m);
    NewRefsKeepTheirMeaning(env, c, order, r, m, id, model);
  }

  // ---------------------------------------------------------------- slugs

  predicate IsSlugChar(c: char)
  {
    'a' <= c <= 'z' || '0' <= c <= '9' || c == '-'
  }

  /** Lower-case words of letters and digits, joined by single dashes. */
  predicate IsSlug(s: string)
  {
    && s != "" && s[0] != '-' && s[|s| - 1] != '-'
    && (forall i :: 0 <= i < |s| ==> IsSlugChar(s[i]))
    && (forall i :: 0 < i < |s| && s[i] == '-' ==> s[i - 1] != '-')
  }

  predicate SingleDashes(s: string)
  {
    && (forall i :: 0 <= i < |s| ==> IsSlugChar(s[i]))
    && (forall i :: 0 < i < |s| && s[i] == '-' ==> s[i - 1] != '-')
  }

  lemma {:induction false} DashedIsSingle(s: string)
    requires forall i :: 0 <= i < |s| ==> IsSimple(s[i])
    ensures SingleDashes(Dashed(s))
  {
    if s != "" {
      assert forall i :: 0 <= i < |s[1..]| ==> s[1..][i] == s[i + 1];
      DashedIsSingle(s[1..]);
      assert IsSimple(s[0]);
    }
  }

  lemma SliceIsSingle(s: string, i: nat, j: nat)
    requires SingleDashes(s) && i <= j <= |s|
    ensures SingleDashes(s[i..j])
  {
    var t := s[i..j];
    assert forall k :: 0 <= k < |t| ==> t[k] == s[i + k];
    forall k | 0 < k < |t| && t[k] == '-'
      ensures t[k - 1] != '-'
    {
      assert s[i + k] == '-' && s[i + k - 1] == t[k - 1];
    }
  }

  lemma StrippedIsSlug(s: string)
    requires SingleDashes(s) && StripDashes(s) != ""
    ensures IsSlug(StripDashes(s))
  {
    var i := if s[0] == '-' then 1 else 0;
    var j := if s[|s| - 1] == '-' then |s| - 1 else |s|;
    assert StripDashes(s) == s[i..j];
    SliceIsSingle(s, i, j);
  }

  /** Every slug is one. */
  lemma SlugsAreSlugs(s: string)
    ensures Slugify(s).Some? ==> IsSlug(Slugify(s).value)
  {
    var trimmed := TrimEnd(TrimStart(s));
    if Slugify(s).Some? {
      DashedIsSingle(trimmed);
      StrippedIsSlug(Dashed(trimmed));
    }
  }

  /** The letters and digits of a text, in lower case and in order. */
  function Letters(s: string): string
  {
    if s == "" then ""
    else (if s[0] in {' ', '_', '-'} then "" else [Lower(s[0])]) + Letters(s[1..])
  }

  lemma {:induction false} DashedKeepsLetters(s: string)
    requires forall i :: 0 <= i < |s| ==> IsSimple(s[i])
    ensures Letters(Dashed(s)) == Letters(s)
  {
    if s != "" {
      assert forall i :: 0 <= i < |s[1..]| ==> s[1..][i] == s[i + 1];
      DashedKeepsLetters(s[1..]);
      var rest := Dashed(s[1..]);
      if s[0] in {' ', '_', '-'} {
        assert ("-" + rest)[1..] == rest;
      } else {
        assert IsSimple(s[0]);
        assert ([Lower(s[0])] + rest)[1..] == rest;
        assert Lower(Lower(s[0])) == Lower(s[0]);
      }
    }
  }

  lemma {:induction false} LettersDropDash(s: string)
    requires s != "" && s[|s| - 1] == '-'
    ensures Letters(s[..|s| - 1]) == Letters(s)
  {
    if |s| > 1 {
      LettersDropDash(s[1..]);
      assert s[..|s| - 1][1..] == s[1..][..|s[1..]| - 1];
    } else {
      assert s[1..] == "";
    }
  }

  lemma StripKeepsLetters(s: string)
    ensures Letters(StripDashes(s)) == Letters(s)
  {
    var a := if s != "" && s[0] == '-' then s[1..] else s;
    if a != "" && a[|a| - 1] == '-' {
      LettersDropDash(a);
    }
  }

  /** A slug has the letters and digits of the trimmed text, in order. */
  lemma SlugKeepsLetters(s: string)
    ensures Slugify(s).Some? ==> Letters(Slugify(s).value) == Letters(TrimEnd(TrimStart(s)))
  {
    if Slugify(s).Some? {
      var trimmed := TrimEnd(TrimStart(s));
      DashedKeepsLetters(trimmed);
      StripKeepsLetters(Dashed(trimmed));
    }
  }

  lemma {:induction false} SlugIsDashed(s: string)
    requires SingleDashes(s)
    ensures Dashed(s) == s
  {
    if s != "" {
      assert forall i :: 0 <= i < |s[1..]| ==> s[1..][i] == s[i + 1];
      SlugIsDashed(s[1..]);
      assert IsSlugChar(s[0]);
      assert s == [s[0]] + s[1..];
      if s[0] == '-' && |s| > 1 {
        assert s[1] != '-';
      }
    }
  }

  /** And a slug is its own slug. */
  lemma SlugIsItself(s: string)
    requires IsSlug(s)
    ensures Slugify(s) == Some(s)
  {
    assert IsSlugChar(s[0]) && IsSlugChar(s[|s| - 1]);
    assert TrimStart(s) == s && TrimEnd(s) == s;
    forall i | 0 <= i < |s|
      ensures IsSimple(s[i])
    {
      assert IsSlugChar(s[i]);
    }
    SlugIsDashed(s);
  }
}

/** Expansion of a base list, additions and a profile overlay into the final extension list. */
module ResolveExtensions {
  import opened Listing
  import opened Wrappers

  datatype Extension = Extension(id: string, body: nat)

  datatype Overlay = Overlay(disable: seq<string>, enable: seq<string>, replace: map<string, string>)

  datatype Error =
    | DuplicateInPool(id: string)
    | DisablesUnknown(id: string)
    | EnablesAndDisables(id: string)
    | EnablesUnknown(id: string)
    | ReplacesUnknownTarget(id: string)
    | ReplacesWithUnknown(id: string)
    | DuplicateInResult(id: string)

  datatype Result = Ok(list: seq<Extension>) | Err(error: Error)

  // ---------------------------------------------------------------- specification

  predicate HasId(es: seq<Extension>, id: string)
  {
    exists i :: 0 <= i < |es| && es[i].id == id
  }

  ghost predicate DistinctIds(es: seq<Extension>)
  {
    forall i, j :: 0 <= i < j < |es| ==> es[i].id != es[j].id
  }

  /** The sublist whose ids are (not) listed, in order. */
  function Select(es: seq<Extension>, ids: seq<string>, listed: bool): seq<Extension>
  {
    if es == [] then []
    else
      var rest := Select(es[..|es| - 1], ids, listed);
      if (es[|es| - 1].id in ids) == listed then rest + [es[|es| - 1]] else rest
  }

  /** What is loaded before replacements: the base without the disabled, then the enabled additions. */
  function Selected(base: seq<Extension>, additions: seq<Extension>, o: Overlay): seq<Extension>
  {
    Select(base, o.disable, false) + Select(additions, o.enable, true)
  }

  function Find(pool: seq<Extension>, id: string): (r: Option<Extension>)
    ensures r.Some? <==> HasId(pool, id)
    ensures r.Some? ==> r.value in pool && r.value.id == id
  {
    if pool == [] then None
    else if pool[0].id == id then Some(pool[0])
    else
      assert forall i :: 1 <= i < |pool| ==> pool[i] == pool[1..][i - 1];
      Find(pool[1..], id)
  }

  /** All replacements look at the same list, so the result is position-wise. */
  function Replaced(es: seq<Extension>, pool: seq<Extension>, replace: map<string, string>): (r: seq<Extension>)
    ensures |r| == |es|
    ensures forall i :: 0 <= i < |es| ==>
                          r[i] == if es[i].id in replace && Find(pool, replace[es[i].id]).Some?
                                  then Find(pool, replace[es[i].id]).value else es[i]
  {
    seq(|es|, i requires 0 <= i < |es| =>
      if es[i].id in replace && Find(pool, replace[es[i].id]).Some?
      then Find(pool, replace[es[i].id]).value else es[i])
  }

  function Resolved(base: seq<Extension>, additions: seq<Extension>, overlay: Option<Overlay>): seq<Extension>
  {
    match overlay
    case None => base
    case Some(o) => Replaced(Selected(base, additions, o), base + additions, o.replace)
  }

  /** The id checks. */
  ghost predicate OverlayOk(base: seq<Extension>, additions: seq<Extension>, o: Overlay)
  {
    && (forall id :: id in o.disable ==> HasId(base, id))
    && (forall id :: id in o.enable ==> id !in o.disable && HasId(additions, id))
    && (forall id :: id in o.replace ==>
          HasId(Selected(base, additions, o), id) && HasId(base + additions, o.replace[id]))
  }

  ghost predicate Accepted(base: seq<Extension>, additions: seq<Extension>, overlay: Option<Overlay>)
  {
    && DistinctIds(base + additions)
    && (overlay.Some? ==> OverlayOk(base, additions, overlay.value))
    && DistinctIds(Resolved(base, additions, overlay))
  }

  // ---------------------------------------------------------------- the same in the overlay's terms

  /** The base without what is disabled, then the additions that are enabled. */
  function Rows(base: seq<Extension>, additions: seq<Extension>, o: Overlay): (rows: seq<seq<Option<Extension>>>)
  {
    [seq(|base|, i requires 0 <= i < |base| => if base[i].id in o.disable then None else Some(base[i])),
     seq(|additions|, i requires 0 <= i < |additions| =>
       if additions[i].id in o.enable then Some(additions[i]) else None)]
  }

  /** At every place stands the selected extension, or the one of the pool that is to replace it. */
  ghost predicate IsReplacement(list: seq<Extension>, selected: seq<Extension>, pool: seq<Extension>,
                                replace: map<string, string>)
  {
    && |list| == |selected|
    && forall i :: 0 <= i < |list| ==>
                     if selected[i].id in replace then list[i] in pool && list[i].id == replace[selected[i].id]
                     else list[i] == selected[i]
  }

  /** What the profile makes of the base and the additions. */
  ghost predicate IsResolution(list: seq<Extension>, base: seq<Extension>, additions: seq<Extension>, o: Overlay)
  {
    exists selected: seq<Extension> ::
      IsListing(Rows(base, additions, o), selected) && IsReplacement(list, selected, base + additions, o.replace)
  }

  lemma {:induction false} SelectIsPresent(es: seq<Extension>, ids: seq<string>, listed: bool,
                                           cells: seq<Option<Extension>>)
    requires |cells| == |es|
    requires forall i :: 0 <= i < |es| ==> cells[i] == if (es[i].id in ids) == listed then Some(es[i]) else None
    ensures Select(es, ids, listed) == Present(cells)
  {
    if es != [] {
      SelectIsPresent(es[..|es| - 1], ids, listed, cells[..|es| - 1]);
    }
  }

  lemma SelectedIsListed(base: seq<Extension>, additions: seq<Extension>, o: Overlay)
    ensures IsListing(Rows(base, additions, o), Selected(base, additions, o))
  {
    var rows := Rows(base, additions, o);
    SelectIsPresent(base, o.disable, false, rows[0]);
    SelectIsPresent(additions, o.enable, true, rows[1]);
    NothingListed(rows);
    assert [] + Present(rows[0]) == Present(rows[0]);
    RowListed(rows, 0, [], Present(rows[0]));
    RowListed(rows, 1, Present(rows[0]), Selected(base, additions, o));
    AllListed(rows, Selected(base, additions, o));
  }

  lemma ResolvedIsResolution(base: seq<Extension>, additions: seq<Extension>, o: Overlay)
    requires OverlayOk(base, additions, o)
    ensures IsResolution(Resolved(base, additions, Some(o)), base, additions, o)
  {
    SelectedIsListed(base, additions, o);
    assert IsReplacement(Resolved(base, additions, Some(o)), Selected(base, additions, o), base + additions, o.replace);
  }

  // ---------------------------------------------------------------- the checks

  ghost predicate Twice(es: seq<Extension>, id: string)
  {
    exists i, j :: 0 <= i < j < |es| && es[i].id == id && es[j].id == id
  }

  /** The error names an id that is at fault. */
  ghost predicate Explains(e: Error, base: seq<Extension>, additions: seq<Extension>, overlay: Option<Overlay>)
  {
    var pool := base + additions;
    match e
    case DuplicateInPool(id) => Twice(pool, id)
    case DisablesUnknown(id) => overlay.Some? && id in overlay.value.disable && !HasId(base, id)
    case EnablesAndDisables(id) => overlay.Some? && id in overlay.value.enable && id in overlay.value.disable
    case EnablesUnknown(id) => overlay.Some? && id in overlay.value.enable && !HasId(additions, id)
    case ReplacesUnknownTarget(id) =>
      overlay.Some? && id in overlay.value.replace && !HasId(Selected(base, additions, overlay.value), id)
    case ReplacesWithUnknown(id) => overlay.Some? && id in overlay.value.replace.Values && !HasId(pool, id)
    case DuplicateInResult(id) => overlay.Some? && Twice(Resolved(base, additions, overlay), id)
  }

  /** The first id that occurs twice, if any. */
  method FindDuplicate(es: seq<Extension>) returns (dup: Option<string>)
    ensures dup.None? <==> DistinctIds(es)
    ensures dup.Some? ==> Twice(es, dup.value)
  {
    var seen: set<string> := {};
    for i := 0 to |es|
      invariant forall id :: id in seen <==> HasId(es[..i], id)
      invariant DistinctIds(es[..i])
    {
      if es[i].id in seen {
        var j :| 0 <= j < |es[..i]| && es[..i][j].id == es[i].id;
        assert es[j].id == es[i].id;
        assert Twice(es, es[i].id);
        return Some(es[i].id);
      }
      forall id
        ensures id in seen + {es[i].id} <==> HasId(es[..i + 1], id)
      {
        HasIdSnoc(es, i, id);
      }
      ghost var longer := es[..i + 1];
      forall a, b | 0 <= a < b < |longer|
        ensures longer[a].id != longer[b].id
      {
        if b == i {
          assert es[..i][a].id == es[a].id;
          assert HasId(es[..i], es[a].id);
        } else {
          assert es[..i][a].id != es[..i][b].id;
        }
      }
      seen := seen + {es[i].id};
    }
    assert es[..|es|] == es;
    return None;
  }

  lemma HasIdSnoc(es: seq<Extension>, i: nat, id: string)
    requires i < |es|
    ensures HasId(es[..i + 1], id) <==> HasId(es[..i], id) || es[i].id == id
  {
    if HasId(es[..i], id) {
      var j :| 0 <= j < |es[..i]| && es[..i][j].id == id;
      assert es[..i + 1][j].id == id;
    }
    if HasId(es[..i + 1], id) {
      var j :| 0 <= j < |es[..i + 1]| && es[..i + 1][j].id == id;
      assert j < i ==> es[..i][j].id == id;
    }
    if es[i].id == id {
      assert es[..i + 1][i].id == id;
    }
  }

  method CheckDisable(base: seq<Extension>, o: Overlay) returns (e: Option<Error>)
    ensures e.None? <==> forall id :: id in o.disable ==> HasId(base, id)
    ensures e.Some? ==> e.value.DisablesUnknown? && Explains(e.value, base, [], Some(o))
  {
    for i := 0 to |o.disable|
      invariant forall k :: 0 <= k < i ==> HasId(base, o.disable[k])
    {
      if !HasId(base, o.disable[i]) {
        return Some(DisablesUnknown(o.disable[i]));
      }
    }
    return None;
  }

  method CheckEnable(additions: seq<Extension>, o: Overlay) returns (e: Option<Error>)
    ensures e.None? <==> forall id :: id in o.enable ==> id !in o.disable && HasId(additions, id)
    ensures e.Some? ==>
              && (e.value.EnablesAndDisables? || e.value.EnablesUnknown?)
              && Explains(e.value, [], additions, Some(o))
  {
    for i := 0 to |o.enable|
      invariant forall k :: 0 <= k < i ==> o.enable[k] !in o.disable && HasId(additions, o.enable[k])
    {
      if o.enable[i] in o.disable {
        return Some(EnablesAndDisables(o.enable[i]));
      }
      if !HasId(additions, o.enable[i]) {
        return Some(EnablesUnknown(o.enable[i]));
      }
    }
    return None;
  }

  method CheckReplace(selected: seq<Extension>, pool: seq<Extension>, replace: map<string, string>)
    returns (e: Option<Error>)
    ensures e.None? <==> forall id :: id in replace ==> HasId(selected, id) && HasId(pool, replace[id])
    ensures e.Some? ==> match e.value
                        case ReplacesUnknownTarget(id) => id in replace && !HasId(selected, id)
                        case ReplacesWithUnknown(id) => id in replace.Values && !HasId(pool, id)
                        case _ => false
  {
    var rest := replace.Keys;
    while rest != {}
      invariant rest <= replace.Keys
      invariant forall id :: id in replace && id !in rest ==> HasId(selected, id) && HasId(pool, replace[id])
      decreases rest
    {
      var id :| id in rest;
      if !HasId(selected, id) {
        return Some(ReplacesUnknownTarget(id));
      }
      if !HasId(pool, replace[id]) {
        return Some(ReplacesWithUnknown(replace[id]));
      }
      rest := rest - {id};
    }
    return None;
  }

  /** The loops that filter the base and append the enabled additions. */
  method SelectExtensions(base: seq<Extension>, additions: seq<Extension>, o: Overlay) returns (result: seq<Extension>)
    ensures result == Selected(base, additions, o)
  {
    result := [];
    for i := 0 to |base|
      invariant result == Select(base[..i], o.disable, false)
    {
      assert base[..i + 1][..i] == base[..i];
      if base[i].id !in o.disable {
        result := result + [base[i]];
      }
    }
    assert base[..|base|] == base;
    ghost var kept := result;
    for i := 0 to |additions|
      invariant result == kept + Select(additions[..i], o.enable, true)
    {
      assert additions[..i + 1][..i] == additions[..i];
      if additions[i].id in o.enable {
        result := result + [additions[i]];
      }
    }
    assert additions[..|additions|] == additions;
  }

  /**
   Inputs are accepted exactly when all id checks pass. The result is then the base without what is
   disabled and the enabled additions, in order, each replaced where that is asked for, with pairwise
   distinct ids; without an overlay it is the base. A refusal names an id that is at fault.
   */
  method Resolve(base: seq<Extension>, additions: seq<Extension>, overlay: Option<Overlay>) returns (r: Result)
    ensures r.Ok? <==> Accepted(base, additions, overlay)
    ensures r.Ok? ==> r.list == Resolved(base, additions, overlay) && DistinctIds(r.list)
    ensures r.Err? ==> Explains(r.error, base, additions, overlay)
    ensures r.Ok? ==> if overlay.None? then r.list == base else IsResolution(r.list, base, additions, overlay.value)
  {
    var pool := base + additions;
    var dup := FindDuplicate(pool);
    if dup.Some? {
      return Err(DuplicateInPool(dup.value));
    }
    if overlay.None? {
      assert forall i :: 0 <= i < |base| ==> pool[i] == base[i];
      return Ok(base);
    }
    var o := overlay.value;
    var e := CheckDisable(base, o);
    if e.Some? {
      return Err(e.value);
    }
    e := CheckEnable(additions, o);
    if e.Some? {
      return Err(e.value);
    }
    var selected := SelectExtensions(base, additions, o);
    e := CheckReplace(selected, pool, o.replace);
    if e.Some? {
      return Err(e.value);
    }
    var result := Replaced(selected, pool, o.replace);
    dup := FindDuplicate(result);
    if dup.Some? {
      return Err(DuplicateInResult(dup.value));
    }
    ResolvedIsResolution(base, additions, o);
    return Ok(result);
  }

  // ---------------------------------------------------------------- what the result contains

  lemma {:induction false} SelectMembers(es: seq<Extension>, ids: seq<string>, listed: bool)
    ensures forall e :: e in Select(es, ids, listed) <==> e in es && (e.id in ids) == listed
  {
    if es != [] {
      SelectMembers(es[..|es| - 1], ids, listed);
      assert es == es[..|es| - 1] + [es[|es| - 1]];
    }
  }

  /** Two extensions that replace each other change places; every untouched one stays where it was. */
  lemma SwapIsHonoured(base: seq<Extension>, additions: seq<Extension>, o: Overlay, i: nat, j: nat)
    requires Accepted(base, additions, Some(o))
    requires var s := Selected(base, additions, o);
             && i < |s| && j < |s|
             && s[i].id in o.replace && o.replace[s[i].id] == s[j].id
             && s[j].id in o.replace && o.replace[s[j].id] == s[i].id
    ensures var s, r := Selected(base, additions, o), Resolved(base, additions, Some(o));
            && r[i] == s[j] && r[j] == s[i]
            && forall k :: 0 <= k < |s| && s[k].id !in o.replace ==> r[k] == s[k]
  {
    var s := Selected(base, additions, o);
    SelectedFromPool(base, additions, o, i);
    SelectedFromPool(base, additions, o, j);
  }

  lemma SelectedFromPool(base: seq<Extension>, additions: seq<Extension>, o: Overlay, i: nat)
    requires DistinctIds(base + additions) && i < |Selected(base, additions, o)|
    ensures Find(base + additions, Selected(base, additions, o)[i].id) == Some(Selected(base, additions, o)[i])
  {
    var pool, e := base + additions, Selected(base, additions, o)[i];
    SelectMembers(base, o.disable, false);
    SelectMembers(additions, o.enable, true);
    assert e in Select(base, o.disable, false) || e in Select(additions, o.enable, true);
    assert e in pool;
    var k :| 0 <= k < |pool| && pool[k] == e;
    assert HasId(pool, e.id);
    var f := Find(pool, e.id).value;
    var m :| 0 <= m < |pool| && pool[m] == f;
  }
}

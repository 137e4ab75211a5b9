/**
 What redacting credentials means: a recursive function on JSON values, and the same told by the
 paths through the document.
 */
module RedactionSpec {
  import opened Paths
  import opened Wrappers

  const MAX_DEPTH := 12
  const MAX_NODES := 1_000
  const REDACTED := "[REDACTED]"

  // ---------------------------------------------------------------- JSON values and their redaction

  /** Arrays and objects share a constructor; the keys of an array are never looked at. */
  datatype Json = Prim(text: string) | Node(isArray: bool, fields: seq<Field>)

  datatype Field = Field(key: string, value: Json)

  predicate Hidden(sensitive: string -> bool, isArray: bool, key: string)
  {
    !isArray && sensitive(key)
  }

  function Redact(sensitive: string -> bool, j: Json): Json
    decreases j, 1
  {
    match j
    case Prim(_) => j
    case Node(a, fs) => Node(a, RedactFields(sensitive, a, fs))
  }

  function RedactFields(sensitive: string -> bool, a: bool, fs: seq<Field>): seq<Field>
    decreases fs, 0
  {
    if fs == [] then []
    else
      [Field(fs[0].key, if Hidden(sensitive, a, fs[0].key) then Prim(REDACTED) else Redact(sensitive, fs[0].value))] +
      RedactFields(sensitive, a, fs[1..])
  }

  /** Objects and arrays that can be reached without passing a sensitive key. */
  function Count(sensitive: string -> bool, j: Json): nat
    decreases j, 1
  {
    match j case Prim(_) => 0 case Node(a, fs) => 1 + CountFields(sensitive, a, fs)
  }

  function CountFields(sensitive: string -> bool, a: bool, fs: seq<Field>): nat
    decreases fs, 0
  {
    if fs == [] then 0
    else
      (if Hidden(sensitive, a, fs[0].key) then 0 else Count(sensitive, fs[0].value)) +
      CountFields(sensitive, a, fs[1..])
  }

  /** None of them lies deeper than the limit, the document itself being at depth `d`. */
  predicate Shallow(sensitive: string -> bool, j: Json, d: nat)
    decreases j, 1
  {
    match j case Prim(_) => true case Node(a, fs) => d <= MAX_DEPTH && ShallowFields(sensitive, a, fs, d + 1)
  }

  predicate ShallowFields(sensitive: string -> bool, a: bool, fs: seq<Field>, d: nat)
    decreases fs, 0
  {
    fs == [] ||
    ((Hidden(sensitive, a, fs[0].key) || Shallow(sensitive, fs[0].value, d)) && ShallowFields(sensitive, a, fs[1..], d))
  }

  // ---------------------------------------------------------------- the same, told by paths

  /** The value that a path of field positions leads to. */
  function Follow(j: Json, path: seq<nat>): Option<Json>
    decreases |path|
  {
    if path == [] then Some(j)
    else if j.Prim? || path[0] >= |j.fields| then None
    else Follow(j.fields[path[0]].value, path[1..])
  }

  /** The path exists and leads through no field of an object whose key is sensitive. */
  predicate Clean(sensitive: string -> bool, j: Json, path: seq<nat>)
    decreases |path|
  {
    path == [] ||
    (j.Node? && path[0] < |j.fields| && (j.isArray || !sensitive(j.fields[path[0]].key)) &&
     Clean(sensitive, j.fields[path[0]].value, path[1..]))
  }

  predicate HoldsNoSecret(sensitive: string -> bool, j: Json)
  {
    j.Node? && !j.isArray ==>
      forall i :: 0 <= i < |j.fields| && sensitive(j.fields[i].key) ==> j.fields[i].value == Prim("[REDACTED]")
  }

  /** Every sensitive field of every object in the document holds the marker and nothing else. */
  ghost predicate AllRedacted(sensitive: string -> bool, after: Json)
  {
    forall path :: Follow(after, path).Some? ==> HoldsNoSecret(sensitive, Follow(after, path).value)
  }

  /** The same text, or an array or object with the same keys in the same order. */
  predicate Alike(a: Json, b: Json)
  {
    && (a.Prim? ==> b == a)
    && (a.Node? ==> b.Node? && b.isArray == a.isArray && |b.fields| == |a.fields| &&
                    forall i :: 0 <= i < |a.fields| ==> b.fields[i].key == a.fields[i].key)
  }

  predicate SameAt(before: Json, after: Json, path: seq<nat>)
  {
    && Follow(before, path).Some? && Follow(after, path).Some?
    && Alike(Follow(before, path).value, Follow(after, path).value)
  }

  /** What a path without sensitive keys leads to is as it was. */
  ghost predicate SameElsewhere(sensitive: string -> bool, before: Json, after: Json)
  {
    forall path :: Clean(sensitive, before, path) ==> SameAt(before, after, path)
  }

  ghost predicate ReachesNode(sensitive: string -> bool, j: Json, path: seq<nat>)
  {
    Clean(sensitive, j, path) && Follow(j, path).Some? && Follow(j, path).value.Node?
  }

  ghost predicate AreNodePaths(sensitive: string -> bool, j: Json, paths: set<seq<nat>>)
  {
    forall path :: path in paths <==> ReachesNode(sensitive, j, path)
  }

  /**
   At most a thousand arrays and objects are reached without passing a sensitive key, none of them
   by more than twelve steps.
   */
  ghost predicate WithinLimits(sensitive: string -> bool, j: Json)
  {
    exists paths: set<seq<nat>> ::
      AreNodePaths(sensitive, j, paths) && |paths| <= 1000 && forall path :: path in paths ==> |path| <= 12
  }

  // ---------------------------------------------------------------- the two tellings agree

  lemma {:induction false} FieldsAt(sensitive: string -> bool, a: bool, fs: seq<Field>, i: nat)
    requires i < |fs|
    ensures var r := RedactFields(sensitive, a, fs);
            && |r| == |fs| && r[i].key == fs[i].key
            && r[i].value == if Hidden(sensitive, a, fs[i].key) then Prim(REDACTED) else Redact(sensitive, fs[i].value)
    decreases |fs|
  {
    if i > 0 {
      FieldsAt(sensitive, a, fs[1..], i - 1);
    } else if |fs| > 1 {
      FieldsAt(sensitive, a, fs[1..], 0);
    }
  }

  lemma RedactedNode(sensitive: string -> bool, a: bool, fs: seq<Field>)
    ensures var after := Redact(sensitive, Node(a, fs));
            Alike(Node(a, fs), after) && HoldsNoSecret(sensitive, after)
  {
    forall i | 0 <= i < |fs|
      ensures var r := RedactFields(sensitive, a, fs);
              |r| == |fs| && r[i].key == fs[i].key && (!a && sensitive(r[i].key) ==> r[i].value == Prim("[REDACTED]"))
    {
      FieldsAt(sensitive, a, fs, i);
    }
  }

  lemma {:induction false} NoSecretAt(sensitive: string -> bool, j: Json, path: seq<nat>)
    requires Follow(Redact(sensitive, j), path).Some?
    ensures HoldsNoSecret(sensitive, Follow(Redact(sensitive, j), path).value)
    decreases |path|
  {
    if j.Node? {
      RedactedNode(sensitive, j.isArray, j.fields);
      if path != [] {
        FieldsAt(sensitive, j.isArray, j.fields, path[0]);
        if !Hidden(sensitive, j.isArray, j.fields[path[0]].key) {
          NoSecretAt(sensitive, j.fields[path[0]].value, path[1..]);
        }
      }
    }
  }

  lemma {:induction false} CleanIsKept(sensitive: string -> bool, j: Json, path: seq<nat>)
    requires Clean(sensitive, j, path)
    ensures SameAt(j, Redact(sensitive, j), path)
    decreases |path|
  {
    if j.Node? {
      RedactedNode(sensitive, j.isArray, j.fields);
      if path != [] {
        FieldsAt(sensitive, j.isArray, j.fields, path[0]);
        CleanIsKept(sensitive, j.fields[path[0]].value, path[1..]);
      }
    }
  }

  /** Redaction reaches every secret, and touches nothing else. */
  lemma RedactsExactly(sensitive: string -> bool, j: Json)
    ensures AllRedacted(sensitive, Redact(sensitive, j)) && SameElsewhere(sensitive, j, Redact(sensitive, j))
  {
    var after := Redact(sensitive, j);
    forall path: seq<nat> | Follow(after, path).Some?
      ensures HoldsNoSecret(sensitive, Follow(after, path).value)
    {
      NoSecretAt(sensitive, j, path);
    }
    forall path | Clean(sensitive, j, path)
      ensures SameAt(j, after, path)
    {
      CleanIsKept(sensitive, j, path);
    }
  }

  /** Those two properties leave no choice: only one document has them. */
  lemma {:induction false} RedactionIsUnique(sensitive: string -> bool, j: Json, a: Json, b: Json)
    requires AllRedacted(sensitive, a) && SameElsewhere(sensitive, j, a)
    requires AllRedacted(sensitive, b) && SameElsewhere(sensitive, j, b)
    ensures a == b
    decreases j
  {
    assert SameAt(j, a, []) && SameAt(j, b, []);
    if j.Node? {
      assert Follow(a, []) == Some(a) && Follow(b, []) == Some(b);
      forall i | 0 <= i < |j.fields|
        ensures a.fields[i] == b.fields[i]
      {
        if j.isArray || !sensitive(j.fields[i].key) {
          FieldInherits(sensitive, j, a, i);
          FieldInherits(sensitive, j, b, i);
          RedactionIsUnique(sensitive, j.fields[i].value, a.fields[i].value, b.fields[i].value);
        }
      }
      assert a.fields == b.fields;
    }
  }

  lemma FieldInherits(sensitive: string -> bool, j: Json, a: Json, i: nat)
    requires AllRedacted(sensitive, a) && SameElsewhere(sensitive, j, a) && j.Node? && i < |j.fields|
    requires j.isArray || !sensitive(j.fields[i].key)
    requires a.Node? && |a.fields| == |j.fields|
    ensures AllRedacted(sensitive, a.fields[i].value)
    ensures SameElsewhere(sensitive, j.fields[i].value, a.fields[i].value)
  {
    forall path: seq<nat> | Follow(a.fields[i].value, path).Some?
      ensures HoldsNoSecret(sensitive, Follow(a.fields[i].value, path).value)
    {
      assert ([i] + path)[1..] == path;
      assert Follow(a, [i] + path) == Follow(a.fields[i].value, path);
    }
    forall path | Clean(sensitive, j.fields[i].value, path)
      ensures SameAt(j.fields[i].value, a.fields[i].value, path)
    {
      assert ([i] + path)[1..] == path;
      assert Clean(sensitive, j, [i] + path) && SameAt(j, a, [i] + path);
    }
  }

  /** `Count` counts the paths to the arrays and objects. */
  lemma {:induction false} NodePaths(sensitive: string -> bool, j: Json) returns (paths: set<seq<nat>>)
    ensures AreNodePaths(sensitive, j, paths) && |paths| == Count(sensitive, j)
    decreases j, 1, 0
  {
    if j.Prim? {
      paths := {};
    } else {
      var below := FieldPaths(sensitive, j, 0);
      assert j.fields[0..] == j.fields;
      paths := below + {[]};
    }
  }

  lemma {:induction false} FieldPaths(sensitive: string -> bool, j: Json, k: nat) returns (paths: set<seq<nat>>)
    requires j.Node? && k <= |j.fields|
    ensures forall path :: path in paths <==> ReachesNode(sensitive, j, path) && path != [] && path[0] >= k
    ensures |paths| == CountFields(sensitive, j.isArray, j.fields[k..])
    decreases j, 0, |j.fields| - k
  {
    if k == |j.fields| {
      paths := {};
    } else {
      var rest := FieldPaths(sensitive, j, k + 1);
      var f := j.fields[k];
      assert j.fields[k..][1..] == j.fields[k + 1..];
      if Hidden(sensitive, j.isArray, f.key) {
        paths := rest;
      } else {
        var child := NodePaths(sensitive, f.value);
        var longer := Prefixed(k, child);
        paths := longer + rest;
        forall path | path in paths
          ensures ReachesNode(sensitive, j, path) && path != [] && path[0] >= k
        {
          assert path in longer ==> ReachesNode(sensitive, f.value, path[1..]);
        }
        forall path | ReachesNode(sensitive, j, path) && path != [] && path[0] >= k
          ensures path in paths
        {
          assert path[0] == k ==> ReachesNode(sensitive, f.value, path[1..]);
        }
        assert longer !! rest;
        assert |longer + rest| == |longer| + |rest|;
      }
    }
  }

  /** `Shallow` bounds their lengths. */
  lemma {:induction false} ShallowBoundsPaths(sensitive: string -> bool, j: Json, d: nat)
    ensures Shallow(sensitive, j, d) <==>
            forall path :: ReachesNode(sensitive, j, path) ==> d + |path| <= MAX_DEPTH
    decreases j, 1, 0
  {
    if j.Node? {
      assert ReachesNode(sensitive, j, []);
      FieldsBoundPaths(sensitive, j, 0, d + 1);
      assert j.fields[0..] == j.fields;
    }
  }

  lemma {:induction false} FieldsBoundPaths(sensitive: string -> bool, j: Json, k: nat, d: nat)
    requires j.Node? && k <= |j.fields|
    ensures ShallowFields(sensitive, j.isArray, j.fields[k..], d) <==>
            forall path :: ReachesNode(sensitive, j, path) && path != [] && path[0] >= k ==>
              d + |path| - 1 <= MAX_DEPTH
    decreases j, 0, |j.fields| - k
  {
    if k < |j.fields| {
      FieldsBoundPaths(sensitive, j, k + 1, d);
      var f := j.fields[k];
      assert j.fields[k..][1..] == j.fields[k + 1..];
      if !Hidden(sensitive, j.isArray, f.key) {
        ShallowBoundsPaths(sensitive, f.value, d);
        forall path | ReachesNode(sensitive, f.value, path)
          ensures ReachesNode(sensitive, j, [k] + path)
        {
          assert ([k] + path)[1..] == path;
        }
        if ShallowFields(sensitive, j.isArray, j.fields[k..], d) {
          forall path | ReachesNode(sensitive, j, path) && path != [] && path[0] >= k
            ensures d + |path| - 1 <= MAX_DEPTH
          {
            assert path[0] == k ==> ReachesNode(sensitive, f.value, path[1..]);
          }
        } else if Shallow(sensitive, f.value, d) {
          var path :| ReachesNode(sensitive, j, path) && path != [] && path[0] >= k + 1 && d + |path| - 1 > MAX_DEPTH;
          assert path[0] >= k;
        } else {
          var path :| ReachesNode(sensitive, f.value, path) && d + |path| > MAX_DEPTH;
          assert ReachesNode(sensitive, j, [k] + path);
        }
      }
    }
  }

  lemma LimitsAreCounted(sensitive: string -> bool, j: Json)
    ensures WithinLimits(sensitive, j) <==> Count(sensitive, j) <= MAX_NODES && Shallow(sensitive, j, 0)
  {
    var paths := NodePaths(sensitive, j);
    ShallowBoundsPaths(sensitive, j, 0);
    forall other: set<seq<nat>> | AreNodePaths(sensitive, j, other)
      ensures other == paths
    {
      assert forall path :: path in other <==> path in paths;
    }
  }
}

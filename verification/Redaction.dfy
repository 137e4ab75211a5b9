/**
 Redaction of credentials in a parsed JSON document. The program walks the mutable document
 with an explicit stack, overwriting sensitive fields as it goes and giving up when the
 document is too large or too deep.
 */
module Redaction {
  import opened RedactionSpec

  // ---------------------------------------------------------------- the mutable document

  datatype Value = Text(text: string) | Ref(node: JsonNode)

  datatype Entry = Entry(key: string, value: Value)

  /** `rank` witnesses that the document has no cycles, as a parsed document never has. */
  class JsonNode {
    const isArray: bool
    ghost const rank: nat
    var entries: seq<Entry>

    constructor (isArray: bool, entries: seq<Entry>, ghost rank: nat)
      ensures this.isArray == isArray && this.entries == entries && this.rank == rank
    {
      this.isArray, this.entries, this.rank := isArray, entries, rank;
    }
  }

  type Heap = map<JsonNode, seq<Entry>>

  function Contents(nodes: set<JsonNode>): Heap
    reads nodes
  {
    map n | n in nodes :: n.entries
  }

  ghost predicate EntriesBelow(h: Heap, es: seq<Entry>, bound: nat)
  {
    forall i :: 0 <= i < |es| && es[i].value.Ref? ==> es[i].value.node in h && es[i].value.node.rank < bound
  }

  ghost predicate Closed(h: Heap)
  {
    forall n :: n in h ==> EntriesBelow(h, h[n], n.rank)
  }

  /** The JSON value a reference stands for in a heap. */
  ghost function TreeOf(h: Heap, v: Value): Json
    requires Closed(h) && (v.Ref? ==> v.node in h)
    decreases if v.Ref? then v.node.rank + 1 else 0, 0
  {
    match v
    case Text(t) => Prim(t)
    case Ref(n) => Node(n.isArray, TreeFields(h, h[n], n.rank))
  }

  ghost function TreeFields(h: Heap, es: seq<Entry>, bound: nat): seq<Field>
    requires Closed(h) && EntriesBelow(h, es, bound)
    decreases bound, |es| + 1
  {
    if es == [] then []
    else [Field(es[0].key, TreeOf(h, es[0].value))] + TreeFields(h, es[1..], bound)
  }

  // ---------------------------------------------------------------- one node

  function RedactEntry(sensitive: string -> bool, a: bool, e: Entry): Entry
  {
    if Hidden(sensitive, a, e.key) then Entry(e.key, Text(REDACTED)) else e
  }

  function RedactEntries(sensitive: string -> bool, a: bool, es: seq<Entry>): (r: seq<Entry>)
    ensures |r| == |es| && forall i :: 0 <= i < |es| ==> r[i] == RedactEntry(sensitive, a, es[i])
  {
    seq(|es|, i requires 0 <= i < |es| => RedactEntry(sensitive, a, es[i]))
  }

  /** The children that are pushed on the stack. */
  function Visits(sensitive: string -> bool, a: bool, es: seq<Entry>): seq<JsonNode>
  {
    if es == [] then []
    else
      var last := es[|es| - 1];
      Visits(sensitive, a, es[..|es| - 1]) +
      if last.value.Ref? && !Hidden(sensitive, a, last.key) then [last.value.node] else []
  }

  lemma {:induction false} RedactedVisits(sensitive: string -> bool, a: bool, es: seq<Entry>)
    ensures Visits(sensitive, a, RedactEntries(sensitive, a, es)) == Visits(sensitive, a, es)
  {
    if es != [] {
      RedactedVisits(sensitive, a, es[..|es| - 1]);
      var r := RedactEntries(sensitive, a, es);
      assert r[..|r| - 1] == RedactEntries(sensitive, a, es[..|es| - 1]);
    }
  }

  lemma RedactedTwice(sensitive: string -> bool, a: bool, es: seq<Entry>)
    ensures var r := RedactEntries(sensitive, a, es); RedactEntries(sensitive, a, r) == r
  {
  }

  datatype Frame = Frame(node: JsonNode, depth: nat)

  function FramesOf(ns: seq<JsonNode>, depth: nat): (r: seq<Frame>)
    ensures |r| == |ns| && forall i :: 0 <= i < |ns| ==> r[i] == Frame(ns[i], depth)
  {
    seq(|ns|, i requires 0 <= i < |ns| => Frame(ns[i], depth))
  }

  /** The loop over the entries of one node. */
  method ProcessNode(sensitive: string -> bool, n: JsonNode, depth: nat) returns (pushed: seq<Frame>)
    modifies n
    ensures n.entries == RedactEntries(sensitive, n.isArray, old(n.entries))
    ensures pushed == FramesOf(Visits(sensitive, n.isArray, old(n.entries)), depth)
  {
    pushed := [];
    var es := n.entries;
    ghost var a := n.isArray;
    for i := 0 to |es|
      invariant |n.entries| == |es|
      invariant forall k :: 0 <= k < |es| ==> n.entries[k] == if k < i then RedactEntry(sensitive, a, es[k]) else es[k]
      invariant pushed == FramesOf(Visits(sensitive, a, es[..i]), depth)
    {
      assert es[..i + 1][..i] == es[..i];
      if !n.isArray && sensitive(es[i].key) {
        n.entries := n.entries[i := Entry(es[i].key, Text(REDACTED))];
      } else if es[i].value.Ref? {
        pushed := pushed + [Frame(es[i].value.node, depth)];
      }
    }
    assert es[..|es|] == es;
  }

  // ---------------------------------------------------------------- stack accounting

  ghost predicate Known(h: Heap, fs: seq<Frame>)
  {
    forall i :: 0 <= i < |fs| ==> fs[i].node in h
  }

  ghost function FrameCount(sensitive: string -> bool, h: Heap, f: Frame): nat
    requires Closed(h) && f.node in h
  {
    Count(sensitive, TreeOf(h, Ref(f.node)))
  }

  ghost predicate FrameShallow(sensitive: string -> bool, h: Heap, f: Frame)
    requires Closed(h) && f.node in h
  {
    Shallow(sensitive, TreeOf(h, Ref(f.node)), f.depth)
  }

  /** The nodes that are still to be visited from the frames of the stack. */
  ghost function StackCount(sensitive: string -> bool, h: Heap, fs: seq<Frame>): nat
    requires Closed(h) && Known(h, fs)
  {
    if fs == [] then 0
    else StackCount(sensitive, h, fs[..|fs| - 1]) + FrameCount(sensitive, h, fs[|fs| - 1])
  }

  ghost predicate StackShallow(sensitive: string -> bool, h: Heap, fs: seq<Frame>)
    requires Closed(h) && Known(h, fs)
  {
    forall i :: 0 <= i < |fs| ==> FrameShallow(sensitive, h, fs[i])
  }

  lemma {:induction false} StackCountAppend(sensitive: string -> bool, h: Heap, a: seq<Frame>, b: seq<Frame>)
    requires Closed(h) && Known(h, a) && Known(h, b)
    ensures Known(h, a + b)
    ensures StackCount(sensitive, h, a + b) == StackCount(sensitive, h, a) + StackCount(sensitive, h, b)
    decreases |b|
  {
    if b == [] {
      assert a + b == a;
    } else {
      StackCountAppend(sensitive, h, a, b[..|b| - 1]);
      assert (a + b)[..|a + b| - 1] == a + b[..|b| - 1];
    }
  }

  lemma StackShallowAppend(sensitive: string -> bool, h: Heap, a: seq<Frame>, b: seq<Frame>)
    requires Closed(h) && Known(h, a) && Known(h, b)
    ensures Known(h, a + b)
    ensures StackShallow(sensitive, h, a + b) <==> StackShallow(sensitive, h, a) && StackShallow(sensitive, h, b)
  {
    var all := a + b;
    assert forall i :: 0 <= i < |a| ==> all[i] == a[i];
    assert forall i :: 0 <= i < |b| ==> all[|a| + i] == b[i];
  }

  function Push(sensitive: string -> bool, a: bool, es: seq<Entry>, depth: nat): seq<Frame>
  {
    FramesOf(Visits(sensitive, a, es), depth)
  }

  lemma {:induction false} PushKnown(sensitive: string -> bool, h: Heap, a: bool, es: seq<Entry>, bound: nat,
                                     depth: nat)
    requires EntriesBelow(h, es, bound)
    ensures Known(h, Push(sensitive, a, es, depth))
  {
    if es != [] {
      PushKnown(sensitive, h, a, es[..|es| - 1], bound, depth);
      PushSnoc(sensitive, a, es, depth);
    }
  }

  lemma PushSnoc(sensitive: string -> bool, a: bool, es: seq<Entry>, depth: nat)
    requires es != []
    ensures var last := es[|es| - 1];
            Push(sensitive, a, es, depth) ==
            Push(sensitive, a, es[..|es| - 1], depth) +
            if last.value.Ref? && !Hidden(sensitive, a, last.key) then [Frame(last.value.node, depth)] else []
  {
  }

  lemma InnerSlice(es: seq<Entry>)
    requires |es| > 1
    ensures es[1..][..|es| - 2] == es[..|es| - 1][1..]
  {
  }

  lemma {:induction false} FieldsSnoc(h: Heap, es: seq<Entry>, bound: nat)
    requires Closed(h) && EntriesBelow(h, es, bound) && es != []
    ensures TreeFields(h, es, bound) ==
            TreeFields(h, es[..|es| - 1], bound) + [Field(es[|es| - 1].key, TreeOf(h, es[|es| - 1].value))]
    decreases |es|
  {
    if |es| > 1 {
      FieldsSnoc(h, es[1..], bound);
      InnerSlice(es);
      assert EntriesBelow(h, es[..|es| - 1], bound);
    }
  }

  lemma {:induction false} CountSnoc(sensitive: string -> bool, a: bool, fs: seq<Field>, f: Field)
    ensures CountFields(sensitive, a, fs + [f]) ==
            CountFields(sensitive, a, fs) + if Hidden(sensitive, a, f.key) then 0 else Count(sensitive, f.value)
    decreases |fs|
  {
    if fs == [] {
      assert fs + [f] == [f];
    } else {
      CountSnoc(sensitive, a, fs[1..], f);
      assert (fs + [f])[1..] == fs[1..] + [f];
    }
  }

  lemma {:induction false} ShallowSnoc(sensitive: string -> bool, a: bool, fs: seq<Field>, f: Field, d: nat)
    ensures ShallowFields(sensitive, a, fs + [f], d) ==
            (ShallowFields(sensitive, a, fs, d) && (Hidden(sensitive, a, f.key) || Shallow(sensitive, f.value, d)))
    decreases |fs|
  {
    if fs == [] {
      assert fs + [f] == [f];
    } else {
      ShallowSnoc(sensitive, a, fs[1..], f, d);
      assert (fs + [f])[1..] == fs[1..] + [f];
    }
  }

  /** A node counts for itself and for what is pushed when it is popped. */
  lemma {:induction false} CountIsPushed(sensitive: string -> bool, h: Heap, a: bool, es: seq<Entry>, bound: nat,
                                         d: nat)
    requires Closed(h) && EntriesBelow(h, es, bound)
    ensures Known(h, Push(sensitive, a, es, d))
    ensures StackCount(sensitive, h, Push(sensitive, a, es, d)) == CountFields(sensitive, a, TreeFields(h, es, bound))
    decreases |es|
  {
    PushKnown(sensitive, h, a, es, bound, d);
    if es != [] {
      var init, last := es[..|es| - 1], es[|es| - 1];
      CountIsPushed(sensitive, h, a, init, bound, d);
      FieldsSnoc(h, es, bound);
      CountSnoc(sensitive, a, TreeFields(h, init, bound), Field(last.key, TreeOf(h, last.value)));
      PushSnoc(sensitive, a, es, d);
      if last.value.Ref? && !Hidden(sensitive, a, last.key) {
        StackCountAppend(sensitive, h, Push(sensitive, a, init, d), [Frame(last.value.node, d)]);
      } else {
        assert Push(sensitive, a, init, d) + [] == Push(sensitive, a, init, d);
      }
    }
  }

  lemma {:induction false} ShallowIsPushed(sensitive: string -> bool, h: Heap, a: bool, es: seq<Entry>, bound: nat,
                                           d: nat)
    requires Closed(h) && EntriesBelow(h, es, bound)
    ensures Known(h, Push(sensitive, a, es, d))
    ensures StackShallow(sensitive, h, Push(sensitive, a, es, d)) <==>
              ShallowFields(sensitive, a, TreeFields(h, es, bound), d)
    decreases |es|
  {
    PushKnown(sensitive, h, a, es, bound, d);
    if es != [] {
      var init, last := es[..|es| - 1], es[|es| - 1];
      ShallowIsPushed(sensitive, h, a, init, bound, d);
      FieldsSnoc(h, es, bound);
      ShallowSnoc(sensitive, a, TreeFields(h, init, bound), Field(last.key, TreeOf(h, last.value)), d);
      PushSnoc(sensitive, a, es, d);
      if last.value.Ref? && !Hidden(sensitive, a, last.key) {
        var f := Frame(last.value.node, d);
        StackShallowAppend(sensitive, h, Push(sensitive, a, init, d), [f]);
        assert StackShallow(sensitive, h, [f]) <==> FrameShallow(sensitive, h, [f][0]);
      } else {
        assert Push(sensitive, a, init, d) + [] == Push(sensitive, a, init, d);
      }
    }
  }

  // ---------------------------------------------------------------- the redacted heap

  /** `done` holds the processed nodes and is closed under what processing a node visits. */
  ghost predicate Processed(sensitive: string -> bool, h0: Heap, h1: Heap, done: set<JsonNode>)
  {
    && h1.Keys == h0.Keys && done <= h0.Keys
    && (forall n :: n in done ==> h1[n] == RedactEntries(sensitive, n.isArray, h0[n]))
    && forall n, c :: n in done && c in Visits(sensitive, n.isArray, h0[n]) ==> c in done
  }

  lemma {:induction false} VisitedEntry(sensitive: string -> bool, a: bool, es: seq<Entry>, i: nat)
    requires i < |es| && es[i].value.Ref? && !Hidden(sensitive, a, es[i].key)
    ensures es[i].value.node in Visits(sensitive, a, es)
    decreases |es|
  {
    if i < |es| - 1 {
      VisitedEntry(sensitive, a, es[..|es| - 1], i);
    }
  }

  lemma {:induction false} RedactedTree(sensitive: string -> bool, h0: Heap, h1: Heap, done: set<JsonNode>, n: JsonNode)
    requires Closed(h0) && Closed(h1) && Processed(sensitive, h0, h1, done) && n in done
    ensures TreeOf(h1, Ref(n)) == Redact(sensitive, TreeOf(h0, Ref(n)))
    decreases n.rank + 1, 0
  {
    var es := h0[n];
    forall i | 0 <= i < |es| && es[i].value.Ref? && !Hidden(sensitive, n.isArray, es[i].key)
      ensures es[i].value.node in done
    {
      VisitedEntry(sensitive, n.isArray, es, i);
    }
    RedactedTreeFields(sensitive, h0, h1, done, n.isArray, es, n.rank);
  }

  lemma {:induction false} RedactedTreeFields(
      sensitive: string -> bool, h0: Heap, h1: Heap, done: set<JsonNode>, a: bool, es: seq<Entry>, bound: nat)
    requires Closed(h0) && Closed(h1) && Processed(sensitive, h0, h1, done)
    requires EntriesBelow(h0, es, bound)
    requires forall i :: 0 <= i < |es| && es[i].value.Ref? && !Hidden(sensitive, a, es[i].key) ==>
               es[i].value.node in done
    ensures EntriesBelow(h1, RedactEntries(sensitive, a, es), bound)
    ensures TreeFields(h1, RedactEntries(sensitive, a, es), bound) ==
              RedactFields(sensitive, a, TreeFields(h0, es, bound))
    decreases bound, |es| + 1
  {
    var r := RedactEntries(sensitive, a, es);
    assert EntriesBelow(h1, r, bound);
    if es != [] {
      var e := es[0];
      if e.value.Ref? && !Hidden(sensitive, a, e.key) {
        RedactedTree(sensitive, h0, h1, done, e.value.node);
      }
      RedactedTreeFields(sensitive, h0, h1, done, a, es[1..], bound);
      assert r[1..] == RedactEntries(sensitive, a, es[1..]);
      var fs := TreeFields(h0, es, bound);
      assert fs[1..] == TreeFields(h0, es[1..], bound);
    }
  }

  // ---------------------------------------------------------------- the worklist

  lemma PopAndPushCount(sensitive: string -> bool, h: Heap, rest: seq<Frame>, f: Frame)
    requires Closed(h) && Known(h, rest) && f.node in h
    ensures var pushed := Push(sensitive, f.node.isArray, h[f.node], f.depth + 1);
            && Known(h, rest + [f]) && Known(h, rest + pushed)
            && StackCount(sensitive, h, rest + [f]) == 1 + StackCount(sensitive, h, rest + pushed)
  {
    var n := f.node;
    CountIsPushed(sensitive, h, n.isArray, h[n], n.rank, f.depth + 1);
    StackCountAppend(sensitive, h, rest, [f]);
    StackCountAppend(sensitive, h, rest, Push(sensitive, n.isArray, h[n], f.depth + 1));
    assert StackCount(sensitive, h, [f]) == FrameCount(sensitive, h, f) by {
      assert [f][..0] == [];
    }
  }

  /** What replacing the top frame by its pushed children does to the accounts. */
  lemma PopAndPush(sensitive: string -> bool, h: Heap, rest: seq<Frame>, f: Frame)
    requires Closed(h) && Known(h, rest) && f.node in h
    ensures var pushed := Push(sensitive, f.node.isArray, h[f.node], f.depth + 1);
            && Known(h, rest + [f]) && Known(h, rest + pushed)
            && StackCount(sensitive, h, rest + [f]) == 1 + StackCount(sensitive, h, rest + pushed)
            && (f.depth <= MAX_DEPTH ==>
                  (StackShallow(sensitive, h, rest + [f]) <==> StackShallow(sensitive, h, rest + pushed)))
            && (f.depth > MAX_DEPTH ==> !StackShallow(sensitive, h, rest + [f]))
  {
    var n := f.node;
    var pushed := Push(sensitive, n.isArray, h[n], f.depth + 1);
    PopAndPushCount(sensitive, h, rest, f);
    ShallowIsPushed(sensitive, h, n.isArray, h[n], n.rank, f.depth + 1);
    StackShallowAppend(sensitive, h, rest, [f]);
    StackShallowAppend(sensitive, h, rest, pushed);
    assert StackShallow(sensitive, h, [f]) <==> FrameShallow(sensitive, h, [f][0]);
  }

  ghost predicate OnStack(stack: seq<Frame>, n: JsonNode)
  {
    exists i :: 0 <= i < |stack| && stack[i].node == n
  }

  /** Part of the loop invariant: the heap is redacted on `done`, whose pending children are on the stack. */
  ghost predicate Working(sensitive: string -> bool, h0: Heap, h: Heap, done: set<JsonNode>, stack: seq<Frame>)
  {
    && h.Keys == h0.Keys && done <= h0.Keys && Known(h0, stack)
    && (forall n :: n in h0 ==> h[n] == if n in done then RedactEntries(sensitive, n.isArray, h0[n]) else h0[n])
    && (forall n, c :: n in done && c in Visits(sensitive, n.isArray, h0[n]) ==> c in done || OnStack(stack, c))
  }

  /** Replacing the top frame by its pushed children keeps every pending child on the stack. */
  lemma PendingStay(sensitive: string -> bool, h0: Heap, done: set<JsonNode>, rest: seq<Frame>, f: Frame, m: JsonNode,
                    c: JsonNode)
    requires f.node in h0 && m in h0 && c in Visits(sensitive, m.isArray, h0[m])
    requires m == f.node || c in done || OnStack(rest + [f], c)
    ensures c in done + {f.node} || OnStack(rest + Push(sensitive, f.node.isArray, h0[f.node], f.depth + 1), c)
  {
    var n := f.node;
    var pushed := Push(sensitive, n.isArray, h0[n], f.depth + 1);
    var stack, stack' := rest + [f], rest + pushed;
    if m == n {
      var vs := Visits(sensitive, n.isArray, h0[n]);
      var k :| 0 <= k < |vs| && vs[k] == c;
      assert stack'[|rest| + k] == pushed[k];
    } else if c !in done {
      var k :| 0 <= k < |stack| && stack[k].node == c;
      assert k == |rest| || stack'[k].node == c;
    }
  }

  lemma WorkStep(sensitive: string -> bool, h0: Heap, h: Heap, done: set<JsonNode>, rest: seq<Frame>, f: Frame)
    requires Closed(h0) && Working(sensitive, h0, h, done, rest + [f])
    ensures f.node in h0
    ensures var n := f.node;
            var pushed := Push(sensitive, n.isArray, h[n], f.depth + 1);
            && pushed == Push(sensitive, n.isArray, h0[n], f.depth + 1)
            && Working(sensitive, h0, h[n := RedactEntries(sensitive, n.isArray, h[n])], done + {n}, rest + pushed)
  {
    var n := f.node;
    assert (rest + [f])[|rest|] == f;
    RedactedVisits(sensitive, n.isArray, h0[n]);
    RedactedTwice(sensitive, n.isArray, h0[n]);
    var pushed := Push(sensitive, n.isArray, h[n], f.depth + 1);
    PushKnown(sensitive, h0, n.isArray, h0[n], n.rank, f.depth + 1);
    var stack, stack' := rest + [f], rest + pushed;
    assert forall i :: 0 <= i < |rest| ==> stack[i] == rest[i] && stack'[i] == rest[i];
    assert Known(h0, stack') by {
      forall i | 0 <= i < |stack'|
        ensures stack'[i].node in h0
      {
        if i >= |rest| {
          assert stack'[i] == pushed[i - |rest|];
        }
      }
    }
    forall m, c | m in done + {n} && c in Visits(sensitive, m.isArray, h0[m])
      ensures c in done + {n} || OnStack(stack', c)
    {
      PendingStay(sensitive, h0, done, rest, f, m, c);
    }
  }

  lemma FinishedHeap(sensitive: string -> bool, h0: Heap, h: Heap, done: set<JsonNode>, root: JsonNode)
    requires Closed(h0) && Working(sensitive, h0, h, done, []) && root in done
    ensures Closed(h)
    ensures TreeOf(h, Ref(root)) == Redact(sensitive, TreeOf(h0, Ref(root)))
  {
    assert Closed(h) by {
      forall n | n in h
        ensures EntriesBelow(h, h[n], n.rank)
      {
        assert EntriesBelow(h0, h0[n], n.rank);
      }
    }
    RedactedTree(sensitive, h0, h, done, root);
  }

  /** Visited so far plus still to visit is everything, and the depth verdict is still open. */
  ghost predicate Accounts(sensitive: string -> bool, h0: Heap, tree: Json, visited: nat, stack: seq<Frame>)
    requires Closed(h0)
  {
    && Known(h0, stack)
    && visited + StackCount(sensitive, h0, stack) == Count(sensitive, tree)
    && (StackShallow(sensitive, h0, stack) <==> Shallow(sensitive, tree, 0))
  }

  method ProcessTop(sensitive: string -> bool, rest: seq<Frame>, f: Frame, ghost nodes: set<JsonNode>, ghost h0: Heap,
                    ghost done: set<JsonNode>)
    returns (stack: seq<Frame>)
    requires Closed(h0) && f.node in nodes && Working(sensitive, h0, Contents(nodes), done, rest + [f])
    modifies f.node
    ensures f.node in h0 && stack == rest + Push(sensitive, f.node.isArray, h0[f.node], f.depth + 1)
    ensures Working(sensitive, h0, Contents(nodes), done + {f.node}, stack)
  {
    ghost var h := Contents(nodes);
    WorkStep(sensitive, h0, h, done, rest, f);
    var pushed := ProcessNode(sensitive, f.node, f.depth + 1);
    assert Contents(nodes) == h[f.node := RedactEntries(sensitive, f.node.isArray, h[f.node])];
    stack := rest + pushed;
  }

  lemma AccountsStep(sensitive: string -> bool, h0: Heap, tree: Json, visited: nat, rest: seq<Frame>, f: Frame)
    requires Closed(h0) && Accounts(sensitive, h0, tree, visited, rest + [f])
    ensures f.node in h0
    ensures StackCount(sensitive, h0, rest + [f]) > 0
    ensures visited + 1 > MAX_NODES ==> Count(sensitive, tree) > MAX_NODES
    ensures f.depth > MAX_DEPTH ==> !Shallow(sensitive, tree, 0)
    ensures f.depth <= MAX_DEPTH ==>
              var stack := rest + Push(sensitive, f.node.isArray, h0[f.node], f.depth + 1);
              Accounts(sensitive, h0, tree, visited + 1, stack) &&
              StackCount(sensitive, h0, stack) < StackCount(sensitive, h0, rest + [f])
  {
    assert (rest + [f])[|rest|] == f;
    assert forall i :: 0 <= i < |rest| ==> (rest + [f])[i] == rest[i];
    PopAndPush(sensitive, h0, rest, f);
  }

  /**
   The worklist succeeds exactly when the nodes reachable without passing a sensitive key number
   at most 1000 and lie at depth at most 12. Then every sensitive field of every object holds the
   marker, and what other paths lead to is as it was: keys, order, kinds and texts. It changes
   nothing outside the document.
   */
  method RedactStructuredCredentials(sensitive: string -> bool, root: Value, ghost nodes: set<JsonNode>)
    returns (ok: bool)
    requires Closed(Contents(nodes)) && (root.Ref? ==> root.node in nodes)
    modifies nodes
    ensures var tree := old(TreeOf(Contents(nodes), root));
            && (ok <==> WithinLimits(sensitive, tree))
            && (ok ==>
                  && Closed(Contents(nodes))
                  && AllRedacted(sensitive, TreeOf(Contents(nodes), root))
                  && SameElsewhere(sensitive, tree, TreeOf(Contents(nodes), root))
                  && TreeOf(Contents(nodes), root) == Redact(sensitive, tree))
  {
    LimitsAreCounted(sensitive, TreeOf(Contents(nodes), root));
    RedactsExactly(sensitive, TreeOf(Contents(nodes), root));
    if root.Text? {
      return true;
    }
    ghost var h0 := Contents(nodes);
    ghost var done: set<JsonNode> := {};
    var stack := [Frame(root.node, 0)];
    var visited := 0;
    ghost var tree := TreeOf(h0, root);
    StartAccounts(sensitive, h0, root.node);
    while stack != []
      invariant Working(sensitive, h0, Contents(nodes), done, stack)
      invariant root.node in done || OnStack(stack, root.node)
      invariant visited <= MAX_NODES && Accounts(sensitive, h0, tree, visited, stack)
      decreases StackCount(sensitive, h0, stack)
    {
      var rest, f := stack[..|stack| - 1], stack[|stack| - 1];
      assert stack == rest + [f];
      AccountsStep(sensitive, h0, tree, visited, rest, f);
      visited := visited + 1;
      if visited > MAX_NODES || f.depth > MAX_DEPTH {
        return false;
      }
      RootStays(root.node, stack, rest, f, Push(sensitive, f.node.isArray, h0[f.node], f.depth + 1), done);
      stack := ProcessTop(sensitive, rest, f, nodes, h0, done);
      done := done + {f.node};
    }
    assert root.node in done;
    FinishedHeap(sensitive, h0, Contents(nodes), done, root.node);
    return true;
  }

  lemma StartAccounts(sensitive: string -> bool, h0: Heap, root: JsonNode)
    requires Closed(h0) && root in h0
    ensures var stack := [Frame(root, 0)];
            && Working(sensitive, h0, h0, {}, stack) && OnStack(stack, root)
            && StackCount(sensitive, h0, stack) == Count(sensitive, TreeOf(h0, Ref(root)))
            && (StackShallow(sensitive, h0, stack) <==> Shallow(sensitive, TreeOf(h0, Ref(root)), 0))
  {
    var stack := [Frame(root, 0)];
    assert stack[0].node == root && stack[..0] == [];
    assert StackShallow(sensitive, h0, stack) <==> FrameShallow(sensitive, h0, stack[0]);
  }

  lemma RootStays(root: JsonNode, stack: seq<Frame>, rest: seq<Frame>, f: Frame, pushed: seq<Frame>,
                  done: set<JsonNode>)
    requires stack == rest + [f] && (root in done || OnStack(stack, root))
    ensures root in done + {f.node} || OnStack(rest + pushed, root)
  {
    if root !in done && root != f.node {
      var i :| 0 <= i < |stack| && stack[i].node == root;
      assert (rest + pushed)[i] == stack[i];
    }
  }
}

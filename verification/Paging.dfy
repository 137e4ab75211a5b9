/**
 Result pages of `inspect` and of the editable query: a page is cut from a frozen
 element list so that it respects the requested limit and the byte budget, and the
 list may only be continued from the exact offset the previous page returned.
 */
module Paging {
  import opened Decimals
  import opened SnapshotModel
  import opened Wrappers

  const MAX_PAGE_SIZE := 200
  const MAX_PAGE_BYTES := 56 * 1024

  function ClampLimit(limit: int): (r: nat)
    ensures 1 <= r <= MAX_PAGE_SIZE
    ensures 1 <= limit <= MAX_PAGE_SIZE ==> r == limit
  {
    if limit < 1 then 1 else if limit > MAX_PAGE_SIZE then MAX_PAGE_SIZE else limit
  }

  // ---------------------------------------------------------------- sizes

  /** Number of decimal digits of a JSON number. */
  function Digits(n: nat): nat
  {
    if n < 10 then 1 else 1 + Digits(n / 10)
  }

  lemma {:induction false} DigitsMonotone(a: nat, b: nat)
    requires a <= b
    ensures Digits(a) <= Digits(b)
    decreases b
  {
    if a >= 10 {
      DigitsMonotone(a / 10, b / 10);
    } else if b >= 10 {
      DigitsMonotone(0, b / 10);
    }
  }

  lemma {:induction false} DigitsAreText(n: nat)
    ensures |Decimal(n)| == Digits(n)
  {
    if n >= 10 {
      DigitsAreText(n / 10);
    }
  }

  /** Bytes of the records of a JSON array with the commas between them. */
  function ItemBytes(es: seq<Element>): nat
  {
    if es == [] then 0
    else ItemBytes(es[..|es| - 1]) + es[|es| - 1].node.bytes + if |es| > 1 then 1 else 0
  }

  lemma {:induction false} ItemBytesMonotone(es: seq<Element>, k: nat)
    requires k <= |es|
    ensures ItemBytes(es[..k]) <= ItemBytes(es)
  {
    if k < |es| {
      ItemBytesMonotone(es[..|es| - 1], k);
      assert es[..|es| - 1][..k] == es[..k];
    } else {
      assert es[..k] == es;
    }
  }

  /** Serialized bytes of the inspect page that shows `all[offset..end]`. */
  function PageBytes(layout: Layout, all: seq<Element>, offset: nat, end: nat, tree: Option<nat>): nat
    requires offset <= end <= |all|
  {
    layout.fixedBytes + Digits(offset) + Digits(|all|) + Digits(end - offset) +
    2 + ItemBytes(all[offset..end]) +
    (match tree case Some(bytes) => bytes case None => layout.omittedBytes) +
    (if end < |all| then 4 + layout.continuationBytes + 2 * Digits(end) else 5)
  }

  /** Serialized bytes of the editable targets `all[offset..end]`. */
  function TargetBytes(all: seq<Element>, offset: nat, end: nat): nat
    requires offset <= end <= |all|
  {
    12 + 2 + ItemBytes(all[offset..end])
  }

  /** Whether the tree-less page with `count` elements stays within the budget. */
  predicate Fits(layout: Layout, all: seq<Element>, offset: nat, count: nat)
    requires offset + count <= |all|
  {
    PageBytes(layout, all, offset, offset + count, None) <= MAX_PAGE_BYTES
  }

  predicate TargetsFit(all: seq<Element>, offset: nat, count: nat)
    requires offset + count <= |all|
  {
    TargetBytes(all, offset, offset + count) <= MAX_PAGE_BYTES
  }

  /** Every page that leaves elements behind fits if a longer such page fits. */
  lemma FitsMonotone(layout: Layout, all: seq<Element>, offset: nat, small: nat, large: nat)
    requires small <= large && offset + large < |all|
    requires Fits(layout, all, offset, large)
    ensures Fits(layout, all, offset, small)
  {
    var es := all[offset..offset + large];
    ItemBytesMonotone(es, small);
    assert es[..small] == all[offset..offset + small];
    DigitsMonotone(small, large);
    DigitsMonotone(offset + small, offset + large);
  }

  // ---------------------------------------------------------------- cutting one page

  datatype PageOutcome =
    | TooLarge
    | Page(elements: seq<Element>, end: nat, treeIncluded: bool)

  datatype Mode = InspectMode(layout: Layout) | EditableMode

  function Window(all: seq<Element>, offset: nat, limit: nat): nat
    requires offset <= |all|
  {
    if limit <= |all| - offset then limit else |all| - offset
  }

  /** The largest count up to `n` whose page fits, zero when there is none. */
  function LargestFit(layout: Layout, all: seq<Element>, offset: nat, n: nat): (c: nat)
    requires offset + n <= |all|
    ensures c <= n
    ensures c > 0 ==> Fits(layout, all, offset, c)
    ensures forall k :: c < k <= n ==> !Fits(layout, all, offset, k)
  {
    if n == 0 || Fits(layout, all, offset, n) then n else LargestFit(layout, all, offset, n - 1)
  }

  /** The largest count up to `n` whose targets fit, but never below one. */
  function LargestTargets(all: seq<Element>, offset: nat, n: nat): (c: nat)
    requires offset + n <= |all|
    ensures c <= n && (n > 0 ==> c > 0)
    ensures c > 1 ==> TargetsFit(all, offset, c)
    ensures forall k :: c < k <= n ==> !TargetsFit(all, offset, k)
  {
    if n <= 1 || TargetsFit(all, offset, n) then n
    else LargestTargets(all, offset, n - 1)
  }

  /** The page a request is answered with; `treeBytes` is the size of its semantic tree. */
  function Cut(mode: Mode, all: seq<Element>, offset: nat, limit: nat, treeBytes: nat): PageOutcome
    requires offset <= |all|
  {
    var n := Window(all, offset, limit);
    match mode
    case InspectMode(layout) =>
      if PageBytes(layout, all, offset, offset + n, Some(treeBytes)) <= MAX_PAGE_BYTES then
        Page(all[offset..offset + n], offset + n, true)
      else if Fits(layout, all, offset, n) then
        Page(all[offset..offset + n], offset + n, false)
      else
        var c := if n > 1 then LargestFit(layout, all, offset, n - 1) else 0;
        if c == 0 then TooLarge else Page(all[offset..offset + c], offset + c, false)
    case EditableMode =>
      var c := LargestTargets(all, offset, n);
      Page(all[offset..offset + c], offset + c, false)
  }

  /**
   A page is a contiguous piece of the frozen list that starts at the offset and never
   exceeds the limit, and a page that leaves elements behind contains at least one.
   */
  lemma CutLaw(mode: Mode, all: seq<Element>, offset: nat, limit: nat, treeBytes: nat)
    requires offset <= |all| && limit >= 1
    ensures var o, n := Cut(mode, all, offset, limit, treeBytes), Window(all, offset, limit);
            && (mode.EditableMode? ==> o.Page?)
            && (o.Page? ==>
                  && offset <= o.end <= offset + n && o.elements == all[offset..o.end]
                  && (o.end < |all| ==> offset < o.end))
  {
  }

  /** A page of editable targets is the longest one within the budget, but has at least one target. */
  lemma EditableCutIsLongest(all: seq<Element>, offset: nat, limit: nat, treeBytes: nat)
    requires offset <= |all| && limit >= 1
    ensures var o, n := Cut(EditableMode, all, offset, limit, treeBytes), Window(all, offset, limit);
            && o.Page? && offset <= o.end <= offset + n
            && (o.end > offset + 1 ==> TargetsFit(all, offset, o.end - offset))
            && forall k :: o.end - offset < k <= n ==> !TargetsFit(all, offset, k)
  {
  }

  /**
   An inspect page respects the byte budget and is the longest one that does. It shows the semantic
   tree exactly if the tree fits beside all the elements asked for.
   */
  lemma InspectCutIsLongest(layout: Layout, all: seq<Element>, offset: nat, limit: nat, treeBytes: nat)
    requires offset <= |all| && limit >= 1
    ensures var o, n := Cut(InspectMode(layout), all, offset, limit, treeBytes), Window(all, offset, limit);
            o.Page? ==>
              && offset <= o.end <= offset + n
              && PageBytes(layout, all, offset, o.end,
                           if o.treeIncluded then Some(treeBytes) else None) <= MAX_PAGE_BYTES
              && (forall k :: o.end - offset < k <= n ==> !o.treeIncluded && !Fits(layout, all, offset, k))
              && (o.treeIncluded <==> PageBytes(layout, all, offset, offset + n, Some(treeBytes)) <= MAX_PAGE_BYTES)
  {
  }

  /** An inspect page is refused exactly when not even one element fits. */
  lemma InspectCutRefused(layout: Layout, all: seq<Element>, offset: nat, limit: nat, treeBytes: nat)
    requires offset <= |all| && limit >= 1
    ensures var o, n := Cut(InspectMode(layout), all, offset, limit, treeBytes), Window(all, offset, limit);
            o.TooLarge? <==>
              && PageBytes(layout, all, offset, offset + n, Some(treeBytes)) > MAX_PAGE_BYTES
              && (forall k :: 1 <= k <= n ==> !Fits(layout, all, offset, k))
              && (n == 0 ==> !Fits(layout, all, offset, 0))
  {
  }

  /** The binary search: fewer than `n` elements are shown, so a page always leaves some behind. */
  method LargestFittingCount(layout: Layout, all: seq<Element>, offset: nat, n: nat) returns (fittingCount: nat)
    requires 1 < n && offset + n <= |all|
    ensures fittingCount == LargestFit(layout, all, offset, n - 1)
  {
    var lower, upper := 1, n - 1;
    fittingCount := 0;
    while lower <= upper
      invariant 1 <= lower <= upper + 1 <= n
      invariant fittingCount == lower - 1
      invariant fittingCount > 0 ==> Fits(layout, all, offset, fittingCount)
      invariant forall k :: upper < k <= n - 1 ==> !Fits(layout, all, offset, k)
    {
      var count := (lower + upper) / 2;
      if Fits(layout, all, offset, count) {
        fittingCount := count;
        lower := count + 1;
      } else {
        forall k | count <= k <= n - 1
          ensures !Fits(layout, all, offset, k)
        {
          if Fits(layout, all, offset, k) {
            FitsMonotone(layout, all, offset, count, k);
          }
        }
        upper := count - 1;
      }
    }
  }

  /** The page of `snapshotPage`: with the tree if that fits, without it otherwise, shortened only if need be. */
  method SnapshotPage(layout: Layout, all: seq<Element>, offset: nat, limit: nat, treeBytes: nat)
    returns (result: PageOutcome)
    requires offset <= |all|
    ensures result == Cut(InspectMode(layout), all, offset, limit, treeBytes)
  {
    var n := Window(all, offset, limit);
    if PageBytes(layout, all, offset, offset + n, Some(treeBytes)) <= MAX_PAGE_BYTES {
      return Page(all[offset..offset + n], offset + n, true);
    }
    if Fits(layout, all, offset, n) {
      return Page(all[offset..offset + n], offset + n, false);
    }
    var fittingCount := 0;
    if n > 1 {
      fittingCount := LargestFittingCount(layout, all, offset, n);
    }
    if fittingCount == 0 {
      return TooLarge;
    }
    return Page(all[offset..offset + fittingCount], offset + fittingCount, false);
  }

  /** The shrinking loop of the editable query: the last target is dropped until the rest fits. */
  method EditablePage(all: seq<Element>, offset: nat, limit: nat) returns (result: PageOutcome)
    requires offset <= |all|
    ensures result == Cut(EditableMode, all, offset, limit, 0)
  {
    var n := Window(all, offset, limit);
    var count := n;
    while count > 1 && !TargetsFit(all, offset, count)
      invariant count <= n && LargestTargets(all, offset, count) == LargestTargets(all, offset, n)
    {
      count := count - 1;
    }
    return Page(all[offset..offset + count], offset + count, false);
  }

  // ---------------------------------------------------------------- following continuations

  datatype Request = Request(offset: nat, limit: int, treeBytes: nat)

  datatype Reply = Mismatch | Oversized | Served(elements: seq<Element>)

  /** Elements the pages up to the cursor have covered. */
  function Covered(c: Cursor): nat
  {
    match c.nextOffset case Some(n) => n case None => |c.elements|
  }

  /** A cursor is either finished or points into the list (or at its start). */
  predicate Wellformed(c: Cursor)
  {
    c.nextOffset.Some? ==> c.nextOffset.value == 0 || c.nextOffset.value < |c.elements|
  }

  function Serve(mode: Mode, c: Cursor, r: Request): (Cursor, Reply)
    requires Wellformed(c)
  {
    if c.nextOffset != Some(r.offset) then (c, Mismatch)
    else
      match Cut(mode, c.elements, r.offset, ClampLimit(r.limit), r.treeBytes)
      case TooLarge => (c, Oversized)
      case Page(es, end, _) =>
        (c.(nextOffset := if end < |c.elements| then Some(end) else None), Served(es))
  }

  /** One reply continues exactly where the last one stopped, and only the exact offset is served. */
  lemma ServeLaw(mode: Mode, c: Cursor, r: Request)
    requires Wellformed(c)
    ensures var (c', reply) := Serve(mode, c, r);
            && Wellformed(c') && c'.elements == c.elements
            && (reply.Mismatch? <==> c.nextOffset != Some(r.offset))
            && (!reply.Served? ==> c' == c)
            && (reply.Served? ==>
                  && reply.elements == c.elements[Covered(c)..Covered(c')]
                  && Covered(c) <= Covered(c')
                  && (c'.nextOffset.Some? ==> Covered(c) < Covered(c')))
  {
    if c.nextOffset == Some(r.offset) {
      CutLaw(mode, c.elements, r.offset, ClampLimit(r.limit), r.treeBytes);
    }
  }

  function ServeAll(mode: Mode, c: Cursor, rs: seq<Request>): (Cursor, seq<Reply>)
    requires Wellformed(c)
    decreases |rs|
  {
    if rs == [] then (c, [])
    else
      var (c1, reply) := Serve(mode, c, rs[0]);
      ServeLaw(mode, c, rs[0]);
      var (c2, replies) := ServeAll(mode, c1, rs[1..]);
      (c2, [reply] + replies)
  }

  /** The elements of all served pages, in the order they were served. */
  function Delivered(replies: seq<Reply>): seq<Element>
  {
    if replies == [] then []
    else (if replies[0].Served? then replies[0].elements else []) + Delivered(replies[1..])
  }

  lemma DeliveredCons(reply: Reply, replies: seq<Reply>)
    ensures Delivered([reply] + replies) ==
            (if reply.Served? then reply.elements else []) + Delivered(replies)
  {
    assert ([reply] + replies)[1..] == replies;
  }

  lemma SlicesConcatenate(es: seq<Element>, a: nat, b: nat, c: nat)
    requires a <= b <= c <= |es|
    ensures es[a..b] + es[b..c] == es[a..c]
  {
  }

  /**
   Whatever requests a client sends, the served pages concatenate to exactly the part of
   the frozen list between the cursor's old and new position.
   */
  lemma {:induction false} PagesConcatenate(mode: Mode, c: Cursor, rs: seq<Request>)
    requires Wellformed(c)
    ensures var (c', replies) := ServeAll(mode, c, rs);
            && Wellformed(c') && c'.elements == c.elements
            && Covered(c) <= Covered(c')
            && Delivered(replies) == c.elements[Covered(c)..Covered(c')]
    decreases |rs|
  {
    if rs != [] {
      var (c1, reply) := Serve(mode, c, rs[0]);
      ServeLaw(mode, c, rs[0]);
      PagesConcatenate(mode, c1, rs[1..]);
      var (c2, replies) := ServeAll(mode, c1, rs[1..]);
      DeliveredCons(reply, replies);
      SlicesConcatenate(c.elements, Covered(c), Covered(c1), Covered(c2));
    }
  }

  /** A continuation followed to its end has delivered the frozen list: every element, once, in order. */
  lemma FollowedToTheEnd(mode: Mode, es: seq<Element>, rs: seq<Request>)
    ensures var (c', replies) := ServeAll(mode, Cursor(es, Some(0)), rs);
            && Delivered(replies) <= es
            && (c'.nextOffset.None? ==> Delivered(replies) == es)
  {
    PagesConcatenate(mode, Cursor(es, Some(0)), rs);
  }

  function ServedCount(replies: seq<Reply>): nat
  {
    if replies == [] then 0 else (if replies[0].Served? then 1 else 0) + ServedCount(replies[1..])
  }

  lemma ServedCountCons(reply: Reply, replies: seq<Reply>)
    ensures ServedCount([reply] + replies) == (if reply.Served? then 1 else 0) + ServedCount(replies)
  {
    assert ([reply] + replies)[1..] == replies;
  }

  /**
   Every client makes progress, with whatever limits and trees: each served page but the last one
   covers at least one element, so one more served page than there are elements left is the end.
   */
  lemma {:induction false} EveryClientFinishes(mode: Mode, c: Cursor, rs: seq<Request>)
    requires Wellformed(c)
    ensures var (c', replies) := ServeAll(mode, c, rs);
            var left, served := |c.elements| - Covered(c), ServedCount(replies);
            && served <= left + 1
            && (served == left + 1 ==> c'.nextOffset.None?)
            && (c'.nextOffset.Some? ==> served <= Covered(c') - Covered(c))
    decreases |rs|
  {
    if rs != [] {
      var (c1, reply) := Serve(mode, c, rs[0]);
      ServeLaw(mode, c, rs[0]);
      EveryClientFinishes(mode, c1, rs[1..]);
      var (c2, replies) := ServeAll(mode, c1, rs[1..]);
      ServedCountCons(reply, replies);
      PagesConcatenate(mode, c1, rs[1..]);
      if c1.nextOffset.None? {
        NothingAfterTheEnd(mode, c1, rs[1..]);
      }
    }
  }

  lemma {:induction false} NothingAfterTheEnd(mode: Mode, c: Cursor, rs: seq<Request>)
    requires c.nextOffset.None?
    ensures var (c', replies) := ServeAll(mode, c, rs); c' == c && ServedCount(replies) == 0
    decreases |rs|
  {
    if rs != [] {
      var (c1, reply) := Serve(mode, c, rs[0]);
      ServeLaw(mode, c, rs[0]);
      NothingAfterTheEnd(mode, c1, rs[1..]);
      ServedCountCons(reply, ServeAll(mode, c1, rs[1..]).1);
    }
  }

  predicate Finishes(mode: Mode, c: Cursor, rs: seq<Request>)
    requires Wellformed(c)
  {
    ServeAll(mode, c, rs).0.nextOffset.None?
  }

  /** A client that asks from the returned offset, with the limit it wants and the tree it gets there. */
  function Ask(offset: nat, limits: nat -> int, trees: nat -> nat): Request
  {
    Request(offset, limits(offset), trees(offset))
  }

  /** If no page is refused, a client that keeps asking from the returned offset gets the whole list. */
  lemma {:induction false} EndIsReachable(mode: Mode, c: Cursor, limits: nat -> int, trees: nat -> nat)
    returns (rs: seq<Request>)
    requires Wellformed(c)
    requires forall k :: 0 <= k <= |c.elements| ==> Cut(mode, c.elements, k, ClampLimit(limits(k)), trees(k)).Page?
    ensures Finishes(mode, c, rs) && forall r :: r in rs ==> r == Ask(r.offset, limits, trees)
    ensures |rs| <= if c.nextOffset.None? then 0 else |c.elements| - Covered(c) + 1
    decreases |c.elements| - Covered(c), if c.nextOffset.Some? then 1 else 0
  {
    if c.nextOffset.None? {
      return [];
    }
    var r := Ask(c.nextOffset.value, limits, trees);
    var (c1, reply) := Serve(mode, c, r);
    ServeLaw(mode, c, r);
    var rest := EndIsReachable(mode, c1, limits, trees);
    rs := [r] + rest;
    assert rs[1..] == rest;
  }
}

/** The source reference markers that an externalized result retains within a byte limit. */
module SourceMarkers {
  import opened Utf8Budget

  datatype Block = Block(text: Text, isMarker: bool)

  function MarkerBytes(bs: seq<Block>): nat
  {
    if bs == [] then 0 else MarkerBytes(bs[..|bs| - 1]) + ByteLength(bs[|bs| - 1].text) + 1
  }

  /** The blocks a greedy left-to-right selection keeps. */
  function Kept(bs: seq<Block>, limit: nat): (r: seq<Block>)
    ensures MarkerBytes(r) <= limit
  {
    if bs == [] then []
    else
      var rest := Kept(bs[..|bs| - 1], limit);
      var b := bs[|bs| - 1];
      if b.isMarker && MarkerBytes(rest) + ByteLength(b.text) + 1 <= limit then
        assert (rest + [b])[..|rest|] == rest;
        rest + [b]
      else rest
  }

  function Markers(bs: seq<Block>): seq<Block>
  {
    if bs == [] then []
    else Markers(bs[..|bs| - 1]) + if bs[|bs| - 1].isMarker then [bs[|bs| - 1]] else []
  }

  /** No marker is dropped exactly when all of them fit together. */
  lemma {:induction false} AllKeptIffTheyFit(bs: seq<Block>, limit: nat)
    ensures Kept(bs, limit) == Markers(bs) <==> MarkerBytes(Markers(bs)) <= limit
  {
    if MarkerBytes(Markers(bs)) <= limit {
      FittingAreKept(bs, limit);
    }
  }

  lemma MarkerBytesSnoc(bs: seq<Block>, b: Block)
    ensures MarkerBytes(bs + [b]) == MarkerBytes(bs) + ByteLength(b.text) + 1
  {
    assert (bs + [b])[..|bs|] == bs;
  }

  lemma KeptSnoc(bs: seq<Block>, b: Block, limit: nat)
    ensures Kept(bs + [b], limit) ==
            Kept(bs, limit) + if b.isMarker && MarkerBytes(Kept(bs, limit) + [b]) <= limit then [b] else []
  {
    assert (bs + [b])[..|bs|] == bs;
    MarkerBytesSnoc(Kept(bs, limit), b);
  }

  lemma MarkersSnoc(bs: seq<Block>, b: Block)
    ensures Markers(bs + [b]) == Markers(bs) + if b.isMarker then [b] else []
  {
    assert (bs + [b])[..|bs|] == bs;
  }

  lemma MarkersGrow(bs: seq<Block>, b: Block)
    ensures MarkerBytes(Markers(bs)) <= MarkerBytes(Markers(bs + [b]))
  {
    MarkersSnoc(bs, b);
    MarkerBytesSnoc(Markers(bs), b);
    assert Markers(bs) + [] == Markers(bs);
  }

  lemma FitsNext(bs: seq<Block>, b: Block, limit: nat)
    requires Kept(bs, limit) == Markers(bs) && MarkerBytes(Markers(bs + [b])) <= limit
    ensures Kept(bs + [b], limit) == Markers(bs + [b])
  {
    KeptSnoc(bs, b, limit);
    MarkersSnoc(bs, b);
  }

  lemma {:induction false} FittingAreKept(bs: seq<Block>, limit: nat)
    requires MarkerBytes(Markers(bs)) <= limit
    ensures Kept(bs, limit) == Markers(bs)
  {
    if bs != [] {
      var init, b := bs[..|bs| - 1], bs[|bs| - 1];
      assert bs == init + [b];
      MarkersGrow(init, b);
      FittingAreKept(init, limit);
      FitsNext(init, b, limit);
    }
  }

  /** `i` was dropped because it did not fit after those kept before it. */
  ghost predicate DroppedForSize(bs: seq<Block>, limit: nat, kept: seq<Block>, places: seq<nat>, i: nat, n: nat)
    requires |places| == |kept| && i < |bs|
  {
    && n <= |kept| && (forall k :: 0 <= k < n ==> places[k] < i) && (forall k :: n <= k < |kept| ==> i < places[k])
    && MarkerBytes(kept[..n]) + ByteLength(bs[i].text) + 1 > limit
  }

  ghost predicate IsDropped(bs: seq<Block>, limit: nat, kept: seq<Block>, places: seq<nat>, i: nat)
    requires |places| == |kept| && i < |bs|
  {
    exists n: nat :: DroppedForSize(bs, limit, kept, places, i, n)
  }

  /** `kept` are the markers at `places`, in order; every other marker was dropped for its size. */
  ghost predicate Selects(bs: seq<Block>, limit: nat, kept: seq<Block>, places: seq<nat>)
  {
    && |places| == |kept| && MarkerBytes(kept) <= limit
    && (forall k :: 0 <= k < |kept| ==> places[k] < |bs| && bs[places[k]] == kept[k] && kept[k].isMarker)
    && (forall j, k :: 0 <= j < k < |kept| ==> places[j] < places[k])
    && (forall i {:trigger IsDropped(bs, limit, kept, places, i)} ::
          0 <= i < |bs| && bs[i].isMarker && i !in places ==> IsDropped(bs, limit, kept, places, i))
  }

  lemma StillDropped(bs: seq<Block>, b: Block, limit: nat, kept: seq<Block>, places: seq<nat>, i: nat)
    requires Selects(bs, limit, kept, places) && i < |bs| && bs[i].isMarker && i !in places
    ensures IsDropped(bs + [b], limit, kept, places, i)
    ensures IsDropped(bs + [b], limit, kept + [b], places + [|bs|], i)
  {
    assert IsDropped(bs, limit, kept, places, i);
    var n: nat :| DroppedForSize(bs, limit, kept, places, i, n);
    assert (kept + [b])[..n] == kept[..n];
    assert DroppedForSize(bs + [b], limit, kept, places, i, n);
    assert DroppedForSize(bs + [b], limit, kept + [b], places + [|bs|], i, n);
  }

  lemma TakesNext(bs: seq<Block>, b: Block, limit: nat, kept: seq<Block>, places: seq<nat>)
    requires Selects(bs, limit, kept, places) && b.isMarker && MarkerBytes(kept + [b]) <= limit
    ensures Selects(bs + [b], limit, kept + [b], places + [|bs|])
  {
    var all, more := bs + [b], places + [|bs|];
    assert forall i :: 0 <= i < |bs| ==> all[i] == bs[i];
    forall i | 0 <= i < |all| && all[i].isMarker && i !in more
      ensures IsDropped(all, limit, kept + [b], more, i)
    {
      assert more[|places|] == |bs|;
      assert i !in places by {
        assert forall k :: 0 <= k < |places| ==> more[k] == places[k];
      }
      StillDropped(bs, b, limit, kept, places, i);
    }
  }

  lemma DropsNext(bs: seq<Block>, b: Block, limit: nat, kept: seq<Block>, places: seq<nat>)
    requires Selects(bs, limit, kept, places) && (b.isMarker ==> MarkerBytes(kept + [b]) > limit)
    ensures Selects(bs + [b], limit, kept, places)
  {
    var all := bs + [b];
    assert forall i :: 0 <= i < |bs| ==> all[i] == bs[i];
    forall i | 0 <= i < |all| && all[i].isMarker && i !in places
      ensures IsDropped(all, limit, kept, places, i)
    {
      if i < |bs| {
        StillDropped(bs, b, limit, kept, places, i);
      } else {
        MarkerBytesSnoc(kept, b);
        assert kept[..|kept|] == kept;
        assert DroppedForSize(all, limit, kept, places, i, |kept|);
      }
    }
  }

  lemma SelectsNext(bs: seq<Block>, b: Block, limit: nat, kept: seq<Block>, next: seq<Block>, places: seq<nat>)
    returns (more: seq<nat>)
    requires Selects(bs, limit, kept, places)
    requires next == kept + if b.isMarker && MarkerBytes(kept + [b]) <= limit then [b] else []
    ensures Selects(bs + [b], limit, next, more)
  {
    if b.isMarker && MarkerBytes(kept + [b]) <= limit {
      TakesNext(bs, b, limit, kept, places);
      more := places + [|bs|];
    } else {
      DropsNext(bs, b, limit, kept, places);
      assert kept + [] == kept;
      more := places;
    }
  }

  lemma NothingSelected(limit: nat)
    ensures Selects([], limit, [], [])
  {
  }

  lemma {:induction false} KeptIsGreedy(bs: seq<Block>, limit: nat, n: nat) returns (places: seq<nat>)
    requires n <= |bs|
    ensures Selects(bs[..n], limit, Kept(bs[..n], limit), places)
  {
    if n == 0 {
      NothingSelected(limit);
      assert bs[..n] == [];
      places := [];
    } else {
      var before := KeptIsGreedy(bs, limit, n - 1);
      var init, b := bs[..n - 1], bs[n - 1];
      assert init + [b] == bs[..n];
      KeptSnoc(init, b, limit);
      places := SelectsNext(init, b, limit, Kept(init, limit), Kept(bs[..n], limit), before);
    }
  }

  /** Exactly those markers are dropped that do not fit after the ones kept before them. */
  method BoundedSourceReferenceMarkers(bs: seq<Block>, limit: nat) returns (kept: seq<Block>)
    ensures kept == Kept(bs, limit) && exists places: seq<nat> :: Selects(bs, limit, kept, places)
  {
    var _ := KeptIsGreedy(bs, limit, |bs|);
    assert bs[..|bs|] == bs;
    kept := [];
    var remaining := limit;
    for i := 0 to |bs|
      invariant kept == Kept(bs[..i], limit) && remaining == limit - MarkerBytes(kept)
    {
      assert bs[..i + 1][..i] == bs[..i];
      if bs[i].isMarker {
        var bytes := ByteLength(bs[i].text) + 1;
        if bytes <= remaining {
          remaining := remaining - bytes;
          assert (kept + [bs[i]])[..|kept|] == kept;
          kept := kept + [bs[i]];
        }
      }
    }
    assert bs[..|bs|] == bs;
  }
}

/**
 Cutting text to a number of UTF-8 bytes (RFC 3629, section 3) without splitting a code point,
 over strings of UTF-16 code units (RFC 2781, section 2) that may contain lone surrogates.
 */
module Utf8Budget {

  type Unit = u: nat | u < 0x1_0000 witness 0

  type Text = seq<Unit>

  predicate IsHigh(u: Unit) { 0xD800 <= u <= 0xDBFF }

  predicate IsLow(u: Unit) { 0xDC00 <= u <= 0xDFFF }

  // ---------------------------------------------------------------- segmentation

  /** A position that does not split a surrogate pair. */
  predicate Boundary(t: Text, i: nat)
  {
    i <= |t| && !(0 < i < |t| && IsHigh(t[i - 1]) && IsLow(t[i]))
  }

  /** String iteration: the position after the code point at `i`. */
  function Next(t: Text, i: nat): (n: nat)
    requires i < |t|
    ensures i < n <= |t|
  {
    if i + 1 < |t| && IsHigh(t[i]) && IsLow(t[i + 1]) then i + 2 else i + 1
  }

  /** The backward scan: the position before the code point that ends at `c`. */
  function Prev(t: Text, c: nat): (p: nat)
    requires 0 < c <= |t|
    ensures p < c
  {
    if IsLow(t[c - 1]) && c - 1 > 0 && IsHigh(t[c - 2]) then c - 2 else c - 1
  }

  function Forward(t: Text, i: nat): (r: seq<nat>)
    requires i <= |t|
    ensures r != [] && r[0] == i
    decreases |t| - i
  {
    if i == |t| then [i] else [i] + Forward(t, Next(t, i))
  }

  function Backward(t: Text, c: nat): seq<nat>
    requires c <= |t|
  {
    if c == 0 then [0] else Backward(t, Prev(t, c)) + [c]
  }

  /** Between a boundary and the next position the iteration reaches there is no boundary. */
  lemma StepsOverBoundaries(t: Text, i: nat)
    requires Boundary(t, i)
    ensures i < |t| ==> Boundary(t, Next(t, i)) && forall j :: i < j < Next(t, i) ==> !Boundary(t, j)
    ensures i > 0 ==> Boundary(t, Prev(t, i)) && Next(t, Prev(t, i)) == i
  {
  }

  lemma {:induction false} SplitAtBoundary(t: Text, c: nat)
    requires Boundary(t, c)
    ensures Backward(t, c) + Forward(t, c)[1..] == Forward(t, 0)
  {
    if c > 0 {
      var p := Prev(t, c);
      StepsOverBoundaries(t, c);
      SplitAtBoundary(t, p);
      var f := Forward(t, c);
      assert Forward(t, p)[1..] == f;
      assert f == [c] + f[1..];
      assert Backward(t, p) + [c] + f[1..] == Backward(t, p) + ([c] + f[1..]);
    }
  }

  /** Scanning backwards cuts every text, well formed or not, where iterating forwards does. */
  lemma SegmentationsAgree(t: Text)
    ensures Forward(t, 0) == Backward(t, |t|)
  {
    SplitAtBoundary(t, |t|);
    assert Backward(t, |t|) + Forward(t, |t|)[1..] == Backward(t, |t|);
  }

  // ---------------------------------------------------------------- byte lengths

  /** Bytes of the code point at `i`; a lone surrogate is encoded as the replacement character. */
  function CharBytes(t: Text, i: nat): (b: nat)
    requires i < |t|
    ensures 1 <= b <= 4
  {
    if Next(t, i) == i + 2 then 4
    else if t[i] < 0x80 then 1
    else if t[i] < 0x800 then 2
    else 3
  }

  function ByteLength(t: Text): nat
  {
    if t == [] then 0 else CharBytes(t, 0) + ByteLength(t[Next(t, 0)..])
  }

  lemma {:induction false} Additive(t: Text, i: nat)
    requires Boundary(t, i)
    ensures ByteLength(t) == ByteLength(t[..i]) + ByteLength(t[i..])
    decreases |t|
  {
    if i == 0 {
      assert t[..0] == [] && t[0..] == t;
    } else {
      var n := Next(t, 0);
      StepsOverBoundaries(t, 0);
      var rest := t[n..];
      assert Boundary(rest, i - n);
      Additive(rest, i - n);
      assert t[..i][n..] == rest[..i - n];
      assert rest[i - n..] == t[i..];
      assert Next(t[..i], 0) == n && CharBytes(t[..i], 0) == CharBytes(t, 0);
    }
  }

  lemma {:induction false} LengthIsPositive(t: Text)
    ensures ByteLength(t) >= |t|
    decreases |t|
  {
    if t != [] {
      LengthIsPositive(t[Next(t, 0)..]);
    }
  }

  lemma PairFirst(t: Text)
    requires |t| > 1 && IsHigh(t[0]) && IsLow(t[1])
    ensures ByteLength(t) == 4 + ByteLength(t[2..])
  {
  }

  lemma LoneFirst(t: Text)
    requires t != [] && (IsHigh(t[0]) || IsLow(t[0])) && !(|t| > 1 && IsHigh(t[0]) && IsLow(t[1]))
    ensures ByteLength(t) == 3 + ByteLength(t[1..])
  {
  }

  /** Completing a pair saves two bytes. */
  lemma PairCompleted(a: Text, b: Text)
    requires a != [] && b != [] && IsHigh(a[|a| - 1]) && IsLow(b[0])
    ensures ByteLength(a + b) + 2 == ByteLength(a) + ByteLength(b)
  {
    var t, n := a + b, |a| - 1;
    assert Boundary(t, n) && Boundary(a, n);
    Additive(t, n);
    Additive(a, n);
    assert t[..n] == a[..n] && a[n..] == [a[n]] && t[n..] == [a[n]] + b;
    PairFirst([a[n]] + b);
    assert ([a[n]] + b)[2..] == b[1..];
    LoneFirst([a[n]]);
    assert [a[n]][1..] == [];
    LoneFirst(b);
  }

  /** Joining texts never costs more than their parts; it saves two bytes when it completes a pair. */
  lemma Subadditive(a: Text, b: Text)
    ensures ByteLength(a + b) <= ByteLength(a) + ByteLength(b)
  {
    var t := a + b;
    if Boundary(t, |a|) {
      Additive(t, |a|);
      assert t[..|a|] == a && t[|a|..] == b;
    } else {
      PairCompleted(a, b);
    }
  }

  lemma PrefixSplits(t: Text, i: nat, j: nat)
    requires Boundary(t, i) && i < j <= |t|
    ensures ByteLength(t[..j]) == ByteLength(t[..i]) + ByteLength(t[i..j])
  {
    assert Boundary(t[..j], i);
    Additive(t[..j], i);
    assert t[..j][..i] == t[..i] && t[..j][i..] == t[i..j];
  }

  lemma SuffixSplits(t: Text, i: nat, j: nat)
    requires Boundary(t, j) && i < j
    ensures ByteLength(t[i..]) == ByteLength(t[i..j]) + ByteLength(t[j..])
  {
    assert Boundary(t[i..], j - i);
    Additive(t[i..], j - i);
    assert t[i..][..j - i] == t[i..j] && t[i..][j - i..] == t[j..];
  }

  lemma PrefixGrows(t: Text, i: nat, j: nat)
    requires Boundary(t, i) && Boundary(t, j) && i < j
    ensures ByteLength(t[..j]) == ByteLength(t[..i]) + ByteLength(t[i..j])
    ensures ByteLength(t[i..]) == ByteLength(t[i..j]) + ByteLength(t[j..])
    ensures ByteLength(t[i..j]) > 0
  {
    PrefixSplits(t, i, j);
    SuffixSplits(t, i, j);
    LengthIsPositive(t[i..j]);
  }

  lemma OneChar(t: Text, i: nat)
    requires i < |t|
    ensures ByteLength(t[i..Next(t, i)]) == CharBytes(t, i)
  {
    var c := t[i..Next(t, i)];
    assert Next(c, 0) == |c|;
    assert c[|c|..] == [];
  }

  // ---------------------------------------------------------------- cutting

  /** `k` ends the longest prefix of whole code points within the budget. */
  ghost predicate LongestPrefix(t: Text, budget: nat, k: nat)
  {
    && Boundary(t, k) && ByteLength(t[..k]) <= budget
    && forall j :: k < j <= |t| && Boundary(t, j) ==> ByteLength(t[..j]) > budget
  }

  /** `k` starts the longest suffix of whole code points within the budget. */
  ghost predicate LongestSuffix(t: Text, budget: nat, k: nat)
  {
    && Boundary(t, k) && ByteLength(t[k..]) <= budget
    && forall j :: 0 <= j < k && Boundary(t, j) ==> ByteLength(t[j..]) > budget
  }

  method TakeUtf8Start(t: Text, budget: nat) returns (r: Text)
    ensures LongestPrefix(t, budget, |r|) && r == t[..|r|]
  {
    var used, cursor := 0, 0;
    assert t[..0] == [];
    while cursor < |t|
      invariant cursor <= |t| && Boundary(t, cursor)
      invariant used == ByteLength(t[..cursor]) <= budget
    {
      var next := Next(t, cursor);
      StepsOverBoundaries(t, cursor);
      OneChar(t, cursor);
      PrefixGrows(t, cursor, next);
      var bytes := CharBytes(t, cursor);
      if used + bytes > budget {
        forall j | cursor < j <= |t| && Boundary(t, j)
          ensures ByteLength(t[..j]) > budget
        {
          if next < j {
            PrefixGrows(t, next, j);
          }
        }
        return t[..cursor];
      }
      used := used + bytes;
      cursor := next;
    }
    return t[..cursor];
  }

  /** Once one more code point does not fit, no longer suffix does. */
  lemma NoLongerSuffix(t: Text, budget: nat, cursor: nat, end: nat)
    requires Boundary(t, cursor) && Boundary(t, end) && cursor < end
    requires forall j :: cursor < j < end ==> !Boundary(t, j)
    requires ByteLength(t[end..]) <= budget < ByteLength(t[cursor..])
    ensures LongestSuffix(t, budget, end)
  {
    forall j | 0 <= j < end && Boundary(t, j)
      ensures ByteLength(t[j..]) > budget
    {
      if j < cursor {
        PrefixGrows(t, j, cursor);
      }
    }
  }

  method TakeUtf8End(t: Text, budget: nat) returns (r: Text)
    ensures |r| <= |t| && LongestSuffix(t, budget, |t| - |r|) && r == t[|t| - |r|..]
  {
    var used, start, cursor := 0, |t|, |t|;
    assert t[|t|..] == [];
    while cursor > 0
      invariant 0 <= start == cursor <= |t| && Boundary(t, cursor)
      invariant used == ByteLength(t[cursor..]) <= budget
    {
      var end := cursor;
      StepsOverBoundaries(t, end);
      cursor := Prev(t, end);
      OneChar(t, cursor);
      PrefixGrows(t, cursor, end);
      StepsOverBoundaries(t, cursor);
      var bytes := CharBytes(t, cursor);
      if used + bytes > budget {
        NoLongerSuffix(t, budget, cursor, end);
        break;
      }
      start := cursor;
      used := used + bytes;
    }
    r := t[start..];
  }

  /** The code point at `i` ends within the head's half of the budget and starts within the tail's. */
  ghost predicate FitsBoth(t: Text, budget: nat, i: nat)
  {
    && i < |t| && Boundary(t, i)
    && ByteLength(t[..Next(t, i)]) <= (budget + 1) / 2 && ByteLength(t[i..]) <= budget / 2
  }

  /** Head and tail share text exactly when some single code point fits into both. */
  lemma OverlapIff(t: Text, budget: nat, head: nat, tail: nat)
    requires LongestPrefix(t, (budget + 1) / 2, head) && LongestSuffix(t, budget / 2, tail)
    ensures tail < head <==> exists i :: 0 <= i < |t| && FitsBoth(t, budget, i)
  {
    if tail < head {
      var n := Next(t, tail);
      StepsOverBoundaries(t, tail);
      if n < head {
        PrefixGrows(t, n, head);
      }
      assert FitsBoth(t, budget, tail);
    }
    if i: nat :| i < |t| && FitsBoth(t, budget, i) {
      StepsOverBoundaries(t, i);
      assert tail <= i < Next(t, i) <= head;
    }
  }

  /** No code point fits into both halves of a budget that the text fills. */
  lemma FilledBudgetsFitOnce(t: Text, budget: nat, i: nat)
    requires ByteLength(t) >= budget
    ensures !FitsBoth(t, budget, i)
  {
    if FitsBoth(t, budget, i) {
      StepsOverBoundaries(t, i);
      PrefixGrows(t, i, Next(t, i));
      Additive(t, i);
    }
  }

  /** Head, notice and tail. Head and tail are apart if the text fills the budget. */
  method HeadTailPreview(t: Text, budget: nat, notice: Text)
    returns (preview: Text, ghost head: nat, ghost tail: nat)
    ensures head <= |t| && tail <= |t| && preview == t[..head] + notice + t[tail..]
    ensures LongestPrefix(t, (budget + 1) / 2, head) && LongestSuffix(t, budget / 2, tail)
    ensures tail < head <==> exists i :: 0 <= i < |t| && FitsBoth(t, budget, i)
    ensures ByteLength(t) >= budget ==> head <= tail
    ensures ByteLength(preview) <= budget + ByteLength(notice)
  {
    var start := TakeUtf8Start(t, (budget + 1) / 2);
    var end := TakeUtf8End(t, budget / 2);
    head, tail := |start|, |t| - |end|;
    OverlapIff(t, budget, head, tail);
    if i: nat :| i < |t| && FitsBoth(t, budget, i) && ByteLength(t) >= budget {
      FilledBudgetsFitOnce(t, budget, i);
    }
    Subadditive(start, notice);
    Subadditive(start + notice, end);
    preview := start + notice + end;
  }

  /** Three one-byte characters under a budget of four: the middle one is shown twice. */
  lemma SmallTextsOverlap()
    ensures var t: Text := [0x61, 0x62, 0x63]; FitsBoth(t, 4, 1)
  {
    var t: Text := [0x61, 0x62, 0x63];
    PlainLength(t[..2]);
    PlainLength(t[1..]);
  }

  lemma {:induction false} PlainLength(t: Text)
    requires forall i :: 0 <= i < |t| ==> t[i] < 0x80
    ensures ByteLength(t) == |t|
    decreases |t|
  {
    if t != [] {
      PlainLength(t[1..]);
    }
  }

  const ELLIPSIS: Text := [0x2026]

  /** The result always respects the bound, and is the text itself exactly when that fits. */
  method TruncateUtf8(t: Text, maxBytes: nat) returns (r: Text)
    ensures ByteLength(r) <= maxBytes
    ensures ByteLength(t) <= maxBytes ==> r == t
    ensures ByteLength(t) > maxBytes && maxBytes <= 3 ==> r == []
    ensures ByteLength(t) > maxBytes > 3 ==>
              |r| > 0 && r[|r| - 1] == 0x2026 && r[..|r| - 1] <= t && LongestPrefix(t, maxBytes - 3, |r| - 1)
  {
    if ByteLength(t) <= maxBytes {
      return t;
    }
    assert ByteLength(ELLIPSIS) == 3 by {
      assert ELLIPSIS[1..] == [];
    }
    if maxBytes <= 3 {
      return [];
    }
    var start := TakeUtf8Start(t, maxBytes - 3);
    Subadditive(start, ELLIPSIS);
    r := start + ELLIPSIS;
    assert r[..|r| - 1] == start;
  }
}

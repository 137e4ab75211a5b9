/** Pages of network diagnostics: the youngest matching entries that fit the limit and the byte budget. */
module NetworkQuery {
  import opened Decimals
  import opened NetworkLog
  import opened NetworkSpec
  import Paging
  import opened Wrappers

  const MAX_PAGE_BYTES := 48 * 1024

  function Matching(es: seq<EntryView>, after: nat, filter: EntryView -> bool): seq<EntryView>
  {
    if es == [] then []
    else
      var rest := Matching(es[..|es| - 1], after, filter);
      var e := es[|es| - 1];
      if e.sequence > after && filter(e) then rest + [e] else rest
  }

  /** A field of a JSON object with its name, quotes, colon and comma. */
  function Field(name: string, bytes: nat): nat
  {
    |name| + 4 + bytes
  }

  function Text(name: string, value: string): nat
  {
    Field(name, |value| + 2)
  }

  function Number(name: string, value: int): nat
  {
    Field(name, if value < 0 then 1 + Paging.Digits(-value) else Paging.Digits(value))
  }

  function OptionalText(name: string, value: string): nat
  {
    if value == "" then 0 else Text(name, value)
  }

  function OptionalNumber(name: string, value: Option<int>): nat
  {
    match value case None => 0 case Some(n) => Number(name, n)
  }

  function OutcomeName(outcome: Outcome): string
  {
    match outcome
    case Pending => "pending"
    case Success => "success"
    case HttpError => "http-error"
    case Failed => "failed"
    case Redirect => "redirect"
  }

  /** Bytes of the public fields of an entry: all but request id, start time and loader id. */
  function EntryBytes(e: EntryView): nat
  {
    1 + Number("sequence", e.sequence) + Text("method", e.request.verb) + Text("url", e.request.url) +
    Text("resourceType", e.kind) + Text("outcome", OutcomeName(e.outcome)) + Number("timestamp", e.request.wallTime) +
    OptionalNumber("status", e.status) + OptionalText("statusText", e.statusText) +
    OptionalText("mimeType", e.mimeType) + OptionalText("failureReason", e.failureReason) +
    OptionalNumber("durationMs", e.durationMs)
  }

  function ItemBytes(es: seq<EntryView>): nat
  {
    if es == [] then 0 else EntryBytes(es[0]) + (if |es| > 1 then 1 else 0) + ItemBytes(es[1..])
  }

  /** Bytes of the page that returns `es` out of `total` matching entries. */
  function PageBytes(es: seq<EntryView>, lastSequence: nat, total: nat): nat
  {
    78 + ItemBytes(es) + Paging.Digits(lastSequence) + Paging.Digits(total) + Paging.Digits(|es|) +
    if |es| < total then 4 else 5
  }

  function Suffix(all: seq<EntryView>, k: nat): seq<EntryView>
    requires k <= |all|
  {
    all[|all| - k..]
  }

  predicate Fits(all: seq<EntryView>, lastSequence: nat, k: nat)
    requires k <= |all|
  {
    PageBytes(Suffix(all, k), lastSequence, |all|) <= MAX_PAGE_BYTES
  }

  lemma {:induction false} LongerIsLarger(all: seq<EntryView>, lastSequence: nat, j: nat, k: nat)
    requires j <= k <= |all|
    ensures PageBytes(Suffix(all, j), lastSequence, |all|) <= PageBytes(Suffix(all, k), lastSequence, |all|)
    decreases k - j
  {
    if j < k {
      assert Suffix(all, k)[1..] == Suffix(all, k - 1);
      LongerIsLarger(all, lastSequence, j, k - 1);
      Paging.DigitsMonotone(k - 1, k);
    }
  }

  // ---------------------------------------------------------------- the texts that are measured

  function NumberText(n: int): string
  {
    if n < 0 then "-" + Decimal(-n) else Decimal(n)
  }

  function Quoted(s: string): string
  {
    "\"" + s + "\""
  }

  /** A field and the comma after it. */
  function FieldText(name: string, value: string): string
  {
    Quoted(name) + ":" + value + ","
  }

  function OptionalTextField(name: string, value: string): string
  {
    if value == "" then "" else FieldText(name, Quoted(value))
  }

  function OptionalNumberField(name: string, value: Option<int>): string
  {
    match value case None => "" case Some(n) => FieldText(name, NumberText(n))
  }

  function RequiredFields(e: EntryView): string
  {
    FieldText("sequence", NumberText(e.sequence)) + FieldText("method", Quoted(e.request.verb)) +
    FieldText("url", Quoted(e.request.url)) + FieldText("resourceType", Quoted(e.kind)) +
    FieldText("outcome", Quoted(OutcomeName(e.outcome))) + FieldText("timestamp", NumberText(e.request.wallTime))
  }

  function OptionalFields(e: EntryView): string
  {
    OptionalNumberField("status", e.status) + OptionalTextField("statusText", e.statusText) +
    OptionalTextField("mimeType", e.mimeType) + OptionalTextField("failureReason", e.failureReason) +
    OptionalNumberField("durationMs", e.durationMs)
  }

  /** The JSON text of an entry; the last comma is dropped. */
  function EntryText(e: EntryView): (text: string)
    ensures |text| == |RequiredFields(e)| + |OptionalFields(e)| + 1
  {
    var fields := RequiredFields(e) + OptionalFields(e);
    "{" + fields[..|fields| - 1] + "}"
  }

  function Joined(es: seq<EntryView>): string
  {
    if es == [] then "" else EntryText(es[0]) + (if |es| > 1 then "," else "") + Joined(es[1..])
  }

  function PageText(es: seq<EntryView>, lastSequence: nat, total: nat): string
  {
    "{\"entries\":[" + Joined(es) + "],\"lastSequence\":" + Decimal(lastSequence) + ",\"totalEntries\":" +
    Decimal(total) + ",\"returnedEntries\":" + Decimal(|es|) + ",\"truncated\":" +
    (if |es| < total then "true" else "false") + "}"
  }

  lemma NumbersAreText(name: string, n: int)
    ensures |FieldText(name, NumberText(n))| == Number(name, n)
  {
    Paging.DigitsAreText(if n < 0 then -n else n);
  }

  lemma TextsAreText(name: string, value: string)
    ensures |FieldText(name, Quoted(value))| == Text(name, value)
    ensures |OptionalTextField(name, value)| == OptionalText(name, value)
  {
  }

  lemma OptionalsAreText(name: string, value: Option<int>)
    ensures |OptionalNumberField(name, value)| == OptionalNumber(name, value)
  {
    if value.Some? {
      NumbersAreText(name, value.value);
    }
  }

  lemma EntryIsText(e: EntryView)
    ensures EntryBytes(e) == |EntryText(e)|
  {
    NumbersAreText("sequence", e.sequence);
    TextsAreText("method", e.request.verb);
    TextsAreText("url", e.request.url);
    TextsAreText("resourceType", e.kind);
    TextsAreText("outcome", OutcomeName(e.outcome));
    NumbersAreText("timestamp", e.request.wallTime);
    OptionalsAreText("status", e.status);
    TextsAreText("statusText", e.statusText);
    TextsAreText("mimeType", e.mimeType);
    TextsAreText("failureReason", e.failureReason);
    OptionalsAreText("durationMs", e.durationMs);
  }

  lemma {:induction false} ItemsAreText(es: seq<EntryView>)
    ensures ItemBytes(es) == |Joined(es)|
  {
    if es != [] {
      EntryIsText(es[0]);
      ItemsAreText(es[1..]);
    }
  }

  /** The measured size is the length of the page's JSON text. */
  lemma PageIsText(es: seq<EntryView>, lastSequence: nat, total: nat)
    ensures PageBytes(es, lastSequence, total) == |PageText(es, lastSequence, total)|
  {
    ItemsAreText(es);
    Paging.DigitsAreText(lastSequence);
    Paging.DigitsAreText(total);
    Paging.DigitsAreText(|es|);
  }

  function Min(a: nat, b: nat): nat { if a <= b then a else b }

  datatype Page = Page(entries: seq<EntryView>, lastSequence: nat, total: nat, truncated: bool)

  ghost predicate Younger(es: seq<EntryView>)
  {
    forall i, j :: 0 <= i < j < |es| ==> es[i].sequence < es[j].sequence
  }

  /** The matching entries of the log. */
  ghost function Matches(es: seq<EntryView>, after: nat, filter: EntryView -> bool): set<EntryView>
  {
    set e | e in es && e.sequence > after && filter(e)
  }

  /**
   The page holds the youngest matching entries, ascending by sequence: no match that is missing is
   younger than one that is there. It has as many as the limit and the byte budget allow, for its
   JSON text, and reports the number of all matches.
   */
  ghost predicate IsPage(page: Page, es: seq<EntryView>, after: nat, cap: nat, filter: EntryView -> bool)
  {
    IsPageOf(page, Matches(es, after, filter), cap)
  }

  ghost predicate IsPageOf(page: Page, matches: set<EntryView>, cap: nat)
  {
    AreYoungest(page, matches) && IsLargest(page, matches, cap)
  }

  ghost predicate AreYoungest(page: Page, matches: set<EntryView>)
  {
    && Younger(page.entries) && page.total == |matches|
    && (forall e :: e in page.entries ==> e in matches)
    && (forall e, shown :: e in matches && e !in page.entries && shown in page.entries ==> e.sequence < shown.sequence)
    && (page.truncated <==> exists e :: e in matches && e !in page.entries)
  }

  ghost predicate IsLargest(page: Page, matches: set<EntryView>, cap: nat)
  {
    && |page.entries| <= cap
    && (page.entries != [] ==> |PageText(page.entries, page.lastSequence, page.total)| <= 48 * 1024)
    && (forall e :: IsNext(e, page, matches) && |page.entries| < cap ==>
                      |PageText([e] + page.entries, page.lastSequence, page.total)| > 48 * 1024)
  }

  /** The youngest match that is missing. */
  ghost predicate IsNext(e: EntryView, page: Page, matches: set<EntryView>)
  {
    && e in matches && e !in page.entries
    && forall other :: other in matches && other !in page.entries ==> other.sequence <= e.sequence
  }

  /**
   The page is the longest run of the youngest matching entries that respects both bounds, in
   log order; all of its entries are younger than the checkpoint and none is younger than the
   checkpoint it returns.
   */
  method GetNetworkDiagnostics(diagnostics: NetworkDiagnostics, after: nat, limit: int, filter: EntryView -> bool)
    returns (page: Page)
    requires diagnostics.Valid()
    ensures var cap := if limit < 1 then 1 else if limit > 200 then 200 else limit;
            IsPage(page, Views(diagnostics.log), after, cap, filter)
    ensures page.lastSequence == diagnostics.sequence
    ensures forall e :: e in page.entries ==> after < e.sequence <= page.lastSequence && filter(e)
  {
    var views := Views(diagnostics.log);
    var all := Matching(views, after, filter);
    var cap := Paging.ClampLimit(limit);
    var n := FittingCount(all, diagnostics.sequence, Min(cap, |all|));
    page := Page(Suffix(all, n), diagnostics.sequence, |all|, n < |all|);
    ViewsAscend(diagnostics.log, diagnostics.sequence);
    PageIsRight(views, after, filter, diagnostics.sequence, cap, n, page);
    MatchingMembers(views, after, filter);
  }

  lemma ViewsAscend(es: seq<Entry>, last: nat)
    requires Ascending(es, last)
    ensures Younger(Views(es)) && forall e :: e in Views(es) ==> e.sequence <= last
  {
    AscendingMeans(es, last);
  }

  lemma {:induction false} MatchingAscends(es: seq<EntryView>, after: nat, filter: EntryView -> bool)
    requires Younger(es)
    ensures Younger(Matching(es, after, filter))
  {
    if es != [] {
      MatchingAscends(es[..|es| - 1], after, filter);
      MatchingMembers(es[..|es| - 1], after, filter);
      var rest := Matching(es[..|es| - 1], after, filter);
      forall i | 0 <= i < |rest|
        ensures rest[i].sequence < es[|es| - 1].sequence
      {
        assert rest[i] in es[..|es| - 1];
      }
    }
  }

  lemma {:induction false} DistinctCount(es: seq<EntryView>)
    requires Younger(es)
    ensures |(set e | e in es)| == |es|
  {
    if es != [] {
      var init, last := es[..|es| - 1], es[|es| - 1];
      DistinctCount(init);
      assert es == init + [last];
      assert last !in init;
      assert (set e | e in es) == (set e | e in init) + {last};
    }
  }

  /** A match that is missing stands before the run. */
  lemma MissingAt(all: seq<EntryView>, n: nat, e: EntryView) returns (i: nat)
    requires n <= |all| && e in all && e !in Suffix(all, n)
    ensures i < |all| - n && all[i] == e
  {
    i :| 0 <= i < |all| && all[i] == e;
    forall k | |all| - n <= k < |all|
      ensures all[k] in Suffix(all, n)
    {
      assert Suffix(all, n)[k - (|all| - n)] == all[k];
    }
  }

  lemma BeforeIsMissing(all: seq<EntryView>, n: nat, i: nat)
    requires n <= |all| && Younger(all) && i < |all| - n
    ensures all[i] !in Suffix(all, n)
    ensures forall k :: 0 <= k < n ==> all[i].sequence < Suffix(all, n)[k].sequence
  {
    forall k | 0 <= k < n
      ensures all[i].sequence < Suffix(all, n)[k].sequence
    {
      assert Suffix(all, n)[k] == all[|all| - n + k];
    }
  }

  /** The youngest entry that is missing is the one before the run. */
  lemma NextIsYoungest(all: seq<EntryView>, n: nat, e: EntryView)
    requires n <= |all| && Younger(all) && e in all && e !in Suffix(all, n)
    requires forall other :: other in all && other !in Suffix(all, n) ==> other.sequence <= e.sequence
    ensures n < |all| && [e] + Suffix(all, n) == Suffix(all, n + 1)
  {
    var i := MissingAt(all, n, e);
    var next := |all| - n - 1;
    BeforeIsMissing(all, n, next);
    assert all[next] in all;
    assert i == next;
  }

  lemma MissingAreOlder(all: seq<EntryView>, n: nat, e: EntryView, shown: EntryView)
    requires n <= |all| && Younger(all) && e in all && e !in Suffix(all, n) && shown in Suffix(all, n)
    ensures e.sequence < shown.sequence
  {
    var i := MissingAt(all, n, e);
    BeforeIsMissing(all, n, i);
  }

  lemma TruncatedIfMissing(all: seq<EntryView>, n: nat)
    requires n <= |all| && Younger(all)
    ensures n < |all| <==> exists e :: e in all && e !in Suffix(all, n)
  {
    if n < |all| {
      BeforeIsMissing(all, n, 0);
      assert all[0] in all;
    } else {
      assert Suffix(all, n) == all;
    }
  }

  lemma FitsIsText(all: seq<EntryView>, last: nat, k: nat)
    requires k <= |all|
    ensures Fits(all, last, k) <==> |PageText(Suffix(all, k), last, |all|)| <= 48 * 1024
  {
    PageIsText(Suffix(all, k), last, |all|);
  }

  lemma NextDoesNotFit(all: seq<EntryView>, last: nat, n: nat, cap: nat, e: EntryView)
    requires n <= |all| && Younger(all) && n < cap && e in all && e !in Suffix(all, n)
    requires forall other :: other in all && other !in Suffix(all, n) ==> other.sequence <= e.sequence
    requires forall k :: n < k <= Min(cap, |all|) ==> !Fits(all, last, k)
    ensures |PageText([e] + Suffix(all, n), last, |all|)| > 48 * 1024
  {
    NextIsYoungest(all, n, e);
    FitsIsText(all, last, n + 1);
  }

  lemma PageIsRight(es: seq<EntryView>, after: nat, filter: EntryView -> bool, last: nat, cap: nat, n: nat, page: Page)
    requires Younger(es)
    requires var all := Matching(es, after, filter);
             && n <= |all| && n <= cap && page == Page(Suffix(all, n), last, |all|, n < |all|)
             && (n > 0 ==> Fits(all, last, n)) && (forall k :: n < k <= Min(cap, |all|) ==> !Fits(all, last, k))
    ensures IsPage(page, es, after, cap, filter)
  {
    var all := Matching(es, after, filter);
    MatchingAscends(es, after, filter);
    MatchingMembers(es, after, filter);
    DistinctCount(all);
    var matches := Matches(es, after, filter);
    assert matches == set e | e in all;
    SuffixIsYoungest(all, matches, n, page);
    SuffixIsLargest(all, matches, last, cap, n, page);
  }

  lemma SuffixIsYoungest(all: seq<EntryView>, matches: set<EntryView>, n: nat, page: Page)
    requires Younger(all) && matches == (set e | e in all) && |matches| == |all| && n <= |all|
    requires page.entries == Suffix(all, n) && page.total == |all| && (page.truncated <==> n < |all|)
    ensures AreYoungest(page, matches)
  {
    forall e, shown | e in matches && e !in page.entries && shown in page.entries
      ensures e.sequence < shown.sequence
    {
      MissingAreOlder(all, n, e, shown);
    }
    TruncatedIfMissing(all, n);
  }

  lemma SuffixIsLargest(all: seq<EntryView>, matches: set<EntryView>, last: nat, cap: nat, n: nat, page: Page)
    requires Younger(all) && matches == (set e | e in all)
    requires n <= |all| && n <= cap && page == Page(Suffix(all, n), last, |all|, n < |all|)
    requires n > 0 ==> Fits(all, last, n)
    requires forall k :: n < k <= Min(cap, |all|) ==> !Fits(all, last, k)
    ensures IsLargest(page, matches, cap)
  {
    PageIsText(page.entries, last, |all|);
    forall e | IsNext(e, page, matches) && n < cap
      ensures |PageText([e] + page.entries, last, |all|)| > 48 * 1024
    {
      NextDoesNotFit(all, last, n, cap, e);
    }
  }

  /** The loop that adds one older entry at a time until the page is full. */
  method FittingCount(all: seq<EntryView>, lastSequence: nat, cap: nat) returns (n: nat)
    requires cap <= |all|
    ensures n <= cap && (n > 0 ==> Fits(all, lastSequence, n))
    ensures forall k :: n < k <= cap ==> !Fits(all, lastSequence, k)
  {
    n := 0;
    while n < cap && Fits(all, lastSequence, n + 1)
      invariant n <= cap && (n > 0 ==> Fits(all, lastSequence, n))
    {
      n := n + 1;
    }
    forall k | n < k <= cap
      ensures !Fits(all, lastSequence, k)
    {
      LongerIsLarger(all, lastSequence, n + 1, k);
    }
  }

  lemma {:induction false} MatchingMembers(es: seq<EntryView>, after: nat, filter: EntryView -> bool)
    ensures forall e :: e in Matching(es, after, filter) <==> e in es && e.sequence > after && filter(e)
  {
    if es != [] {
      MatchingMembers(es[..|es| - 1], after, filter);
      assert es == es[..|es| - 1] + [es[|es| - 1]];
    }
  }
}

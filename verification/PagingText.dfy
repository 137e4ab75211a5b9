/** The JSON text of an inspect page, whose length is the size that the cutting of pages goes by. */
module PagingText {
  import opened Decimals
  import opened Paging
  import opened SnapshotModel
  import opened Wrappers

  /** The summary fields up to the snapshot id, the id, and what replaces an omitted tree, as JSON texts. */
  datatype Texts = Texts(summary: string, snapshotId: string, omitted: string)

  /** The records of the shown elements, separated by commas. */
  function Joined(records: seq<string>): string
  {
    if records == [] then ""
    else
      Joined(records[..|records| - 1]) + (if |records| > 1 then "," else "") + records[|records| - 1]
  }

  function Continuation(t: Texts, end: nat): string
  {
    ",\"nextOffset\":" + Decimal(end) + ",\"continuation\":{\"action\":\"inspect\",\"input\":{\"snapshotId\":" +
    t.snapshotId + ",\"offset\":" + Decimal(end) + "}}"
  }

  /** The page that shows `records`, from `offset` up to `end` of `total`; `tree` is its semantic tree field, if any. */
  function PageText(t: Texts, records: seq<string>, offset: nat, end: nat, total: nat, tree: Option<string>): string
    requires offset <= end <= total
  {
    t.summary + ",\"snapshotId\":" + t.snapshotId + ",\"offset\":" + Decimal(offset) +
    ",\"totalElements\":" + Decimal(total) + ",\"returnedElements\":" + Decimal(end - offset) +
    ",\"elements\":[" + Joined(records) + "]" + (match tree case Some(text) => text case None => t.omitted) +
    ",\"truncated\":" + (if end < total then "true" + Continuation(t, end) else "false") + "}"
  }

  /** The sizes of the parts that do not depend on the cut. */
  function LayoutOf(t: Texts): Layout
  {
    Layout(|t.summary| + |t.snapshotId| + 87, |t.snapshotId| + 84, |t.omitted|)
  }

  ghost predicate AreRecords(es: seq<Element>, records: seq<string>)
  {
    |records| == |es| && forall i :: 0 <= i < |es| ==> |records[i]| == es[i].node.bytes
  }

  lemma {:induction false} ItemsAreText(es: seq<Element>, records: seq<string>)
    requires AreRecords(es, records)
    ensures ItemBytes(es) == |Joined(records)|
  {
    if es != [] {
      ItemsAreText(es[..|es| - 1], records[..|records| - 1]);
    }
  }

  lemma ContinuationLength(t: Texts, end: nat)
    ensures |Continuation(t, end)| == |t.snapshotId| + 84 + 2 * Digits(end)
  {
    DigitsAreText(end);
  }

  /** The size of every page, with or without its tree, is the length of its JSON text. */
  lemma PageIsText(t: Texts, all: seq<Element>, records: seq<string>, offset: nat, end: nat, tree: Option<string>)
    requires offset <= end <= |all| && AreRecords(all[offset..end], records)
    ensures PageBytes(LayoutOf(t), all, offset, end, match tree case None => None case Some(text) => Some(|text|)) ==
            |PageText(t, records, offset, end, |all|, tree)|
  {
    ItemsAreText(all[offset..end], records);
    DigitsAreText(offset);
    DigitsAreText(|all|);
    DigitsAreText(end - offset);
    ContinuationLength(t, end);
  }
}

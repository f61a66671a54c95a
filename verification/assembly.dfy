/**
 * The merge: listing B's rows, then listing A's (`pd.concat`, the two
 * frames having the same seven columns after their renames), nulls filled
 * with "", empty `End Date` and `Notification` columns added, and the
 * nine output columns picked in their fixed order.  Also what the script
 * serialises: the records of listing A alone.
 */
module Assembly {
  import opened Wrappers
  import opened Dicts
  import opened Html
  import opened Calendar
  import opened Keyword
  import opened SubjectMap
  import opened Detail
  import opened Listing
  import opened SourceA
  import opened SourceB

  /** The output columns, in order. */
  const FinalColumns: seq<string> :=
    ["name", "sub", "Location", "Start Date", "End Date", "Abstract Deadline", "Submission Deadline", "Notification", "link"]

  /** One row of `final_df`: every cell a string. */
  datatype Conference = Conference(name: string, sub: string, location: string, start: string, endDate: string,
                                   abstractDeadline: string, submission: string, notification: string, link: string)

  /** A merged row after `fillna('')` and the two added columns. */
  function Filled(l: Listing): (r: Conference)
    ensures r.endDate == "" && r.notification == ""
    ensures Some(r.name) == l.name || (l.name.None? && r.name == "")
    ensures Some(r.sub) == l.sub || (l.sub.None? && r.sub == "")
    ensures Some(r.location) == l.location || (l.location.None? && r.location == "")
    ensures Some(r.start) == l.start || (l.start.None? && r.start == "")
    ensures Some(r.abstractDeadline) == l.abstractDeadline || (l.abstractDeadline.None? && r.abstractDeadline == "")
    ensures Some(r.submission) == l.submission || (l.submission.None? && r.submission == "")
    ensures Some(r.link) == l.link || (l.link.None? && r.link == "")
  {
    Conference(OrEmpty(l.name), OrEmpty(l.sub), OrEmpty(l.location), OrEmpty(l.start), "",
               OrEmpty(l.abstractDeadline), OrEmpty(l.submission), "", OrEmpty(l.link))
  }

  /**
   * `final_df`: listing B's rows first, then listing A's, each filled in;
   * nothing is dropped or reordered.
   */
  function FinalFrame(b: seq<Listing>, a: seq<Listing>): (r: seq<Conference>)
    ensures |r| == |b| + |a|
    ensures forall k :: 0 <= k < |b| ==> r[k] == Filled(b[k])
    ensures forall k :: 0 <= k < |a| ==> r[|b| + k] == Filled(a[k])
  {
    var merged := b + a;
    seq(|merged|, k requires 0 <= k < |merged| => Filled(merged[k]))
  }

  /** No row of the merged frame has a value in `End Date` or `Notification`. */
  lemma FinalFrameEmptyColumns(b: seq<Listing>, a: seq<Listing>)
    ensures forall k :: 0 <= k < |FinalFrame(b, a)| ==> FinalFrame(b, a)[k].endDate == "" && FinalFrame(b, a)[k].notification == ""
  {
    var r := FinalFrame(b, a);
    forall k | 0 <= k < |r| ensures r[k].endDate == "" && r[k].notification == "" {
      if k < |b| {
        assert r[k] == Filled(b[k]);
      } else {
        assert r[|b| + (k - |b|)] == Filled(a[k - |b|]);
      }
    }
  }

  /** A row as a JSON record: its cells under the output columns, in order. */
  function Record(c: Conference): (r: Dict<string>)
    ensures Keys(r) == FinalColumns
  {
    [("name", c.name), ("sub", c.sub), ("Location", c.location), ("Start Date", c.start), ("End Date", c.endDate),
     ("Abstract Deadline", c.abstractDeadline), ("Submission Deadline", c.submission),
     ("Notification", c.notification), ("link", c.link)]
  }

  /** A listing as a JSON record, nulls as `None`. */
  function ListingRecord(l: Listing): (r: Dict<Option<string>>)
    ensures Keys(r) == ListingColumns
  {
    Cells(l)
  }

  /**
   * The whole run: listing A from the tracker table and the reference
   * entries, listing B from the EasyChair table, merged.  Either listing
   * failing is fatal.
   */
  function Run(tableA: Option<seq<seq<Cell>>>, entries: seq<RefEntry>, tableB: Option<seq<seq<Cell>>>,
               parse: string -> Option<ValidDate>, order: seq<string>, fetch: string -> Option<Page>): (r: Option<seq<Conference>>)
    requires Enumerates(order, InterestTerms)
    ensures r.None? <==> ScrapeA(tableA, entries).None? || ScrapeB(tableB, parse, order, fetch).None?
    ensures r.Some? ==> r.value == FinalFrame(ScrapeB(tableB, parse, order, fetch).value, ScrapeA(tableA, entries).value)
  {
    match ScrapeA(tableA, entries)
    case None => None
    case Some(a) =>
      match ScrapeB(tableB, parse, order, fetch)
      case None => None
      case Some(b) => Some(FinalFrame(b, a))
  }

  /** The records of the merged frame: what the run is meant to write. */
  function FinalRecords(rows: seq<Conference>): (r: seq<Dict<string>>)
    ensures |r| == |rows| && forall k :: 0 <= k < |rows| ==> r[k] == Record(rows[k]) && Keys(r[k]) == FinalColumns
  {
    seq(|rows|, k requires 0 <= k < |rows| => Record(rows[k]))
  }

  /** What the script writes as it stands: the records of listing A alone (`df`, not `final_df`). */
  function WrittenRecords(a: seq<Listing>): (r: seq<Dict<Option<string>>>)
    ensures |r| == |a| && forall k :: 0 <= k < |a| ==> Keys(r[k]) == ListingColumns
  {
    seq(|a|, k requires 0 <= k < |a| => ListingRecord(a[k]))
  }

  /**
   * The written file misses every listing-B row and the `End Date` and
   * `Notification` columns: it has fewer records than the merged frame as
   * soon as listing B keeps a row, and none of its records has the output
   * columns.
   */
  lemma WrittenMissesMerge(b: seq<Listing>, a: seq<Listing>)
    ensures |WrittenRecords(a)| == |FinalRecords(FinalFrame(b, a))| - |b|
    ensures forall k :: 0 <= k < |a| ==> "End Date" !in Keys(WrittenRecords(a)[k])
  {
    assert "End Date" !in ListingColumns by {
      assert forall i :: 0 <= i < |ListingColumns| ==> ListingColumns[i] != "End Date" by {
        assert ListingColumns[2][0] == 'L';
      }
    }
  }

  /** A run whose listing B keeps a row writes fewer records than the merge holds. */
  lemma WrittenShort(tableA: Option<seq<seq<Cell>>>, entries: seq<RefEntry>, tableB: Option<seq<seq<Cell>>>,
                     parse: string -> Option<ValidDate>, order: seq<string>, fetch: string -> Option<Page>)
    requires Enumerates(order, InterestTerms)
    requires Run(tableA, entries, tableB, parse, order, fetch).Some?
    requires ScrapeB(tableB, parse, order, fetch).value != []
    ensures |WrittenRecords(ScrapeA(tableA, entries).value)| < |FinalRecords(Run(tableA, entries, tableB, parse, order, fetch).value)|
  {
    WrittenMissesMerge(ScrapeB(tableB, parse, order, fetch).value, ScrapeA(tableA, entries).value);
  }
}

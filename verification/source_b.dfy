/**
 * Listing B: the EasyChair call-for-papers table (`fetch_cfp_table`) and
 * what is done to it before the merge.  Rows with fewer than six cells are
 * skipped; each other row becomes a record of optional texts; the two date
 * columns go through `pd.to_datetime`; `find_sub` labels each row and the
 * unlabelled rows are dropped; the dates are rendered short; and each
 * row's detail page is consulted for the conference link and the abstract
 * deadline.  A missing table, and a table without a single wide enough row
 * (the frame then has no columns), are fatal (`None`).
 */
module SourceB {
  import opened Wrappers
  import opened Text
  import opened Html
  import opened Dicts
  import opened Calendar
  import opened ShortDate
  import opened Keyword
  import opened Detail
  import opened Listing

  /** One row of the table, every field `None` when its text is empty or absent. */
  datatype RowB = RowB(acronym: Option<string>, acronymUrl: Option<string>, name: Option<string>,
                       location: Option<string>, submission: Option<string>, start: Option<string>,
                       topics: Option<string>)

  /** The characters `str.strip("cfp/")` removes from both ends. */
  const UrlTrim: set<char> := {'c', 'f', 'p', '/'}

  /** The acronym: the first anchor's text if there is an anchor, else the cell's text; "" becomes `None`. */
  function Acronym(c: Cell): (r: Option<string>)
    ensures c.anchors != [] ==> r == NoneIfEmpty(GetText(c.anchors[0].strings, ""))
    ensures c.anchors == [] ==> r == NoneIfEmpty(GetText(c.strings, ""))
  {
    match FirstAnchor(c.anchors)
    case Some(a) => NoneIfEmpty(GetText(a.strings, ""))
    case None => NoneIfEmpty(GetText(c.strings, ""))
  }

  /** The detail-page path: the first anchor's `href` with `c`, `f`, `p` and `/` trimmed from both ends. */
  function AcronymUrl(c: Cell): (r: Option<string>)
    ensures r.None? <==> c.anchors == [] || c.anchors[0].href.None?
    ensures r.Some? ==> r.value == StripChars(c.anchors[0].href.value, UrlTrim)
    ensures r.Some? && r.value != "" ==> r.value[0] !in UrlTrim && r.value[|r.value| - 1] !in UrlTrim
  {
    match FirstAnchor(c.anchors)
    case Some(a) => if a.href.Some? then Some(StripChars(a.href.value, UrlTrim)) else None
    case None => None
  }

  /** The trim is by character, so a path "/cfp/cp26" loses the "cp" as well and leaves "26". */
  lemma AcronymUrlOverTrims(c: Cell)
    requires c.anchors != [] && c.anchors[0].href == Some("/cfp/cp26")
    ensures AcronymUrl(c) == Some("26")
  {
    CpPathTrim();
  }

  lemma CpPathTrim()
    ensures StripChars("/cfp/cp26", UrlTrim) == "26"
  {
    CpPathTrimAt("/cfp/cp26");
  }

  lemma CpPathTrimAt(s: string)
    requires Spelled(s, "/cfp/cp26")
    ensures StripChars(s, UrlTrim) == "26"
  {
    assert forall k :: 0 <= k < 7 ==> s[k] == '/' || s[k] == 'c' || s[k] == 'f' || s[k] == 'p';
    StripCharsIs(s, UrlTrim, 7, 9);
    assert s[7..9] == "26";
  }

  /** The tag texts of the topics cell, each `get_text(strip=True)`. */
  function TagTexts(c: Cell): (r: seq<string>)
    ensures |r| == |c.tags| && forall k :: 0 <= k < |r| ==> r[k] == GetText(c.tags[k], "")
  {
    seq(|c.tags|, k requires 0 <= k < |c.tags| => GetText(c.tags[k], ""))
  }

  /** `"; ".join(topics) if topics else None`. */
  function Topics(c: Cell): (r: Option<string>)
    ensures r.None? <==> c.tags == []
    ensures r.Some? ==> r.value == Join(TagTexts(c), "; ")
  {
    if c.tags == [] then None else Some(Join(TagTexts(c), "; "))
  }

  /**
   * Re-reading the joined topics the way `find_sub` does (split on `;`,
   * strip, drop empties) gives back the non-empty tag texts, in order, as
   * long as no tag text holds a `;` itself.
   */
  lemma TopicsReread(c: Cell)
    requires c.tags != []
    requires forall k :: 0 <= k < |c.tags| ==> ';' !in GetText(c.tags[k], "")
    ensures Tags(Topics(c).value) == NonEmpty(TagTexts(c))
  {
    var texts := TagTexts(c);
    forall k | 0 <= k < |texts|
      ensures texts[k] == [] || (!IsSpace(texts[k][0]) && !IsSpace(texts[k][|texts[k]| - 1]))
    {
      GetTextTrimmed(c.tags[k], "");
    }
    TagsOfJoined(texts);
  }

  /** The record one row of at least six cells becomes. */
  function ExtractRowB(tds: seq<Cell>): RowB
    requires |tds| >= 6
  {
    RowB(Acronym(tds[0]), AcronymUrl(tds[0]), NoneIfEmpty(GetText(tds[1].strings, "")),
         NoneIfEmpty(GetText(tds[2].strings, "")), NoneIfEmpty(GetText(tds[3].strings, "")),
         NoneIfEmpty(GetText(tds[4].strings, "")), Topics(tds[5]))
  }

  /**
   * The dict display the loop appends for a row, pair by pair.  The date
   * keys are written twice: first with the `data-key` values `subIso` and
   * `startIso`, then with the texts.
   */
  function Display(r: RowB, subIso: Option<string>, startIso: Option<string>): seq<(string, Option<string>)> {
    [("Acronym", r.acronym), ("Acronym_URL", r.acronymUrl), ("Name", r.name), ("Location", r.location),
     ("Submission_Deadline", subIso), ("Submission_Deadline", r.submission),
     ("Start_Date", startIso), ("Start_Date", r.start), ("Topics", r.topics)]
  }

  /**
   * The display builds a dict whose date entries hold the cell text: the
   * `data-key` value is overwritten by the repeated key, so `RowB` carries
   * exactly what the dict holds.
   */
  lemma DisplayKeepsText(r: RowB, subIso: Option<string>, startIso: Option<string>)
    ensures Get(PutAll(Display(r, subIso, startIso)), "Submission_Deadline") == Some(r.submission)
    ensures Get(PutAll(Display(r, subIso, startIso)), "Start_Date") == Some(r.start)
  {
    var ps := Display(r, subIso, startIso);
    DisplayShape(r, subIso, startIso);
    DisplayGet(ps, "Submission_Deadline", 5);
    DisplayGet(ps, "Start_Date", 7);
  }

  lemma DisplayShape(r: RowB, subIso: Option<string>, startIso: Option<string>)
    ensures var ps := Display(r, subIso, startIso);
      |ps| == 9 && ps[5] == ("Submission_Deadline", r.submission) && ps[7] == ("Start_Date", r.start)
      && (forall j :: 5 < j < 9 ==> |ps[j].0| != 19) && |ps[8].0| != 10
  {
    var ps := Display(r, subIso, startIso);
    assert |ps[6].0| == 10 && |ps[7].0| == 10 && |ps[8].0| == 6;
  }

  lemma DisplayGet(ps: seq<(string, Option<string>)>, k: string, i: nat)
    requires i < |ps| && ps[i].0 == k && forall j :: i < j < |ps| ==> |ps[j].0| != |k|
    ensures Get(PutAll(ps), k) == Some(ps[i].1)
  {
    PutAllGet(ps, k);
    LastValueAt(ps, k, i);
  }

  /** The records of the rows with at least six cells, in order. */
  function RowsB(trs: seq<seq<Cell>>): (r: seq<RowB>)
    ensures |r| <= |trs|
    ensures r == [] <==> forall k :: 0 <= k < |trs| ==> |trs[k]| < 6
  {
    if trs == [] then []
    else
      var rest := RowsB(trs[1..]);
      assert forall k :: 1 <= k < |trs| ==> trs[k] == trs[1..][k - 1];
      if |trs[0]| >= 6 then [ExtractRowB(trs[0])] + rest else rest
  }

  /** Wide rows are kept in table order: the records of a table in two parts are those of each part, in turn. */
  lemma {:induction false} RowsBAppend(a: seq<seq<Cell>>, b: seq<seq<Cell>>)
    ensures RowsB(a + b) == RowsB(a) + RowsB(b)
  {
    if a == [] {
      assert a + b == b;
    } else {
      assert (a + b)[1..] == a[1..] + b;
      RowsBAppend(a[1..], b);
    }
  }

  /** A single row gives its record exactly when it has six cells. */
  lemma RowsBOne(tr: seq<Cell>)
    ensures RowsB([tr]) == if |tr| >= 6 then [ExtractRowB(tr)] else []
  {
    assert [tr][1..] == [];
  }

  /** `pd.to_datetime(..., errors="coerce")` on one cell: a missing or unparseable text is `NaT`. */
  function ToStamp(text: Option<string>, parse: string -> Option<ValidDate>): (r: DateLike)
    ensures r.Missing? <==> text.None? || parse(text.value).None?
    ensures r.Stamp? ==> r.d == parse(text.value).value
    ensures !r.Text?
  {
    if text.None? then Missing
    else match parse(text.value)
      case None => Missing
      case Some(d) => Stamp(d)
  }

  /** A date cell after `to_datetime` and `fmt_date`: "" or the short rendering of the parsed date. */
  lemma ShortDateCell(text: Option<string>, parse: string -> Option<ValidDate>)
    ensures FmtDate(ToStamp(text, parse), parse) ==
      if text.Some? && parse(text.value).Some? then RenderShort(parse(text.value).value) else ""
  {
  }

  /** `find_sub` on a record. */
  function LabelB(order: seq<string>, row: RowB): Option<string>
    requires Enumerates(order, InterestTerms)
  {
    FindSub(row.topics, row.name, order)
  }

  /** `find_sub` as the function `apply` is handed. */
  function Labeler(order: seq<string>): RowB -> Option<string>
    requires Enumerates(order, InterestTerms)
  {
    row => LabelB(order, row)
  }

  /** The rows that survive `dropna(subset=["sub"])`, with their label. */
  function Survivors(rows: seq<RowB>, order: seq<string>): seq<(RowB, string)>
    requires Enumerates(order, InterestTerms)
  {
    Keep(rows, Labeler(order))
  }

  /** A row survives exactly when `find_sub` labels it, and it keeps that label. */
  lemma SurvivorsMembers(rows: seq<RowB>, order: seq<string>, x: RowB)
    requires Enumerates(order, InterestTerms)
    ensures (exists s :: (x, s) in Survivors(rows, order)) <==> x in rows && LabelB(order, x).Some?
    ensures forall k :: 0 <= k < |Survivors(rows, order)| ==>
      LabelB(order, Survivors(rows, order)[k].0) == Some(Survivors(rows, order)[k].1)
  {
    KeepMembers(rows, Labeler(order), x);
  }

  /** The survivors of a sequence of rows are the survivors of its parts, one after the other. */
  lemma SurvivorsAppend(a: seq<RowB>, b: seq<RowB>, order: seq<string>)
    requires Enumerates(order, InterestTerms)
    ensures Survivors(a + b, order) == Survivors(a, order) + Survivors(b, order)
  {
    KeepAppend(a, b, Labeler(order));
  }

  /**
   * The listing a surviving row becomes: acronym as name, its label, the
   * location, the two dates rendered short, and the detail page's abstract
   * deadline and conference link.
   */
  function ListingB(row: RowB, tag: string, parse: string -> Option<ValidDate>,
                    fetch: string -> Option<Page>): (r: Listing)
    ensures r.name == row.acronym && r.sub == Some(tag) && r.location == row.location
    ensures r.start == Some(if row.start.Some? && parse(row.start.value).Some? then RenderShort(parse(row.start.value).value) else "")
    ensures r.submission == Some(if row.submission.Some? && parse(row.submission.value).Some? then RenderShort(parse(row.submission.value).value) else "")
    ensures r.abstractDeadline == Some(FetchAbstractDeadline(row.acronymUrl, fetch, parse))
    ensures r.link == FetchWebsiteFromDetail(row.acronymUrl, fetch)
  {
    ShortDateCell(row.start, parse);
    ShortDateCell(row.submission, parse);
    Listing(row.acronym, Some(tag), row.location, Some(FmtDate(ToStamp(row.start, parse), parse)),
            Some(FetchAbstractDeadline(row.acronymUrl, fetch, parse)),
            Some(FmtDate(ToStamp(row.submission, parse), parse)),
            FetchWebsiteFromDetail(row.acronymUrl, fetch))
  }

  /**
   * Listing B from the table's rows (`None`: no `ct_tbl` table).  `None`
   * when there is no table or no row with six cells; otherwise one listing
   * per surviving row, in table order.
   */
  function ScrapeB(table: Option<seq<seq<Cell>>>, parse: string -> Option<ValidDate>,
                   order: seq<string>, fetch: string -> Option<Page>): (r: Option<seq<Listing>>)
    requires Enumerates(order, InterestTerms)
    ensures r.None? <==> table.None? || forall k :: 0 <= k < |table.value| ==> |table.value[k]| < 6
    ensures r.Some? ==> var kept := Survivors(RowsB(table.value), order);
      |r.value| == |kept| && forall k :: 0 <= k < |kept| ==> r.value[k] == ListingB(kept[k].0, kept[k].1, parse, fetch)
  {
    if table.None? then None
    else
      var rows := RowsB(table.value);
      if rows == [] then None
      else
        var kept := Survivors(rows, order);
        Some(seq(|kept|, k requires 0 <= k < |kept| => ListingB(kept[k].0, kept[k].1, parse, fetch)))
  }

  const PickedB: seq<string> :=
    ["Acronym", "sub", "Location", "Start_Date", "Abstract Deadline", "Submission_Deadline", "link"]

  const RenamingB: map<string, string> :=
    map["Acronym" := "name", "Start_Date" := "Start Date", "Submission_Deadline" := "Submission Deadline"]

  /** After the rename the picked columns are the listing's columns, the same as listing A's. */
  lemma PickedBRenamed()
    ensures Rename(PickedB, RenamingB) == ListingColumns
  {
    assert PickedB[1] !in RenamingB by { assert |PickedB[1]| == 3; }
    assert PickedB[2] !in RenamingB by { assert |PickedB[2]| == 8; }
    assert PickedB[4] !in RenamingB by { assert |PickedB[4]| == 17; }
    assert PickedB[6] !in RenamingB by { assert |PickedB[6]| == 4; }
  }
}

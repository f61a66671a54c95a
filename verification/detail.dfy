/**
 * The two lookups on a conference's detail page (`fetch_website_from_detail`
 * and `fetch_abstract_deadline`).  Both walk the rows of the page's
 * `date_table`, skip rows with fewer than two cells, normalise the first
 * cell's text into a label and stop at the first row whose label they
 * accept.  Fetching and parsing the page is a parameter `fetch`: `None`
 * stands for any failure (bad URL, HTTP error, exception), which both
 * functions turn into their empty answer.
 */
module Detail {
  import opened Wrappers
  import opened Text
  import opened Html
  import opened Calendar
  import opened ShortDate

  /** The `td` cells of each `tr` in `table.date_table`, in document order. */
  type Page = seq<seq<Cell>>

  /** `get_text(" ", strip=True)`, no-break spaces made plain, stripped, lower-cased. */
  function Label(c: Cell): string {
    Lower(Strip(ReplaceChar(GetText(c.strings, " "), '\U{a0}', ' ')))
  }

  /** A label has no no-break space, no whitespace at its ends and no upper-case letter. */
  lemma LabelShape(c: Cell)
    ensures '\U{a0}' !in Label(c)
    ensures Label(c) == [] || (!IsSpace(Label(c)[0]) && !IsSpace(Label(c)[|Label(c)| - 1]))
    ensures forall k :: 0 <= k < |Label(c)| ==> !('A' <= Label(c)[k] <= 'Z')
  {
    var plain := ReplaceChar(GetText(c.strings, " "), '\U{a0}', ' ');
    var t := Strip(plain);
    StripAbsent(plain, '\U{a0}');
    LowerKeepsOthers(t);
  }

  const WebsiteLabels: seq<string> := ["conference link", "conference website", "website", "conference site"]

  predicate IsWebsiteLabel(text: string) {
    exists key :: key in WebsiteLabels && Contains(text, key)
  }

  predicate IsAbstractLabel(text: string) {
    Contains(text, "abstract registration deadline") || Contains(text, "abstract deadline")
  }

  /** A row the loops look at: at least two cells, first cell's label accepted. */
  predicate Accepted(row: seq<Cell>, accept: string -> bool) {
    |row| >= 2 && accept(Label(row[0]))
  }

  /** Index of the first element satisfying `p`. */
  function FirstWhere<T>(xs: seq<T>, p: T -> bool): (r: Option<nat>)
    ensures r.None? <==> forall j :: 0 <= j < |xs| ==> !p(xs[j])
    ensures r.Some? ==> r.value < |xs| && p(xs[r.value])
    ensures r.Some? ==> forall j :: 0 <= j < r.value ==> !p(xs[j])
  {
    if xs == [] then None
    else if p(xs[0]) then Some(0)
    else
      var r := FirstWhere(xs[1..], p);
      assert forall j :: 1 <= j < |xs| ==> xs[j] == xs[1..][j - 1];
      if r.None? then None else Some(r.value + 1)
  }

  /** Index of the first accepted row. */
  function FirstAccepted(rows: Page, accept: string -> bool): (r: Option<nat>)
    ensures r.None? <==> forall j :: 0 <= j < |rows| ==> !Accepted(rows[j], accept)
    ensures r.Some? ==> r.value < |rows| && Accepted(rows[r.value], accept)
    ensures r.Some? ==> forall j :: 0 <= j < r.value ==> !Accepted(rows[j], accept)
  {
    FirstWhere(rows, row => Accepted(row, accept))
  }

  /** The loop of `fetch_website_from_detail`: the first accepted row decides, by its first link. */
  function WebsiteIn(rows: Page): (r: Option<string>)
    ensures FirstAccepted(rows, IsWebsiteLabel).None? ==> r.None?
    ensures FirstAccepted(rows, IsWebsiteLabel).Some? ==> var i := FirstAccepted(rows, IsWebsiteLabel).value;
      r == (if rows[i][1].anchors == [] then None else rows[i][1].anchors[0].href)
  {
    match FirstAccepted(rows, IsWebsiteLabel)
    case None => None
    case Some(i) =>
      match FirstAnchor(rows[i][1].anchors)
      case None => None
      case Some(a) => a.href
  }

  /** `fetch_website_from_detail(rel_url)`; `None` stands for a value that is not a string. */
  function FetchWebsiteFromDetail(relUrl: Option<string>, fetch: string -> Option<Page>): (r: Option<string>)
    ensures relUrl.None? || relUrl.value == "" ==> r.None?
    ensures relUrl.Some? && relUrl.value != "" && fetch(relUrl.value).None? ==> r.None?
    ensures relUrl.Some? && relUrl.value != "" && fetch(relUrl.value).Some? ==> r == WebsiteIn(fetch(relUrl.value).value)
  {
    if relUrl.None? || relUrl.value == "" then None
    else match fetch(relUrl.value)
      case None => None
      case Some(page) => WebsiteIn(page)
  }

  /**
   * Once a row is accepted, nothing after it matters: a later row with a
   * link cannot supply one the first accepted row lacked.
   */
  lemma WebsiteStopsAtFirst(rows: Page, later: Page)
    requires FirstAccepted(rows, IsWebsiteLabel).Some?
    ensures WebsiteIn(rows + later) == WebsiteIn(rows)
  {
    FirstAcceptedPrefix(rows, later, IsWebsiteLabel);
  }

  lemma FirstAcceptedPrefix(rows: Page, later: Page, accept: string -> bool)
    requires FirstAccepted(rows, accept).Some?
    ensures FirstAccepted(rows + later, accept) == FirstAccepted(rows, accept)
    ensures var i := FirstAccepted(rows, accept).value; (rows + later)[i] == rows[i]
  {
    FirstWherePrefix(rows, later, row => Accepted(row, accept));
  }

  /** The first hit inside a prefix is the first hit of the whole. */
  lemma FirstWherePrefix<T>(xs: seq<T>, later: seq<T>, p: T -> bool)
    requires FirstWhere(xs, p).Some?
    ensures FirstWhere(xs + later, p) == FirstWhere(xs, p)
  {
    var i := FirstWhere(xs, p).value;
    var all := xs + later;
    assert forall j :: 0 <= j <= i ==> all[j] == xs[j];
    FirstWhereIs(all, p, i);
  }

  lemma {:induction false} FirstWhereIs<T>(xs: seq<T>, p: T -> bool, i: nat)
    requires i < |xs| && p(xs[i]) && forall j :: 0 <= j < i ==> !p(xs[j])
    ensures FirstWhere(xs, p) == Some(i)
    decreases i
  {
    if i > 0 {
      assert forall j :: 0 <= j < i - 1 ==> xs[1..][j] == xs[j + 1];
      FirstWhereIs(xs[1..], p, i - 1);
    }
  }

  /** The loop of `fetch_abstract_deadline`: the first accepted row's second cell, as a short date. */
  function AbstractIn(rows: Page, parse: string -> Option<ValidDate>): (r: string)
    ensures FirstAccepted(rows, IsAbstractLabel).None? ==> r == ""
    ensures FirstAccepted(rows, IsAbstractLabel).Some? ==> var i := FirstAccepted(rows, IsAbstractLabel).value;
      var text := GetText(rows[i][1].strings, " ");
      r == if text != "" && parse(text).Some? then RenderShort(parse(text).value) else ""
  {
    match FirstAccepted(rows, IsAbstractLabel)
    case None => ""
    case Some(i) => ShortMonthDayYear(GetText(rows[i][1].strings, " "), parse)
  }

  /** `fetch_abstract_deadline(rel_url)`. */
  function FetchAbstractDeadline(relUrl: Option<string>, fetch: string -> Option<Page>,
                                 parse: string -> Option<ValidDate>): (r: string)
    ensures relUrl.None? || relUrl.value == "" ==> r == ""
    ensures relUrl.Some? && relUrl.value != "" && fetch(relUrl.value).None? ==> r == ""
    ensures relUrl.Some? && relUrl.value != "" && fetch(relUrl.value).Some? ==> r == AbstractIn(fetch(relUrl.value).value, parse)
  {
    if relUrl.None? || relUrl.value == "" then ""
    else match fetch(relUrl.value)
      case None => ""
      case Some(page) => AbstractIn(page, parse)
  }

  /** Rows with fewer than two cells are never consulted, whatever their label. */
  lemma ShortRowsIgnored(rows: Page, accept: string -> bool, i: nat)
    requires i < |rows| && |rows[i]| < 2
    ensures FirstAccepted(rows, accept).Some? ==> FirstAccepted(rows, accept).value != i
  {
  }
}

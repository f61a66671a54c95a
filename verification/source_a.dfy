/**
 * Listing A: the first `<table>` of the conference tracker page.  Its first
 * row gives the column headers; every later row with at least one cell
 * becomes a dict from header to cell text.  Placeholders are cleared, each
 * conference name is labelled through the reference subject map, the two
 * deadline columns are cleaned, and the seven listing columns are picked
 * and renamed.  A missing table, a missing header row, or a column the
 * later steps need being absent is fatal (`None`).
 */
module SourceA {
  import opened Wrappers
  import opened Text
  import opened Html
  import opened Dicts
  import opened SubjectMap
  import opened Deadline
  import opened Listing
  import opened NameKey

  const BlackDownTriangle: char := '\U{25bc}'

  /** `c.get_text(strip=True).replace("▼", "")`. */
  function HeaderName(c: Cell): (r: string)
    ensures BlackDownTriangle !in r
    ensures BlackDownTriangle !in GetText(c.strings, "") ==> r == GetText(c.strings, "")
  {
    RemoveChar(GetText(c.strings, ""), BlackDownTriangle)
  }

  /**
   * A header cell holding a name followed by the sort marker gives the
   * name: every other character stays, in order.
   */
  lemma HeaderNameMarked(t: string)
    requires BlackDownTriangle !in t && (t == [] || !IsSpace(t[0]))
    ensures HeaderName(Cell([t + [BlackDownTriangle]], [], None, [])) == t
  {
    var x := t + [BlackDownTriangle];
    assert x[0] == if t == [] then BlackDownTriangle else t[0];
    StripTrimmed(x);
    PiecesOne(x);
    assert !AllWhere(x, IsSpace) by { assert !IsSpace(x[|x| - 1]); }
    RemoveCharAppend(t, [BlackDownTriangle], BlackDownTriangle);
    RemoveCharOne(BlackDownTriangle, BlackDownTriangle);
  }

  /** The tracker's sortable name column: "Conf. Name▼" names the column "Conf. Name". */
  lemma ConfNameHeader()
    ensures HeaderName(Cell(["Conf. Name\U{25bc}"], [], None, [])) == "Conf. Name"
  {
    assert "Conf. Name\U{25bc}" == "Conf. Name" + [BlackDownTriangle];
    HeaderNameMarked("Conf. Name");
  }

  /** `col.strip().lower().startswith("website")`. */
  predicate IsWebsiteColumn(h: string) {
    "website" <= Lower(Strip(h))
  }

  /**
   * The value column `h` takes from the `i`-th cell: "" past the last cell;
   * in a website column the stripped `href` of the first linked anchor, or
   * else the cell's text run together; in any other column the text joined
   * by single spaces.
   */
  function CellValue(h: string, cells: seq<Cell>, i: nat): (r: string)
    ensures i >= |cells| ==> r == ""
    ensures i < |cells| && !IsWebsiteColumn(h) ==> r == GetText(cells[i].strings, " ")
    ensures i < |cells| && IsWebsiteColumn(h) && FirstLinked(cells[i].anchors).None? ==> r == GetText(cells[i].strings, "")
    ensures i < |cells| && IsWebsiteColumn(h) && FirstLinked(cells[i].anchors).Some? ==>
      r == Strip(FirstLinked(cells[i].anchors).value.href.value)
  {
    if i >= |cells| then ""
    else if IsWebsiteColumn(h) then
      match FirstLinked(cells[i].anchors)
      case Some(a) => Strip(a.href.value)
      case None => GetText(cells[i].strings, "")
    else GetText(cells[i].strings, " ")
  }

  /** An extracted value never has whitespace at either end. */
  lemma CellValueTrimmed(h: string, cells: seq<Cell>, i: nat)
    ensures var r := CellValue(h, cells, i); r == [] || (!IsSpace(r[0]) && !IsSpace(r[|r| - 1]))
  {
    if i >= |cells| {
    } else if !IsWebsiteColumn(h) {
      GetTextTrimmed(cells[i].strings, " ");
    } else if FirstLinked(cells[i].anchors).None? {
      GetTextTrimmed(cells[i].strings, "");
    }
  }

  /** The assignments the row loop makes, in order: one per header. */
  function Pairs(headers: seq<string>, cells: seq<Cell>): (r: seq<(string, string)>)
    ensures |r| == |headers| && forall k :: 0 <= k < |headers| ==> r[k] == (headers[k], CellValue(headers[k], cells, k))
  {
    seq(|headers|, k requires 0 <= k < |headers| => (headers[k], CellValue(headers[k], cells, k)))
  }

  /** One data row as the dict the loop builds; a repeated header keeps its last value. */
  function ExtractRow(headers: seq<string>, cells: seq<Cell>): Dict<string> {
    PutAll(Pairs(headers, cells))
  }

  /** Position of the last occurrence of `x` in `xs`. */
  function LastIndex(xs: seq<string>, x: string): (i: nat)
    requires x in xs
    ensures i < |xs| && xs[i] == x && forall j :: i < j < |xs| ==> xs[j] != x
  {
    if xs[|xs| - 1] == x then |xs| - 1
    else
      assert x in xs[..|xs| - 1] by { var j :| 0 <= j < |xs| && xs[j] == x; assert xs[..|xs| - 1][j] == x; }
      LastIndex(xs[..|xs| - 1], x)
  }

  /** Every row has exactly the header keys, each once, in the headers' first-occurrence order. */
  lemma ExtractRowKeys(headers: seq<string>, cells: seq<Cell>)
    ensures Keys(ExtractRow(headers, cells)) == Unique(headers)
  {
    var ps := Pairs(headers, cells);
    BuildKeys(ps);
    assert Keys(ps) == headers;
  }

  /**
   * A header's value comes from the cell under its last occurrence; for a
   * header past the last cell that is "".
   */
  lemma ExtractRowGet(headers: seq<string>, cells: seq<Cell>, h: string)
    requires h in headers
    ensures Get(ExtractRow(headers, cells), h) == Some(CellValue(h, cells, LastIndex(headers, h)))
  {
    var ps := Pairs(headers, cells);
    PutAllGet(ps, h);
    LastValueAt(ps, h, LastIndex(headers, h));
  }

  /** `df.replace({"Click Here": "", "Missing value": ""})`, then `.astype(str).str.strip().replace({"nan": ""})`. */
  function CleanValue(v: string): (r: string)
    ensures r == [] || (!IsSpace(r[0]) && !IsSpace(r[|r| - 1]))
    ensures r != "nan"
    ensures v == "Click Here" || v == "Missing value" || Strip(v) == "nan" ==> r == ""
  {
    var t := Strip(if v == "Click Here" || v == "Missing value" then "" else v);
    if t == "nan" then "" else t
  }

  /**
   * On an already trimmed value, the placeholders and "nan" become "" and
   * any other value is kept as it is.
   */
  lemma CleanTrimmedValue(v: string)
    requires v == [] || (!IsSpace(v[0]) && !IsSpace(v[|v| - 1]))
    ensures CleanValue(v) == if v in {"Click Here", "Missing value", "nan"} then "" else v
  {
    StripTrimmed(v);
    assert Strip("") == "" by { assert AllWhere("", IsSpace); }
  }

  /** The header row's names. */
  function Headers(headerRow: seq<Cell>): (r: seq<string>)
    ensures |r| == |headerRow| && forall k :: 0 <= k < |r| ==> r[k] == HeaderName(headerRow[k])
  {
    seq(|headerRow|, k requires 0 <= k < |headerRow| => HeaderName(headerRow[k]))
  }

  /** `find_all("tr")[1:]` without the rows that have no cells. */
  function DataCells(trs: seq<seq<Cell>>): (r: seq<seq<Cell>>)
    requires trs != []
    ensures |r| <= |trs| - 1
    ensures forall k :: 0 <= k < |r| ==> r[k] != [] && r[k] in trs[1..]
    ensures forall tr :: tr in trs[1..] && tr != [] ==> tr in r
  {
    NonEmptyRows(trs[1..])
  }

  function NonEmptyRows(trs: seq<seq<Cell>>): (r: seq<seq<Cell>>)
    ensures |r| <= |trs|
    ensures forall k :: 0 <= k < |r| ==> r[k] != [] && r[k] in trs
    ensures forall tr :: tr in trs && tr != [] ==> tr in r
  {
    if trs == [] then []
    else
      var rest := NonEmptyRows(trs[1..]);
      assert forall tr :: tr in trs ==> tr == trs[0] || tr in trs[1..];
      if trs[0] == [] then rest else [trs[0]] + rest
  }

  /** Rows are kept in table order: the kept rows of a table in two parts are those of each part, in turn. */
  lemma {:induction false} NonEmptyRowsAppend(a: seq<seq<Cell>>, b: seq<seq<Cell>>)
    ensures NonEmptyRows(a + b) == NonEmptyRows(a) + NonEmptyRows(b)
  {
    if a == [] {
      assert a + b == b;
    } else {
      assert (a + b)[1..] == a[1..] + b;
      NonEmptyRowsAppend(a[1..], b);
    }
  }

  /** A single row is kept, once, exactly when it has a cell. */
  lemma NonEmptyRowsOne(tr: seq<Cell>)
    ensures NonEmptyRows([tr]) == if tr == [] then [] else [tr]
  {
    assert [tr][1..] == [];
  }

  /** Rows further down the table come after, in their own order, among the data rows. */
  lemma DataCellsAppend(trs: seq<seq<Cell>>, more: seq<seq<Cell>>)
    requires trs != []
    ensures DataCells(trs + more) == DataCells(trs) + NonEmptyRows(more)
  {
    assert (trs + more)[1..] == trs[1..] + more;
    NonEmptyRowsAppend(trs[1..], more);
  }

  /** The columns read after the frame is built; any of them missing raises `KeyError`. */
  const Needed: seq<string> :=
    ["Conf. Name", "Location", "Start Date", "Abstract Deadline", "Submission Deadline", "Website"]

  /** The columns `df[[...]]` picks, before the rename. */
  const Picked: seq<string> :=
    ["Conf. Name", "sub", "Location", "Start Date", "Abstract Deadline", "Submission Deadline", "Website"]

  const Renaming: map<string, string> := map["Conf. Name" := "name", "Website" := "link"]

  /** After the rename the picked columns are the listing's columns. */
  lemma PickedRenamed()
    ensures Rename(Picked, Renaming) == ListingColumns
  {
    var r := Rename(Picked, Renaming);
    assert Picked[1] !in Renaming by { assert |Picked[1]| == 3; }
    assert Picked[2] !in Renaming by { assert Picked[2][0] == 'L'; }
    assert Picked[3] !in Renaming by { assert |Picked[3]| == 10; }
    assert Picked[4] !in Renaming by { assert |Picked[4]| == 17; }
    assert Picked[5] !in Renaming by { assert |Picked[5]| == 19; }
  }

  /**
   * Listing A from the table's rows (`None`: no table), labelled through the
   * reference entries.  `None` when the table or its header row is missing,
   * when no row has a cell (the frame then has no columns at all), or when a
   * needed header is absent; otherwise one listing per data row.
   */
  function ScrapeA(table: Option<seq<seq<Cell>>>, entries: seq<RefEntry>): (r: Option<seq<Listing>>)
    ensures r.None? <==> (table.None? || table.value == [] || DataCells(table.value) == []
      || exists c :: c in Needed && c !in Headers(table.value[0]))
    ensures r.Some? ==> forall c :: c in Needed ==> c in Headers(table.value[0])
    ensures r.Some? ==> r.value == Listings(Headers(table.value[0]), DataCells(table.value), NormMap(BuildNameToSub(entries)))
  {
    if table.None? || table.value == [] then None
    else
      var headers := Headers(table.value[0]);
      var data := DataCells(table.value);
      if data == [] || exists c :: c in Needed && c !in headers then None
      else Some(Listings(headers, data, NormMap(BuildNameToSub(entries))))
  }

  /** The listings of the data rows, in order. */
  function Listings(headers: seq<string>, data: seq<seq<Cell>>, m: Dict<string>): (r: seq<Listing>)
    requires forall c :: c in Needed ==> c in headers
    ensures |r| == |data| && forall k :: 0 <= k < |data| ==> r[k] == RowListing(headers, data[k], m)
  {
    seq(|data|, k requires 0 <= k < |data| => RowListing(headers, data[k], m))
  }

  /**
   * The listing of one data row: the row's cleaned values under the picked
   * headers, the name's label from `m`, and the two deadlines cleaned.
   */
  function RowListing(headers: seq<string>, cells: seq<Cell>, m: Dict<string>): Listing
    requires forall c :: c in Needed ==> c in headers
  {
    NeededIn(headers);
    var name := RowValue(headers, cells, "Conf. Name");
    Listing(Some(name), Some(Lookup(m, name)), Some(RowValue(headers, cells, "Location")),
            Some(RowValue(headers, cells, "Start Date")),
            Some(CleanDeadline(Some(RowValue(headers, cells, "Abstract Deadline")))),
            Some(CleanDeadline(Some(RowValue(headers, cells, "Submission Deadline")))),
            Some(RowValue(headers, cells, "Website")))
  }

  lemma NeededIn(headers: seq<string>)
    requires forall c :: c in Needed ==> c in headers
    ensures "Conf. Name" in headers && "Location" in headers && "Start Date" in headers
    ensures "Abstract Deadline" in headers && "Submission Deadline" in headers && "Website" in headers
  {
    assert "Conf. Name" in Needed && "Location" in Needed && "Start Date" in Needed;
    assert "Abstract Deadline" in Needed && "Submission Deadline" in Needed && "Website" in Needed;
  }

  /** The cleaned value a row holds under header `h` (`df.loc[row, h]`, see `CleanRowGet`). */
  function RowValue(headers: seq<string>, cells: seq<Cell>, h: string): string
    requires h in headers
  {
    CleanValue(CellValue(h, cells, LastIndex(headers, h)))
  }

  lemma CleanRowGet(headers: seq<string>, cells: seq<Cell>, h: string)
    requires h in headers
    ensures Get(MapValues(ExtractRow(headers, cells), CleanValue), h) == Some(RowValue(headers, cells, h))
  {
    ExtractRowGet(headers, cells, h);
    GetMapValues(ExtractRow(headers, cells), CleanValue, h);
  }

  /**
   * Every listing of A keeps its row: it is labelled with the subject the
   * reference map gives its name, and with "" when no reference entry's
   * key normalises to the name's lookup key.
   */
  lemma ScrapeALabel(table: Option<seq<seq<Cell>>>, entries: seq<RefEntry>, k: nat)
    requires ScrapeA(table, entries).Some? && k < |ScrapeA(table, entries).value|
    ensures var l := ScrapeA(table, entries).value[k];
      l.name.Some? && l.sub == Some(Lookup(NormMap(BuildNameToSub(entries)), l.name.value))
    ensures var l := ScrapeA(table, entries).value[k];
      (forall e :: e in entries && KeyOf(e) != "" ==> Normalize(KeyOf(e)) != Normalize(l.name.value)) ==> l.sub == Some("")
  {
    var l := ScrapeA(table, entries).value[k];
    LabelFromEntries(entries, l.name.value);
  }

  /** `unmatched` over listing A: the names labelled "", each once. */
  function UnmatchedA(ls: seq<Listing>): (r: seq<string>)
    requires forall k :: 0 <= k < |ls| ==> ls[k].name.Some? && ls[k].sub.Some?
    ensures Distinct(r)
    ensures forall x :: x in r <==> exists k :: 0 <= k < |ls| && ls[k].name == Some(x) && ls[k].sub == Some("")
  {
    var names := seq(|ls|, k requires 0 <= k < |ls| => ls[k].name.value);
    var subs := seq(|ls|, k requires 0 <= k < |ls| => ls[k].sub.value);
    assert forall k :: 0 <= k < |ls| ==> ls[k].name == Some(names[k]) && ls[k].sub == Some(subs[k]);
    Unmatched(names, subs)
  }
}

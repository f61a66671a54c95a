/**
 * The seven-column conference listing both sources are cut down to before
 * they are merged: name, sub, Location, Start Date, Abstract Deadline,
 * Submission Deadline, link.  `None` is a null cell (Python `None` or NaN).
 */
module Listing {
  import opened Wrappers
  import opened Dicts

  datatype Listing = Listing(name: Option<string>, sub: Option<string>, location: Option<string>,
                             start: Option<string>, abstractDeadline: Option<string>,
                             submission: Option<string>, link: Option<string>)

  /** The column names of a listing, in their order. */
  const ListingColumns: seq<string> :=
    ["name", "sub", "Location", "Start Date", "Abstract Deadline", "Submission Deadline", "link"]

  /** `rename(columns=m)`: a column named by a key of `m` takes its value; the others keep their name. */
  function Rename(cols: seq<string>, m: map<string, string>): (r: seq<string>)
    ensures |r| == |cols|
    ensures forall k :: 0 <= k < |cols| ==> r[k] == (if cols[k] in m then m[cols[k]] else cols[k])
  {
    seq(|cols|, k requires 0 <= k < |cols| => if cols[k] in m then m[cols[k]] else cols[k])
  }

  /** The listing's cells, paired with their column names. */
  function Cells(l: Listing): (r: Dict<Option<string>>)
    ensures Keys(r) == ListingColumns
  {
    [("name", l.name), ("sub", l.sub), ("Location", l.location), ("Start Date", l.start),
     ("Abstract Deadline", l.abstractDeadline), ("Submission Deadline", l.submission), ("link", l.link)]
  }
}

/**
 * What the scraper reads from parsed HTML, already extracted: a table cell
 * is its text nodes in document order, the `<a>` elements inside it, its
 * `data-key` attribute and the text nodes of each `<span class="tag">`
 * inside it.  The tree walk itself belongs to the HTML parser and is not
 * part of this model; `get_text` and `find("a")` are.
 */
module Html {
  import opened Wrappers
  import opened Text

  datatype Anchor = Anchor(strings: seq<string>, href: Option<string>)

  datatype Cell = Cell(strings: seq<string>, anchors: seq<Anchor>, dataKey: Option<string>, tags: seq<seq<string>>)

  /** `get_text(sep, strip=True)`. */
  function GetText(strings: seq<string>, sep: string): string {
    Join(Pieces(strings), sep)
  }

  /** With an empty or one-space separator the text has no whitespace at either end. */
  lemma GetTextTrimmed(strings: seq<string>, sep: string)
    requires sep == "" || sep == " "
    ensures var r := GetText(strings, sep); r == [] || (!IsSpace(r[0]) && !IsSpace(r[|r| - 1]))
    ensures GetText(strings, sep) == "" <==> forall k :: 0 <= k < |strings| ==> Strip(strings[k]) == ""
  {
    GetTextEnds(strings, sep);
    GetTextEmpty(strings, sep);
  }

  lemma GetTextEnds(strings: seq<string>, sep: string)
    requires sep == "" || sep == " "
    ensures var r := GetText(strings, sep); r == [] || (!IsSpace(r[0]) && !IsSpace(r[|r| - 1]))
  {
    JoinTrimmed(Pieces(strings), sep);
  }

  lemma GetTextEmpty(strings: seq<string>, sep: string)
    ensures GetText(strings, sep) == "" <==> forall k :: 0 <= k < |strings| ==> Strip(strings[k]) == ""
  {
    JoinTrimmed(Pieces(strings), sep);
    PiecesEmpty(strings);
  }

  /** Joining trimmed, non-empty pieces gives a trimmed text, empty only if there were no pieces. */
  lemma {:induction false} JoinTrimmed(ps: seq<string>, sep: string)
    requires forall k :: 0 <= k < |ps| ==> ps[k] != [] && !IsSpace(ps[k][0]) && !IsSpace(ps[k][|ps[k]| - 1])
    ensures var r := Join(ps, sep); r == [] <==> ps == []
    ensures var r := Join(ps, sep); r != [] ==> r[0] == ps[0][0] && r[|r| - 1] == ps[|ps| - 1][|ps[|ps| - 1]| - 1]
    ensures var r := Join(ps, sep); r == [] || (!IsSpace(r[0]) && !IsSpace(r[|r| - 1]))
  {
    if |ps| > 1 {
      JoinTrimmed(ps[1..], sep);
      var rest := Join(ps[1..], sep);
      assert Join(ps, sep) == ps[0] + sep + rest;
      assert ps[1..][|ps[1..]| - 1] == ps[|ps| - 1];
    }
  }

  /** `find("a")`: the first anchor, with or without an `href`. */
  function FirstAnchor(anchors: seq<Anchor>): (r: Option<Anchor>)
    ensures r.None? <==> anchors == []
    ensures r.Some? ==> r.value == anchors[0]
  {
    if anchors == [] then None else Some(anchors[0])
  }

  /** `find("a", href=True)`: the first anchor that has an `href`. */
  function FirstLinked(anchors: seq<Anchor>): (r: Option<Anchor>)
    ensures r.None? <==> forall k :: 0 <= k < |anchors| ==> anchors[k].href.None?
    ensures r.Some? ==> r.value.href.Some?
    ensures r.Some? ==> exists i :: 0 <= i < |anchors| && anchors[i] == r.value && forall j :: 0 <= j < i ==> anchors[j].href.None?
  {
    if anchors == [] then None
    else if anchors[0].href.Some? then Some(anchors[0])
    else
      var r := FirstLinked(anchors[1..]);
      assert forall k :: 1 <= k < |anchors| ==> anchors[k] == anchors[1..][k - 1];
      assert r.Some? ==> exists i :: (0 <= i < |anchors[1..]| && anchors[1..][i] == r.value
        && (forall j :: 0 <= j < i ==> anchors[1..][j].href.None?) && anchors[i + 1] == anchors[1..][i]);
      r
  }
}

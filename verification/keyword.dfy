/**
 * `find_sub`: the subject a listing-B row is filed under.  A topic tag that
 * contains an interest term wins (the first such tag, verbatim); failing
 * that, an interest term found in the conference name; failing that,
 * nothing, and the row is dropped.  The interest terms form a Python set,
 * whose iteration order is not specified: it is a parameter `order` that
 * lists the set, and no contract depends on which order it is.
 */
module Keyword {
  import opened Wrappers
  import opened Text

  const InterestTerms: set<string> :=
    {"5g", "6g", "communication", "network", "wireless", "security", "privacy", "signal"}

  /** `order` lists every element of `terms` exactly once. */
  predicate Enumerates(order: seq<string>, terms: set<string>) {
    (forall t :: t in order ==> t in terms) && (forall t :: t in terms ==> t in order)
    && forall i, j :: 0 <= i < j < |order| ==> order[i] != order[j]
  }

  /** `term.lower() in text.lower()`. */
  predicate Hit(text: string, term: string) {
    Contains(Lower(text), Lower(term))
  }

  /** The non-empty `;`-separated tags of a topics cell, each stripped. */
  function Tags(topics: string): seq<string> {
    Pieces(Split(topics, ';'))
  }

  /** Some term of `order` occurs in `text`. */
  predicate AnyHit(text: string, order: seq<string>) {
    exists t :: t in order && Hit(text, t)
  }

  /** The first tag that contains a term, searching the terms in `order`. */
  function FirstTag(tags: seq<string>, order: seq<string>): (r: Option<string>)
    ensures r.None? <==> forall k :: 0 <= k < |tags| ==> !AnyHit(tags[k], order)
    ensures r.Some? ==> exists i :: (0 <= i < |tags| && tags[i] == r.value && AnyHit(tags[i], order)
      && forall j :: 0 <= j < i ==> !AnyHit(tags[j], order))
  {
    if tags == [] then None
    else if FirstTerm(tags[0], order).Some? then Some(tags[0])
    else
      var r := FirstTag(tags[1..], order);
      assert forall k :: 1 <= k < |tags| ==> tags[k] == tags[1..][k - 1];
      assert r.Some? ==> exists i :: (0 <= i < |tags[1..]| && tags[1..][i] == r.value && AnyHit(tags[1..][i], order)
        && (forall j :: 0 <= j < i ==> !AnyHit(tags[1..][j], order)) && tags[i + 1] == tags[1..][i]);
      r
  }

  /** The first term of `order` that occurs in `text`. */
  function FirstTerm(text: string, order: seq<string>): (r: Option<string>)
    ensures r.None? <==> !AnyHit(text, order)
    ensures r.Some? ==> r.value in order && Hit(text, r.value)
  {
    if order == [] then None
    else if Hit(text, order[0]) then Some(order[0])
    else
      var r := FirstTerm(text, order[1..]);
      assert forall t :: t in order[1..] ==> t in order;
      assert forall t :: t in order ==> t == order[0] || t in order[1..];
      r
  }

  /**
   * `find_sub(row)` on the row's Topics and Name cells (`None` when the
   * cell is missing).
   */
  function FindSub(topics: Option<string>, name: Option<string>, order: seq<string>): (r: Option<string>)
    requires Enumerates(order, InterestTerms)
    ensures topics.Some? && FirstTag(Tags(topics.value), order).Some? ==> r == FirstTag(Tags(topics.value), order)
    ensures r.Some? && (topics.None? || FirstTag(Tags(topics.value), order).None?) ==>
      name.Some? && r.value in InterestTerms && Contains(Lower(name.value), r.value)
    ensures r.None? <==>
      (topics.None? || forall k :: 0 <= k < |Tags(topics.value)| ==> !AnyHit(Tags(topics.value)[k], order))
      && (name.None? || forall t :: t in InterestTerms ==> !Contains(Lower(name.value), t))
  {
    TermsAreLower();
    var fromTags := if topics.Some? then FirstTag(Tags(topics.value), order) else None;
    if fromTags.Some? then fromTags
    else if name.Some? then FirstTerm(name.value, order)
    else None
  }

  /** A label `find_sub` gives is never empty: tags are non-empty, and so is every term. */
  lemma FindSubNonEmpty(topics: Option<string>, name: Option<string>, order: seq<string>)
    requires Enumerates(order, InterestTerms)
    ensures FindSub(topics, name, order).Some? ==> FindSub(topics, name, order).value != ""
  {
    if topics.Some? && FirstTag(Tags(topics.value), order).Some? {
      FirstTagNonEmpty(Tags(topics.value), order);
    } else if name.Some? && FirstTerm(name.value, order).Some? {
      TermsNonEmpty();
      assert FirstTerm(name.value, order).value in InterestTerms;
    }
  }

  lemma FirstTagNonEmpty(tags: seq<string>, order: seq<string>)
    requires forall k :: 0 <= k < |tags| ==> tags[k] != ""
    ensures FirstTag(tags, order).Some? ==> FirstTag(tags, order).value != ""
  {
  }

  lemma TermsNonEmpty()
    ensures forall t :: t in InterestTerms ==> |t| > 0
  {
  }

  /** Every interest term is already lower case. */
  lemma TermsAreLower()
    ensures forall t :: t in InterestTerms ==> Lower(t) == t
  {
    forall t | t in InterestTerms ensures Lower(t) == t {
      LowerIdentity(t);
    }
  }

  lemma LowerIdentity(t: string)
    requires forall k :: 0 <= k < |t| ==> !('A' <= t[k] <= 'Z')
    ensures Lower(t) == t
  {
  }

  /** The rows `find_sub` labels, with their label, in their original order; the rest are dropped. */
  function Keep<R>(rows: seq<R>, labelOf: R -> Option<string>): (r: seq<(R, string)>)
    ensures forall k :: 0 <= k < |r| ==> labelOf(r[k].0) == Some(r[k].1)
    ensures |r| <= |rows|
  {
    if rows == [] then []
    else
      var rest := Keep(rows[1..], labelOf);
      match labelOf(rows[0])
      case None => rest
      case Some(s) => [(rows[0], s)] + rest
  }

  /** Dropping unlabelled rows works piecewise, so survivors keep their relative order. */
  lemma {:induction false} KeepAppend<R>(a: seq<R>, b: seq<R>, labelOf: R -> Option<string>)
    ensures Keep(a + b, labelOf) == Keep(a, labelOf) + Keep(b, labelOf)
    decreases |a|
  {
    if a != [] {
      assert (a + b)[1..] == a[1..] + b;
      KeepAppend(a[1..], b, labelOf);
    } else {
      assert a + b == b;
    }
  }

  /** A row survives exactly when it has a label. */
  lemma {:induction false} KeepMembers<R>(rows: seq<R>, labelOf: R -> Option<string>, x: R)
    ensures (exists s :: (x, s) in Keep(rows, labelOf)) <==> x in rows && labelOf(x).Some?
    decreases |rows|
  {
    if rows != [] {
      KeepMembers(rows[1..], labelOf, x);
      assert x in rows <==> x == rows[0] || x in rows[1..];
      if x == rows[0] && labelOf(x).Some? {
        assert (x, labelOf(x).value) in Keep(rows, labelOf);
      }
    }
  }

  /** No tag produced from a topics cell is empty, has whitespace at its ends, or holds a ';'. */
  lemma TagsShape(topics: string)
    ensures forall k :: 0 <= k < |Tags(topics)| ==> var t := Tags(topics)[k];
      t != "" && !IsSpace(t[0]) && !IsSpace(t[|t| - 1]) && ';' !in t
  {
    SplitPiecesFree(topics, ';');
    PiecesNoSeparator(Split(topics, ';'));
  }

  /** Stripping never brings in a ';', so pieces of ';'-free parts are ';'-free. */
  lemma {:induction false} PiecesNoSeparator(parts: seq<string>)
    requires forall j :: 0 <= j < |parts| ==> ';' !in parts[j]
    ensures forall k :: 0 <= k < |Pieces(parts)| ==> ';' !in Pieces(parts)[k]
  {
    if parts != [] {
      PiecesNoSeparator(parts[1..]);
      StripAbsent(parts[0], ';');
      var t := Strip(parts[0]);
      var rest := Pieces(parts[1..]);
      if t != "" {
        assert Pieces(parts) == [t] + rest;
        assert forall k :: 1 <= k < |rest| + 1 ==> Pieces(parts)[k] == rest[k - 1];
      }
    }
  }

  /** The non-empty strings of a list, in order. */
  function NonEmpty(xs: seq<string>): seq<string> {
    if xs == [] then [] else (if xs[0] == "" then [] else [xs[0]]) + NonEmpty(xs[1..])
  }

  /**
   * Joining trimmed, `;`-free tag texts with "; " and re-reading the cell
   * gives back the non-empty tags, in order.
   */
  lemma TagsOfJoined(topics: seq<string>)
    requires forall k :: 0 <= k < |topics| ==> ';' !in topics[k]
    requires forall k :: 0 <= k < |topics| ==> topics[k] == [] || (!IsSpace(topics[k][0]) && !IsSpace(topics[k][|topics[k]| - 1]))
    ensures Tags(Join(topics, "; ")) == NonEmpty(topics)
  {
    var joined := Join(topics, "; ");
    if topics == [] {
      assert joined == "";
      NoSeparator("", ';');
      assert Strip("") == "" by { assert AllWhere("", IsSpace); }
      assert Pieces([""]) == [];
    } else {
      SplitJoined(topics, "");
      assert "" + joined == joined;
      PiecesSpaced(topics, "");
    }
  }

  /** The pieces `split(";")` cuts "; "-joined text into: a leading space on all but the first. */
  function Spaced(topics: seq<string>, lead: string): (r: seq<string>)
    ensures |r| == |topics|
  {
    if topics == [] then [] else [lead + topics[0]] + Spaced(topics[1..], " ")
  }

  lemma {:induction false} SplitJoined(topics: seq<string>, lead: string)
    requires topics != [] && ';' !in lead
    requires forall k :: 0 <= k < |topics| ==> ';' !in topics[k]
    ensures Split(lead + Join(topics, "; "), ';') == Spaced(topics, lead)
    decreases |topics|
  {
    var head := lead + topics[0];
    assert ';' !in head;
    if |topics| == 1 {
      NoSeparator(head, ';');
    } else {
      var rest := Join(topics[1..], "; ");
      var s := lead + Join(topics, "; ");
      assert s == head + [';'] + (" " + rest);
      SplitAtFirst(head, " " + rest, ';');
      SplitJoined(topics[1..], " ");
    }
  }

  lemma NoSeparator(s: string, d: char)
    requires d !in s
    ensures Split(s, d) == [s]
  {
    assert IndexOf(s, d) == |s|;
  }

  lemma SplitAtFirst(a: string, b: string, d: char)
    requires d !in a
    ensures Split(a + [d] + b, d) == [a] + Split(b, d)
  {
    var s := a + [d] + b;
    assert forall k :: 0 <= k < |a| ==> s[k] == a[k];
    IndexOfIs(s, d, |a|);
    assert s[..|a|] == a && s[|a| + 1..] == b;
  }

  lemma IndexOfIs(s: string, d: char, i: nat)
    requires i < |s| && s[i] == d && forall k :: 0 <= k < i ==> s[k] != d
    ensures IndexOf(s, d) == i
  {
  }

  lemma {:induction false} PiecesSpaced(topics: seq<string>, lead: string)
    requires lead == "" || lead == " "
    requires forall k :: 0 <= k < |topics| ==> topics[k] == [] || (!IsSpace(topics[k][0]) && !IsSpace(topics[k][|topics[k]| - 1]))
    ensures Pieces(Spaced(topics, lead)) == NonEmpty(topics)
    decreases |topics|
  {
    if topics != [] {
      var t := topics[0];
      StripLead(t, lead);
      PiecesSpaced(topics[1..], " ");
      assert Spaced(topics, lead)[1..] == Spaced(topics[1..], " ");
    }
  }

  lemma StripLead(t: string, lead: string)
    requires lead == "" || lead == " "
    requires t == [] || (!IsSpace(t[0]) && !IsSpace(t[|t| - 1]))
    ensures Strip(lead + t) == t
  {
    if lead == "" {
      assert lead + t == t;
      StripTrimmed(t);
    } else if t == [] {
      assert AllWhere(lead + t, IsSpace);
    } else {
      var s := lead + t;
      assert LeadCount(s, IsSpace) == 1 by {
        assert s[1..] == t;
        assert LeadCount(t, IsSpace) == 0;
      }
      assert TrailStart(s, IsSpace) == |s|;
      assert !AllWhere(s, IsSpace) by { assert !IsSpace(s[1]); }
      assert s[1..|s|] == t;
    }
  }
}

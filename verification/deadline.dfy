/**
 * `clean_deadline`: the listing-A deadline cleaner.  Annotations are deleted
 * (parenthesised groups, "in N days", a clock time with optional leading
 * semicolon, stray semicolons), the text is trimmed, and then it is parsed
 * with `datetime.strptime` under four formats in turn.  A parsed date is
 * written back as "Mon DD YYYY"; text that parses under none of them is
 * returned in its cleaned form.
 */
module Deadline {
  import opened Wrappers
  import opened Text
  import opened Regex
  import opened Calendar

  /** One `strptime` format: `%b` or `%B` for the month, with or without a comma after `%d`. */
  datatype Format = Format(fullMonth: bool, comma: bool)

  /** "%b %d %Y", "%B %d %Y", "%b %d, %Y", "%B %d, %Y", in the order they are tried. */
  const Formats: seq<Format> :=
    [Format(false, false), Format(true, false), Format(false, true), Format(true, true)]

  /**
   * The month name at the start of `s`, searching the lower-case table from
   * index `k`.  No name in either table is a prefix of another, so at most
   * one can match and the regex alternation order does not matter.
   */
  function MonthPrefix(s: string, names: seq<string>, k: nat): (r: Option<(int, nat)>)
    requires |names| == 12
    ensures r.Some? ==> 1 <= r.value.0 <= 12 && r.value.1 == |names[r.value.0 - 1]|
    ensures r.Some? ==> HasCI(s, 0, names[r.value.0 - 1])
    ensures r.Some? ==> forall j :: k <= j < r.value.0 - 1 ==> !HasCI(s, 0, names[j])
    ensures r.None? ==> forall j :: k <= j < 12 ==> !HasCI(s, 0, names[j])
    decreases 12 - k
  {
    if k >= 12 then None
    else if HasCI(s, 0, names[k]) then Some((k + 1, |names[k]|))
    else MonthPrefix(s, names, k + 1)
  }

  /**
   * `%d`, which is `3[01]|[12]\d|0[1-9]|[1-9]| [1-9]`: the digit run at `q`
   * (the next format item is never a digit) read as a day from 1 to 31.
   */
  function DayAt(s: string, q: nat): (r: Option<(int, nat)>)
    requires q <= |s|
    ensures r.Some? ==> 1 <= r.value.0 <= 31 && q < r.value.1 <= |s|
    ensures r.Some? ==> r.value.1 == |s| || !IsDigit(s[r.value.1])
  {
    var e := SkipWhile(s, q, IsDigit);
    if e == q + 1 && s[q] != '0' then Some((DigitVal(s[q]), e))
    else if e == q + 2 && 1 <= DigitVal(s[q]) * 10 + DigitVal(s[q + 1]) <= 31 then
      Some((DigitVal(s[q]) * 10 + DigitVal(s[q + 1]), e))
    else None
  }

  function YearAt(s: string, y: nat): int
    requires FourDigits(s, y)
  {
    DigitVal(s[y]) * 1000 + DigitVal(s[y + 1]) * 100 + DigitVal(s[y + 2]) * 10 + DigitVal(s[y + 3])
  }

  /** The month table a format matches against. */
  function Names(f: Format): (r: seq<string>)
    ensures |r| == 12
  {
    if f.fullMonth then FullLower else AbbrLower
  }

  /**
   * `datetime.strptime(s, f)`.  Every space in a format stands for `\s+`,
   * month names are matched ignoring case, `%Y` is exactly four digits, the
   * whole string must be consumed, and the date must exist in the calendar.
   */
  function Strptime(s: string, f: Format): (r: Option<ValidDate>)
  {
    match MonthPrefix(s, Names(f), 0)
    case None => None
    case Some((month, n)) => AfterMonth(s, month, n, f.comma)
  }

  /** The rest of `strptime` once the month name has been read up to `n`. */
  function AfterMonth(s: string, month: int, n: nat, comma: bool): (r: Option<ValidDate>)
    requires n <= |s|
    ensures r.Some? ==> r.value.month == month
  {
    var q := SkipWhile(s, n, IsSpace);
    if q == n then None
    else match DayAt(s, q)
      case None => None
      case Some((day, e)) =>
        if comma && !(e < |s| && s[e] == ',') then None
        else
          var c := if comma then e + 1 else e;
          var y := SkipWhile(s, c, IsSpace);
          if y == c || y + 4 != |s| || !FourDigits(s, y) then None
          else
            var d := Date(YearAt(s, y), month, day);
            if Valid(d) then var v: ValidDate := d; Some(v) else None
  }

  /**
   * The first of the four formats that accepts `s`: `None` exactly when
   * every format rejects it, otherwise the date the first accepting format
   * reads.
   */
  function ParseAny(s: string): (r: Option<ValidDate>)
    ensures var p := Strptime(s, Formats[0]); p.Some? ==> r == p
    ensures var p := Strptime(s, Formats[1]);
      Strptime(s, Formats[0]).None? && p.Some? ==> r == p
    ensures var p := Strptime(s, Formats[2]);
      Strptime(s, Formats[0]).None? && Strptime(s, Formats[1]).None? && p.Some? ==> r == p
    ensures Strptime(s, Formats[0]).None? && Strptime(s, Formats[1]).None? && Strptime(s, Formats[2]).None? ==>
      r == Strptime(s, Formats[3])
  {
    var p0, p1, p2, p3 := Strptime(s, Formats[0]), Strptime(s, Formats[1]), Strptime(s, Formats[2]), Strptime(s, Formats[3]);
    if p0.Some? then p0 else if p1.Some? then p1 else if p2.Some? then p2 else p3
  }

  /** `strftime("%b %d %Y")`. */
  function Render(d: ValidDate): (r: string)
    ensures |r| == 11
  {
    Abbr[d.month - 1] + " " + Pad2(d.day) + " " + Pad4(d.year)
  }

  /** The deletions before parsing, ending with `strip()`. */
  function Clean(v: string): (r: string)
    ensures ';' !in r
    ensures r == [] || (!IsSpace(r[0]) && !IsSpace(r[|r| - 1]))
  {
    var noNotes := Sub(Paren, v, "");
    var noCountdown := Sub(InDays, noNotes, "");
    var noClock := Sub(ClockTime, noCountdown, "");
    var t := RemoveChar(noClock, ';');
    StripAbsent(t, ';');
    Strip(t)
  }

  /**
   * `clean_deadline(val)`; `None` stands for a value that is not a string.
   * The result never contains ';' and never has whitespace at either end.
   */
  function CleanDeadline(val: Option<string>): (r: string)
    ensures ';' !in r
    ensures r == [] || (!IsSpace(r[0]) && !IsSpace(r[|r| - 1]))
    ensures val.None? || Strip(val.value) == "" ==> r == ""
  {
    match val
    case None => ""
    case Some(v) =>
      if Strip(v) == "" then ""
      else
        var s := Clean(v);
        match ParseAny(s)
        case Some(d) => RenderShape(d); Render(d)
        case None => s
  }

  /** A canonical rendering is made of month letters, digits and spaces only. */
  predicate Plain(r: string) {
    forall k :: 0 <= k < |r| ==> r[k] != '(' && r[k] != ':' && r[k] != ';' && LowerChar(r[k]) != 'i'
  }

  lemma RenderShape(d: ValidDate)
    ensures var r := Render(d);
      Plain(r) && !IsSpace(r[0]) && !IsSpace(r[10]) && ';' !in r
      && r[..3] == Abbr[d.month - 1] && r[3] == ' ' && r[4..6] == Pad2(d.day) && r[6] == ' '
      && r[7..] == Pad4(d.year)
  {
    var r := Render(d);
    var m := Abbr[d.month - 1];
    assert r[..3] == m;
    assert r[4..6] == Pad2(d.day);
    assert r[7..] == Pad4(d.year);
    assert forall k :: 0 <= k < 3 ==> r[k] == m[k];
    assert Plain(m) && !IsSpace(m[0]) by { MonthAbbrPlain(d.month); }
    assert forall k :: 4 <= k < 6 ==> IsDigit(r[k]) by { assert forall k :: 4 <= k < 6 ==> r[k] == Pad2(d.day)[k - 4]; }
    assert forall k :: 7 <= k < 11 ==> IsDigit(r[k]) by { assert forall k :: 7 <= k < 11 ==> r[k] == Pad4(d.year)[k - 7]; }
  }

  lemma MonthAbbrPlain(month: int)
    requires 1 <= month <= 12
    ensures |Abbr[month - 1]| == 3 && Plain(Abbr[month - 1]) && !IsSpace(Abbr[month - 1][0])
  {
  }

  /** `Render` followed by `strptime` under the first format gives the date back. */
  lemma RenderRoundTrip(d: ValidDate)
    ensures Strptime(Render(d), Formats[0]) == Some(d)
    ensures ParseAny(Render(d)) == Some(d)
  {
    var r := Render(d);
    RenderShape(d);
    AbbrFound(r, d.month);
    var p := Pad2(d.day);
    assert r[4] == p[0] && r[5] == p[1];
    var y := Pad4(d.year);
    assert r[7] == y[0] && r[8] == y[1] && r[9] == y[2] && r[10] == y[3];
    ShortFormParses(r, d);
  }

  /** The layout `Render` produces, read by the first format. */
  lemma ShortFormParses(s: string, d: ValidDate)
    requires |s| == 11 && MonthPrefix(s, AbbrLower, 0) == Some((d.month, 3))
    requires s[3] == ' ' && s[6] == ' '
    requires IsDigit(s[4]) && IsDigit(s[5]) && DigitVal(s[4]) * 10 + DigitVal(s[5]) == d.day
    requires FourDigits(s, 7) && YearAt(s, 7) == d.year
    ensures Strptime(s, Formats[0]) == Some(d)
  {
    assert Names(Formats[0]) == AbbrLower;
    ShortFormRest(s, d);
  }

  lemma ShortFormRest(s: string, d: ValidDate)
    requires |s| == 11 && s[3] == ' ' && s[6] == ' '
    requires IsDigit(s[4]) && IsDigit(s[5]) && DigitVal(s[4]) * 10 + DigitVal(s[5]) == d.day
    requires FourDigits(s, 7) && YearAt(s, 7) == d.year
    ensures AfterMonth(s, d.month, 3, false) == Some(d)
  {
    assert SkipWhile(s, 3, IsSpace) == 4;
    assert SkipWhile(s, 4, IsDigit) == 6 by {
      assert SkipWhile(s, 5, IsDigit) == 6;
    }
    assert DayAt(s, 4) == Some((d.day, 6));
    assert SkipWhile(s, 6, IsSpace) == 7;
  }

  /** Three characters match a three-letter lower-case name exactly when they lower-case to it. */
  lemma HasCI3(s: string, lit: string)
    requires |s| >= 3 && |lit| == 3
    ensures HasCI(s, 0, lit) <==> [LowerChar(s[0]), LowerChar(s[1]), LowerChar(s[2])] == lit
  {
    assert SameFrom(s, 0, lit, 2) <==> LowerChar(s[2]) == lit[2];
    assert SameFrom(s, 0, lit, 1) <==> LowerChar(s[1]) == lit[1] && LowerChar(s[2]) == lit[2];
    assert lit == [lit[0], lit[1], lit[2]];
  }

  /** Text that starts with a written abbreviation is read back as that month. */
  lemma AbbrFound(s: string, month: int)
    requires 1 <= month <= 12 && |s| >= 3 && s[..3] == Abbr[month - 1]
    ensures MonthPrefix(s, AbbrLower, 0) == Some((month, 3))
  {
    AbbrHead(s, month);
    AbbrLowerShape(month);
    ThreeLetterFound(s, AbbrLower, month);
  }

  lemma AbbrHead(s: string, month: int)
    requires 1 <= month <= 12 && |s| >= 3 && s[..3] == Abbr[month - 1]
    ensures [LowerChar(s[0]), LowerChar(s[1]), LowerChar(s[2])] == AbbrLower[month - 1]
  {
    MonthTables(month);
    assert s[0] == Abbr[month - 1][0] && s[1] == Abbr[month - 1][1] && s[2] == Abbr[month - 1][2];
  }

  /** The lower-case abbreviations have three letters each, and each differs from those before it. */
  lemma AbbrLowerShape(month: int)
    requires 1 <= month <= 12
    ensures |AbbrLower| == 12 && forall j :: 0 <= j < 12 ==> |AbbrLower[j]| == 3
    ensures forall j :: 0 <= j < month - 1 ==> AbbrLower[j] != AbbrLower[month - 1]
  {
    forall j | 0 <= j < month - 1 ensures AbbrLower[j] != AbbrLower[month - 1] {
      AbbrLowerDistinct(j, month - 1);
    }
  }

  /** Among three-letter names, the first one equal to the lower-cased head of `s` is found. */
  lemma ThreeLetterFound(s: string, names: seq<string>, m: int)
    requires |names| == 12 && 1 <= m <= 12 && |s| >= 3
    requires forall j :: 0 <= j < 12 ==> |names[j]| == 3
    requires [LowerChar(s[0]), LowerChar(s[1]), LowerChar(s[2])] == names[m - 1]
    requires forall j :: 0 <= j < m - 1 ==> names[j] != names[m - 1]
    ensures MonthPrefix(s, names, 0) == Some((m, 3))
  {
    HasCI3(s, names[m - 1]);
    forall j | 0 <= j < m - 1 ensures !HasCI(s, 0, names[j]) {
      HasCI3(s, names[j]);
    }
    MonthPrefixFirst(s, names, m);
  }

  /** If `names[m - 1]` matches and no earlier name does, the search finds month `m`. */
  lemma MonthPrefixFirst(s: string, names: seq<string>, m: int)
    requires |names| == 12 && 1 <= m <= 12
    requires HasCI(s, 0, names[m - 1])
    requires forall j :: 0 <= j < m - 1 ==> !HasCI(s, 0, names[j])
    ensures MonthPrefix(s, names, 0) == Some((m, |names[m - 1]|))
  {
    var r := MonthPrefix(s, names, 0);
    assert r.Some?;
  }

  /** The display abbreviation lower-cased is the matching table's entry. */
  lemma MonthTables(month: int)
    requires 1 <= month <= 12
    ensures |Abbr[month - 1]| == 3 && |AbbrLower[month - 1]| == 3
    ensures var a, l := Abbr[month - 1], AbbrLower[month - 1];
      LowerChar(a[0]) == l[0] && LowerChar(a[1]) == l[1] && LowerChar(a[2]) == l[2]
  {
  }

  lemma AbbrLowerDistinct(i: int, j: int)
    requires 0 <= i < 12 && 0 <= j < 12
    ensures AbbrLower[i] == AbbrLower[j] <==> i == j
  {
  }

  /** A canonical rendering has nothing for the cleaning passes to remove. */
  lemma CleanPlain(s: string)
    requires Plain(s) && s != [] && !IsSpace(s[0]) && !IsSpace(s[|s| - 1])
    ensures Clean(s) == s
  {
    forall k | 0 <= k < |s| ensures MatchEnd(Paren, s, k).None? {
      assert s[k] != '(';
    }
    SubNoMatch(Paren, s, "");
    forall k | 0 <= k < |s| ensures MatchEnd(InDays, s, k).None? {
      assert LowerChar(s[k]) != 'i';
    }
    SubNoMatch(InDays, s, "");
    assert ':' !in s by {
      assert forall k :: 0 <= k < |s| ==> s[k] != ':';
    }
    forall k | 0 <= k < |s| ensures MatchEnd(ClockTime, s, k).None? {
      ClockNeedsColon(s, k);
    }
    SubNoMatch(ClockTime, s, "");
    assert ';' !in s by {
      assert forall k :: 0 <= k < |s| ==> s[k] != ';';
    }
    StripTrimmed(s);
  }

  /** A clock time needs a ':', so text without one has no clock-time match. */
  lemma ClockNeedsColon(s: string, i: nat)
    requires i < |s| && ':' !in s
    ensures MatchEnd(ClockTime, s, i).None?
  {
    var a := if s[i] == ';' then i + 1 else i;
    var q := SkipWhile(s, a, IsSpace);
    var h := SkipWhile(s, q, IsDigit);
    if h < |s| {
      assert s[h] != ':';
    }
  }

  /**
   * No clock time starts at `i` when a character that is neither a space,
   * a digit nor ':' comes at `j` with no ':' in between.
   */
  lemma ClockNeedsColonBefore(s: string, i: nat, j: nat)
    requires i <= j < |s| && s[i] != ';'
    requires !IsSpace(s[j]) && !IsDigit(s[j]) && s[j] != ':'
    requires forall k :: i <= k < j ==> s[k] != ':'
    ensures MatchEnd(ClockTime, s, i).None?
  {
    var q := SkipWhile(s, i, IsSpace);
    var h := SkipWhile(s, q, IsDigit);
    assert q <= j;
    assert h <= j;
  }

  /** A date `clean_deadline` wrote is written again unchanged. */
  lemma CleanDeadlineRendered(d: ValidDate)
    ensures CleanDeadline(Some(Render(d))) == Render(d)
  {
    RenderShape(d);
    RenderRoundTrip(d);
    CleanPlainParsed(Render(d), d);
  }

  /** Text the deletions leave alone and that parses is replaced by its rendering. */
  lemma CleanPlainParsed(s: string, d: ValidDate)
    requires Plain(s) && s != [] && !IsSpace(s[0]) && !IsSpace(s[|s| - 1]) && ParseAny(s) == Some(d)
    ensures CleanDeadline(Some(s)) == Render(d)
  {
    CleanPlain(s);
    StripTrimmed(s);
  }

  /**
   * Cleaning never changes which date the text denotes: the result parses
   * exactly when the cleaned input does, and to the same date.  A parsed
   * result is a `Render` output, so its day has two digits.
   */
  lemma CleanDeadlineKeepsDate(v: string)
    requires Strip(v) != ""
    ensures var r := CleanDeadline(Some(v));
      ParseAny(r) == ParseAny(Clean(v))
      && (ParseAny(r).Some? ==> r == Render(ParseAny(r).value))
      && (ParseAny(r).None? ==> r == Clean(v))
  {
    match ParseAny(Clean(v))
    case Some(d) => RenderRoundTrip(d);
    case None =>
  }

  /** No month name starts with this letter, in either table. */
  predicate NoMonthInitial(c: char) {
    LowerChar(c) !in {'j', 'f', 'm', 'a', 's', 'o', 'n', 'd'}
  }

  /**
   * Cleaned text that does not begin with a month letter parses under none
   * of the formats, so it is returned as cleaned: "TBD" stays "TBD".
   */
  lemma NoMonthKept(v: string)
    requires Strip(v) != "" && Clean(v) != [] && NoMonthInitial(Clean(v)[0])
    ensures CleanDeadline(Some(v)) == Clean(v)
  {
    NoMonthNoParse(Clean(v));
  }

  lemma NoMonthNoParse(s: string)
    requires s != [] && NoMonthInitial(s[0])
    ensures ParseAny(s).None?
  {
    MonthInitials();
    NoMonthAt(s, AbbrLower);
    NoMonthAt(s, FullLower);
    assert forall k :: 0 <= k < 4 ==> Names(Formats[k]) == AbbrLower || Names(Formats[k]) == FullLower;
  }

  lemma TbdKept()
    ensures CleanDeadline(Some("TBD")) == "TBD"
  {
    var s := "TBD";
    assert Plain(s);
    CleanPlain(s);
    StripTrimmed(s);
    NoMonthKept(s);
  }

  lemma MonthInitials()
    ensures forall j :: 0 <= j < 12 ==> AbbrLower[j] != [] && AbbrLower[j][0] in {'j', 'f', 'm', 'a', 's', 'o', 'n', 'd'}
    ensures forall j :: 0 <= j < 12 ==> FullLower[j] != [] && FullLower[j][0] in {'j', 'f', 'm', 'a', 's', 'o', 'n', 'd'}
  {
  }

  /** No name of the table matches when none starts with the text's first letter. */
  lemma NoMonthAt(s: string, names: seq<string>)
    requires |names| == 12 && s != []
    requires forall j :: 0 <= j < 12 ==> names[j] != [] && names[j][0] != LowerChar(s[0])
    ensures MonthPrefix(s, names, 0).None?
  {
    forall j | 0 <= j < 12 ensures !HasCI(s, 0, names[j]) {
      if |names[j]| <= |s| {
        assert !SameFrom(s, 0, names[j], 0);
      }
    }
  }

  /** Text laid out as "Mon D, YYYY" for `d` parses, under the third format first, to `d`. */
  lemma FieldsParse(r: string, d: ValidDate, w: nat)
    requires (w == 1 || w == 2) && |r| == 10 + w && r[..3] == Abbr[d.month - 1]
    requires r[3] == ' ' && r[4 + w] == ',' && r[5 + w] == ' '
    requires forall k :: 4 <= k < 4 + w ==> IsDigit(r[k])
    requires w == 1 ==> r[4] != '0' && DigitVal(r[4]) == d.day
    requires w == 2 ==> DigitVal(r[4]) * 10 + DigitVal(r[5]) == d.day
    requires FourDigits(r, 6 + w) && YearAt(r, 6 + w) == d.year
    ensures Strptime(r, Formats[2]) == Some(d) && ParseAny(r) == Some(d)
  {
    AbbrFound(r, d.month);
    CommaFormRest(r, d, w);
    assert Strptime(r, Formats[2]) == Some(d) by { assert Names(Formats[2]) == AbbrLower; }
    NoCommaFormat(r, w);
  }

  /** Neither format without a comma accepts "Mon D, YYYY". */
  lemma NoCommaFormat(s: string, w: nat)
    requires w == 1 || w == 2
    requires |s| == 10 + w && s[3] == ' ' && s[4 + w] == ','
    requires forall k :: 4 <= k < 4 + w ==> IsDigit(s[k])
    requires MonthPrefix(s, AbbrLower, 0).Some? && MonthPrefix(s, AbbrLower, 0).value.1 == 3
    ensures Strptime(s, Formats[0]).None? && Strptime(s, Formats[1]).None?
  {
    NoCommaFails(s, MonthPrefix(s, AbbrLower, 0).value.0, w);
    assert Names(Formats[0]) == AbbrLower;
    assert Names(Formats[1]) == FullLower;
    FullNameEndsAtThree(s);
    var full := MonthPrefix(s, FullLower, 0);
    if full.Some? {
      NoCommaFails(s, full.value.0, w);
    }
  }

  /** "Mon D, YYYY" or "Mon DD, YYYY" after the month name. */
  lemma CommaFormRest(s: string, d: ValidDate, w: nat)
    requires w == 1 || w == 2
    requires |s| == 10 + w && s[3] == ' ' && s[4 + w] == ',' && s[5 + w] == ' '
    requires forall k :: 4 <= k < 4 + w ==> IsDigit(s[k])
    requires w == 1 ==> s[4] != '0' && DigitVal(s[4]) == d.day
    requires w == 2 ==> DigitVal(s[4]) * 10 + DigitVal(s[5]) == d.day
    requires FourDigits(s, 6 + w) && YearAt(s, 6 + w) == d.year
    ensures AfterMonth(s, d.month, 3, true) == Some(d)
  {
    assert SkipWhile(s, 3, IsSpace) == 4;
    assert SkipWhile(s, 4 + w, IsDigit) == 4 + w;
    if w == 2 {
      assert SkipWhile(s, 5, IsDigit) == 6;
    }
    assert SkipWhile(s, 4, IsDigit) == 4 + w;
    assert DayAt(s, 4) == Some((d.day, 4 + w));
    assert SkipWhile(s, 6 + w, IsSpace) == 6 + w;
    assert SkipWhile(s, 5 + w, IsSpace) == 6 + w;
  }

  /** Without a comma in the format, the ',' after the day is unconverted data. */
  lemma NoCommaFails(s: string, month: int, w: nat)
    requires w == 1 || w == 2
    requires |s| == 10 + w && s[3] == ' ' && s[4 + w] == ','
    requires forall k :: 4 <= k < 4 + w ==> IsDigit(s[k])
    ensures AfterMonth(s, month, 3, false).None?
  {
    assert SkipWhile(s, 3, IsSpace) == 4;
    assert SkipWhile(s, 4 + w, IsDigit) == 4 + w;
    if w == 2 {
      assert SkipWhile(s, 5, IsDigit) == 6;
    }
    assert SkipWhile(s, 4 + w, IsSpace) == 4 + w;
  }

  /**
   * With a space after three letters, the only full month name that can
   * match is "May", which ends where the abbreviation does.
   */
  lemma FullNameEndsAtThree(s: string)
    requires |s| >= 4 && s[3] == ' '
    ensures var r := MonthPrefix(s, FullLower, 0); r.Some? ==> r.value.1 == 3
  {
    var r := MonthPrefix(s, FullLower, 0);
    if r.Some? {
      var lit := FullLower[r.value.0 - 1];
      FullNameShape(r.value.0 - 1);
      if |lit| > 3 {
        HasCIChar(s, 0, lit, 3);
      }
    }
  }

  lemma FullNameShape(j: int)
    requires 0 <= j < 12
    ensures |FullLower[j]| >= 3 && (|FullLower[j]| == 3 || FullLower[j][3] != ' ')
  {
  }

  /**
   * A deadline as the tracker writes it: the time-zone note, the ';' and
   * the clock time go, and what is left parses under the comma format.
   */
  lemma AoeDeadline()
    ensures CleanDeadline(Some("Oct 10, 2024 (AOE); 11:59 PM")) == "Oct 10 2024"
  {
    AoeDeadlineAt("Oct 10, 2024 (AOE); 11:59 PM");
  }

  lemma AoeDeadlineAt(v: string)
    requires Spelled(v, "Oct 10, 2024 (AOE); 11:59 PM")
    ensures CleanDeadline(Some(v)) == "Oct 10 2024"
  {
    AoeClean(v);
    AoeParse(Clean(v));
    AoeRender();
    assert !AllWhere(v, IsSpace) by { assert !IsSpace(v[0]); }
  }

  lemma AoeClean(v: string)
    requires Spelled(v, "Oct 10, 2024 (AOE); 11:59 PM")
    ensures Spelled(Clean(v), "Oct 10, 2024")
  {
    var a := Sub(Paren, v, "");
    AoeNoNote(v);
    var b := Sub(InDays, a, "");
    AoeNoCountdown(a);
    var c := Sub(ClockTime, b, "");
    AoeNoClock(b);
    AoeNoSemicolon(c);
    AoeStrip(c);
  }

  /** The parenthesised time zone goes, leaving the space before it and the ';' after it. */
  lemma AoeNoNote(v: string)
    requires Spelled(v, "Oct 10, 2024 (AOE); 11:59 PM")
    ensures Spelled(Sub(Paren, v, ""), "Oct 10, 2024 ; 11:59 PM")
  {
    AoeNoOpen(v, 0, 13);
    SubFromCopy(Paren, v, "", 0, 13);
    AoeNoteMatch(v);
    SubFromMatchOne(Paren, v, "", 13);
    AoeNoOpen(v, 18, 28);
    SubFromNoMatch(Paren, v, "", 18);
    AoeCutNote(v);
  }

  lemma AoeNoOpen(v: string, lo: nat, hi: nat)
    requires Spelled(v, "Oct 10, 2024 (AOE); 11:59 PM")
    requires (lo == 0 && hi == 13) || (lo == 18 && hi == 28)
    ensures forall k :: lo <= k < hi ==> MatchEnd(Paren, v, k).None?
  {
    forall k | lo <= k < hi ensures MatchEnd(Paren, v, k).None? {
      ParenNeedsOpen(v, k);
    }
  }

  lemma AoeNoteMatch(v: string)
    requires Spelled(v, "Oct 10, 2024 (AOE); 11:59 PM")
    ensures MatchEnd(Paren, v, 13) == Some(18)
  {
    assert SkipWhile(v, 17, InsideParens) == 17;
    assert SkipWhile(v, 16, InsideParens) == 17;
    assert SkipWhile(v, 15, InsideParens) == 17;
    assert SkipWhile(v, 14, InsideParens) == 17;
  }

  lemma AoeCutNote(v: string)
    requires Spelled(v, "Oct 10, 2024 (AOE); 11:59 PM")
    ensures Spelled(v[..13] + ("" + v[18..]), "Oct 10, 2024 ; 11:59 PM")
  {
    var a := v[..13] + ("" + v[18..]);
    assert forall k :: 0 <= k < 13 ==> a[k] == v[k];
    assert forall k :: 13 <= k < 23 ==> a[k] == v[k + 5];
  }

  /** There is no 'i' in the text, so no "in N days" countdown either. */
  lemma AoeNoCountdown(a: string)
    requires Spelled(a, "Oct 10, 2024 ; 11:59 PM")
    ensures Spelled(Sub(InDays, a, ""), "Oct 10, 2024 ; 11:59 PM")
  {
    AoeNoI(a, 0, 12);
    AoeNoI(a, 12, 23);
    SubNoMatch(InDays, a, "");
  }

  lemma AoeNoI(a: string, lo: nat, hi: nat)
    requires Spelled(a, "Oct 10, 2024 ; 11:59 PM")
    requires (lo == 0 && hi == 12) || (lo == 12 && hi == 23)
    ensures forall k :: lo <= k < hi ==> MatchEnd(InDays, a, k).None?
  {
    forall k | lo <= k < hi ensures MatchEnd(InDays, a, k).None? {
      InDaysNeedsI(a, k);
    }
  }

  /** The clock time goes together with the ';' and the space before it. */
  lemma AoeNoClock(b: string)
    requires Spelled(b, "Oct 10, 2024 ; 11:59 PM")
    ensures Spelled(Sub(ClockTime, b, ""), "Oct 10, 2024 ")
  {
    AoeNoClockBefore(b, 0, 7);
    AoeNoClockBefore(b, 7, 13);
    SubFromCopy(ClockTime, b, "", 0, 13);
    AoeClockMatch(b);
    SubFromMatchOne(ClockTime, b, "", 13);
    SubFromNoMatch(ClockTime, b, "", 23);
    AoeCutClock(b);
  }

  lemma AoeNoClockBefore(b: string, lo: nat, hi: nat)
    requires Spelled(b, "Oct 10, 2024 ; 11:59 PM")
    requires (lo == 0 && hi == 7) || (lo == 7 && hi == 13)
    ensures forall k :: lo <= k < hi ==> MatchEnd(ClockTime, b, k).None?
  {
    assert forall k :: 0 <= k < 13 ==> b[k] != ':';
    forall k | lo <= k < hi ensures MatchEnd(ClockTime, b, k).None? {
      ClockNeedsColonBefore(b, k, 13);
    }
  }

  lemma AoeCutClock(b: string)
    requires Spelled(b, "Oct 10, 2024 ; 11:59 PM")
    ensures Spelled(b[..13] + ("" + b[23..]), "Oct 10, 2024 ")
  {
    var c := b[..13] + ("" + b[23..]);
    assert forall k :: 0 <= k < 13 ==> c[k] == b[k];
  }

  lemma AoeClockMatch(b: string)
    requires Spelled(b, "Oct 10, 2024 ; 11:59 PM")
    ensures MatchEnd(ClockTime, b, 13) == Some(23)
  {
    assert SkipWhile(b, 15, IsSpace) == 15;
    assert SkipWhile(b, 14, IsSpace) == 15;
    assert SkipWhile(b, 17, IsDigit) == 17;
    assert SkipWhile(b, 16, IsDigit) == 17;
    assert SkipWhile(b, 15, IsDigit) == 17;
    assert SkipWhile(b, 21, IsSpace) == 21;
    assert SkipWhile(b, 20, IsSpace) == 21;
    assert HasCI(b, 21, "pm");
  }

  lemma AoeNoSemicolon(c: string)
    requires Spelled(c, "Oct 10, 2024 ")
    ensures RemoveChar(c, ';') == c
  {
    assert forall k :: 0 <= k < |c| ==> c[k] != ';';
  }

  lemma AoeStrip(c: string)
    requires Spelled(c, "Oct 10, 2024 ")
    ensures Spelled(Strip(c), "Oct 10, 2024")
  {
    LeadCountIs(c, IsSpace, 0);
    assert AllWhere(c[12..], IsSpace);
    TrailStartIs(c, IsSpace, 12);
    assert !AllWhere(c, IsSpace);
  }

  lemma AoeParse(r: string)
    requires Spelled(r, "Oct 10, 2024")
    ensures ParseAny(r).Some? && ParseAny(r).value == Date(2024, 10, 10)
  {
    var d: ValidDate := Date(2024, 10, 10);
    assert r[..3] == Abbr[9];
    assert FourDigits(r, 8) && YearAt(r, 8) == 2024;
    FieldsParse(r, d, 2);
  }

  lemma AoeRender()
    ensures Render(Date(2024, 10, 10)) == "Oct 10 2024"
  {
    assert Pad2(10) == "10";
    assert Pad4(2024) == "2024";
  }
}

/**
 * `fmt_date` and `_fmt_short_month_date_year`: a date-like value is read
 * with `pd.to_datetime` and written as "%b %d, %Y" with every " 0" replaced
 * by " ", so that the day loses its leading zero ("Sep 5, 2025").
 * `pd.to_datetime` itself is a parameter: its lenient grammar is not part
 * of this model.
 */
module ShortDate {
  import opened Wrappers
  import opened Text
  import opened Regex
  import opened Calendar
  import opened Deadline

  /** What `fmt_date` may be given: a missing value, a string, or a parsed timestamp. */
  datatype DateLike = Missing | Text(s: string) | Stamp(d: ValidDate)

  /** The day as `%d` writes it after the " 0" replacement: no leading zero. */
  function DayText(day: int): (r: string)
    requires 1 <= day <= 31
    ensures 1 <= |r| <= 2 && forall k :: 0 <= k < |r| ==> IsDigit(r[k])
    ensures r[0] != '0'
    ensures |r| == 1 ==> DigitVal(r[0]) == day
    ensures |r| == 2 ==> DigitVal(r[0]) * 10 + DigitVal(r[1]) == day
  {
    if day < 10 then [DigitChar(day)] else Pad2(day)
  }

  /** `dt.strftime("%b %d, %Y").replace(" 0", " ")`. */
  function RenderShort(d: ValidDate): (r: string)
    ensures |r| >= 6
  {
    var written := Abbr[d.month - 1] + " " + Pad2(d.day) + ", " + Pad4(d.year);
    assert |written| == 12;
    ReplaceLength(written);
    ReplaceAll(written, " 0", " ")
  }

  lemma {:induction false} ReplaceLength(s: string)
    ensures |ReplaceAll(s, " 0", " ")| >= |s| / 2
    decreases |s|
  {
    if |s| >= 2 {
      if " 0" <= s {
        ReplaceLength(s[2..]);
      } else {
        ReplaceLength(s[1..]);
      }
    }
  }

  /**
   * For the years a timestamp can hold (four significant digits) the
   * replacement touches only the day: the result is "Mon D, YYYY".
   */
  lemma RenderShortShape(d: ValidDate)
    requires d.year >= 1000
    ensures RenderShort(d) == Abbr[d.month - 1] + " " + DayText(d.day) + ", " + Pad4(d.year)
  {
    var m, p, y := Abbr[d.month - 1], Pad2(d.day), Pad4(d.year);
    MonthAbbrPlain(d.month);
    assert ' ' !in m by { assert forall k :: 0 <= k < 3 ==> m[k] != ' '; }
    ReplaceShortForm(m, p, y);
    assert DayText(d.day) == if p[0] == '0' then [p[1]] else p;
  }

  /** Of "Mon DD, YYYY", the " 0" replacement can only change the day. */
  lemma ReplaceShortForm(m: string, p: string, y: string)
    requires ' ' !in m && |p| == 2 && IsDigit(p[0]) && IsDigit(p[1])
    requires |y| == 4 && (forall k :: 0 <= k < 4 ==> IsDigit(y[k])) && y[0] != '0'
    ensures ReplaceAll(m + " " + p + ", " + y, " 0", " ")
      == m + " " + (if p[0] == '0' then [p[1]] else p) + ", " + y
  {
    var u := " " + p + ", " + y;
    var q := if p[0] == '0' then [p[1]] else p;
    ShortFormPieces(m, p, y);
    ReplaceSkip(m, u, " 0", " ");
    ReplaceYear(y);
    if p[0] == '0' {
      ReplaceSkip([p[1], ','], " " + y, " 0", " ");
    } else {
      ReplaceSkip(p + ",", " " + y, " 0", " ");
    }
  }

  /** How "Mon DD, YYYY" splits around the day, as plain sequence facts. */
  lemma ShortFormPieces(m: string, p: string, y: string)
    requires |p| == 2 && IsDigit(p[0]) && IsDigit(p[1])
    ensures var u := " " + p + ", " + y; var q := if p[0] == '0' then [p[1]] else p;
      && m + " " + p + ", " + y == m + u
      && m + (" " + q + ", " + y) == m + " " + q + ", " + y
      && (p[0] == '0' ==> " 0" <= u && u[2..] == [p[1], ','] + (" " + y) && " " + q + ", " + y == " " + ([p[1], ','] + (" " + y)))
      && (p[0] != '0' ==> !(" 0" <= u) && u[1..] == (p + ",") + (" " + y) && " " + q + ", " + y == [u[0]] + ((p + ",") + (" " + y)))
  {
    var u := " " + p + ", " + y;
    assert u[1] == p[0];
  }

  /** A space before a year that does not start with '0' is kept. */
  lemma ReplaceYear(y: string)
    requires |y| == 4 && (forall k :: 0 <= k < 4 ==> IsDigit(y[k])) && y[0] != '0'
    ensures ReplaceAll(" " + y, " 0", " ") == " " + y
  {
    assert (" " + y)[1] == y[0];
    assert !(" 0" <= " " + y);
    assert (" " + y)[1..] == y + [];
    assert ' ' !in y;
    ReplaceSkip(y, [], " 0", " ");
  }

  /**
   * `fmt_date(x)`: missing, empty or unparseable input gives "", anything
   * else its short rendering.
   */
  function FmtDate(x: DateLike, parse: string -> Option<ValidDate>): (r: string)
    ensures r == "" <==> x.Missing? || (x.Text? && (x.s == "" || parse(x.s).None?))
    ensures x.Stamp? ==> r == RenderShort(x.d)
    ensures x.Text? && x.s != "" && parse(x.s).Some? ==> r == RenderShort(parse(x.s).value)
  {
    match x
    case Missing => ""
    case Text(s) => ShortMonthDayYear(s, parse)
    case Stamp(d) => RenderShort(d)
  }

  /** `_fmt_short_month_date_year(x)` for a string `x`. */
  function ShortMonthDayYear(x: string, parse: string -> Option<ValidDate>): (r: string)
    ensures r == "" <==> x == "" || parse(x).None?
    ensures x != "" && parse(x).Some? ==> r == RenderShort(parse(x).value)
  {
    if x == "" then ""
    else match parse(x)
      case None => ""
      case Some(d) => RenderShort(d)
  }

  /** The 5th of September 2025 is written "Sep 5, 2025": no leading zero on the day. */
  lemma RenderShortExample()
    ensures RenderShort(Date(2025, 9, 5)) == "Sep 5, 2025"
  {
    var d: ValidDate := Date(2025, 9, 5);
    RenderShortShape(d);
    assert DayText(5) == "5";
    assert Pad4(2025) == "2025";
  }

  /** The short rendering is read back by `strptime` under "%b %d, %Y". */
  lemma RenderShortRoundTrip(d: ValidDate)
    requires d.year >= 1000
    ensures Strptime(RenderShort(d), Formats[2]) == Some(d)
    ensures ParseAny(RenderShort(d)) == Some(d)
  {
    RenderShortShape(d);
    ShortParses(RenderShort(d), d);
  }

  lemma ShortParses(r: string, d: ValidDate)
    requires r == Abbr[d.month - 1] + " " + DayText(d.day) + ", " + Pad4(d.year)
    ensures Strptime(r, Formats[2]) == Some(d) && ParseAny(r) == Some(d)
  {
    ShortFields(r, d);
    FieldsParse(r, d, |DayText(d.day)|);
  }

  /** The fields of "Mon D, YYYY" as the comma formats read them. */
  lemma ShortFields(r: string, d: ValidDate)
    requires r == Abbr[d.month - 1] + " " + DayText(d.day) + ", " + Pad4(d.year)
    ensures var w := |DayText(d.day)|;
      (w == 1 || w == 2) && |r| == 10 + w && r[..3] == Abbr[d.month - 1] &&
      r[3] == ' ' && r[4 + w] == ',' && r[5 + w] == ' ' &&
      (forall k :: 4 <= k < 4 + w ==> IsDigit(r[k])) &&
      (w == 1 ==> r[4] != '0' && DigitVal(r[4]) == d.day) &&
      (w == 2 ==> DigitVal(r[4]) * 10 + DigitVal(r[5]) == d.day) &&
      FourDigits(r, 6 + w) && YearAt(r, 6 + w) == d.year
  {
    var t, y := DayText(d.day), Pad4(d.year);
    ShortLayout(r, Abbr[d.month - 1], t, y);
    MonthAbbrPlain(d.month);
  }

  /** Where each part of "Mon D, YYYY" sits. */
  lemma ShortLayout(s: string, m: string, t: string, y: string)
    requires s == m + " " + t + ", " + y && |m| == 3 && |y| == 4
    ensures |s| == 10 + |t| && s[..3] == m && s[3] == ' ' && s[4 + |t|] == ',' && s[5 + |t|] == ' '
    ensures forall k :: 0 <= k < |t| ==> s[4 + k] == t[k]
    ensures forall k :: 0 <= k < 4 ==> s[6 + |t| + k] == y[k]
  {
  }
}

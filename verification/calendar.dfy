/**
 * Calendar dates as Python's `datetime` accepts them (proleptic Gregorian,
 * years 1 to 9999), the C-locale month names `%b` and `%B` use, and the
 * zero-padded decimal fields `strftime` writes.
 */
module Calendar {
  import opened Text

  datatype Date = Date(year: int, month: int, day: int)

  predicate IsLeap(y: int) {
    y % 4 == 0 && (y % 100 != 0 || y % 400 == 0)
  }

  function DaysInMonth(y: int, m: int): int
    requires 1 <= m <= 12
  {
    if m == 2 then (if IsLeap(y) then 29 else 28)
    else if m == 4 || m == 6 || m == 9 || m == 11 then 30
    else 31
  }

  /** What `datetime.date(year, month, day)` accepts without raising. */
  predicate Valid(d: Date) {
    1 <= d.year <= 9999 && 1 <= d.month <= 12 && 1 <= d.day <= DaysInMonth(d.year, d.month)
  }

  type ValidDate = d: Date | Valid(d) witness Date(2000, 1, 1)

  /** `%b` names as `strftime` writes them, January first. */
  const Abbr: seq<string> :=
    ["Jan", "Feb", "Mar", "Apr", "May", "Jun", "Jul", "Aug", "Sep", "Oct", "Nov", "Dec"]

  /** `%B` names as `strftime` writes them, January first. */
  const Full: seq<string> :=
    ["January", "February", "March", "April", "May", "June", "July", "August",
     "September", "October", "November", "December"]

  /** The same names lower-cased, as `strptime` matches them (ignoring case). */
  const AbbrLower: seq<string> :=
    ["jan", "feb", "mar", "apr", "may", "jun", "jul", "aug", "sep", "oct", "nov", "dec"]

  const FullLower: seq<string> :=
    ["january", "february", "march", "april", "may", "june", "july", "august",
     "september", "october", "november", "december"]

  function DigitChar(n: int): (c: char)
    requires 0 <= n <= 9
    ensures IsDigit(c)
  {
    ('0' as int + n) as char
  }

  function DigitVal(c: char): int
    requires IsDigit(c)
  {
    c as int - '0' as int
  }

  /** `%d`: the day of the month as two digits. */
  function Pad2(n: int): (r: string)
    requires 0 <= n <= 99
    ensures |r| == 2 && IsDigit(r[0]) && IsDigit(r[1])
    ensures DigitVal(r[0]) * 10 + DigitVal(r[1]) == n
  {
    [DigitChar(n / 10), DigitChar(n % 10)]
  }

  /** `%Y`: the year as four digits. */
  function Pad4(n: int): (r: string)
    requires 0 <= n <= 9999
    ensures |r| == 4 && forall k :: 0 <= k < 4 ==> IsDigit(r[k])
    ensures DigitVal(r[0]) * 1000 + DigitVal(r[1]) * 100 + DigitVal(r[2]) * 10 + DigitVal(r[3]) == n
    ensures n >= 1000 ==> r[0] != '0'
  {
    var q1, d0 := n / 10, n % 10;
    var q2, d1 := q1 / 10, q1 % 10;
    var q3, d2 := q2 / 10, q2 % 10;
    [DigitChar(q3), DigitChar(d2), DigitChar(d1), DigitChar(d0)]
  }
}

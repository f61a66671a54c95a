/**
 * The handful of regular expressions the scraper applies with `re.sub`,
 * written as matchers.  For each pattern, `MatchEnd(p, s, i)` is the end of
 * the match Python's backtracking engine finds when it tries position `i`
 * (or `None` when no match starts there).  Every pattern used here has at
 * most one possible end per start, because each greedy part is followed by
 * something its own characters cannot match; the comment on each case says
 * why.  `Sub` is `re.sub(p, rep, s)`: scan left to right, replace each match,
 * resume after it.
 */
module Regex {
  import opened Wrappers
  import opened Text

  datatype Pattern =
    | Year        // \b\d{4}\b
    | Cycle       // (?i)(?:[-–—]?\s*)?cycle\s*(?:\d+|spring|fall)\b
    | Paren       // \(.*?\)
    | InDays      // (?i)in\s+\d+\s+days
    | ClockTime   // (?i);?\s*\d{1,2}:\d{2}\s*(AM|PM)
    | Spaces      // \s+

  predicate WordAt(s: string, i: int) {
    0 <= i < |s| && IsWordChar(s[i])
  }

  /** `\b` at position `i`: a word character on exactly one side. */
  predicate Boundary(s: string, i: int) {
    WordAt(s, i - 1) != WordAt(s, i)
  }

  predicate IsDash(c: char) {
    c == '-' || c == '\U{2013}' || c == '\U{2014}'
  }

  /** End of the longest run starting at `i` whose characters satisfy `p`. */
  function SkipWhile(s: string, i: nat, p: char -> bool): (j: nat)
    requires i <= |s|
    ensures i <= j <= |s|
    ensures forall k :: i <= k < j ==> p(s[k])
    ensures j < |s| ==> !p(s[j])
    decreases |s| - i
  {
    if i == |s| || !p(s[i]) then i else SkipWhile(s, i + 1, p)
  }

  /** Case-insensitive literal `lit` (given in lower case) at position `i`. */
  predicate HasCI(s: string, i: nat, lit: string) {
    i + |lit| <= |s| && SameFrom(s, i, lit, 0)
  }

  /** Characters `k..` of `lit` agree, ignoring case, with `s` from `i + k` on. */
  predicate SameFrom(s: string, i: nat, lit: string, k: nat)
    requires i + |lit| <= |s|
    decreases |lit| - k
  {
    k >= |lit| || (LowerChar(s[i + k]) == lit[k] && SameFrom(s, i, lit, k + 1))
  }

  lemma SameFromLower(s: string, i: nat, lit: string, k: nat)
    requires i + |lit| <= |s| && k <= |lit|
    ensures SameFrom(s, i, lit, k) <==> Lower(s)[i + k..i + |lit|] == lit[k..]
  {
    SameFromLowered(s, Lower(s), i, lit, k);
  }

  /** `SameFromLower` for any `t` that agrees with the lower-cased text. */
  lemma {:induction false} SameFromLowered(s: string, t: string, i: nat, lit: string, k: nat)
    requires i + |lit| <= |s| && k <= |lit|
    requires |t| == |s| && forall m :: 0 <= m < |s| ==> t[m] == LowerChar(s[m])
    ensures SameFrom(s, i, lit, k) <==> t[i + k..i + |lit|] == lit[k..]
    decreases |lit| - k
  {
    if k < |lit| {
      SameFromLowered(s, t, i, lit, k + 1);
      assert t[i + k..i + |lit|] == [t[i + k]] + t[i + k + 1..i + |lit|];
      assert lit[k..] == [lit[k]] + lit[k + 1..];
    }
  }

  /** A case-insensitive match is an occurrence in the lower-cased text. */
  lemma HasCILower(s: string, i: nat, lit: string)
    requires HasCI(s, i, lit)
    ensures Contains(Lower(s), lit)
  {
    SameFromLower(s, i, lit, 0);
    ContainsAt(Lower(s), lit, i);
  }

  /** Each character of a case-insensitive match lower-cases to the literal's. */
  lemma HasCIChar(s: string, i: nat, lit: string, k: nat)
    requires HasCI(s, i, lit) && k < |lit|
    ensures LowerChar(s[i + k]) == lit[k]
  {
    SameFromLower(s, i, lit, 0);
    assert Lower(s)[i..i + |lit|][k] == lit[k];
  }

  /** What `.*?` may cross on its way to the closing parenthesis. */
  predicate InsideParens(c: char) {
    c != ')' && c != '\n'
  }

  predicate FourDigits(s: string, i: nat) {
    i + 4 <= |s| && IsDigit(s[i]) && IsDigit(s[i + 1]) && IsDigit(s[i + 2]) && IsDigit(s[i + 3])
  }

  function MatchEnd(p: Pattern, s: string, i: nat): (e: Option<nat>)
    requires i < |s|
    ensures e.Some? ==> i < e.value <= |s|
  {
    match p
    case Year =>
      if FourDigits(s, i) && Boundary(s, i) && Boundary(s, i + 4) then Some(i + 4) else None
    case Cycle =>
      // The optional dash and the spaces can only give way to "cycle" when
      // fully consumed; `\d+` followed by `\b` only succeeds on the whole
      // digit run; "spring" and "fall" cannot start with a digit or a space.
      var a := if IsDash(s[i]) then i + 1 else i;
      var q := SkipWhile(s, a, IsSpace);
      if !HasCI(s, q, "cycle") then None
      else
        var m := SkipWhile(s, q + 5, IsSpace);
        var d := SkipWhile(s, m, IsDigit);
        if d > m && Boundary(s, d) then Some(d)
        else if HasCI(s, m, "spring") && Boundary(s, m + 6) then Some(m + 6)
        else if HasCI(s, m, "fall") && Boundary(s, m + 4) then Some(m + 4)
        else None
    case Paren =>
      // `.` stops at a newline; the lazy star stops at the first ')'.
      if s[i] != '(' then None
      else
        var j := SkipWhile(s, i + 1, InsideParens);
        if j < |s| && s[j] == ')' then Some(j + 1) else None
    case InDays =>
      // Each greedy run is followed by a class its characters are not in.
      if !HasCI(s, i, "in") then None
      else
        var q := SkipWhile(s, i + 2, IsSpace);
        var d := SkipWhile(s, q, IsDigit);
        var w := SkipWhile(s, d, IsSpace);
        if q > i + 2 && d > q && w > d && HasCI(s, w, "days") then Some(w + 4) else None
    case ClockTime =>
      // `\d{1,2}:` needs a digit run of length one or two ending at ':';
      // after the minutes, spaces are skipped and AM or PM must follow.
      var a := if s[i] == ';' then i + 1 else i;
      var q := SkipWhile(s, a, IsSpace);
      var h := SkipWhile(s, q, IsDigit);
      if 1 <= h - q <= 2 && h + 2 < |s| && s[h] == ':' && IsDigit(s[h + 1]) && IsDigit(s[h + 2]) then
        var e := SkipWhile(s, h + 3, IsSpace);
        if HasCI(s, e, "am") || HasCI(s, e, "pm") then Some(e + 2) else None
      else None
    case Spaces =>
      if IsSpace(s[i]) then Some(SkipWhile(s, i, IsSpace)) else None
  }

  /** Where the match starting at each position of `s` ends; `None` where none starts. */
  function Ends(p: Pattern, s: string): (r: seq<Option<nat>>)
    ensures |r| == |s|
    ensures forall k :: 0 <= k < |s| ==> r[k] == MatchEnd(p, s, k)
  {
    seq(|s|, k requires 0 <= k < |s| => MatchEnd(p, s, k))
  }

  /** The match end recorded at `i`, when it lies ahead of `i` and inside `s`. */
  function Jump(ends: seq<Option<nat>>, s: string, i: nat): (r: Option<nat>)
    requires i < |s|
    ensures r.Some? ==> i < r.value <= |s|
  {
    if i < |ends| && ends[i].Some? && i < ends[i].value <= |s| then ends[i] else None
  }

  /**
   * The left-to-right scan of `re.sub` from `i`: where a match starts, emit
   * the replacement and resume at its end; elsewhere copy one character.
   */
  function Scan(ends: seq<Option<nat>>, s: string, rep: string, i: nat): string
    requires i <= |s|
    decreases |s| - i
  {
    if i == |s| then ""
    else match Jump(ends, s, i)
      case Some(e) => rep + Scan(ends, s, rep, e)
      case None => [s[i]] + Scan(ends, s, rep, i + 1)
  }

  /** `re.sub(p, rep, s[i..])`, with `\b` and look-behind still reading the whole of `s`. */
  function SubFrom(p: Pattern, s: string, rep: string, i: nat): string
    requires i <= |s|
  {
    Scan(Ends(p, s), s, rep, i)
  }

  function Sub(p: Pattern, s: string, rep: string): string {
    SubFrom(p, s, rep, 0)
  }

  lemma ScanCopyOne(ends: seq<Option<nat>>, s: string, rep: string, i: nat)
    requires i < |s| && Jump(ends, s, i).None?
    ensures Scan(ends, s, rep, i) == [s[i]] + Scan(ends, s, rep, i + 1)
  {
  }

  lemma ScanMatchOne(ends: seq<Option<nat>>, s: string, rep: string, i: nat)
    requires i < |s| && Jump(ends, s, i).Some?
    ensures Scan(ends, s, rep, i) == rep + Scan(ends, s, rep, Jump(ends, s, i).value)
  {
  }

  /** A stretch where no match starts is copied through unchanged. */
  lemma {:induction false} ScanCopy(ends: seq<Option<nat>>, s: string, rep: string, i: nat, j: nat)
    requires i <= j <= |s|
    requires forall k :: i <= k < j ==> Jump(ends, s, k).None?
    ensures Scan(ends, s, rep, i) == s[i..j] + Scan(ends, s, rep, j)
    decreases j - i
  {
    if i < j {
      ScanCopy(ends, s, rep, i + 1, j);
      ScanCopyOne(ends, s, rep, i);
      ConsSlice(s, i, j, Scan(ends, s, rep, j));
    }
  }

  lemma ConsSlice(s: string, i: nat, j: nat, rest: string)
    requires i < j <= |s|
    ensures s[i..j] + rest == [s[i]] + (s[i + 1..j] + rest)
  {
    assert s[i..j] == [s[i]] + s[i + 1..j];
  }

  /** A replacement no longer than any match never lengthens the text. */
  lemma {:induction false} ScanLength(ends: seq<Option<nat>>, s: string, rep: string, i: nat)
    requires i <= |s| && |rep| <= 1
    ensures |Scan(ends, s, rep, i)| <= |s| - i
    decreases |s| - i
  {
    if i < |s| {
      match Jump(ends, s, i)
      case Some(e) => ScanLength(ends, s, rep, e);
      case None => ScanLength(ends, s, rep, i + 1);
    }
  }

  /** A deletion with a match anywhere ahead strictly shortens the text. */
  lemma {:induction false} ScanShrinks(ends: seq<Option<nat>>, s: string, i: nat, k: nat)
    requires i <= k < |s| && Jump(ends, s, k).Some?
    ensures |Scan(ends, s, "", i)| < |s| - i
    decreases |s| - i
  {
    match Jump(ends, s, i)
    case Some(e) => ScanLength(ends, s, "", e);
    case None => ScanShrinks(ends, s, i + 1, k);
  }

  /** Where the pattern matches nowhere, substitution leaves the text alone. */
  lemma SubFromNoMatch(p: Pattern, s: string, rep: string, i: nat)
    requires i <= |s|
    requires forall k :: i <= k < |s| ==> MatchEnd(p, s, k).None?
    ensures SubFrom(p, s, rep, i) == s[i..]
  {
    SubFromCopy(p, s, rep, i, |s|);
    assert s[i..|s|] + "" == s[i..];
  }

  lemma SubFromCopy(p: Pattern, s: string, rep: string, i: nat, j: nat)
    requires i <= j <= |s|
    requires forall k :: i <= k < j ==> MatchEnd(p, s, k).None?
    ensures SubFrom(p, s, rep, i) == s[i..j] + SubFrom(p, s, rep, j)
  {
    var ends := Ends(p, s);
    assert forall k :: i <= k < j ==> Jump(ends, s, k).None?;
    ScanCopy(ends, s, rep, i, j);
  }

  lemma SubFromCopyOne(p: Pattern, s: string, rep: string, i: nat)
    requires i < |s| && MatchEnd(p, s, i).None?
    ensures SubFrom(p, s, rep, i) == [s[i]] + SubFrom(p, s, rep, i + 1)
  {
    ScanCopyOne(Ends(p, s), s, rep, i);
  }

  lemma SubFromMatchOne(p: Pattern, s: string, rep: string, i: nat)
    requires i < |s| && MatchEnd(p, s, i).Some?
    ensures SubFrom(p, s, rep, i) == rep + SubFrom(p, s, rep, MatchEnd(p, s, i).value)
  {
    ScanMatchOne(Ends(p, s), s, rep, i);
  }

  lemma SubFromLength(p: Pattern, s: string, rep: string, i: nat)
    requires i <= |s| && |rep| <= 1
    ensures |SubFrom(p, s, rep, i)| <= |s| - i
  {
    ScanLength(Ends(p, s), s, rep, i);
  }

  lemma SubFromShrinks(p: Pattern, s: string, i: nat, k: nat)
    requires i <= k < |s| && MatchEnd(p, s, k).Some?
    ensures |SubFrom(p, s, "", i)| < |s| - i
  {
    ScanShrinks(Ends(p, s), s, i, k);
  }

  /** A standalone year starts with a digit. */
  lemma YearNeedsDigit(s: string, i: nat)
    requires i < |s| && !IsDigit(s[i])
    ensures MatchEnd(Year, s, i).None?
  {
  }

  /** A cycle qualifier that starts at a letter starts with "cycle" itself. */
  lemma CycleNeedsC(s: string, i: nat)
    requires i < |s| && !IsDash(s[i]) && !IsSpace(s[i]) && LowerChar(s[i]) != 'c'
    ensures MatchEnd(Cycle, s, i).None?
  {
    assert SkipWhile(s, i, IsSpace) == i;
  }

  /** A cycle qualifier needs "cycle" after its optional dash and spaces. */
  lemma CycleNeedsWord(s: string, i: nat)
    requires i < |s| && !HasCI(s, SkipWhile(s, if IsDash(s[i]) then i + 1 else i, IsSpace), "cycle")
    ensures MatchEnd(Cycle, s, i).None?
  {
  }

  /** A parenthesised note starts at '('. */
  lemma ParenNeedsOpen(s: string, i: nat)
    requires i < |s| && s[i] != '('
    ensures MatchEnd(Paren, s, i).None?
  {
  }

  /** An "in N days" countdown starts with an 'i'. */
  lemma InDaysNeedsI(s: string, i: nat)
    requires i < |s| && LowerChar(s[i]) != 'i'
    ensures MatchEnd(InDays, s, i).None?
  {
    assert !HasCI(s, i, "in") by {
      if i + 2 <= |s| {
        assert !SameFrom(s, i, "in", 0);
      }
    }
  }

  lemma SubNoMatch(p: Pattern, s: string, rep: string)
    requires forall k :: 0 <= k < |s| ==> MatchEnd(p, s, k).None?
    ensures Sub(p, s, rep) == s
  {
    SubFromNoMatch(p, s, rep, 0);
  }

  predicate OnlyPlainSpaces(r: string) {
    forall k :: 0 <= k < |r| && IsSpace(r[k]) ==> r[k] == ' '
  }

  predicate NoDoubleSpace(r: string) {
    forall k :: 0 <= k < |r| - 1 ==> !(IsSpace(r[k]) && IsSpace(r[k + 1]))
  }

  /**
   * `re.sub(r"\s+", " ", s)` leaves only plain single spaces: every
   * whitespace character of the result is ' ' and no two are adjacent.
   */
  lemma {:induction false} SqueezeShape(s: string, i: nat)
    requires i <= |s|
    ensures OnlyPlainSpaces(SubFrom(Spaces, s, " ", i))
    ensures NoDoubleSpace(SubFrom(Spaces, s, " ", i))
    ensures var r := SubFrom(Spaces, s, " ", i); r != [] && IsSpace(r[0]) ==> IsSpace(s[i])
    decreases |s| - i
  {
    if i < |s| {
      var r := SubFrom(Spaces, s, " ", i);
      var m := MatchEnd(Spaces, s, i);
      if m.Some? {
        SubFromMatchOne(Spaces, s, " ", i);
        SqueezeShape(s, m.value);
        var t := SubFrom(Spaces, s, " ", m.value);
        assert forall k :: 1 <= k < |r| ==> r[k] == t[k - 1];
      } else {
        SubFromCopyOne(Spaces, s, " ", i);
        SqueezeShape(s, i + 1);
        var t := SubFrom(Spaces, s, " ", i + 1);
        assert !IsSpace(s[i]);
        assert forall k :: 1 <= k < |r| ==> r[k] == t[k - 1];
      }
    }
  }
}

/**
 * The Python string primitives the scraper relies on: character classes,
 * `str.strip`, `str.lower`, `in` (substring), `str.split`, `str.join`
 * and `str.replace`, each written out so that its behaviour is explicit.
 */
module Text {

  /** Python's `str.isspace`, which is also what `\s` and a bare `strip()` use. */
  predicate IsSpace(c: char) {
    ('\t' <= c <= '\r') || ('\U{1c}' <= c <= '\U{1f}') || c == ' '
    || c == '\U{85}' || c == '\U{a0}' || c == '\U{1680}'
    || ('\U{2000}' <= c <= '\U{200a}') || c == '\U{2028}' || c == '\U{2029}'
    || c == '\U{202f}' || c == '\U{205f}' || c == '\U{3000}'
  }

  predicate IsDigit(c: char) { '0' <= c <= '9' }

  predicate IsLetter(c: char) { ('a' <= c <= 'z') || ('A' <= c <= 'Z') }

  /** A regex word character (`\w`): letter, digit or underscore. */
  predicate IsWordChar(c: char) { IsLetter(c) || IsDigit(c) || c == '_' }

  function LowerChar(c: char): char {
    if 'A' <= c <= 'Z' then (c as int + 32) as char else c
  }

  /** `str.lower()`. */
  function Lower(s: string): (r: string)
    ensures |r| == |s|
    ensures forall k :: 0 <= k < |s| ==> r[k] == LowerChar(s[k])
  {
    if s == [] then [] else [LowerChar(s[0])] + Lower(s[1..])
  }

  /** Lower-casing touches only 'A'..'Z', so whitespace and every other character stay put. */
  lemma LowerKeepsOthers(s: string)
    ensures forall k :: 0 <= k < |s| ==> (IsSpace(Lower(s)[k]) <==> IsSpace(s[k]))
    ensures forall k :: 0 <= k < |s| ==> !('A' <= Lower(s)[k] <= 'Z')
    ensures forall k :: 0 <= k < |s| && !('A' <= s[k] <= 'Z') ==> Lower(s)[k] == s[k]
  {
  }

  predicate AllWhere(s: string, drop: char -> bool) {
    forall k :: 0 <= k < |s| ==> drop(s[k])
  }

  /** Number of leading characters that `drop` removes. */
  function LeadCount(s: string, drop: char -> bool): (n: nat)
    ensures n <= |s|
    ensures AllWhere(s[..n], drop)
    ensures n < |s| ==> !drop(s[n])
  {
    if s == [] || !drop(s[0]) then 0
    else
      var n := 1 + LeadCount(s[1..], drop);
      assert s[..n] == [s[0]] + s[1..][..n - 1];
      n
  }

  /** Index where the trailing run of characters that `drop` removes begins. */
  function TrailStart(s: string, drop: char -> bool): (n: nat)
    ensures n <= |s|
    ensures AllWhere(s[n..], drop)
    ensures n > 0 ==> !drop(s[n - 1])
  {
    if s == [] || !drop(s[|s| - 1]) then |s|
    else
      var n := TrailStart(s[..|s| - 1], drop);
      assert s[n..] == s[..|s| - 1][n..] + [s[|s| - 1]];
      n
  }

  /** `str.strip(chars)`: removes every leading and trailing character in the set. */
  function StripWhere(s: string, drop: char -> bool): (r: string)
    ensures r == [] || (!drop(r[0]) && !drop(r[|r| - 1]))
    ensures r == [] <==> AllWhere(s, drop)
    ensures r != [] ==> r == s[LeadCount(s, drop)..TrailStart(s, drop)]
  {
    var i := LeadCount(s, drop);
    var j := TrailStart(s, drop);
    if j <= i then
      assert AllWhere(s, drop) by {
        assert forall k :: 0 <= k < i ==> s[..i][k] == s[k];
        assert forall k :: j <= k < |s| ==> s[j..][k - j] == s[k];
      }
      []
    else
      assert !AllWhere(s, drop) by { assert !drop(s[i]); }
      s[i..j]
  }

  /** `str.strip()` with no argument: Python whitespace at both ends. */
  function Strip(s: string): (r: string)
    ensures r == [] || (!IsSpace(r[0]) && !IsSpace(r[|r| - 1]))
    ensures |r| <= |s|
  {
    StripWhere(s, IsSpace)
  }

  /** Stripping text that is already trimmed changes nothing. */
  lemma StripTrimmed(t: string)
    requires t == [] || (!IsSpace(t[0]) && !IsSpace(t[|t| - 1]))
    ensures Strip(t) == t
  {
    if t != [] {
      assert LeadCount(t, IsSpace) == 0;
      assert TrailStart(t, IsSpace) == |t|;
      assert !AllWhere(t, IsSpace);
    }
  }

  /** Stripping never introduces a character. */
  lemma StripAbsent(t: string, c: char)
    requires c !in t
    ensures c !in Strip(t)
  {
    var r := Strip(t);
    if r != [] {
      var i := LeadCount(t, IsSpace);
      assert r == t[i..TrailStart(t, IsSpace)];
      assert forall k :: 0 <= k < |r| ==> r[k] == t[i + k];
    }
  }

  /**
   * Each piece stripped and the ones left empty dropped, in order: the text
   * nodes `get_text(strip=True)` keeps, and the tags of a split topics cell.
   */
  function Pieces(parts: seq<string>): (r: seq<string>)
    ensures forall k :: 0 <= k < |r| ==> r[k] != [] && !IsSpace(r[k][0]) && !IsSpace(r[k][|r[k]| - 1])
    ensures |r| <= |parts|
  {
    if parts == [] then []
    else
      var t := Strip(parts[0]);
      var rest := Pieces(parts[1..]);
      if t == "" then rest else [t] + rest
  }

  /** The pieces of two lists laid end to end are the pieces of each, one after the other. */
  lemma {:induction false} PiecesAppend(a: seq<string>, b: seq<string>)
    ensures Pieces(a + b) == Pieces(a) + Pieces(b)
  {
    if a == [] {
      assert a + b == b;
    } else {
      assert (a + b)[1..] == a[1..] + b;
      PiecesAppend(a[1..], b);
    }
  }

  /** A single part gives its stripped text, or nothing when that is empty. */
  lemma PiecesOne(x: string)
    ensures Pieces([x]) == if Strip(x) == "" then [] else [Strip(x)]
  {
    assert [x][1..] == [];
  }

  lemma {:induction false} PiecesEmpty(parts: seq<string>)
    ensures Pieces(parts) == [] <==> forall k :: 0 <= k < |parts| ==> Strip(parts[k]) == ""
  {
    if parts != [] {
      PiecesEmpty(parts[1..]);
      assert forall k :: 1 <= k < |parts| ==> parts[k] == parts[1..][k - 1];
    }
  }

  /** `str.strip(chars)` with an explicit character set. */
  function StripChars(s: string, chars: set<char>): (r: string)
    ensures r == [] || (r[0] !in chars && r[|r| - 1] !in chars)
  {
    StripWhere(s, c => c in chars)
  }

  /**
   * `s` has the letters of `t`.  Worked examples are stated for any such `s`,
   * so that they are argued from the letters one position at a time.
   */
  predicate Spelled(s: string, t: string) {
    |s| == |t| && forall k :: 0 <= k < |t| ==> s[k] == t[k]
  }

  /** The leading run is exactly the prefix whose characters are all dropped and that stops before a kept one. */
  lemma LeadCountIs(s: string, drop: char -> bool, i: nat)
    requires i <= |s| && AllWhere(s[..i], drop) && (i < |s| ==> !drop(s[i]))
    ensures LeadCount(s, drop) == i
  {
    var n := LeadCount(s, drop);
    assert forall k :: 0 <= k < n ==> s[..n][k] == s[k];
    assert forall k :: 0 <= k < i ==> s[..i][k] == s[k];
  }

  /** The trailing run is exactly the suffix whose characters are all dropped and that starts after a kept one. */
  lemma TrailStartIs(s: string, drop: char -> bool, j: nat)
    requires j <= |s| && AllWhere(s[j..], drop) && (j > 0 ==> !drop(s[j - 1]))
    ensures TrailStart(s, drop) == j
  {
  }

  /**
   * `str.strip(chars)` treats `chars` as a set, not a prefix or suffix: it
   * keeps exactly the stretch from the first to the last character outside
   * the set.
   */
  lemma StripCharsIs(s: string, chars: set<char>, i: nat, j: nat)
    requires i < j <= |s|
    requires forall k :: 0 <= k < i || j <= k < |s| ==> s[k] in chars
    requires s[i] !in chars && s[j - 1] !in chars
    ensures StripChars(s, chars) == s[i..j]
  {
    var drop := c => c in chars;
    assert AllWhere(s[..i], drop) by {
      forall k | 0 <= k < i ensures drop(s[..i][k]) { assert s[..i][k] == s[k]; }
    }
    assert AllWhere(s[j..], drop) by {
      forall k | 0 <= k < |s| - j ensures drop(s[j..][k]) { assert s[j..][k] == s[j + k]; }
    }
    LeadCountIs(s, drop, i);
    TrailStartIs(s, drop, j);
  }

  /** Python's `pat in s`. */
  predicate Contains(s: string, pat: string)
    decreases |s|
  {
    pat <= s || (|s| > 0 && Contains(s[1..], pat))
  }

  lemma ContainsAt(s: string, pat: string, i: nat)
    requires i + |pat| <= |s| && s[i..i + |pat|] == pat
    ensures Contains(s, pat)
    decreases i
  {
    if i > 0 {
      assert s[1..][i - 1..i - 1 + |pat|] == s[i..i + |pat|];
      ContainsAt(s[1..], pat, i - 1);
    }
  }

  /** `sep.join(parts)`. */
  function Join(parts: seq<string>, sep: string): string {
    if parts == [] then ""
    else if |parts| == 1 then parts[0]
    else parts[0] + sep + Join(parts[1..], sep)
  }

  /** Index of the first occurrence of `c` in `s`, or `|s|` if there is none. */
  function IndexOf(s: string, c: char): (i: nat)
    ensures i <= |s|
    ensures forall k :: 0 <= k < i ==> s[k] != c
    ensures i < |s| ==> s[i] == c
  {
    if s == [] || s[0] == c then 0 else 1 + IndexOf(s[1..], c)
  }

  /** `s.split(d)` for a one-character separator. */
  function Split(s: string, d: char): (r: seq<string>)
    ensures |r| >= 1
    decreases |s|
  {
    var i := IndexOf(s, d);
    if i == |s| then [s] else [s[..i]] + Split(s[i + 1..], d)
  }

  /** No piece of a split contains the separator. */
  lemma {:induction false} SplitPiecesFree(s: string, d: char)
    ensures forall k :: 0 <= k < |Split(s, d)| ==> d !in Split(s, d)[k]
    decreases |s|
  {
    var i := IndexOf(s, d);
    if i < |s| {
      SplitPiecesFree(s[i + 1..], d);
      var r := Split(s, d);
      assert r == [s[..i]] + Split(s[i + 1..], d);
      forall k | 0 <= k < |r| ensures d !in r[k] {
        if k == 0 {
          assert forall m :: 0 <= m < |s[..i]| ==> s[..i][m] != d;
        } else {
          assert r[k] == Split(s[i + 1..], d)[k - 1];
        }
      }
    }
  }

  /** Splitting and re-joining with the same separator gives the string back. */
  lemma {:induction false} JoinSplit(s: string, d: char)
    ensures Join(Split(s, d), [d]) == s
    decreases |s|
  {
    var i := IndexOf(s, d);
    if i < |s| {
      JoinSplit(s[i + 1..], d);
      var rest := Split(s[i + 1..], d);
      assert Split(s, d) == [s[..i]] + rest;
      assert Join(Split(s, d), [d]) == s[..i] + [d] + Join(rest, [d]);
      assert s == s[..i] + [d] + s[i + 1..];
    }
  }

  /** `s.replace(pat, rep)`: every non-overlapping occurrence, left to right. */
  function ReplaceAll(s: string, pat: string, rep: string): string
    requires |pat| > 0
    decreases |s|
  {
    if |s| < |pat| then s
    else if pat <= s then rep + ReplaceAll(s[|pat|..], pat, rep)
    else [s[0]] + ReplaceAll(s[1..], pat, rep)
  }

  /** Replacing a pattern that does not occur changes nothing. */
  lemma {:induction false} ReplaceAbsent(s: string, pat: string, rep: string)
    requires |pat| > 0
    requires !Contains(s, pat)
    ensures ReplaceAll(s, pat, rep) == s
    decreases |s|
  {
    if |s| >= |pat| {
      ReplaceAbsent(s[1..], pat, rep);
      assert [s[0]] + s[1..] == s;
    }
  }

  /** A prefix that does not contain the pattern's first character passes through `replace` untouched. */
  lemma {:induction false} ReplaceSkip(a: string, b: string, pat: string, rep: string)
    requires |pat| > 0 && pat[0] !in a
    ensures ReplaceAll(a + b, pat, rep) == a + ReplaceAll(b, pat, rep)
    decreases |a|
  {
    if a != [] {
      var t := a + b;
      assert t[0] == a[0] && t[0] != pat[0];
      assert t[1..] == a[1..] + b;
      assert pat[0] !in a[1..] by { assert forall k :: 0 <= k < |a[1..]| ==> a[1..][k] == a[k + 1]; }
      ReplaceSkip(a[1..], b, pat, rep);
      if |t| < |pat| {
        assert ReplaceAll(t, pat, rep) == t;
        assert ReplaceAll(b, pat, rep) == b;
      } else {
        assert !(pat <= t) by { assert pat[0] != t[0]; }
        calc {
          ReplaceAll(t, pat, rep);
          [t[0]] + ReplaceAll(t[1..], pat, rep);
          [a[0]] + (a[1..] + ReplaceAll(b, pat, rep));
          { assert a == [a[0]] + a[1..]; }
          a + ReplaceAll(b, pat, rep);
        }
      }
    } else {
      assert a + b == b;
    }
  }

  /** `s.replace(c, d)` for single characters. */
  function ReplaceChar(s: string, c: char, d: char): (r: string)
    ensures |r| == |s|
    ensures forall k :: 0 <= k < |s| ==> r[k] == (if s[k] == c then d else s[k])
  {
    if s == [] then [] else [if s[0] == c then d else s[0]] + ReplaceChar(s[1..], c, d)
  }

  /** `s.replace(c, "")`: drops every occurrence of one character. */
  function RemoveChar(s: string, c: char): (r: string)
    ensures c !in r
    ensures |r| <= |s|
    ensures c !in s ==> r == s
    ensures forall x :: x in r <==> x in s && x != c
  {
    if s == [] then []
    else
      assert forall x :: x in s <==> x == s[0] || x in s[1..];
      (if s[0] == c then [] else [s[0]]) + RemoveChar(s[1..], c)
  }

  /** Removal works piece by piece: what is kept of each part stays, in order. */
  lemma {:induction false} RemoveCharAppend(a: string, b: string, c: char)
    ensures RemoveChar(a + b, c) == RemoveChar(a, c) + RemoveChar(b, c)
  {
    if a == [] {
      assert a + b == b;
    } else {
      assert (a + b)[1..] == a[1..] + b;
      RemoveCharAppend(a[1..], b, c);
    }
  }

  /** One character is dropped when it is `c` and kept otherwise. */
  lemma RemoveCharOne(x: char, c: char)
    ensures RemoveChar([x], c) == if x == c then [] else [x]
  {
    assert [x][1..] == [];
  }
}

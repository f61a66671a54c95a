/**
 * The lookup key a conference name is matched on (`normalize_for_lookup`):
 * standalone four-digit years and "cycle N / spring / fall" qualifiers are
 * deleted, whitespace runs become one space, and the ends are trimmed.  The
 * display name itself is never changed.
 */
module NameKey {
  import opened Wrappers
  import opened Text
  import opened Regex

  /** Trimmed, every whitespace character a plain ' ', never two in a row. */
  predicate Shaped(r: string) {
    (r == [] || (!IsSpace(r[0]) && !IsSpace(r[|r| - 1]))) && OnlyPlainSpaces(r) && NoDoubleSpace(r)
  }

  predicate NoMatch(p: Pattern, s: string) {
    forall k :: 0 <= k < |s| ==> MatchEnd(p, s, k).None?
  }

  function Normalize(name: string): (r: string)
    ensures Shaped(r)
    ensures |r| <= |name|
  {
    var noYears := Sub(Year, name, "");
    var noCycles := Sub(Cycle, noYears, "");
    var squeezed := Sub(Spaces, noCycles, " ");
    SqueezeShape(noCycles, 0);
    SubFromLength(Year, name, "", 0);
    SubFromLength(Cycle, noYears, "", 0);
    SubFromLength(Spaces, noCycles, " ", 0);
    StripKeepsShape(squeezed);
    Strip(squeezed)
  }

  /** The key `build_name_to_sub_map` files an entry under: trimmed, years deleted, trimmed again. */
  function YearKey(raw: string): (r: string)
    ensures r == [] || (!IsSpace(r[0]) && !IsSpace(r[|r| - 1]))
    ensures NoMatch(Year, Strip(raw)) ==> r == Strip(raw)
  {
    var t := Strip(raw);
    if NoMatch(Year, t) then
      SubNoMatch(Year, t, "");
      StripTrimmed(t);
      Strip(Sub(Year, t, ""))
    else
      Strip(Sub(Year, t, ""))
  }

  lemma StripKeepsShape(s: string)
    requires OnlyPlainSpaces(s) && NoDoubleSpace(s)
    ensures OnlyPlainSpaces(Strip(s)) && NoDoubleSpace(Strip(s))
  {
    var r := Strip(s);
    if r != [] {
      var i := LeadCount(s, IsSpace);
      assert r == s[i..TrailStart(s, IsSpace)];
      assert forall k :: 0 <= k < |r| ==> r[k] == s[i + k];
    }
  }

  /** Squeezing whitespace in text that is already squeezed changes nothing. */
  lemma {:induction false} SqueezeFixed(t: string, i: nat)
    requires i <= |t| && OnlyPlainSpaces(t) && NoDoubleSpace(t)
    ensures SubFrom(Spaces, t, " ", i) == t[i..]
    decreases |t| - i
  {
    if i < |t| {
      SqueezeFixed(t, i + 1);
      if IsSpace(t[i]) {
        assert SkipWhile(t, i + 1, IsSpace) == i + 1;
        assert MatchEnd(Spaces, t, i) == Some(i + 1);
      }
      assert t[i..] == [t[i]] + t[i + 1..];
    }
  }

  /**
   * The fixed points of the normaliser among shaped strings are exactly those
   * in which neither a standalone year nor a cycle qualifier can be found.
   */
  lemma NormalizeFixedPoint(t: string)
    requires Shaped(t)
    ensures Normalize(t) == t <==> NoMatch(Year, t) && NoMatch(Cycle, t)
  {
    var noYears := Sub(Year, t, "");
    var noCycles := Sub(Cycle, noYears, "");
    var squeezed := Sub(Spaces, noCycles, " ");
    SubFromLength(Cycle, noYears, "", 0);
    SubFromLength(Spaces, noCycles, " ", 0);
    if NoMatch(Year, t) && NoMatch(Cycle, t) {
      SubNoMatch(Year, t, "");
      SubNoMatch(Cycle, t, "");
      SqueezeFixed(t, 0);
      StripTrimmed(t);
    } else if !NoMatch(Year, t) {
      var k :| 0 <= k < |t| && MatchEnd(Year, t, k).Some?;
      SubFromShrinks(Year, t, 0, k);
    } else {
      SubNoMatch(Year, t, "");
      var k :| 0 <= k < |t| && MatchEnd(Cycle, t, k).Some?;
      SubFromShrinks(Cycle, t, 0, k);
    }
  }

  /**
   * Normalising a second time changes the key exactly when the first pass
   * left a year or a cycle qualifier behind (the removals can expose one).
   */
  lemma NormalizeTwice(name: string)
    ensures var key := Normalize(name);
      Normalize(key) == key <==> NoMatch(Year, key) && NoMatch(Cycle, key)
  {
    NormalizeFixedPoint(Normalize(name));
  }

  /** The key of a name whose two deletions give a word without whitespace is that word. */
  lemma NormalizeVia(name: string, a: string, b: string)
    requires Sub(Year, name, "") == a && Sub(Cycle, a, "") == b
    requires forall k :: 0 <= k < |b| ==> !IsSpace(b[k])
    ensures Normalize(name) == b
  {
    SubNoMatch(Spaces, b, " ");
    StripTrimmed(b);
  }

  /** The qualifier needs no word boundary in front: "Bicycle 2" loses "cycle 2". */
  lemma BicycleKey()
    ensures Normalize("Bicycle 2") == "Bi"
  {
    BicycleKeyAt("Bicycle 2");
  }

  lemma BicycleKeyAt(s: string)
    requires Spelled(s, "Bicycle 2")
    ensures Normalize(s) == "Bi"
  {
    BicycleNoYear(s);
    BicycleCut(s);
    NormalizeVia(s, s, "Bi");
  }

  lemma BicycleNoYear(s: string)
    requires Spelled(s, "Bicycle 2")
    ensures Sub(Year, s, "") == s
  {
    forall k | 0 <= k < |s| ensures MatchEnd(Year, s, k).None? {
      if k != 8 { YearNeedsDigit(s, k); }
    }
    SubNoMatch(Year, s, "");
  }

  lemma BicycleCut(s: string)
    requires Spelled(s, "Bicycle 2")
    ensures Sub(Cycle, s, "") == "Bi"
  {
    CycleNeedsC(s, 0);
    CycleNeedsC(s, 1);
    SubFromCopy(Cycle, s, "", 0, 2);
    BicycleMatch(s);
    SubFromMatchOne(Cycle, s, "", 2);
    assert s[..2] == "Bi";
  }

  lemma BicycleMatch(s: string)
    requires Spelled(s, "Bicycle 2")
    ensures MatchEnd(Cycle, s, 2) == Some(9)
  {
    assert SkipWhile(s, 2, IsSpace) == 2;
    assert HasCI(s, 2, "cycle");
    assert SkipWhile(s, 7, IsSpace) == 8;
    assert SkipWhile(s, 8, IsDigit) == 9;
  }

  /** The qualifier needs a word boundary after it: "cycle 1a" is left as it is. */
  lemma CycleOneAKey()
    ensures Normalize("cycle 1a") == "cycle 1a"
  {
    CycleOneAKeyAt("cycle 1a");
  }

  lemma CycleOneAKeyAt(s: string)
    requires Spelled(s, "cycle 1a")
    ensures Normalize(s) == s
  {
    assert Shaped(s);
    forall k | 0 <= k < |s| ensures MatchEnd(Year, s, k).None? {
      if k != 6 { YearNeedsDigit(s, k); }
    }
    CycleOneANoMatch(s);
    NormalizeFixedPoint(s);
  }

  lemma CycleOneANoMatch(s: string)
    requires Spelled(s, "cycle 1a")
    ensures NoMatch(Cycle, s)
  {
    CycleOneAStart(s);
    CycleOneAInside(s);
    forall k | 0 <= k < |s| && k != 0 && k != 2 && k != 5 ensures MatchEnd(Cycle, s, k).None? {
      CycleNeedsC(s, k);
    }
  }

  lemma CycleOneAInside(s: string)
    requires Spelled(s, "cycle 1a")
    ensures MatchEnd(Cycle, s, 2).None? && MatchEnd(Cycle, s, 5).None?
  {
    assert SkipWhile(s, 2, IsSpace) == 2;
    CycleNeedsWord(s, 2);
    assert SkipWhile(s, 5, IsSpace) == 6;
    CycleNeedsWord(s, 5);
  }

  lemma CycleOneAStart(s: string)
    requires Spelled(s, "cycle 1a")
    ensures MatchEnd(Cycle, s, 0).None?
  {
    assert SkipWhile(s, 0, IsSpace) == 0;
    assert HasCI(s, 0, "cycle");
    assert SkipWhile(s, 5, IsSpace) == 6;
    assert SkipWhile(s, 6, IsDigit) == 7;
    assert !Boundary(s, 7);
    assert !HasCI(s, 6, "spring") && !HasCI(s, 6, "fall");
  }

  /**
   * Normalising is not idempotent: "2024cycle 1" has no standalone year, so
   * only the qualifier goes and "2024" is left, which the next pass deletes.
   */
  lemma NotIdempotent()
    ensures Normalize("2024cycle 1") == "2024"
    ensures Normalize(Normalize("2024cycle 1")) == ""
  {
    GluedYearKey();
    YearOnlyKey();
  }

  lemma GluedYearKey()
    ensures Normalize("2024cycle 1") == "2024"
  {
    GluedYearKeyAt("2024cycle 1");
  }

  lemma GluedYearKeyAt(s: string)
    requires Spelled(s, "2024cycle 1")
    ensures Normalize(s) == "2024"
  {
    GluedYearNoYear(s);
    GluedYearCut(s);
    NormalizeVia(s, s, "2024");
  }

  lemma GluedYearNoYear(s: string)
    requires Spelled(s, "2024cycle 1")
    ensures Sub(Year, s, "") == s
  {
    assert !Boundary(s, 4);
    forall k | 0 <= k < |s| ensures MatchEnd(Year, s, k).None? {
      if 4 <= k < 10 { YearNeedsDigit(s, k); }
    }
    SubNoMatch(Year, s, "");
  }

  lemma GluedYearCut(s: string)
    requires Spelled(s, "2024cycle 1")
    ensures Sub(Cycle, s, "") == "2024"
  {
    forall k | 0 <= k < 4 ensures MatchEnd(Cycle, s, k).None? {
      CycleNeedsC(s, k);
    }
    SubFromCopy(Cycle, s, "", 0, 4);
    GluedYearMatch(s);
    SubFromMatchOne(Cycle, s, "", 4);
    assert s[..4] == "2024";
  }

  lemma GluedYearMatch(s: string)
    requires Spelled(s, "2024cycle 1")
    ensures MatchEnd(Cycle, s, 4) == Some(11)
  {
    assert SkipWhile(s, 4, IsSpace) == 4;
    assert HasCI(s, 4, "cycle");
    assert SkipWhile(s, 9, IsSpace) == 10;
    assert SkipWhile(s, 10, IsDigit) == 11;
  }

  lemma YearOnlyKey()
    ensures Normalize("2024") == ""
  {
    var s := "2024";
    assert MatchEnd(Year, s, 0) == Some(4);
  }

  /** The reference name's own example: "ACM SIGCOMM 2025 - Cycle 2" is looked up as "ACM SIGCOMM". */
  lemma SigcommKey()
    ensures Normalize("ACM SIGCOMM 2025 - Cycle 2") == "ACM SIGCOMM"
  {
    SigcommKeyAt("ACM SIGCOMM 2025 - Cycle 2");
  }

  lemma SigcommKeyAt(s: string)
    requires Spelled(s, "ACM SIGCOMM 2025 - Cycle 2")
    ensures Normalize(s) == "ACM SIGCOMM"
  {
    var a := Sub(Year, s, "");
    SigcommNoYear(s);
    var b := Sub(Cycle, a, "");
    SigcommNoCycle(a);
    var c := Sub(Spaces, b, " ");
    SigcommSqueeze(b);
    SigcommStrip(c);
  }

  /** The year goes, with neither of the spaces around it. */
  lemma SigcommNoYear(s: string)
    requires Spelled(s, "ACM SIGCOMM 2025 - Cycle 2")
    ensures Spelled(Sub(Year, s, ""), "ACM SIGCOMM  - Cycle 2")
  {
    SigcommNoDigits(s, 0, 12);
    SubFromCopy(Year, s, "", 0, 12);
    SigcommYearMatch(s);
    SubFromMatchOne(Year, s, "", 12);
    SigcommNoDigits(s, 16, 25);
    assert !FourDigits(s, 25);
    SubFromNoMatch(Year, s, "", 16);
    SigcommCutYear(s);
  }

  lemma SigcommNoDigits(s: string, lo: nat, hi: nat)
    requires Spelled(s, "ACM SIGCOMM 2025 - Cycle 2")
    requires (lo == 0 && hi == 12) || (lo == 16 && hi == 25)
    ensures forall k :: lo <= k < hi ==> MatchEnd(Year, s, k).None?
  {
    forall k | lo <= k < hi ensures MatchEnd(Year, s, k).None? {
      YearNeedsDigit(s, k);
    }
  }

  lemma SigcommYearMatch(s: string)
    requires Spelled(s, "ACM SIGCOMM 2025 - Cycle 2")
    ensures MatchEnd(Year, s, 12) == Some(16)
  {
    assert FourDigits(s, 12) && Boundary(s, 12) && Boundary(s, 16);
  }

  lemma SigcommCutYear(s: string)
    requires Spelled(s, "ACM SIGCOMM 2025 - Cycle 2")
    ensures Spelled(s[..12] + ("" + s[16..]), "ACM SIGCOMM  - Cycle 2")
  {
    var a := s[..12] + ("" + s[16..]);
    assert forall k :: 0 <= k < 12 ==> a[k] == s[k];
    assert forall k :: 12 <= k < 22 ==> a[k] == s[k + 4];
  }

  /** The dash, the word and the number go together, leaving two spaces behind the acronym. */
  lemma SigcommNoCycle(t: string)
    requires Spelled(t, "ACM SIGCOMM  - Cycle 2")
    ensures Spelled(Sub(Cycle, t, ""), "ACM SIGCOMM  ")
  {
    SigcommNoCycleBefore(t);
    SubFromCopy(Cycle, t, "", 0, 13);
    SigcommCycleMatch(t);
    SubFromMatchOne(Cycle, t, "", 13);
    assert Spelled(t[..13], "ACM SIGCOMM  ");
  }

  lemma SigcommNoCycleBefore(t: string)
    requires Spelled(t, "ACM SIGCOMM  - Cycle 2")
    ensures forall k :: 0 <= k < 13 ==> MatchEnd(Cycle, t, k).None?
  {
    SigcommNoCycleAtC(t);
    SigcommNoCycleAtSpace(t);
    SigcommNoCycleLetters(t, 0, 7);
    SigcommNoCycleLetters(t, 7, 13);
  }

  lemma SigcommNoCycleLetters(t: string, lo: nat, hi: nat)
    requires Spelled(t, "ACM SIGCOMM  - Cycle 2") && lo <= hi <= 13
    ensures forall k :: lo <= k < hi && k != 1 && k != 3 && k != 7 && k != 11 && k != 12 ==> MatchEnd(Cycle, t, k).None?
  {
    forall k | lo <= k < hi && k != 1 && k != 3 && k != 7 && k != 11 && k != 12
      ensures MatchEnd(Cycle, t, k).None?
    {
      CycleNeedsC(t, k);
    }
  }

  lemma SigcommNoCycleAtC(t: string)
    requires Spelled(t, "ACM SIGCOMM  - Cycle 2")
    ensures MatchEnd(Cycle, t, 1).None? && MatchEnd(Cycle, t, 7).None?
  {
    SigcommNoCycleAtLetter(t, 1);
    SigcommNoCycleAtLetter(t, 7);
  }

  /** A `C` of the acronym is not followed by a `y`. */
  lemma SigcommNoCycleAtLetter(t: string, i: nat)
    requires Spelled(t, "ACM SIGCOMM  - Cycle 2") && (i == 1 || i == 7)
    ensures MatchEnd(Cycle, t, i).None?
  {
    assert !IsSpace(t[i]) && !IsDash(t[i]) && LowerChar(t[i + 1]) != 'y';
    assert SkipWhile(t, i, IsSpace) == i;
    assert !HasCI(t, i, "cycle");
    CycleNeedsWord(t, i);
  }

  lemma SigcommNoCycleAtSpace(t: string)
    requires Spelled(t, "ACM SIGCOMM  - Cycle 2")
    ensures MatchEnd(Cycle, t, 3).None? && MatchEnd(Cycle, t, 11).None? && MatchEnd(Cycle, t, 12).None?
  {
    assert SkipWhile(t, 3, IsSpace) == 4 && LowerChar(t[4]) != 'c';
    CycleNeedsWord(t, 3);
    SigcommNoCycleAtGap(t);
  }

  lemma SigcommNoCycleAtGap(t: string)
    requires Spelled(t, "ACM SIGCOMM  - Cycle 2")
    ensures MatchEnd(Cycle, t, 11).None? && MatchEnd(Cycle, t, 12).None?
  {
    assert SkipWhile(t, 12, IsSpace) == 13 && LowerChar(t[13]) != 'c';
    assert SkipWhile(t, 11, IsSpace) == 13;
    CycleNeedsWord(t, 11);
    CycleNeedsWord(t, 12);
  }

  lemma SigcommCycleMatch(t: string)
    requires Spelled(t, "ACM SIGCOMM  - Cycle 2")
    ensures MatchEnd(Cycle, t, 13) == Some(22)
  {
    assert SkipWhile(t, 14, IsSpace) == 15;
    assert HasCI(t, 15, "cycle");
    assert SkipWhile(t, 20, IsSpace) == 21;
    assert SkipWhile(t, 21, IsDigit) == 22;
  }

  /** The two trailing spaces become one. */
  lemma SigcommSqueeze(u: string)
    requires Spelled(u, "ACM SIGCOMM  ")
    ensures Spelled(Sub(Spaces, u, " "), "ACM SIGCOMM ")
  {
    forall k | 0 <= k < 3 ensures MatchEnd(Spaces, u, k).None? { }
    SubFromCopy(Spaces, u, " ", 0, 3);
    assert SkipWhile(u, 3, IsSpace) == 4;
    SubFromMatchOne(Spaces, u, " ", 3);
    forall k | 4 <= k < 11 ensures MatchEnd(Spaces, u, k).None? { }
    SubFromCopy(Spaces, u, " ", 4, 11);
    assert SkipWhile(u, 12, IsSpace) == 13;
    assert SkipWhile(u, 11, IsSpace) == 13;
    SubFromMatchOne(Spaces, u, " ", 11);
    SigcommSqueezed(u);
  }

  lemma SigcommSqueezed(u: string)
    requires Spelled(u, "ACM SIGCOMM  ")
    ensures Spelled(u[..3] + (" " + (u[4..11] + (" " + ""))), "ACM SIGCOMM ")
  {
    var v := u[..3] + (" " + (u[4..11] + (" " + "")));
    assert |v| == 12 && v[3] == ' ' && v[11] == ' ';
    assert forall k :: 0 <= k < 3 ==> v[k] == u[k];
    assert forall k :: 4 <= k < 11 ==> v[k] == u[k];
  }

  lemma SigcommStrip(v: string)
    requires Spelled(v, "ACM SIGCOMM ")
    ensures Strip(v) == "ACM SIGCOMM"
  {
    LeadCountIs(v, IsSpace, 0);
    assert AllWhere(v[11..], IsSpace);
    TrailStartIs(v, IsSpace, 11);
    assert !AllWhere(v, IsSpace);
    assert Spelled(v[..11], "ACM SIGCOMM");
  }
}

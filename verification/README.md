# Conference tracker scraper: the data-transformation core

`conf_scrapper.py` builds one list of upcoming conferences from two sources:

- **Listing A** is a conference-tracker HTML table. Its rows are labelled with a subject area through a reference JSON file that maps conference names to subjects.
- **Listing B** is the EasyChair call-for-papers table. Its rows are labelled by a keyword classifier over their topic tags and names, and each row's detail page supplies the conference link and the abstract deadline.

The two listings are cut down to the same seven columns. They are merged with B first, nulls are filled with "", and the result is projected onto nine output columns.

This project models that pipeline as pure Dafny functions over immutable data:

- HTML cells are `Html.Cell` values: the cell's text nodes, its anchors with optional `href`, and its tag spans.
- A JSON reference entry is `SubjectMap.RefEntry`.
- A dict is an insertion-ordered list of pairs (`Dicts.Dict`), with Python's last-write-wins assignment and first-write-wins `setdefault`.
- The three regular expressions of the name normaliser and the four of the deadline cleaner are hand-written matchers (`Regex.MatchEnd`), with a `re.sub` scanner over them.
- `datetime.strptime` for the four deadline formats is a small grammar with calendar validation, leap years included (`Deadline.Strptime`).
- `strftime` renders `"%b %d %Y"` and `"%b %d, %Y"`.

Three things stay parameters:

- `parse: string -> Option<ValidDate>` stands for `pd.to_datetime(..., errors="coerce")`.
- `fetch: string -> Option<Page>` stands for fetching and parsing a detail page. `None` means any failure.
- `order: seq<string>` is the iteration order of the `interest_terms` set. Every contract that depends on it requires `order` to enumerate the set exactly.

Modules follow the script's parts:

- `Text`, `Html`, `Dicts`, `Regex` and `Calendar` are the Python and library behaviour the script relies on.
- `NameKey` is `normalize_for_lookup`.
- `SubjectMap` is the reference map, `norm_map`, the lookup and `unmatched`.
- `Deadline` is `clean_deadline`.
- `ShortDate` is `fmt_date` and `_fmt_short_month_date_year`.
- `Keyword` is `find_sub` and the drop of unlabelled rows.
- `Detail` is the two detail-page lookups.
- `SourceA` and `SourceB` shape the two tables.
- `Listing` is the seven-column row both listings become.
- `Assembly` is the merge and what is written.

The code is followed where the script's documentation promises more:

- `normalize_for_lookup` is described as producing a canonical key, but applying it twice can change the key. `NameKey.NotIdempotent` exhibits this. `NameKey.NormalizeTwice` states exactly when a key is a fixed point.
- The regex `CYCLE_RE` has no leading word boundary. So "Bicycle 2" loses its tail, which `NameKey.BicycleKey` states.

## Model

| member | source | states |
|---|---|---|
| Wrappers.OrEmpty | conf_scrapper.py:432 | `fillna('')` on one cell: a null becomes "", a value is kept |
| Wrappers.NoneIfEmpty | conf_scrapper.py:200-211 | the `... or None` idiom: the result is `None` exactly when the text is empty, and otherwise holds it |
| Text.Lower | conf_scrapper.py:39 | `str.lower()`: same length, each character lower-cased on its own |
| Text.LowerKeepsOthers | conf_scrapper.py:368 | lower-casing leaves no upper-case letter, keeps every other character and does not change which characters are whitespace |
| Text.StripWhere | conf_scrapper.py:201 | stripping a character class: the result is empty exactly when every character is stripped; otherwise it is the slice between the leading and trailing runs, and its ends are kept characters |
| Text.Strip | conf_scrapper.py:52 | `str.strip()`: the result has no whitespace at either end and is no longer than the input |
| Text.StripTrimmed | conf_scrapper.py:147 | stripping text whose ends are not whitespace returns it unchanged |
| Text.StripAbsent | conf_scrapper.py:368 | stripping never introduces a character that was absent |
| Text.StripChars | conf_scrapper.py:201 | `str.strip(chars)`: the result neither starts nor ends with one of `chars` |
| Text.StripCharsIs | conf_scrapper.py:201 | the character-set strip keeps exactly the slice between the outermost kept characters |
| Text.IndexOf | conf_scrapper.py:288 | the first position of the separator, or the length when it is absent |
| Text.SplitPiecesFree | conf_scrapper.py:288 | no piece of a split contains the separator |
| Text.JoinSplit | conf_scrapper.py:288 | joining the pieces of `s.split(d)` with `d` gives back `s` |
| Text.ReplaceAbsent | conf_scrapper.py:326 | `str.replace` leaves text without the pattern unchanged |
| Text.ReplaceSkip | conf_scrapper.py:326 | `str.replace` copies a prefix that cannot start the pattern and continues after it |
| Text.ReplaceChar | conf_scrapper.py:368 | replacing one character by another: same length, only that character changed |
| Text.RemoveChar | conf_scrapper.py:146 | deleting every `;`: none is left, nothing grows, every other character stays, and text without one is unchanged |
| Text.RemoveCharAppend | conf_scrapper.py:146 | deletion works part by part, so the kept characters stay in their order |
| Text.RemoveCharOne | conf_scrapper.py:146 | one character is dropped exactly when it is the deleted one |
| Text.Pieces | conf_scrapper.py:25 | `get_text(strip=True)` and the tag split keep stripped, non-empty pieces, each with non-space ends, never more than there were parts |
| Text.PiecesAppend | conf_scrapper.py:25 | the pieces of two lists laid end to end are the pieces of each in turn, so every kept node stays, in order |
| Text.PiecesOne | conf_scrapper.py:25 | one part gives its stripped text, or nothing when that is empty |
| Text.PiecesEmpty | conf_scrapper.py:25 | there are no pieces exactly when every part strips to empty |
| Html.GetTextTrimmed | conf_scrapper.py:43 | with "" or " " as separator the text has no whitespace at its ends, and it is empty exactly when every text node strips to empty |
| Html.GetTextEmpty | conf_scrapper.py:204 | `get_text(strip=True)` is "" exactly when every text node is whitespace only |
| Html.JoinTrimmed | conf_scrapper.py:43 | joining non-empty trimmed pieces gives text that is empty only for no pieces and has the pieces' outer characters at its ends |
| Html.FirstAnchor | conf_scrapper.py:199 | `find("a")`: `None` exactly when the cell has no anchor, else the first one |
| Html.FirstLinked | conf_scrapper.py:40 | `find("a", href=True)`: `None` exactly when no anchor has an `href`, else the first anchor that has one |
| Html.GetText | conf_scrapper.py:43 | `get_text(sep, strip=True)`: the pieces joined by the separator; GetTextTrimmed, GetTextEmpty and Text.PiecesAppend give its meaning |
| Dicts.Keys | conf_scrapper.py:33-44 | the keys of a dict, in insertion order |
| Dicts.Get | conf_scrapper.py:120 | `d.get(k)`: `None` exactly when `k` is not a key, else a value stored under `k` |
| Dicts.Put | conf_scrapper.py:36-43 | `d[k] = v` keeps the key order and appends a new key at the end |
| Dicts.SetDefault | conf_scrapper.py:83 | `setdefault` keeps the key order and appends a new key at the end |
| Dicts.Unique | conf_scrapper.py:123 | distinct, with exactly the members of the input |
| Dicts.GetPut | conf_scrapper.py:36-43 | after `d[k] = v`, `k` reads `v` and every other key reads as before |
| Dicts.GetSetDefault | conf_scrapper.py:83 | `setdefault` stores `v` only under a key not yet present and changes nothing else |
| Dicts.GetAppend | conf_scrapper.py:222-232 | reading a dict that has one more pair at the end |
| Dicts.PutAllGet | conf_scrapper.py:116 | a dict built by assignments reads, for each key, the last value written under it |
| Dicts.LastValueAt | conf_scrapper.py:227-230 | the last value under a key is the one at its last position |
| Dicts.SetDefaultAllGet | conf_scrapper.py:72-83 | a dict built by `setdefault` reads, for each key, the first value offered under it |
| Dicts.FirstValueSnoc | conf_scrapper.py:83 | a later offer does not change a key's first value |
| Dicts.BuildKeys | conf_scrapper.py:72-83 | both builders leave the distinct keys in first-occurrence order |
| Dicts.FirstIndex | conf_scrapper.py:123 | the first position of an element |
| Dicts.UniqueOrder | conf_scrapper.py:123 | `unique()` keeps first-occurrence order: earlier results first occur earlier |
| Dicts.FirstIndexPrefix | conf_scrapper.py:123 | appending an element does not move an existing element's first position |
| Dicts.FirstIndexIs | conf_scrapper.py:123 | a position with no earlier copy is the first position |
| Dicts.MapValues | conf_scrapper.py:51-52 | applying a function column by column keeps the keys and maps each value |
| Dicts.GetMapValues | conf_scrapper.py:51-52 | after mapping the values, each key reads the mapped value it read before |
| Regex.SkipWhile | conf_scrapper.py:92 | the end of the longest run of characters of a class |
| Regex.SameFromLower | conf_scrapper.py:92 | matching a lower-case literal ignoring case is comparing it with the lower-cased text |
| Regex.HasCILower | conf_scrapper.py:291 | a case-insensitive hit is a substring of the lower-cased text |
| Regex.HasCIChar | conf_scrapper.py:143 | a case-insensitive hit fixes each lower-cased character |
| Regex.MatchEnd | conf_scrapper.py:61 | each pattern matches at a position with a non-empty match that stays inside the text |
| Regex.SubFromNoMatch | conf_scrapper.py:110 | `re.sub` copies a suffix at which the pattern never matches |
| Regex.SubFromCopy | conf_scrapper.py:110 | `re.sub` copies a stretch without a match and continues after it |
| Regex.SubFromCopyOne | conf_scrapper.py:110 | at a position with no match `re.sub` copies the character |
| Regex.SubFromMatchOne | conf_scrapper.py:110 | at a match `re.sub` writes the replacement and resumes at the match end |
| Regex.SubFromLength | conf_scrapper.py:110-112 | a substitution with a replacement of at most one character never lengthens the text |
| Regex.SubFromShrinks | conf_scrapper.py:110-111 | a deletion that matches somewhere shortens the text |
| Regex.YearNeedsDigit | conf_scrapper.py:61 | `\b\d{4}\b` can only match at a digit |
| Regex.CycleNeedsC | conf_scrapper.py:92 | `CYCLE_RE` can only match at a dash, a space or a `c` |
| Regex.CycleNeedsWord | conf_scrapper.py:92 | `CYCLE_RE` matches only where "cycle" follows the optional dash and spaces |
| Regex.ParenNeedsOpen | conf_scrapper.py:141 | `\(.*?\)` can only match at `(` |
| Regex.InDaysNeedsI | conf_scrapper.py:143 | `in\s+\d+\s+days` can only match at `i` or `I` |
| Regex.SubNoMatch | conf_scrapper.py:110-112 | `re.sub` leaves text without a match unchanged |
| Regex.Sub | conf_scrapper.py:110-112 | `re.sub` from the start; SubFromCopy, SubFromMatchOne and SubFromNoMatch give its steps |
| Regex.SqueezeShape | conf_scrapper.py:112 | `re.sub(r"\s+", " ", s)` leaves only plain spaces, never two in a row, and a leading space only where the text had whitespace |
| NameKey.Normalize | conf_scrapper.py:95-113 | the lookup key is trimmed, its only whitespace is single plain spaces, and it is no longer than the name |
| NameKey.YearKey | conf_scrapper.py:74-78 | the key an entry is filed under is trimmed, and is the stripped name itself when that has no standalone year |
| NameKey.StripKeepsShape | conf_scrapper.py:113 | the final strip keeps the single-space shape |
| NameKey.SqueezeFixed | conf_scrapper.py:112 | squeezing text that already has single plain spaces changes nothing |
| NameKey.NormalizeFixedPoint | conf_scrapper.py:95-113 | a shaped text is its own key exactly when neither the year pattern nor the cycle pattern matches in it |
| NameKey.NormalizeTwice | conf_scrapper.py:95-113 | normalising a key again returns it exactly when neither pattern matches in the key |
| NameKey.NormalizeVia | conf_scrapper.py:110-113 | if deleting the years and then the cycle qualifiers leaves text without whitespace, that text is the key |
| NameKey.BicycleKey | conf_scrapper.py:92 | "Bicycle 2" has the key "Bi": the cycle pattern has no leading word boundary |
| NameKey.CycleOneAKey | conf_scrapper.py:92 | "cycle 1a" is its own key: the trailing word boundary stops the match |
| NameKey.NotIdempotent | conf_scrapper.py:95-113 | "2024cycle 1" has the key "2024", whose own key is "" |
| NameKey.SigcommKey | conf_scrapper.py:95-113 | "ACM SIGCOMM 2025 - Cycle 2" has the key "ACM SIGCOMM": the year and the cycle qualifier go and the spaces left between them close up |
| NameKey.GluedYearKey | conf_scrapper.py:91-92 | "2024cycle 1" keeps its year, which the qualifier was glued to, and loses the qualifier |
| NameKey.YearOnlyKey | conf_scrapper.py:110 | a bare year has the empty key |
| SubjectMap.Offered | conf_scrapper.py:73-80 | the pairs offered to `setdefault` never have an empty key |
| SubjectMap.BuildNameToSub | conf_scrapper.py:63-85 | the reference map; NameToSubGet and NameToSubKeys give its values and keys |
| SubjectMap.NameToSubGet | conf_scrapper.py:63-85 | the reference map has no entry for the empty key, and for any other key holds the subject of the first entry filed under it |
| SubjectMap.OfferedFirst | conf_scrapper.py:79-83 | the first pair offered under a key comes from the first entry filed under it |
| SubjectMap.NameToSubKeys | conf_scrapper.py:83 | the map's keys are the distinct offered keys in first-occurrence order |
| SubjectMap.KeysFromEntries | conf_scrapper.py:73-83 | every key of the map is the non-empty key of some entry |
| SubjectMap.OfferedKeys | conf_scrapper.py:79-80 | every offered key is the non-empty key of some entry |
| SubjectMap.Rekeyed | conf_scrapper.py:116 | the comprehension's pairs are the map's items, each key replaced by its lookup key |
| SubjectMap.NormMap | conf_scrapper.py:116 | `norm_map`; NormMapGet gives the value under each key |
| SubjectMap.NormMapGet | conf_scrapper.py:116 | `norm_map` reads, under a lookup key, the value of the last item whose key normalises to it |
| SubjectMap.RekeyedLast | conf_scrapper.py:116 | the last re-keyed pair under a key comes from the last item that normalises to it |
| SubjectMap.Lookup | conf_scrapper.py:120 | a name's label is the map's value under its lookup key, or "" when there is none |
| SubjectMap.LabelFromEntries | conf_scrapper.py:116-120 | a name's label is the subject of the last map key sharing its lookup key, and "" when no entry's key normalises to that lookup key |
| SubjectMap.LastSubKey | conf_scrapper.py:116 | a collision found in `norm_map` comes from some key of the reference map |
| SubjectMap.Unlabelled | conf_scrapper.py:123 | `df.loc[df["sub"].eq(""), "Conf. Name"]`: exactly the names whose label is "" |
| SubjectMap.Unmatched | conf_scrapper.py:123 | `unmatched` is distinct and holds exactly the names labelled "" |
| SubjectMap.UnmatchedOrder | conf_scrapper.py:123 | `unmatched` lists the names in order of first occurrence |
| Calendar.DigitChar | conf_scrapper.py:153 | a value below ten is written as a decimal digit |
| Calendar.Pad2 | conf_scrapper.py:153 | `%d` writes a day as two digits whose value is the day |
| Calendar.Pad4 | conf_scrapper.py:153 | `%Y` writes a year below 10000 as four digits, zero-padded, whose value is the year, with no leading zero from year 1000 on |
| Deadline.MonthPrefix | conf_scrapper.py:150-152 | `%b`/`%B` match the first month name, ignoring case, that starts the text; no earlier name does |
| Deadline.DayAt | conf_scrapper.py:150-152 | `%d` reads one or two digits as a day from 1 to 31 and stops before a third digit |
| Deadline.Names | conf_scrapper.py:150 | each format names the twelve months |
| Deadline.Strptime | conf_scrapper.py:150-155 | `strptime` under one format; ShortFormParses, FieldsParse, NoCommaFails and NoMonthNoParse give what it accepts |
| Deadline.ParseAny | conf_scrapper.py:150-155 | the formats are tried in order and the first that accepts decides; when all fail the last format's failure is the answer |
| Deadline.AfterMonth | conf_scrapper.py:150-152 | a date parsed after a month name has that month |
| Deadline.Render | conf_scrapper.py:153 | `strftime("%b %d %Y")` is eleven characters long |
| Deadline.RenderShape | conf_scrapper.py:153 | the rendering is the month abbreviation, a space, the two-digit day, a space and the four-digit year, and has no character the cleaner removes |
| Deadline.MonthAbbrPlain | conf_scrapper.py:153 | each month abbreviation has three characters, none of them removed by the cleaner |
| Deadline.RenderRoundTrip | conf_scrapper.py:150-153 | a rendered date parses back to itself under the first format, and so under the first format that succeeds |
| Deadline.ShortFormParses | conf_scrapper.py:150-152 | text with a month abbreviation, two day digits and four year digits parses under `"%b %d %Y"` |
| Deadline.ShortFormRest | conf_scrapper.py:150-152 | after the month, " DD YYYY" reads the day and year |
| Deadline.AbbrFound | conf_scrapper.py:150-152 | a text starting with a month's abbreviation has that month |
| Deadline.ThreeLetterFound | conf_scrapper.py:150-152 | with distinct three-letter names, the matched month is the one spelled at the start |
| Deadline.MonthPrefixFirst | conf_scrapper.py:150-152 | the first month name matched is the answer |
| Deadline.AbbrLowerDistinct | conf_scrapper.py:150 | the twelve abbreviations are distinct |
| Deadline.Clean | conf_scrapper.py:141-147 | the cleaned text has no `;` and no whitespace at its ends |
| Deadline.CleanDeadline | conf_scrapper.py:126-156 | the result has no `;` and no whitespace at its ends, and is "" for a missing or blank value |
| Deadline.CleanPlain | conf_scrapper.py:141-147 | the cleaning leaves unchanged a trimmed text with no `(`, `:`, `;`, `i` or `I` |
| Deadline.ClockNeedsColon | conf_scrapper.py:145 | the time pattern needs a colon |
| Deadline.ClockNeedsColonBefore | conf_scrapper.py:145 | no time match starts before a character that is neither a space, a digit nor a colon when no colon comes first |
| Deadline.CleanDeadlineRendered | conf_scrapper.py:126-156 | a deadline already in `"Mon DD YYYY"` form is returned as it is |
| Deadline.CleanPlainParsed | conf_scrapper.py:147-153 | a plain, trimmed text that parses is replaced by the rendering of its date |
| Deadline.CleanDeadlineKeepsDate | conf_scrapper.py:138-156 | for a non-blank value, the result parses as the cleaned text does; a parsed date comes out as its `"Mon DD YYYY"` rendering, and otherwise the cleaned text comes out |
| Deadline.AoeDeadline | conf_scrapper.py:138-156 | "Oct 10, 2024 (AOE); 11:59 PM" cleans to "Oct 10 2024": the time-zone note, the semicolon and the clock time go, and the rest parses under the comma format |
| Deadline.NoMonthKept | conf_scrapper.py:150-156 | cleaned text that does not start with a month letter is returned as cleaned |
| Deadline.NoMonthNoParse | conf_scrapper.py:150-155 | text that does not start with a month letter parses under none of the four formats |
| Deadline.TbdKept | conf_scrapper.py:126-156 | "TBD" stays "TBD" |
| Deadline.MonthInitials | conf_scrapper.py:150 | every month name starts with one of j, f, m, a, s, o, n, d |
| Deadline.NoMonthAt | conf_scrapper.py:152 | no month name matches when none starts with the text's first letter |
| ShortDate.DayText | conf_scrapper.py:326 | the day after `" 0"` is replaced: one or two digits, no leading zero, with the day's value |
| ShortDate.RenderShort | conf_scrapper.py:326 | the short rendering has at least six characters |
| ShortDate.ReplaceLength | conf_scrapper.py:326 | replacing `" 0"` by `" "` at most halves the length |
| ShortDate.RenderShortShape | conf_scrapper.py:326 | from year 1000 on, the short rendering is the month abbreviation, a space, the day without a leading zero, a comma, a space and the four-digit year |
| ShortDate.ReplaceShortForm | conf_scrapper.py:326 | in `"%b %d, %Y"` output the replacement drops only a leading zero of the day |
| ShortDate.ReplaceYear | conf_scrapper.py:326 | the replacement leaves a year with no leading zero alone |
| ShortDate.FmtDate | conf_scrapper.py:310-326 | `fmt_date` is "" exactly for a missing value, an empty string or an unparseable text; otherwise it is the short rendering of the date |
| ShortDate.ShortMonthDayYear | conf_scrapper.py:382-392 | "" exactly for empty or unparseable input, else the short rendering of the parsed date |
| ShortDate.RenderShortExample | conf_scrapper.py:312 | 5 September 2025 renders as "Sep 5, 2025" |
| ShortDate.RenderShortRoundTrip | conf_scrapper.py:326 | from year 1000 on, the short rendering parses back to the same date under `"%b %d, %Y"`, and so under the four formats tried in order |
| ShortDate.ShortParses | conf_scrapper.py:150-155 | "Mon D, YYYY" text parses to its date under the four formats tried in order |
| Deadline.FieldsParse | conf_scrapper.py:150-155 | text laid out as abbreviation, day, comma and year parses under the comma format and not under an earlier one |
| Deadline.NoCommaFormat | conf_scrapper.py:150 | text with a comma after the day fails both formats without a comma |
| Deadline.CommaFormRest | conf_scrapper.py:150 | after the month, " D, YYYY" reads the day and year |
| Deadline.NoCommaFails | conf_scrapper.py:150 | a format without a comma rejects a comma after the day |
| Deadline.FullNameEndsAtThree | conf_scrapper.py:150 | before a space at the fourth position only a three-letter full name ("May") can match |
| Keyword.Tags | conf_scrapper.py:288 | the stripped non-empty pieces of the `;` split; TagsShape gives their shape and TagsOfJoined their content |
| Keyword.FirstTag | conf_scrapper.py:289-292 | the first tag, in order, that contains an interest term ignoring case; `None` exactly when no tag does |
| Keyword.FirstTerm | conf_scrapper.py:297-299 | some interest term occurring in the lower-cased name; `None` exactly when none occurs |
| Keyword.FindSub | conf_scrapper.py:269-301 | the first matching tag when some tag matches; otherwise some interest term occurring in the lower-cased name; `None` exactly when neither tags nor name match |
| Keyword.FindSubNonEmpty | conf_scrapper.py:286-301 | a label is never "" |
| Keyword.TermsAreLower | conf_scrapper.py:266-267 | the interest terms are already lower case, so `term.lower()` is the term |
| Keyword.LowerIdentity | conf_scrapper.py:291 | lower-casing text with no upper-case letter leaves it unchanged |
| Keyword.Keep | conf_scrapper.py:304-308 | the survivors of the drop carry the label the classifier gave them, and there are no more of them than rows |
| Keyword.KeepAppend | conf_scrapper.py:307-308 | the drop works row by row: the survivors of two blocks are the survivors of each, in order |
| Keyword.KeepMembers | conf_scrapper.py:307 | a row survives exactly when the classifier labels it |
| Keyword.TagsShape | conf_scrapper.py:288 | every tag is non-empty, trimmed and free of `;` |
| Keyword.PiecesNoSeparator | conf_scrapper.py:288 | the pieces of `;`-free parts are `;`-free |
| Keyword.TagsOfJoined | conf_scrapper.py:288 | re-splitting trimmed, `;`-free topics joined with "; " gives back the non-empty ones, in order |
| Keyword.SplitJoined | conf_scrapper.py:288 | splitting topics joined with "; " on `;` gives each topic with a leading space |
| Keyword.NoSeparator | conf_scrapper.py:288 | text without the separator splits into itself |
| Keyword.SplitAtFirst | conf_scrapper.py:288 | a split cuts at the first separator |
| Keyword.IndexOfIs | conf_scrapper.py:288 | a position with no earlier separator is the first separator |
| Keyword.PiecesSpaced | conf_scrapper.py:288 | stripping the pieces and dropping empty ones gives back the non-empty topics |
| Keyword.StripLead | conf_scrapper.py:288 | stripping a trimmed topic with one leading space gives the topic |
| Detail.LabelShape | conf_scrapper.py:367-368 | a label has no no-break space, no whitespace at its ends and no upper-case letter |
| Detail.Label | conf_scrapper.py:367-368 | the label a row is judged by; LabelShape states it has no no-break space, trimmed ends and no capitals |
| Detail.FirstWhere | conf_scrapper.py:363-376 | the first element that satisfies the test; `None` exactly when none does |
| Detail.FirstAccepted | conf_scrapper.py:363-376 | the first row with at least two cells whose label is accepted; `None` exactly when there is none |
| Detail.WebsiteIn | conf_scrapper.py:362-377 | no accepted row gives `None`; otherwise the answer is the `href` of the first anchor in the first accepted row's second cell, `None` when it has no anchor or the anchor no `href` |
| Detail.FetchWebsiteFromDetail | conf_scrapper.py:336-379 | an empty or missing URL, or a failed fetch, gives `None`; otherwise the page's website lookup |
| Detail.WebsiteStopsAtFirst | conf_scrapper.py:370-376 | the first accepted row decides: rows after it never change the answer |
| Detail.FirstAcceptedPrefix | conf_scrapper.py:376 | the first accepted row of a prefix is the first accepted row of the whole page |
| Detail.FirstWherePrefix | conf_scrapper.py:376 | the first hit in a prefix is the first hit of the whole |
| Detail.FirstWhereIs | conf_scrapper.py:363-376 | a hit with no earlier hit is the first hit |
| Detail.AbstractIn | conf_scrapper.py:408-416 | "" when no row is accepted; otherwise the short rendering of the first accepted row's second-cell text when that is non-empty and parses, else "" |
| Detail.FetchAbstractDeadline | conf_scrapper.py:395-418 | an empty or missing URL, or a failed fetch, gives ""; otherwise the page's abstract-deadline lookup |
| Detail.ShortRowsIgnored | conf_scrapper.py:365-366 | a row with fewer than two cells is never the accepted row |
| SourceA.HeaderName | conf_scrapper.py:25 | a header name has no `▼`, and is the cell's text when that has none |
| SourceA.HeaderNameMarked | conf_scrapper.py:25 | a header cell holding a name followed by `▼` gives exactly the name |
| SourceA.ConfNameHeader | conf_scrapper.py:25 | the header "Conf. Name▼" names the column "Conf. Name" |
| SourceA.CellValue | conf_scrapper.py:34-43 | "" past the last cell; in a website column the stripped `href` of the first anchor that has one, else the text run together; in any other column the text joined by spaces |
| SourceA.CellValueTrimmed | conf_scrapper.py:34-43 | an extracted value has no whitespace at its ends |
| SourceA.Pairs | conf_scrapper.py:34-43 | one pair per header, in header order, holding that column's value |
| SourceA.ExtractRow | conf_scrapper.py:33-44 | the dict one data row becomes; ExtractRowKeys gives its keys and ExtractRowGet its values |
| SourceA.LastIndex | conf_scrapper.py:34-43 | the last position of a header |
| SourceA.ExtractRowKeys | conf_scrapper.py:33-44 | a row's keys are exactly the distinct headers |
| SourceA.ExtractRowGet | conf_scrapper.py:33-44 | a repeated header holds the value of its last column |
| SourceA.CleanValue | conf_scrapper.py:50-52 | a cleaned cell is stripped and never "nan"; "Click Here", "Missing value" and "nan" become "" |
| SourceA.CleanTrimmedValue | conf_scrapper.py:50-52 | on an extracted value the cleanup only blanks the three placeholders |
| SourceA.Headers | conf_scrapper.py:24-25 | one header name per header cell, in order |
| SourceA.DataCells | conf_scrapper.py:29-32 | the data rows are among the rows after the header row, have a cell, and include every such row |
| SourceA.DataCellsAppend | conf_scrapper.py:29-32 | rows further down the table come after, in their own order, among the data rows |
| SourceA.NonEmptyRows | conf_scrapper.py:31-32 | rows without cells are skipped and every other row is kept |
| SourceA.NonEmptyRowsAppend | conf_scrapper.py:29-32 | the rows kept from a table in two parts are those of each part in turn, so table order and repeats are kept |
| SourceA.NonEmptyRowsOne | conf_scrapper.py:31-32 | a single row is kept, once, exactly when it has a cell |
| SourceA.PickedRenamed | conf_scrapper.py:163-169 | the picked columns, renamed, are the listing's columns |
| SourceA.ScrapeA | conf_scrapper.py:21-169 | listing A fails exactly when the table is missing, has no header row or no data row, or lacks a needed column; otherwise it is one listing per data row |
| SourceA.Listings | conf_scrapper.py:47-169 | one listing per data row, in order |
| SourceA.RowListing | conf_scrapper.py:120-169 | the listing of one data row; ScrapeALabel gives its label and CleanRowGet ties its values to the cleaned frame |
| SourceA.RowValue | conf_scrapper.py:49-52 | the cleaned value under a header; CleanRowGet states it is what the cleaned frame reads |
| SourceA.NeededIn | conf_scrapper.py:163 | the columns the script reads are all present |
| SourceA.CleanRowGet | conf_scrapper.py:50-52 | the cleaned frame holds, under each header, the cleaned value of its last column |
| SourceA.ScrapeALabel | conf_scrapper.py:120 | every row of listing A is kept and labelled by the lookup of its name, "" when no reference key normalises to the name's key |
| SourceA.UnmatchedA | conf_scrapper.py:123 | `unmatched` over listing A: distinct, and exactly the names labelled "" |
| SourceB.Acronym | conf_scrapper.py:199-200 | the first anchor's text if the cell has an anchor, else the cell's text; "" becomes `None` |
| SourceB.AcronymUrl | conf_scrapper.py:201 | `None` exactly when there is no anchor or it has no `href`; otherwise the `href` stripped of `c`, `f`, `p` and `/` at both ends |
| SourceB.AcronymUrlOverTrims | conf_scrapper.py:201 | an `href` of "/cfp/cp26" becomes "26": the strip is by character set, not by prefix |
| SourceB.CpPathTrim | conf_scrapper.py:201 | `"/cfp/cp26".strip("cfp/")` is "26" |
| SourceB.TagTexts | conf_scrapper.py:218 | one text per tag span, in order |
| SourceB.ExtractRowB | conf_scrapper.py:198-219 | the record one wide row becomes; Acronym, AcronymUrl, Topics and Html.GetTextEmpty give its fields |
| SourceB.Topics | conf_scrapper.py:218-219 | `None` exactly when the cell has no tag; otherwise the tag texts joined with "; " |
| SourceB.TopicsReread | conf_scrapper.py:288 | `find_sub` reads back exactly the non-empty tag texts of the cell |
| SourceB.DisplayKeepsText | conf_scrapper.py:222-232 | the dict holds the date cells' text, not their `data-key` values |
| SourceB.Display | conf_scrapper.py:222-232 | the dict literal's pairs, repeated keys included; DisplayKeepsText and DisplayGet give what it reads back |
| SourceB.DisplayShape | conf_scrapper.py:222-232 | the display's later date pairs hold the texts, and no later key can overwrite them |
| SourceB.DisplayGet | conf_scrapper.py:222-232 | a key not written again later reads its value from that position |
| SourceB.RowsB | conf_scrapper.py:193-196 | rows with fewer than six cells are skipped; there are no records exactly when every row is short |
| SourceB.RowsBAppend | conf_scrapper.py:193-196 | the records of a table in two parts are those of each part in turn, so table order is kept |
| SourceB.RowsBOne | conf_scrapper.py:193-219 | a single row gives its record exactly when it has six cells |
| SourceB.ToStamp | conf_scrapper.py:237-238 | `to_datetime(errors="coerce")` gives `NaT` exactly for a missing or unparseable text, else the parsed date |
| SourceB.ShortDateCell | conf_scrapper.py:328-330 | a date cell ends as the short rendering of its parsed date, or "" |
| SourceB.SurvivorsMembers | conf_scrapper.py:304-308 | a row survives exactly when `find_sub` labels it, and it carries that label |
| SourceB.Survivors | conf_scrapper.py:304-308 | the rows `dropna(subset=["sub"])` keeps; SurvivorsMembers and SurvivorsAppend give membership and order |
| SourceB.SurvivorsAppend | conf_scrapper.py:307-308 | the drop keeps the survivors in table order |
| SourceB.ListingB | conf_scrapper.py:304-429 | a surviving row becomes a listing with the acronym as name, its label, the location, the short dates, the abstract deadline and the link from the detail page |
| SourceB.ScrapeB | conf_scrapper.py:174-429 | listing B fails exactly when the table is missing or no row has six cells; otherwise it is one listing per surviving row, in order |
| SourceB.PickedBRenamed | conf_scrapper.py:424-429 | the picked columns, renamed, are the listing's columns, the same as listing A's |
| Listing.Rename | conf_scrapper.py:166-169 | `rename(columns=m)` renames the keys of `m` and leaves the other columns alone |
| Listing.Cells | conf_scrapper.py:163 | a listing's cells are under exactly the seven listing columns |
| Assembly.Filled | conf_scrapper.py:432-435 | after `fillna('')` each cell holds its value or "", and the two added columns are "" |
| Assembly.FinalFrame | conf_scrapper.py:432 | the merged frame has every B row, then every A row, each filled, and nothing else |
| Assembly.FinalFrameEmptyColumns | conf_scrapper.py:434-435 | `End Date` and `Notification` are "" on every row |
| Assembly.Record | conf_scrapper.py:436-446 | a row's record has exactly the nine output columns, in order |
| Assembly.ListingRecord | conf_scrapper.py:448 | a record of listing A has exactly the seven listing columns |
| Assembly.Run | conf_scrapper.py:21-446 | the run fails exactly when either listing fails; otherwise it is the merge of listing B and listing A |
| Assembly.FinalRecords | conf_scrapper.py:436-448 | the merged frame's records: one per row, each with the nine output columns |
| Assembly.WrittenRecords | conf_scrapper.py:448 | what is serialised as written: one record per listing-A row, with the seven listing columns |
| Assembly.WrittenMissesMerge | conf_scrapper.py:432-448 | the written records number the merged rows minus listing B's, and none has `End Date` |
| Assembly.WrittenShort | conf_scrapper.py:432-448 | when listing B keeps a row, fewer records are written than the merged frame holds |

## Left out

- Case folding is ASCII only. `str.lower()`, `re.IGNORECASE` and `strptime`'s month matching fold every Unicode letter. The model folds `A`-`Z` only. `\d` and `\w` are ASCII as well. Whitespace (`\s`, `str.strip()`) is Python's full Unicode whitespace set.
- `pd.to_datetime` is the parameter `parse`. Its lenient grammar is a foreign library's and is not modelled. Only the empty, missing and `NaT` handling around it, and the rendering after it, are modelled.
- HTTP requests, sessions, timeouts, `urljoin` and BeautifulSoup parsing of the detail pages are folded into the parameter `fetch`. A failure of any of them, and any exception, is `fetch` returning `None`. `fetch` is taken to return the same page for the same URL.
- Parsing the two main pages is not modelled. The tables arrive as rows of `Html.Cell` values, which hold a cell's text nodes, anchors and tag spans. A missing table is `None`.
- The order the `interest_terms` set is iterated in is the parameter `order`.
- Keyword.FindSub: when only the name matches, the contract says "some interest term occurring in the lower-cased name". The term actually returned depends on the set's iteration order.
- Calendar.Pad4: `%Y` is modelled zero-padded to four digits. CPython hands `%Y` to the C library's `strftime`, and on glibc builds that do not pad it a year below 1000 comes out with fewer digits ("999"). The model does not follow that platform difference.
- Deadline.Render: its eleven-character length rests on the zero-padded `%Y` above, so it does not hold for years below 1000 on an unpadding C library.
- Deadline.RenderShape: states the four-digit year of the zero-padded `%Y`; below year 1000 an unpadding C library writes fewer digits.
- Deadline.RenderRoundTrip: holds for every valid date under the zero-padded `%Y`; below year 1000 an unpadding C library's output has fewer than four year digits and does not parse back.
- Deadline.CleanDeadlineRendered: "Mon DD YYYY" comes back unchanged under the zero-padded `%Y`; below year 1000 an unpadding C library re-renders the year with fewer digits.
- SourceB.ToStamp: converts each cell on its own with `parse`. `pd.to_datetime` on a whole column (conf_scrapper.py:237-238) may infer one format from the first non-null cell and apply it to all, so one cell's result can depend on other rows. The same `parse` also serves the scalar calls at conf_scrapper.py:322 and 389.
- ShortDate.RenderShortShape and ShortDate.RenderShortRoundTrip require a year of at least 1000. Below that, `%Y`'s zero padding interacts with the `" 0"` replacement.
- The diagnostic prints and the topic statistics (conf_scrapper.py:124, 246-263) have no effect on the output.
- The pickle load (conf_scrapper.py:55) is overwritten before use.
- JSON encoding, the `\/` replacement and the file write (conf_scrapper.py:448-452) are encoding and I/O. The model keeps only which frame's records are written.
- `pd.concat` is modelled as appending rows. The frames' column order is not modelled, since both listings have the same seven columns after their renames.
- The `data-key` ISO values of listing B are never read, because the repeated dict keys overwrite them. The model keeps only the cell texts.

## Findings

| source | as written | input that shows it | evidently intended | confidence | as-written member | corrected member |
|---|---|---|---|---|---|---|
| conf_scrapper.py:448 | the JSON is serialised from `df`, the seven-column listing A | any run in which listing B keeps a row: that row is not written, and no record has `End Date` or `Notification` | serialise `final_df`, the merged nine-column frame built at lines 432-446 | not executed | Assembly.WrittenRecords | Assembly.FinalRecords |

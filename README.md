# Rasathane Enhancer content script, modelled in Dafny

The content script reads the monospaced earthquake list of the Kandilli
observatory page. It splits the list into a header and event rows, turns the
rows into records, and shows them in a table that can be filtered by
location. This project models the logic of that script:

- `parseData` (module `Report`, with field properties in `Fields`). One pass
  over the lines of the report, kept as an imperative method with a loop. Up
  to three header lines become title, subtitle and note. The first line whose
  trimmed form starts with ten dashes (the rule line, so `---------- x`
  counts too) starts the data section. After it, every line
  whose trimmed form starts with four digits and a dot is sliced at a fixed
  column table into ten text fields. The row becomes an event when its
  date-time text denotes a valid date. The method is proved equal to a
  declarative reading, `ReportOf`, and the properties of the report are
  proved about that reading.
- `normalizeString` (module `Normalize`). The 14-entry Turkish letter table,
  then lower-casing.
- `timeAgo` (module `TimeAgo`). Bucketing of whole elapsed seconds into
  `just now`, `Ns ago`, `Nm Ns ago`, `Nh Nm ago`, `Nd Nh ago`, `Nw ago`,
  `Nmo ago` and `Ny ago`. Its partner is a parser that reads every text back
  as its bucket and accepts no other text (no leading zeros, no zero minor
  part written out), so each bucket has exactly one text.
- The location filter of the table (module `Filter`). The normalized query
  is cut at commas into trimmed, non-empty terms. A row is visible when there
  are no terms, or when its normalized location contains one of them, so
  each comma-separated alternative is tried on its own. The
  `input` handler is a method that computes the visibility of every row.
- The JavaScript string primitives these rely on (module `Text`): `trim`,
  `trimEnd`, `startsWith`, `substring`, `split`, `join`, `includes` and a
  one-character `replace`.

Three things from outside the script are parameters:

- `new Date(text)` is `dateOf: string -> Option<Instant>`. It gives the
  instant in milliseconds, or `None` where the source's `isNaN` test fails.
- The clock `new Date()` used by `timeAgo` is `nowMs`.
- The event time handed to `timeAgo` is an `Option<Instant>`, with `None` for
  an invalid date.

## Model

| member | source | states |
|---|---|---|
| Report.ParseData | content.js:32-131 | The method's loop computes exactly `ReportOf` of the lines of `preText.split("\n")`: the header from the lines before the first rule line, and the events and skipped rows from the lines after it |
| Report.ReportOf | content.js:57-130 | The declarative reading of a parse: the header, events and skipped rows of `Summary`; `ParseData` is proved to compute it |
| Report.Summary | content.js:57-129 | Defines what the loop variables must hold after some lines: a rule line seen, min(3, header lines), the header of the lines before the first rule line, the events and skipped rows of the lines after it |
| Report.Step | content.js:58-125 | One iteration of the loop body, branch for branch: blank lines skipped, header lines taken while fewer than three and before the rule line, the rule line starting the data section, candidate rows parsed |
| Report.IsRule | content.js:63 | A trimmed line is a rule line when it starts with ten dashes, whatever follows them |
| Report.IsDataRow | content.js:85 | The test `/^\d{4}\./`: four ASCII digits and a dot at the start of the trimmed line |
| Report.CleanHeader | content.js:66 | A header line as stored: the dot runs at both ends removed, then trimmed (its properties are `CleanHeaderSpec`) |
| Report.ExtractFields | content.js:90-99 | The ten fields sliced at the column table, trimmed, the location only end-trimmed (its properties are `ExtractFieldsSpec` and `ExtractLayout`) |
| Report.DateTimeString | content.js:101 | The text handed to `new Date`: the date with every `.` replaced by `-`, then `T`, then the time |
| Report.RunIsSummary | content.js:57-129 | Running the loop body over any prefix of the lines gives the declarative summary: whether a rule line was seen, min(3, header lines), the header, the events and the skipped rows |
| Report.RunPrefix | content.js:57 | One more line read is one more loop iteration |
| Report.HeaderModeStep | content.js:58-83 | Before any rule line, one iteration moves the summary exactly as one more line does |
| Report.HeaderStepEffect | content.js:58-83 | Before the data section: a blank line is skipped, and a rule line only sets `dataStarted`. A fourth or later header line changes nothing. Otherwise the cleaned line goes into title, subtitle or note by the count, and the count goes up |
| Report.HeaderSummarySnoc | content.js:58-79 | Before any rule line, the declarative summary after one more line: blank lines change nothing, a rule line starts the data section, and any other line is one more header line |
| Report.HeaderBlankSnoc | content.js:58-59 | A blank line before the rule line leaves the summary as it was |
| Report.HeaderRuleSnoc | content.js:74-78 | The first rule line only switches the summary into the data section |
| Report.HeaderTextSnoc | content.js:61-71 | A non-blank, non-rule line before the rule line adds one header line |
| Report.DataModeStep | content.js:74-125 | After the rule line, one iteration moves the summary exactly as one more line does |
| Report.DataStepEffect | content.js:74-125 | In the data section, one iteration adds the line's outcome: nothing, one event, or one skipped row |
| Report.DataSummarySnoc | content.js:85-125 | After the rule line, one more line adds that line's outcome to the declarative summary |
| Report.RuleAndBlankAreNotRows | content.js:59-87 | Blank lines and rule lines are never parsed as event rows, so later rule lines are skipped |
| Report.RuleIndex | content.js:74-79 | The index of the first rule line is at most the number of lines |
| Report.RuleIndexSpec | content.js:74-79 | The line at RuleIndex is a rule line, and none before it is |
| Report.RuleIndexSnoc | content.js:74-79 | The first rule line of the lines plus one more: the old one, this line, or none |
| Report.DropLeadingDotsSpec | content.js:66 | `^\.+` removes exactly the leading run of dots, and what is left does not start with a dot |
| Report.DropTrailingDotsSpec | content.js:66 | `\.+$` removes exactly the trailing run of dots, and what is left does not end with a dot |
| Report.CleanHeaderSpec | content.js:66 | A stored header line is trimmed and is a contiguous piece of the trimmed line |
| Report.DotsLineTakesSlot | content.js:66-70 | A line of dots alone is counted as a header line, and the text stored for it is empty |
| Report.DotsOnly | content.js:66 | A line of dots alone is removed entirely by `^\.+` |
| Report.HeaderKeepsFirstThree | content.js:61-70 | Header lines after the third never change title, subtitle or note |
| Report.HeaderLinesSnoc | content.js:58-66 | One more line adds its cleaned form to the header lines if it is not blank |
| Report.HeaderLinesAppend | content.js:57-71 | The header lines of two runs of lines are those of each, in order |
| Report.HeaderLinesBlank | content.js:59 | Blank lines give no header lines |
| Report.HeaderLinesSpec | content.js:58-70 | There are no more header lines than lines, and each one is stored trimmed |
| Report.TitleIsFirstLine | content.js:37-67 | The title is the first non-blank line before the rule line, cleaned |
| Report.HeaderOfSnoc | content.js:67-69 | With fewer than three header lines taken, the next one fills title, subtitle or note by the count |
| Report.ParseRow | content.js:90-125 | A candidate row gives an event exactly when its date-time text is a valid date. The event's fields are the sliced fields, its instant is that date, and its `originalLine` is the line |
| Report.LineOutcome | content.js:85-125 | A line of the data section is an event exactly when it is a candidate with a valid date, and a skipped row exactly when it is a candidate with an invalid date |
| Report.HandlerRejects | content.js:101-110 | A row is skipped exactly when it is a candidate and `new Date` rejects date (with `.` replaced by `-`), `T`, time. It is kept exactly when `new Date` accepts that text |
| Report.HandlerEvent | content.js:112-125 | An event produced from a line carries that line as `originalLine`, and the line is a candidate row |
| Report.RecordsAppend | content.js:57-125 | Events and skipped rows of two runs of lines are those of each, in line order |
| Report.RecordsSnoc | content.js:104-125 | One more line adds at most its own event or its own skipped row at the end |
| Report.RecordsCount | content.js:57-125 | Events and skipped rows together never outnumber the lines |
| Report.ReportCount | content.js:57-130 | A report never has more events plus skipped rows than input lines |
| Report.EventIndices | content.js:57-125 | The positions of the lines that become events: one per event, within the lines and strictly increasing |
| Report.EventIndicesSource | content.js:112-125 | The line at the j-th event position yields the j-th event |
| Report.EventSource | content.js:112-125 | Counted from the start, the j-th event position is a line of the section, and that line yields the j-th event |
| Report.EventIndicesComplete | content.js:85-125 | Every line that yields an event has its position in EventIndices |
| Report.EventOrigin | content.js:85-125 | The j-th event was parsed from the candidate line at its position, and it carries that line |
| Report.EventsInLineOrder | content.js:57-125 | Of any two events, the earlier one was parsed from the line at a strictly earlier position, and each carries the line at its own position |
| Report.EventsFollowRule | content.js:61-87 | Every event comes from a candidate line after the first rule line. Without a rule line there are no events and no skipped rows |
| Report.RejectedRowIsolated | content.js:104-110 | A row with an invalid date changes no other row's outcome |
| Report.InvalidRowCostsOne | content.js:101-125 | Replacing a valid row by one with an invalid date gives exactly one event fewer |
| Fields.ExtractFieldsSpec | content.js:44-99 | Each of the first eight fields is trimmed, no longer than its column, and lies within its column of the untrimmed line, clamped to the line. The location lies within its column and has no trailing white space. The quality is trimmed and lies in the line from position 119 on |
| Fields.TrimmedColumn | content.js:90-97 | A trimmed column slice lies within the clamped column |
| Fields.LocationField | content.js:98 | The location is the column slice without its trailing white space |
| Fields.QualityField | content.js:54-99 | The quality is trimmed and lies in the line from position 119 on; the `-1` of the table is not used |
| Fields.ExtractLayout | content.js:44-99 | Laying out fields that fit the columns and slicing the row again gives the same fields back |
| Fields.LayoutFront | content.js:90-93 | Date, time, latitude and longitude laid out at their columns are sliced back unchanged |
| Fields.LayoutMiddle | content.js:94-97 | Depth and the three magnitudes laid out at their columns are sliced back unchanged |
| Fields.LayoutBack | content.js:98-99 | The location and the quality laid out at their columns are sliced back unchanged |
| Fields.FieldBack | content.js:90-97 | A trimmed field padded with spaces into its cell is what trimming its column slice gives |
| Fields.LocationBack | content.js:98 | A location without trailing white space, padded into its cell, is what `trimEnd` of its column slice gives |
| Fields.Layout | content.js:44-55 | A laid-out row is 119 characters plus the quality, and its quality starts at position 119 |
| Normalize.Fold | content.js:6-25 | The 14-entry table: ı, I, i and İ fold to `i`, and ş, ğ, ü, ö, ç with their capitals fold to s, g, u, o, c; other characters are kept (its properties are `NormalCharFixed` and `ReplaceTurkish`) |
| Normalize.NormalizeString | content.js:3-29 | The result has the input's length, and each character is the input's character at the same position mapped through the table, then lower-cased |
| Normalize.NormalizeIsNormal | content.js:6-27 | After normalization no upper-case ASCII letter and no table letter other than `i` is left |
| Normalize.ReplaceTurkishConcat | content.js:23-25 | The table substitution distributes over concatenation |
| Normalize.LowerCaseConcat | content.js:27 | Lower-casing distributes over concatenation |
| Normalize.NormalizeIdempotent | content.js:3-29 | Normalizing twice is normalizing once |
| Normalize.NormalizeFixedPoint | content.js:3-29 | A string is unchanged exactly when all its characters are already normal |
| Normalize.NormalizeConcat | content.js:23-27 | Normalizing works character by character, so it distributes over concatenation |
| Normalize.NormalCharFixed | content.js:6-27 | Every folded character is normal, and a character is normal exactly when folding leaves it as it is |
| Normalize.ReplaceTurkish | content.js:23-25 | Every character is replaced by its table letter, and every other character is kept |
| Normalize.LowerCase | content.js:27 | ASCII capitals are lowered by 32, and every other character is kept |
| TimeAgo.Classify | content.js:140-191 | Each bucket as a range of whole elapsed seconds, with the numbers it shows. Under 1 second is "just now". Under a minute, the seconds. Under an hour, minutes and seconds that add up exactly. Under a day, hours and minutes, with the seconds dropped. Days 1-6 with 0-23 hours; weeks 1-3 for days 7-27; months below 12 from day 28; years at least one |
| TimeAgo.TimeAgo | content.js:133-140 | "Invalid date" for an event time that did not parse; otherwise a text that reads back as the bucket of the whole seconds elapsed, rounded down. Since only one text reads back as a bucket (`TimeAgoUnique`), this fixes the text |
| TimeAgo.AgeText | content.js:142-191 | The text for a number of elapsed seconds reads back as that number's bucket, and by `AgeTextUnique` it is the only such text |
| TimeAgo.Render | content.js:142-191 | Defines the text of each bucket: the parts joined by one space, then ` ago`, a zero minor part left out (`ParseAge` is its two-sided inverse, by `ParseAgeIffRender`) |
| TimeAgo.RenderOfParse | content.js:142-191 | Every text the parser reads as a bucket is exactly the text written for that bucket: no leading zeros, and no zero minor part written out |
| TimeAgo.ParseAgeIffRender | content.js:142-191 | A text is read as a bucket exactly when it is that bucket's text |
| TimeAgo.AgeTextUnique | content.js:142-191 | The text for `t` elapsed seconds is the one text that reads back as the bucket of `t` |
| TimeAgo.TimeAgoUnique | content.js:133-191 | For a parsed event time, the text shown is the one text that reads back as the bucket of the elapsed whole seconds |
| TimeAgo.TwoHoursAgo | content.js:176-181 | An event exactly two hours old is shown as "2h ago": the zero minute part is left out |
| TimeAgo.ShowDigits | content.js:177 | Decimal digits without a redundant leading zero are how their number is printed |
| TimeAgo.ParseRender | content.js:142-191 | Every text `timeAgo` produces is read back as the bucket and numbers that produced it |
| TimeAgo.RenderInjective | content.js:142-191 | Different buckets, or the same bucket with different numbers, never give the same text |
| TimeAgo.InvalidDateOnlyForNone | content.js:135-138 | "Invalid date" is shown exactly when the event time did not parse |
| TimeAgo.ZeroMonths | content.js:146-153 | From 28 to 30 days the text is "0mo ago" |
| TimeAgo.ShowNat | content.js:154-191 | A number is written as a non-empty run of decimal digits |
| TimeAgo.DigitsValueShow | content.js:154-191 | The digits of a number denote that number |
| TimeAgo.ParseMinutes | content.js:182-187 | "{m}m[ {s}s] ago" is read back as minutes and seconds |
| TimeAgo.ParseHours | content.js:176-182 | "{h}h[ {m}m] ago" is read back as hours and minutes |
| TimeAgo.ParseDays | content.js:159-166 | "{d}d[ {h}h] ago" is read back as days and hours |
| TimeAgo.ParseSeconds | content.js:188-190 | "{s}s ago" is read back as seconds |
| TimeAgo.ParseWeeks | content.js:157 | "{w}w ago" is read back as weeks |
| TimeAgo.ParseMonths | content.js:155 | "{mo}mo ago" is read back as months |
| TimeAgo.ParseYears | content.js:153 | "{y}y ago" is read back as years |
| Filter.Visibility | content.js:297-315 | One visibility per row, in table order. Each is whether the row's normalized location matches the terms of the normalized query. The rows are values and stay as they are |
| Filter.Terms | content.js:300-304 | Defines the terms of a query: the comma-separated pieces, trimmed, empty ones dropped (its properties are `TermsSpec`, `TermsEmpty` and `MatchesPieces`) |
| Filter.NonEmptyTrimmed | content.js:302-304 | Defines `.map(trim).filter(term => term)` over the pieces, in order (its properties are `NonEmptyTrimmedSpec`, `NonEmptyTrimmedComplete` and `NonEmptyTrimmedEmpty`) |
| Filter.SearchKey | content.js:264 | Defines a row's search key: the normalized location |
| Filter.Matches | content.js:308-312 | A row is shown exactly when there are no terms or some term occurs in its key |
| Filter.AnyIncluded | content.js:311 | `some(term => key.includes(term))` holds exactly when some term occurs in the key |
| Filter.TermsSpec | content.js:301-304 | No term is empty, every term is trimmed, and no term holds a comma |
| Filter.TermsEmpty | content.js:301-304 | A query has no terms exactly when it consists only of commas and white space |
| Filter.NonEmptyTrimmedSpec | content.js:302-304 | Every term kept is a non-empty, trimmed piece |
| Filter.NonEmptyTrimmedComplete | content.js:302-304 | Every piece that does not trim to nothing is kept, trimmed |
| Filter.MatchesPieces | content.js:300-312 | A key matches a query's terms exactly when all comma-separated pieces are blank, or some non-blank piece, trimmed, occurs in the key |
| Filter.AlternativeShows | content.js:297-312 | A row is shown when any one comma-separated alternative of the normalized filter text, trimmed and non-empty, occurs in its key |
| Filter.NonEmptyTrimmedEmpty | content.js:302-304 | Nothing is kept exactly when every piece trims to nothing |
| Filter.BlankQueryShowsAll | content.js:298-314 | An empty filter box, or one holding only commas and white space, shows every row |
| Filter.MoreTermsShowMore | content.js:310-312 | Adding terms to a non-empty list of terms never hides a row that the list already shows |
| Filter.PieceOfLocationShows | content.js:298-312 | Typing any text that normalizes like a piece of a row's location (in any ASCII case, with or without Turkish letters) shows that row, when the normalized piece has no comma and no white space at its ends |
| Filter.SeparatorIsNormal | content.js:298-304 | Commas and white space pass through normalization unchanged |
| Text.Substring | content.js:90-98 | `substring` clamps both ends to the length, then swaps them when start exceeds end: the result is exactly the slice between the clamped ends |
| Text.SubstringFrom | content.js:99 | `substring(start)` is the suffix from the clamped start |
| Text.Trim | content.js:58 | Defines `trim` as the leading white run removed, then the trailing one (its properties are `TrimIsSlice`, `TrimEmpty` and `TrimmedFixed`) |
| Text.TrimStart | content.js:58 | Defines the removal of the leading white run (its property is `TrimStartSpec`) |
| Text.TrimEnd | content.js:98 | Defines `trimEnd` (its property is `TrimEndSpec`) |
| Text.StartsWith | content.js:63 | `startsWith`: the prefix is no longer than the text and equals its beginning |
| Text.TrimStartSpec | content.js:58 | The leading-white-space removal of `trim` drops exactly the leading run of white space |
| Text.TrimEndSpec | content.js:98 | `trimEnd` drops exactly the trailing run of white space |
| Text.TrimIsSlice | content.js:58-66 | `trim` keeps a contiguous piece, drops only white space at both ends, and leaves a trimmed string |
| Text.TrimEmpty | content.js:302-304 | A string trims to "" exactly when it is all white space |
| Text.TrimmedFixed | content.js:66 | Trimming a trimmed string changes nothing |
| Text.TrimPadded | content.js:90-97 | Trimming a trimmed string padded with spaces gives the string back |
| Text.TrimEndPadded | content.js:98 | `trimEnd` of a string padded with spaces gives it back when it has no trailing white space |
| Text.ReplaceChar | content.js:101 | `replace(/\./g, "-")` replaces every dot and keeps every other character |
| Text.IndexOf | content.js:301 | The first separator, or the length when there is none |
| Text.Split | content.js:33 | `split` always gives at least one piece |
| Text.JoinSplit | content.js:33 | Joining the pieces of `split` with the separator gives the text back |
| Text.SplitPiecesSeparatorFree | content.js:301 | No piece holds the separator |
| Text.SplitCovers | content.js:301 | Every character of the text other than the separator lies in some piece |
| Text.SplitFromText | content.js:301 | Every character of every piece comes from the text |
| Text.Includes | content.js:311 | `includes` holds exactly when the string occurs at some position |

## Left out

- The page glue is not modelled, because it is UI: building the table, the styles, `replaceChild`, and wiring the listeners (content.js:194-298 and 316-349). Only the filter's term and match logic, and `normalizeString` of the row's location (content.js:264), are kept.
- `console.log` and `console.warn` are I/O and are not modelled. The rows the source warns about for an invalid date are returned as the extra `skipped` list of `ParseData`, besides `headerInfo` and `earthquakes`.
- `new Date(text)` and `isNaN` are not modelled: date parsing is a library call, so it is the parameter `dateOf`. A JavaScript `Date` is modelled as whole milliseconds (`Instant`).
- `new Date()` in `timeAgo` reads the clock, so it is the parameter `nowMs`. The `instanceof Date` test is not modelled: the event time arrives already parsed, as `Option<Instant>`.
- The `try/catch` of `parseData` (content.js:89 and 126-128) is not modelled: `substring`, `trim` and `replace` cannot throw on strings.
- TimeAgo.Classify: `days / 30.44` is modelled as `days * 25 / 761`, and `days / 365.25` as `days * 4 / 1461`, each rounded down. These are equal as exact decimals; double-precision rounding at bucket boundaries is not modelled.
- Normalize.LowerCase: `toLowerCase` is modelled on ASCII letters only. Other upper-case letters outside the Turkish table, such as `Ä`, are kept as they are.
- Normalize.NormalizeString: a `null` or `undefined` argument is not modelled, since every caller passes a string. The empty string gives "", as in the source.
- Text.IsWhite covers the ECMAScript white space and line terminator characters. Strings are sequences of Dafny characters, so UTF-16 surrogate pairs are not modelled.
- Report.Earthquake keeps the ten text fields in one `RowFields` value, rather than as separate properties of the record.
- Filter.Visibility returns the visibilities instead of setting `row.style.display` on the table's rows, and it works on the parsed events rather than on the `tr` elements that carry them.

/**
 * The fixed-width report parser `parseData` of content.js.  A report is a
 * few header lines, a rule line of dashes, then one event per line, its
 * fields at fixed character columns.  `new Date(...)` is the parameter
 * `dateOf`, which gives the instant a date-time text denotes, or `None` for
 * a text that is not a valid date.
 */
module Report {
  import opened Wrappers
  import opened Text

  /** Milliseconds since the epoch, as a JavaScript `Date` holds them. */
  type Instant = int

  /** A half-open range `[start, end)` of character positions. */
  datatype Column = Column(start: nat, end: nat)

  // The column table of the report layout.
  const DateCol := Column(0, 10)
  const TimeCol := Column(11, 19)
  const LatCol := Column(21, 28)
  const LonCol := Column(31, 38)
  const DepthCol := Column(40, 50)
  const MdCol := Column(54, 58)
  const MlCol := Column(59, 63)
  const MwCol := Column(64, 68)
  const LocationCol := Column(71, 118)
  /** The quality field runs from here to the end of the line. */
  const QualityStart: nat := 119

  /** The text fields of one event row. */
  datatype RowFields = RowFields(
    date: string, time: string, lat: string, lon: string, depth: string,
    md: string, ml: string, mw: string, location: string, quality: string)

  /** One parsed event: its fields, the instant of its date and time, and the line it came from. */
  datatype Earthquake = Earthquake(fields: RowFields, eventDate: Instant, originalLine: string)

  datatype HeaderInfo = HeaderInfo(title: string, subtitle: string, note: string)

  /** The result of a parse, with the lines skipped for an invalid date. */
  datatype Parsed = Parsed(headerInfo: HeaderInfo, earthquakes: seq<Earthquake>, skipped: seq<string>)

  const RuleMarker := "----------"

  /** A trimmed line that starts the data section (and is skipped after it). */
  predicate IsRule(trimmed: string)
  {
    StartsWith(trimmed, RuleMarker)
  }

  /** The test `/^\d{4}\./` on a trimmed line. */
  predicate IsDataRow(trimmed: string)
  {
    |trimmed| >= 5 && IsDigit(trimmed[0]) && IsDigit(trimmed[1]) &&
    IsDigit(trimmed[2]) && IsDigit(trimmed[3]) && trimmed[4] == '.'
  }

  /** A line that, in the data section, is parsed as an event row. */
  predicate IsCandidate(line: string)
  {
    IsDataRow(Trim(line))
  }

  /** A rule line and an empty line are never parsed as event rows. */
  lemma RuleAndBlankAreNotRows(line: string)
    ensures Trim(line) == "" ==> !IsCandidate(line)
    ensures IsRule(Trim(line)) ==> !IsCandidate(line)
  {
    if IsRule(Trim(line)) {
      assert Trim(line)[0] == RuleMarker[0];
    }
  }

  // ---- Header lines -------------------------------------------------------

  /** Removes the leading run of `.` (the `^\.+` of the header regular expression). */
  function DropLeadingDots(s: string): string
  {
    if s != [] && s[0] == '.' then DropLeadingDots(s[1..]) else s
  }

  /** Removes the trailing run of `.` (the `\.+$` of the header regular expression). */
  function DropTrailingDots(s: string): string
  {
    if s != [] && s[|s| - 1] == '.' then DropTrailingDots(s[..|s| - 1]) else s
  }

  /** A header line as stored: dot runs removed at both ends, then trimmed. */
  function CleanHeader(trimmed: string): string
  {
    Trim(DropTrailingDots(DropLeadingDots(trimmed)))
  }

  /** DropLeadingDots removes exactly the leading dots. */
  lemma {:induction false} DropLeadingDotsSpec(s: string)
    ensures var r := DropLeadingDots(s);
      |r| <= |s| && r == s[|s| - |r|..] &&
      (forall k :: 0 <= k < |s| - |r| ==> s[k] == '.') &&
      (r != [] ==> r[0] != '.')
  {
    if s != [] && s[0] == '.' {
      var t := s[1..];
      DropLeadingDotsSpec(t);
      var r := DropLeadingDots(t);
      assert t[|t| - |r|..] == s[|s| - |r|..];
      assert forall k :: 0 < k < |s| ==> s[k] == t[k - 1];
    }
  }

  /** DropTrailingDots removes exactly the trailing dots. */
  lemma {:induction false} DropTrailingDotsSpec(s: string)
    ensures var r := DropTrailingDots(s);
      |r| <= |s| && r == s[..|r|] &&
      (forall k :: |r| <= k < |s| ==> s[k] == '.') &&
      (r != [] ==> r[|r| - 1] != '.')
  {
    if s != [] && s[|s| - 1] == '.' {
      DropTrailingDotsSpec(s[..|s| - 1]);
    }
  }

  /**
   * A stored header line is a piece of the line that is trimmed, and it is
   * what is left after the dot runs at both ends are removed.
   */
  lemma CleanHeaderSpec(trimmed: string)
    ensures IsTrimmed(CleanHeader(trimmed))
    ensures exists i, j :: 0 <= i <= j <= |trimmed| && CleanHeader(trimmed) == trimmed[i..j]
  {
    var a := DropLeadingDots(trimmed);
    var b := DropTrailingDots(a);
    DropLeadingDotsSpec(trimmed);
    DropTrailingDotsSpec(a);
    TrimIsSlice(b);
    var i0, j0 :| 0 <= i0 <= j0 <= |b| && Trim(b) == b[i0..j0] &&
      (forall k :: 0 <= k < i0 ==> IsWhite(b[k])) && (forall k :: j0 <= k < |b| ==> IsWhite(b[k]));
    var off := |trimmed| - |a|;
    SliceOfSlice(a, 0, |b|, i0, j0);
    SliceOfSlice(trimmed, off, |a|, i0, j0);
  }

  /** The stored forms of the non-empty lines of `ls`, in order. */
  function HeaderLines(ls: seq<string>): seq<string>
  {
    if ls == [] then []
    else
      var t := Trim(ls[|ls| - 1]);
      HeaderLines(ls[..|ls| - 1]) + (if t == "" then [] else [CleanHeader(t)])
  }

  /** The first three header lines become title, subtitle and note; missing ones stay empty. */
  function HeaderOf(hs: seq<string>): HeaderInfo
  {
    HeaderInfo(
      if |hs| > 0 then hs[0] else "",
      if |hs| > 1 then hs[1] else "",
      if |hs| > 2 then hs[2] else "")
  }

  /** Header lines after the third never change the header. */
  lemma HeaderKeepsFirstThree(hs: seq<string>, more: seq<string>)
    requires |hs| >= 3
    ensures HeaderOf(hs + more) == HeaderOf(hs)
  {
  }

  // ---- Event rows ---------------------------------------------------------

  /** The characters of `line` in column `c`, clamped as `substring` clamps. */
  function Slice(line: string, c: Column): string
  {
    Substring(line, c.start, c.end)
  }

  /**
   * The fields of an event row, sliced from the untrimmed line.  Every field
   * is trimmed at both ends except the location, which is only end-trimmed.
   */
  function ExtractFields(line: string): RowFields
  {
    RowFields(
      Trim(Slice(line, DateCol)), Trim(Slice(line, TimeCol)),
      Trim(Slice(line, LatCol)), Trim(Slice(line, LonCol)),
      Trim(Slice(line, DepthCol)), Trim(Slice(line, MdCol)),
      Trim(Slice(line, MlCol)), Trim(Slice(line, MwCol)),
      TrimEnd(Slice(line, LocationCol)), Trim(SubstringFrom(line, QualityStart)))
  }

  /** The date-time text handed to `new Date`: the date with `-` for `.`, `T`, the time. */
  function DateTimeString(f: RowFields): string
  {
    ReplaceChar(f.date, '.', '-') + "T" + f.time
  }

  /** One candidate row: an event when its date and time are valid, `None` otherwise. */
  function ParseRow(line: string, dateOf: string -> Option<Instant>): (r: Option<Earthquake>)
    ensures r.Some? <==> dateOf(DateTimeString(ExtractFields(line))).Some?
    ensures r.Some? ==> r.value.originalLine == line && r.value.fields == ExtractFields(line)
    ensures r.Some? ==> dateOf(DateTimeString(r.value.fields)) == Some(r.value.eventDate)
  {
    var f := ExtractFields(line);
    match dateOf(DateTimeString(f))
    case None => None
    case Some(instant) => Some(Earthquake(f, instant, line))
  }

  /** What the data section makes of one line. */
  datatype Outcome = Ignored | Event(event: Earthquake) | InvalidDate

  /**
   * A line of the data section is ignored unless its trimmed form starts with
   * four digits and a dot; such a line becomes an event when its date and
   * time are valid and is skipped otherwise.
   */
  function LineOutcome(line: string, dateOf: string -> Option<Instant>): (r: Outcome)
    ensures r.Event? <==> IsCandidate(line) && ParseRow(line, dateOf).Some?
    ensures r.InvalidDate? <==> IsCandidate(line) && ParseRow(line, dateOf).None?
    ensures r.Event? ==> ParseRow(line, dateOf) == Some(r.event) && r.event.originalLine == line
  {
    if !IsCandidate(line) then Ignored
    else
      match ParseRow(line, dateOf)
      case None => InvalidDate
      case Some(e) => Event(e)
  }

  /** The line handling of the data section, with `new Date` given by `dateOf`. */
  function Handler(dateOf: string -> Option<Instant>): string -> Outcome
  {
    line => LineOutcome(line, dateOf)
  }

  /** The events of the lines of a data section, in line order. */
  function Records(ls: seq<string>, out: string -> Outcome): seq<Earthquake>
  {
    if ls == [] then []
    else (if out(ls[0]).Event? then [out(ls[0]).event] else []) + Records(ls[1..], out)
  }

  /** The rows of a data section that were skipped for an invalid date, in line order. */
  function Rejected(ls: seq<string>, out: string -> Outcome): seq<string>
  {
    if ls == [] then []
    else (if out(ls[0]).InvalidDate? then [ls[0]] else []) + Rejected(ls[1..], out)
  }

  /** The events and skipped rows of two parts of a data section, one after the other. */
  lemma {:induction false} RecordsAppend(a: seq<string>, b: seq<string>, out: string -> Outcome)
    ensures Records(a + b, out) == Records(a, out) + Records(b, out)
    ensures Rejected(a + b, out) == Rejected(a, out) + Rejected(b, out)
  {
    if a != [] {
      assert (a + b)[1..] == a[1..] + b;
      RecordsAppend(a[1..], b, out);
    } else {
      assert a + b == b;
    }
  }

  /** The events and skipped rows of a data section that grows by one line. */
  lemma RecordsSnoc(data: seq<string>, x: string, out: string -> Outcome)
    ensures Records(data + [x], out) == Records(data, out) + (if out(x).Event? then [out(x).event] else [])
    ensures Rejected(data + [x], out) == Rejected(data, out) + (if out(x).InvalidDate? then [x] else [])
  {
    RecordsAppend(data, [x], out);
    assert [x][1..] == [];
  }

  // ---- The whole report ---------------------------------------------------

  /** The index of the first rule line, or `|ls|` when there is none. */
  function RuleIndex(ls: seq<string>): (r: nat)
    ensures r <= |ls|
  {
    if ls == [] then 0 else if IsRule(Trim(ls[0])) then 0 else 1 + RuleIndex(ls[1..])
  }

  /** RuleIndex finds the first rule line: the one at the index is a rule, none before it is. */
  lemma {:induction false} RuleIndexSpec(ls: seq<string>)
    ensures RuleIndex(ls) < |ls| ==> IsRule(Trim(ls[RuleIndex(ls)]))
    ensures forall j :: 0 <= j < RuleIndex(ls) ==> !IsRule(Trim(ls[j]))
  {
    if ls != [] && !IsRule(Trim(ls[0])) {
      RuleIndexSpec(ls[1..]);
      assert forall j :: 0 < j < |ls| ==> ls[j] == ls[1..][j - 1];
    }
  }

  /**
   * What parsing the lines of a report yields: the header comes from the
   * lines before the first rule line, the events and the skipped rows from
   * the lines after it; without a rule line there are no events.
   */
  function ReportOf(lines: seq<string>, dateOf: string -> Option<Instant>): Parsed
  {
    var s := Summary(lines, dateOf);
    Parsed(s.headerInfo, s.earthquakes, s.skipped)
  }

  // ---- The scan ---------------------------------------------------------

  lemma {:induction false} RuleIndexSnoc(ls: seq<string>, x: string)
    ensures RuleIndex(ls + [x]) ==
      if RuleIndex(ls) < |ls| then RuleIndex(ls) else if IsRule(Trim(x)) then |ls| else |ls| + 1
  {
    if ls == [] {
      assert [] + [x] == [x];
      assert [x][1..] == [];
    } else {
      assert (ls + [x])[0] == ls[0];
      assert (ls + [x])[1..] == ls[1..] + [x];
      RuleIndexSnoc(ls[1..], x);
    }
  }

  lemma HeaderLinesSnoc(ls: seq<string>, x: string)
    ensures HeaderLines(ls + [x]) ==
      HeaderLines(ls) + (if Trim(x) == "" then [] else [CleanHeader(Trim(x))])
  {
    assert (ls + [x])[..|ls|] == ls;
  }

  /** The variables of the loop of `parseData`. */
  datatype Scan = Scan(dataStarted: bool, headerLineCount: nat, headerInfo: HeaderInfo,
                       earthquakes: seq<Earthquake>, skipped: seq<string>)

  const Start := Scan(false, 0, HeaderInfo("", "", ""), [], [])

  /** What one iteration of the loop of `parseData` does to its variables. */
  function Step(st: Scan, line: string, dateOf: string -> Option<Instant>): Scan
  {
    var t := Trim(line);
    if t == "" then st
    else if !st.dataStarted && !StartsWith(t, RuleMarker) && st.headerLineCount < 3 then
      var c := CleanHeader(t);
      var h := st.headerInfo;
      st.(headerInfo :=
            if st.headerLineCount == 0 then h.(title := c)
            else if st.headerLineCount == 1 then h.(subtitle := c)
            else h.(note := c),
          headerLineCount := st.headerLineCount + 1)
    else if StartsWith(t, RuleMarker) then st.(dataStarted := true)
    else if !st.dataStarted || !IsDataRow(t) then st
    else
      match ParseRow(line, dateOf)
      case None => st.(skipped := st.skipped + [line])
      case Some(e) => st.(earthquakes := st.earthquakes + [e])
  }

  /** The loop variables after the given lines, from the state before the first line. */
  function Run(ls: seq<string>, dateOf: string -> Option<Instant>): Scan
  {
    if ls == [] then Start else Step(Run(ls[..|ls| - 1], dateOf), ls[|ls| - 1], dateOf)
  }

  /** One more line of the text is one more step. */
  lemma RunPrefix(ls: seq<string>, i: nat, dateOf: string -> Option<Instant>)
    requires i < |ls|
    ensures Run(ls[..i + 1], dateOf) == Step(Run(ls[..i], dateOf), ls[i], dateOf)
  {
    assert ls[..i + 1][..i] == ls[..i];
  }

  /**
   * The loop variables as the declarative reading says they must be after
   * `ls`: whether a rule line was seen, the number of header lines taken
   * (at most three), the header from the lines before the first rule line,
   * and the events and skipped rows of the lines after it.
   */
  function Summary(ls: seq<string>, dateOf: string -> Option<Instant>): Scan
  {
    var k := RuleIndex(ls);
    var hs := HeaderLines(ls[..k]);
    var data := if k < |ls| then ls[k + 1..] else [];
    Scan(k < |ls|, Min(3, |hs|), HeaderOf(hs), Records(data, Handler(dateOf)), Rejected(data, Handler(dateOf)))
  }

  /** The header of one more header line, while fewer than three were taken. */
  lemma HeaderOfSnoc(hs: seq<string>, c: string)
    requires |hs| < 3
    ensures var h := HeaderOf(hs);
      HeaderOf(hs + [c]) ==
        if |hs| == 0 then h.(title := c) else if |hs| == 1 then h.(subtitle := c) else h.(note := c)
  {
  }

  /** Before any rule line, a blank line changes nothing. */
  lemma HeaderBlankSnoc(ls: seq<string>, x: string, dateOf: string -> Option<Instant>)
    requires RuleIndex(ls) == |ls| && Trim(x) == ""
    ensures Summary(ls + [x], dateOf) == Summary(ls, dateOf)
  {
    RuleIndexSnoc(ls, x);
    HeaderLinesSnoc(ls, x);
    SnocWhole(ls, x);
  }

  /** Before any rule line, a rule line starts the data section. */
  lemma HeaderRuleSnoc(ls: seq<string>, x: string, dateOf: string -> Option<Instant>)
    requires RuleIndex(ls) == |ls| && IsRule(Trim(x))
    ensures Summary(ls + [x], dateOf) == Summary(ls, dateOf).(dataStarted := true)
  {
    RuleIndexSnoc(ls, x);
    SnocWhole(ls, x);
  }

  /** Before any rule line, any other non-blank line is one more header line. */
  lemma HeaderTextSnoc(ls: seq<string>, x: string, dateOf: string -> Option<Instant>)
    requires RuleIndex(ls) == |ls| && Trim(x) != "" && !IsRule(Trim(x))
    ensures var hs := HeaderLines(ls);
      Summary(ls + [x], dateOf) ==
        Summary(ls, dateOf).(headerLineCount := Min(3, |hs| + 1), headerInfo := HeaderOf(hs + [CleanHeader(Trim(x))]))
  {
    RuleIndexSnoc(ls, x);
    HeaderLinesSnoc(ls, x);
    SnocWhole(ls, x);
  }

  /** What one line does to the summary before any rule line. */
  lemma HeaderSummarySnoc(ls: seq<string>, x: string, dateOf: string -> Option<Instant>)
    requires RuleIndex(ls) == |ls|
    ensures var st := Summary(ls, dateOf);
      var t := Trim(x);
      var hs := HeaderLines(ls);
      (t == "" ==> Summary(ls + [x], dateOf) == st) &&
      (t != "" && IsRule(t) ==> Summary(ls + [x], dateOf) == st.(dataStarted := true)) &&
      (t != "" && !IsRule(t) ==>
        Summary(ls + [x], dateOf) ==
          st.(headerLineCount := Min(3, |hs| + 1), headerInfo := HeaderOf(hs + [CleanHeader(t)])))
  {
    if Trim(x) == "" {
      HeaderBlankSnoc(ls, x, dateOf);
    } else if IsRule(Trim(x)) {
      HeaderRuleSnoc(ls, x, dateOf);
    } else {
      HeaderTextSnoc(ls, x, dateOf);
    }
  }

  /** What one loop iteration does before the data section. */
  lemma HeaderStepEffect(st: Scan, x: string, dateOf: string -> Option<Instant>)
    requires !st.dataStarted
    ensures var t := Trim(x);
      var c := CleanHeader(t);
      var h := st.headerInfo;
      (t == "" ==> Step(st, x, dateOf) == st) &&
      (t != "" && IsRule(t) ==> Step(st, x, dateOf) == st.(dataStarted := true)) &&
      (t != "" && !IsRule(t) && st.headerLineCount >= 3 ==> Step(st, x, dateOf) == st) &&
      (t != "" && !IsRule(t) && st.headerLineCount < 3 ==>
        Step(st, x, dateOf) ==
          st.(headerInfo :=
                if st.headerLineCount == 0 then h.(title := c)
                else if st.headerLineCount == 1 then h.(subtitle := c)
                else h.(note := c),
              headerLineCount := st.headerLineCount + 1))
  {
  }

  /** A line before any rule line moves the summary as one loop iteration does. */
  lemma HeaderModeStep(ls: seq<string>, x: string, dateOf: string -> Option<Instant>)
    requires RuleIndex(ls) == |ls|
    ensures Step(Summary(ls, dateOf), x, dateOf) == Summary(ls + [x], dateOf)
  {
    HeaderSummarySnoc(ls, x, dateOf);
    var st := Summary(ls, dateOf);
    HeaderStepEffect(st, x, dateOf);
    assert ls[..|ls|] == ls;
    var hs := HeaderLines(ls);
    var t := Trim(x);
    if t != "" && !IsRule(t) {
      if |hs| < 3 {
        HeaderOfSnoc(hs, CleanHeader(t));
      } else {
        HeaderKeepsFirstThree(hs, [CleanHeader(t)]);
      }
    }
  }

  /** Slices of a sequence with one more element at the end. */
  lemma SnocSlices<T>(ls: seq<T>, x: T, k: nat)
    requires k < |ls|
    ensures (ls + [x])[k + 1..] == ls[k + 1..] + [x]
    ensures (ls + [x])[..k] == ls[..k]
  {
  }

  /** The slices of `ls + [x]` at the end of `ls`. */
  lemma SnocWhole<T>(ls: seq<T>, x: T)
    ensures ls[..|ls|] == ls && (ls + [x])[..|ls|] == ls
    ensures (ls + [x])[|ls| + 1..] == [] && (ls + [x])[..|ls| + 1] == ls + [x]
  {
  }

  /** A non-empty sequence is its front followed by its last element. */
  lemma SnocLast<T>(ls: seq<T>)
    requires ls != []
    ensures ls[..|ls| - 1] + [ls[|ls| - 1]] == ls
  {
  }

  /** The loop variables with the outcome of one more line of the data section added. */
  function AddOutcome(st: Scan, x: string, o: Outcome): Scan
  {
    match o
    case Ignored => st
    case Event(e) => st.(earthquakes := st.earthquakes + [e])
    case InvalidDate => st.(skipped := st.skipped + [x])
  }

  /** What one line does to the summary after the rule line. */
  lemma DataSummarySnoc(ls: seq<string>, x: string, dateOf: string -> Option<Instant>)
    requires RuleIndex(ls) < |ls|
    ensures Summary(ls + [x], dateOf) == AddOutcome(Summary(ls, dateOf), x, LineOutcome(x, dateOf))
  {
    var k := RuleIndex(ls);
    var out := Handler(dateOf);
    RuleIndexSnoc(ls, x);
    SnocSlices(ls, x, k);
    AddOutcomeSnoc(Summary(ls, dateOf), ls[k + 1..], x, out);
    assert out(x) == LineOutcome(x, dateOf);
  }

  /** Adding the outcome of one more line extends the events and skipped rows by that line. */
  lemma AddOutcomeSnoc(st: Scan, data: seq<string>, x: string, out: string -> Outcome)
    requires st.earthquakes == Records(data, out) && st.skipped == Rejected(data, out)
    ensures AddOutcome(st, x, out(x)) ==
      st.(earthquakes := Records(data + [x], out), skipped := Rejected(data + [x], out))
  {
    RecordsSnoc(data, x, out);
  }

  /** What one loop iteration does in the data section. */
  lemma DataStepEffect(st: Scan, x: string, dateOf: string -> Option<Instant>)
    requires st.dataStarted
    ensures Step(st, x, dateOf) == AddOutcome(st, x, LineOutcome(x, dateOf))
  {
    RuleAndBlankAreNotRows(x);
  }

  /** A line after the rule line moves the summary as one loop iteration does. */
  lemma DataModeStep(ls: seq<string>, x: string, dateOf: string -> Option<Instant>)
    requires RuleIndex(ls) < |ls|
    ensures Step(Summary(ls, dateOf), x, dateOf) == Summary(ls + [x], dateOf)
  {
    DataSummarySnoc(ls, x, dateOf);
    DataStepEffect(Summary(ls, dateOf), x, dateOf);
  }

  /** The loop computes the declarative summary of the lines it has read. */
  lemma {:induction false} RunIsSummary(ls: seq<string>, dateOf: string -> Option<Instant>)
    ensures Run(ls, dateOf) == Summary(ls, dateOf)
  {
    if ls != [] {
      var init := ls[..|ls| - 1];
      RunIsSummary(init, dateOf);
      SnocLast(ls);
      if RuleIndex(init) < |init| {
        DataModeStep(init, ls[|ls| - 1], dateOf);
      } else {
        HeaderModeStep(init, ls[|ls| - 1], dateOf);
      }
    }
  }

  /**
   * `parseData`: one pass over the lines of the text, keeping whether the
   * data section has started, how many header lines were taken, the header
   * and the events found so far.  Its result is the declarative ReportOf of
   * the lines.
   */
  method ParseData(preText: string, dateOf: string -> Option<Instant>)
    returns (headerInfo: HeaderInfo, earthquakes: seq<Earthquake>, skipped: seq<string>)
    ensures Parsed(headerInfo, earthquakes, skipped) == ReportOf(Split(preText, '\n'), dateOf)
  {
    var lines := Split(preText, '\n');
    earthquakes, skipped := [], [];
    var dataStarted := false;
    headerInfo := HeaderInfo("", "", "");
    var headerLineCount := 0;

    for i := 0 to |lines|
      invariant Scan(dataStarted, headerLineCount, headerInfo, earthquakes, skipped) == Run(lines[..i], dateOf)
    {
      RunPrefix(lines, i, dateOf);
      var line := lines[i];
      var trimmedLine := Trim(line);
      if trimmedLine == "" {
        continue;
      }
      if !dataStarted && !StartsWith(trimmedLine, RuleMarker) && headerLineCount < 3 {
        var cleanedLine := CleanHeader(trimmedLine);
        if headerLineCount == 0 {
          headerInfo := headerInfo.(title := cleanedLine);
        } else if headerLineCount == 1 {
          headerInfo := headerInfo.(subtitle := cleanedLine);
        } else {
          headerInfo := headerInfo.(note := cleanedLine);
        }
        headerLineCount := headerLineCount + 1;
        continue;
      }
      if StartsWith(trimmedLine, RuleMarker) {
        if !dataStarted {
          dataStarted := true;
        }
        continue;
      }
      if !dataStarted {
        continue;
      }
      if !IsDataRow(trimmedLine) {
        continue;
      }
      var row := ParseRow(line, dateOf);
      if row.None? {
        skipped := skipped + [line];
        continue;
      }
      earthquakes := earthquakes + [row.value];
    }
    assert lines[..|lines|] == lines;
    RunIsSummary(lines, dateOf);
  }

  // ---- Properties of the events -----------------------------------------

  /** Every line gives at most one event or one skipped row. */
  lemma {:induction false} RecordsCount(ls: seq<string>, out: string -> Outcome)
    ensures |Records(ls, out)| + |Rejected(ls, out)| <= |ls|
  {
    if ls != [] {
      RecordsCount(ls[1..], out);
    }
  }

  /**
   * The positions, counted from `base`, of the lines of `ls` that become
   * events, in increasing order, one for each event of Records.
   */
  function EventIndices(ls: seq<string>, out: string -> Outcome, base: nat): (idx: seq<nat>)
    ensures |idx| == |Records(ls, out)|
    ensures forall j :: 0 <= j < |idx| ==> base <= idx[j] < base + |ls|
    ensures forall j, j' :: 0 <= j < j' < |idx| ==> idx[j] < idx[j']
  {
    if ls == [] then []
    else
      var rest := EventIndices(ls[1..], out, base + 1);
      if out(ls[0]).Event? then
        var r := [base] + rest;
        assert forall j :: 0 < j < |r| ==> r[j] == rest[j - 1];
        r
      else
        rest
  }

  /** The line at the `j`-th position of EventIndices is the source of the `j`-th event. */
  lemma {:induction false} EventIndicesSource(ls: seq<string>, out: string -> Outcome, base: nat, j: nat)
    requires j < |Records(ls, out)|
    ensures var idx := EventIndices(ls, out, base);
      out(ls[idx[j] - base]) == Event(Records(ls, out)[j])
  {
    var idx := EventIndices(ls, out, base);
    var rest := EventIndices(ls[1..], out, base + 1);
    var h := if out(ls[0]).Event? then 1 else 0;
    assert Records(ls, out) == (if h == 1 then [out(ls[0]).event] else []) + Records(ls[1..], out);
    if j >= h {
      EventIndicesSource(ls[1..], out, base + 1, j - h);
      assert idx[j] == rest[j - h];
      assert ls[idx[j] - base] == ls[1..][rest[j - h] - (base + 1)];
    }
  }

  /** EventIndices from position 0 gives each event's line within the section. */
  lemma EventSource(ls: seq<string>, out: string -> Outcome, j: nat)
    requires j < |Records(ls, out)|
    ensures var idx := EventIndices(ls, out, 0);
      idx[j] < |ls| && out(ls[idx[j]]) == Event(Records(ls, out)[j])
  {
    EventIndicesSource(ls, out, 0, j);
  }

  /** No line that becomes an event is missing from EventIndices. */
  lemma {:induction false} EventIndicesComplete(ls: seq<string>, out: string -> Outcome, base: nat, i: nat)
    requires i < |ls| && out(ls[i]).Event?
    ensures base + i in EventIndices(ls, out, base)
  {
    if i > 0 {
      assert ls[1..][i - 1] == ls[i];
      EventIndicesComplete(ls[1..], out, base + 1, i - 1);
    }
  }

  /**
   * Events come out in line order: the earlier event was parsed from the line
   * at an earlier position, and each carries the line at its position.
   */
  lemma EventsInLineOrder(ls: seq<string>, dateOf: string -> Option<Instant>, j: nat, j': nat)
    requires j < j' < |Records(ls, Handler(dateOf))|
    ensures var idx := EventIndices(ls, Handler(dateOf), 0);
      idx[j] < idx[j'] < |ls| &&
      Records(ls, Handler(dateOf))[j].originalLine == ls[idx[j]] &&
      Records(ls, Handler(dateOf))[j'].originalLine == ls[idx[j']] &&
      ParseRow(ls[idx[j]], dateOf) == Some(Records(ls, Handler(dateOf))[j]) &&
      ParseRow(ls[idx[j']], dateOf) == Some(Records(ls, Handler(dateOf))[j'])
  {
    EventOrigin(ls, dateOf, j);
    EventOrigin(ls, dateOf, j');
  }

  /** The `j`-th event was parsed from the line at the `j`-th position of EventIndices. */
  lemma EventOrigin(ls: seq<string>, dateOf: string -> Option<Instant>, j: nat)
    requires j < |Records(ls, Handler(dateOf))|
    ensures var idx := EventIndices(ls, Handler(dateOf), 0);
      idx[j] < |ls| && Records(ls, Handler(dateOf))[j].originalLine == ls[idx[j]] &&
      IsCandidate(ls[idx[j]]) && ParseRow(ls[idx[j]], dateOf) == Some(Records(ls, Handler(dateOf))[j])
  {
    var idx := EventIndices(ls, Handler(dateOf), 0);
    EventSource(ls, Handler(dateOf), j);
    HandlerEvent(ls[idx[j]], dateOf, Records(ls, Handler(dateOf))[j]);
  }

  /** An event produced by the handler was parsed from the candidate line it carries. */
  lemma HandlerEvent(line: string, dateOf: string -> Option<Instant>, e: Earthquake)
    requires Handler(dateOf)(line) == Event(e)
    ensures e.originalLine == line && IsCandidate(line) && ParseRow(line, dateOf) == Some(e)
  {
    assert Handler(dateOf)(line) == LineOutcome(line, dateOf);
  }

  /** A row skipped for its date leaves the outcome of every other row as it was. */
  lemma RejectedRowIsolated(a: seq<string>, bad: string, b: seq<string>, out: string -> Outcome)
    requires out(bad).InvalidDate?
    ensures Records(a + [bad] + b, out) == Records(a + b, out)
    ensures Rejected(a + [bad] + b, out) == Rejected(a, out) + [bad] + Rejected(b, out)
  {
    RecordsAppend(a + [bad], b, out);
    RecordsSnoc(a, bad, out);
    RecordsAppend(a, b, out);
  }

  /** Replacing a valid row by one with an invalid date costs exactly one event. */
  lemma InvalidRowCostsOne(a: seq<string>, good: string, bad: string, b: seq<string>, out: string -> Outcome)
    requires out(good).Event? && out(bad).InvalidDate?
    ensures |Records(a + [good] + b, out)| == |Records(a + [bad] + b, out)| + 1
  {
    RecordsAppend(a + [good], b, out);
    RecordsSnoc(a, good, out);
    RejectedRowIsolated(a, bad, b, out);
    RecordsAppend(a, b, out);
  }

  /** The data section's handler skips exactly the candidate rows whose date is invalid. */
  lemma HandlerRejects(line: string, dateOf: string -> Option<Instant>)
    ensures Handler(dateOf)(line).InvalidDate? <==>
      IsCandidate(line) && dateOf(DateTimeString(ExtractFields(line))).None?
    ensures Handler(dateOf)(line).Event? <==>
      IsCandidate(line) && dateOf(DateTimeString(ExtractFields(line))).Some?
  {
  }

  /**
   * Every event of a report comes from a line after the first rule line
   * whose trimmed form starts with four digits and a dot; so a report
   * without a rule line has no events and no skipped rows.
   */
  lemma EventsFollowRule(lines: seq<string>, dateOf: string -> Option<Instant>)
    ensures forall e :: e in ReportOf(lines, dateOf).earthquakes ==>
      exists i :: RuleIndex(lines) < i < |lines| && lines[i] == e.originalLine && IsCandidate(lines[i])
    ensures RuleIndex(lines) == |lines| ==>
      ReportOf(lines, dateOf).earthquakes == [] && ReportOf(lines, dateOf).skipped == []
  {
    var k := RuleIndex(lines);
    if k < |lines| {
      var data := lines[k + 1..];
      var evs := Records(data, Handler(dateOf));
      var idx := EventIndices(data, Handler(dateOf), 0);
      forall e | e in evs
        ensures exists i :: k < i < |lines| && lines[i] == e.originalLine && IsCandidate(lines[i])
      {
        var j :| 0 <= j < |evs| && evs[j] == e;
        EventOrigin(data, dateOf, j);
        assert lines[k + 1 + idx[j]] == data[idx[j]];
      }
    }
  }

  /** A report never has more events and skipped rows together than lines. */
  lemma ReportCount(lines: seq<string>, dateOf: string -> Option<Instant>)
    ensures |ReportOf(lines, dateOf).earthquakes| + |ReportOf(lines, dateOf).skipped| <= |lines|
  {
    var k := RuleIndex(lines);
    if k < |lines| {
      RecordsCount(lines[k + 1..], Handler(dateOf));
    }
  }

  // ---- Properties of the header -----------------------------------------

  /** The header lines of two runs of lines, one after the other. */
  lemma {:induction false} HeaderLinesAppend(a: seq<string>, b: seq<string>)
    ensures HeaderLines(a + b) == HeaderLines(a) + HeaderLines(b)
    decreases |b|
  {
    if b == [] {
      assert a + b == a;
    } else {
      var b' := b[..|b| - 1];
      var x := b[|b| - 1];
      SnocLast(b);
      assert a + b == (a + b') + [x];
      HeaderLinesSnoc(a + b', x);
      HeaderLinesSnoc(b', x);
      HeaderLinesAppend(a, b');
    }
  }

  /** Blank lines give no header lines. */
  lemma {:induction false} HeaderLinesBlank(ls: seq<string>)
    requires forall i :: 0 <= i < |ls| ==> Trim(ls[i]) == ""
    ensures HeaderLines(ls) == []
  {
    if ls != [] {
      assert forall i :: 0 <= i < |ls| - 1 ==> ls[..|ls| - 1][i] == ls[i];
      HeaderLinesBlank(ls[..|ls| - 1]);
    }
  }

  /** There are no more header lines than lines, and each is stored trimmed. */
  lemma {:induction false} HeaderLinesSpec(ls: seq<string>)
    ensures |HeaderLines(ls)| <= |ls|
    ensures forall h :: h in HeaderLines(ls) ==> IsTrimmed(h)
  {
    if ls != [] {
      HeaderLinesSpec(ls[..|ls| - 1]);
      CleanHeaderSpec(Trim(ls[|ls| - 1]));
    }
  }

  /**
   * A line of dots alone still takes a header slot: it is counted, and what
   * is stored for it is empty.
   */
  lemma DotsLineTakesSlot(x: string)
    requires Trim(x) != "" && forall k :: 0 <= k < |Trim(x)| ==> Trim(x)[k] == '.'
    ensures HeaderLines([x]) == [""]
  {
    DotsOnly(Trim(x));
    assert [x][..0] == [];
  }

  /** A run of dots alone is removed entirely. */
  lemma {:induction false} DotsOnly(s: string)
    requires forall k :: 0 <= k < |s| ==> s[k] == '.'
    ensures DropLeadingDots(s) == []
  {
    if s != [] {
      assert forall k :: 0 <= k < |s| - 1 ==> s[1..][k] == s[k + 1];
      DotsOnly(s[1..]);
    }
  }

  /**
   * The title of a report is the first non-blank line before the rule line,
   * with its dot runs and white space removed.
   */
  lemma TitleIsFirstLine(lines: seq<string>, dateOf: string -> Option<Instant>, j: nat)
    requires j < RuleIndex(lines) && Trim(lines[j]) != ""
    requires forall i :: 0 <= i < j ==> Trim(lines[i]) == ""
    ensures ReportOf(lines, dateOf).headerInfo.title == CleanHeader(Trim(lines[j]))
  {
    var k := RuleIndex(lines);
    var before := lines[..k];
    assert before == lines[..j] + [lines[j]] + lines[j + 1..k];
    HeaderLinesBlank(lines[..j]);
    HeaderLinesSnoc(lines[..j], lines[j]);
    HeaderLinesAppend(lines[..j] + [lines[j]], lines[j + 1..k]);
  }
}

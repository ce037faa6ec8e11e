/**
 * The relative-time formatter `timeAgo` of content.js.  The wall clock and
 * `new Date(...)` are parameters: times are whole milliseconds since the
 * epoch, and an event time that did not parse is `None`.
 */
module TimeAgo {
  import opened Wrappers
  import opened Text

  const SecondsPerMinute: int := 60
  const SecondsPerHour: int := 3600
  const SecondsPerDay: int := 86400

  /**
   * The bucket an elapsed time falls into, with the numbers shown for it.  A
   * minor part of zero (`Days(d, 0)`, `Hours(h, 0)`, `Minutes(m, 0)`) is
   * rendered without that part.
   */
  datatype Age =
    | JustNow
    | Seconds(s: nat)
    | Minutes(m: nat, s: nat)
    | Hours(h: nat, m: nat)
    | Days(d: nat, h: nat)
    | Weeks(w: nat)
    | Months(mo: nat)
    | Years(y: nat)

  /**
   * The buckets of `timeAgo` for `t` whole elapsed seconds, coarsest first.
   * `days / 30.44` is read as `days * 25 / 761` and `days / 365.25` as
   * `days * 4 / 1461`.  The contract characterises each bucket by the range
   * of `t` it covers and the numbers it shows.
   */
  function Classify(t: int): (a: Age)
    ensures t < 1 <==> a == JustNow
    ensures 1 <= t < 60 ==> a == Seconds(t)
    ensures 60 <= t < SecondsPerHour ==>
      a.Minutes? && 1 <= a.m <= 59 && a.s <= 59 && a.m * 60 + a.s == t
    ensures SecondsPerHour <= t < SecondsPerDay ==>
      a.Hours? && 1 <= a.h <= 23 && a.m <= 59 &&
      a.h * 3600 + a.m * 60 <= t < a.h * 3600 + a.m * 60 + 60
    ensures SecondsPerDay <= t < 7 * SecondsPerDay ==>
      a.Days? && 1 <= a.d <= 6 && a.h <= 23 &&
      a.d * 86400 + a.h * 3600 <= t < a.d * 86400 + a.h * 3600 + 3600
    ensures 7 <= t / SecondsPerDay < 28 ==>
      a.Weeks? && 1 <= a.w <= 3 && 7 * a.w <= t / SecondsPerDay < 7 * a.w + 7
    ensures 28 <= t / SecondsPerDay < 366 ==>
      a.Months? && a.mo <= 11 && a.mo * 761 <= (t / SecondsPerDay) * 25 < a.mo * 761 + 761
    ensures 366 <= t / SecondsPerDay ==>
      a.Years? && 1 <= a.y && a.y * 1461 <= (t / SecondsPerDay) * 4 < a.y * 1461 + 1461
  {
    if t < 1 then
      JustNow
    else
      var days := t / SecondsPerDay;
      if days >= 7 then
        var weeks := days / 7;
        if weeks >= 4 then
          var months := days * 25 / 761;
          if months >= 12 then Years(days * 4 / 1461) else Months(months)
        else
          Weeks(weeks)
      else if days >= 1 then
        var hoursToday := (t % SecondsPerDay) / SecondsPerHour;
        Days(days, hoursToday)
      else
        var hours := t / SecondsPerHour;
        var remaining := t % SecondsPerHour;
        var minutes := remaining / SecondsPerMinute;
        var seconds := remaining % SecondsPerMinute;
        if hours >= 1 then Hours(hours, minutes)
        else if minutes >= 1 then Minutes(minutes, seconds)
        else Seconds(if seconds < 0 then 0 else seconds)
  }

  function DigitChar(d: nat): (c: char)
    requires d < 10
  {
    ('0' as int + d) as char
  }

  /** Decimal notation of a whole number, as JavaScript prints it. */
  function ShowNat(n: nat): (r: string)
    ensures r != [] && forall k :: 0 <= k < |r| ==> IsDigit(r[k])
  {
    if n < 10 then [DigitChar(n)] else ShowNat(n / 10) + [DigitChar(n % 10)]
  }

  /** A part followed by its unit letter, such as `5m`. */
  function Part(n: nat, unit: string): string
  {
    ShowNat(n) + unit
  }

  /** The text for a bucket: the parts joined by a space, then ` ago`. */
  function Render(a: Age): string
  {
    match a
    case JustNow => "just now"
    case Seconds(s) => Part(s, "s") + " ago"
    case Minutes(m, s) => Part(m, "m") + (if s > 0 then " " + Part(s, "s") else "") + " ago"
    case Hours(h, m) => Part(h, "h") + (if m > 0 then " " + Part(m, "m") else "") + " ago"
    case Days(d, h) => Part(d, "d") + (if h > 0 then " " + Part(h, "h") else "") + " ago"
    case Weeks(w) => Part(w, "w") + " ago"
    case Months(mo) => Part(mo, "mo") + " ago"
    case Years(y) => Part(y, "y") + " ago"
  }

  /** The text for `t` whole elapsed seconds; it reads back as the bucket of `t`. */
  function AgeText(t: int): (r: string)
    ensures ParseAge(r) == Some(Classify(t))
  {
    ParseRender(Classify(t));
    Render(Classify(t))
  }

  /**
   * `timeAgo(date)`: "Invalid date" when the event time did not parse,
   * otherwise the text for the whole seconds elapsed since it (rounded
   * down, so a negative difference also counts as "just now").
   */
  function TimeAgo(nowMs: int, event: Option<int>): (r: string)
    ensures event.None? ==> r == "Invalid date"
    ensures event.Some? ==> ParseAge(r) == Some(Classify((nowMs - event.value) / 1000))
  {
    match event
    case None => "Invalid date"
    case Some(eventMs) => AgeText((nowMs - eventMs) / 1000)
  }

  // ---- Reading a rendered text back -------------------------------------

  /** Length of the leading run of decimal digits. */
  function LeadingDigits(s: string): (k: nat)
    ensures k <= |s|
    ensures forall i :: 0 <= i < k ==> IsDigit(s[i])
    ensures k < |s| ==> !IsDigit(s[k])
  {
    if s != [] && IsDigit(s[0]) then 1 + LeadingDigits(s[1..]) else 0
  }

  /** The number a string of decimal digits denotes. */
  function DigitsValue(s: string): nat
    requires forall k :: 0 <= k < |s| ==> IsDigit(s[k])
  {
    if s == [] then 0
    else
      assert IsDigit(s[|s| - 1]);
      DigitsValue(s[..|s| - 1]) * 10 + (s[|s| - 1] as int - '0' as int)
  }

  lemma {:induction false} DigitsValueShow(n: nat)
    ensures DigitsValue(ShowNat(n)) == n
  {
    if n >= 10 {
      DigitsValueShow(n / 10);
      var s := ShowNat(n);
      assert s[..|s| - 1] == ShowNat(n / 10);
    }
  }

  /** The digits of `n` followed by text that does not start with a digit are read back as `n`. */
  lemma ReadShown(n: nat, rest: string)
    requires rest == [] || !IsDigit(rest[0])
    ensures LeadingDigits(ShowNat(n) + rest) == |ShowNat(n)|
    ensures (ShowNat(n) + rest)[..|ShowNat(n)|] == ShowNat(n)
    ensures (ShowNat(n) + rest)[|ShowNat(n)|..] == rest
  {
    var s := ShowNat(n) + rest;
    assert forall i :: 0 <= i < |ShowNat(n)| ==> IsDigit(s[i]);
    assert |ShowNat(n)| < |s| ==> !IsDigit(s[|ShowNat(n)|]);
  }

  /** Only zero itself is written with a leading `0`. */
  lemma {:induction false} ShowNatLead(n: nat)
    ensures ShowNat(n)[0] == '0' <==> n == 0
  {
    if n >= 10 {
      ShowNatLead(n / 10);
    }
  }

  /** Digits that do not start with `0` denote a positive number. */
  lemma {:induction false} DigitsPositive(d: string)
    requires d != [] && d[0] != '0' && forall k :: 0 <= k < |d| ==> IsDigit(d[k])
    ensures DigitsValue(d) >= 1
  {
    if |d| > 1 {
      var p := d[..|d| - 1];
      assert p[0] == d[0];
      DigitsPositive(p);
    } else {
      assert d[..0] == [];
    }
  }

  /** Digits without a redundant leading `0` are how their number is written. */
  lemma {:induction false} ShowDigits(d: string)
    requires d != [] && forall k :: 0 <= k < |d| ==> IsDigit(d[k])
    requires |d| > 1 ==> d[0] != '0'
    ensures ShowNat(DigitsValue(d)) == d
  {
    if |d| == 1 {
      assert d[..0] == [];
    } else {
      var p := d[..|d| - 1];
      assert p[0] == d[0];
      DigitsPositive(p);
      ShowDigits(p);
      assert d == p + [d[|d| - 1]];
    }
  }

  /**
   * Splits a text `<digits><rest>` into the number and the rest.  A number
   * is written without leading zeros, as JavaScript prints it.
   */
  function ReadNat(s: string): Option<(nat, string)>
  {
    var k := LeadingDigits(s);
    if k == 0 || (k > 1 && s[0] == '0') then None else Some((DigitsValue(s[..k]), s[k..]))
  }

  lemma ReadNatShown(n: nat, rest: string)
    requires rest == [] || !IsDigit(rest[0])
    ensures ReadNat(ShowNat(n) + rest) == Some((n, rest))
  {
    ReadShown(n, rest);
    DigitsValueShow(n);
    ShowNatLead(n);
  }

  /** A text read as a number and a rest is that number written out, then the rest. */
  lemma ReadNatText(s: string, n: nat, rest: string)
    requires ReadNat(s) == Some((n, rest))
    ensures s == ShowNat(n) + rest && (rest == [] || !IsDigit(rest[0]))
  {
    var k := LeadingDigits(s);
    assert s[..k][0] == s[0];
    ShowDigits(s[..k]);
    assert s == s[..k] + s[k..];
  }

  /** Reads the optional minor part ` <digits><unit>` that precedes ` ago`. */
  function ReadMinor(s: string, unit: string): Option<nat>
  {
    if s == " ago" then Some(0)
    else if |s| > 1 && s[0] == ' ' then
      match ReadNat(s[1..])
      case Some((n, rest)) => if rest == unit + " ago" && n > 0 then Some(n) else None
      case None => None
    else None
  }

  /** The inverse of Render: reads a text back as the bucket it shows. */
  function ParseAge(s: string): Option<Age>
  {
    if s == "just now" then Some(JustNow)
    else
      match ReadNat(s)
      case None => None
      case Some((n, rest)) => ParseUnits(n, rest)
  }

  /** Reads what follows the first number: its unit, then an optional minor part. */
  function ParseUnits(n: nat, rest: string): Option<Age>
  {
    if rest == [] then None
    else if rest[0] == 's' then (if rest == "s ago" then Some(Seconds(n)) else None)
    else if rest[0] == 'w' then (if rest == "w ago" then Some(Weeks(n)) else None)
    else if rest[0] == 'y' then (if rest == "y ago" then Some(Years(n)) else None)
    else if rest == "mo ago" then Some(Months(n))
    else
      var minor := if rest[0] == 'm' then "s" else if rest[0] == 'h' then "m" else "h";
      match ReadMinor(rest[1..], minor)
      case None => None
      case Some(x) =>
        if rest[0] == 'm' then Some(Minutes(n, x))
        else if rest[0] == 'h' then Some(Hours(n, x))
        else if rest[0] == 'd' then Some(Days(n, x))
        else None
  }

  lemma ReadMinorShown(x: nat, unit: string)
    requires unit != [] && !IsDigit(unit[0])
    ensures ReadMinor((if x > 0 then " " + Part(x, unit) else "") + " ago", unit) == Some(x)
  {
    if x > 0 {
      var s := " " + Part(x, unit) + " ago";
      ConcatAssoc(ShowNat(x), unit, " ago");
      assert s[1..] == Part(x, unit) + " ago";
      ReadNatShown(x, unit + " ago");
    }
  }

  /** A text `<n><unit> ago` is read as `n` followed by the unit. */
  lemma ParseSinglePart(n: nat, unit: string)
    requires unit != [] && !IsDigit(unit[0])
    ensures ParseAge(Part(n, unit) + " ago") == ParseUnits(n, unit + " ago")
  {
    var s := Part(n, unit) + " ago";
    ConcatAssoc(ShowNat(n), unit, " ago");
    assert IsDigit(s[0]);
    ReadNatShown(n, unit + " ago");
  }

  /** The pieces of a text `<n><major>[ <x><minor>] ago` are read back as `n` and `x`. */
  lemma ReadTwoParts(n: nat, major: char, x: nat, minor: string)
    requires major in "mhd" && minor != [] && !IsDigit(minor[0])
    ensures var tail := (if x > 0 then " " + Part(x, minor) else "") + " ago";
      ReadNat(Part(n, [major]) + tail) == Some((n, [major] + tail)) &&
      ReadMinor(([major] + tail)[1..], minor) == Some(x) &&
      ([major] + tail)[0] == major && [major] + tail != "mo ago" &&
      Part(n, [major]) + tail != "just now"
  {
    var tail := (if x > 0 then " " + Part(x, minor) else "") + " ago";
    ConcatAssoc(ShowNat(n), [major], tail);
    ReadNatShown(n, [major] + tail);
    assert ([major] + tail)[1..] == tail;
    ReadMinorShown(x, minor);
    assert tail[0] == ' ';
    assert ([major] + tail)[1] == ' ' != "mo ago"[1];
    assert IsDigit((Part(n, [major]) + tail)[0]);
  }

  /** A text other than "just now" that starts with a number is read by ParseUnits. */
  lemma ParseAgeRead(s: string, n: nat, rest: string)
    requires s != "just now" && ReadNat(s) == Some((n, rest))
    ensures ParseAge(s) == ParseUnits(n, rest)
  {
  }

  /** A unit `m`, `h` or `d` followed by a readable minor part gives a two-part bucket. */
  lemma ParseTwoUnits(n: nat, rest: string, x: nat)
    requires rest != [] && rest[0] in "mhd" && rest != "mo ago"
    requires ReadMinor(rest[1..], if rest[0] == 'm' then "s" else if rest[0] == 'h' then "m" else "h") == Some(x)
    ensures ParseUnits(n, rest) ==
      if rest[0] == 'm' then Some(Minutes(n, x)) else if rest[0] == 'h' then Some(Hours(n, x)) else Some(Days(n, x))
  {
  }

  lemma ParseMinutes(m: nat, s: nat)
    ensures ParseAge(Render(Minutes(m, s))) == Some(Minutes(m, s))
  {
    var tail := (if s > 0 then " " + Part(s, "s") else "") + " ago";
    ReadTwoParts(m, 'm', s, "s");
    ConcatAssoc(Part(m, "m"), if s > 0 then " " + Part(s, "s") else "", " ago");
    ParseAgeRead(Part(m, "m") + tail, m, ['m'] + tail);
    ParseTwoUnits(m, ['m'] + tail, s);
  }

  lemma ParseHours(h: nat, m: nat)
    ensures ParseAge(Render(Hours(h, m))) == Some(Hours(h, m))
  {
    var tail := (if m > 0 then " " + Part(m, "m") else "") + " ago";
    ReadTwoParts(h, 'h', m, "m");
    ConcatAssoc(Part(h, "h"), if m > 0 then " " + Part(m, "m") else "", " ago");
    ParseAgeRead(Part(h, "h") + tail, h, ['h'] + tail);
    ParseTwoUnits(h, ['h'] + tail, m);
  }

  lemma ParseDays(d: nat, h: nat)
    ensures ParseAge(Render(Days(d, h))) == Some(Days(d, h))
  {
    var tail := (if h > 0 then " " + Part(h, "h") else "") + " ago";
    ReadTwoParts(d, 'd', h, "h");
    ConcatAssoc(Part(d, "d"), if h > 0 then " " + Part(h, "h") else "", " ago");
    ParseAgeRead(Part(d, "d") + tail, d, ['d'] + tail);
    ParseTwoUnits(d, ['d'] + tail, h);
  }

  lemma ParseSeconds(n: nat)
    ensures ParseAge(Render(Seconds(n))) == Some(Seconds(n))
  {
    ParseSinglePart(n, "s");
    assert "s" + " ago" == "s ago";
    assert ParseUnits(n, "s ago") == Some(Seconds(n));
  }

  lemma ParseWeeks(n: nat)
    ensures ParseAge(Render(Weeks(n))) == Some(Weeks(n))
  {
    ParseSinglePart(n, "w");
    assert "w" + " ago" == "w ago";
    assert ParseUnits(n, "w ago") == Some(Weeks(n));
  }

  lemma ParseMonths(n: nat)
    ensures ParseAge(Render(Months(n))) == Some(Months(n))
  {
    ParseSinglePart(n, "mo");
    assert "mo" + " ago" == "mo ago";
    assert ParseUnits(n, "mo ago") == Some(Months(n));
  }

  lemma ParseYears(n: nat)
    ensures ParseAge(Render(Years(n))) == Some(Years(n))
  {
    ParseSinglePart(n, "y");
    assert "y" + " ago" == "y ago";
    assert ParseUnits(n, "y ago") == Some(Years(n));
  }

  /** The rendered text determines the bucket and its numbers. */
  lemma ParseRender(a: Age)
    ensures ParseAge(Render(a)) == Some(a)
  {
    match a
    case JustNow =>
    case Seconds(s) => ParseSeconds(s);
    case Minutes(m, s) => ParseMinutes(m, s);
    case Hours(h, m) => ParseHours(h, m);
    case Days(d, h) => ParseDays(d, h);
    case Weeks(w) => ParseWeeks(w);
    case Months(mo) => ParseMonths(mo);
    case Years(y) => ParseYears(y);
  }

  /** A minor part read back is the text Render writes for it. */
  lemma ReadMinorText(s: string, unit: string, x: nat)
    requires ReadMinor(s, unit) == Some(x)
    ensures s == (if x > 0 then " " + Part(x, unit) else "") + " ago"
  {
    if s != " ago" {
      var r :| ReadNat(s[1..]) == Some((x, r));
      ReadNatText(s[1..], x, r);
      ConcatAssoc(ShowNat(x), unit, " ago");
      assert s == [' '] + s[1..];
    }
  }

  /** A text `<n><major><tail>` written as the major part and the tail. */
  lemma MajorPartText(n: nat, major: string, mid: string)
    ensures ShowNat(n) + (major + (mid + " ago")) == Part(n, major) + mid + " ago"
  {
    ConcatAssoc(ShowNat(n), major, mid + " ago");
    ConcatAssoc(Part(n, major), mid, " ago");
  }

  /** A two-part text that ParseUnits reads is the text Render writes for its bucket. */
  lemma TwoPartText(n: nat, rest: string, a: Age)
    requires rest != [] && rest[0] in "mhd" && rest != "mo ago" && ParseUnits(n, rest) == Some(a)
    ensures ShowNat(n) + rest == Render(a)
  {
    var minor := if rest[0] == 'm' then "s" else if rest[0] == 'h' then "m" else "h";
    var x :| ReadMinor(rest[1..], minor) == Some(x);
    ReadMinorText(rest[1..], minor, x);
    var mid := if x > 0 then " " + Part(x, minor) else "";
    assert rest == [rest[0]] + (mid + " ago");
    MajorPartText(n, [rest[0]], mid);
  }

  /** Every text that is read as a bucket is the text Render writes for that bucket. */
  lemma RenderOfParse(s: string, a: Age)
    requires ParseAge(s) == Some(a)
    ensures s == Render(a)
  {
    if s != "just now" {
      var n, rest :| ReadNat(s) == Some((n, rest));
      ReadNatText(s, n, rest);
      if rest[0] == 's' || rest[0] == 'w' || rest[0] == 'y' || rest == "mo ago" {
        var unit := if rest == "mo ago" then "mo" else [rest[0]];
        assert rest == unit + " ago";
        ConcatAssoc(ShowNat(n), unit, " ago");
      } else {
        TwoPartText(n, rest, a);
      }
    }
  }

  /** ParseAge and Render are inverse: a text is read as a bucket exactly when it is that bucket's text. */
  lemma ParseAgeIffRender(s: string, a: Age)
    ensures ParseAge(s) == Some(a) <==> s == Render(a)
  {
    if ParseAge(s) == Some(a) {
      RenderOfParse(s, a);
    }
    if s == Render(a) {
      ParseRender(a);
    }
  }

  /** The text of `t` elapsed seconds is the one text that reads back as the bucket of `t`. */
  lemma AgeTextUnique(t: int, s: string)
    ensures ParseAge(s) == Some(Classify(t)) <==> s == AgeText(t)
  {
    ParseAgeIffRender(s, Classify(t));
  }

  /** The text `timeAgo` shows for a parsed event time is the one text that reads back as its bucket. */
  lemma TimeAgoUnique(nowMs: int, eventMs: int, s: string)
    ensures ParseAge(s) == Some(Classify((nowMs - eventMs) / 1000)) <==> s == TimeAgo(nowMs, Some(eventMs))
  {
    var a := Classify((nowMs - eventMs) / 1000);
    assert TimeAgo(nowMs, Some(eventMs)) == Render(a);
    ParseAgeIffRender(s, a);
  }

  /** Exactly two hours ago is "2h ago": a zero minute part is left out. */
  lemma TwoHoursAgo(nowMs: int)
    ensures TimeAgo(nowMs, Some(nowMs - 7200000)) == "2h ago"
  {
    var t := (nowMs - (nowMs - 7200000)) / 1000;
    assert t == 7200;
    assert Classify(t) == Hours(2, 0);
    assert Render(Hours(2, 0)) == "2h ago" by {
      assert ShowNat(2) == "2";
    }
  }

  /** Distinct buckets never render to the same text. */
  lemma RenderInjective(a: Age, b: Age)
    requires Render(a) == Render(b)
    ensures a == b
  {
    ParseRender(a);
    ParseRender(b);
  }

  /** "Invalid date" is shown exactly for an event time that did not parse. */
  lemma InvalidDateOnlyForNone(nowMs: int, event: Option<int>)
    ensures TimeAgo(nowMs, event) == "Invalid date" <==> event.None?
  {
    if event.Some? {
      var a := Classify((nowMs - event.value) / 1000);
      ParseRender(a);
      assert ParseAge("Invalid date") == None by {
        assert LeadingDigits("Invalid date") == 0;
      }
    }
  }

  /** From 28 to 30 days the month count is still zero: the text is "0mo ago". */
  lemma ZeroMonths(t: int)
    requires 28 <= t / SecondsPerDay <= 30
    ensures AgeText(t) == "0mo ago"
  {
    assert Classify(t) == Months(0);
  }
}

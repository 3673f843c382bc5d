/**
 * The two date inputs shared by both tables: `formatLocalDate`, which fills
 * them, `parseDateStart` and `parseDateEndExclusive`, which read them, and the
 * per-row test both filters apply to a timestamp.
 */
module DateInput {
  import opened Wrappers
  import opened Text
  import opened Calendar

  /** A `Date` object: a time value in milliseconds, or an Invalid Date (NaN). */
  datatype DateValue = Time(ms: int) | InvalidDate

  /** `parseInt(parts[i], 10)`; an index past the end reads `undefined`, which parses to NaN. */
  function Part(parts: seq<string>, i: nat): Option<int> {
    if i < |parts| then ParseInt(parts[i]) else None
  }

  /** Adds `k` to a number that may be NaN. */
  function Plus(x: Option<int>, k: int): (r: Option<int>)
    ensures r.Some? <==> x.Some?
    ensures r.Some? ==> r.value == x.value + k
  {
    if x.Some? then Some(x.value + k) else None
  }

  /** NaN absorbs additions, and successive additions add up. */
  lemma PlusCompose(x: Option<int>, a: int, b: int)
    ensures Plus(Plus(x, a), b) == Plus(x, a + b)
    ensures Plus(x, 0) == x
    ensures Plus(x, a).None? <==> x.None?
  {
  }

  /** The year, month and day fields of a `YYYY-MM-DD` value, split on '-'. */
  function DateParts(v: string): (Option<int>, Option<int>, Option<int>) {
    var parts := Split(v, '-');
    (Part(parts, 0), Part(parts, 1), Part(parts, 2))
  }

  /**
   * `new Date(y, m, d, 0, 0, 0, 0)` with a zero-based month: local midnight
   * of that day, or an Invalid Date when any argument is NaN.
   */
  function LocalMidnight(y: Option<int>, m: Option<int>, d: Option<int>): (r: DateValue)
    ensures r.Time? <==> y.Some? && m.Some? && d.Some?
  {
    if y.Some? && m.Some? && d.Some? then Time(Midnight(MakeDay(FullYear(y.value), m.value, d.value)))
    else InvalidDate
  }

  /** `parseDateStart`: no bound for an empty value, else midnight of that day. */
  function ParseDateStart(v: string): (r: Option<DateValue>)
    ensures r.None? <==> v == ""
  {
    if v == "" then None
    else
      var (y, m, d) := DateParts(v);
      Some(LocalMidnight(y, Plus(m, -1), d))
  }

  /** `parseDateEndExclusive`: no bound for an empty value, else midnight of the day after. */
  function ParseDateEndExclusive(v: string): (r: Option<DateValue>)
    ensures r.None? <==> v == ""
  {
    if v == "" then None
    else
      var (y, m, d) := DateParts(v);
      Some(LocalMidnight(y, Plus(m, -1), Plus(d, 1)))
  }

  /**
   * For every input, the exclusive end bound is the start bound moved one
   * day later, and it is invalid exactly when the start bound is.
   */
  lemma EndIsStartPlusOneDay(v: string)
    ensures ParseDateStart(v).None? <==> ParseDateEndExclusive(v).None?
    ensures ParseDateStart(v) == Some(InvalidDate) <==> ParseDateEndExclusive(v) == Some(InvalidDate)
    ensures ParseDateStart(v).Some? && ParseDateStart(v).value.Time? ==>
              ParseDateEndExclusive(v) == Some(Time(ParseDateStart(v).value.ms + MsPerDay))
  {
  }

  /** `formatLocalDate`: `YYYY-MM-DD` with the month and day zero-padded to two digits. */
  function FormatLocalDate(d: CivilDate): string {
    IntToString(d.year) + "-" + PadStart2(IntToString(d.month)) + "-" + PadStart2(IntToString(d.day))
  }

  /** Four digits, a dash, two digits, a dash, two digits. */
  predicate IsDateShape(r: string) {
    && |r| == 10 && r[4] == '-' && r[7] == '-'
    && forall i :: 0 <= i < 10 && i != 4 && i != 7 ==> IsDigit(r[i])
  }

  /** Joining a four-digit and two two-digit fields with dashes gives that shape. */
  lemma JoinShape(y: string, m: string, dd: string)
    requires |y| == 4 && |m| == 2 && |dd| == 2
    requires forall i :: 0 <= i < 4 ==> IsDigit(y[i])
    requires IsDigit(m[0]) && IsDigit(m[1]) && IsDigit(dd[0]) && IsDigit(dd[1])
    ensures IsDateShape(y + "-" + m + "-" + dd)
  {
    var r := y + "-" + m + "-" + dd;
    forall i | 0 <= i < 10 && i != 4 && i != 7 ensures IsDigit(r[i]) {
      if i < 4 {
        assert r[i] == y[i];
      } else if i < 7 {
        assert r[i] == m[i - 5];
      } else {
        assert r[i] == dd[i - 8];
      }
    }
  }

  /**
   * For a four-digit year the written value has the `YYYY-MM-DD` shape:
   * ten characters, dashes at positions 4 and 7, digits everywhere else.
   */
  lemma FormatShape(d: CivilDate)
    requires ValidDate(d) && 1000 <= d.year < 10000
    ensures IsDateShape(FormatLocalDate(d))
  {
    NatToStringLength(d.year);
    PaddedTwoDigits(d.month);
    PaddedTwoDigits(d.day);
    JoinShape(IntToString(d.year), PadStart2(IntToString(d.month)), PadStart2(IntToString(d.day)));
  }

  /** A string made of three separator-free fields joined by '-' splits into those fields. */
  lemma SplitThree(a: string, b: string, c: string)
    requires '-' !in a && '-' !in b && '-' !in c
    ensures Split(a + "-" + b + "-" + c, '-') == [a, b, c]
  {
    var tail := b + "-" + c;
    assert a + "-" + b + "-" + c == a + ['-'] + tail;
    SplitHead(a, '-', tail);
    assert tail == b + ['-'] + c;
    SplitHead(b, '-', c);
    SplitNoSeparator(c, '-');
  }

  /** The zero-padded field of a number is a string of digits. */
  lemma PaddedDigits(n: nat)
    ensures '-' !in PadStart2(NatToString(n))
  {
    var s := NatToString(n);
    var p := PadStart2(s);
    assert forall i :: 0 <= i < |p| ==> IsDigit(p[i]);
  }

  /** The fields a calendar date should parse to. */
  function Fields(d: CivilDate): (Option<int>, Option<int>, Option<int>) {
    (Some(d.year), Some(d.month), Some(d.day))
  }

  /** The input value `v` is a non-empty string whose three fields are those of `d`. */
  predicate Names(v: string, d: CivilDate) {
    v != "" && DateParts(v) == Fields(d)
  }

  lemma NamesFromParts(v: string, y: string, m: string, dd: string, d: CivilDate)
    requires v != "" && Split(v, '-') == [y, m, dd]
    requires ParseInt(y) == Some(d.year) && ParseInt(m) == Some(d.month) && ParseInt(dd) == Some(d.day)
    ensures Names(v, d)
  {
  }

  /**
   * `formatLocalDate` round trip: splitting on '-' and `parseInt` recover
   * the year, month and day that were formatted.
   */
  lemma FormatParseRoundTrip(d: CivilDate)
    requires ValidDate(d) && d.year >= 0
    ensures Names(FormatLocalDate(d), d)
  {
    var y := NatToString(d.year);
    var m := PadStart2(NatToString(d.month));
    var dd := PadStart2(NatToString(d.day));
    var parts := Split(FormatLocalDate(d), '-');
    assert parts == [y, m, dd] by {
      assert FormatLocalDate(d) == y + "-" + m + "-" + dd;
      PaddedDigits(d.month);
      PaddedDigits(d.day);
      SplitThree(y, m, dd);
    }
    assert ParseInt(y) == Some(d.year) by {
      ParseNatToString(d.year);
    }
    assert ParseInt(m) == Some(d.month) by {
      ParsePadded(d.month);
    }
    assert ParseInt(dd) == Some(d.day) by {
      ParsePadded(d.day);
    }
    assert FormatLocalDate(d) != "" by {
      assert |y| >= 1;
    }
    NamesFromParts(FormatLocalDate(d), y, m, dd, d);
  }

  /**
   * The start bound of a value naming `d` is midnight of the day `new Date`
   * makes of it; years 0 to 99 are read as 1900 to 1999.
   */
  lemma StartOfNamedDay(v: string, d: CivilDate)
    requires Names(v, d)
    ensures ParseDateStart(v) == Some(Time(Midnight(MakeDay(FullYear(d.year), d.month - 1, d.day))))
  {
    var (y, m, dd) := DateParts(v);
    assert Plus(m, -1) == Some(d.month - 1);
    assert LocalMidnight(y, Plus(m, -1), dd) == Time(Midnight(MakeDay(FullYear(d.year), d.month - 1, d.day)));
  }

  /** The end bound of a value naming `d` is the midnight `new Date` makes of the day after it. */
  lemma EndOfNamedDay(v: string, d: CivilDate)
    requires Names(v, d)
    ensures ParseDateEndExclusive(v) == Some(Time(Midnight(MakeDay(FullYear(d.year), d.month - 1, d.day + 1))))
  {
    var (y, m, dd) := DateParts(v);
    assert Plus(m, -1) == Some(d.month - 1);
    assert Plus(dd, 1) == Some(d.day + 1);
    assert LocalMidnight(y, Plus(m, -1), Plus(dd, 1)) == Time(Midnight(MakeDay(FullYear(d.year), d.month - 1, d.day + 1)));
  }

  /**
   * From year 100 on, the bounds of a value naming `d` are `d`'s own
   * midnight and the midnight of the next calendar day, one day later.
   */
  lemma NamedDayBounds(v: string, d: CivilDate)
    requires ValidDate(d) && d.year >= 100 && Names(v, d)
    ensures ParseDateStart(v) == Some(Time(Midnight(DayNumber(d))))
    ensures ParseDateEndExclusive(v) == Some(Time(Midnight(DayNumber(NextDay(d)))))
    ensures Midnight(DayNumber(NextDay(d))) == Midnight(DayNumber(d)) + MsPerDay
  {
    StartOfNamedDay(v, d);
    EndOfNamedDay(v, d);
    MakeDayInYear(d.year, d.month - 1, d.day);
    MakeDayNextDay(d);
  }

  /**
   * The exclusive end bound of one day equals the start bound of the next
   * calendar day, across month and year ends.
   */
  lemma EndIsNextDayStart(v: string, d: CivilDate, w: string)
    requires ValidDate(d) && d.year >= 100 && Names(v, d) && Names(w, NextDay(d))
    ensures ParseDateEndExclusive(v) == ParseDateStart(w)
  {
    NamedDayBounds(v, d);
    NamedDayBounds(w, NextDay(d));
  }

  /** The `from` and `to` inputs as bounds. */
  datatype Window = Window(start: Option<DateValue>, end: Option<DateValue>)

  function WindowOf(startValue: string, endValue: string): Window {
    Window(ParseDateStart(startValue), ParseDateEndExclusive(endValue))
  }

  /** The date filter runs only when at least one bound is set. */
  predicate Active(w: Window) {
    w.start.Some? || w.end.Some?
  }

  /**
   * The per-row date test: a missing timestamp fails, and so does 0, which
   * `!r.timeSubmitted` treats as missing; a time before the
   * start or at or after the end fails. A comparison with an Invalid Date is
   * false, so an invalid bound excludes nothing.
   */
  predicate InWindow(w: Window, t: Option<int>) {
    && t.Some? && t.value != 0
    && !(w.start.Some? && w.start.value.Time? && t.value < w.start.value.ms)
    && !(w.end.Some? && w.end.value.Time? && t.value >= w.end.value.ms)
  }

  /**
   * With both inputs naming days, a time passes exactly when it falls
   * between the start day's midnight and the end of the end day.
   */
  lemma InWindowOfDays(sv: string, s: CivilDate, ev: string, e: CivilDate, t: int)
    requires ValidDate(s) && s.year >= 100 && Names(sv, s)
    requires ValidDate(e) && e.year >= 100 && Names(ev, e)
    ensures var w := WindowOf(sv, ev);
            Active(w) && (InWindow(w, Some(t)) <==> t != 0 && Midnight(DayNumber(s)) <= t < Midnight(DayNumber(e)) + MsPerDay)
  {
    NamedDayBounds(sv, s);
    NamedDayBounds(ev, e);
  }

  /**
   * The end day counts in full: its last millisecond passes the end bound and
   * the next day's midnight does not.
   */
  lemma EndDayInclusive(sv: string, ev: string, e: CivilDate)
    requires ValidDate(e) && e.year >= 100 && Names(ev, e)
    ensures var w := WindowOf(sv, ev);
            var last := Midnight(DayNumber(e)) + MsPerDay - 1;
            && w.end == Some(Time(last + 1))
            && !InWindow(w, Some(last + 1))
            && (InWindow(w, Some(last)) <==> InWindow(Window(w.start, None), Some(last)))
  {
    NamedDayBounds(ev, e);
  }

  /**
   * Bound `wide` of a window excludes no time that bound `narrow` keeps: it
   * is unset, it is the same bound, or both are times and `wide` is no
   * stricter (`earlier` says whether the bound is a start).
   */
  predicate BoundContains(wide: Option<DateValue>, narrow: Option<DateValue>, earlier: bool) {
    || wide.None?
    || wide == narrow
    || (&& wide.value.Time? && narrow.Some? && narrow.value.Time?
        && (if earlier then wide.value.ms <= narrow.value.ms else narrow.value.ms <= wide.value.ms))
  }

  /** `wide` is `narrow` with each bound unset, kept or loosened. */
  predicate WindowContains(wide: Window, narrow: Window) {
    BoundContains(wide.start, narrow.start, true) && BoundContains(wide.end, narrow.end, false)
  }

  /**
   * A window that starts no earlier and ends no later lets through no more
   * times; in particular, filling in an empty input never admits a time
   * that was excluded.
   */
  lemma NarrowerWindow(wide: Window, narrow: Window, t: Option<int>)
    requires WindowContains(wide, narrow)
    requires InWindow(narrow, t)
    ensures InWindow(wide, t)
  {
  }

  /** Setting a bound the window did not have only narrows it. */
  lemma FillingInNarrows(w: Window, start: Option<DateValue>, end: Option<DateValue>)
    ensures w.start.None? ==> WindowContains(w, Window(start, w.end))
    ensures w.end.None? ==> WindowContains(w, Window(w.start, end))
  {
  }
}

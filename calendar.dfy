/**
 * Service calendars: which UTC days each GTFS service id runs on, from the
 * weekly patterns of calendar.txt and the one-day exceptions of
 * calendar_dates.txt. A service date is kept as its UTC day number; the
 * source keeps the Date at UTC midnight of that day, `day * MsPerDay`.
 */
module Calendar {
  import opened Common
  import opened Dates
  import opened Utils

  // ---------------------------------------------------------------------
  // parseGtfsDate

  /** `s.substring(i, j)` for 0 <= i <= j: both ends clamped to the length. */
  function Substring(s: string, i: nat, j: nat): (r: string)
    requires i <= j
    ensures |s| >= j ==> r == s[i..j]
  {
    var a := if i <= |s| then i else |s|;
    var b := if j <= |s| then j else |s|;
    s[a..b]
  }

  /** `${year}-${month}-${day}` from the substrings of a GTFS date. */
  function IsoTextOfGtfsDate(s: string): string {
    Substring(s, 0, 4) + "-" + Substring(s, 4, 6) + "-" + Substring(s, 6, 8)
  }

  lemma IsoTextOfGtfsDateShape(s: string)
    ensures var iso := IsoTextOfGtfsDate(s);
      && (|s| < 8 ==> |iso| < 10)
      && (|s| >= 8 ==> |iso| == 10 && iso[4] == '-' && iso[7] == '-'
                       && iso[..4] == s[..4] && iso[5..7] == s[4..6] && iso[8..] == s[6..8])
      && (|s| >= 8 ==> (AllDigits(s[..8]) <==> AllDigits(s[..4]) && AllDigits(s[4..6]) && AllDigits(s[6..8])))
  {
    if |s| >= 8 {
      assert forall k :: 0 <= k < 2 ==> s[4..6][k] == s[..8][4 + k] && s[6..8][k] == s[..8][6 + k];
      assert forall k :: 0 <= k < 4 ==> s[..4][k] == s[..8][k];
      assert forall k :: 0 <= k < 8 ==> s[..8][k] == (if k < 4 then s[..4][k] else if k < 6 then s[4..6][k - 4] else s[6..8][k - 6]);
    }
  }

  /**
   * `parseGtfsDate`: YYYYMMDD rebuilt as `YYYY-MM-DD` and handed to the Date
   * constructor; None stands for an Invalid Date.
   */
  function ParseGtfsDate(s: string): (r: Option<int>)
    ensures r.Some? <==>
      && |s| >= 8 && AllDigits(s[..8])
      && 1 <= DigitsValue(s[4..6]) <= 12 && 1 <= DigitsValue(s[6..8]) <= 31
    ensures r.Some? ==>
      && InCalendarRange(r.value)
      && r.value == DayOfCivil(DigitsValue(s[..4]), DigitsValue(s[4..6]), DigitsValue(s[6..8]))
  {
    IsoTextOfGtfsDateShape(s);
    ParseIsoDay(IsoTextOfGtfsDate(s))
  }

  /** The GTFS text of a four-digit-year civil date, YYYYMMDD. */
  function GtfsDateText(c: Civil): string
    requires ValidCivil(c)
  {
    NatToString(c.year) + Pad2(c.month) + Pad2(c.day)
  }

  /** A YYYYMMDD date with a four-digit year parses to its own UTC day. */
  lemma ParseGtfsDateRoundTrip(c: Civil)
    requires ValidCivil(c) && 1000 <= c.year <= 9999
    ensures ParseGtfsDate(GtfsDateText(c)) == Some(DayOfCivil(c.year, c.month, c.day))
  {
    var ys, ms, ds := NatToString(c.year), Pad2(c.month), Pad2(c.day);
    FourDigitNumber(c.year);
    NatToStringRoundTrip(c.year);
    Pad2RoundTrip(c.month);
    Pad2RoundTrip(c.day);
    var s := GtfsDateText(c);
    assert s[..4] == ys && s[4..6] == ms && s[6..8] == ds;
    assert AllDigits(s[..8]) by {
      assert s[..8] == s;
      assert forall k :: 0 <= k < 4 ==> s[k] == ys[k];
      assert forall k :: 4 <= k < 6 ==> s[k] == ms[k - 4];
      assert forall k :: 6 <= k < 8 ==> s[k] == ds[k - 6];
    }
  }

  // ---------------------------------------------------------------------
  // Sorted day lists

  predicate Sorted(s: seq<int>) {
    forall i, j :: 0 <= i < j < |s| ==> s[i] <= s[j]
  }

  predicate StrictlyIncreasing(s: seq<int>) {
    forall i, j :: 0 <= i < j < |s| ==> s[i] < s[j]
  }

  /**
   * `push(d)` followed by a sort on the time: the list with d added, in
   * ascending order (equal days are equal values, so ties do not matter).
   */
  function InsertSorted(s: seq<int>, d: int): (r: seq<int>)
    ensures multiset(r) == multiset(s) + multiset{d} && |r| == |s| + 1
    ensures r[0] == d || (|s| > 0 && r[0] == s[0])
    decreases |s|
  {
    if |s| == 0 || d < s[0] then [d] + s
    else
      assert s == [s[0]] + s[1..];
      [s[0]] + InsertSorted(s[1..], d)
  }

  /** An ascending list with a head no greater than its first element is ascending. */
  lemma SortedCons(x: int, s: seq<int>)
    requires Sorted(s) && (|s| > 0 ==> x <= s[0])
    ensures Sorted([x] + s)
  {
    var r := [x] + s;
    forall i, j | 0 <= i < j < |r|
      ensures r[i] <= r[j]
    {
      assert r[j] == s[j - 1];
      if i > 0 {
        assert r[i] == s[i - 1];
      }
    }
  }

  /** Inserting into an ascending list keeps it ascending. */
  lemma {:induction false} InsertSortedSorted(s: seq<int>, d: int)
    requires Sorted(s)
    ensures Sorted(InsertSorted(s, d))
    decreases |s|
  {
    if |s| == 0 || d < s[0] {
      SortedCons(d, s);
    } else {
      InsertSortedSorted(s[1..], d);
      SortedCons(s[0], InsertSorted(s[1..], d));
    }
  }

  /** The head of an ascending list is its least element. */
  lemma SortedHeadLeast(a: seq<int>, x: int)
    requires Sorted(a) && x in a
    ensures a[0] <= x
  {
  }

  /** Dropping the common head of two lists with the same elements leaves lists with the same elements. */
  lemma MultisetTail(a: seq<int>, b: seq<int>)
    requires |a| > 0 && |b| > 0 && a[0] == b[0] && multiset(a) == multiset(b)
    ensures multiset(a[1..]) == multiset(b[1..])
  {
    assert a == [a[0]] + a[1..];
    assert b == [b[0]] + b[1..];
    calc {
      multiset(a[1..]);
      multiset(a) - multiset{a[0]};
      multiset(b) - multiset{b[0]};
      multiset(b[1..]);
    }
  }

  /** Two ascending lists with the same elements are the same list: the sort's result is determined. */
  lemma {:induction false} SortedPermutationUnique(a: seq<int>, b: seq<int>)
    requires Sorted(a) && Sorted(b) && multiset(a) == multiset(b)
    ensures a == b
    decreases |a|
  {
    assert |a| == |multiset(a)| == |b|;
    if |a| > 0 {
      assert a[0] in multiset(b) && b[0] in multiset(a);
      SortedHeadLeast(b, a[0]);
      SortedHeadLeast(a, b[0]);
      MultisetTail(a, b);
      SortedPermutationUnique(a[1..], b[1..]);
      assert a == [a[0]] + a[1..] && b == [b[0]] + b[1..];
    }
  }

  /** `filter(item => item.getTime() !== d)`. */
  function RemoveDay(s: seq<int>, d: int): (r: seq<int>)
    ensures d !in r
    ensures forall x :: x in r <==> x in s && x != d
    ensures Sorted(s) ==> Sorted(r)
    ensures d !in s ==> r == s
    decreases |s|
  {
    if |s| == 0 then []
    else if s[0] == d then RemoveDay(s[1..], d)
    else
      var rest := RemoveDay(s[1..], d);
      assert s == [s[0]] + s[1..];
      assert Sorted(s) ==> forall k :: 0 <= k < |rest| ==> s[0] <= rest[k] by {
        if Sorted(s) {
          forall k | 0 <= k < |rest|
            ensures s[0] <= rest[k]
          {
            assert rest[k] in s[1..];
            var j :| 0 <= j < |s[1..]| && s[1..][j] == rest[k];
            assert s[1 + j] == rest[k];
          }
        }
      }
      [s[0]] + rest
  }

  // ---------------------------------------------------------------------
  // calendar.txt

  /** `[sun === '1', mon === '1', …, sat === '1']`, indexed by `getUTCDay()`. */
  type WeekFlags = s: seq<bool> | |s| == 7 witness [false, false, false, false, false, false, false]

  /** The days lo..hi (inclusive) whose weekday flag is set, in ascending order. */
  function ExpandDays(flags: WeekFlags, lo: int, hi: int): seq<int>
    decreases hi - lo
  {
    if hi < lo then []
    else ExpandDays(flags, lo, hi - 1) + (if flags[WeekdayOf(hi)] then [hi] else [])
  }

  /** A day is listed exactly when it lies in the range and its weekday runs. */
  lemma {:induction false} ExpandDaysMembership(flags: WeekFlags, lo: int, hi: int, d: int)
    ensures d in ExpandDays(flags, lo, hi) <==> lo <= d <= hi && flags[WeekdayOf(d)]
    decreases hi - lo
  {
    if hi >= lo {
      ExpandDaysMembership(flags, lo, hi - 1, d);
    }
  }

  /** The days come out in strictly ascending order, each within the range. */
  lemma {:induction false} ExpandDaysIncreasing(flags: WeekFlags, lo: int, hi: int)
    ensures StrictlyIncreasing(ExpandDays(flags, lo, hi))
    ensures forall k :: 0 <= k < |ExpandDays(flags, lo, hi)| ==> lo <= ExpandDays(flags, lo, hi)[k] <= hi
    decreases hi - lo
  {
    if hi >= lo {
      ExpandDaysIncreasing(flags, lo, hi - 1);
    }
  }

  /** The weekday pattern of a calendar.txt row; only the text '1' counts as running. */
  function WeekFlagsOf(row: Row): WeekFlags {
    [ Field(row, "sunday") == Some("1"), Field(row, "monday") == Some("1")
    , Field(row, "tuesday") == Some("1"), Field(row, "wednesday") == Some("1")
    , Field(row, "thursday") == Some("1"), Field(row, "friday") == Some("1")
    , Field(row, "saturday") == Some("1") ]
  }

  /** A calendar.txt row is processed only when every required column is set. */
  predicate CalendarRowComplete(row: Row) {
    && Field(row, "service_id").Some?
    && Field(row, "monday").Some? && Field(row, "tuesday").Some? && Field(row, "wednesday").Some?
    && Field(row, "thursday").Some? && Field(row, "friday").Some? && Field(row, "saturday").Some?
    && Field(row, "sunday").Some?
    && Field(row, "start_date").Some? && Field(row, "end_date").Some?
  }

  /** The service days of a complete row: none when either bound is an Invalid Date. */
  function CalendarRowDays(row: Row): seq<int>
    requires CalendarRowComplete(row)
  {
    var start := ParseGtfsDate(row["start_date"]);
    var end := ParseGtfsDate(row["end_date"]);
    if start.Some? && end.Some? then ExpandDays(WeekFlagsOf(row), start.value, end.value) else []
  }

  /** One calendar.txt row: a complete row sets its service id's days, replacing earlier ones. */
  function ApplyCalendarRow(services: map<string, seq<int>>, row: Row): map<string, seq<int>> {
    if CalendarRowComplete(row) then services[row["service_id"] := CalendarRowDays(row)]
    else services
  }

  function CalendarServices(rows: seq<Row>): map<string, seq<int>>
    decreases |rows|
  {
    if |rows| == 0 then map[]
    else ApplyCalendarRow(CalendarServices(rows[..|rows| - 1]), rows[|rows| - 1])
  }

  // ---------------------------------------------------------------------
  // calendar_dates.txt

  /**
   * One calendar_dates.txt row: type '1' adds the day (starting a list for an
   * unknown service id), type '2' removes every copy of it from a known
   * service id, any other type does nothing.
   */
  function ApplyException(services: map<string, seq<int>>, row: Row): map<string, seq<int>> {
    var id := Field(row, "service_id");
    var dateStr := Field(row, "date");
    var exType := Field(row, "exception_type");
    if id.None? || dateStr.None? || exType.None? then services
    else
      var date := ParseGtfsDate(dateStr.value);
      if date.None? then services
      else if exType.value == "1" then
        services[id.value := InsertSorted(if id.value in services then services[id.value] else [], date.value)]
      else if exType.value == "2" && id.value in services then
        services[id.value := RemoveDay(services[id.value], date.value)]
      else services
  }

  function ApplyExceptions(services: map<string, seq<int>>, rows: seq<Row>): map<string, seq<int>>
    decreases |rows|
  {
    if |rows| == 0 then services
    else ApplyException(ApplyExceptions(services, rows[..|rows| - 1]), rows[|rows| - 1])
  }

  /** The service days of every service id: the calendar first, then the exceptions in file order. */
  function ServiceDays(calendar: seq<Row>, calendarDates: seq<Row>): map<string, seq<int>> {
    ApplyExceptions(CalendarServices(calendar), calendarDates)
  }

  // ---------------------------------------------------------------------
  // getServiceIdsPerDay

  /** `setUTCDate(getUTCDate() + 1)` on UTC midnight of `day` is UTC midnight of the next day. */
  method NextMidnight(current: int, ghost day: int) returns (next: int)
    requires InCalendarRange(day) && current == day * MsPerDay
    ensures next == SetUTCDate(current, GetUTCDate(current) + 1)
    ensures next == (day + 1) * MsPerDay
  {
    assert UtcDay(current) == day;
    next := SetUTCDate(current, GetUTCDate(current) + 1);
  }

  /** `getUTCDay()` of UTC midnight of `day`. */
  method MidnightWeekday(current: int, ghost day: int) returns (day': int, weekday: int)
    requires current == day * MsPerDay
    ensures day' == day == UtcDay(current) && weekday == WeekdayOf(day) && 0 <= weekday < 7
  {
    assert UtcDay(current) == day;
    day' := UtcDay(current);
    weekday := WeekdayOf(day');
  }

  /** Midnights compare as their days do. */
  lemma MidnightOrder(day: int, hi: int)
    ensures day * MsPerDay <= hi * MsPerDay <==> day <= hi
  {
  }

  /** One day of the range walk: `day` is kept exactly when its weekday runs. */
  method KeepIfRuns(flags: WeekFlags, lo: int, kept: seq<int>, today: int, weekday: int) returns (kept': seq<int>)
    requires lo <= today && weekday == WeekdayOf(today)
    requires kept == ExpandDays(flags, lo, today - 1)
    ensures kept' == ExpandDays(flags, lo, today)
  {
    kept' := kept;
    if flags[weekday] {
      kept' := kept' + [today];
    }
  }

  /** The `while` over a date range, one UTC midnight at a time, keeping the days whose weekday runs. */
  method ServiceDatesInRange(flags: WeekFlags, lo: int, hi: int) returns (serviceDates: seq<int>)
    requires InCalendarRange(lo)
    ensures serviceDates == ExpandDays(flags, lo, hi)
  {
    serviceDates := [];
    var current := lo * MsPerDay;
    var endDate := hi * MsPerDay;
    ghost var day := lo;
    MidnightOrder(day, hi);
    while current <= endDate
      invariant InCalendarRange(day) && current == day * MsPerDay
      invariant lo <= day <= (if hi < lo then lo else hi + 1)
      invariant serviceDates == ExpandDays(flags, lo, day - 1)
      invariant current <= endDate <==> day <= hi
      decreases hi - day
    {
      var today, weekday := MidnightWeekday(current, day);
      serviceDates := KeepIfRuns(flags, lo, serviceDates, today, weekday);
      current := NextMidnight(current, day);
      day := day + 1;
      MidnightOrder(day, hi);
    }
  }

  /** The service dates of one complete calendar.txt row. */
  method CalendarRowDates(row: Row) returns (serviceDates: seq<int>)
    requires CalendarRowComplete(row)
    ensures serviceDates == CalendarRowDays(row)
  {
    var start := ParseGtfsDate(row["start_date"]);
    var end := ParseGtfsDate(row["end_date"]);
    if start.None? || end.None? {
      return [];
    }
    serviceDates := ServiceDatesInRange(WeekFlagsOf(row), start.value, end.value);
  }

  /**
   * `getServiceIdsPerDay`: walks each calendar row's range one UTC day at a
   * time, then applies the exceptions.
   */
  method GetServiceIdsPerDay(calendar: seq<Row>, calendarDates: seq<Row>) returns (services: map<string, seq<int>>)
    ensures services == ServiceDays(calendar, calendarDates)
  {
    services := map[];
    for i := 0 to |calendar|
      invariant services == CalendarServices(calendar[..i])
    {
      var row := calendar[i];
      assert calendar[..i + 1][..i] == calendar[..i];
      if !CalendarRowComplete(row) {
        continue;
      }
      var serviceDates := CalendarRowDates(row);
      services := services[row["service_id"] := serviceDates];
    }
    assert calendar[..|calendar|] == calendar;
    for i := 0 to |calendarDates|
      invariant services == ApplyExceptions(CalendarServices(calendar), calendarDates[..i])
    {
      assert calendarDates[..i + 1][..i] == calendarDates[..i];
      services := ApplyException(services, calendarDates[i]);
    }
    assert calendarDates[..|calendarDates|] == calendarDates;
  }

  // ---------------------------------------------------------------------
  // Properties

  /** Every service's days are in ascending order after the calendar rows. */
  lemma {:induction false} CalendarServicesSorted(rows: seq<Row>)
    ensures forall id :: id in CalendarServices(rows) ==> StrictlyIncreasing(CalendarServices(rows)[id])
    decreases |rows|
  {
    if |rows| > 0 {
      CalendarServicesSorted(rows[..|rows| - 1]);
      var row := rows[|rows| - 1];
      if CalendarRowComplete(row) {
        var start := ParseGtfsDate(row["start_date"]);
        var end := ParseGtfsDate(row["end_date"]);
        if start.Some? && end.Some? {
          ExpandDaysIncreasing(WeekFlagsOf(row), start.value, end.value);
        }
      }
    }
  }

  /** One exception keeps every list in ascending order. */
  lemma ApplyExceptionSorted(services: map<string, seq<int>>, row: Row)
    requires forall id :: id in services ==> Sorted(services[id])
    ensures forall id :: id in ApplyException(services, row) ==> Sorted(ApplyException(services, row)[id])
  {
    var id := Field(row, "service_id");
    var dateStr := Field(row, "date");
    if id.Some? && dateStr.Some? && ParseGtfsDate(dateStr.value).Some? {
      InsertSortedSorted(if id.value in services then services[id.value] else [], ParseGtfsDate(dateStr.value).value);
    }
  }

  /** The exceptions keep every list in ascending order (possibly with repeated days). */
  lemma {:induction false} ApplyExceptionsSorted(services: map<string, seq<int>>, rows: seq<Row>)
    requires forall id :: id in services ==> Sorted(services[id])
    ensures forall id :: id in ApplyExceptions(services, rows) ==> Sorted(ApplyExceptions(services, rows)[id])
    decreases |rows|
  {
    if |rows| > 0 {
      ApplyExceptionsSorted(services, rows[..|rows| - 1]);
      ApplyExceptionSorted(ApplyExceptions(services, rows[..|rows| - 1]), rows[|rows| - 1]);
    }
  }

  /** Every list returned by getServiceIdsPerDay is in ascending order. */
  lemma ServiceDaysSorted(calendar: seq<Row>, calendarDates: seq<Row>)
    ensures forall id :: id in ServiceDays(calendar, calendarDates) ==> Sorted(ServiceDays(calendar, calendarDates)[id])
  {
    CalendarServicesSorted(calendar);
    ApplyExceptionsSorted(CalendarServices(calendar), calendarDates);
  }

  /** Every day of every service list has a civil date: the lists only hold parsed GTFS dates and days after them. */
  ghost predicate ServicesInRange(services: map<string, seq<int>>) {
    forall id, k :: id in services && 0 <= k < |services[id]| ==> InCalendarRange(services[id][k])
  }

  lemma {:induction false} CalendarServicesInRange(rows: seq<Row>)
    ensures ServicesInRange(CalendarServices(rows))
    decreases |rows|
  {
    if |rows| > 0 {
      CalendarServicesInRange(rows[..|rows| - 1]);
      var row := rows[|rows| - 1];
      if CalendarRowComplete(row) {
        var start := ParseGtfsDate(row["start_date"]);
        var end := ParseGtfsDate(row["end_date"]);
        if start.Some? && end.Some? {
          ExpandDaysIncreasing(WeekFlagsOf(row), start.value, end.value);
        }
      }
    }
  }

  lemma {:induction false} ApplyExceptionsInRange(services: map<string, seq<int>>, rows: seq<Row>)
    requires ServicesInRange(services)
    ensures ServicesInRange(ApplyExceptions(services, rows))
    decreases |rows|
  {
    if |rows| > 0 {
      var prev := ApplyExceptions(services, rows[..|rows| - 1]);
      ApplyExceptionsInRange(services, rows[..|rows| - 1]);
      var after := ApplyException(prev, rows[|rows| - 1]);
      forall id, k | id in after && 0 <= k < |after[id]|
        ensures InCalendarRange(after[id][k])
      {
        var x := after[id][k];
        var row := rows[|rows| - 1];
        assert x in after[id];
        if id in prev && x in prev[id] {
          var j :| 0 <= j < |prev[id]| && prev[id][j] == x;
        } else if after != prev {
          var date := ParseGtfsDate(row["date"]);
          assert date.Some?;
          if Field(row, "exception_type") == Some("1") {
            var before := if id in prev then prev[id] else [];
            assert after[id] == InsertSorted(before, date.value);
            assert x in multiset(after[id]);
            assert x in multiset(before) || x == date.value;
          }
        }
      }
    }
  }

  /** Every day getServiceIdsPerDay lists has a civil date (so it can be formatted as YYYY-MM-DD). */
  lemma ServiceDaysInRange(calendar: seq<Row>, calendarDates: seq<Row>)
    ensures ServicesInRange(ServiceDays(calendar, calendarDates))
  {
    CalendarServicesInRange(calendar);
    ApplyExceptionsInRange(CalendarServices(calendar), calendarDates);
  }

  /**
   * A complete calendar row with valid bounds lists a day exactly when the
   * day lies between start_date and end_date and its weekday column is '1'.
   */
  lemma CalendarRowDaysMembership(row: Row, d: int)
    requires CalendarRowComplete(row)
    requires ParseGtfsDate(row["start_date"]).Some? && ParseGtfsDate(row["end_date"]).Some?
    ensures d in CalendarRowDays(row) <==>
      && ParseGtfsDate(row["start_date"]).value <= d <= ParseGtfsDate(row["end_date"]).value
      && WeekFlagsOf(row)[WeekdayOf(d)]
  {
    ExpandDaysMembership(WeekFlagsOf(row), ParseGtfsDate(row["start_date"]).value, ParseGtfsDate(row["end_date"]).value, d);
  }

  /** An added exception day is then listed for its service, and the list grows by exactly that day. */
  lemma ExceptionAddRuns(services: map<string, seq<int>>, row: Row)
    requires Field(row, "service_id").Some? && Field(row, "exception_type") == Some("1")
    requires Field(row, "date").Some? && ParseGtfsDate(row["date"]).Some?
    ensures var id := row["service_id"];
      var after := ApplyException(services, row);
      && id in after && ParseGtfsDate(row["date"]).value in after[id]
      && multiset(after[id]) == (if id in services then multiset(services[id]) else multiset{}) + multiset{ParseGtfsDate(row["date"]).value}
      && (forall other :: other != id ==> (other in after <==> other in services))
      && (forall other :: other != id && other in services ==> after[other] == services[other])
  {
    var d := ParseGtfsDate(row["date"]).value;
    assert d in multiset(ApplyException(services, row)[row["service_id"]]);
  }

  /** A removed exception day is no longer listed for its service; the other days and the other services stay. */
  lemma ExceptionRemoveStops(services: map<string, seq<int>>, row: Row)
    requires Field(row, "service_id").Some? && Field(row, "exception_type") == Some("2")
    requires Field(row, "date").Some? && ParseGtfsDate(row["date"]).Some?
    ensures var id := row["service_id"];
      var d := ParseGtfsDate(row["date"]).value;
      var after := ApplyException(services, row);
      && (id in after <==> id in services)
      && (id in services ==> forall x :: x in after[id] <==> x in services[id] && x != d)
      && (forall other :: other != id ==> (other in after <==> other in services))
      && (forall other :: other != id && other in services ==> after[other] == services[other])
  {
  }

  /** A removal for a service id that no row has defined changes nothing. */
  lemma ExceptionRemoveUnknownIgnored(services: map<string, seq<int>>, row: Row)
    requires Field(row, "exception_type") == Some("2") && Field(row, "service_id").Some?
    requires row["service_id"] !in services
    ensures ApplyException(services, row) == services
  {
  }
}

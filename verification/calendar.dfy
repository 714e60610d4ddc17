/** The month calendar component (`Calendar.js`): the week matrix of a month,
    month navigation, the "today" button, date clicks and the events shown on
    a day. The component's React state is a `View` value; every handler is a
    function from the old view to the new one. */
module Calendar {
  import opened Optional
  import opened JsString
  import opened JsDate

  /* ------------------------------------------------------------------ */
  /* The week matrix                                                     */

  /** The cell at flattened position `x - 1 + firstDay`: the day `x` when it
      belongs to the month, null otherwise. */
  function CellFor(x: int, last: int): (c: Option<int>)
    ensures c.Some? <==> 1 <= x <= last
    ensures c.Some? ==> c.value == x
  {
    if x < 1 || x > last then None else Some(x)
  }

  /** The weekday of the first of month `month` (1..12) of `year`, and the
      number of days in that month, as the component obtains them. */
  function FirstWeekDay(year: int, month: int): (w: int)
    ensures 0 <= w < 7
  {
    WeekDay(NewDate(year, month - 1, 1))
  }

  function LastDate(year: int, month: int): (n: int)
    ensures 28 <= n <= 31
  {
    NewDate(year, month, 0).day
  }

  /** `getCalendarMatrix(year, month)`: rows of seven cells starting on
      Sunday; a cell holds the day of the month or null. Every row has seven
      cells, the cell in row `r` and column `c` holds day `7r + c + 1 - w`
      when that is a day of the month (where `w` is the weekday of the
      first), and there are just enough rows to reach the last day. */
  method GetCalendarMatrix(year: int, month: int) returns (matrix: seq<seq<Option<int>>>)
    ensures |matrix| == (FirstWeekDay(year, month) + LastDate(year, month) + 6) / 7
    ensures forall r :: 0 <= r < |matrix| ==> |matrix[r]| == 7
    ensures forall r, c :: 0 <= r < |matrix| && 0 <= c < 7 ==>
      matrix[r][c] == CellFor(7 * r + c + 1 - FirstWeekDay(year, month), LastDate(year, month))
  {
    var first := FirstWeekDay(year, month);
    var last := LastDate(year, month);
    ghost var rows := (first + last + 6) / 7;
    RowCount(first + last);
    matrix := [];
    var day := 1 - first;
    while day <= last
      invariant day == 7 * |matrix| + 1 - first
      invariant |matrix| <= rows
      invariant |matrix| < rows <==> day <= last
      invariant forall r :: 0 <= r < |matrix| ==> |matrix[r]| == 7
      invariant forall r, c :: 0 <= r < |matrix| && 0 <= c < 7 ==>
        matrix[r][c] == CellFor(7 * r + c + 1 - first, last)
      decreases last - day
    {
      var week := Week(day, last);
      AppendRow(matrix, week, first, last);
      matrix := matrix + [week];
      day := day + 7;
    }
  }

  /** Appending the row that starts at day `7 |matrix| + 1 - first` keeps
      every cell in place. */
  lemma AppendRow(matrix: seq<seq<Option<int>>>, week: seq<Option<int>>, first: int, last: int)
    requires forall r :: 0 <= r < |matrix| ==> |matrix[r]| == 7
    requires forall r, c :: 0 <= r < |matrix| && 0 <= c < 7 ==>
      matrix[r][c] == CellFor(7 * r + c + 1 - first, last)
    requires |week| == 7
    requires forall c :: 0 <= c < 7 ==> week[c] == CellFor(7 * |matrix| + 1 - first + c, last)
    ensures forall r :: 0 <= r < |matrix + [week]| ==> |(matrix + [week])[r]| == 7
    ensures forall r, c :: 0 <= r < |matrix + [week]| && 0 <= c < 7 ==>
      (matrix + [week])[r][c] == CellFor(7 * r + c + 1 - first, last)
  {
    var m := matrix + [week];
    forall r, c | 0 <= r < |m| && 0 <= c < 7
      ensures |m[r]| == 7 && m[r][c] == CellFor(7 * r + c + 1 - first, last)
    {
      if r == |matrix| {
        assert m[r] == week;
        assert 7 * |matrix| + 1 - first + c == 7 * r + c + 1 - first;
      } else {
        assert m[r] == matrix[r];
      }
    }
  }

  /** The number of rows holding `n` cells, seven to a row. */
  lemma RowCount(n: int)
    requires n >= 0
    ensures 7 * ((n + 6) / 7) - 7 < n <= 7 * ((n + 6) / 7)
  {
  }

  /** One row of the matrix: the cells of days `day` to `day + 6`. */
  method Week(day: int, last: int) returns (week: seq<Option<int>>)
    ensures |week| == 7
    ensures forall c :: 0 <= c < 7 ==> week[c] == CellFor(day + c, last)
  {
    week := [];
    var i := 0;
    while i < 7
      invariant 0 <= i <= 7
      invariant |week| == i
      invariant forall c :: 0 <= c < i ==> week[c] == CellFor(day + c, last)
    {
      if day + i < 1 || day + i > last {
        week := week + [None];
      } else {
        week := week + [Some(day + i)];
      }
      i := i + 1;
    }
  }

  /** Every day of the month appears in exactly one cell of the matrix. */
  lemma EachDayOnce(matrix: seq<seq<Option<int>>>, first: int, last: int, x: int)
    requires 0 <= first < 7 && 1 <= x <= last
    requires |matrix| == (first + last + 6) / 7
    requires forall r :: 0 <= r < |matrix| ==> |matrix[r]| == 7
    requires forall r, c :: 0 <= r < |matrix| && 0 <= c < 7 ==>
      matrix[r][c] == CellFor(7 * r + c + 1 - first, last)
    ensures (x + first - 1) / 7 < |matrix|
    ensures matrix[(x + first - 1) / 7][(x + first - 1) % 7] == Some(x)
    ensures forall r, c :: 0 <= r < |matrix| && 0 <= c < 7 && matrix[r][c] == Some(x) ==>
      r == (x + first - 1) / 7 && c == (x + first - 1) % 7
  {
    var p := x + first - 1;
    assert 7 * (p / 7) + p % 7 == p;
    forall r, c | 0 <= r < |matrix| && 0 <= c < 7 && matrix[r][c] == Some(x)
      ensures r == p / 7 && c == p % 7
    {
      assert 7 * r + c == p;
    }
  }

  /** A day's column is its weekday: column 0 is Sunday. */
  lemma ColumnIsWeekDay(year: int, month: int, x: int)
    ensures WeekDay(NewDate(year, month - 1, x)) == (FirstWeekDay(year, month) + x - 1) % 7
  {
    DayShift(year, month - 1, x);
    WeekShift(NewDate(year, month - 1, 1), NewDate(year, month - 1, x), x);
  }

  lemma DayShift(year: int, m: int, x: int)
    ensures DayNumber(NewDate(year, m, x)) == DayNumber(NewDate(year, m, 1)) + x - 1
  {
    SameMonthDays(year, m, 1, x);
  }

  /** A date `x - 1` days after another falls `x - 1` weekdays later. */
  lemma WeekShift(first: Date, d: Date, x: int)
    requires 0 <= first.month0 < 12 && 0 <= d.month0 < 12
    requires DayNumber(d) == DayNumber(first) + x - 1
    ensures WeekDay(d) == (WeekDay(first) + x - 1) % 7
  {
    var a := DayNumber(first);
    assert WeekDay(first) == (a + 4) % 7;
    assert WeekDay(d) == (a + x - 1 + 4) % 7;
  }

  /** The length the component reads as `new Date(year, month, 0).getDate()`
      is the number of days of the month shown. */
  lemma LastDateIsMonthLength(year: int, month: int)
    requires 1 <= month <= 12 && (year < 0 || 99 < year)
    ensures LastDate(year, month) == DaysInMonth(year, month - 1)
  {
    LastDayOfMonth(year, month - 1);
    NormalizeInRange(year, month - 1);
  }

  /* ------------------------------------------------------------------ */
  /* Dates as text                                                       */

  /** `formatDate(date)`: YYYY-MM-DD with the month and day zero-padded. */
  function FormatDate(d: Date): string {
    IntString(d.year) + "-" + PadStart(IntString(d.month0 + 1), 2, '0') + "-" + PadStart(IntString(d.day), 2, '0')
  }

  /** Reads a YYYY-MM-DD string back into a date. */
  function ParseIsoDate(s: string): (r: Option<Date>)
    ensures r.Some? ==> |s| == 10
  {
    if |s| == 10 && s[4] == '-' && s[7] == '-' && AllDigits(s[..4]) && AllDigits(s[5..7]) && AllDigits(s[8..]) then
      Some(Date(DigitsValue(s[..4]), DigitsValue(s[5..7]) - 1, DigitsValue(s[8..])))
    else None
  }

  lemma DigitsValueLeadingZero(s: string)
    requires AllDigits(s)
    ensures AllDigits("0" + s) && DigitsValue("0" + s) == DigitsValue(s)
    decreases |s|
  {
    if |s| > 0 {
      var t := "0" + s;
      assert t[..|t| - 1] == "0" + s[..|s| - 1];
      DigitsValueLeadingZero(s[..|s| - 1]);
    }
  }

  /** Two-digit zero padding of a number from 1 to 99 is read back as that
      number. */
  lemma PadTwo(n: int)
    requires 1 <= n <= 99
    ensures |PadStart(IntString(n), 2, '0')| == 2
    ensures AllDigits(PadStart(IntString(n), 2, '0'))
    ensures DigitsValue(PadStart(IntString(n), 2, '0')) == n
  {
    var s := NatString(n);
    if n < 10 {
      assert PadStart(s, 2, '0') == "0" + s;
      DigitsValueLeadingZero(s);
    } else {
      assert |NatString(n / 10)| == 1;
    }
  }

  lemma FourDigits(n: int)
    requires 1000 <= n <= 9999
    ensures |NatString(n)| == 4
  {
    assert |NatString(n / 10)| == 3 by {
      assert |NatString(n / 100)| == 2 by {
        assert |NatString(n / 1000)| == 1;
      }
    }
  }

  /** A valid date of a four-digit year is formatted to ten characters that
      read back as the same date, so distinct dates give distinct strings. */
  lemma FormatDateRoundTrip(d: Date)
    requires Valid(d) && 1000 <= d.year <= 9999
    ensures ParseIsoDate(FormatDate(d)) == Some(d)
  {
    var y := IntString(d.year);
    var m := PadStart(IntString(d.month0 + 1), 2, '0');
    var dd := PadStart(IntString(d.day), 2, '0');
    FourDigits(d.year);
    PadTwo(d.month0 + 1);
    PadTwo(d.day);
    IsoPieces(y, m, dd);
    assert FormatDate(d) == y + "-" + m + "-" + dd;
  }

  /** The three fields of a YYYY-MM-DD string sit at fixed positions. */
  lemma IsoPieces(y: string, m: string, dd: string)
    requires |y| == 4 && |m| == 2 && |dd| == 2
    ensures |y + "-" + m + "-" + dd| == 10
    ensures (y + "-" + m + "-" + dd)[4] == '-' && (y + "-" + m + "-" + dd)[7] == '-'
    ensures (y + "-" + m + "-" + dd)[..4] == y
    ensures (y + "-" + m + "-" + dd)[5..7] == m
    ensures (y + "-" + m + "-" + dd)[8..] == dd
  {
    var s := y + "-" + m + "-" + dd;
    assert s[..4] == y;
    assert s[5..7] == m;
    assert s[8..] == dd;
  }

  lemma FormatDateInjective(a: Date, b: Date)
    requires Valid(a) && 1000 <= a.year <= 9999
    requires Valid(b) && 1000 <= b.year <= 9999
    ensures FormatDate(a) == FormatDate(b) <==> a == b
  {
    FormatDateRoundTrip(a);
    FormatDateRoundTrip(b);
  }

  /* ------------------------------------------------------------------ */
  /* Component state and handlers                                       */

  /** The component's state: the month on display (1..12) and the
      selected date, if any. */
  datatype View = View(year: int, month: int, selected: Option<Date>)

  /** `x || fallback` for a numeric prop: 0 and a missing value are falsy. */
  function OrNumber(x: Option<int>, fallback: int): (r: int)
    ensures x.Some? && x.value != 0 ==> r == x.value
    ensures x.None? || x.value == 0 ==> r == fallback
  {
    if x.Some? && x.value != 0 then x.value else fallback
  }

  /** The initial state: the props, or today's year and month. */
  function Init(initialYear: Option<int>, initialMonth: Option<int>, external: Option<Date>, today: Date): (v: View)
    ensures initialYear.None? && initialMonth.None? ==> v.year == today.year && v.month == today.month0 + 1
    ensures v.selected == external
  {
    View(OrNumber(initialYear, today.year), OrNumber(initialMonth, today.month0 + 1), external)
  }

  /** The months since year 0 of the month on display. */
  function MonthIndex(v: View): int {
    v.year * 12 + v.month
  }

  predicate ShowsValidMonth(v: View) {
    1 <= v.month <= 12
  }

  /** `goToPreviousMonth`: one month back, January going to December of the
      year before. */
  function PreviousMonth(v: View): (r: View)
    ensures ShowsValidMonth(v) ==> ShowsValidMonth(r)
    ensures MonthIndex(r) == MonthIndex(v) - 1 || !ShowsValidMonth(v)
    ensures r.selected == v.selected
  {
    if v.month == 1 then v.(year := v.year - 1, month := 12) else v.(month := v.month - 1)
  }

  /** `goToNextMonth`: one month forward, December going to January of the
      year after. */
  function NextMonth(v: View): (r: View)
    ensures ShowsValidMonth(v) ==> ShowsValidMonth(r)
    ensures MonthIndex(r) == MonthIndex(v) + 1 || !ShowsValidMonth(v)
    ensures r.selected == v.selected
  {
    if v.month == 12 then v.(year := v.year + 1, month := 1) else v.(month := v.month + 1)
  }

  /** Moving forward and back again returns to the same view. */
  lemma NavigationInverse(v: View)
    requires ShowsValidMonth(v)
    ensures PreviousMonth(NextMonth(v)) == v
    ensures NextMonth(PreviousMonth(v)) == v
  {
  }

  /** Whether today falls in the month on display, and if so its day. */
  function TodayDate(v: View, today: Date): (r: Option<int>)
    ensures r.Some? <==> today.year == v.year && today.month0 + 1 == v.month
    ensures r.Some? ==> r.value == today.day
  {
    if today.year == v.year && today.month0 + 1 == v.month then Some(today.day) else None
  }

  /** `goToToday`: shows today's month and selects today; the callback, if
      any, receives today. */
  function GoToToday(v: View, today: Date, hasCallback: bool): (r: (View, Option<Date>))
    ensures TodayDate(r.0, today) == Some(today.day)
    ensures r.0.selected == Some(today)
    ensures r.1.Some? <==> hasCallback
    ensures hasCallback ==> r.1 == Some(today)
  {
    var w := View(today.year, today.month0 + 1, Some(today));
    (w, if hasCallback then Some(today) else None)
  }

  /** `handleDateClick(day)`: a null cell does nothing; otherwise the day of
      the displayed month becomes the selection and is passed to the
      callback, if any. */
  function HandleDateClick(v: View, day: Option<int>, hasCallback: bool): (r: (View, Option<Date>))
    ensures day.None? ==> r == (v, None)
    ensures day.Some? ==> r.0.year == v.year && r.0.month == v.month
    ensures day.Some? ==> r.0.selected == Some(ClickedDate(v, day.value))
    ensures r.1.Some? <==> day.Some? && hasCallback
    ensures r.1.Some? ==> r.0.selected == r.1
  {
    match day
    case None => (v, None)
    case Some(d) =>
      var date := ClickedDate(v, d);
      (v.(selected := Some(date)), if hasCallback then Some(date) else None)
  }

  /** `new Date(year, month - 1, day)` for a cell of the grid: a day of the
      displayed month names itself (for years outside 0..99, which the
      constructor would move to 1900). */
  function ClickedDate(v: View, d: int): (r: Date)
    ensures Valid(r)
    ensures ShowsValidMonth(v) && (v.year < 0 || 99 < v.year) && 1 <= d <= DaysInMonth(v.year, v.month - 1)
      ==> r == Date(v.year, v.month - 1, d)
  {
    DayOfView(v, d);
    NewDate(v.year, v.month - 1, d)
  }

  lemma DayOfView(v: View, d: int)
    ensures ShowsValidMonth(v) && (v.year < 0 || 99 < v.year) && 1 <= d <= DaysInMonth(v.year, v.month - 1)
      ==> NewDate(v.year, v.month - 1, d) == Date(v.year, v.month - 1, d)
  {
    if ShowsValidMonth(v) {
      NewDateOfValid(Date(v.year, v.month - 1, d));
    }
  }

  /** A calendar event; `date` is a YYYY-MM-DD string. */
  datatype Event = Event(date: string, title: string, kind: string)

  /** The events whose date equals `key`, in their original order. */
  function EventsOn(events: seq<Event>, key: string): (r: seq<Event>)
    ensures |r| <= |events|
    ensures forall i :: 0 <= i < |r| ==> r[i].date == key && r[i] in events
    ensures forall i :: 0 <= i < |events| && events[i].date == key ==> events[i] in r
  {
    if |events| == 0 then []
    else
      var rest := EventsOn(events[1..], key);
      assert forall e :: e in events[1..] ==> e in events;
      if events[0].date == key then [events[0]] + rest else rest
  }

  /** Filtering keeps order and duplicates: an event appended to the list
      is appended to the result exactly when it falls on the key. */
  lemma {:induction false} EventsOnAppend(events: seq<Event>, e: Event, key: string)
    ensures EventsOn(events + [e], key) == EventsOn(events, key) + (if e.date == key then [e] else [])
    decreases |events|
  {
    if events != [] {
      assert (events + [e])[1..] == events[1..] + [e];
      EventsOnAppend(events[1..], e, key);
    }
  }

  /** `getEventsForDate(day)`: nothing for a null cell or when events are
      hidden; otherwise the events dated on that day of the displayed month. */
  function GetEventsForDate(v: View, events: seq<Event>, showEvents: bool, day: Option<int>): (r: seq<Event>)
    ensures day.None? || !showEvents ==> r == []
    ensures day.Some? && showEvents ==> r == EventsOn(events, FormatDate(ClickedDate(v, day.value)))
  {
    if day.None? || !showEvents then []
    else EventsOn(events, FormatDate(ClickedDate(v, day.value)))
  }

  /** An event is listed on a day of the displayed month exactly when its
      date string names that day. */
  lemma EventsForDayMatch(v: View, events: seq<Event>, x: int, e: Event)
    requires ShowsValidMonth(v) && 1000 <= v.year <= 9999 && 1 <= x <= DaysInMonth(v.year, v.month - 1)
    requires e in events
    ensures e in GetEventsForDate(v, events, true, Some(x)) <==> ParseIsoDate(e.date) == Some(Date(v.year, v.month - 1, x))
  {
    var d := Date(v.year, v.month - 1, x);
    var key := FormatDate(d);
    EventsKeyOfDay(v, events, x);
    FormatDateRoundTrip(d);
    if ParseIsoDate(e.date) == Some(d) {
      ParseInjective(e.date, key);
      var i :| 0 <= i < |events| && events[i] == e;
    }
  }

  lemma EventsKeyOfDay(v: View, events: seq<Event>, x: int)
    requires ShowsValidMonth(v) && 1000 <= v.year <= 9999 && 1 <= x <= DaysInMonth(v.year, v.month - 1)
    ensures GetEventsForDate(v, events, true, Some(x)) == EventsOn(events, FormatDate(Date(v.year, v.month - 1, x)))
  {
    assert ClickedDate(v, x) == Date(v.year, v.month - 1, x);
  }

  /** Two strings that parse to the same date are equal. */
  lemma ParseInjective(s: string, t: string)
    requires ParseIsoDate(s).Some? && ParseIsoDate(s) == ParseIsoDate(t)
    ensures s == t
  {
    DigitsInjective(s[..4], t[..4]);
    DigitsInjective(s[5..7], t[5..7]);
    DigitsInjective(s[8..], t[8..]);
    assert s == s[..4] + [s[4]] + s[5..7] + [s[7]] + s[8..];
    assert t == t[..4] + [t[4]] + t[5..7] + [t[7]] + t[8..];
  }

  /** Digit strings of one length with one value are equal. */
  lemma {:induction false} DigitsInjective(s: string, t: string)
    requires AllDigits(s) && AllDigits(t) && |s| == |t| && DigitsValue(s) == DigitsValue(t)
    ensures s == t
    decreases |s|
  {
    if |s| > 0 {
      var n := |s|;
      assert DigitsValue(s) % 10 == DigitValue(s[n - 1]);
      assert DigitsValue(t) % 10 == DigitValue(t[n - 1]);
      assert DigitsValue(s[..n - 1]) == DigitsValue(s) / 10;
      assert DigitsValue(t[..n - 1]) == DigitsValue(t) / 10;
      DigitsInjective(s[..n - 1], t[..n - 1]);
      assert s == s[..n - 1] + [s[n - 1]];
      assert t == t[..n - 1] + [t[n - 1]];
    }
  }
}

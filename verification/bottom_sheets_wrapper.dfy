/** The sheets of `cmp_bottomSheets_wrapper.js`: the option lists, in which
    one item is marked selected, and the two month calendars, of which the
    period calendar refuses days after today and months after the current
    one. */
module BottomSheetsWrapper {
  import opened Optional
  import opened JsString
  import opened JsDate
  import Calendar

  /* ------------------------------------------------------------------ */
  /* Option lists                                                        */

  /** `checkSelected(i)`: the `aria-selected` text of item `i`. */
  function CheckSelected(selectedIdx: Option<int>, i: int): (r: string)
    ensures r == "true" || r == "false"
  {
    if selectedIdx == Some(i) then "true" else "false"
  }

  /** The `aria-selected` marks of a rendered list of `n` items. */
  function InitialMarks(n: nat, selectedIdx: Option<int>): (marks: seq<bool>)
    ensures |marks| == n
  {
    seq(n, i requires 0 <= i < n => CheckSelected(selectedIdx, i) == "true")
  }

  /** No two items are marked. */
  predicate AtMostOne(marks: seq<bool>) {
    forall i, j :: 0 <= i < j < |marks| && marks[i] ==> !marks[j]
  }

  /** A freshly rendered list marks the item at `selectedIdx` and no other. */
  lemma InitialMarksSelected(n: nat, selectedIdx: Option<int>)
    ensures AtMostOne(InitialMarks(n, selectedIdx))
    ensures forall i :: 0 <= i < n ==> (InitialMarks(n, selectedIdx)[i] <==> selectedIdx == Some(i))
  {
  }

  /** The number of marked items. */
  function Count(marks: seq<bool>): (n: nat)
    ensures n <= |marks|
  {
    if marks == [] then 0 else (if marks[0] then 1 else 0) + Count(marks[1..])
  }

  /** The first marked item: `querySelectorAll("LI[aria-selected=true]")[0]`. */
  function FirstMarked(marks: seq<bool>): (r: Option<nat>)
    ensures r.Some? ==> r.value < |marks| && marks[r.value]
    ensures r.Some? ==> forall j :: 0 <= j < r.value ==> !marks[j]
    ensures r.None? ==> forall j :: 0 <= j < |marks| ==> !marks[j]
  {
    if marks == [] then None
    else if marks[0] then Some(0)
    else match FirstMarked(marks[1..])
      case None => None
      case Some(k) => Some(k + 1)
  }

  /** No marks means a count of zero; a count of zero means no marks. */
  lemma {:induction false} CountZero(marks: seq<bool>)
    ensures Count(marks) == 0 <==> forall j :: 0 <= j < |marks| ==> !marks[j]
    decreases |marks|
  {
    if marks != [] {
      CountZero(marks[1..]);
      assert forall j :: 1 <= j < |marks| ==> marks[j] == marks[1..][j - 1];
    }
  }

  /** The outcome of a click in a list: the new marks, the index handed to
      the `click` callback, and whether the sheet closes. */
  datatype ListClick = ListClick(marks: seq<bool>, clicked: Option<nat>, closes: bool)

  /** `optionClick` of the default and the account list. `clicked` is the
      position of the clicked item among the items (`indexOf` giving -1 is
      `None`). A disabled item and an item not found do nothing; otherwise a
      single marked item is unmarked, the clicked one is marked, the
      callback gets its index and the sheet closes. */
  function OptionClick(marks: seq<bool>, disabledIdx: Option<int>, clicked: Option<nat>): (r: ListClick)
    requires clicked.Some? ==> clicked.value < |marks|
    ensures |r.marks| == |marks|
    ensures r.closes <==> r.clicked.Some?
  {
    match clicked
    case None => ListClick(marks, None, false)
    case Some(i) =>
      if disabledIdx == Some(i) then ListClick(marks, None, false)
      else
        var cleared := if Count(marks) == 1 && FirstMarked(marks).Some? then marks[FirstMarked(marks).value := false] else marks;
        ListClick(cleared[i := true], Some(i), true)
  }

  /** With at most one item marked before, a click on an enabled item leaves
      exactly that item marked and reports it; a click on the disabled item,
      or on none, changes nothing and keeps the sheet open. */
  lemma OptionClickSelects(marks: seq<bool>, disabledIdx: Option<int>, clicked: Option<nat>)
    requires clicked.Some? ==> clicked.value < |marks|
    requires AtMostOne(marks)
    ensures var r := OptionClick(marks, disabledIdx, clicked);
      (clicked.None? || disabledIdx == clicked ==> r == ListClick(marks, None, false))
      && (clicked.Some? && disabledIdx != clicked ==>
            r.clicked == clicked && r.closes
            && forall j :: 0 <= j < |marks| ==> (r.marks[j] <==> j == clicked.value))
  {
    if clicked.Some? && disabledIdx != clicked {
      var f := FirstMarked(marks);
      CountZero(marks);
      if f.Some? {
        OneMarked(marks, f.value);
      }
    }
  }

  /** Under `AtMostOne`, a marked item is the only one, so the count is 1. */
  lemma OneMarked(marks: seq<bool>, k: nat)
    requires AtMostOne(marks) && k < |marks| && marks[k]
    ensures Count(marks) == 1
    ensures forall j :: 0 <= j < |marks| && j != k ==> !marks[j]
  {
    CountOthers(marks, k);
  }

  lemma {:induction false} CountOthers(marks: seq<bool>, k: nat)
    requires k < |marks| && marks[k]
    requires forall j :: 0 <= j < |marks| && j != k ==> !marks[j]
    ensures Count(marks) == 1
    decreases |marks|
  {
    var t := marks[1..];
    if k == 0 {
      CountZero(t);
    } else {
      CountOthers(t, k - 1);
    }
  }

  /** Clicks keep the list to at most one marked item. */
  lemma OptionClickKeepsOne(marks: seq<bool>, disabledIdx: Option<int>, clicked: Option<nat>)
    requires clicked.Some? ==> clicked.value < |marks|
    requires AtMostOne(marks)
    ensures AtMostOne(OptionClick(marks, disabledIdx, clicked).marks)
  {
    OptionClickSelects(marks, disabledIdx, clicked);
  }

  /* ------------------------------------------------------------------ */
  /* Month navigation                                                    */

  /** `setBeforeMonth`: January steps back to December of the year before. */
  function BeforeMonth(year: int, month: int): (r: (int, int))
    ensures 1 <= month <= 12 ==> 1 <= r.1 <= 12 && r.0 * 12 + r.1 == year * 12 + month - 1
  {
    if month == 1 then (year - 1, 12) else (year, month - 1)
  }

  /** `setAfterMonth` of the plain calendar: December steps forward to
      January of the year after. */
  function AfterMonth(year: int, month: int): (r: (int, int))
    ensures 1 <= month <= 12 ==> 1 <= r.1 <= 12 && r.0 * 12 + r.1 == year * 12 + month + 1
  {
    if month == 12 then (year + 1, 1) else (year, month + 1)
  }

  /** The two steps undo each other. */
  lemma MonthStepsInverse(year: int, month: int)
    requires 1 <= month <= 12
    ensures AfterMonth(BeforeMonth(year, month).0, BeforeMonth(year, month).1) == (year, month)
    ensures BeforeMonth(AfterMonth(year, month).0, AfterMonth(year, month).1) == (year, month)
  {
  }

  /* ------------------------------------------------------------------ */
  /* The week grid                                                       */

  /** `thisMonthLast.getDate()`: the day before the first of the month after
      the first of the shown month. */
  function LastDateOf(year: int, month: int): int {
    var first := NewDate(year, month - 1, 1);
    var next := NewDate(first.year, first.month0 + 1, 1);
    NewDate(next.year, next.month0, 0).day
  }

  /** For the years the calendar shows, that is the length of the month. */
  lemma LastDateIsLength(year: int, month: int)
    requires 1 <= month <= 12 && 100 <= year
    ensures LastDateOf(year, month) == DaysInMonth(year, month - 1)
  {
    NewDateOfValid(Date(year, month - 1, 1));
    var next := NewDate(year, month, 1);
    if month < 12 {
      NewDateOfValid(Date(year, month, 1));
    } else {
      assert NormalizeMonth(year, 12) == (year + 1, 0);
      DayNumberInjective(next, Date(year + 1, 0, 1));
    }
    LastDayOfMonth(next.year, next.month0 - 1);
  }

  /** `maxWeeks`: `Math.ceil((firstDay + lastDate) / 7)`. */
  function MaxWeeks(firstDay: int, lastDate: int): (w: int)
    requires 0 <= firstDay + lastDate
    ensures 7 * (w - 1) < firstDay + lastDate <= 7 * w
  {
    (firstDay + lastDate + 6) / 7
  }

  /** `drawCalendar`: `maxWeeks` rows of seven cells; cell `c` of row `w`
      shows day `7w + c + 1 - firstDay` when that is a day of the month and
      is blank otherwise. */
  function Grid(firstDay: int, lastDate: int): (g: seq<seq<Option<int>>>)
    requires 0 <= firstDay < 7 && 0 <= lastDate
    ensures |g| == MaxWeeks(firstDay, lastDate)
  {
    seq(MaxWeeks(firstDay, lastDate), w requires 0 <= w =>
      seq(7, c requires 0 <= c < 7 => Calendar.CellFor(7 * w + c + 1 - firstDay, lastDate)))
  }

  /** Every day of the month has exactly one cell of the grid. */
  lemma GridCells(first: int, last: int, x: int)
    requires 0 <= first < 7 && 1 <= x <= last
    ensures var g := Grid(first, last);
      var p := x + first - 1;
      p / 7 < |g| && g[p / 7][p % 7] == Some(x)
      && (forall r, c :: 0 <= r < |g| && 0 <= c < 7 && g[r][c] == Some(x) ==> r == p / 7 && c == p % 7)
  {
    Calendar.EachDayOnce(Grid(first, last), first, last, x);
  }

  /** In the grid of a month, with `LastDateIsLength` for its last date,
      each day's cell lies in the column of its weekday. */
  lemma GridColumnIsWeekDay(year: int, month: int, x: int)
    requires 1 <= month <= 12 && 1 <= x <= DaysInMonth(year, month - 1)
    ensures var first := Calendar.FirstWeekDay(year, month);
      var g := Grid(first, DaysInMonth(year, month - 1));
      var p := x + first - 1;
      p / 7 < |g| && g[p / 7][p % 7] == Some(x) && WeekDay(NewDate(year, month - 1, x)) == p % 7
  {
    GridCells(Calendar.FirstWeekDay(year, month), DaysInMonth(year, month - 1), x);
    Calendar.ColumnIsWeekDay(year, month, x);
  }

  /* ------------------------------------------------------------------ */
  /* The period calendar                                                 */

  const MsPerDay: int := 86400000

  /** `new Date()`: today's date and the milliseconds since its midnight. */
  datatype Now = Now(date: Date, millis: int)

  predicate ValidNow(t: Now) {
    Valid(t.date) && 0 <= t.millis < MsPerDay
  }

  /** `new Date(year, month - 1, d) > today`: the midnight of the day
      against the current instant. */
  predicate IsFutureDate(year: int, month: int, d: int, today: Now)
    requires ValidNow(today)
  {
    MakeDay(year, month - 1, d) * MsPerDay > DayNumber(today.date) * MsPerDay + today.millis
  }

  /** A day is in the future exactly when it comes after today's date;
      today itself is not. */
  lemma FutureMeansLaterDay(year: int, month: int, d: int, today: Now)
    requires ValidNow(today)
    ensures IsFutureDate(year, month, d, today) <==> MakeDay(year, month - 1, d) > DayNumber(today.date)
  {
    var a, b := MakeDay(year, month - 1, d), DayNumber(today.date);
    assert a * MsPerDay - b * MsPerDay == (a - b) * MsPerDay;
    if a > b {
      assert (a - b) * MsPerDay >= MsPerDay;
    } else {
      assert (a - b) * MsPerDay <= 0;
    }
  }

  /** The calendar's state: the month shown and whether "today" was the last
      thing pressed. */
  datatype View = View(year: int, month: int, chkToday: bool)

  /** The initial month: the `year` and `month` props, or today's month when
      either is missing. */
  function Init(yearProp: Option<int>, monthProp: Option<int>, today: Now): (v: View)
    ensures !v.chkToday
    ensures yearProp.Some? && monthProp.Some? ==> v.year == yearProp.value && v.month == monthProp.value
    ensures yearProp.None? || monthProp.None? ==> v.year == today.date.year && v.month == today.date.month0 + 1
  {
    if yearProp.None? || monthProp.None? then View(today.date.year, today.date.month0 + 1, false)
    else View(yearProp.value, monthProp.value, false)
  }

  /** The `disabled` flag of a day button. */
  predicate DayDisabled(v: View, d: int, today: Now, periodType: bool)
    requires ValidNow(today)
  {
    periodType && IsFutureDate(v.year, v.month, d, today)
  }

  /** The `dateClick` argument: the year, month and day of the button. */
  datatype Picked = Picked(year: int, month: int, date: int)

  datatype Selection = Selection(view: View, picked: Option<Picked>, closes: bool)

  /** `selectDate` on day `d`: a future day in period mode does nothing;
      any other day goes to the callback, if any, clears the "today" mark
      and closes the sheet. The plain calendar is the case `periodType`
      false. */
  function SelectDate(v: View, d: int, today: Now, periodType: bool, hasCallback: bool): (r: Selection)
    requires ValidNow(today)
    ensures r.view.year == v.year && r.view.month == v.month
  {
    if periodType && IsFutureDate(v.year, v.month, d, today) then Selection(v, None, false)
    else Selection(v.(chkToday := false), if hasCallback then Some(Picked(v.year, v.month, d)) else None, true)
  }

  /** In period mode a day is taken exactly when it is not after today,
      and then the callback receives that very day; the plain calendar takes
      every day. A day that is taken is one whose button is enabled. */
  lemma SelectDateFuture(v: View, d: int, today: Now, periodType: bool)
    requires ValidNow(today)
    ensures var r := SelectDate(v, d, today, periodType, true);
      (r.closes <==> !periodType || MakeDay(v.year, v.month - 1, d) <= DayNumber(today.date))
      && (r.closes ==> r.picked == Some(Picked(v.year, v.month, d)) && !r.view.chkToday)
      && (!r.closes ==> r == Selection(v, None, false))
      && (r.closes <==> !DayDisabled(v, d, today, periodType))
  {
    FutureMeansLaterDay(v.year, v.month, d, today);
  }

  /** The next-month button is enabled in period mode exactly when the shown
      month is before today's month, and always otherwise. */
  function NextMonthEnabled(v: View, today: Date, periodType: bool): bool {
    !periodType || v.year < today.year || (v.year == today.year && v.month < today.month0 + 1)
  }

  /** `setAfterMonth` of the period calendar as written. `todayYear` is the
      method `today.getFullYear`, not its value, so `>` compares with NaN and
      `===` compares a number with a function: both are false, and the guard
      never returns. */
  function SetAfterMonthAsWritten(v: View, today: Date, periodType: bool): (r: View)
  {
    var todayYear: JsNumber := NaN;
    var guard := periodType &&
      (NumberAbove(v.year, todayYear) || (SameNumber(v.year, todayYear) && v.month >= today.month0 + 1));
    if guard then v else var n := AfterMonth(v.year, v.month); v.(year := n.0, month := n.1)
  }

  /** `x > n` and `x === n` for a number `x`: false whenever `n` is NaN. */
  predicate NumberAbove(x: int, n: JsNumber) {
    n.Int? && x > n.v
  }

  predicate SameNumber(x: int, n: JsNumber) {
    n.Int? && x == n.v
  }

  /** As written, the handler moves on whatever the month shown: its guard
      has no effect (the disabled button is what stops a click). */
  lemma AsWrittenGuardIsDead(v: View, today: Date, periodType: bool)
    ensures SetAfterMonthAsWritten(v, today, periodType).year == AfterMonth(v.year, v.month).0
    ensures SetAfterMonthAsWritten(v, today, periodType).month == AfterMonth(v.year, v.month).1
  {
  }

  /** Shown May 2024 on 15 May 2024, the handler as written moves to June,
      which the button's rule forbids. */
  lemma AsWrittenPassesToday()
    ensures var v := View(2024, 5, false);
      var today := Date(2024, 4, 15);
      !NextMonthEnabled(v, today, true) && SetAfterMonthAsWritten(v, today, true).month == 6
  {
  }

  /** The handler with the guard reading today's year. */
  function SetAfterMonth(v: View, today: Date, periodType: bool): (r: View)
    ensures r.chkToday == v.chkToday
  {
    if periodType && (v.year > today.year || (v.year == today.year && v.month >= today.month0 + 1)) then v
    else var n := AfterMonth(v.year, v.month); v.(year := n.0, month := n.1)
  }

  /** The corrected handler moves exactly when the button is enabled, and
      from a month no later than today's it never reaches a later one. */
  lemma SetAfterMonthAgreesWithButton(v: View, today: Date, periodType: bool)
    requires 1 <= v.month <= 12 && 0 <= today.month0 < 12
    ensures var r := SetAfterMonth(v, today, periodType);
      (r != v <==> NextMonthEnabled(v, today, periodType))
      && (periodType && v.year * 12 + v.month <= today.year * 12 + today.month0 + 1 ==>
            r.year * 12 + r.month <= today.year * 12 + today.month0 + 1)
  {
  }

  /** `setTodate`: today's month with "today" marked. */
  function SetToday(v: View, today: Date): (r: View)
    ensures r.chkToday
  {
    View(today.year, today.month0 + 1, true)
  }

  /** The `selectedDate` prop, `YYYY.MM.DD`, split on dots and read as
      numbers; a missing piece is NaN. */
  function SelectedParts(selected: string): (r: (JsNumber, JsNumber, JsNumber))
  {
    var p := Split(selected, ".");
    (ToNumber(p[0]), if |p| > 1 then ToNumber(p[1]) else NaN, if |p| > 2 then ToNumber(p[2]) else NaN)
  }

  /** The "today" highlight of day `d`. */
  predicate TodayMarked(v: View, d: int, today: Date) {
    v.chkToday && v.year == today.year && v.month == today.month0 + 1 && d == today.day
  }

  /** The "selected" highlight of day `d`. */
  predicate SelectedMarked(v: View, d: int, selected: string) {
    var (y, m, dd) := SelectedParts(selected);
    !v.chkToday && SameNumber(v.year, y) && SameNumber(v.month, m) && SameNumber(d, dd)
  }

  /** No day carries both highlights; after "today" exactly today's day is
      highlighted as today, and after a pick the selected day is the one
      highlighted again. */
  lemma Highlights(v: View, d: int, today: Now, selected: string, periodType: bool)
    requires ValidNow(today)
    ensures !(TodayMarked(v, d, today.date) && SelectedMarked(v, d, selected))
    ensures TodayMarked(SetToday(v, today.date), d, today.date) <==> d == today.date.day
    ensures !SelectedMarked(SetToday(v, today.date), d, selected)
    ensures var r := SelectDate(v, d, today, periodType, true);
      r.closes ==> forall e :: !TodayMarked(r.view, e, today.date)
  {
  }
}

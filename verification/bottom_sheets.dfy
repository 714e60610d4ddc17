/** The shared bottom sheet (`cmp_bottomSheets.js`): the swipe-down gesture
    on the sheet title, which either closes the sheet or lets it snap back,
    and the date-picker sheet `Calendar`, which picks one date or a range of
    two dates. The picker names a day by its key, the string `YYYYMMDD`, and
    compares keys as strings. */
module BottomSheets {
  import opened Optional
  import opened JsString
  import opened JsDate
  import Calendar

  /* ------------------------------------------------------------------ */
  /* The swipe gesture of `CmpBsTitle`                                   */

  /** A wall-clock reading as `bottomSheet.timeCheck()` takes it. */
  datatype Clock = Clock(hours: int, minutes: int, seconds: int)

  predicate ValidClock(c: Clock) {
    0 <= c.hours < 24 && 0 <= c.minutes < 60 && 0 <= c.seconds < 60
  }

  /** The `HHMMSS` string of a reading, as the number the handler subtracts. */
  function Stamp(c: Clock): int {
    c.hours * 10000 + c.minutes * 100 + c.seconds
  }

  /** Two readings give the same stamp exactly when they are the same second,
      so a zero `touchTime` means the gesture ended within the second it
      started in. */
  lemma StampInjective(a: Clock, b: Clock)
    requires ValidClock(a) && ValidClock(b)
    ensures Stamp(a) == Stamp(b) <==> a == b
  {
  }

  /** The refs of the title: where the touch started (`Math.ceil` of the
      screen y), when, and how far the sheet has been dragged down. */
  datatype Gesture = Gesture(startY: int, startTime: int, moveMax: int)

  const Untouched: Gesture := Gesture(0, 0, 0)

  /** Drags shorter than this that end within the same second close the
      sheet. */
  const QuickSwipe: int := 150

  /** `touchStart`: records where and when; the drag distance of the previous
      gesture is kept. */
  function TouchStart(g: Gesture, screenY: int, time: Clock): (r: Gesture)
    ensures r.startY == screenY && r.startTime == Stamp(time)
    ensures r.moveMax == g.moveMax
  {
    g.(startY := screenY, startTime := Stamp(time))
  }

  /** `touchMove`: the distance below the start, never negative. */
  function TouchMove(g: Gesture, screenY: int): (r: Gesture)
    ensures r.moveMax >= 0 && r.moveMax >= screenY - g.startY
    ensures r.moveMax == 0 || r.moveMax == screenY - g.startY
    ensures r.startY == g.startY && r.startTime == g.startTime
  {
    g.(moveMax := if screenY - g.startY > 0 then screenY - g.startY else 0)
  }

  /** What the end of a gesture does to the sheet. */
  datatype Release = Stays | SnapsBack | Closes

  /** `touchEnd` on a sheet of `height` pixels: nothing when the sheet was not
      dragged; a quick short drag closes; otherwise the sheet closes once it
      was dragged at least a third of its height (`height / 3 > moveMax`
      snaps back) and snaps back before that. */
  function TouchEnd(g: Gesture, time: Clock, height: int): (r: Release)
    ensures r == Stays <==> g.moveMax == 0
  {
    var elapsed := Stamp(time) - g.startTime;
    if g.moveMax == 0 then Stays
    else if elapsed == 0 && g.moveMax < QuickSwipe then Closes
    else if height > 3 * g.moveMax then SnapsBack
    else Closes
  }

  /** The close rule in the gesture's own terms: a drag closes the sheet
      exactly when it ended in the second it began and was short, or reached
      a third of the height. */
  lemma TouchEndCloses(start: Clock, g: Gesture, time: Clock, height: int)
    requires ValidClock(start) && ValidClock(time) && g.startTime == Stamp(start)
    requires g.moveMax != 0
    ensures TouchEnd(g, time, height) == Closes <==>
      (time == start && g.moveMax < QuickSwipe) || 3 * g.moveMax >= height
    ensures TouchEnd(g, time, height) == SnapsBack <==>
      !(time == start && g.moveMax < QuickSwipe) && 3 * g.moveMax < height
  {
    StampInjective(start, time);
  }

  /** Once the gesture spans more than one second, dragging farther never
      turns a close into a snap-back. */
  lemma FartherStillCloses(g: Gesture, further: int, time: Clock, height: int)
    requires 0 < g.moveMax <= further && Stamp(time) != g.startTime
    requires TouchEnd(g, time, height) == Closes
    ensures TouchEnd(g.(moveMax := further), time, height) == Closes
  {
  }

  /** Within one second that is not so: a short drag closes the sheet while
      a longer one that stays under a third of the height snaps back. */
  lemma QuickDragsNotMonotone()
    ensures TouchEnd(Gesture(0, Stamp(Clock(9, 0, 0)), 10), Clock(9, 0, 0), 600) == Closes
    ensures TouchEnd(Gesture(0, Stamp(Clock(9, 0, 0)), 160), Clock(9, 0, 0), 600) == SnapsBack
  {
  }

  /** A whole gesture: touch at `y0`, move to `y1`, let go. */
  function Swipe(g: Gesture, y0: int, t0: Clock, y1: int, t1: Clock, height: int): (r: (Gesture, Release))
    ensures r.0.moveMax >= 0
  {
    var h := TouchMove(TouchStart(g, y0, t0), y1);
    (h, TouchEnd(h, t1, height))
  }

  /** As written, a tap that follows a drag reuses that drag's distance: a
      slow 100-pixel drag on a 600-pixel sheet snaps back, and a tap on the
      title in a later second, with no movement at all, then closes the
      sheet. */
  lemma StaleDragClosesOnTap()
    ensures var (g, first) := Swipe(Untouched, 100, Clock(12, 0, 0), 200, Clock(12, 0, 1), 600);
      first == SnapsBack
      && TouchEnd(TouchStart(g, 300, Clock(12, 0, 5)), Clock(12, 0, 5), 600) == Closes
  {
  }

  /** `touchStart` that also clears the distance of the previous gesture. */
  function TouchStartFresh(g: Gesture, screenY: int, time: Clock): (r: Gesture)
    ensures r.startY == screenY && r.startTime == Stamp(time)
    ensures r.moveMax == 0
  {
    Gesture(screenY, Stamp(time), 0)
  }

  /** With the reset, a tap never moves the sheet, and a gesture's outcome
      depends on that gesture alone. */
  lemma FreshTapStays(g: Gesture, y: int, t0: Clock, t1: Clock, height: int)
    ensures TouchEnd(TouchStartFresh(g, y, t0), t1, height) == Stays
  {
  }

  lemma FreshGestureForgetsHistory(g: Gesture, h: Gesture, y0: int, t0: Clock, y1: int, t1: Clock, height: int)
    ensures var a := TouchMove(TouchStartFresh(g, y0, t0), y1);
      var b := TouchMove(TouchStartFresh(h, y0, t0), y1);
      a == b && TouchEnd(a, t1, height) == TouchEnd(b, t1, height)
  {
  }

  /* ------------------------------------------------------------------ */
  /* Day keys                                                            */

  /** `String(n).padStart(2, "0")`. */
  function Pad2(n: int): string {
    PadStart(IntString(n), 2, '0')
  }

  /** The key of a day in the grid: `${year}${MM}${DD}`. */
  function DateKey(d: Date): string {
    IntString(d.year) + Pad2(d.month0 + 1) + Pad2(d.day)
  }

  /** A date the keys of which have the fixed `YYYYMMDD` layout. */
  predicate KeyedDate(d: Date) {
    Valid(d) && 1000 <= d.year <= 9999
  }

  /** The three fields of a key of a four-digit year. */
  lemma KeyFields(d: Date)
    requires KeyedDate(d)
    ensures |IntString(d.year)| == 4 && AllDigits(IntString(d.year)) && DigitsValue(IntString(d.year)) == d.year
    ensures |Pad2(d.month0 + 1)| == 2 && AllDigits(Pad2(d.month0 + 1)) && DigitsValue(Pad2(d.month0 + 1)) == d.month0 + 1
    ensures |Pad2(d.day)| == 2 && AllDigits(Pad2(d.day)) && DigitsValue(Pad2(d.day)) == d.day
    ensures |DateKey(d)| == 8
    ensures DateKey(d)[..4] == IntString(d.year)
    ensures DateKey(d)[4..6] == Pad2(d.month0 + 1)
    ensures DateKey(d)[6..8] == Pad2(d.day)
  {
    Calendar.FourDigits(d.year);
    Calendar.PadTwo(d.month0 + 1);
    Calendar.PadTwo(d.day);
    var k := DateKey(d);
    assert k[..4] == IntString(d.year);
    assert k[4..6] == Pad2(d.month0 + 1);
    assert k[6..8] == Pad2(d.day);
  }

  /** Comparing two keys as strings compares the days they name: the
      string `<` the picker uses is the order of the calendar. */
  lemma DateKeyOrder(a: Date, b: Date)
    requires KeyedDate(a) && KeyedDate(b)
    ensures StrLt(DateKey(a), DateKey(b)) <==> DayNumber(a) < DayNumber(b)
    ensures DateKey(a) == DateKey(b) <==> a == b
  {
    KeyFields(a);
    KeyFields(b);
    var ya, ma, da := IntString(a.year), Pad2(a.month0 + 1), Pad2(a.day);
    var yb, mb, db := IntString(b.year), Pad2(b.month0 + 1), Pad2(b.day);
    StrLtDigits(ya, yb);
    StrLtDigits(ma, mb);
    StrLtDigits(da, db);
    StrLtConcat(ya + ma, da, yb + mb, db);
    StrLtConcat(ya, ma, yb, mb);
    assert ya + ma == yb + mb <==> ya == yb && ma == mb by {
      if ya + ma == yb + mb {
        assert (ya + ma)[..4] == ya && (yb + mb)[..4] == yb;
        assert (ya + ma)[4..] == ma && (yb + mb)[4..] == mb;
      }
    }
    assert DateKey(a) == ya + ma + da && DateKey(b) == yb + mb + db;
    assert DateKey(a) == DateKey(b) ==> ya + ma == yb + mb && da == db by {
      if DateKey(a) == DateKey(b) {
        assert (ya + ma + da)[..6] == ya + ma && (yb + mb + db)[..6] == yb + mb;
        assert (ya + ma + da)[6..] == da && (yb + mb + db)[6..] == db;
      }
    }
    DayNumberOrder(a, b);
  }

  /** `new Date(key.slice(0, 4), key.slice(4, 6) - 1, key.slice(6, 8))`:
      each piece goes through `Number`; a piece that is not a number makes
      the date invalid. */
  function KeyDate(key: string): (r: Option<Date>)
    ensures r.Some? ==> Valid(r.value)
  {
    match (ToNumber(Substring(key, 0, 4)), ToNumber(Substring(key, 4, 6)), ToNumber(Substring(key, 6, 8)))
    case (Int(y), Int(m), Int(d)) => Some(NewDate(y, m - 1, d))
    case _ => None
  }

  /** `slice` on a key gives its year, month and day fields. */
  lemma KeySlices(d: Date)
    requires KeyedDate(d)
    ensures Substring(DateKey(d), 0, 4) == IntString(d.year)
    ensures Substring(DateKey(d), 4, 6) == Pad2(d.month0 + 1)
    ensures Substring(DateKey(d), 6, 8) == Pad2(d.day)
  {
    KeyFields(d);
  }

  /** Reading a key back gives the day it names. */
  lemma KeyDateOfKey(d: Date)
    requires KeyedDate(d)
    ensures KeyDate(DateKey(d)) == Some(d)
  {
    KeyFields(d);
    NewDateOfValid(d);
  }

  /* ------------------------------------------------------------------ */
  /* The picker                                                          */

  /** The picker's state: the range ends and the single selection. The
      component holds null or "" for an unset end; both are falsy and are
      the empty string here. */
  datatype Picker = Picker(start: string, end: string, selected: string)

  /** The initial state: no range, the `setDay` prop or today selected;
      with a `setcb` prop in range mode, `setDay` also starts the range. */
  function Init(setDay: string, today: Date, multi: bool, hasSetcb: bool): (p: Picker)
    ensures p.end == ""
    ensures p.selected == (if setDay != "" then setDay else DateKey(today))
    ensures p.start == (if hasSetcb && multi then setDay else "")
  {
    Picker(if hasSetcb && multi then setDay else "", "", if setDay != "" then setDay else DateKey(today))
  }

  /** What `closedcb` receives. */
  datatype Chosen =
    | Range(startDate: string, startYear: string, startMonth: string, startDay: string,
            endDate: string, endYear: string, endMonth: string, endDay: string)
    | Single(full: string, year: JsNumber, month: string, day: string)

  /** The result of one handler: the new state, the callback's argument if
      it is called, whether the sheet closes, and whether the "not before
      the start" alert is shown. */
  datatype Reaction = Reaction(picker: Picker, chosen: Option<Chosen>, closes: bool, alert: bool)

  const EndBeforeStart: string := "시작일 이전으로 선택이 불가능합니다"

  /** The callback of a single pick: the key and the parts of the date it
      reads back as; an unreadable key gives NaN parts. */
  function SingleOf(key: string): (c: Chosen)
    ensures c.Single? && c.full == key
  {
    SingleFrom(key, KeyDate(key))
  }

  function SingleFrom(key: string, date: Option<Date>): (c: Chosen)
    ensures c.Single? && c.full == key
  {
    match date
    case Some(d) => Single(key, Int(d.year), Pad2(d.month0 + 1), Pad2(d.day))
    case None => Single(key, NaN, "NaN", "NaN")
  }

  /** `handleDateSelect(date)`. */
  function HandleDateSelect(p: Picker, date: string, multi: bool): (r: Reaction)
    ensures !multi ==> r.picker == p.(selected := date) && r.closes && !r.alert
    ensures !multi ==> r.chosen == Some(SingleOf(date))
    ensures multi ==> r.picker.selected == p.selected
    ensures r.closes <==> r.chosen.Some?
    ensures r.alert ==> r.picker == p
  {
    if multi then
      if p.start == "" || p.end != "" then
        Reaction(p.(start := date, end := ""), None, false, false)
      else if StrLt(p.start, date) then
        var c := Range(p.start, Substring(p.start, 0, 4), Substring(p.start, 4, 6), Substring(p.start, 6, 8),
                       date, Substring(date, 0, 4), Substring(date, 4, 6), Substring(date, 6, 8));
        Reaction(p.(end := date), Some(c), true, false)
      else
        Reaction(p, None, false, true)
    else
      Reaction(p.(selected := date), Some(SingleOf(date)), true, false)
  }

  /** `handleToday`: selects today; in range mode today becomes the start
      and the end is cleared. */
  function HandleToday(p: Picker, today: Date, multi: bool): (r: Picker)
    ensures r.selected == DateKey(today)
    ensures multi ==> r.start == DateKey(today) && r.end == ""
    ensures !multi ==> r.start == p.start && r.end == p.end
  {
    if multi then Picker(DateKey(today), "", DateKey(today))
    else p.(selected := DateKey(today))
  }

  /** A set end always lies after the start. */
  predicate Ordered(p: Picker) {
    p.start == "" || p.end == "" || StrLt(p.start, p.end)
  }

  /** Every handler keeps the range ordered. */
  lemma SelectKeepsOrder(p: Picker, date: string, multi: bool, today: Date)
    requires Ordered(p)
    ensures Ordered(HandleDateSelect(p, date, multi).picker)
    ensures Ordered(HandleToday(p, today, multi))
    ensures Ordered(Init(date, today, multi, true))
  {
  }

  /** Range mode, step by step: with no start or a finished range a click
      starts a new range at the clicked key; with only a start, a later key
      ends the range, hands both ends and their fields to the callback and
      closes the sheet, and any other key alerts and changes nothing. */
  lemma RangeSteps(p: Picker, date: string)
    ensures var r := HandleDateSelect(p, date, true);
      (p.start == "" || p.end != "" ==> r.picker.start == date && r.picker.end == "" && !r.closes && !r.alert)
      && (p.start != "" && p.end == "" && StrLt(p.start, date) ==>
            r.picker.start == p.start && r.picker.end == date && r.closes && !r.alert
            && r.chosen.value.startDate == p.start && r.chosen.value.endDate == date)
      && (p.start != "" && p.end == "" && !StrLt(p.start, date) ==>
            r.picker == p && r.alert && !r.closes)
  {
  }

  /** Two clicks on days of the grid, from a picker with no range pending:
      the range is made exactly when the second day is later in the
      calendar, and then the callback gets the year, month and day fields
      of both days. */
  lemma TwoClicks(p: Picker, a: Date, b: Date)
    requires KeyedDate(a) && KeyedDate(b)
    requires p.start == "" || p.end != ""
    ensures var r1 := HandleDateSelect(p, DateKey(a), true);
      var r2 := HandleDateSelect(r1.picker, DateKey(b), true);
      (r2.closes <==> DayNumber(a) < DayNumber(b))
      && (r2.closes ==>
            r2.picker.start == DateKey(a) && r2.picker.end == DateKey(b)
            && r2.chosen == Some(Range(DateKey(a), IntString(a.year), Pad2(a.month0 + 1), Pad2(a.day),
                                       DateKey(b), IntString(b.year), Pad2(b.month0 + 1), Pad2(b.day))))
      && (!r2.closes ==> r2.alert && r2.picker == r1.picker)
  {
    DateKeyOrder(a, b);
    KeySlices(a);
    KeySlices(b);
  }

  /** A single pick of a grid day hands the callback that day's year and its
      padded month and day, which are the key's own fields (`KeySlices`). */
  lemma SinglePickFields(p: Picker, d: Date)
    requires KeyedDate(d)
    ensures HandleDateSelect(p, DateKey(d), false).chosen ==
      Some(Single(DateKey(d), Int(d.year), Pad2(d.month0 + 1), Pad2(d.day)))
  {
    SingleOfKey(d);
  }

  lemma SingleOfKey(d: Date)
    requires KeyedDate(d)
    ensures SingleOf(DateKey(d)) == Single(DateKey(d), Int(d.year), Pad2(d.month0 + 1), Pad2(d.day))
  {
    KeyDateOfKey(d);
    SingleOfReadable(DateKey(d), d);
  }

  lemma SingleOfReadable(key: string, d: Date)
    requires KeyDate(key) == Some(d)
    ensures SingleOf(key) == Single(key, Int(d.year), Pad2(d.month0 + 1), Pad2(d.day))
  {
  }

  /** "Today" in range mode, then a later day, makes the range from today. */
  lemma TodayThenLater(p: Picker, today: Date, b: Date)
    requires KeyedDate(today) && KeyedDate(b) && DayNumber(today) < DayNumber(b)
    ensures var r := HandleDateSelect(HandleToday(p, today, true), DateKey(b), true);
      r.closes && r.picker.start == DateKey(today) && r.picker.end == DateKey(b)
  {
    DateKeyOrder(today, b);
    KeyFields(today);
  }

  /** The highlight of a day strictly inside a finished range. */
  predicate InRange(p: Picker, key: string) {
    p.start != "" && p.end != "" && StrLt(p.start, key) && StrLt(key, p.end)
  }

  /** The highlighted days of a range of grid days are the days strictly
      between its ends in the calendar; the ends themselves are not. */
  lemma InRangeDays(p: Picker, a: Date, b: Date, d: Date)
    requires KeyedDate(a) && KeyedDate(b) && KeyedDate(d)
    requires p.start == DateKey(a) && p.end == DateKey(b)
    ensures InRange(p, DateKey(d)) <==> DayNumber(a) < DayNumber(d) < DayNumber(b)
    ensures !InRange(p, p.start) && !InRange(p, p.end)
  {
    DateKeyOrder(a, d);
    DateKeyOrder(d, b);
    StrLtIrreflexive(p.start);
    StrLtIrreflexive(p.end);
  }

  /* ------------------------------------------------------------------ */
  /* Disabled days                                                       */

  /** The props that limit the picker: the earliest and latest key, whether
      weekends may be picked, and the keys of holidays. */
  datatype Limits = Limits(start: string, end: string, weekend: bool, holidays: seq<string>)

  /** The day number of a limit prop. An absent prop stands for the extreme
      time values, which no day of the grid passes, and an unreadable one
      gives an invalid date, which every comparison fails: neither limits
      anything. */
  function Bound(s: string): (b: Option<int>)
    ensures s == "" ==> b.None?
  {
    if s == "" then None
    else match KeyDate(s)
      case Some(d) => Some(DayNumber(d))
      case None => None
  }

  /** The `disabled` flag of a day button. */
  function IsDisabled(d: Date, lim: Limits): bool
    requires Valid(d)
  {
    var n := DayNumber(d);
    var lo := Bound(lim.start);
    var hi := Bound(lim.end);
    (lo.Some? && n < lo.value) || (hi.Some? && n > hi.value)
    || (!lim.weekend && (WeekDay(d) == 0 || WeekDay(d) == 6))
    || DateKey(d) in lim.holidays
  }

  /** With limit props that are keys of grid days, a day is disabled exactly
      when it is before the first, after the last, a weekend day while
      weekends are off, or a holiday. */
  lemma DisabledDays(d: Date, first: Date, last: Date, weekend: bool, holidays: seq<string>)
    requires Valid(d) && KeyedDate(first) && KeyedDate(last)
    ensures IsDisabled(d, Limits(DateKey(first), DateKey(last), weekend, holidays)) <==>
      DayNumber(d) < DayNumber(first) || DayNumber(last) < DayNumber(d)
      || (!weekend && (WeekDay(d) == 0 || WeekDay(d) == 6))
      || DateKey(d) in holidays
  {
    BoundOfKey(first);
    BoundOfKey(last);
  }

  lemma BoundOfKey(d: Date)
    requires KeyedDate(d)
    ensures Bound(DateKey(d)) == Some(DayNumber(d))
  {
    KeyDateOfKey(d);
  }

  /** With no props set nothing is disabled. */
  lemma NoLimits(d: Date)
    requires Valid(d)
    ensures !IsDisabled(d, Limits("", "", true, []))
  {
  }

  /** A press on a day button whose key is `key`: a disabled button does
      not fire. */
  function Press(p: Picker, key: string, disabled: bool, multi: bool): (r: Reaction)
    ensures disabled ==> r == Reaction(p, None, false, false)
  {
    if disabled then Reaction(p, None, false, false) else HandleDateSelect(p, key, multi)
  }

  /** A click on day `d` of the grid. */
  function ClickDay(p: Picker, d: Date, lim: Limits, multi: bool): Reaction
    requires Valid(d)
  {
    Press(p, DateKey(d), IsDisabled(d, lim), multi)
  }

  /** No press puts a disabled day into the state or the callback: whatever
      a press changes is the pressed key, and its button was enabled. */
  lemma PressRespectsLimits(p: Picker, key: string, disabled: bool, multi: bool)
    ensures var r := Press(p, key, disabled, multi);
      ((r.picker != p || r.chosen.Some? || r.alert) ==> !disabled)
      && (r.picker.start != p.start ==> r.picker.start == key)
      && (r.picker.end != p.end ==> r.picker.end == key || r.picker.end == "")
      && (r.picker.selected != p.selected ==> r.picker.selected == key)
  {
  }

  /* ------------------------------------------------------------------ */
  /* The grid                                                            */

  /** `daysArray`: a null for each weekday before the first, then the days
      of the month. */
  function DaysArray(first: int, days: int): (a: seq<Option<int>>)
    requires 0 <= first && 0 <= days
    ensures |a| == first + days
  {
    seq(first + days, i requires 0 <= i < first + days => if i < first then None else Some(i - first + 1))
  }

  /** The rows of the table: `ceil(|a| / 7)` slices of seven cells, the last
      one possibly shorter. */
  function Rows(a: seq<Option<int>>): (rows: seq<seq<Option<int>>>)
  {
    seq((|a| + 6) / 7, r requires 0 <= r < (|a| + 6) / 7 =>
      a[7 * r .. if 7 * r + 7 <= |a| then 7 * r + 7 else |a|])
  }

  /** Every row holds one to seven cells, and the cell at position `i` of
      the array is in row `i / 7`, column `i % 7`: each day of the month is
      shown once, in the column of its weekday when `first` is the weekday
      of the first. */
  lemma RowsCover(first: int, days: int, k: int)
    requires 0 <= first && 1 <= k <= days
    ensures var rows := Rows(DaysArray(first, days));
      var i := first + k - 1;
      (forall r :: 0 <= r < |rows| ==> 1 <= |rows[r]| <= 7)
      && i / 7 < |rows| && i % 7 < |rows[i / 7]| && rows[i / 7][i % 7] == Some(k)
  {
  }

  /** The grid of a month: as many rows as needed and no more. */
  lemma RowsNeeded(first: int, days: int)
    requires 0 <= first && 0 <= days
    ensures 7 * (|Rows(DaysArray(first, days))| - 1) < first + days <= 7 * |Rows(DaysArray(first, days))|
  {
  }
}

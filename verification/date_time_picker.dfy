/** The date and time picker sheet: a calendar page for the month on view,
    month navigation, day selection, hour and minute steppers, the 12-hour
    preview and the confirmed value. The sheet's state is a record and
    every button is a function from state to state. */
module DateTimePicker {
  import opened Wrappers
  import opened Text
  import opened Civil

  datatype Tab = DateTab | TimeTab

  /** The sheet's state. Only the date part of the selected value is ever
      read, so it is kept as a calendar date. */
  datatype Picker = Picker(
    tab: Tab,
    selected: Date,
    viewYear: int,
    viewMonth: int,
    hours: int,
    minutes: int
  )

  predicate Valid(p: Picker) {
    && ValidDate(p.selected)
    && 0 <= p.viewMonth < 12
    && 0 <= p.hours < 24
    && 0 <= p.minutes < 60
  }

  // ---------------------------------------------------------------------
  // Opening the sheet

  /** The state the sheet takes from `value` when it mounts and each time it
      becomes visible: the selection, the month on view and the time all
      come from `value`, and the date tab is shown. */
  function Reset(value: DateTime): Picker {
    Picker(DateTab, value.date, value.date.year, value.date.month, value.hour, value.minute)
  }

  /** The effect that runs when `visible` changes. */
  function OnVisibleChange(p: Picker, visible: bool, value: DateTime): (r: Picker)
    ensures visible ==> (r.tab == DateTab && r.selected == value.date
      && r.viewYear == value.date.year && r.viewMonth == value.date.month
      && r.hours == value.hour && r.minutes == value.minute)
    ensures !visible ==> r == p
  {
    if visible then Reset(value) else p
  }

  /** Reopening forgets everything of the previous session. */
  lemma ReopenForgetsSession(p: Picker, q: Picker, value: DateTime)
    ensures OnVisibleChange(p, true, value) == OnVisibleChange(q, true, value)
  {
  }

  // ---------------------------------------------------------------------
  // The calendar page

  /** Weekday (0 = Sunday) of the first of the month on view. */
  function FirstWeekday(year: int, month: int): (w: int)
    requires 0 <= month < 12
    ensures 0 <= w < 7
  {
    Weekday(Date(year, month, 1))
  }

  function Placeholders(k: nat): (r: seq<Option<int>>)
    ensures |r| == k
  {
    seq(k, i => None)
  }

  function DayRun(n: nat): (r: seq<Option<int>>)
    ensures |r| == n
  {
    seq(n, i => Some(i + 1))
  }

  /** Number of day cells (the non-placeholders) of a page. */
  function CountDays(cells: seq<Option<int>>): nat {
    if cells == [] then 0
    else CountDays(cells[..|cells| - 1]) + (if cells[|cells| - 1].Some? then 1 else 0)
  }

  lemma {:induction false} CountDaysAppend(a: seq<Option<int>>, b: seq<Option<int>>)
    ensures CountDays(a + b) == CountDays(a) + CountDays(b)
    decreases |b|
  {
    if b != [] {
      CountDaysAppend(a, b[..|b| - 1]);
      assert (a + b)[..|a + b| - 1] == a + b[..|b| - 1];
    } else {
      assert a + b == a;
    }
  }

  lemma {:induction false} CountPlaceholders(k: nat)
    ensures CountDays(Placeholders(k)) == 0
  {
    if k > 0 {
      CountPlaceholders(k - 1);
      assert Placeholders(k)[..k - 1] == Placeholders(k - 1);
    }
  }

  lemma {:induction false} CountDayRun(n: nat)
    ensures CountDays(DayRun(n)) == n
  {
    if n > 0 {
      CountDayRun(n - 1);
      assert DayRun(n)[..n - 1] == DayRun(n - 1);
    }
  }

  /** A page with `first` leading and `t` trailing placeholders around the
      days 1..n holds exactly n days, each of 1..n once. */
  lemma PageContents(first: nat, n: nat, t: nat)
    ensures var page := Placeholders(first) + DayRun(n) + Placeholders(t);
      && CountDays(page) == n
      && forall d :: Some(d) in page <==> 1 <= d <= n
  {
    var page := Placeholders(first) + DayRun(n) + Placeholders(t);
    CountPlaceholders(first);
    CountDayRun(n);
    CountPlaceholders(t);
    CountDaysAppend(Placeholders(first), DayRun(n));
    CountDaysAppend(Placeholders(first) + DayRun(n), Placeholders(t));
    forall d | Some(d) in page
      ensures 1 <= d <= n
    {
      var i :| 0 <= i < |page| && page[i] == Some(d);
      assert first <= i < first + n;
    }
    forall d | 1 <= d <= n
      ensures Some(d) in page
    {
      assert page[first + d - 1] == Some(d);
    }
  }

  /** `calendarDays`: `firstDay` placeholders, the days 1..daysInMonth in
      order, then placeholders until the page is whole weeks. */
  method CalendarDays(viewYear: int, viewMonth: int) returns (cells: seq<Option<int>>)
    requires 0 <= viewMonth < 12
    ensures var first := FirstWeekday(viewYear, viewMonth);
      var n := DaysInMonth(viewYear, viewMonth);
      && |cells| % 7 == 0
      && first + n <= |cells| <= first + n + 6
      && cells == Placeholders(first) + DayRun(n) + Placeholders(|cells| - first - n)
    ensures CountDays(cells) == DaysInMonth(viewYear, viewMonth)
    ensures forall d :: Some(d) in cells <==> 1 <= d <= DaysInMonth(viewYear, viewMonth)
  {
    var daysInMonth := DaysInMonth(viewYear, viewMonth);
    var firstDay := FirstWeekday(viewYear, viewMonth);
    cells := [];
    var i := 0;
    while i < firstDay
      invariant 0 <= i <= firstDay
      invariant cells == Placeholders(i)
    {
      cells := cells + [None];
      i := i + 1;
    }
    var d := 1;
    while d <= daysInMonth
      invariant 1 <= d <= daysInMonth + 1
      invariant cells == Placeholders(firstDay) + DayRun(d - 1)
    {
      cells := cells + [Some(d)];
      d := d + 1;
    }
    cells := PadToWeeks(cells);
    PageContents(firstDay, daysInMonth, |cells| - firstDay - daysInMonth);
  }

  /** The trailing loop of `calendarDays`: placeholders are appended until
      the length is a multiple of seven, which takes at most six. */
  method PadToWeeks(body: seq<Option<int>>) returns (cells: seq<Option<int>>)
    ensures |cells| % 7 == 0
    ensures |body| <= |cells| < |body| + 7
    ensures cells == body + Placeholders(|cells| - |body|)
  {
    var need := (7 - |body| % 7) % 7;
    WeekRemainder(|body|);
    cells := body;
    var trailing := 0;
    while |cells| % 7 != 0
      invariant 0 <= trailing <= need
      invariant cells == body + Placeholders(trailing)
      decreases need - trailing
    {
      cells := cells + [None];
      trailing := trailing + 1;
    }
  }

  /** Adding `(7 - x % 7) % 7`, which is below seven, completes a week. */
  lemma WeekRemainder(x: nat)
    ensures 0 <= (7 - x % 7) % 7 < 7
    ensures (x + (7 - x % 7) % 7) % 7 == 0
  {
    var q := x / 7;
    assert x == 7 * q + x % 7;
    if x % 7 == 0 {
      assert x + (7 - x % 7) % 7 == 7 * q;
    } else {
      assert x + (7 - x % 7) % 7 == 7 * (q + 1);
    }
  }

  // ---------------------------------------------------------------------
  // Month navigation

  /** Months counted continuously across years. */
  function MonthIndex(year: int, month: int): int {
    12 * year + month
  }

  /** `prevMonth`: the month on view moves one back, from January to
      December of the year before; nothing else changes. */
  function PrevMonth(p: Picker): (r: Picker)
    requires 0 <= p.viewMonth < 12
    ensures 0 <= r.viewMonth < 12
    ensures MonthIndex(r.viewYear, r.viewMonth) == MonthIndex(p.viewYear, p.viewMonth) - 1
    ensures r == p.(viewYear := r.viewYear, viewMonth := r.viewMonth)
  {
    if p.viewMonth == 0 then p.(viewMonth := 11, viewYear := p.viewYear - 1)
    else p.(viewMonth := p.viewMonth - 1)
  }

  /** `nextMonth`: the month on view moves one forward, from December to
      January of the year after; nothing else changes. */
  function NextMonth(p: Picker): (r: Picker)
    requires 0 <= p.viewMonth < 12
    ensures 0 <= r.viewMonth < 12
    ensures MonthIndex(r.viewYear, r.viewMonth) == MonthIndex(p.viewYear, p.viewMonth) + 1
    ensures r == p.(viewYear := r.viewYear, viewMonth := r.viewMonth)
  {
    if p.viewMonth == 11 then p.(viewMonth := 0, viewYear := p.viewYear + 1)
    else p.(viewMonth := p.viewMonth + 1)
  }

  /** A month index names exactly one (year, month) pair. */
  lemma MonthIndexInjective(y1: int, m1: int, y2: int, m2: int)
    requires 0 <= m1 < 12 && 0 <= m2 < 12
    requires MonthIndex(y1, m1) == MonthIndex(y2, m2)
    ensures y1 == y2 && m1 == m2
  {
  }

  /** Going forward and back a month, in either order, returns to the same
      state. */
  lemma MonthNavigationInverse(p: Picker)
    requires 0 <= p.viewMonth < 12
    ensures PrevMonth(NextMonth(p)) == p
    ensures NextMonth(PrevMonth(p)) == p
  {
    var a := PrevMonth(NextMonth(p));
    MonthIndexInjective(a.viewYear, a.viewMonth, p.viewYear, p.viewMonth);
    var b := NextMonth(PrevMonth(p));
    MonthIndexInjective(b.viewYear, b.viewMonth, p.viewYear, p.viewMonth);
  }

  // ---------------------------------------------------------------------
  // Day selection

  /** `isSelected(day)`: the selection is that day of the month on view. */
  predicate IsSelected(p: Picker, day: int) {
    p.selected.day == day && p.selected.month == p.viewMonth && p.selected.year == p.viewYear
  }

  /** `isToday(day)`, with today's date passed in. */
  predicate IsToday(p: Picker, day: int, today: Date) {
    today.day == day && today.month == p.viewMonth && today.year == p.viewYear
  }

  /** The page shows a selected day exactly when the selection falls in
      the month on view, and then it is the selection's own day. */
  lemma SelectedOnPage(p: Picker)
    requires ValidDate(p.selected) && 0 <= p.viewMonth < 12
    ensures (exists d :: 1 <= d <= DaysInMonth(p.viewYear, p.viewMonth) && IsSelected(p, d))
      <==> p.selected.year == p.viewYear && p.selected.month == p.viewMonth
    ensures forall d :: IsSelected(p, d) ==> d == p.selected.day
  {
    if p.selected.year == p.viewYear && p.selected.month == p.viewMonth {
      assert IsSelected(p, p.selected.day);
    }
  }

  /** Likewise the today ring: some day of the page is today exactly when
      today falls in the month on view. */
  lemma TodayOnPage(p: Picker, today: Date)
    requires ValidDate(today) && 0 <= p.viewMonth < 12
    ensures (exists d :: 1 <= d <= DaysInMonth(p.viewYear, p.viewMonth) && IsToday(p, d, today))
      <==> today.year == p.viewYear && today.month == p.viewMonth
    ensures forall d :: IsToday(p, d, today) ==> d == today.day
  {
    if today.year == p.viewYear && today.month == p.viewMonth {
      assert IsToday(p, today.day, today);
    }
  }

  /** `selectDay(day)`: only the days of the page have a button. Afterwards
      exactly that day of the page is shown selected, and nothing else of
      the state changes. */
  function SelectDay(p: Picker, day: int): (r: Picker)
    requires 0 <= p.viewMonth < 12 && 1 <= day <= DaysInMonth(p.viewYear, p.viewMonth)
    ensures ValidDate(r.selected)
    ensures forall d :: IsSelected(r, d) <==> d == day
    ensures r == p.(selected := r.selected)
  {
    p.(selected := Date(p.viewYear, p.viewMonth, day))
  }

  // ---------------------------------------------------------------------
  // Hour and minute steppers

  /** Hour up: `(h + 1) % 24`. The operands are never negative, so
      JavaScript's `%` and Dafny's agree. From 23 it wraps to 0. */
  function HourUp(h: int): (r: int)
    requires 0 <= h < 24
    ensures r == if h == 23 then 0 else h + 1
  {
    (h + 1) % 24
  }

  /** Hour down: `(h - 1 + 24) % 24`. From 0 it wraps to 23. */
  function HourDown(h: int): (r: int)
    requires 0 <= h < 24
    ensures r == if h == 0 then 23 else h - 1
  {
    (h - 1 + 24) % 24
  }

  /** Minute up: `(m + 5) % 60`. From 55..59 it wraps to 0..4. */
  function MinuteUp(m: int): (r: int)
    requires 0 <= m < 60
    ensures r == if m >= 55 then m - 55 else m + 5
  {
    (m + 5) % 60
  }

  /** Minute down: `(m - 5 + 60) % 60`. From 0..4 it wraps to 55..59. */
  function MinuteDown(m: int): (r: int)
    requires 0 <= m < 60
    ensures r == if m < 5 then m + 55 else m - 5
  {
    (m - 5 + 60) % 60
  }

  /** Up then down, or down then up, is no change. */
  lemma StepsCancel(h: int, m: int)
    requires 0 <= h < 24 && 0 <= m < 60
    ensures HourDown(HourUp(h)) == h && HourUp(HourDown(h)) == h
    ensures MinuteDown(MinuteUp(m)) == m && MinuteUp(MinuteDown(m)) == m
  {
  }

  /** The hour after `n` presses of hour up. */
  function HourUps(h: int, n: nat): (r: int)
    requires 0 <= h < 24
    ensures 0 <= r < 24
  {
    if n == 0 then h else HourUp(HourUps(h, n - 1))
  }

  /** The minute after `n` presses of minute up. */
  function MinuteUps(m: int, n: nat): (r: int)
    requires 0 <= m < 60
    ensures 0 <= r < 60
  {
    if n == 0 then m else MinuteUp(MinuteUps(m, n - 1))
  }

  /** `n` hour-up presses move the hour by `n` modulo 24. */
  lemma {:induction false} HourUpsAdd(h: int, n: nat)
    requires 0 <= h < 24
    ensures HourUps(h, n) == (h + n) % 24
  {
    if n > 0 {
      HourUpsAdd(h, n - 1);
      var x := HourUps(h, n - 1);
      assert HourUps(h, n) == HourUp(x) == (x + 1) % 24;
      Mod24Step(h + n - 1);
    }
  }

  lemma Mod24Step(a: nat)
    ensures (a % 24 + 1) % 24 == (a + 1) % 24
  {
    var q := a / 24;
    assert a == 24 * q + a % 24;
  }

  /** `n` minute-up presses move the minute by `5 n` modulo 60. */
  lemma {:induction false} MinuteUpsAdd(m: int, n: nat)
    requires 0 <= m < 60
    ensures MinuteUps(m, n) == (m + 5 * n) % 60
  {
    if n > 0 {
      MinuteUpsAdd(m, n - 1);
      var x := MinuteUps(m, n - 1);
      assert MinuteUps(m, n) == MinuteUp(x) == (x + 5) % 60;
      Mod60Step(m + 5 * (n - 1));
    }
  }

  lemma Mod60Step(a: nat)
    ensures (a % 60 + 5) % 60 == (a + 5) % 60
  {
    var q := a / 60;
    assert a == 60 * q + a % 60;
  }

  /** Stepping the minute up keeps its remainder modulo 5, however often
      it steps: a minute on the five-minute grid stays on it, and one off
      the grid stays off it. */
  lemma {:induction false} MinuteUpsGrid(m: int, n: nat)
    requires 0 <= m < 60
    ensures MinuteUps(m, n) % 5 == m % 5
  {
    if n > 0 {
      MinuteUpsGrid(m, n - 1);
    }
  }

  /** Twenty-four hour-up presses come back to the start hour. */
  lemma HourCycle(h: int)
    requires 0 <= h < 24
    ensures HourUps(h, 24) == h
  {
    HourUpsAdd(h, 24);
    assert (h + 24) % 24 == h;
  }

  /** Twelve minute-up presses come back to the start minute. */
  lemma MinuteCycle(m: int)
    requires 0 <= m < 60
    ensures MinuteUps(m, 12) == m
  {
    MinuteUpsAdd(m, 12);
    assert (m + 5 * 12) % 60 == m;
  }

  // ---------------------------------------------------------------------
  // The 12-hour preview

  /** `hours % 12 || 12`. */
  function DisplayHour(hours: int): (r: int)
    requires 0 <= hours < 24
    ensures 1 <= r <= 12
    ensures r == 12 <==> hours == 0 || hours == 12
    ensures r != 12 ==> r == (if hours > 12 then hours - 12 else hours)
  {
    if hours % 12 == 0 then 12 else hours % 12
  }

  function AmPm(hours: int): string {
    if hours >= 12 then "PM" else "AM"
  }

  /** `formatAmPm()`: "h:mm AM" or "h:mm PM". */
  function FormatAmPm(hours: int, minutes: int): string
    requires 0 <= hours < 24 && 0 <= minutes < 60
  {
    NatToString(DisplayHour(hours)) + ":" + Pad(minutes) + " " + AmPm(hours)
  }

  /** The preview's layout: one or two hour digits, a colon, exactly two
      minute digits, then the suffix, PM from noon on. */
  lemma FormatAmPmShape(hours: int, minutes: int)
    requires 0 <= hours < 24 && 0 <= minutes < 60
    ensures var r := FormatAmPm(hours, minutes);
      && 7 <= |r| <= 8
      && r[|r| - 3..] == (if hours >= 12 then " PM" else " AM")
      && r[|r| - 6] == ':' && AllDigits(r[..|r| - 6])
      && AllDigits(r[|r| - 5..|r| - 3]) && DigitsValue(r[|r| - 5..|r| - 3]) == minutes
  {
    var hs, ms, suffix := NatToString(DisplayHour(hours)), Pad(minutes), AmPm(hours);
    PadTwoDigits(minutes);
    HourTextShort(DisplayHour(hours));
    AmPmTextShape(hs, ms, suffix, hours, minutes);
  }

  lemma AmPmTextShape(hs: string, ms: string, suffix: string, hours: int, minutes: int)
    requires 1 <= |hs| <= 2 && AllDigits(hs)
    requires |ms| == 2 && AllDigits(ms) && DigitsValue(ms) == minutes
    requires suffix == if hours >= 12 then "PM" else "AM"
    ensures var r := hs + ":" + ms + " " + suffix;
      && 7 <= |r| <= 8
      && r[|r| - 3..] == (if hours >= 12 then " PM" else " AM")
      && r[|r| - 6] == ':' && AllDigits(r[..|r| - 6])
      && AllDigits(r[|r| - 5..|r| - 3]) && DigitsValue(r[|r| - 5..|r| - 3]) == minutes
  {
    var r := hs + ":" + ms + " " + suffix;
    TimeTextLayout(hs, ms, suffix);
    assert |r| - 6 == |hs|;
  }

  /** A 12-hour clock hour takes one or two digits. */
  lemma HourTextShort(h: nat)
    requires h <= 12
    ensures |NatToString(h)| <= 2
  {
    if h >= 10 {
      assert |NatToString(h / 10)| == 1;
    }
  }

  /** Reads "h:mm AM" / "h:mm PM" back into 24-hour hours and minutes:
      the inverse the preview is checked against. */
  function ParseAmPm(s: string): Option<(int, int)> {
    var k := IndexOf(s, ':');
    if k < 1 || |s| != k + 6 then None
    else ReadTime(s[..k], s[k + 1..k + 3], s[k + 3..])
  }

  /** The hour digits, the minute digits and the " AM"/" PM" tail. */
  function ReadTime(hs: string, ms: string, rest: string): Option<(int, int)> {
    if !AllDigits(hs) || !AllDigits(ms) || (rest != " AM" && rest != " PM") then None
    else
      var h12 := DigitsValue(hs);
      if h12 < 1 || h12 > 12 then None
      else Some(((if h12 == 12 then 0 else h12) + (if rest == " PM" then 12 else 0), DigitsValue(ms)))
  }

  /** The preview loses nothing: the hour shown is 1..12 (0 and 12 both
      show as 12), the suffix is PM exactly from noon on, the minutes show
      as two digits, and reading the text back gives the time. */
  lemma FormatAmPmRoundTrip(hours: int, minutes: int)
    requires 0 <= hours < 24 && 0 <= minutes < 60
    ensures ParseAmPm(FormatAmPm(hours, minutes)) == Some((hours, minutes))
  {
    var h12 := DisplayHour(hours);
    var hs, ms, suffix := NatToString(h12), Pad(minutes), AmPm(hours);
    PadTwoDigits(minutes);
    NatToStringRoundTrip(h12);
    assert FormatAmPm(hours, minutes) == hs + ":" + ms + " " + suffix;
    ParseAmPmPieces(hs, ms, suffix);
    var h := (if h12 == 12 then 0 else h12) + (if suffix == "PM" then 12 else 0);
    assert DigitsValue(hs) == h12;
    assert h == hours by {
      if hours >= 12 {
        assert suffix == "PM";
      } else {
        assert suffix == "AM";
        assert suffix != "PM" by { assert suffix[0] != "PM"[0]; }
      }
    }
  }

  /** Where the pieces of "h:mm AM" sit: the colon right after the hour
      digits, the minutes next, the suffix last. */
  lemma TimeTextLayout(hs: string, ms: string, suffix: string)
    requires AllDigits(hs) && |ms| == 2 && |suffix| == 2
    ensures var s := hs + ":" + ms + " " + suffix;
      var k := |hs|;
      && IndexOf(s, ':') == k && |s| == k + 6
      && s[..k] == hs && s[k + 1..k + 3] == ms && s[k + 3..] == " " + suffix
  {
    var s := hs + ":" + ms + " " + suffix;
    var k := |hs|;
    assert s[..k] == hs;
    assert ':' !in hs by {
      assert forall i :: 0 <= i < |hs| ==> IsDigit(hs[i]);
    }
    IndexOfAt(s, ':', k);
    assert s[k + 1..k + 3] == ms;
    assert s[k + 3..] == " " + suffix;
  }

  /** Reading back text assembled from an hour in digits, two minute
      digits and a suffix. */
  lemma ParseAmPmPieces(hs: string, ms: string, suffix: string)
    requires |hs| >= 1 && AllDigits(hs) && 1 <= DigitsValue(hs) <= 12
    requires |ms| == 2 && AllDigits(ms)
    requires suffix == "AM" || suffix == "PM"
    ensures ParseAmPm(hs + ":" + ms + " " + suffix)
      == Some(((if DigitsValue(hs) == 12 then 0 else DigitsValue(hs)) + (if suffix == "PM" then 12 else 0), DigitsValue(ms)))
  {
    var s := hs + ":" + ms + " " + suffix;
    TimeTextLayout(hs, ms, suffix);
    ParseAmPmAt(s, |hs|);
    ReadTimeSuffix(hs, ms, suffix);
  }

  /** With the colon at `k` and six characters from it on, the text splits
      into hour digits, minute digits and the suffix. */
  lemma ParseAmPmAt(s: string, k: int)
    requires k >= 1 && IndexOf(s, ':') == k && |s| == k + 6
    ensures ParseAmPm(s) == ReadTime(s[..k], s[k + 1..k + 3], s[k + 3..])
  {
  }

  lemma ReadTimeSuffix(hs: string, ms: string, suffix: string)
    requires AllDigits(hs) && 1 <= DigitsValue(hs) <= 12 && AllDigits(ms)
    requires suffix == "AM" || suffix == "PM"
    ensures ReadTime(hs, ms, " " + suffix)
      == Some(((if DigitsValue(hs) == 12 then 0 else DigitsValue(hs)) + (if suffix == "PM" then 12 else 0), DigitsValue(ms)))
  {
    var rest := " " + suffix;
    assert rest == " PM" <==> suffix == "PM" by {
      if suffix == "AM" {
        assert rest[1] != " PM"[1];
      }
    }
  }

  // ---------------------------------------------------------------------
  // Confirming

  /** `handleConfirm`: the selected day at the chosen hour and minute, with
      seconds and milliseconds zero. */
  function Confirm(p: Picker): (t: DateTime)
    requires Valid(p)
    ensures ValidDateTime(t)
    ensures t.date == p.selected && t.hour == p.hours && t.minute == p.minutes
    ensures t.second == 0 && t.millisecond == 0
  {
    DateTime(p.selected, p.hours, p.minutes, 0, 0)
  }

  /** Opening on a value and confirming at once gives the value back, to
      the minute. */
  lemma OpenConfirmRoundTrip(value: DateTime)
    requires ValidDateTime(value)
    ensures Valid(Reset(value))
    ensures Confirm(Reset(value)) == value.(second := 0, millisecond := 0)
  {
  }

  // ---------------------------------------------------------------------
  // A whole session

  /** The buttons of the open sheet. */
  datatype Press =
    | PrevMonthPress
    | NextMonthPress
    | DayPress(day: int)
    | TabPress(to: Tab)
    | HourUpPress
    | HourDownPress
    | MinuteUpPress
    | MinuteDownPress

  /** Whether the button can be pressed: a day button exists only for the
      days of the page on view. The tab is not consulted, so presses of
      buttons the open tab hides are allowed too, which over-approximates
      what the sheet lets the user do. */
  predicate Enabled(p: Picker, e: Press)
    requires Valid(p)
  {
    e.DayPress? ==> 1 <= e.day <= DaysInMonth(p.viewYear, p.viewMonth)
  }

  function Step(p: Picker, e: Press): (r: Picker)
    requires Valid(p) && Enabled(p, e)
    ensures Valid(r)
  {
    match e
    case PrevMonthPress => PrevMonth(p)
    case NextMonthPress => NextMonth(p)
    case DayPress(d) => SelectDay(p, d)
    case TabPress(t) => p.(tab := t)
    case HourUpPress => p.(hours := HourUp(p.hours))
    case HourDownPress => p.(hours := HourDown(p.hours))
    case MinuteUpPress => p.(minutes := MinuteUp(p.minutes))
    case MinuteDownPress => p.(minutes := MinuteDown(p.minutes))
  }

  /** Every press of the sequence hits an existing button. */
  predicate AllEnabled(p: Picker, es: seq<Press>)
    requires Valid(p)
    decreases |es|
  {
    es == [] || (Enabled(p, es[0]) && AllEnabled(Step(p, es[0]), es[1..]))
  }

  function Run(p: Picker, es: seq<Press>): Picker
    requires Valid(p) && AllEnabled(p, es)
    decreases |es|
  {
    if es == [] then p else Run(Step(p, es[0]), es[1..])
  }

  /** Whatever the user presses after opening on a real date, the state
      stays in range and confirming yields a real date and time of day. */
  lemma {:induction false} SessionStaysValid(p: Picker, es: seq<Press>)
    requires Valid(p) && AllEnabled(p, es)
    ensures Valid(Run(p, es))
    ensures ValidDateTime(Confirm(Run(p, es)))
    decreases |es|
  {
    if es != [] {
      SessionStaysValid(Step(p, es[0]), es[1..]);
    }
  }

  /** Steppers and navigation never move the selection; only day presses
      do. */
  lemma {:induction false} SelectionOnlyByDayPress(p: Picker, es: seq<Press>)
    requires Valid(p) && AllEnabled(p, es)
    ensures (forall i :: 0 <= i < |es| ==> !es[i].DayPress?) ==> Run(p, es).selected == p.selected
    decreases |es|
  {
    if es != [] {
      SelectionOnlyByDayPress(Step(p, es[0]), es[1..]);
      if forall i :: 0 <= i < |es| ==> !es[i].DayPress? {
        assert forall i :: 0 <= i < |es| - 1 ==> es[1..][i] == es[i + 1];
      }
    }
  }
}

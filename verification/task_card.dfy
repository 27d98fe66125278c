/** The task card: the due-date badge (`getDateInfo` and its colour), the
    masking of date information on finished tasks, and the two-tap delete
    button. The clock and `new Date(dueDate)` are passed in: `today` is the
    current local date and `parsed` the local fields of the parsed due
    date, None when it is an Invalid Date. */
module TaskCard {
  import opened Wrappers
  import opened Text
  import opened Civil
  import opened Database

  /** What the badge shows: the label (`caption`; None is `null`) and the
      two flags. */
  datatype DateInfo = DateInfo(caption: Option<string>, isOverdue: bool, isSoon: bool)

  const NoDateInfo := DateInfo(None, false, false)

  /** Calendar days from today's midnight to the target's midnight. */
  function DiffDays(target: Date, today: Date): int
    requires 0 <= target.month < 12 && 0 <= today.month < 12
  {
    DayNumber(target) - DayNumber(today)
  }

  /** "{n}d overdue". */
  function OverdueLabel(n: nat): (r: string)
    ensures |r| >= 10
  {
    NatToString(n) + "d overdue"
  }

  lemma ShortMonthDayShape(d: Date)
    requires ValidDate(d)
    ensures 5 <= |ShortMonthDay(d)|
    ensures |ShortMonthDay(d)| <= 6
    ensures ShortMonthDay(d)[3] == ' '
  {
    var m, n := MonthAbbrev(d.month), NatToString(d.day);
    assert ShortMonthDay(d) == m + " " + n;
    if d.day >= 10 {
      assert |NatToString(d.day / 10)| == 1;
      assert |n| == 2;
    } else {
      assert |n| == 1;
    }
    assert |m + " " + n| == 4 + |n|;
    assert (m + " " + n)[3] == ' ';
  }

  /** The label of a valid due date `diff` days away. */
  function DueLabel(diff: int, due: Date): (r: string)
    requires ValidDate(due)
    ensures r == "Today" <==> diff == 0
    ensures r == "Tomorrow" <==> diff == 1
    ensures diff < 0 <==> |r| >= 10
    ensures diff < 0 ==> r == OverdueLabel(-diff)
    ensures diff >= 2 ==> r == ShortMonthDay(due)
  {
    ShortMonthDayShape(due);
    if diff < 0 then OverdueLabel(-diff)
    else if diff == 0 then "Today"
    else if diff == 1 then "Tomorrow"
    else
      var s := ShortMonthDay(due);
      assert s != "Today" by { assert s[3] != "Today"[3]; }
      s
  }

  /** `getDateInfo(dateStr)`. A null or empty string gives no label; an
      unparsable one gives the label "Invalid Date" with neither flag,
      because every comparison with NaN is false. */
  function GetDateInfo(dateStr: Option<string>, parsed: Option<DateTime>, today: Date): (info: DateInfo)
    requires ValidDate(today)
    requires parsed.Some? ==> ValidDateTime(parsed.value)
    ensures dateStr == None || dateStr == Some("") ==> info == NoDateInfo
    ensures !(info.isOverdue && info.isSoon)
    ensures info.caption == None <==> dateStr == None || dateStr == Some("")
    ensures info.caption.Some? && parsed.None? ==> info == DateInfo(Some("Invalid Date"), false, false)
    ensures info.caption.Some? && parsed.Some? ==>
      var diff := DiffDays(parsed.value.date, today);
      && info.caption.value == DueLabel(diff, parsed.value.date)
      && (info.isOverdue <==> diff < 0)
      && (info.isSoon <==> diff == 0 || diff == 1)
  {
    if dateStr == None || dateStr == Some("") then NoDateInfo
    else
      match parsed
      case None => DateInfo(Some("Invalid Date"), false, false)
      case Some(d) =>
        var diff := DiffDays(d.date, today);
        DateInfo(Some(DueLabel(diff, d.date)), diff < 0, diff == 0 || diff == 1)
  }

  /** The time of day of the due date plays no part. */
  lemma TimeOfDayIgnored(dateStr: Option<string>, t1: DateTime, t2: DateTime, today: Date)
    requires ValidDate(today) && ValidDateTime(t1) && ValidDateTime(t2)
    requires t1.date == t2.date
    ensures GetDateInfo(dateStr, Some(t1), today) == GetDateInfo(dateStr, Some(t2), today)
  {
  }

  /** Day numbers compare like calendar order, in both directions. */
  lemma DayNumberLessIff(a: Date, b: Date)
    requires ValidDate(a) && ValidDate(b)
    ensures DayNumber(a) < DayNumber(b) <==> Before(a, b)
  {
    DayNumberOrdered(a, b);
    DayNumberOrdered(b, a);
    DayNumberInjective(a, b);
  }

  /** For a present, parsable due date: it is overdue exactly when its day
      is before today, labelled "Today" exactly when it is today and
      "Tomorrow" exactly when it is the next calendar day; it is soon in
      those two cases only. */
  lemma DueClassification(dateStr: string, due: DateTime, today: Date)
    requires dateStr != "" && ValidDate(today) && ValidDateTime(due)
    ensures var info := GetDateInfo(Some(dateStr), Some(due), today);
      && (info.isOverdue <==> Before(due.date, today))
      && (info.caption == Some("Today") <==> due.date == today)
      && (info.caption == Some("Tomorrow") <==> due.date == NextDay(today))
      && (info.isSoon <==> due.date == today || due.date == NextDay(today))
  {
    DayNumberLessIff(due.date, today);
    DayNumberInjective(due.date, today);
    DayNumberInjective(due.date, NextDay(today));
  }

  /** An overdue label carries the number of days late. */
  lemma OverdueLabelCounts(dateStr: string, due: DateTime, today: Date)
    requires dateStr != "" && ValidDate(today) && ValidDateTime(due)
    requires Before(due.date, today)
    ensures var info := GetDateInfo(Some(dateStr), Some(due), today);
      && info.caption.Some?
      && |info.caption.value| >= 10
      && info.caption.value[..|info.caption.value| - 9] == NatToString(DayNumber(today) - DayNumber(due.date))
  {
    DayNumberLessIff(due.date, today);
    var n := DayNumber(today) - DayNumber(due.date);
    assert OverdueLabel(n)[..|OverdueLabel(n)| - 9] == NatToString(n);
  }

  /** The card's date information: always empty for a finished task. */
  function CardDateInfo(task: Task, parsed: Option<DateTime>, today: Date): (info: DateInfo)
    requires ValidDate(today)
    requires parsed.Some? ==> ValidDateTime(parsed.value)
    ensures task.status == Done ==> info == NoDateInfo
    ensures task.status != Done ==> info == GetDateInfo(task.dueDate, parsed, today)
  {
    if task.status == Done then NoDateInfo else GetDateInfo(task.dueDate, parsed, today)
  }

  /** Colour roles of the card; the priority dot comes from the priority
      style, the others from the theme. */
  datatype ColorRole = PriorityDot | Primary | TextTertiary

  /** `dateColor`. */
  function DateColor(info: DateInfo): (c: ColorRole)
    ensures c == PriorityDot <==> info.isOverdue
    ensures c == Primary <==> !info.isOverdue && info.isSoon
    ensures c == TextTertiary <==> !info.isOverdue && !info.isSoon
  {
    if info.isOverdue then PriorityDot
    else if info.isSoon then Primary
    else TextTertiary
  }

  /** The badge colour of a card, in calendar terms: the priority dot for
      an unfinished task due before today, the primary colour for one due
      today or tomorrow, the tertiary text colour for everything else,
      finished tasks included. */
  lemma CardDateColor(task: Task, parsed: Option<DateTime>, today: Date)
    requires ValidDate(today)
    requires parsed.Some? ==> ValidDateTime(parsed.value)
    ensures var c := DateColor(CardDateInfo(task, parsed, today));
      var live := task.status != Done && task.dueDate.Some? && task.dueDate != Some("") && parsed.Some?;
      && (c == PriorityDot <==> live && Before(parsed.value.date, today))
      && (c == Primary <==> live && (parsed.value.date == today || parsed.value.date == NextDay(today)))
  {
    if task.status != Done && task.dueDate.Some? && task.dueDate != Some("") && parsed.Some? {
      DueClassification(task.dueDate.value, parsed.value, today);
    }
  }

  // ---------------------------------------------------------------------
  // The two-tap delete button

  /** What happens on the card: a press of the delete button, or the
      timer set by arming running out. */
  datatype DeleteEvent = Press | TimerFires

  /** One event applied to `confirmDelete`; the second component says
      whether `onDelete` was called. A press while armed calls it (when
      the card has one) and leaves the button armed; a press while
      disarmed only arms. */
  function DeleteStep(armed: bool, hasOnDelete: bool, e: DeleteEvent): (r: (bool, bool))
    ensures e == Press ==> r.0 && (r.1 <==> armed && hasOnDelete)
    ensures e == TimerFires ==> r == (false, false)
  {
    match e
    case Press => if armed then (true, hasOnDelete) else (true, false)
    case TimerFires => (false, false)
  }

  /** The number of `onDelete` calls over a run of events. */
  function DeleteCalls(armed: bool, hasOnDelete: bool, es: seq<DeleteEvent>): nat
    decreases |es|
  {
    if es == [] then 0
    else
      var (a, called) := DeleteStep(armed, hasOnDelete, es[0]);
      (if called then 1 else 0) + DeleteCalls(a, hasOnDelete, es[1..])
  }

  /** No two presses in a row without the timer between them. */
  predicate NoDoubleTap(es: seq<DeleteEvent>) {
    forall i :: 0 <= i < |es| - 1 ==> !(es[i] == Press && es[i + 1] == Press)
  }

  /** Starting disarmed, a single tap never deletes: `onDelete` is only
      called by a press that directly follows another press. */
  lemma {:induction false} SingleTapsNeverDelete(hasOnDelete: bool, es: seq<DeleteEvent>)
    requires NoDoubleTap(es)
    ensures DeleteCalls(false, hasOnDelete, es) == 0
    decreases |es|
  {
    if es != [] {
      var rest := es[1..];
      assert NoDoubleTap(rest) by {
        forall i | 0 <= i < |rest| - 1
          ensures !(rest[i] == Press && rest[i + 1] == Press)
        {
          assert rest[i] == es[i + 1] && rest[i + 1] == es[i + 2];
        }
      }
      if es[0] == Press && rest != [] {
        assert rest[0] == TimerFires by { assert es[1] == rest[0]; }
        var r2 := rest[1..];
        assert NoDoubleTap(r2) by {
          forall i | 0 <= i < |r2| - 1
            ensures !(r2[i] == Press && r2[i + 1] == Press)
          {
            assert r2[i] == es[i + 2] && r2[i + 1] == es[i + 3];
          }
        }
        SingleTapsNeverDelete(hasOnDelete, r2);
        assert DeleteCalls(true, hasOnDelete, rest) == DeleteCalls(false, hasOnDelete, r2);
      } else if es[0] == TimerFires {
        SingleTapsNeverDelete(hasOnDelete, rest);
      }
    }
  }

  /** Whatever came before, two presses in a row on a card with a delete
      handler end in a delete; on a fresh card they delete exactly once. */
  lemma {:induction false} DoubleTapDeletes(armed: bool, es: seq<DeleteEvent>)
    ensures DeleteCalls(armed, true, es + [Press, Press]) >= 1
    ensures !armed && es == [] ==> DeleteCalls(armed, true, es + [Press, Press]) == 1
    decreases |es|
  {
    var t := [Press, Press];
    if es == [] {
      assert es + t == t && t[1..] == [Press] && [Press][1..] == [];
    } else {
      assert (es + t)[0] == es[0] && (es + t)[1..] == es[1..] + t;
      DoubleTapDeletes(DeleteStep(armed, true, es[0]).0, es[1..]);
    }
  }
}

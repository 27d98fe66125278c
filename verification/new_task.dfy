/** The new-task form: its default due date, the date-and-time line, the
    create button, validation and the insert payload, the category
    selection and its link rows, and the date picker it hosts. The clock
    is a parameter (`now`), and `toLocaleTimeString` is passed in as text
    already formatted. */
module NewTask {
  import opened Wrappers
  import opened Text
  import opened Civil
  import opened Database
  import opened Sequences
  import DateTimePicker
  import TaskCard

  /** The recurrence choices of the form. */
  datatype Recurrence = NoRecurrence | Daily | Weekly

  function RecurrenceName(r: Recurrence): string {
    match r
    case NoRecurrence => "none"
    case Daily => "daily"
    case Weekly => "weekly"
  }

  // ---------------------------------------------------------------------
  // Default due date and its display

  /** `getDefaultDueDate`: tomorrow (rolling over month and year ends, as
      `setDate(getDate() + 1)` does) at 09:00:00.000. */
  function DefaultDueDate(now: DateTime): (d: DateTime)
    requires ValidDateTime(now)
    ensures ValidDateTime(d)
    ensures DayNumber(d.date) == DayNumber(now.date) + 1
    ensures d.hour == 9 && d.minute == 0 && d.second == 0 && d.millisecond == 0
  {
    DateTime(NextDay(now.date), 9, 0, 0, 0)
  }

  /** The default due date is labelled "Tomorrow" on a task card shown the
      same day, and counts as soon, not overdue. */
  lemma DefaultDueIsTomorrow(now: DateTime, stored: string)
    requires ValidDateTime(now) && stored != ""
    ensures TaskCard.GetDateInfo(Some(stored), Some(DefaultDueDate(now)), now.date)
      == TaskCard.DateInfo(Some("Tomorrow"), false, true)
  {
  }

  /** The separator between the date and the time: two spaces, a bullet
      and two spaces. */
  const Separator := "  •  "

  /** The date half of the line: "Jun 20, 2025". */
  function DateText(d: Date): string
    requires ValidDate(d)
  {
    ShortMonthDay(d) + ", " + IntToString(d.year)
  }

  /** `formatDateTime(date)`: "Jun 20, 2025  •  9:00 AM", with the locale
      time text supplied. The line splits uniquely into the date, the
      separator and the time text. */
  function FormatDateTime(d: DateTime, timeText: string): (r: string)
    requires ValidDate(d.date)
    ensures var p := DateText(d.date);
      && |r| == |p| + |Separator| + |timeText|
      && r[..|p|] == p
      && r[|p|..|p| + |Separator|] == Separator
      && r[|p| + |Separator|..] == timeText
  {
    var p := DateText(d.date);
    var r := p + Separator + timeText;
    assert r[..|p|] == p;
    assert r[|p|..|p| + |Separator|] == Separator;
    assert r[|p| + |Separator|..] == timeText;
    r
  }

  /** The line names the date unambiguously: two moments with the same
      time text give the same line only when they fall on the same day. */
  lemma FormatDateTimeDeterminesDate(d1: DateTime, d2: DateTime, timeText: string)
    requires ValidDate(d1.date) && ValidDate(d2.date)
    requires FormatDateTime(d1, timeText) == FormatDateTime(d2, timeText)
    ensures d1.date == d2.date
  {
    var r := FormatDateTime(d1, timeText);
    var p1, p2 := DateText(d1.date), DateText(d2.date);
    assert |p1| == |p2|;
    assert p1 == r[..|p1|] == p2;
    DateTextInjective(d1.date, d2.date);
  }

  lemma DateTextInjective(a: Date, b: Date)
    requires ValidDate(a) && ValidDate(b) && DateText(a) == DateText(b)
    ensures a == b
  {
    var ma, mb := MonthAbbrev(a.month), MonthAbbrev(b.month);
    var xa, xb := NatToString(a.day), NatToString(b.day);
    var ya, yb := IntToString(a.year), IntToString(b.year);
    NatToStringRoundTrip(a.day);
    NatToStringRoundTrip(b.day);
    FieldsSplit(ma, xa, ya, mb, xb, yb);
    MonthAbbrevInjective(a.month, b.month);
    NatToStringInjective(a.day, b.day);
    IntToStringInjective(a.year, b.year);
  }

  /** "Jun 20, 2025" splits back into its three fields: the month is three
      letters long and the day is all digits, so the comma ends it. */
  lemma FieldsSplit(m1: string, x1: string, y1: string, m2: string, x2: string, y2: string)
    requires |m1| == 3 && |m2| == 3 && AllDigits(x1) && AllDigits(x2)
    requires m1 + " " + x1 + ", " + y1 == m2 + " " + x2 + ", " + y2
    ensures m1 == m2 && x1 == x2 && y1 == y2
  {
    Regroup(m1, " ", x1, ", ", y1);
    Regroup(m2, " ", x2, ", ", y2);
    SplitAt(m1, " " + (x1 + (", " + y1)), m2, " " + (x2 + (", " + y2)));
    SplitAt(" ", x1 + (", " + y1), " ", x2 + (", " + y2));
    CommaAfterDigits(x1, y1);
    CommaAfterDigits(x2, y2);
    SplitAt(x1, ", " + y1, x2, ", " + y2);
    SplitAt(", ", y1, ", ", y2);
  }

  lemma Regroup(a: string, b: string, c: string, d: string, e: string)
    ensures a + b + c + d + e == a + (b + (c + (d + e)))
  {
  }

  /** Two concatenations with equally long heads split the same way. */
  lemma SplitAt(p: string, q: string, u: string, v: string)
    requires p + q == u + v && |p| == |u|
    ensures p == u && q == v
  {
    assert p == (p + q)[..|p|];
    assert q == (p + q)[|p|..];
    assert u == (u + v)[..|u|];
    assert v == (u + v)[|u|..];
  }

  /** The first comma after a run of digits is the one that ends it. */
  lemma CommaAfterDigits(x: string, y: string)
    requires AllDigits(x)
    ensures IndexOf(x + (", " + y), ',') == |x|
  {
    var t := x + (", " + y);
    assert t[..|x|] == x;
    assert ',' !in x by {
      forall i | 0 <= i < |x|
        ensures x[i] != ','
      {
        assert IsDigit(x[i]);
      }
    }
    IndexOfAt(t, ',', |x|);
  }

  // ---------------------------------------------------------------------
  // The form

  datatype Form = Form(
    title: string,
    description: string,
    priority: Priority,
    dueDate: DateTime,
    showPicker: bool,
    selected: seq<string>,
    recurrence: Recurrence,
    loading: bool,
    error: Option<string>
  )

  /** The form as it opens. */
  function InitialForm(now: DateTime): (f: Form)
    requires ValidDateTime(now)
    ensures f.title == "" && f.description == "" && f.priority == Medium
    ensures f.dueDate == DefaultDueDate(now) && !f.showPicker
    ensures f.selected == [] && f.recurrence == NoRecurrence
    ensures !f.loading && f.error == None
  {
    Form("", "", Medium, DefaultDueDate(now), false, [], NoRecurrence, false, None)
  }

  const TitleError := "Please enter a task title"

  /** Typing in the title field clears the error. */
  function TitleChanged(f: Form, t: string): (g: Form)
    ensures g.title == t && g.error == None
    ensures g == f.(title := t, error := None)
  {
    f.(title := t, error := None)
  }

  /** `disabled={loading || !title.trim()}`. */
  predicate CreateDisabled(f: Form)
    ensures !CreateDisabled(f) <==> !f.loading && !IsBlank(f.title)
  {
    f.loading || Trim(f.title) == []
  }

  /** The columns `handleCreate` inserts. The due date is sent as
      `toISOString()`; the model keeps the date and time it encodes. */
  datatype TaskInsert = TaskInsert(
    userId: string,
    title: string,
    description: Option<string>,
    priority: Priority,
    dueDate: DateTime,
    status: TaskStatus,
    position: int,
    isRecurring: bool,
    recurrencePattern: Option<string>
  )

  /** `description.trim() || null`. */
  function DescriptionColumn(description: string): (d: Option<string>)
    ensures d == None <==> IsBlank(description)
    ensures d.Some? ==> d.value == Trim(description) && d.value != []
  {
    var t := Trim(description);
    if t == [] then None else Some(t)
  }

  /** The payload for a form and a signed-in user. */
  function Payload(f: Form, userId: string): (p: TaskInsert)
    ensures p.userId == userId && p.title == Trim(f.title)
    ensures p.description == DescriptionColumn(f.description)
    ensures p.priority == f.priority && p.dueDate == f.dueDate
    ensures p.status == Todo && p.position == 0
    ensures p.isRecurring <==> f.recurrence != NoRecurrence
    ensures p.recurrencePattern == None <==> f.recurrence == NoRecurrence
    ensures p.recurrencePattern.Some? ==> p.recurrencePattern.value == RecurrenceName(f.recurrence)
  {
    TaskInsert(
      userId,
      Trim(f.title),
      DescriptionColumn(f.description),
      f.priority,
      f.dueDate,
      Todo,
      0,
      f.recurrence != NoRecurrence,
      if f.recurrence == NoRecurrence then None else Some(RecurrenceName(f.recurrence)))
  }

  /** `handleCreate` up to the insert: a blank title sets the error and
      inserts nothing; with no signed-in user nothing happens; otherwise
      the form starts loading with no error and the payload is inserted. */
  function HandleCreate(f: Form, user: Option<string>): (r: (Form, Option<TaskInsert>))
    ensures IsBlank(f.title) ==> r == (f.(error := Some(TitleError)), None)
    ensures !IsBlank(f.title) && user == None ==> r == (f, None)
    ensures !IsBlank(f.title) && user.Some? ==>
      r == (f.(loading := true, error := None), Some(Payload(f, user.value)))
  {
    if Trim(f.title) == [] then (f.(error := Some(TitleError)), None)
    else if user == None then (f, None)
    else (f.(loading := true, error := None), Some(Payload(f, user.value)))
  }

  /** Every inserted task has a title with something in it. */
  lemma InsertedTitleNotBlank(f: Form, user: Option<string>)
    ensures var p := HandleCreate(f, user).1;
      p.Some? ==> Trim(p.value.title) != []
  {
    if Trim(f.title) != [] && user.Some? {
      TrimIdempotent(f.title);
      assert HandleCreate(f, user).1 == Some(Payload(f, user.value));
    }
  }

  /** For a signed-in user with no request running, the button is enabled
      exactly when pressing it sends a task. */
  lemma EnabledIffInserts(f: Form, userId: string)
    requires !f.loading
    ensures !CreateDisabled(f) <==> HandleCreate(f, Some(userId)).1.Some?
    ensures !CreateDisabled(f) ==> HandleCreate(f, Some(userId)).0.loading
  {
    if IsBlank(f.title) {
      assert HandleCreate(f, Some(userId)).1 == None;
    }
  }

  /** Pressing the enabled button never raises the title error. */
  lemma EnabledButtonNoTitleError(f: Form, user: Option<string>)
    requires !CreateDisabled(f) && f.error == None
    ensures HandleCreate(f, user).0.error == None
  {
    assert !IsBlank(f.title);
  }

  /** A failed insert stops the spinner. */
  function InsertFailed(f: Form): (g: Form)
    ensures !g.loading && g == f.(loading := false)
  {
    f.(loading := false)
  }

  // ---------------------------------------------------------------------
  // Category selection

  predicate NoDuplicates(s: seq<string>) {
    forall i, j :: 0 <= i < j < |s| ==> s[i] != s[j]
  }

  /** The ids of `s` other than `id`, in order. */
  function Without(s: seq<string>, id: string): (r: seq<string>)
    ensures Sublist(r, s)
    ensures id !in r
    ensures forall x :: x != id ==> (x in r <==> x in s)
    ensures |r| <= |s|
    ensures NoDuplicates(s) ==> NoDuplicates(r)
    ensures id !in s ==> r == s
    decreases |s|
  {
    if s == [] then []
    else
      var rest := Without(s[1..], id);
      assert forall x :: x in s <==> x == s[0] || x in s[1..];
      if s[0] == id then rest
      else
        var r := [s[0]] + rest;
        assert NoDuplicates(s) ==> s[0] !in s[1..];
        assert r[0] == s[0] && r[1..] == rest;
        r
  }

  /** `toggleCategory(id)`: removes the id if selected, appends it
      otherwise. */
  function ToggleCategory(s: seq<string>, id: string): (r: seq<string>)
    ensures id in r <==> id !in s
    ensures forall x :: x != id ==> (x in r <==> x in s)
    ensures NoDuplicates(s) ==> NoDuplicates(r)
    ensures id in s ==> Sublist(r, s)
    ensures id !in s ==> r == s + [id]
  {
    if id in s then Without(s, id) else s + [id]
  }

  /** Toggling an unselected id twice gives the selection back. */
  lemma ToggleTwiceRestores(s: seq<string>, id: string)
    requires id !in s
    ensures ToggleCategory(ToggleCategory(s, id), id) == s
  {
    var t := s + [id];
    assert id in t;
    WithoutAppended(s, id);
  }

  lemma {:induction false} WithoutAppended(s: seq<string>, id: string)
    requires id !in s
    ensures Without(s + [id], id) == s
    decreases |s|
  {
    if s != [] {
      assert (s + [id])[1..] == s[1..] + [id];
      WithoutAppended(s[1..], id);
    }
  }

  /** The link rows inserted after the task: one per selected id, in
      order, all pointing at the new task; None when the insert returned
      no task or nothing is selected. */
  function LinkRows(taskId: Option<string>, selected: seq<string>): (rows: Option<seq<TaskCategory>>)
    ensures rows.Some? <==> taskId.Some? && |selected| > 0
    ensures rows.Some? ==> (|rows.value| == |selected|
      && forall i :: 0 <= i < |selected| ==> rows.value[i] == TaskCategory(taskId.value, selected[i]))
  {
    if taskId.Some? && |selected| > 0 then
      Some(seq(|selected|, i requires 0 <= i < |selected| => TaskCategory(taskId.value, selected[i])))
    else None
  }

  /** A duplicate-free selection links each category at most once. */
  lemma LinkRowsDistinct(taskId: string, selected: seq<string>)
    requires |selected| > 0 && NoDuplicates(selected)
    ensures var rows := LinkRows(Some(taskId), selected).value;
      forall i, j :: 0 <= i < j < |rows| ==> rows[i] != rows[j]
  {
    var rows := LinkRows(Some(taskId), selected).value;
    forall i, j | 0 <= i < j < |rows|
      ensures rows[i] != rows[j]
    {
      assert rows[i].categoryId == selected[i] && rows[j].categoryId == selected[j];
    }
  }

  // ---------------------------------------------------------------------
  // Default categories

  /** `DEFAULT_CATEGORIES`: name, icon and colour. */
  const DefaultCategories: seq<(string, string, string)> := [
    ("Work", "\U{1F4BC}", "#71717A"),
    ("Personal", "\U{1F3E0}", "#A1A1AA"),
    ("Family", "\U{1F468}\U{200D}\U{1F469}\U{200D}\U{1F467}", "#52525B"),
    ("Health", "\U{1F4AA}", "#6B7280")
  ]

  /** The rows inserted for a user with no categories yet: the defaults in
      order, all marked as defaults and owned by the user. */
  function DefaultCategoryRows(userId: string): (rows: seq<CategoryInsert>)
    ensures |rows| == |DefaultCategories|
    ensures forall i :: 0 <= i < |rows| ==>
      rows[i] == CategoryInsert(userId, DefaultCategories[i].0, DefaultCategories[i].2, DefaultCategories[i].1, true)
  {
    seq(|DefaultCategories|, i requires 0 <= i < |DefaultCategories| =>
      CategoryInsert(userId, DefaultCategories[i].0, DefaultCategories[i].2, DefaultCategories[i].1, true))
  }

  // ---------------------------------------------------------------------
  // The hosted picker and the form's invariant

  /** The picker's confirm: the chosen moment becomes the due date and the
      picker closes. */
  function PickerConfirmed(f: Form, date: DateTime): (g: Form)
    ensures g.dueDate == date && !g.showPicker
    ensures g == f.(dueDate := date, showPicker := false)
  {
    f.(dueDate := date, showPicker := false)
  }

  /** The picker's cancel: the picker closes, the due date is kept. */
  function PickerCancelled(f: Form): (g: Form)
    ensures !g.showPicker && g.dueDate == f.dueDate
    ensures g == f.(showPicker := false)
  {
    f.(showPicker := false)
  }

  /** What the user does on the form before pressing create. */
  datatype Edit =
    | EditTitle(text: string)
    | EditDescription(text: string)
    | ChoosePriority(p: Priority)
    | ChooseRecurrence(r: Recurrence)
    | ToggleCategoryId(id: string)
    | OpenPicker
    | ConfirmPicker(picker: DateTimePicker.Picker)
    | CancelPicker

  /** The due date is a real moment on the minute, and no category is
      selected twice. */
  predicate FormInvariant(f: Form) {
    && ValidDateTime(f.dueDate)
    && f.dueDate.second == 0 && f.dueDate.millisecond == 0
    && NoDuplicates(f.selected)
  }

  predicate EditAllowed(e: Edit) {
    e.ConfirmPicker? ==> DateTimePicker.Valid(e.picker)
  }

  function ApplyEdit(f: Form, e: Edit): (g: Form)
    requires EditAllowed(e)
    ensures FormInvariant(f) ==> FormInvariant(g)
  {
    match e
    case EditTitle(t) => TitleChanged(f, t)
    case EditDescription(t) => f.(description := t)
    case ChoosePriority(p) => f.(priority := p)
    case ChooseRecurrence(r) => f.(recurrence := r)
    case ToggleCategoryId(id) => f.(selected := ToggleCategory(f.selected, id))
    case OpenPicker => f.(showPicker := true)
    case ConfirmPicker(p) => PickerConfirmed(f, DateTimePicker.Confirm(p))
    case CancelPicker => PickerCancelled(f)
  }

  function ApplyEdits(f: Form, es: seq<Edit>): Form
    requires forall i :: 0 <= i < |es| ==> EditAllowed(es[i])
    decreases |es|
  {
    if es == [] then f else ApplyEdits(ApplyEdit(f, es[0]), es[1..])
  }

  /** Whatever the user edits, the form keeps its invariant: the opening
      form has it, and so does every edit. */
  lemma {:induction false} EditsKeepInvariant(now: DateTime, es: seq<Edit>)
    requires ValidDateTime(now)
    requires forall i :: 0 <= i < |es| ==> EditAllowed(es[i])
    ensures FormInvariant(ApplyEdits(InitialForm(now), es))
  {
    EditsPreserve(InitialForm(now), es);
  }

  lemma {:induction false} EditsPreserve(f: Form, es: seq<Edit>)
    requires FormInvariant(f)
    requires forall i :: 0 <= i < |es| ==> EditAllowed(es[i])
    ensures FormInvariant(ApplyEdits(f, es))
    decreases |es|
  {
    if es != [] {
      assert EditAllowed(es[0]);
      EditsPreserve(ApplyEdit(f, es[0]), es[1..]);
    }
  }

  /** Opening the picker on the form's due date and confirming at once
      keeps the due date exactly. */
  lemma PickerRoundTripKeepsDueDate(f: Form)
    requires FormInvariant(f)
    ensures PickerConfirmed(f, DateTimePicker.Confirm(DateTimePicker.Reset(f.dueDate))).dueDate == f.dueDate
  {
    DateTimePicker.OpenConfirmRoundTrip(f.dueDate);
  }
}

# Momentum task screens, modelled in Dafny

Momentum is a React Native to-do app. This project models its client-side
core as pure Dafny functions and proves properties of them:

- the date and time picker sheet (`DateTimePicker`). It covers the calendar
  page of the month on view, month navigation, day selection, the hour and
  minute steppers, the "h:mm AM" preview and the confirmed moment;
- the task card (`TaskCard`). It covers the due-date badge ("Today",
  "Tomorrow", "3d overdue", "Jun 20"), its colour and the two-tap delete
  button;
- the task list (`TaskList`). It covers search and status filtering, the
  per-status counts, the "remaining" figure, toggling a task done and back,
  deleting, and grouping link rows into each task's categories;
- the new-task form (`NewTask`). It covers the default due date, the
  date-and-time line, validation, the insert payload, category selection,
  the link rows and the hosted picker;
- the new-category form (`NewCategory`);
- the accent colour: the palette and the shades derived from the accent
  (`Colors`), the accent provider with its storage and profile
  synchronisation (`AccentContext`), and the appearance settings screen
  (`Appearance`).

Supporting modules:

- `Civil` is the proleptic Gregorian calendar. It gives day numbers,
  weekdays, the next and previous day, and the en-US short month names.
- `Text` holds the JavaScript string operations the screens use: `trim`,
  `toLowerCase`, `includes`, `replace`, `toString` and `padStart`.
- `HexColor` holds the `/^#[0-9A-Fa-f]{6}$/` test and `parseInt(…, 16)`.
- `Database` holds the row types.

The database, the clock and the device storage are outside the model.
Today's date and the current moment are parameters. A due-date string
parsed by `new Date(…)` is passed in already parsed, and None means an
invalid date. The storage value is a field of the provider's state. What
the screens send to the database is returned as data: a payload, link rows,
a profile update.

Two facts about the time steppers:

- Hour-up returns to the start hour after 24 presses (`DateTimePicker.HourCycle`).
- The minute steppers keep the minute's remainder modulo 5
  (`DateTimePicker.MinuteUpsGrid`). The picker takes its minutes from the
  value it opens on, so a start minute off the five-minute grid stays off it.

## Model

| member | source | states |
|---|---|---|
| Database.NamesInjective | database.ts:1-2 | The three priorities and the three statuses are stored as pairwise distinct text. |
| Civil.DaysInMonth | Momentum.-main/components/DateTimePicker.tsx:70 | Every month has 28 to 31 days. |
| Civil.Weekday | Momentum.-main/components/DateTimePicker.tsx:71 | `getDay` is always a weekday number 0..6. |
| Civil.WeekdaySuccessor | Momentum.-main/components/DateTimePicker.tsx:71 | The next day's weekday is one more, modulo 7, than this day's. |
| Civil.WeekdayAnchors | Momentum.-main/components/DateTimePicker.tsx:71 | 1 January 1970 was a Thursday (4) and 15 June 2025 a Sunday (0), as `getDay` numbers them. |
| Civil.MonthsFillYear | Momentum.-main/components/DateTimePicker.tsx:70 | The month lengths `new Date(y, m + 1, 0).getDate()` gives add up to the year's 365 or 366 days. |
| Civil.YearStep | Momentum.-main/components/DateTimePicker.tsx:70 | The leap-day count before each year agrees with the leap-year rule, year by year. |
| Civil.DaysBeforeYearIncreasing | Momentum.-main/components/TaskCard.tsx:33-37 | A later year starts after the whole of any earlier year. |
| Civil.DaysBeforeMonthIncreasing | Momentum.-main/components/TaskCard.tsx:33-37 | A later month of a year starts after the whole of any earlier month. |
| Civil.DayOfYearBounds | Momentum.-main/components/TaskCard.tsx:33-37 | A valid date falls inside its own year. |
| Civil.DayNumberOrdered | Momentum.-main/components/TaskCard.tsx:33-37 | Midnight-to-midnight day counts follow calendar order. |
| Civil.DayNumberInjective | Momentum.-main/components/TaskCard.tsx:33-37 | Two valid dates have the same day count exactly when they are the same date. |
| Civil.NextDay | app/tasks/new.tsx:33 | `setDate(getDate() + 1)` gives a valid date exactly one day later, across month and year ends. |
| Civil.PrevDay | Momentum.-main/components/DateTimePicker.tsx:70 | Day 0 of a month is the valid date one day before its first. |
| Civil.NextPrevInverse | app/tasks/new.tsx:33 | The next and previous day undo each other. |
| Civil.MonthAbbrev | Momentum.-main/components/TaskCard.tsx:43 | The short month name has three letters. |
| Civil.MonthAbbrevInjective | Momentum.-main/components/TaskCard.tsx:43 | Distinct months have distinct short names. |
| Text.Trim | app/categories/new.tsx:61 | `trim` never lengthens. It is empty exactly when the input is all white space. Otherwise it neither starts nor ends with white space. |
| Text.TrimDecomposition | app/tasks/new.tsx:119 | The trimmed text is the input with a blank prefix and a blank suffix removed. |
| Text.TrimIdempotent | app/tasks/new.tsx:105 | Trimming a trimmed value changes nothing, so a submitted name or title is already clean. |
| Text.ToLower | tasks.tsx:117-118 | Lower-casing keeps the length. Each character becomes its lower-case form. |
| Text.ToLowerIdempotent | tasks.tsx:117-118 | Lower-casing twice equals lower-casing once. |
| Text.IncludesIffOccurs | tasks.tsx:117-118 | `includes` holds exactly when the query occurs at some position. |
| Text.IncludesEmpty | tasks.tsx:117 | The empty query is included in every string. |
| Text.IndexOf | Momentum.-main/app/settings/appearance.tsx:179 | The index found is that of the first occurrence, or -1 exactly when the character is absent. |
| Text.RemoveFirst | Momentum.-main/app/settings/appearance.tsx:179 | `replace('#', '')` removes only the first '#'. The text is unchanged when there is none. |
| Text.NatToStringRoundTrip | Momentum.-main/components/TaskCard.tsx:40 | The decimal digits of a number read back as that number. |
| Text.NatToStringInjective | Momentum.-main/components/TaskCard.tsx:40 | Different numbers render as different text. |
| Text.IntToString | app/tasks/new.tsx:38-48 | A year renders with a '-' exactly when it is negative, followed by decimal digits that read back as its absolute value. |
| Text.PadTwoDigits | Momentum.-main/components/DateTimePicker.tsx:126 | `pad(n)` for n < 100 gives exactly two digits that read back as n. |
| HexColor.HexDigitValue | Colors.ts:23-25 | Every hex digit, upper or lower case, has a value 0..15. |
| HexColor.Slice | Colors.ts:23-25 | `slice(a, b)` gives the characters from a up to b, in order, stopping at the string's end. |
| HexColor.ParsePair | Colors.ts:23-25 | `parseInt` base 16 of two hex digits is the byte they write. |
| HexColor.ParseChannel | Colors.ts:23-25 | On a valid colour, each channel slice parses to the byte of its digit pair. |
| HexColor.ParseIntHexNaN | Colors.ts:23-25 | `parseInt(…, 16)` is NaN on blank text and on text starting with a character that is neither space, sign nor hex digit. |
| HexColor.ParseHexDigits | Colors.ts:23-25 | A non-empty run of hex digits parses to the number it writes. |
| HexColor.ParseNegatedHexDigits | Colors.ts:23-25 | With a leading '-' the same run parses to the negated number. |
| Colors.GenerateShades | Colors.ts:22-33 | The light and dark shades are the parsed channels moved by 30. The 10% and 20% shades carry the same channels. |
| Colors.ShadesOfValidHex | Colors.ts:22-33 | On a valid accent, every channel is the byte of its digit pair. The light shade is that byte plus 30, clamped at 255. The dark shade is that byte minus 30, clamped at 0. |
| Colors.GetPriorityStyle | Colors.ts:36-47 | Low, medium and high take the light, plain and dark accent. Any other text falls back to gray. |
| Colors.FallbackIsGrayLight | Colors.ts:12-45 | The fallback background has grayLight's channels. |
| Colors.DotChannels | Colors.ts:22-43 | Per channel, the low, medium and high dots are the accent's byte plus 30, itself and minus 30, clamped. |
| Colors.PriorityDotsDarkenWithPriority | Colors.ts:36-47 | A stored priority never falls back to gray. A higher priority's dot is no lighter in any channel. |
| Colors.CategoryColorsShape | Colors.ts:50-59 | The category palette has eight distinct valid colours, grayLight and grayDark first. |
| AccentContext.DefaultAccentAgrees | contexts/AccentContext.tsx:6 | The provider's default accent is the palette's `DEFAULT_ACCENT_HEX` and a valid colour. |
| AccentContext.Initial | contexts/AccentContext.tsx:21-26 | The provider mounts with the default accent and no user, and takes the stored value it reads at mount. |
| AccentContext.DoSetAccent | contexts/AccentContext.tsx:68-81 | An invalid colour changes and sends nothing. A valid one becomes the accent and the stored value. It goes to the profile exactly when a user is signed in. |
| AccentContext.Step | contexts/AccentContext.tsx:26-80 | The storage read delivers the value read at mount, and it and a profile colour are adopted only when non-empty and valid. A session sets the user only when present. An auth change always replaces it. |
| AccentContext.StepKeepsInv | contexts/AccentContext.tsx:26-80 | Every event keeps the accent valid. Whatever is written to storage or the profile is valid and becomes the accent. |
| AccentContext.LateReadRestoresMountColor | contexts/AccentContext.tsx:25-72 | A mount-time read that arrives after `setAccent` puts back the colour read at mount, while storage keeps the newly set colour. |
| AccentContext.AccentAlwaysValid | contexts/AccentContext.tsx:22-80 | In any order of callbacks and calls, the accent is always a valid hex colour. |
| AccentContext.SignedOutNoUpdate | contexts/AccentContext.tsx:37-80 | After signing out, setting the accent updates no profile. |
| Appearance.PresetsShape | Momentum.-main/app/settings/appearance.tsx:18-30 | There are eleven presets, all valid and distinct, and the default accent is first. |
| Appearance.PresetDecorations | Momentum.-main/app/settings/appearance.tsx:121-140 | The check mark is black exactly on White and Amber. Only White and Black get a border. |
| Appearance.Normalize | Momentum.-main/app/settings/appearance.tsx:42 | The value matched against the pattern always starts with '#', and the input is kept when it already has one. |
| Appearance.NormalizeIdempotent | Momentum.-main/app/settings/appearance.tsx:42 | Normalising twice adds nothing. |
| Appearance.ApplyHex | Momentum.-main/app/settings/appearance.tsx:41-50 | A valid value goes to the setter and clears the field and the error. Otherwise only the error is set. |
| Appearance.AppliedValueBecomesAccent | Momentum.-main/app/settings/appearance.tsx:43-44 | A value the screen accepts is accepted by the provider too, becoming the accent and the stored value. |
| Appearance.TextChanged | Momentum.-main/app/settings/appearance.tsx:178-181 | Typing strips the first '#' and clears the error. |
| Appearance.TypedColorApplies | Momentum.-main/app/settings/appearance.tsx:41-181 | Six hex digits typed with or without '#' become the accent "#" + digits. |
| Appearance.PresetPressActivatesIt | Momentum.-main/app/settings/appearance.tsx:120-131 | Pressing a preset makes exactly that swatch active. |
| Appearance.LowerCaseMatchesNoPreset | Momentum.-main/app/settings/appearance.tsx:32-120 | Any valid input with a lower-case hex letter becomes the accent, yet it activates no swatch, because the match is case-sensitive. |
| DateTimePicker.OnVisibleChange | Momentum.-main/components/DateTimePicker.tsx:58-67 | Becoming visible resets the selection, the month on view, the time and the tab from the value. Hiding changes nothing. |
| DateTimePicker.ReopenForgetsSession | Momentum.-main/components/DateTimePicker.tsx:58-67 | Reopening on a value gives the same sheet whatever the earlier session did. |
| DateTimePicker.FirstWeekday | Momentum.-main/components/DateTimePicker.tsx:71 | The number of leading blanks is below seven. |
| DateTimePicker.PageContents | Momentum.-main/components/DateTimePicker.tsx:69-77 | A page shows exactly the days 1..n, once each, between blanks. |
| DateTimePicker.CalendarDays | Momentum.-main/components/DateTimePicker.tsx:69-77 | The page starts with one blank per weekday before the first. It has a whole number of weeks. It contains each day of the month once, and no other day. |
| DateTimePicker.PadToWeeks | Momentum.-main/components/DateTimePicker.tsx:75 | Trailing blanks complete the last week, and fewer than seven are added. |
| DateTimePicker.WeekRemainder | Momentum.-main/components/DateTimePicker.tsx:75 | `(7 - x % 7) % 7` is below seven and completes a week. |
| DateTimePicker.PrevMonth | Momentum.-main/components/DateTimePicker.tsx:79-86 | The view moves one month back, from January into December of the year before. Nothing else changes. |
| DateTimePicker.NextMonth | Momentum.-main/components/DateTimePicker.tsx:88-95 | The view moves one month forward, from December into January of the next year. Nothing else changes. |
| DateTimePicker.MonthIndexInjective | Momentum.-main/components/DateTimePicker.tsx:79-95 | A continuous month count names exactly one (year, month). |
| DateTimePicker.MonthNavigationInverse | Momentum.-main/components/DateTimePicker.tsx:79-95 | Back then forward, or forward then back, restores the view. |
| DateTimePicker.SelectDay | Momentum.-main/components/DateTimePicker.tsx:97-104 | Selecting a day of the page makes exactly that day selected, and nothing else changes. |
| DateTimePicker.SelectedOnPage | Momentum.-main/components/DateTimePicker.tsx:101-104 | A day of the page is shown selected exactly when the selection falls in the month on view, and only the selection's own day. |
| DateTimePicker.TodayOnPage | Momentum.-main/components/DateTimePicker.tsx:106-113 | A day of the page is ringed as today exactly when today falls in the month on view, and only today's own day. |
| DateTimePicker.HourUp | Momentum.-main/components/DateTimePicker.tsx:282 | Hour up wraps 23 to 0. |
| DateTimePicker.HourDown | Momentum.-main/components/DateTimePicker.tsx:296 | Hour down wraps 0 to 23. |
| DateTimePicker.MinuteUp | Momentum.-main/components/DateTimePicker.tsx:313 | Minute up adds five, wrapping 55..59 to 0..4. |
| DateTimePicker.MinuteDown | Momentum.-main/components/DateTimePicker.tsx:327 | Minute down subtracts five, wrapping 0..4 to 55..59. |
| DateTimePicker.StepsCancel | Momentum.-main/components/DateTimePicker.tsx:282-327 | An up step and a down step cancel, in either order. |
| DateTimePicker.HourUpsAdd | Momentum.-main/components/DateTimePicker.tsx:282 | n hour-up presses add n modulo 24. |
| DateTimePicker.MinuteUpsAdd | Momentum.-main/components/DateTimePicker.tsx:313 | n minute-up presses add 5n modulo 60. |
| DateTimePicker.MinuteUpsGrid | Momentum.-main/components/DateTimePicker.tsx:313 | Minute steps keep the minute's remainder modulo 5. |
| DateTimePicker.HourCycle | Momentum.-main/components/DateTimePicker.tsx:282 | 24 hour-up presses return to the start hour. |
| DateTimePicker.MinuteCycle | Momentum.-main/components/DateTimePicker.tsx:313 | 12 minute-up presses return to the start minute. |
| DateTimePicker.DisplayHour | Momentum.-main/components/DateTimePicker.tsx:130 | The shown hour is 1..12. It is 12 exactly at midnight and noon. |
| DateTimePicker.FormatAmPmRoundTrip | Momentum.-main/components/DateTimePicker.tsx:126-132 | The "h:mm AM/PM" preview determines the 24-hour time it shows: reading it back gives the hours and minutes. |
| DateTimePicker.FormatAmPmShape | Momentum.-main/components/DateTimePicker.tsx:128-132 | The preview is one or two hour digits, ':', two digits reading as the minutes, then " PM" exactly from noon on, otherwise " AM". |
| DateTimePicker.ParseAmPmPieces | Momentum.-main/components/DateTimePicker.tsx:128-132 | Text built from hour digits, two minute digits and AM/PM reads back as that 24-hour time. |
| DateTimePicker.Confirm | Momentum.-main/components/DateTimePicker.tsx:115-124 | Confirming gives a valid moment on the selected day at the chosen hour and minute, with seconds and milliseconds zero. |
| DateTimePicker.OpenConfirmRoundTrip | Momentum.-main/components/DateTimePicker.tsx:58-124 | Opening on a value and confirming at once gives the value back, truncated to the minute. |
| DateTimePicker.Step | Momentum.-main/components/DateTimePicker.tsx:79-327 | Every button of the open sheet keeps its state valid. |
| DateTimePicker.SessionStaysValid | Momentum.-main/components/DateTimePicker.tsx:58-124 | Any sequence of presses leaves a state whose confirmation is a valid moment. |
| DateTimePicker.SelectionOnlyByDayPress | Momentum.-main/components/DateTimePicker.tsx:79-327 | Without a day press the selection never changes. |
| TaskCard.OverdueLabel | Momentum.-main/components/TaskCard.tsx:40 | "{n}d overdue" is at least ten characters long. |
| TaskCard.ShortMonthDayShape | Momentum.-main/components/TaskCard.tsx:43 | The short date "Jun 20" is five or six characters, with a space after the month. |
| TaskCard.DueLabel | Momentum.-main/components/TaskCard.tsx:40-43 | The label is "Today" exactly at 0 days and "Tomorrow" exactly at 1. It is an overdue count exactly when negative, and the short date from 2 days on. |
| TaskCard.GetDateInfo | Momentum.-main/components/TaskCard.tsx:30-50 | A missing or empty date gives no label. An unparsable one gives "Invalid Date". Overdue and soon never hold together. |
| TaskCard.TimeOfDayIgnored | Momentum.-main/components/TaskCard.tsx:33-37 | The badge depends only on the due day, not its time. |
| TaskCard.DayNumberLessIff | Momentum.-main/components/TaskCard.tsx:33-45 | A negative day difference means exactly an earlier calendar date. |
| TaskCard.DueClassification | Momentum.-main/components/TaskCard.tsx:30-50 | Overdue exactly when due before today. "Today" and "Tomorrow" exactly on today and the next calendar day. Soon exactly in those two cases. |
| TaskCard.OverdueLabelCounts | Momentum.-main/components/TaskCard.tsx:40 | An overdue label starts with the number of calendar days late. |
| TaskCard.CardDateInfo | Momentum.-main/components/TaskCard.tsx:69 | A finished task shows no date information. |
| TaskCard.CardDateColor | Momentum.-main/components/TaskCard.tsx:69-76 | The badge uses the priority colour exactly for an unfinished task due before today. It uses the primary colour exactly for one due today or tomorrow. |
| TaskCard.DeleteStep | Momentum.-main/components/TaskCard.tsx:78-85 | A press arms the button, and calls `onDelete` exactly when already armed and a handler exists. The timer disarms it. |
| TaskCard.SingleTapsNeverDelete | Momentum.-main/components/TaskCard.tsx:78-85 | Without two presses in a row, nothing is ever deleted. |
| TaskCard.DateColor | Momentum.-main/components/TaskCard.tsx:72-76 | The badge takes the priority dot colour exactly when overdue, the primary colour exactly when soon and not overdue, otherwise the tertiary text colour. |
| TaskCard.DoubleTapDeletes | Momentum.-main/components/TaskCard.tsx:78-85 | After any earlier events, two presses in a row on a card with a delete handler call it at least once; on a fresh card exactly once. |
| TaskList.FilteredTasks | tasks.tsx:115-121 | The shown list keeps list order and holds exactly the tasks matching both the search and the tab. |
| TaskList.EmptyQueryMatches | tasks.tsx:116-118 | The empty search matches every task. |
| TaskList.NoFilterShowsAll | tasks.tsx:115-121 | No search on the "all" tab shows the list unchanged. |
| TaskList.GetStatusCounts | tasks.tsx:124 | The "all" count is the number of tasks. |
| TaskList.CountsPartition | tasks.tsx:123-128 | The todo, in-progress and done counts add up to the "all" count. |
| TaskList.Remaining | tasks.tsx:142 | "Remaining" is the number of tasks not done. |
| TaskList.TabLengthIsCount | tasks.tsx:115-128 | A status tab with no search lists exactly as many tasks as that status's count. |
| TaskList.ToggleUpdate | tasks.tsx:94-102 | A done task goes back to todo and loses its completion time. Any other becomes done at the given time. |
| TaskList.ToggleInList | tasks.tsx:105-107 | Only the entries with the task's id take the update. Order and length are kept. |
| TaskList.ToggleTwice | tasks.tsx:94-107 | Toggling flips done. A todo task without completion time toggled twice is restored. |
| TaskList.DeleteTask | tasks.tsx:110-113 | The list keeps order and holds exactly the tasks with another id. |
| TaskList.DeleteRemovesExactly | tasks.tsx:112 | Deletion removes as many entries as carry that id. |
| TaskList.BuildCategoryMap | tasks.tsx:66-73 | A task has a key exactly when some row gives it a category. Its list holds those categories in row order. |
| TaskList.CategoriesFromRows | tasks.tsx:66-73 | Every listed category comes from a row of that task. |
| NewTask.DefaultDueDate | app/tasks/new.tsx:31-36 | The default due date is the next calendar day at 09:00:00.000. |
| NewTask.DefaultDueIsTomorrow | app/tasks/new.tsx:31-36 | The default due date shows as "Tomorrow", soon and not overdue, on the same day's card. |
| NewTask.FormatDateTime | app/tasks/new.tsx:38-48 | The line is "Mon D, YYYY", then the separator "  •  ", then the locale time text, with nothing else. |
| NewTask.FormatDateTimeDeterminesDate | app/tasks/new.tsx:38-48 | With the same time text, two due dates show the same line only when they are the same day. |
| NewTask.DateTextInjective | app/tasks/new.tsx:38-41 | "Mon D, YYYY" names one date: month, day and year are read back from it. |
| NewTask.InitialForm | app/tasks/new.tsx:55-64 | The form opens empty, medium priority, due at the default, with no selection, recurrence, spinner or error. |
| NewTask.TitleChanged | app/tasks/new.tsx:221-224 | Typing the title clears the error. |
| NewTask.CreateDisabled | app/tasks/new.tsx:417 | The button is enabled exactly when no request runs and the title has a non-space character. |
| NewTask.EnabledIffInserts | app/tasks/new.tsx:104-417 | For a signed-in user with no request running, the button is enabled exactly when pressing it sends a task, and then the spinner starts. |
| NewTask.DescriptionColumn | app/tasks/new.tsx:120 | The description is null exactly when blank, and otherwise trimmed. |
| NewTask.Payload | app/tasks/new.tsx:117-127 | The payload has the trimmed title, the form's priority and due date, and status todo at position 0. It is recurring exactly when a recurrence is chosen. |
| NewTask.HandleCreate | app/tasks/new.tsx:104-112 | A blank title sets the error and inserts nothing. Without a user nothing happens. Otherwise it loads and inserts the payload. |
| NewTask.InsertedTitleNotBlank | app/tasks/new.tsx:105-119 | Every inserted title has a non-space character. |
| NewTask.EnabledButtonNoTitleError | app/tasks/new.tsx:105-417 | The enabled button never raises the title error. |
| NewTask.InsertFailed | app/tasks/new.tsx:147-150 | A failure stops the spinner. |
| NewTask.Without | app/tasks/new.tsx:156 | Filtering an id out removes it, keeps every other id in its order, and keeps distinctness. |
| NewTask.ToggleCategory | app/tasks/new.tsx:153-159 | Toggling flips membership of that id only and keeps ids distinct. A selected id is filtered out, the others keeping their order; an unselected one is appended at the end. |
| NewTask.ToggleTwiceRestores | app/tasks/new.tsx:153-159 | Toggling an unselected id twice restores the selection. |
| NewTask.LinkRows | app/tasks/new.tsx:133-139 | Link rows exist exactly when a task came back and something is selected. There is one per selected id, in order. |
| NewTask.LinkRowsDistinct | app/tasks/new.tsx:133-139 | A duplicate-free selection links each category at most once. |
| NewTask.DefaultCategoryRows | app/tasks/new.tsx:22-93 | The seeded rows are the four defaults, in order, owned by the user and marked default. |
| NewTask.PickerConfirmed | app/tasks/new.tsx:450-453 | The confirmed moment becomes the due date and the picker closes. |
| NewTask.PickerCancelled | app/tasks/new.tsx:454 | Cancelling closes the picker and keeps the due date. |
| NewTask.ApplyEdit | app/tasks/new.tsx:153-455 | Every edit keeps the due date a valid whole minute and the selection duplicate-free. |
| NewTask.EditsKeepInvariant | app/tasks/new.tsx:55-64 | From the opening form, any edits keep that invariant. |
| NewTask.PickerRoundTripKeepsDueDate | app/tasks/new.tsx:447-455 | Opening the picker and confirming at once keeps the due date. |
| NewCategory.InitialForm | app/categories/new.tsx:27-30 | The form opens with an empty name, grayLight and the briefcase icon. |
| NewCategory.CanCreate | app/categories/new.tsx:61 | `canCreate` holds exactly when the name has a non-space character. |
| NewCategory.CreateDisabled | app/categories/new.tsx:85 | The button is enabled exactly when no request runs and the name has a non-space character. |
| NewCategory.ButtonLabel | app/categories/new.tsx:95 | The label is "Saving..." exactly while loading and "Create" otherwise. |
| NewCategory.HandleCreate | app/categories/new.tsx:32-49 | A blank name alerts. Without a user nothing happens. Otherwise one non-default row is inserted with the trimmed name and the chosen colour and icon. |
| NewCategory.EnabledIffInserts | app/categories/new.tsx:32-85 | With a user and no spinner, the button is enabled exactly when pressing it inserts. The inserted name is already trimmed. |
| NewCategory.Pressed | app/categories/new.tsx:40 | The spinner starts exactly when the press reaches the insert. |
| NewCategory.PressedLabel | app/categories/new.tsx:40-95 | After a press the label reads "Saving..." exactly when the press reached the insert or a request was already running; a blank name leaves "Create". |
| NewCategory.Settled | app/categories/new.tsx:56-95 | Success or failure stops the spinner, and the label returns to "Create". |
| NewCategory.CategoryIconsShape | app/categories/new.tsx:18-21 | Sixteen distinct icons are offered. |

## Left out

- The hosted database is not modelled. Its selects, inserts, updates and deletes, and their errors, are left out. What the screens send is returned as data. Rows read from it are inputs.
- Device storage is reduced to the provider's `stored` field. A read is an event; a write is an output.
- Timers are not modelled. These are the 3-second disarm on the delete button (TaskCard.tsx:83) and the 800 ms wait before going back (app/tasks/new.tsx:144). The disarm is an event of its own.
- The clock is not modelled. `new Date()` is a parameter.
- Date parsing is not modelled. The parsed due date is passed in, and None means an invalid date.
- Milliseconds and daylight saving are not modelled. The day difference of the card counts calendar days between the two dates rather than dividing milliseconds and rounding. The two agree whenever no day is longer or shorter than 24 hours.
- `toLocaleTimeString` is an opaque text parameter. The en-US short month and day are modelled concretely.
- `toLowerCase` is modelled on ASCII letters only.
- Years are treated as full years. JavaScript's mapping of two-digit years to 19xx is not modelled.
- The alpha values "0.10" and "0.20" stay literal text, and no floating-point arithmetic is modelled.
- `generateAccentShades` in the theme context is not part of this model.
- `getPriorityColors` (app/tasks/new.tsx:18) is not part of this model.
- The card's call of `getPriorityStyle` with the accent string (TaskCard.tsx:70) is not modelled. The priority style is modelled as `Colors.ts` defines it.
- The picker's preview line (DateTimePicker.tsx:134) is not modelled; its bullet text is garbled in the source. `formatAmPm` itself is modelled.
- The `maxLength={6}` limit of the hex field is a keyboard restriction and is not modelled.
- Styling, layout, animation, accessibility labels, the done badge of the card and navigation are not modelled.
- The categories list screen is not part of this model.
- The provider's asynchronous ordering is not modelled. Its callbacks are an arbitrary sequence of events. The storage read may arrive at any point and any number of times, always with the value read at mount.
- A failed profile load (AccentContext.tsx:63-65) is not modelled separately. It changes nothing, like `ProfileLoaded(None)`.

/** The task list screen: search and status filtering, the per-status
    counts and the "remaining" figure, the local effect of toggling a task
    done or back, local deletion, and the grouping of link rows into each
    task's categories. The database calls themselves are not modelled; the
    functions here describe the rows they receive and the lists kept in
    state afterwards. */
module TaskList {
  import opened Wrappers
  import opened Text
  import opened Database
  import opened Sequences

  // ---------------------------------------------------------------------
  // Filtering

  /** The filter tabs: all tasks, or the tasks of one status. */
  datatype StatusFilter = All | Only(status: TaskStatus)

  /** The title, or the description when there is one, contains the query,
      both lower-cased. */
  predicate MatchesSearch(t: Task, query: string) {
    var q := ToLower(query);
    || Includes(ToLower(t.title), q)
    || (t.description.Some? && Includes(ToLower(t.description.value), q))
  }

  predicate MatchesFilter(t: Task, f: StatusFilter) {
    f == All || t.status == f.status
  }

  predicate Keep(t: Task, query: string, f: StatusFilter) {
    MatchesSearch(t, query) && MatchesFilter(t, f)
  }

  /** `filteredTasks`: the tasks matching both the search and the filter,
      in list order. */
  function FilteredTasks(tasks: seq<Task>, query: string, f: StatusFilter): (r: seq<Task>)
    ensures Sublist(r, tasks)
    ensures forall t :: t in r <==> t in tasks && Keep(t, query, f)
    decreases |tasks|
  {
    if tasks == [] then []
    else
      var rest := FilteredTasks(tasks[1..], query, f);
      assert forall t :: t in tasks <==> t == tasks[0] || t in tasks[1..];
      if Keep(tasks[0], query, f) then [tasks[0]] + rest else rest
  }

  /** The empty query matches every task. */
  lemma EmptyQueryMatches(t: Task)
    ensures MatchesSearch(t, "")
  {
    assert ToLower("") == "";
    IncludesEmpty(ToLower(t.title));
  }

  /** With no query and the "all" tab, the list is shown unchanged. */
  lemma {:induction false} NoFilterShowsAll(tasks: seq<Task>)
    ensures FilteredTasks(tasks, "", All) == tasks
    decreases |tasks|
  {
    if tasks != [] {
      EmptyQueryMatches(tasks[0]);
      NoFilterShowsAll(tasks[1..]);
    }
  }

  // ---------------------------------------------------------------------
  // Counting

  /** Number of tasks with status `s`. */
  function CountStatus(tasks: seq<Task>, s: TaskStatus): nat
    decreases |tasks|
  {
    if tasks == [] then 0
    else (if tasks[0].status == s then 1 else 0) + CountStatus(tasks[1..], s)
  }

  datatype StatusCounts = StatusCounts(all: nat, todo: nat, inProgress: nat, done: nat)

  /** `statusCounts`. */
  function GetStatusCounts(tasks: seq<Task>): (c: StatusCounts)
    ensures c.all == |tasks|
  {
    StatusCounts(|tasks|, CountStatus(tasks, Todo), CountStatus(tasks, InProgress), CountStatus(tasks, Done))
  }

  /** Every task has one of the three statuses, so the three counts add up
      to the length of the list. */
  lemma {:induction false} CountsPartition(tasks: seq<Task>)
    ensures var c := GetStatusCounts(tasks);
      c.all == c.todo + c.inProgress + c.done
    decreases |tasks|
  {
    if tasks != [] {
      CountsPartition(tasks[1..]);
    }
  }

  /** The "remaining" figure of the header. */
  function Remaining(tasks: seq<Task>): (n: nat)
    ensures n <= |tasks|
    ensures n == |tasks| - CountStatus(tasks, Done)
  {
    var c := GetStatusCounts(tasks);
    CountsPartition(tasks);
    c.todo + c.inProgress
  }

  /** A status tab with no query lists exactly as many tasks as its count. */
  lemma {:induction false} TabLengthIsCount(tasks: seq<Task>, s: TaskStatus)
    ensures |FilteredTasks(tasks, "", Only(s))| == CountStatus(tasks, s)
    decreases |tasks|
  {
    if tasks != [] {
      EmptyQueryMatches(tasks[0]);
      TabLengthIsCount(tasks[1..], s);
    }
  }

  // ---------------------------------------------------------------------
  // Toggling done

  /** The fields `toggleTaskStatus` writes. */
  datatype StatusUpdate = StatusUpdate(status: TaskStatus, completedAt: Option<string>)

  /** A done task goes back to todo and loses its completion time; any
      other task becomes done at `now`. */
  function ToggleUpdate(task: Task, now: string): (u: StatusUpdate)
    ensures task.status == Done ==> u == StatusUpdate(Todo, None)
    ensures task.status != Done ==> u == StatusUpdate(Done, Some(now))
  {
    if task.status == Done then StatusUpdate(Todo, None) else StatusUpdate(Done, Some(now))
  }

  function ApplyUpdate(t: Task, u: StatusUpdate): Task {
    t.(status := u.status, completedAt := u.completedAt)
  }

  /** The local state after toggling `task`: every entry with its id takes
      the update, every other entry and the order stay as they were. */
  function ToggleInList(tasks: seq<Task>, task: Task, now: string): (r: seq<Task>)
    ensures |r| == |tasks|
    ensures forall i :: 0 <= i < |tasks| && tasks[i].id != task.id ==> r[i] == tasks[i]
    ensures forall i :: 0 <= i < |tasks| && tasks[i].id == task.id ==>
      r[i] == ApplyUpdate(tasks[i], ToggleUpdate(task, now))
  {
    var u := ToggleUpdate(task, now);
    seq(|tasks|, i requires 0 <= i < |tasks| => if tasks[i].id == task.id then ApplyUpdate(tasks[i], u) else tasks[i])
  }

  /** Toggling is done/not-done negation, and toggling a todo task twice
      restores it when it had no completion time. */
  lemma ToggleTwice(task: Task, now1: string, now2: string)
    ensures (ApplyUpdate(task, ToggleUpdate(task, now1)).status == Done) <==> task.status != Done
    ensures task.status == Todo && task.completedAt == None ==>
      var once := ApplyUpdate(task, ToggleUpdate(task, now1));
      ApplyUpdate(once, ToggleUpdate(once, now2)) == task
  {
  }

  // ---------------------------------------------------------------------
  // Deleting

  /** `deleteTask`: the tasks with another id, in order. */
  function DeleteTask(tasks: seq<Task>, id: string): (r: seq<Task>)
    ensures Sublist(r, tasks)
    ensures forall t :: t in r <==> t in tasks && t.id != id
    decreases |tasks|
  {
    if tasks == [] then []
    else
      var rest := DeleteTask(tasks[1..], id);
      assert forall t :: t in tasks <==> t == tasks[0] || t in tasks[1..];
      if tasks[0].id != id then [tasks[0]] + rest else rest
  }

  /** Number of tasks with id `id`. */
  function CountId(tasks: seq<Task>, id: string): nat
    decreases |tasks|
  {
    if tasks == [] then 0
    else (if tasks[0].id == id then 1 else 0) + CountId(tasks[1..], id)
  }

  /** Deletion removes exactly the tasks with that id. */
  lemma {:induction false} DeleteRemovesExactly(tasks: seq<Task>, id: string)
    ensures |DeleteTask(tasks, id)| == |tasks| - CountId(tasks, id)
    decreases |tasks|
  {
    if tasks != [] {
      DeleteRemovesExactly(tasks[1..], id);
    }
  }

  // ---------------------------------------------------------------------
  // Categories per task

  /** A link row as read with its joined category; None when the category
      no longer exists. */
  datatype JoinRow = JoinRow(taskId: string, categoryId: string, category: Option<Category>)

  /** The categories the rows give task `k`, in row order. */
  function CategoriesOf(rows: seq<JoinRow>, k: string): seq<Category>
    decreases |rows|
  {
    if rows == [] then []
    else
      var last := rows[|rows| - 1];
      CategoriesOf(rows[..|rows| - 1], k)
        + (if last.taskId == k && last.category.Some? then [last.category.value] else [])
  }

  /** `m` holds, for each task with at least one category among `rows`,
      exactly its categories in row order, and no other key. */
  ghost predicate MapMatches(m: map<string, seq<Category>>, rows: seq<JoinRow>) {
    && (forall k :: k in m <==> CategoriesOf(rows, k) != [])
    && (forall k :: k in m ==> m[k] == CategoriesOf(rows, k))
  }

  /** The `categoryMap` loop: rows without a category are skipped; a task
      gets a key at its first row with one, and each row's category is
      appended to its task's list. */
  method BuildCategoryMap(rows: seq<JoinRow>) returns (m: map<string, seq<Category>>)
    ensures forall k :: k in m <==> CategoriesOf(rows, k) != []
    ensures forall k :: k in m ==> m[k] == CategoriesOf(rows, k)
  {
    m := map[];
    var i := 0;
    while i < |rows|
      invariant 0 <= i <= |rows|
      invariant MapMatches(m, rows[..i])
    {
      var row := rows[i];
      var before := m;
      if row.category.Some? {
        if row.taskId !in m {
          m := m[row.taskId := []];
        }
        m := m[row.taskId := m[row.taskId] + [row.category.value]];
      }
      AddRowKeepsMatch(before, m, rows, i);
      i := i + 1;
    }
    assert rows[..|rows|] == rows;
  }

  /** One loop step: appending row `i`'s category keeps the map in step. */
  lemma AddRowKeepsMatch(m: map<string, seq<Category>>, m': map<string, seq<Category>>, rows: seq<JoinRow>, i: int)
    requires 0 <= i < |rows| && MapMatches(m, rows[..i])
    requires rows[i].category.None? ==> m' == m
    requires rows[i].category.Some? ==>
      m' == m[rows[i].taskId := (if rows[i].taskId in m then m[rows[i].taskId] else []) + [rows[i].category.value]]
    ensures MapMatches(m', rows[..i + 1])
  {
    forall k
      ensures (k in m' <==> CategoriesOf(rows[..i + 1], k) != [])
      ensures k in m' ==> m'[k] == CategoriesOf(rows[..i + 1], k)
    {
      AddRowKey(m, m', rows, i, k);
    }
  }

  lemma AddRowKey(m: map<string, seq<Category>>, m': map<string, seq<Category>>, rows: seq<JoinRow>, i: int, k: string)
    requires 0 <= i < |rows| && MapMatches(m, rows[..i])
    requires rows[i].category.None? ==> m' == m
    requires rows[i].category.Some? ==>
      m' == m[rows[i].taskId := (if rows[i].taskId in m then m[rows[i].taskId] else []) + [rows[i].category.value]]
    ensures k in m' <==> CategoriesOf(rows[..i + 1], k) != []
    ensures k in m' ==> m'[k] == CategoriesOf(rows[..i + 1], k)
  {
    CategoriesOfNext(rows, i);
    var prev := CategoriesOf(rows[..i], k);
    assert k in m <==> prev != [];
    assert k in m ==> m[k] == prev;
  }

  /** One more row adds its category, if any, to its own task's list. */
  lemma CategoriesOfNext(rows: seq<JoinRow>, i: int)
    requires 0 <= i < |rows|
    ensures forall k :: (CategoriesOf(rows[..i + 1], k)
      == CategoriesOf(rows[..i], k) + (if rows[i].taskId == k && rows[i].category.Some? then [rows[i].category.value] else []))
  {
    assert rows[..i + 1][..i] == rows[..i];
  }

  /** Every category in a task's list comes from one of that task's rows. */
  lemma {:induction false} CategoriesFromRows(rows: seq<JoinRow>, k: string, c: Category)
    requires c in CategoriesOf(rows, k)
    ensures exists i :: 0 <= i < |rows| && rows[i].taskId == k && rows[i].category == Some(c)
    decreases |rows|
  {
    var init := rows[..|rows| - 1];
    var last := rows[|rows| - 1];
    if c in CategoriesOf(init, k) {
      CategoriesFromRows(init, k, c);
      var i :| 0 <= i < |init| && init[i].taskId == k && init[i].category == Some(c);
      assert rows[i] == init[i];
    } else {
      assert last.taskId == k && last.category == Some(c);
    }
  }
}

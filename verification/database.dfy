/** The rows the screens read from and hand to the hosted database: tasks,
    categories and the task/category link rows. Nullable columns are
    Options; timestamps are kept as the ISO text the backend stores. */
module Database {
  import opened Wrappers

  datatype Priority = Low | Medium | High

  datatype TaskStatus = Todo | InProgress | Done

  /** The text the database stores for a priority. */
  function PriorityName(p: Priority): string {
    match p
    case Low => "low"
    case Medium => "medium"
    case High => "high"
  }

  /** The text the database stores for a status. */
  function StatusName(s: TaskStatus): string {
    match s
    case Todo => "todo"
    case InProgress => "in_progress"
    case Done => "done"
  }

  datatype Category = Category(
    id: string,
    userId: string,
    name: string,
    color: string,
    icon: string,
    isDefault: bool,
    createdAt: string
  )

  datatype Task = Task(
    id: string,
    userId: string,
    title: string,
    description: Option<string>,
    dueDate: Option<string>,
    priority: Priority,
    status: TaskStatus,
    isRecurring: bool,
    recurrencePattern: Option<string>,
    isPublic: bool,
    completedAt: Option<string>,
    position: int,
    createdAt: string,
    updatedAt: string
  )

  /** Distinct priorities and statuses are stored as distinct text, so a
      comparison of the stored text is a comparison of the values. */
  lemma NamesInjective(p: Priority, q: Priority, s: TaskStatus, t: TaskStatus)
    ensures PriorityName(p) == PriorityName(q) <==> p == q
    ensures StatusName(s) == StatusName(t) <==> s == t
  {
    if p != q {
      assert PriorityName(p)[0] != PriorityName(q)[0];
    }
    if s != t {
      assert StatusName(s)[0] != StatusName(t)[0];
    }
  }

  /** The columns the client writes when it inserts a category; the
      backend fills in the id and the creation time. */
  datatype CategoryInsert = CategoryInsert(
    userId: string,
    name: string,
    color: string,
    icon: string,
    isDefault: bool
  )

  /** A row of the task/category link table. */
  datatype TaskCategory = TaskCategory(taskId: string, categoryId: string)
}

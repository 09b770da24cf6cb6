/** The table view of the task list (src/app/Components/TaskList.tsx).

    The component renders the `tasks` prop in its given order, one table row
    per task, or an empty-state panel when the list is empty. Its delete button
    runs `handleDelete`: a confirmation dialog, then the remote `deleteTask`
    call, then either the parent's `onDeleteTask` callback with a success toast
    and a router refresh, or an error toast. The dialog's answer and the remote
    call's outcome are inputs; the side effects are returned as a trace. */
module TaskList {
  import opened TaskTypes
  import TaskCardList

  // ---------------------------------------------------------------------------
  // Status badge and label

  /** The status pill colour: a fallback colour for values other than the two
      declared statuses. */
  datatype Badge = Green | Blue | Amber

  function StatusBadge(status: string): (b: Badge)
    ensures b == Green <==> status == Completed
    ensures b == Blue <==> status == Pending
    ensures b == Amber <==> status != Completed && status != Pending
  {
    if status == Completed then Green
    else if status == Pending then Blue
    else Amber
  }

  predicate IsLowerAscii(c: char)
  {
    'a' <= c <= 'z'
  }

  /** `toUpperCase` on one character, for the ASCII letters. */
  function UpperAscii(c: char): (u: char)
    ensures IsLowerAscii(c) ==> 'A' <= u <= 'Z' && u as int == c as int - 32
    ensures !IsLowerAscii(c) ==> u == c
    ensures !IsLowerAscii(u)
  {
    if IsLowerAscii(c) then (c as int - 32) as char else c
  }

  /** The status label: first character upper-cased, the rest unchanged. */
  function Capitalize(s: string): (r: string)
    ensures |r| == |s|
    ensures |s| > 0 ==> r[0] == UpperAscii(s[0]) && r[1..] == s[1..]
  {
    if s == "" then "" else [UpperAscii(s[0])] + s[1..]
  }

  /** A label capitalizes to itself. */
  lemma CapitalizeIdempotent(s: string)
    ensures Capitalize(Capitalize(s)) == Capitalize(s)
  {
  }

  lemma DeclaredStatusLabels()
    ensures Capitalize(Pending) == "Pending"
    ensures Capitalize(Completed) == "Completed"
  {
  }

  // ---------------------------------------------------------------------------
  // Rows

  const NoDescription: string := "No description provided"

  /** The date cell: the formatted date, or "Invalid date" when there is none. */
  datatype DueCell = Formatted(timestamp: int) | InvalidDate

  datatype Row = Row(
    key: string,
    title: string,
    description: string,
    badge: Badge,
    statusLabel: string,
    dueCell: DueCell,
    overdue: bool,
    deleteDisabled: bool,
    deleteText: string)

  /** The table body: the empty-state panel, or the table with its rows. */
  datatype TableView = EmptyState | Table(rows: seq<Row>)

  /** The description cell is never blank. */
  function DescriptionCell(description: string): (r: string)
    ensures r != ""
    ensures description != "" ==> r == description
    ensures description == "" ==> r == NoDescription
  {
    if description != "" then description else NoDescription
  }

  function DueCellOf(dueDate: Option<int>): (r: DueCell)
    ensures r.Formatted? <==> dueDate.Some?
    ensures r.Formatted? ==> r.timestamp == dueDate.value
  {
    match dueDate
    case Some(t) => Formatted(t)
    case None => InvalidDate
  }

  /** `new Date(due_date) < new Date()`: a missing date parses to an invalid
      date, and comparing an invalid date is false. */
  predicate DueBefore(dueDate: Option<int>, now: int)
  {
    match dueDate
    case Some(t) => t < now
    case None => false
  }

  /** The "Overdue" text and the red styling of the date cell. */
  function RowOverdue(task: Task, now: int): (r: bool)
    ensures r <==> task.dueDate.Some? && task.dueDate.value < now && task.status != Completed
  {
    DueBefore(task.dueDate, now) && task.status != Completed
  }

  function RowOf(task: Task, deletingId: Option<string>, now: int): (r: Row)
    ensures r.key == task.id && r.title == task.title
    ensures r.description == DescriptionCell(task.description)
    ensures r.description != "" && (task.description != "" ==> r.description == task.description)
    ensures r.badge == StatusBadge(task.status)
    ensures r.statusLabel == Capitalize(task.status)
    ensures |r.statusLabel| == |task.status|
    ensures r.dueCell == DueCellOf(task.dueDate)
    ensures r.dueCell.Formatted? <==> task.dueDate.Some?
    ensures r.overdue <==> task.dueDate.Some? && task.dueDate.value < now && task.status != Completed
    ensures r.deleteDisabled <==> deletingId == Some(task.id)
    ensures r.deleteText == (if r.deleteDisabled then "Deleting..." else "Delete")
  {
    var busy := deletingId == Some(task.id);
    Row(task.id, task.title, DescriptionCell(task.description), StatusBadge(task.status),
        Capitalize(task.status), DueCellOf(task.dueDate), RowOverdue(task, now),
        busy, if busy then "Deleting..." else "Delete")
  }

  /** The whole view. `tasks?.length === 0` is false for an absent list, so an
      absent list renders the table with no rows. */
  function ListView(tasks: Option<seq<Task>>, deletingId: Option<string>, now: int): (v: TableView)
    ensures v.EmptyState? <==> tasks == Some([])
    ensures v.Table? ==> |v.rows| == (if tasks.Some? then |tasks.value| else 0)
    ensures v.Table? && tasks.Some? ==>
      forall i :: 0 <= i < |v.rows| ==> v.rows[i] == RowOf(tasks.value[i], deletingId, now)
  {
    match tasks
    case Some(ts) =>
      if |ts| == 0 then EmptyState
      else Table(seq(|ts|, i requires 0 <= i < |ts| => RowOf(ts[i], deletingId, now)))
    case None => Table([])
  }

  /** One row per task, in input order, keyed by the task's id. */
  lemma RowsFollowTasks(ts: seq<Task>, deletingId: Option<string>, now: int)
    requires ts != []
    ensures var v := ListView(Some(ts), deletingId, now);
      v.Table? && |v.rows| == |ts| &&
      forall i :: 0 <= i < |ts| ==> v.rows[i].key == ts[i].id && v.rows[i].title == ts[i].title
  {
  }

  /** What a click on a row's delete button passes to `handleDelete`: nothing
      while the button is disabled. */
  function ClickDelete(row: Row): (r: Option<string>)
    ensures r.Some? <==> !row.deleteDisabled
    ensures r.Some? ==> r.value == row.key
  {
    if row.deleteDisabled then None else Some(row.key)
  }

  // ---------------------------------------------------------------------------
  // The delete handler

  /** How the awaited `deleteTask` promise settled. */
  datatype RemoteOutcome = Resolved | Rejected

  datatype Effect =
    | ConfirmDialog
    | DeleteTaskCall(taskId: string)
    | OnDeleteTask(deletedId: string)
    | SuccessToast
    | ErrorToast
    | RouterRefresh

  /** The side effects of `handleDelete(taskId)`, in the order they happen,
      given the dialog's answer and how the remote call settled. */
  function DeleteTrace(taskId: string, confirmed: bool, outcome: RemoteOutcome): seq<Effect>
  {
    if !confirmed then [ConfirmDialog]
    else if outcome == Resolved then
      [ConfirmDialog, DeleteTaskCall(taskId), OnDeleteTask(taskId), SuccessToast, RouterRefresh]
    else [ConfirmDialog, DeleteTaskCall(taskId), ErrorToast]
  }

  /** `handleDelete(taskId)`: the effects it performs, step by step. */
  method HandleDelete(taskId: string, confirmed: bool, outcome: RemoteOutcome) returns (effects: seq<Effect>)
    ensures effects == DeleteTrace(taskId, confirmed, outcome)
  {
    effects := [ConfirmDialog];
    if confirmed {
      effects := effects + [DeleteTaskCall(taskId)];
      if outcome == Resolved {
        effects := effects + [OnDeleteTask(taskId)];
        effects := effects + [SuccessToast];
        effects := effects + [RouterRefresh];
      } else {
        effects := effects + [ErrorToast];
      }
    }
  }

  /** What `handleDelete` promises: nothing happens after a declined dialog; a
      confirmed one calls `deleteTask` once; `onDeleteTask(taskId)` is called
      exactly once, and only after `deleteTask` resolved; a rejected delete never
      reaches `onDeleteTask` and shows an error toast. */
  lemma DeleteTraceGuarantees(taskId: string, confirmed: bool, outcome: RemoteOutcome)
    ensures var tr := DeleteTrace(taskId, confirmed, outcome);
      && |tr| > 0 && tr[0] == ConfirmDialog
      && (!confirmed ==> tr == [ConfirmDialog])
      && (confirmed ==> |tr| > 1 && tr[1] == DeleteTaskCall(taskId))
      && multiset(tr)[DeleteTaskCall(taskId)] == (if confirmed then 1 else 0)
      && multiset(tr)[OnDeleteTask(taskId)] == (if confirmed && outcome == Resolved then 1 else 0)
      && (forall k :: 0 <= k < |tr| && tr[k].OnDeleteTask? ==>
            tr[k].deletedId == taskId && k > 1 && tr[1] == DeleteTaskCall(taskId))
      && (SuccessToast in tr <==> confirmed && outcome == Resolved)
      && (RouterRefresh in tr <==> confirmed && outcome == Resolved)
      && (ErrorToast in tr <==> confirmed && outcome == Rejected)
  {
  }

  // ---------------------------------------------------------------------------
  // The two views agree

  /** For the same task, the card and the row agree on the overdue marker, on
      whether the task shows as completed, and on the delete button's state. */
  lemma CardAndRowAgree(task: Task, deletingId: Option<string>, now: int)
    ensures var card := TaskCardList.CardOf(task, deletingId, now);
      var row := RowOf(task, deletingId, now);
      && (card.due.Some? && card.due.value.overdue <==> row.overdue)
      && (card.badge == TaskCardList.Green <==> row.badge == Green)
      && card.deleteButton.disabled == row.deleteDisabled
      && card.deleteButton.text == row.deleteText
      && TaskCardList.ClickDelete(card) == ClickDelete(row)
  {
  }
}

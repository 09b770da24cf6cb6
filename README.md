# TaskFlow list components in Dafny

TaskFlow is a browser dashboard for tasks. Each task has an id, a title, a
description, a status (`pending` or `completed`) and a due date. Nearly all of
the code is markup and HTTP glue. This project models the logic in the two list
components:

- **The card list** (`src/app/Components/TaskCardList.tsx`). It holds a sort
  order, which starts ascending and is flipped by a button. On each render it
  copies the `tasks` prop, sorts the copy by due date, and shows one card per
  task. A card has a description preview cut at 50 characters, a
  "(Overdue)" marker, and a delete button that is disabled while the parent
  reports that task as being deleted.
- **The table list** (`src/app/Components/TaskList.tsx`). It shows one row per
  task in input order, or an empty-state panel. A row has a description
  fallback, a three-way status badge, a capitalised status label, an overdue
  flag and a delete button. The button runs `handleDelete`: confirm, then the
  remote delete, then either the parent callback or an error toast.

Modules:

- `TaskTypes` (`task_types.dfy`): the task record. A due date is an
  already-parsed timestamp or `None`. `None` stands for a missing or empty
  `due_date`, the only case the code treats as missing. An empty
  `description` stands for a missing one. `status` keeps the raw string,
  because the table renders unknown values.
- `DueDateOrder` (`due_date_order.dfy`): the comparator and the order toggle.
  It also defines `SortByDue`, a stable insertion sort on sequences, and
  proves what sorting with the comparator yields. `Array.prototype.sort` is
  stable. `StableSortIsUnique` shows that every sorted arrangement that keeps
  tied tasks in input order equals `SortByDue`'s result. So the engine's own
  sort gives the same result.
- `TaskCardList` (`task_card_list.dfy`): a class holding `sortOrder`, the
  in-place insertion sort of the copied array, and the card projection.
- `TaskList` (`task_list.dfy`): the row projection and the table view.
  `handleDelete` is a method that returns its side effects as a trace. The
  module also proves that a card and a row agree for the same task.

The comparator returns zero exactly for two tasks with the same due date. So
"ties keep their input order" is stated as: for every due date `d`, the tasks
with due date `d` appear in the same order in the input and in the result
(`KeepsTies`).

The code has no task store and no deletion coordinator. `deletingId` is a
prop passed in by the parent (`TaskList.tsx:12`, `TaskCardList.tsx:11`). So the
model does not claim that only one deletion runs at a time. Only a falsy
`due_date` counts as missing (`TaskCardList.tsx:22-24`). There is no separate
ordering for present but unparseable dates.

## Model

| member | source | states |
|---|---|---|
| `DueDateOrder.Compare` | src/app/Components/TaskCardList.tsx:20-29 | the comparator is zero exactly when both due dates are equal (both missing, or the same timestamp); a missing date sorts after a present one under `asc` and before it under `desc`; two present dates put the earlier first under `asc` and the later first under `desc` |
| `DueDateOrder.Flip` | src/app/Components/TaskCardList.tsx:31-33 | the toggled order always differs from the current one |
| `DueDateOrder.FlipTwice` | src/app/Components/TaskCardList.tsx:31-33 | toggling twice restores the original order |
| `DueDateOrder.ComparatorIsConsistent` | src/app/Components/TaskCardList.tsx:20-29 | the comparator is antisymmetric and transitive; it is zero exactly for tasks with equal due dates; the `desc` comparator is the negation of the `asc` one |
| `DueDateOrder.SortByDuePermutation` | src/app/Components/TaskCardList.tsx:20 | the sorted result is a permutation of the input, with the same length |
| `DueDateOrder.SortByDueSorted` | src/app/Components/TaskCardList.tsx:20-29 | the comparator never puts an earlier element of the result after a later one |
| `DueDateOrder.SortByDueMissingAtEnd` | src/app/Components/TaskCardList.tsx:22-24 | under `asc` every task without a due date comes after every task with one; under `desc`, before every such task |
| `DueDateOrder.SortByDueDatedMonotone` | src/app/Components/TaskCardList.tsx:26-28 | among tasks with due dates, timestamps are non-decreasing under `asc` and non-increasing under `desc` |
| `DueDateOrder.SortByDueKeepsTies` | src/app/Components/TaskCardList.tsx:22-28 | tasks the comparator treats as equal (both missing, or equal timestamps) keep their input order |
| `DueDateOrder.StableSortIsUnique` | src/app/Components/TaskCardList.tsx:20 | any sorted arrangement that keeps ties in input order is exactly `SortByDue`'s result, so any stable sort with this comparator gives it |
| `DueDateOrder.SortedArrangementUnique` | src/app/Components/TaskCardList.tsx:20 | two sorted sequences that agree on every class of tied tasks are equal |
| `DueDateOrder.DescIsReversedAsc` | src/app/Components/TaskCardList.tsx:23-28 | sorting `desc` equals sorting the reversed input `asc` and reversing the result |
| `TaskCardList.SortInPlace` | src/app/Components/TaskCardList.tsx:20-29 | sorting the array in place leaves exactly `SortByDue` of its old contents |
| `TaskCardList.InsertIntoPrefix` | src/app/Components/TaskCardList.tsx:20-29 | one insertion pass leaves the prefix equal to inserting the old `a[i]` into the old prefix, and leaves the rest of the array untouched |
| `TaskCardList.CardListState.constructor` | src/app/Components/TaskCardList.tsx:17 | the sort order starts as `asc` |
| `TaskCardList.CardListState.ToggleSortOrder` | src/app/Components/TaskCardList.tsx:31-33 | the new sort order is the flip of the old one |
| `TaskCardList.CardListState.SortedTasks` | src/app/Components/TaskCardList.tsx:20-29 | a copy of the prop is sorted; the result is a permutation, sorted under the current order, and keeps ties in input order; the prop array is not modified |
| `TaskCardList.CardListState.Render` | src/app/Components/TaskCardList.tsx:72-82 | "No tasks found" is shown exactly when the prop is empty; otherwise the cards follow the sorted copy |
| `TaskCardList.DescriptionPreview` | src/app/Components/TaskCardList.tsx:111-119 | no preview for an empty description; a description over 50 characters becomes its first 50 characters plus "...", length 53; a shorter one is shown unchanged |
| `TaskCardList.PreviewIsStable` | src/app/Components/TaskCardList.tsx:118 | previewing a preview gives the same preview |
| `TaskCardList.StatusBadge` | src/app/Components/TaskCardList.tsx:100-104 | the card's pill is green exactly for `completed`, yellow for any other status |
| `TaskCardList.DueLineOf` | src/app/Components/TaskCardList.tsx:123-133 | the due line appears exactly when a due date is present; "(Overdue)" is shown exactly when that date is before now and the status is not `completed` |
| `TaskCardList.DeleteButtonOf` | src/app/Components/TaskCardList.tsx:159-171 | the button is disabled and reads "Deleting..." exactly when `deletingId` equals the task's id |
| `TaskCardList.CardOf` | src/app/Components/TaskCardList.tsx:82-173 | a card is keyed by the task id and shows its title and raw status; it is the tuple of `StatusBadge` (green exactly for `completed`), `DescriptionPreview` of the description, `DueLineOf` the task, and `DeleteButtonOf` (disabled exactly when `deletingId` equals the id) |
| `TaskCardList.ClickDelete` | src/app/Components/TaskCardList.tsx:165-166 | a click passes the card's own id to `onDeleteTask`, and nothing while the button is disabled |
| `TaskCardList.CardListView` | src/app/Components/TaskCardList.tsx:72-84 | empty view exactly for an empty list; otherwise one card per task, in the given order |
| `TaskCardList.ClickDeletesOwnTask` | src/app/Components/TaskCardList.tsx:82-84 | in the rendered list, the i-th card's button hands over the i-th task's id unless that task is being deleted |
| `TaskList.StatusBadge` | src/app/Components/TaskList.tsx:136-142 | green exactly for `completed`, blue exactly for `pending`, amber exactly for any other value |
| `TaskList.UpperAscii` | src/app/Components/TaskList.tsx:144 | lower-case ASCII letters map to their upper-case letter; other characters are unchanged; the result is never a lower-case letter |
| `TaskList.Capitalize` | src/app/Components/TaskList.tsx:144 | the label has the status's length, its first character upper-cased and the rest unchanged |
| `TaskList.CapitalizeIdempotent` | src/app/Components/TaskList.tsx:144 | capitalising a label again changes nothing |
| `TaskList.DeclaredStatusLabels` | src/app/Components/TaskList.tsx:144 | `pending` shows as "Pending" and `completed` as "Completed" |
| `TaskList.DescriptionCell` | src/app/Components/TaskList.tsx:129 | the cell is never blank: the description, or "No description provided" when it is empty |
| `TaskList.DueCellOf` | src/app/Components/TaskList.tsx:18-25 | a present date is formatted; a missing one shows "Invalid date" |
| `TaskList.RowOverdue` | src/app/Components/TaskList.tsx:151-160 | "Overdue" appears exactly when the due date is present, before now, and the status is not `completed` |
| `TaskList.RowOf` | src/app/Components/TaskList.tsx:103-220 | a row is keyed by the task id; its description is `DescriptionCell` of the task's (never blank, the description itself when present); its label is `Capitalize` of the status; its badge is `StatusBadge` of the status; its date cell is `DueCellOf` of the due date; it shows the overdue flag; its delete button is disabled and reads "Deleting..." exactly when `deletingId` equals the id |
| `TaskList.ListView` | src/app/Components/TaskList.tsx:40-105 | the empty state is shown exactly for an empty list; otherwise one row per task in input order; an absent list renders a table with no rows |
| `TaskList.RowsFollowTasks` | src/app/Components/TaskList.tsx:103-105 | row i is keyed by task i's id and shows its title |
| `TaskList.ClickDelete` | src/app/Components/TaskList.tsx:213-215 | a click hands the row's id to `handleDelete`, and nothing while the button is disabled |
| `TaskList.HandleDelete` | src/app/Components/TaskList.tsx:27-38 | performing the handler's steps yields exactly the effect trace `DeleteTrace`: confirm dialog, then on confirmation the `deleteTask` call, then either `onDeleteTask`, success toast and refresh, or an error toast |
| `TaskList.DeleteTraceGuarantees` | src/app/Components/TaskList.tsx:27-38 | a declined confirm does nothing more; a confirmed one calls `deleteTask` once; `onDeleteTask(taskId)` is called exactly once and only after `deleteTask` resolves; on rejection it is never called and an error toast is emitted |
| `TaskList.CardAndRowAgree` | src/app/Components/TaskList.tsx:151-160 | for the same task, card and row agree on the overdue marker, on the completed badge, and on the delete button's state, text and click |

## Left out

- `src/app/lib/api.ts` is not part of this model. It holds HTTP calls to an external API. The result of `deleteTask` is an input (`RemoteOutcome`).
- Date parsing and formatting (`new Date`, `getTime`, `isValid`, `format`) are not modelled. A due date is an already-parsed integer timestamp. A present date that does not parse gives NaN in the comparator, which makes the comparator inconsistent. That case is outside the model.
- The wall clock: "now" is a parameter.
- The browser `confirm` dialog is an input (`confirmed`). Toasts and `router.refresh` are recorded only as effects in the trace.
- `src/app/Components/TaskForm.tsx`, `src/app/Components/UI/DeleteButton.tsx`, `src/app/page.tsx`, the task pages, theming, layout and loading markup are not part of this model. They are forms, routing, network calls, DOM or styling.
- framer-motion animation, CSS classes and the sort-direction arrow are not modelled; they are presentation only.
- The engine's sorting algorithm itself is not modelled. `StableSortIsUnique` shows that any stable sort with this comparator gives `SortByDue`'s result.
- Comparator differences are exact integers. The source subtracts floating-point millisecond values, which are exact for real dates.
- An absent `tasks` prop in the card list (spreading `undefined` throws) is not modelled; the prop is typed as required there.
- `HandleDelete`: assumes `onDeleteTask`, `toast.success` and `router.refresh` return normally. If one of them threw, the catch branch would add an error toast after the callback.
- `UpperAscii`: upper-cases only ASCII letters. JavaScript's `toUpperCase` maps all of Unicode, and a few characters change length (for example `ß` becomes `SS`).
- `DescriptionPreview`: counts Unicode scalar values. JavaScript's `length` and `slice` count UTF-16 code units.

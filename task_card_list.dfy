/** The card view of the task list (src/app/Components/TaskCardList.tsx).

    The component keeps one piece of state, the sort order, which starts `Asc` and
    is flipped by the sort button. Each render copies the `tasks` prop, sorts the
    copy in place with the due-date comparator, and projects every task onto a
    card. `deletingId` is a prop the parent passes in; this component only reads it. */
module TaskCardList {
  import opened TaskTypes
  import opened DueDateOrder

  /** Where the scan stops, `x` goes right after `t[..j]`. */
  lemma InsertScanStop(t: seq<Task>, x: Task, j: nat, order: SortOrder)
    requires j <= |t| && (j == 0 || Compare(t[j - 1], x, order) <= 0)
    ensures Insert(t[..j], x, order) == t[..j] + [x]
  {
  }

  /** Inserting `x` into `t` puts it right after `t[..j]` when the comparator puts
      every element of `t[j..]` after `x` and does not put `t[j - 1]` after it:
      the position the right-to-left scan of `InsertIntoPrefix` stops at. */
  lemma {:induction false} InsertAfterScan(t: seq<Task>, x: Task, j: nat, order: SortOrder)
    requires j <= |t| && (j == 0 || Compare(t[j - 1], x, order) <= 0)
    requires forall k :: j <= k < |t| ==> Compare(t[k], x, order) > 0
    ensures Insert(t, x, order) == t[..j] + [x] + t[j..]
    decreases |t|
  {
    if |t| == j {
      assert t[..j] == t && t[j..] == [];
      InsertScanStop(t, x, j, order);
    } else {
      var init, last := t[..|t| - 1], t[|t| - 1];
      assert init[..j] == t[..j] && init[j..] + [last] == t[j..] by {
        assert t == init + [last];
      }
      calc {
        Insert(t, x, order);
        { assert Compare(last, x, order) > 0; }
        Insert(init, x, order) + [last];
        { InsertAfterScan(init, x, j, order); }
        (init[..j] + [x] + init[j..]) + [last];
        t[..j] + [x] + (init[j..] + [last]);
        t[..j] + [x] + t[j..];
      }
    }
  }

  /** Shifts right, by one place, the elements left of `a[i]` that the
      comparator puts after `key`, scanning from `a[i - 1]` leftwards; returns
      the slot they vacate. `a[i]` is overwritten. */
  method ShiftAfterKey(a: array<Task>, i: nat, key: Task, order: SortOrder) returns (j: nat)
    requires i < a.Length
    modifies a
    ensures j <= i
    ensures j == 0 || Compare(old(a[j - 1]), key, order) <= 0
    ensures forall k :: j <= k < i ==> Compare(old(a[k]), key, order) > 0
    ensures forall k :: 0 <= k <= j ==> a[k] == old(a[k])
    ensures forall k :: j < k <= i ==> a[k] == old(a[k - 1])
    ensures forall k :: i < k < a.Length ==> a[k] == old(a[k])
  {
    j := i;
    while j > 0 && Compare(a[j - 1], key, order) > 0
      invariant 0 <= j <= i
      invariant forall k :: j <= k < i ==> Compare(old(a[k]), key, order) > 0
      invariant forall k :: 0 <= k <= j ==> a[k] == old(a[k])
      invariant forall k :: j < k <= i ==> a[k] == old(a[k - 1])
      invariant forall k :: i < k < a.Length ==> a[k] == old(a[k])
    {
      a[j] := a[j - 1];
      j := j - 1;
    }
  }

  /** Moves `a[i]` left past every element of the prefix `a[..i]` that the
      comparator puts after it: one pass of insertion sort. */
  method InsertIntoPrefix(a: array<Task>, i: nat, order: SortOrder)
    requires i < a.Length
    modifies a
    ensures a[..i + 1] == Insert(old(a[..i]), old(a[i]), order)
    ensures a[i + 1..] == old(a[i + 1..])
  {
    ghost var t := a[..i];
    var key := a[i];
    var j := ShiftAfterKey(a, i, key, order);
    a[j] := key;
    InsertAfterScan(t, key, j, order);
    ghost var r := t[..j] + [key] + t[j..];
    assert |r| == i + 1;
    forall k | 0 <= k <= i
      ensures a[k] == r[k]
    {
      if k < j {
        assert r[k] == t[k];
      } else if j < k {
        assert r[k] == t[k - 1];
      }
    }
    assert a[..i + 1] == r;
    assert forall k :: i < k < a.Length ==> a[k] == old(a[k]);
  }

  /** Sorting one more element of the input inserts it into the sorted prefix. */
  lemma SortByDuePrefixStep(input: seq<Task>, i: nat, order: SortOrder)
    requires i < |input|
    ensures SortByDue(input[..i + 1], order) == Insert(SortByDue(input[..i], order), input[i], order)
  {
    assert input[..i + 1][..i] == input[..i];
  }

  /** Sorts `a` in place with the due-date comparator by stable insertion sort. */
  method SortInPlace(a: array<Task>, order: SortOrder)
    modifies a
    ensures a[..] == SortByDue(old(a[..]), order)
  {
    ghost var input := a[..];
    var i := 0;
    while i < a.Length
      invariant 0 <= i <= a.Length
      invariant a[..i] == SortByDue(input[..i], order)
      invariant a[i..] == input[i..]
    {
      ghost var before := a[..];
      assert before[..i] == SortByDue(input[..i], order) && before[i] == input[i];
      assert before[i + 1..] == input[i + 1..];
      InsertIntoPrefix(a, i, order);
      SortByDuePrefixStep(input, i, order);
      i := i + 1;
    }
    assert input[..a.Length] == input;
  }

  class CardListState {
    var sortOrder: SortOrder

    constructor ()
      ensures sortOrder == Asc
    {
      sortOrder := Asc;
    }

    /** The sort button's handler. */
    method ToggleSortOrder()
      modifies this
      ensures sortOrder == Flip(old(sortOrder))
    {
      sortOrder := Flip(sortOrder);
    }

    /** `sortedTasks`: a sorted copy of the prop. The prop array itself is not
        modified: the method has no `modifies` clause. */
    method SortedTasks(tasks: array<Task>) returns (sorted: seq<Task>)
      ensures sorted == SortByDue(tasks[..], sortOrder)
      ensures multiset(sorted) == multiset(tasks[..])
      ensures Sorted(sorted, sortOrder)
      ensures KeepsTies(sorted, tasks[..])
    {
      var copy := new Task[tasks.Length](i requires 0 <= i < tasks.Length reads tasks => tasks[i]);
      assert copy[..] == tasks[..];
      SortInPlace(copy, sortOrder);
      sorted := copy[..];
      SortByDuePermutation(tasks[..], sortOrder);
      SortByDueSorted(tasks[..], sortOrder);
      SortByDueKeepsTies(tasks[..], sortOrder);
    }

    /** One render of the component: the sorted copy projected onto cards. */
    method Render(tasks: array<Task>, deletingId: Option<string>, now: int) returns (view: CardList)
      ensures view == CardListView(SortByDue(tasks[..], sortOrder), deletingId, now)
      ensures view.NoTasksFound? <==> tasks.Length == 0
    {
      var sorted := SortedTasks(tasks);
      view := CardListView(sorted, deletingId, now);
    }
  }

  // ---------------------------------------------------------------------------
  // Card projection

  /** The status pill: green for `completed`, yellow for every other value. */
  datatype CardBadge = Green | Yellow

  datatype DueLine = DueLine(dueAt: int, overdue: bool)

  datatype DeleteButton = DeleteButton(disabled: bool, text: string)

  datatype Card = Card(
    key: string,
    title: string,
    statusText: string,
    badge: CardBadge,
    preview: Option<string>,
    due: Option<DueLine>,
    deleteButton: DeleteButton)

  datatype CardList = NoTasksFound | Cards(cards: seq<Card>)

  const PreviewLimit: nat := 50
  const Ellipsis: string := "..."
  const DeletingLabel: string := "Deleting..."
  const DeleteLabel: string := "Delete"

  /** The description paragraph: absent for an empty description, the first 50
      characters and an ellipsis for a longer one, the text itself otherwise. */
  function DescriptionPreview(description: string): (r: Option<string>)
    ensures r.None? <==> description == ""
    ensures r.Some? ==> |r.value| <= PreviewLimit + |Ellipsis|
    ensures r.Some? && |description| <= PreviewLimit ==> r.value == description
    ensures |description| > PreviewLimit ==>
      r.Some? && |r.value| == PreviewLimit + |Ellipsis| &&
      r.value[..PreviewLimit] == description[..PreviewLimit] && r.value[PreviewLimit..] == Ellipsis
  {
    if description == "" then None
    else if |description| > PreviewLimit then Some(description[..PreviewLimit] + Ellipsis)
    else Some(description)
  }

  /** A preview previews to itself: truncating again changes nothing. */
  lemma PreviewIsStable(description: string)
    requires description != ""
    ensures DescriptionPreview(DescriptionPreview(description).value) == DescriptionPreview(description)
  {
  }

  function StatusBadge(status: string): (b: CardBadge)
    ensures b == Green <==> status == Completed
  {
    if status == Completed then Green else Yellow
  }

  /** The "Due:" line, shown only when a due date is present, with the
      "(Overdue)" marker when that date is before `now` and the task is not
      completed. */
  function DueLineOf(task: Task, now: int): (r: Option<DueLine>)
    ensures r.Some? <==> task.dueDate.Some?
    ensures r.Some? ==> r.value.dueAt == task.dueDate.value
    ensures (r.Some? && r.value.overdue) <==>
      (task.dueDate.Some? && task.dueDate.value < now && task.status != Completed)
  {
    if task.dueDate.None? then None
    else Some(DueLine(task.dueDate.value, task.dueDate.value < now && task.status != Completed))
  }

  /** The delete button is disabled and reads "Deleting..." exactly while the
      parent reports this task's deletion in flight. */
  function DeleteButtonOf(taskId: string, deletingId: Option<string>): (b: DeleteButton)
    ensures b.disabled <==> deletingId == Some(taskId)
    ensures b.text == (if b.disabled then DeletingLabel else DeleteLabel)
  {
    var busy := deletingId == Some(taskId);
    DeleteButton(busy, if busy then DeletingLabel else DeleteLabel)
  }

  /** One card: title, raw status text in its pill, description preview, due
      line and delete button. */
  function CardOf(task: Task, deletingId: Option<string>, now: int): (c: Card)
    ensures c.key == task.id && c.title == task.title && c.statusText == task.status
    ensures c.badge == Green <==> task.status == Completed
    ensures c.preview == DescriptionPreview(task.description)
    ensures c.due == DueLineOf(task, now)
    ensures c.deleteButton.disabled <==> deletingId == Some(task.id)
    ensures c.deleteButton == DeleteButtonOf(task.id, deletingId)
  {
    Card(task.id, task.title, task.status, StatusBadge(task.status),
         DescriptionPreview(task.description), DueLineOf(task, now),
         DeleteButtonOf(task.id, deletingId))
  }

  /** What a click on a card's delete button passes to `onDeleteTask`: the card's
      task id, or nothing when the button is disabled (a disabled button does not
      dispatch clicks). */
  function ClickDelete(card: Card): (r: Option<string>)
    ensures r.Some? <==> !card.deleteButton.disabled
    ensures r.Some? ==> r.value == card.key
  {
    if card.deleteButton.disabled then None else Some(card.key)
  }

  /** The list body: "No tasks found" for an empty list, else one card per
      task in the given (already sorted) order. */
  function CardListView(sorted: seq<Task>, deletingId: Option<string>, now: int): (v: CardList)
    ensures v.NoTasksFound? <==> sorted == []
    ensures v.Cards? ==> |v.cards| == |sorted|
    ensures v.Cards? ==> forall i :: 0 <= i < |sorted| ==> v.cards[i] == CardOf(sorted[i], deletingId, now)
  {
    if |sorted| == 0 then NoTasksFound
    else Cards(seq(|sorted|, i requires 0 <= i < |sorted| => CardOf(sorted[i], deletingId, now)))
  }

  /** Clicking an enabled card's delete button hands that card's own task id to
      `onDeleteTask`; the button of the task being deleted hands over nothing. */
  lemma ClickDeletesOwnTask(tasks: seq<Task>, deletingId: Option<string>, now: int, i: nat)
    requires i < |tasks|
    ensures var v := CardListView(tasks, deletingId, now);
      v.Cards? &&
      ClickDelete(v.cards[i]) == (if deletingId == Some(tasks[i].id) then None else Some(tasks[i].id))
  {
  }
}

/** The task record shared by the list components (src/app/types/task.ts).

    Fields the components treat as "falsy when missing" are modelled so that the
    missing case is a value of the field's type: an empty `description`, and a
    `dueDate` of `None`. A present due date is its already-parsed timestamp in
    milliseconds. `status` is kept as the raw string the remote API sends, because
    the table view renders values other than the two declared ones. */
module TaskTypes {

  datatype Option<+T> = None | Some(value: T)

  datatype Task = Task(
    id: string,
    title: string,
    description: string,
    status: string,
    dueDate: Option<int>)

  const Pending: string := "pending"
  const Completed: string := "completed"
}

/** The task collection shared by the service methods and the client view:
    a table from task id to task document. */
module Tasks {

  datatype Option<+T> = None | Some(value: T)

  /** Identifiers are strings, as Mongo `_id`s and Meteor user ids are. */
  type TaskId = string
  type UserId = string

  /** One task document. `isChecked` is absent until it is first set. */
  datatype Task = Task(text: string, createdAt: int, userId: UserId, isChecked: Option<bool>)

  type Table = map<TaskId, Task>

  /** JavaScript truthiness of the optional `isChecked` field. */
  predicate Checked(isChecked: Option<bool>) {
    isChecked == Some(true)
  }

  /** A pending task: its `isChecked` is not `true` (an absent field counts as pending). */
  predicate Pending(t: Task) {
    !Checked(t.isChecked)
  }

  /** Some document has both this `_id` and this `userId`. */
  predicate Owns(table: Table, id: TaskId, user: UserId) {
    id in table && table[id].userId == user
  }

  /** No entry present in both tables has a different owner in `after`. */
  predicate OwnersKept(before: Table, after: Table) {
    forall k | k in before && k in after :: after[k].userId == before[k].userId
  }
}

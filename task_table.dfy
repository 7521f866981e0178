/** The task collection as a mutable object: the server methods change it
    behind their guards, the client handlers change it directly. */
module TaskStore {
  import opened Tasks
  import opened TasksMethods
  import opened App

  class TaskTable {
    /** The collection's documents by `_id`. */
    var tasks: Table

    constructor ()
      ensures tasks == map[]
    {
      tasks := map[];
    }

    /** `TasksCollection.findOne({ _id: id, userId: user })`. */
    method FindOne(id: TaskId, user: UserId) returns (found: Option<Task>)
      ensures found.Some? <==> Owns(tasks, id, user)
      ensures found.Some? ==> found.value == tasks[id]
    {
      if id in tasks && tasks[id].userId == user {
        found := Some(tasks[id]);
      } else {
        found := None;
      }
    }

    /** The `tasks.insert` method body. */
    method Insert(text: Arg, caller: Option<UserId>, now: int, freshId: TaskId) returns (outcome: Outcome)
      requires freshId !in tasks
      modifies this
      ensures Step(outcome, tasks) == TasksMethods.Insert(old(tasks), text, caller, now, freshId)
    {
      if !text.Str? {
        return Failed(ValidationFailure);
      }
      if caller.None? {
        return Failed(NotAuthorized);
      }
      tasks := tasks[freshId := Task(text.s, now, caller.value, None)];
      outcome := Done;
    }

    /** The `tasks.remove` method body. */
    method Remove(taskId: Arg, caller: Option<UserId>) returns (outcome: Outcome)
      modifies this
      ensures Step(outcome, tasks) == TasksMethods.Remove(old(tasks), taskId, caller)
    {
      if !taskId.Str? {
        return Failed(ValidationFailure);
      }
      if caller.None? {
        return Failed(NotAuthorized);
      }
      var task := FindOne(taskId.s, caller.value);
      if task.None? {
        return Failed(AccessDenied);
      }
      tasks := tasks - {taskId.s};
      outcome := Done;
    }

    /** The `tasks.setIsChecked` method body. */
    method SetIsChecked(taskId: Arg, isChecked: Arg, caller: Option<UserId>) returns (outcome: Outcome)
      modifies this
      ensures Step(outcome, tasks) == TasksMethods.SetIsChecked(old(tasks), taskId, isChecked, caller)
    {
      if !taskId.Str? || !isChecked.Bool? {
        return Failed(ValidationFailure);
      }
      if caller.None? {
        return Failed(NotAuthorized);
      }
      var task := FindOne(taskId.s, caller.value);
      if task.None? {
        return Failed(AccessDenied);
      }
      tasks := tasks[taskId.s := tasks[taskId.s].(isChecked := Some(isChecked.b))];
      outcome := Done;
    }

    /** The view's `toggleChecked`: sets `isChecked` of `id` to the negation of
        the value `shown` on the clicked task, without looking at the owner. */
    method ToggleChecked(id: TaskId, shown: Option<bool>)
      modifies this
      ensures tasks == ToggledChecked(old(tasks), id, shown)
    {
      if id in tasks {
        tasks := tasks[id := tasks[id].(isChecked := Some(!Checked(shown)))];
      }
    }

    /** The view's `deleteTask`: removes `id`, without looking at the owner. */
    method DeleteTask(id: TaskId)
      modifies this
      ensures tasks == Deleted(old(tasks), id)
    {
      tasks := tasks - {id};
    }
  }

  /** No operation on the table, guarded or not, rewrites the owner of a task
      it leaves in place. */
  lemma OwnerNeverRewritten(table: Table, a: Arg, b: Arg, caller: Option<UserId>, now: int,
                            freshId: TaskId, id: TaskId, shown: Option<bool>)
    requires freshId !in table
    ensures OwnersKept(table, TasksMethods.Insert(table, a, caller, now, freshId).table)
    ensures OwnersKept(table, TasksMethods.Remove(table, a, caller).table)
    ensures OwnersKept(table, TasksMethods.SetIsChecked(table, a, b, caller).table)
    ensures OwnersKept(table, ToggledChecked(table, id, shown))
    ensures OwnersKept(table, Deleted(table, id))
  {
  }

  /** The client handlers skip the ownership check the server methods make:
      on a task owned by someone else the server refuses and keeps the table,
      while the handlers change it. */
  lemma HandlersSkipOwnership(table: Table, id: TaskId, owner: UserId, caller: UserId, b: bool)
    requires Owns(table, id, owner) && caller != owner
    ensures TasksMethods.SetIsChecked(table, Str(id), Bool(b), Some(caller)) == Step(Failed(AccessDenied), table)
    ensures TasksMethods.Remove(table, Str(id), Some(caller)) == Step(Failed(AccessDenied), table)
    ensures ToggledChecked(table, id, table[id].isChecked) != table
    ensures Deleted(table, id) != table
  {
    assert id !in Deleted(table, id);
    var toggled := ToggledChecked(table, id, table[id].isChecked);
    assert toggled[id].isChecked != table[id].isChecked;
  }

  /** A session in the order the client goes through it: one user creates a
      task, another user's removal is refused, the creator's succeeds. */
  method Session(creator: UserId, other: UserId, now: int, id: TaskId)
    requires creator != other
  {
    var store := new TaskTable();
    var created := store.Insert(Str("buy milk"), Some(creator), now, id);
    assert created == Done;
    assert id in store.tasks && store.tasks[id].userId == creator && Pending(store.tasks[id]);
    assert |TaskList(store.tasks, Some(creator), true)| == 1 by {
      PendingCountIsHiddenListLength(store.tasks, Some(creator));
      assert (set k | k in store.tasks && store.tasks[k].userId == creator && Pending(store.tasks[k])) == {id};
    }
    var denied := store.Remove(Str(id), Some(other));
    assert denied == Failed(AccessDenied) && id in store.tasks;
    var removed := store.Remove(Str(id), Some(creator));
    assert removed == Done && store.tasks == map[];
    assert TaskList(store.tasks, Some(creator), false) == [];
  }
}

/** The three remotely callable task methods, `tasks.insert`, `tasks.remove` and
    `tasks.setIsChecked`, as functions from the table before the call to the
    outcome and the table after it. Each one validates the shape of its
    arguments, then demands a caller identity, then (for remove and
    setIsChecked) a task with the given id owned by the caller. */
module TasksMethods {
  import opened Tasks

  /** An argument as the runtime type check sees it. */
  datatype Arg = Str(s: string) | Bool(b: bool) | Other

  /** The three failures a method call can end in. */
  datatype ServiceError =
    | ValidationFailure   // a `check(...)` on an argument failed
    | NotAuthorized       // 'Not authorized.': no caller identity
    | AccessDenied        // 'Access denied.': no task with this id owned by the caller

  datatype Outcome = Done | Failed(error: ServiceError)

  /** The outcome of a call together with the table it leaves behind. */
  datatype Step = Step(outcome: Outcome, table: Table)

  /** `tasks.insert(text)`: `now` stands for `new Date` and `freshId` for the id
      the store assigns to the new document. */
  function Insert(table: Table, text: Arg, caller: Option<UserId>, now: int, freshId: TaskId): (r: Step)
    requires freshId !in table
    ensures OwnersKept(table, r.table)
    ensures r.outcome == Failed(ValidationFailure) <==> !text.Str?
    ensures r.outcome == Failed(NotAuthorized) <==> text.Str? && caller.None?
    ensures r.outcome == Done <==> text.Str? && caller.Some?
    ensures r.outcome.Failed? ==> r.table == table
    ensures r.outcome == Done ==>
      && r.table.Keys == table.Keys + {freshId}
      && |r.table| == |table| + 1
      && r.table[freshId] == Task(text.s, now, caller.value, None)
      && (forall k | k in table :: r.table[k] == table[k])
  {
    if !text.Str? then Step(Failed(ValidationFailure), table)
    else if caller.None? then Step(Failed(NotAuthorized), table)
    else Step(Done, table[freshId := Task(text.s, now, caller.value, None)])
  }

  /** `tasks.remove(taskId)`. */
  function Remove(table: Table, taskId: Arg, caller: Option<UserId>): (r: Step)
    ensures OwnersKept(table, r.table)
    ensures r.outcome == Failed(ValidationFailure) <==> !taskId.Str?
    ensures r.outcome == Failed(NotAuthorized) <==> taskId.Str? && caller.None?
    ensures r.outcome == Failed(AccessDenied) <==>
      taskId.Str? && caller.Some? && !Owns(table, taskId.s, caller.value)
    ensures r.outcome.Failed? ==> r.table == table
    ensures r.outcome == Done ==>
      && Owns(table, taskId.s, caller.value)
      && r.table.Keys == table.Keys - {taskId.s}
      && |r.table| == |table| - 1
      && (forall k | k in r.table :: r.table[k] == table[k])
  {
    if !taskId.Str? then Step(Failed(ValidationFailure), table)
    else if caller.None? then Step(Failed(NotAuthorized), table)
    else if !Owns(table, taskId.s, caller.value) then Step(Failed(AccessDenied), table)
    else
      var after := table - {taskId.s};
      assert after.Keys == table.Keys - {taskId.s};
      Step(Done, after)
  }

  /** `tasks.setIsChecked(taskId, isChecked)`: both arguments are checked
      before the caller is looked at. */
  function SetIsChecked(table: Table, taskId: Arg, isChecked: Arg, caller: Option<UserId>): (r: Step)
    ensures OwnersKept(table, r.table)
    ensures r.outcome == Failed(ValidationFailure) <==> !taskId.Str? || !isChecked.Bool?
    ensures r.outcome == Failed(NotAuthorized) <==> taskId.Str? && isChecked.Bool? && caller.None?
    ensures r.outcome == Failed(AccessDenied) <==>
      taskId.Str? && isChecked.Bool? && caller.Some? && !Owns(table, taskId.s, caller.value)
    ensures r.outcome.Failed? ==> r.table == table
    ensures r.outcome == Done ==>
      && Owns(table, taskId.s, caller.value)
      && r.table.Keys == table.Keys
      && r.table[taskId.s].isChecked == Some(isChecked.b)
      && r.table[taskId.s].text == table[taskId.s].text
      && r.table[taskId.s].createdAt == table[taskId.s].createdAt
      && r.table[taskId.s].userId == table[taskId.s].userId
      && (forall k | k in table && k != taskId.s :: r.table[k] == table[k])
  {
    if !taskId.Str? || !isChecked.Bool? then Step(Failed(ValidationFailure), table)
    else if caller.None? then Step(Failed(NotAuthorized), table)
    else if !Owns(table, taskId.s, caller.value) then Step(Failed(AccessDenied), table)
    else Step(Done, table[taskId.s := table[taskId.s].(isChecked := Some(isChecked.b))])
  }

  /** Remove answers a missing id and a task owned by someone else with the
      same failure, and changes nothing in either case. */
  lemma RemoveHidesExistence(table: Table, missing: TaskId, foreign: TaskId, caller: UserId)
    requires missing !in table
    requires foreign in table && table[foreign].userId != caller
    ensures Remove(table, Str(missing), Some(caller)) == Remove(table, Str(foreign), Some(caller))
    ensures Remove(table, Str(missing), Some(caller)) == Step(Failed(AccessDenied), table)
  {
  }

  /** The same holds for setIsChecked, whatever value is being set. */
  lemma SetIsCheckedHidesExistence(table: Table, missing: TaskId, foreign: TaskId, b: bool, caller: UserId)
    requires missing !in table
    requires foreign in table && table[foreign].userId != caller
    ensures SetIsChecked(table, Str(missing), Bool(b), Some(caller))
         == SetIsChecked(table, Str(foreign), Bool(b), Some(caller))
    ensures SetIsChecked(table, Str(missing), Bool(b), Some(caller)) == Step(Failed(AccessDenied), table)
  {
  }

  /** Setting the same value twice has the effect of setting it once, and the
      second call reports what the first did. */
  lemma SetIsCheckedIdempotent(table: Table, taskId: Arg, isChecked: Arg, caller: Option<UserId>)
    ensures var once := SetIsChecked(table, taskId, isChecked, caller);
            SetIsChecked(once.table, taskId, isChecked, caller) == once
  {
    var once := SetIsChecked(table, taskId, isChecked, caller);
    if once.outcome == Done {
      var id := taskId.s;
      assert once.table[id := once.table[id].(isChecked := Some(isChecked.b))] == once.table;
    }
  }

  /** Checking a task and then unchecking it leaves it pending, with every
      other field and every other task as before. */
  lemma CheckThenUncheckIsPending(table: Table, id: TaskId, owner: UserId)
    requires Owns(table, id, owner)
    ensures var checked := SetIsChecked(table, Str(id), Bool(true), Some(owner));
            var unchecked := SetIsChecked(checked.table, Str(id), Bool(false), Some(owner));
            && checked.outcome == Done && unchecked.outcome == Done
            && unchecked.table == table[id := table[id].(isChecked := Some(false))]
            && Pending(unchecked.table[id])
  {
    var checked := SetIsChecked(table, Str(id), Bool(true), Some(owner));
    var unchecked := SetIsChecked(checked.table, Str(id), Bool(false), Some(owner));
    assert unchecked.table == table[id := table[id].(isChecked := Some(false))];
  }

  /** A task created by one user cannot be removed by another; its creator
      can remove it, and that restores the table as it was before the insert. */
  lemma OnlyCreatorRemoves(table: Table, text: string, now: int, id: TaskId, creator: UserId, other: UserId)
    requires id !in table && creator != other
    ensures var created := Insert(table, Str(text), Some(creator), now, id);
            && created.outcome == Done
            && created.table[id].userId == creator && Pending(created.table[id])
            && Remove(created.table, Str(id), Some(other)) == Step(Failed(AccessDenied), created.table)
            && Remove(created.table, Str(id), Some(creator)) == Step(Done, table)
  {
    var created := Insert(table, Str(text), Some(creator), now, id);
    assert created.table - {id} == table;
  }
}

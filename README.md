# Multi-user to-do list: task service and task view, modelled in Dafny

A small multi-user to-do list keeps one collection of tasks. Each task document
maps an id to `{text, createdAt, userId, isChecked?}`. Two pieces of code work on
that collection:

- **Server methods.** `tasks.insert`, `tasks.remove` and `tasks.setIsChecked`
  check the shape of their arguments first. Then they demand a caller identity.
  `remove` and `setIsChecked` then demand a task that has the given id and
  belongs to the caller. Only after all of that do they change the collection.
  A call fails in one of three ways: a validation failure, "Not authorized."
  or "Access denied.".
- **The view.** It filters the collection down to the user's tasks, and to the
  pending ones when completed tasks are hidden. It sorts them newest first,
  counts the pending ones and renders a header badge. Its two click handlers
  write to the collection directly, with no ownership check.

Files:

- `tasks.dfy` (module `Tasks`): the task record, the table `map<TaskId, Task>`,
  and the predicates `Checked` (JavaScript truthiness of `isChecked`, used by
  both the `$ne: true` filter and `toggleChecked`), pending, owns and
  owners-kept.
- `tasks_methods.dfy` (module `TasksMethods`): the three server methods as
  functions from the table before the call to an outcome and the table after
  it, with their guard and frame properties.
- `app.dfy` (module `App`): the filters, the sorted task list, the pending
  count, the badge string, the specifications of the two click handlers, and
  the hide-completed toggle (class `AppState`).
- `task_table.dfy` (module `TaskStore`): class `TaskTable`, whose `tasks` map
  field the server methods and the click handlers update in place. Each method
  is proved equal to its specification function. The module also holds
  lemmas that compare the guarded and the unguarded writes, and a client
  method `Session` that runs one create / foreign remove / owner remove
  sequence on a `TaskTable` object through its methods.

Inputs that come from outside the code are parameters. The caller identity
(`this.userId`, `Meteor.user()._id`) is an `Option<UserId>`. `new Date` is an
integer timestamp `now`. The id the store gives a new document is `freshId`,
which must not already be in the table. The hide-completed state is a boolean.
A `check(x, String)` or `check(x, Boolean)` argument is an `Arg` value:
`Str`, `Bool` or `Other`. That way the validation branch exists.

## Model

| member | source | states |
|---|---|---|
| `TasksMethods.Insert` | imports/api/tasksMethods.js:5-17 | a non-string text fails validation; otherwise no caller fails NotAuthorized; a string text from a present caller always succeeds; every failure leaves the table unchanged; on success exactly one entry is added under the fresh id, with the given text and timestamp, the caller as owner and `isChecked` absent, and every earlier entry is kept |
| `TasksMethods.Remove` | imports/api/tasksMethods.js:19-36 | errors in order: validation, then NotAuthorized, then AccessDenied exactly when no task has this id and the caller as owner; failures leave the table unchanged; on success the caller owned the id, the id is gone, the table has one entry fewer, and every other entry is identical |
| `TasksMethods.SetIsChecked` | imports/api/tasksMethods.js:38-60 | either argument of the wrong type fails validation before the caller is looked at; then NotAuthorized, then AccessDenied exactly when the caller does not own the id; failures leave the table unchanged; on success only `isChecked` of that task changes, to the given boolean |
| `TasksMethods.RemoveHidesExistence` | imports/api/tasksMethods.js:29-33 | a missing id and an id owned by someone else give the same AccessDenied outcome and the same unchanged table |
| `TasksMethods.SetIsCheckedHidesExistence` | imports/api/tasksMethods.js:49-53 | the same for setIsChecked, whatever value is being set |
| `TasksMethods.SetIsCheckedIdempotent` | imports/api/tasksMethods.js:55-59 | calling setIsChecked twice with the same arguments gives the outcome and table of calling it once |
| `TasksMethods.CheckThenUncheckIsPending` | imports/api/tasksMethods.js:49-59 | for the owner, setting true and then false both succeed and leave the task pending; the only change from the original table is `isChecked == false` on that task |
| `TasksMethods.OnlyCreatorRemoves` | imports/api/tasksMethods.js:12-35 | a task inserted by one user is pending and owned by its creator; another user's remove is denied and keeps it; the creator's remove succeeds and restores the table as it was before the insert |
| `TaskStore.TaskTable.FindOne` | imports/api/tasksMethods.js:29 | finds a task exactly when one has both the given id and the given owner, and returns that document |
| `TaskStore.TaskTable.Insert` | imports/api/tasksMethods.js:5-17 | the outcome and the new table are those of `TasksMethods.Insert` on the old table |
| `TaskStore.TaskTable.Remove` | imports/api/tasksMethods.js:19-36 | the outcome and the new table are those of `TasksMethods.Remove` on the old table |
| `TaskStore.TaskTable.SetIsChecked` | imports/api/tasksMethods.js:38-60 | the outcome and the new table are those of `TasksMethods.SetIsChecked` on the old table |
| `TaskStore.TaskTable.ToggleChecked` | imports/ui/App.jsx:38-44 | the new table is `App.ToggledChecked` of the old one; there is no ownership check |
| `TaskStore.TaskTable.DeleteTask` | imports/ui/App.jsx:46 | the new table is `App.Deleted` of the old one; there is no ownership check |
| `TaskStore.OwnerNeverRewritten` | imports/api/tasksMethods.js:12-59 | none of the three server methods (these lines) and neither click handler (imports/ui/App.jsx:38-46) changes the `userId` of a task it keeps, whatever the outcome |
| `TaskStore.HandlersSkipOwnership` | imports/ui/App.jsx:38-46 | on a task owned by another user, the server's setIsChecked and remove are denied and keep the table, while the view's toggle and delete change it |
| `App.UserFilter` | imports/ui/App.jsx:18 | matches exactly the tasks of the user; with no user it places no condition |
| `App.Merge` | imports/ui/App.jsx:21 | the second filter's `userId` wins, otherwise the first's is kept; the `$ne: true` condition is present when either filter has it; when only one filter constrains `userId`, the merged filter matches exactly what both match |
| `App.PendingOnlyFilter` | imports/ui/App.jsx:14-21 | matches exactly the pending tasks of the user (`isChecked` not `true`; absent counts as pending) |
| `App.Select` | imports/ui/App.jsx:30-31 | the documents of the table that match the filter, unchanged |
| `App.NewestFirst` | imports/ui/App.jsx:33 | lists every document of the map once, with its own fields, ordered by `createdAt` non-increasing; order among equal timestamps is left open |
| `App.Find` | imports/ui/App.jsx:30-35 | the ids returned are exactly those of the documents matching the filter, each once with its stored fields, ordered by `createdAt` non-increasing |
| `App.TaskList` | imports/ui/App.jsx:25-36 | with no user the list is empty; otherwise its ids are exactly the user's tasks (only the pending ones when hiding completed), each once with its stored fields, newest first |
| `App.HiddenListWithinFullList` | imports/ui/App.jsx:31 | every entry of the hide-completed list is in the full list |
| `App.PendingCount` | imports/ui/App.jsx:48-53 | 0 with no user, whatever the table holds; otherwise the number of the user's tasks whose `isChecked` is not `true` |
| `App.PendingCountIsHiddenListLength` | imports/ui/App.jsx:21-52 | the pending count (which has no hide-completed input) equals the length of the hide-completed list |
| `App.PendingCountSkipsChecked` | imports/ui/App.jsx:52 | a checked task of the user is not counted: the count is below the number of the user's tasks |
| `App.Decimal` | imports/ui/App.jsx:56 | the number renders as a non-empty string of decimal digits with no leading zero |
| `App.DecimalRoundTrip` | imports/ui/App.jsx:56 | reading the rendered digits back gives the number |
| `App.PendingTitle` | imports/ui/App.jsx:55-57 | the badge is empty exactly when the count is 0; otherwise it is " (" then the count's decimal digits, which read back as the count, then ")" |
| `App.ToggledChecked` | imports/ui/App.jsx:38-44 | same ids; the given task's `isChecked` becomes the negation of the value shown on the clicked task; its other fields and all other tasks are unchanged; a missing id changes nothing |
| `App.ToggleFlipsPending` | imports/ui/App.jsx:38-44 | toggling a task as stored flips whether it is pending (absent becomes `true`), and a second toggle flips it back |
| `App.ToggleMissingIsNoOp` | imports/ui/App.jsx:39 | toggling an id the table does not hold leaves it unchanged |
| `App.Deleted` | imports/ui/App.jsx:46 | exactly the given id is removed; every other entry is unchanged |
| `App.AppState.constructor` | imports/ui/App.jsx:9 | completed tasks are shown at first |
| `App.AppState.ToggleHideCompleted` | imports/ui/App.jsx:82 | the filter button flips the hide-completed flag |

Two points on what the code does:

- `tasks.insert` has no `return` statement (imports/api/tasksMethods.js:12-16), so it does not hand the new id back to the caller. `TaskTable.Insert` returns only the outcome.

- `toggleChecked` receives the task object that the view rendered and negates
  that object's `isChecked`. It does not re-read the stored value. The model
therefore takes the shown value as the parameter `shown`. `ToggleFlipsPending`
  covers the case where the shown value is the stored one.

## Left out

- Rendering: JSX, CSS classes, button labels, and the `Task`, `TaskForm` and `LoginForm` components are not part of this model. The same goes for logout (`Meteor.logout()`).
- Reactivity: `useTracker` re-evaluation and `useState` are not modelled. The user and the hide-completed flag are plain inputs. The flag's button is the one method `AppState.ToggleHideCompleted`.
- Meteor plumbing: method registration, the RPC transport, and how `this.userId` and `Meteor.user()` are obtained are not modelled. The caller is a parameter. A Meteor user id is never the empty string, so "no caller" is `None`.
- Mongo: id generation is a fresh-id parameter. Only the two query conditions the view uses are modelled, not general query operators. The store's choice among tasks with equal `createdAt` is left open. `NewestFirst` is a ghost function and picks some such order.
- Wall-clock time: `new Date` is an integer parameter.
- Decimal: JavaScript renders numbers of 1e21 and above in exponent form (`1e+21`); `Decimal` writes plain digits for every count. No task collection reaches such a count.
- Error messages: only which of the three errors occurs is modelled, not the message text.
- Concurrency: per-document atomicity and server-side publication scoping are not modelled. Neither appears in the modelled code. Each operation is one step on the table.

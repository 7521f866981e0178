/** The client view of the task collection: the query filters, the task list
    sorted newest first, the pending count and the header badge, plus the two
    write handlers the view calls directly on the collection. */
module App {
  import opened Tasks

  /** A query over task documents restricted to the two conditions the view
      uses: an optional `userId` equality and `isChecked: { $ne: true }`. */
  datatype Filter = Filter(userId: Option<UserId>, notChecked: bool)

  /** Does the document satisfy every condition of the filter? */
  predicate Matches(f: Filter, t: Task) {
    && (f.userId.Some? ==> t.userId == f.userId.value)
    && (f.notChecked ==> Pending(t))
  }

  /** `{ isChecked: { $ne: true } }` */
  const HideCompletedFilter := Filter(None, true)

  /** `user ? { userId: user._id } : {}` */
  function UserFilter(user: Option<UserId>): (f: Filter)
    ensures !f.notChecked
    ensures forall t :: Matches(f, t) <==> (user.Some? ==> t.userId == user.value)
  {
    Filter(user, false)
  }

  /** Object spread `{ ...a, ...b }`: each condition of `b` replaces that of
      `a`, the conditions only `a` has are kept. Merging filters that constrain
      different fields gives their conjunction. */
  function Merge(a: Filter, b: Filter): (f: Filter)
    ensures b.userId.Some? ==> f.userId == b.userId
    ensures b.userId.None? ==> f.userId == a.userId
    ensures f.notChecked == (a.notChecked || b.notChecked)
    ensures a.userId.None? || b.userId.None? ==>
      forall t :: Matches(f, t) <==> Matches(a, t) && Matches(b, t)
  {
    Filter(if b.userId.Some? then b.userId else a.userId, a.notChecked || b.notChecked)
  }

  /** `{ ...hideCompletedFilter, ...userFilter }` */
  function PendingOnlyFilter(user: Option<UserId>): (f: Filter)
    ensures forall t :: Matches(f, t) <==> Pending(t) && (user.Some? ==> t.userId == user.value)
  {
    Merge(HideCompletedFilter, UserFilter(user))
  }

  /** The documents of the table that match the filter. */
  function Select(table: Table, f: Filter): (m: Table)
    ensures m.Keys <= table.Keys
    ensures forall k | k in table :: k in m <==> Matches(f, table[k])
    ensures forall k | k in m :: m[k] == table[k]
  {
    map k | k in table && Matches(f, table[k]) :: table[k]
  }

  /** A document as a query returns it: its id with its fields. */
  datatype Entry = Entry(id: TaskId, task: Task)

  function IdsOf(r: seq<Entry>): set<TaskId> {
    set e | e in r :: e.id
  }

  /** No id occurs twice in the result. */
  predicate Distinct(r: seq<Entry>) {
    forall i, j | 0 <= i < j < |r| :: r[i].id != r[j].id
  }

  /** `sort: { createdAt: -1 }`: creation times never increase along the result. */
  predicate NewestFirstOrder(r: seq<Entry>) {
    forall i, j | 0 <= i < j < |r| :: r[i].task.createdAt >= r[j].task.createdAt
  }

  /** A task in `m` created no earlier than any other task in `m`. */
  predicate IsNewest(m: Table, k: TaskId) {
    k in m && forall j | j in m :: m[j].createdAt <= m[k].createdAt
  }

  lemma {:induction false} NewestExists(m: Table)
    requires |m| > 0
    ensures exists k :: IsNewest(m, k)
    decreases |m|
  {
    var k0 :| k0 in m;
    if |m| == 1 {
      assert m.Keys == {k0} by {
        assert {k0} <= m.Keys;
        assert |m.Keys - {k0}| == 0;
      }
      assert IsNewest(m, k0);
    } else {
      var rest := m - {k0};
      assert rest.Keys == m.Keys - {k0};
      NewestExists(rest);
      var k1 :| IsNewest(rest, k1);
      assert forall j | j in m :: j == k0 || j in rest;
      if m[k0].createdAt <= m[k1].createdAt {
        assert IsNewest(m, k1);
      } else {
        assert IsNewest(m, k0);
      }
    }
  }

  /** The documents of `m` ordered by `createdAt`, newest first; the order of
      documents with equal timestamps is left open. */
  ghost function NewestFirst(m: Table): (r: seq<Entry>)
    ensures |r| == |m|
    ensures IdsOf(r) == m.Keys
    ensures forall e | e in r :: e.id in m && m[e.id] == e.task
    ensures Distinct(r)
    ensures NewestFirstOrder(r)
    decreases |m|
  {
    if |m| == 0 then []
    else
      NewestExists(m);
      var k :| IsNewest(m, k);
      var rest := m - {k};
      assert rest.Keys == m.Keys - {k};
      var tail := NewestFirst(rest);
      NewestThenRest(m, k, tail);
      NewestThenRestOrdered(m, k, tail);
      [Entry(k, m[k])] + tail
  }

  /** Putting the newest task of `m` in front of the ordered rest of `m` gives
      `m` ordered. */
  lemma NewestThenRest(m: Table, k: TaskId, tail: seq<Entry>)
    requires k in m
    requires |tail| == |m - {k}| && IdsOf(tail) == m.Keys - {k}
    requires forall e | e in tail :: e.id in m && m[e.id] == e.task
    ensures var r := [Entry(k, m[k])] + tail;
            && |r| == |m| && IdsOf(r) == m.Keys
            && (forall e | e in r :: e.id in m && m[e.id] == e.task)
  {
    var r := [Entry(k, m[k])] + tail;
    assert |r| == |m| by {
      assert (m - {k}).Keys == m.Keys - {k};
    }
    assert forall e | e in r :: e == r[0] || e in tail;
    assert IdsOf(r) == {k} + IdsOf(tail);
  }

  lemma NewestThenRestOrdered(m: Table, k: TaskId, tail: seq<Entry>)
    requires IsNewest(m, k)
    requires forall e | e in tail :: e.id in m && e.id != k && m[e.id] == e.task
    requires Distinct(tail) && NewestFirstOrder(tail)
    ensures Distinct([Entry(k, m[k])] + tail) && NewestFirstOrder([Entry(k, m[k])] + tail)
  {
    var r := [Entry(k, m[k])] + tail;
    forall i, j | 0 <= i < j < |r|
      ensures r[i].id != r[j].id && r[i].task.createdAt >= r[j].task.createdAt
    {
      assert r[j] == tail[j - 1];
      if i == 0 {
        assert r[j] in tail;
      } else {
        assert r[i] == tail[i - 1];
        assert tail[i - 1].id != tail[j - 1].id;
      }
    }
  }

  /** `TasksCollection.find(filter, { sort: { createdAt: -1 } }).fetch()` */
  ghost function Find(table: Table, f: Filter): (r: seq<Entry>)
    ensures IdsOf(r) == set k | k in table && Matches(f, table[k])
    ensures forall e | e in r :: e.id in table && table[e.id] == e.task
    ensures Distinct(r)
    ensures NewestFirstOrder(r)
  {
    NewestFirst(Select(table, f))
  }

  /** Is the task `k` one the list shows to `user`? */
  predicate Listed(table: Table, user: Option<UserId>, hideCompleted: bool, k: TaskId) {
    && user.Some?
    && k in table
    && table[k].userId == user.value
    && (hideCompleted ==> Pending(table[k]))
  }

  /** The task list: nothing without a user, otherwise the user's tasks, only
      the pending ones when completed tasks are hidden, newest first. */
  ghost function TaskList(table: Table, user: Option<UserId>, hideCompleted: bool): (r: seq<Entry>)
    ensures user.None? ==> r == []
    ensures IdsOf(r) == set k | k in table && Listed(table, user, hideCompleted, k)
    ensures forall e | e in r :: e.id in table && table[e.id] == e.task
    ensures Distinct(r)
    ensures NewestFirstOrder(r)
  {
    if user.None? then []
    else
      var f := if hideCompleted then PendingOnlyFilter(user) else UserFilter(user);
      var r := Find(table, f);
      assert Select(table, f).Keys == set k | k in table && Listed(table, user, hideCompleted, k);
      r
  }

  /** With completed tasks hidden the list shows a part of what it shows
      otherwise. */
  lemma HiddenListWithinFullList(table: Table, user: Option<UserId>)
    ensures forall e | e in TaskList(table, user, true) :: e in TaskList(table, user, false)
  {
  }

  /** `TasksCollection.find(pendingOnlyFilter).count()`, or 0 without a user. */
  function PendingCount(table: Table, user: Option<UserId>): (n: nat)
    ensures user.None? ==> n == 0
    ensures user.Some? ==> n == |set k | k in table && table[k].userId == user.value && Pending(table[k])|
  {
    if user.None? then 0
    else
      var m := Select(table, PendingOnlyFilter(user));
      assert m.Keys == set k | k in table && table[k].userId == user.value && Pending(table[k]);
      |m|
  }

  /** The pending count does not depend on the hide-completed toggle and is the
      length of the list shown while completed tasks are hidden. */
  lemma PendingCountIsHiddenListLength(table: Table, user: Option<UserId>)
    ensures PendingCount(table, user) == |TaskList(table, user, true)|
  {
  }

  /** The pending count never counts a checked task: when the user owns a
      checked task, the count is strictly below the number of all the user's
      tasks. */
  lemma PendingCountSkipsChecked(table: Table, user: UserId, id: TaskId)
    requires Owns(table, id, user) && Checked(table[id].isChecked)
    ensures PendingCount(table, Some(user)) < |set k | k in table && table[k].userId == user|
  {
    var pending := set k | k in table && table[k].userId == user && Pending(table[k]);
    var owned := set k | k in table && table[k].userId == user;
    assert pending <= owned - {id};
    assert |owned - {id}| == |owned| - 1;
    SubsetNoLarger(pending, owned - {id});
  }

  lemma {:induction false} SubsetNoLarger<T>(a: set<T>, b: set<T>)
    requires a <= b
    ensures |a| <= |b|
    decreases |a|
  {
    if a != {} {
      var x :| x in a;
      SubsetNoLarger(a - {x}, b - {x});
    }
  }

  function DigitChar(d: nat): (c: char)
    requires d < 10
  {
    ('0' as int + d) as char
  }

  predicate IsDigit(c: char) {
    '0' <= c <= '9'
  }

  /** The number a string of decimal digits denotes. */
  function DigitsValue(s: string): nat
    requires forall c | c in s :: IsDigit(c)
  {
    if s == [] then 0
    else
      var last := s[|s| - 1];
      assert IsDigit(last) by { assert last in s; }
      DigitsValue(s[..|s| - 1]) * 10 + (last as int - '0' as int)
  }

  /** A number as a template literal renders it: decimal digits, no leading zero. */
  function Decimal(n: nat): (s: string)
    ensures |s| >= 1
    ensures forall c | c in s :: IsDigit(c)
    ensures s[0] == '0' ==> n == 0
  {
    if n < 10 then [DigitChar(n)]
    else Decimal(n / 10) + [DigitChar(n % 10)]
  }

  /** Reading the rendered digits back gives the number. */
  lemma {:induction false} DecimalRoundTrip(n: nat)
    ensures DigitsValue(Decimal(n)) == n
  {
    if n >= 10 {
      var s := Decimal(n);
      assert s[..|s| - 1] == Decimal(n / 10);
      DecimalRoundTrip(n / 10);
    }
  }

  /** The header badge: empty when nothing is pending, " (n)" otherwise. */
  function PendingTitle(count: nat): (title: string)
    ensures title == "" <==> count == 0
    ensures count != 0 ==>
      && |title| >= 4
      && title[..2] == " (" && title[|title| - 1] == ')'
      && (forall c | c in title[2..|title| - 1] :: IsDigit(c))
      && title[2] != '0'
      && DigitsValue(title[2..|title| - 1]) == count
  {
    if count == 0 then ""
    else
      var digits := Decimal(count);
      DecimalRoundTrip(count);
      var title := " (" + digits + ")";
      assert title[2..|title| - 1] == digits;
      title
  }

  /** `toggleChecked({ _id, isChecked })`: the table after `$set: { isChecked:
      !isChecked }` on `id`, where `shown` is the value the clicked task carried. */
  function ToggledChecked(table: Table, id: TaskId, shown: Option<bool>): (r: Table)
    ensures OwnersKept(table, r)
    ensures r.Keys == table.Keys
    ensures id in table ==>
      && r[id].isChecked == Some(!Checked(shown))
      && r[id].text == table[id].text
      && r[id].createdAt == table[id].createdAt
      && r[id].userId == table[id].userId
    ensures forall k | k in table && k != id :: r[k] == table[k]
  {
    if id in table then table[id := table[id].(isChecked := Some(!Checked(shown)))]
    else table
  }

  /** Toggling a task as currently stored flips whether it is pending (an
      absent `isChecked` becomes `true`), and toggling it again flips it back. */
  lemma ToggleFlipsPending(table: Table, id: TaskId)
    requires id in table
    ensures var once := ToggledChecked(table, id, table[id].isChecked);
            && (Pending(once[id]) <==> !Pending(table[id]))
            && (table[id].isChecked.None? ==> once[id].isChecked == Some(true))
            && var twice := ToggledChecked(once, id, once[id].isChecked);
               Pending(twice[id]) <==> Pending(table[id])
  {
  }

  /** Toggling a missing id leaves the table as it is. */
  lemma ToggleMissingIsNoOp(table: Table, id: TaskId, shown: Option<bool>)
    requires id !in table
    ensures ToggledChecked(table, id, shown) == table
  {
  }

  /** `deleteTask({ _id })`: the table after removing `id`, whoever owns it. */
  function Deleted(table: Table, id: TaskId): (r: Table)
    ensures OwnersKept(table, r)
    ensures r.Keys == table.Keys - {id}
    ensures forall k | k in r :: r[k] == table[k]
  {
    table - {id}
  }

  /** The view's own state: the hide-completed toggle, initially off. */
  class AppState {
    var hideCompleted: bool

    constructor ()
      ensures !hideCompleted
    {
      hideCompleted := false;
    }

    /** The filter button: flips the toggle. */
    method ToggleHideCompleted()
      modifies this
      ensures hideCompleted == !old(hideCompleted)
    {
      hideCompleted := !hideCompleted;
    }
  }
}

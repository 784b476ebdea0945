/**
 * The task service: the operations that change the tasks table and the read operations that pass a
 * query through to the repository. The table is the service's `tasks` field, in store order. Every
 * stored row has a unique id below `nextId` (the identity generator) and ordered timestamps no later
 * than `clock`, the last clock reading the service was given.
 *
 * Saving a managed entity flushes it (Flush): an entity whose fields did not change is not written
 * and does not fire @PreUpdate; a changed one is written with updatedAt set to the clock reading.
 */
module TaskServiceImpl {
  import opened Wrappers
  import opened Tasks
  import opened TaskDto
  import Repo = TaskRepository
  import Seqs

  datatype Error = NotFound(id: int) | ImportError

  /** The position of the row with the given id, or -1 when there is none. */
  function IndexOf(table: seq<Task>, id: int): (k: int)
    ensures -1 <= k < |table|
    ensures k >= 0 ==> table[k].id == Some(id)
    ensures k < 0 <==> forall i :: 0 <= i < |table| ==> table[i].id != Some(id)
  {
    if table == [] then -1
    else if table[0].id == Some(id) then 0
    else
      var k := IndexOf(table[1..], id);
      if k < 0 then -1 else k + 1
  }

  predicate UniqueIds(table: seq<Task>) {
    forall i, j :: 0 <= i < j < |table| ==> table[i].id != table[j].id
  }

  /** Every row has a unique generated id below `nextId` and timestamps no later than `clock`. */
  predicate TableValid(table: seq<Task>, nextId: int, clock: Instant) {
    && UniqueIds(table)
    && (forall t :: t in table ==> t.id.Some? && t.id.value < nextId && TimestampsOrdered(t, clock))
  }

  /** The row a flush leaves for an entity loaded as `before` and saved as `after`. */
  function Flush(before: Task, after: Task, now: Instant): (r: Task)
    ensures after == before ==> r == before
    ensures after != before ==> r.updatedAt == Some(now) && r.(updatedAt := after.updatedAt) == after
  {
    if after == before then before else OnUpdate(after, now)
  }

  /** The row a new entity becomes when persisted: the generated identity, then @PrePersist. */
  function Persisted(t: Task, id: int, now: Instant): Task {
    OnCreate(t.(id := Some(id)), now, now)
  }

  /** The fields updateTask copies from the draft onto the loaded entity. */
  function ApplyDraft(t: Task, d: TaskDto): Task {
    t.(title := d.title, description := d.description, dueDate := d.dueDate, project := d.project,
       priority := d.priority, completed := d.completed)
  }

  /** The row toggleTaskCompletion leaves. */
  function Toggled(t: Task, now: Instant): Task {
    Flush(t, t.(completed := !t.completed), now)
  }

  /** The row markTaskAsCompleted (value true) or markTaskAsIncomplete (value false) leaves. */
  function Marked(t: Task, value: bool, now: Instant): Task {
    Flush(t, t.(completed := value), now)
  }

  /** The table markAllTasksAsCompleted / markAllTasksAsIncomplete leaves. */
  function MarkedAll(table: seq<Task>, value: bool, now: Instant): (r: seq<Task>)
    ensures |r| == |table|
  {
    seq(|table|, i requires 0 <= i < |table| => Marked(table[i], value, now))
  }

  /** An update overwrites exactly the six editable fields; identity and creation time are kept. */
  lemma ApplyDraftFields(t: Task, d: TaskDto, now: Instant)
    ensures var r := Flush(t, ApplyDraft(t, d), now);
      FromTask(r) == d.(id := t.id) && r.createdAt == t.createdAt
      && (r.updatedAt == t.updatedAt || r.updatedAt == Some(now))
  {
  }

  /** Toggling flips only `completed`, and toggling twice restores the original value. */
  lemma ToggleTwice(t: Task, now1: Instant, now2: Instant)
    ensures Toggled(t, now1).completed == !t.completed
    ensures Toggled(t, now1) == t.(completed := !t.completed, updatedAt := Some(now1))
    ensures Toggled(Toggled(t, now1), now2) == t.(updatedAt := Some(now2))
  {
  }

  /** Marking sets a fixed value, and marking again does not change the row, not even updatedAt. */
  lemma MarkIdempotent(t: Task, value: bool, now1: Instant, now2: Instant)
    ensures Marked(t, value, now1).completed == value
    ensures Marked(t, value, now1).(completed := t.completed, updatedAt := t.updatedAt) == t
    ensures Marked(Marked(t, value, now1), value, now2) == Marked(t, value, now1)
    ensures t.completed == value ==> Marked(t, value, now1) == t
  {
  }

  /** Marking every row keeps the rows' order and identities and sets `completed` on each. */
  lemma MarkedAllRows(table: seq<Task>, value: bool, now: Instant, i: int)
    requires 0 <= i < |table|
    ensures MarkedAll(table, value, now)[i].completed == value
    ensures MarkedAll(table, value, now)[i].id == table[i].id
    ensures MarkedAll(table, value, now)[i].(completed := table[i].completed, updatedAt := table[i].updatedAt) == table[i]
    ensures Repo.FindByCompleted(MarkedAll(table, value, now), !value) == []
  {
    Repo.NoneWithStatus(MarkedAll(table, value, now), !value);
  }

  /** An imported record keeps everything but its id and timestamps, which the store assigns. */
  lemma PersistedKeepsContent(rec: Task, id: int, now: Instant)
    ensures Persisted(rec, id, now).id == Some(id)
    ensures FromTask(Persisted(rec, id, now)) == FromTask(rec).(id := Some(id))
    ensures Persisted(rec.(id := None), id, now) == Persisted(rec, id, now)
  {
  }

  /** The table with the rows whose id is in `ids` left out, in store order. */
  function WithoutIds(table: seq<Task>, ids: set<int>): (r: seq<Task>)
    ensures |r| <= |table|
    ensures forall t :: t in r ==> t in table
  {
    if table == [] then []
    else (if table[0].id.Some? && table[0].id.value in ids then [] else [table[0]]) + WithoutIds(table[1..], ids)
  }

  /** The table with the first row whose id is `id` left out (deleteById: no row, no change). */
  function RemoveId(table: seq<Task>, id: int): (r: seq<Task>)
    ensures IndexOf(table, id) >= 0 ==> r == table[..IndexOf(table, id)] + table[IndexOf(table, id) + 1..]
    ensures IndexOf(table, id) < 0 ==> r == table
  {
    if table == [] then []
    else if table[0].id == Some(id) then table[1..]
    else
      assert table == [table[0]] + table[1..];
      [table[0]] + RemoveId(table[1..], id)
  }

  /** Leaving out an id no row carries changes nothing. */
  lemma {:induction false} WithoutAbsentId(table: seq<Task>, ids: set<int>, id: int)
    requires forall i :: 0 <= i < |table| ==> table[i].id != Some(id)
    ensures WithoutIds(table, ids + {id}) == WithoutIds(table, ids)
  {
    if table != [] {
      WithoutAbsentId(table[1..], ids, id);
    }
  }

  /** Deleting one more id from a table with unique ids leaves out one more id. */
  lemma {:induction false} RemoveIdStep(table: seq<Task>, ids: set<int>, id: int)
    requires UniqueIds(table)
    ensures RemoveId(WithoutIds(table, ids), id) == WithoutIds(table, ids + {id})
  {
    if table != [] {
      var head := table[0];
      var tail := table[1..];
      assert UniqueIds(tail);
      RemoveIdStep(tail, ids, id);
      if head.id.Some? && head.id.value in ids {
        assert WithoutIds(table, ids) == WithoutIds(tail, ids);
        assert WithoutIds(table, ids + {id}) == WithoutIds(tail, ids + {id});
      } else if head.id == Some(id) {
        assert forall i :: 0 <= i < |tail| ==> tail[i].id != Some(id) by {
          forall i | 0 <= i < |tail| ensures tail[i].id != Some(id) {
            assert tail[i] == table[i + 1];
          }
        }
        WithoutAbsentId(tail, ids, id);
        var w := WithoutIds(tail, ids);
        assert WithoutIds(table, ids) == [head] + w;
        assert RemoveId([head] + w, id) == w by {
          assert ([head] + w)[0] == head && ([head] + w)[1..] == w;
        }
        assert WithoutIds(table, ids + {id}) == WithoutIds(tail, ids + {id});
      } else {
        var w := WithoutIds(tail, ids);
        assert WithoutIds(table, ids) == [head] + w;
        assert RemoveId([head] + w, id) == [head] + RemoveId(w, id) by {
          assert ([head] + w)[0] == head && ([head] + w)[1..] == w;
        }
        assert WithoutIds(table, ids + {id}) == [head] + WithoutIds(tail, ids + {id});
      }
    }
  }

  /** Leaving out exactly the ids of the completed rows keeps the pending rows. */
  lemma {:induction false} WithoutCompletedIds(table: seq<Task>, ids: set<int>)
    requires forall i :: 0 <= i < |table| ==> table[i].id.Some? && (table[i].id.value in ids <==> table[i].completed)
    ensures WithoutIds(table, ids) == Repo.FindByCompleted(table, false)
  {
    if table != [] {
      WithoutCompletedIds(table[1..], ids);
      assert Repo.FindByCompleted(table, false)
          == (if !table[0].completed then [table[0]] else []) + Repo.FindByCompleted(table[1..], false);
    }
  }

  lemma {:induction false} WithoutNoIds(table: seq<Task>)
    ensures WithoutIds(table, {}) == table
  {
    if table != [] {
      WithoutNoIds(table[1..]);
      assert table == [table[0]] + table[1..];
    }
  }

  /** Removing a row drops every row with that id and keeps the others. */
  lemma {:induction false} RemoveIdMembers(table: seq<Task>, id: int)
    requires UniqueIds(table)
    ensures forall t :: t in RemoveId(table, id) ==> t in table && t.id != Some(id)
    ensures forall t :: t in table && t.id != Some(id) ==> t in RemoveId(table, id)
  {
    if table != [] {
      var tail := table[1..];
      assert UniqueIds(tail);
      RemoveIdMembers(tail, id);
      if table[0].id == Some(id) {
        forall t | t in tail ensures t.id != Some(id) {
          var i :| 0 <= i < |tail| && tail[i] == t;
          assert table[i + 1] == t;
        }
      } else {
        assert RemoveId(table, id) == [table[0]] + RemoveId(tail, id);
      }
    }
  }

  /** Leaving out row k keeps the ids unique: the rows left are the others, in order. */
  lemma WithoutRowUnique(table: seq<Task>, k: int)
    requires UniqueIds(table) && 0 <= k < |table|
    ensures UniqueIds(table[..k] + table[k + 1..])
  {
    var r := table[..k] + table[k + 1..];
    assert forall m :: 0 <= m < k ==> r[m] == table[m];
    assert forall m :: k <= m < |r| ==> r[m] == table[m + 1];
  }

  /** Removing a row keeps the ids unique. */
  lemma RemoveIdUnique(table: seq<Task>, id: int)
    requires UniqueIds(table)
    ensures UniqueIds(RemoveId(table, id))
  {
    var k := IndexOf(table, id);
    if k >= 0 {
      WithoutRowUnique(table, k);
    }
  }

  /** Removing a row keeps the table valid. */
  lemma RemoveIdValid(table: seq<Task>, id: int, nextId: int, clock: Instant)
    requires TableValid(table, nextId, clock)
    ensures TableValid(RemoveId(table, id), nextId, clock)
  {
    RemoveIdMembers(table, id);
    RemoveIdUnique(table, id);
  }

  /** What deleteById leaves when a row has the id: one row fewer, none with the id, every other row kept. */
  lemma RemoveIdPresent(table: seq<Task>, id: int, nextId: int, clock: Instant)
    requires TableValid(table, nextId, clock) && IndexOf(table, id) >= 0
    ensures TableValid(RemoveId(table, id), nextId, clock)
    ensures |RemoveId(table, id)| == |table| - 1
    ensures forall t :: t in RemoveId(table, id) ==> t.id != Some(id)
    ensures forall t :: t in table && t.id != Some(id) ==> t in RemoveId(table, id)
  {
    RemoveIdValid(table, id, nextId, clock);
    RemoveIdMembers(table, id);
  }

  /** One deletion of the loop in deleteCompletedTasks: the i-th row's id joins the deleted ids. */
  lemma DeleteStep(before: seq<Task>, current: seq<Task>, rows: seq<Task>, i: nat, nextId: int, clock: Instant)
    requires i < |rows| && rows[i].id.Some?
    requires UniqueIds(before) && current == WithoutIds(before, IdsOf(rows, i)) && TableValid(current, nextId, clock)
    ensures RemoveId(current, rows[i].id.value) == WithoutIds(before, IdsOf(rows, i + 1))
    ensures TableValid(RemoveId(current, rows[i].id.value), nextId, clock)
  {
    assert IdsOf(rows, i + 1) == IdsOf(rows, i) + {rows[i].id.value};
    RemoveIdStep(before, IdsOf(rows, i), rows[i].id.value);
    RemoveIdValid(current, rows[i].id.value, nextId, clock);
  }

  /** The ids of the first n rows. */
  function IdsOf(rows: seq<Task>, n: nat): set<int>
    requires n <= |rows|
  {
    if n == 0 then {}
    else IdsOf(rows, n - 1) + (if rows[n - 1].id.Some? then {rows[n - 1].id.value} else {})
  }

  lemma {:induction false} IdsOfMembers(rows: seq<Task>, n: nat)
    requires n <= |rows|
    ensures forall x :: x in IdsOf(rows, n) <==> exists j :: 0 <= j < n && rows[j].id == Some(x)
  {
    if n > 0 {
      IdsOfMembers(rows, n - 1);
    }
  }

  /** The ids collected from the completed rows are exactly the ids of the completed rows. */
  lemma CompletedIds(table: seq<Task>, completed: seq<Task>, ids: set<int>)
    requires UniqueIds(table) && forall i :: 0 <= i < |table| ==> table[i].id.Some?
    requires completed == Repo.FindByCompleted(table, true)
    requires forall x :: x in ids <==> exists j :: 0 <= j < |completed| && completed[j].id == Some(x)
    ensures forall k :: 0 <= k < |table| ==> (table[k].id.value in ids <==> table[k].completed)
  {
    forall k | 0 <= k < |table| ensures table[k].id.value in ids <==> table[k].completed {
      if table[k].completed {
        assert table[k] in completed;
        var j :| 0 <= j < |completed| && completed[j] == table[k];
        assert completed[j].id == Some(table[k].id.value);
      }
      var x := table[k].id.value;
      if x in ids {
        assert exists j :: 0 <= j < |completed| && completed[j].id == Some(x);
        var j :| 0 <= j < |completed| && completed[j].id == Some(x);
        assert completed[j] in table;
        var p :| 0 <= p < |table| && table[p] == completed[j];
        assert p == k;
      }
    }
  }

  /** Marking every row keeps the table valid at the new clock reading. */
  lemma MarkedAllValid(table: seq<Task>, value: bool, nextId: int, clock: Instant, now: Instant)
    requires TableValid(table, nextId, clock) && clock <= now
    ensures TableValid(MarkedAll(table, value, now), nextId, now)
  {
    var r := MarkedAll(table, value, now);
    forall i | 0 <= i < |r| ensures TimestampsOrdered(r[i], now) {
      HooksKeepTimestampsOrdered(table[i].(completed := value), clock, now, now);
    }
    assert forall i :: 0 <= i < |r| ==> r[i].id == table[i].id;
  }

  class TaskService {
    /** The tasks table, in store order. */
    var tasks: seq<Task>
    /** The next identity the store generates. */
    var nextId: int
    /** Whether the database sorts NULL below (true) or above every value. */
    const nullsLow: bool
    /** The latest clock reading passed to a mutating operation. */
    ghost var clock: Instant

    ghost predicate Valid()
      reads this
    {
      TableValid(tasks, nextId, clock)
    }

    constructor (nullsLow: bool, ghost start: Instant)
      ensures Valid() && tasks == [] && this.nullsLow == nullsLow && clock == start
    {
      tasks := [];
      nextId := 1;
      this.nullsLow := nullsLow;
      clock := start;
    }

    /** The store's persist of a new entity: a fresh identity, @PrePersist, then append. */
    method Insert(task: Task, now: Instant) returns (saved: Task)
      requires Valid() && clock <= now && task.id.None?
      modifies this
      ensures Valid() && clock == now
      ensures saved == Persisted(task, old(nextId), now)
      ensures tasks == old(tasks) + [saved] && nextId == old(nextId) + 1
      ensures forall t :: t in old(tasks) ==> !SameEntity(t, saved)
    {
      saved := Persisted(task, nextId, now);
      clock := now;
      tasks := tasks + [saved];
      nextId := nextId + 1;
    }

    /** The store's save of the loaded row at position k, edited into `edited`. */
    method SaveAt(k: int, edited: Task, now: Instant) returns (saved: Task)
      requires Valid() && clock <= now && 0 <= k < |tasks|
      requires edited.id == tasks[k].id && edited.createdAt == tasks[k].createdAt
      requires edited.updatedAt == tasks[k].updatedAt
      modifies this
      ensures Valid() && clock == now && nextId == old(nextId)
      ensures saved == Flush(old(tasks)[k], edited, now)
      ensures tasks == old(tasks)[k := saved]
    {
      saved := Flush(tasks[k], edited, now);
      clock := now;
      tasks := tasks[k := saved];
    }

    /** `getAllTasks`: findAll. */
    method GetAllTasks() returns (r: seq<Task>)
      ensures r == tasks
    {
      r := tasks;
    }

    /** `getTaskById`. */
    method GetTaskById(id: int) returns (r: Option<Task>)
      ensures r == Repo.FindById(tasks, id)
    {
      r := Repo.FindById(tasks, id);
    }

    /** `saveTask`: the draft's entity is persisted as a new row. */
    method SaveTask(d: TaskDto, now: Instant) returns (saved: Task)
      requires Valid() && clock <= now && d.id.None?
      modifies this
      ensures Valid() && nextId == old(nextId) + 1
      ensures saved == Persisted(ToTask(d), old(nextId), now)
      ensures tasks == old(tasks) + [saved]
      ensures FromTask(saved) == d.(id := saved.id) && saved.createdAt == saved.updatedAt == Some(now)
      ensures forall t :: t in old(tasks) ==> !SameEntity(t, saved)
    {
      var task := ToTask(d);
      saved := Insert(task, now);
    }

    /** `updateTask`: overwrite the six editable fields of an existing task from the draft. */
    method UpdateTask(id: int, d: TaskDto, now: Instant) returns (r: Result<Task, Error>)
      requires Valid() && clock <= now
      modifies this
      ensures Valid() && nextId == old(nextId)
      ensures r.Err? <==> IndexOf(old(tasks), id) < 0
      ensures r.Err? ==> r.error == NotFound(id) && tasks == old(tasks)
      ensures r.Ok? ==> (IndexOf(old(tasks), id) >= 0
        && r.value == Flush(old(tasks)[IndexOf(old(tasks), id)], ApplyDraft(old(tasks)[IndexOf(old(tasks), id)], d), now)
        && tasks == old(tasks)[IndexOf(old(tasks), id) := r.value])
      ensures r.Ok? ==> (r.value.id == Some(id) && FromTask(r.value) == d.(id := Some(id))
        && r.value.createdAt == old(tasks)[IndexOf(old(tasks), id)].createdAt)
    {
      var k := IndexOf(tasks, id);
      if k < 0 {
        return Err(NotFound(id));
      }
      var existing := tasks[k];
      var edited := ApplyDraft(existing, d);
      var saved := SaveAt(k, edited, now);
      r := Ok(saved);
    }

    /** `deleteTask`: fails when no task has the id, otherwise removes exactly that task. */
    method DeleteTask(id: int) returns (r: Outcome<Error>)
      requires Valid()
      modifies this
      ensures Valid() && nextId == old(nextId)
      ensures r.Fail? <==> IndexOf(old(tasks), id) < 0
      ensures r.Fail? ==> r.error == NotFound(id) && tasks == old(tasks)
      ensures r.Pass? ==> tasks == old(tasks)[..IndexOf(old(tasks), id)] + old(tasks)[IndexOf(old(tasks), id) + 1..]
      ensures r.Pass? ==> |tasks| == |old(tasks)| - 1 && forall t :: t in tasks ==> t.id != Some(id)
      ensures forall t :: t in old(tasks) && t.id != Some(id) ==> t in tasks
    {
      var k := IndexOf(tasks, id);
      if k < 0 {
        return Fail(NotFound(id));
      }
      RemoveIdPresent(tasks, id, nextId, clock);
      tasks := RemoveId(tasks, id);
      r := Pass;
    }

    /** `toggleTaskCompletion`. */
    method ToggleTaskCompletion(id: int, now: Instant) returns (r: Result<Task, Error>)
      requires Valid() && clock <= now
      modifies this
      ensures Valid() && nextId == old(nextId)
      ensures r.Err? <==> IndexOf(old(tasks), id) < 0
      ensures r.Err? ==> r.error == NotFound(id) && tasks == old(tasks)
      ensures r.Ok? ==> (r.value == Toggled(old(tasks)[IndexOf(old(tasks), id)], now)
        && tasks == old(tasks)[IndexOf(old(tasks), id) := r.value])
    {
      var k := IndexOf(tasks, id);
      if k < 0 {
        return Err(NotFound(id));
      }
      var task := tasks[k];
      var saved := SaveAt(k, task.(completed := !task.completed), now);
      r := Ok(saved);
    }

    /** `markTaskAsCompleted`. */
    method MarkTaskAsCompleted(id: int, now: Instant) returns (r: Result<Task, Error>)
      requires Valid() && clock <= now
      modifies this
      ensures Valid() && nextId == old(nextId)
      ensures r.Err? <==> IndexOf(old(tasks), id) < 0
      ensures r.Err? ==> r.error == NotFound(id) && tasks == old(tasks)
      ensures r.Ok? ==> (r.value == Marked(old(tasks)[IndexOf(old(tasks), id)], true, now)
        && tasks == old(tasks)[IndexOf(old(tasks), id) := r.value])
    {
      var k := IndexOf(tasks, id);
      if k < 0 {
        return Err(NotFound(id));
      }
      var saved := SaveAt(k, tasks[k].(completed := true), now);
      r := Ok(saved);
    }

    /** `markTaskAsIncomplete`. */
    method MarkTaskAsIncomplete(id: int, now: Instant) returns (r: Result<Task, Error>)
      requires Valid() && clock <= now
      modifies this
      ensures Valid() && nextId == old(nextId)
      ensures r.Err? <==> IndexOf(old(tasks), id) < 0
      ensures r.Err? ==> r.error == NotFound(id) && tasks == old(tasks)
      ensures r.Ok? ==> (r.value == Marked(old(tasks)[IndexOf(old(tasks), id)], false, now)
        && tasks == old(tasks)[IndexOf(old(tasks), id) := r.value])
    {
      var k := IndexOf(tasks, id);
      if k < 0 {
        return Err(NotFound(id));
      }
      var saved := SaveAt(k, tasks[k].(completed := false), now);
      r := Ok(saved);
    }

    /** `getTasksByStatus`. */
    method GetTasksByStatus(completed: bool) returns (r: seq<Task>)
      ensures r == Repo.FindByCompleted(tasks, completed)
    {
      r := Repo.FindByCompleted(tasks, completed);
    }

    /** `getTasksByProject`: the case-insensitive project query. */
    method GetTasksByProject(project: string) returns (r: seq<Task>)
      ensures r == Repo.FindByProjectIgnoreCase(tasks, project)
    {
      r := Repo.FindByProjectIgnoreCase(tasks, project);
    }

    /** `searchTasks`. */
    method SearchTasks(keyword: string) returns (r: seq<Task>)
      ensures r == Repo.SearchTasksByKeyword(tasks, keyword)
    {
      r := Repo.SearchTasksByKeyword(tasks, keyword);
    }

    /** `getTasksByCriteria`. */
    method GetTasksByCriteria(project: Option<string>, completed: Option<bool>, keyword: Option<string>)
      returns (r: seq<Task>)
      ensures r == Repo.FindTasksByCriteria(tasks, project, completed, keyword)
    {
      r := Repo.FindTasksByCriteria(tasks, project, completed, keyword);
    }

    /** `getOverdueTasks`, with LocalDate.now() passed in as `today`. */
    method GetOverdueTasks(today: Date) returns (r: seq<Task>)
      ensures r == Repo.FindOverdueTasks(tasks, today)
    {
      r := Repo.FindOverdueTasks(tasks, today);
    }

    /** `getTasksDueToday`. */
    method GetTasksDueToday(today: Date) returns (r: seq<Task>)
      ensures r == Repo.FindTasksDueToday(tasks, today)
    {
      r := Repo.FindTasksDueToday(tasks, today);
    }

    /** `getTasksDueWithinDays`: the window runs from today to today plus `days`, both included. */
    method GetTasksDueWithinDays(today: Date, days: int) returns (r: seq<Task>)
      ensures r == Repo.FindTasksDueWithinDays(tasks, today, today + days)
    {
      r := Repo.FindTasksDueWithinDays(tasks, today, today + days);
    }

    /** `getAllTasksSortedByDate`. */
    method GetAllTasksSortedByDate(ascending: bool) returns (r: seq<Task>)
      ensures ascending ==> r == Repo.FindAllOrderByDueDateAsc(tasks, nullsLow)
      ensures !ascending ==> r == Repo.FindAllOrderByDueDateDesc(tasks, nullsLow)
    {
      if ascending {
        r := Repo.FindAllOrderByDueDateAsc(tasks, nullsLow);
      } else {
        r := Repo.FindAllOrderByDueDateDesc(tasks, nullsLow);
      }
    }

    /** `getAllTasksSortedByProject`. */
    method GetAllTasksSortedByProject() returns (r: seq<Task>)
      ensures r == Repo.FindAllOrderByProjectAsc(tasks, nullsLow)
    {
      r := Repo.FindAllOrderByProjectAsc(tasks, nullsLow);
    }

    /** `getAllTasksSortedByPriority`. */
    method GetAllTasksSortedByPriority() returns (r: seq<Task>)
      ensures r == Repo.FindAllOrderByPriorityDesc(tasks, nullsLow)
    {
      r := Repo.FindAllOrderByPriorityDesc(tasks, nullsLow);
    }

    /** `getAllTasksSortedByCreated`. */
    method GetAllTasksSortedByCreated() returns (r: seq<Task>)
      ensures r == Repo.FindAllOrderByCreatedAtDesc(tasks, nullsLow)
    {
      r := Repo.FindAllOrderByCreatedAtDesc(tasks, nullsLow);
    }

    /** `getTotalTasksCount`: count(). */
    method GetTotalTasksCount() returns (n: nat)
      ensures n == |tasks|
    {
      n := |tasks|;
    }

    /** `getCompletedTasksCount`. */
    method GetCompletedTasksCount() returns (n: nat)
      ensures n == |Repo.FindByCompleted(tasks, true)|
    {
      n := Repo.CountByCompleted(tasks, true);
    }

    /** `getPendingTasksCount`. */
    method GetPendingTasksCount() returns (n: nat)
      ensures n == |Repo.FindByCompleted(tasks, false)|
    {
      n := Repo.CountByCompleted(tasks, false);
    }

    /** `getOverdueTasksCount`. */
    method GetOverdueTasksCount(today: Date) returns (n: nat)
      ensures n == |Repo.FindOverdueTasks(tasks, today)|
    {
      n := Repo.CountOverdueTasks(tasks, today);
    }

    /** `getAllProjects`. */
    method GetAllProjects() returns (r: seq<string>)
      ensures r == Repo.FindDistinctProjects(tasks)
    {
      r := Repo.FindDistinctProjects(tasks);
    }

    /** `exportTasksToJson`, before serialisation: the full list of tasks, in store order. */
    method ExportTasks() returns (r: seq<Task>)
      ensures r == tasks
    {
      r := tasks;
    }

    /**
     * `importTasksFromJson`, from the parsed records (None when the text does not parse): every
     * record's id is cleared, so each is persisted as a new row.
     */
    method ImportTasksFromJson(parsed: Option<seq<Task>>, now: Instant) returns (r: Result<seq<Task>, Error>)
      requires Valid() && clock <= now
      modifies this
      ensures Valid()
      ensures parsed.None? ==> r == Err(ImportError) && tasks == old(tasks) && nextId == old(nextId)
      ensures parsed.Some? ==> (r.Ok? && |r.value| == |parsed.value|
        && tasks == old(tasks) + r.value && nextId == old(nextId) + |parsed.value|)
      ensures parsed.Some? ==> forall i :: 0 <= i < |parsed.value| ==>
        r.value[i] == Persisted(parsed.value[i], old(nextId) + i, now)
      ensures r.Ok? ==> forall i, t :: 0 <= i < |r.value| && t in old(tasks) ==> !SameEntity(t, r.value[i])
    {
      if parsed.None? {
        return Err(ImportError);
      }
      var records := parsed.value;
      var i := 0;
      while i < |records|
        invariant 0 <= i <= |records| == |parsed.value|
        invariant tasks == old(tasks) && nextId == old(nextId) && clock == old(clock)
        invariant forall j :: 0 <= j < i ==> records[j] == parsed.value[j].(id := None)
        invariant forall j :: i <= j < |records| ==> records[j] == parsed.value[j]
      {
        records := records[i := records[i].(id := None)];
        i := i + 1;
      }
      var saved := SaveAllNew(records, now);
      r := Ok(saved);
    }

    /** The store's saveAll of new entities: each is persisted in turn, in list order. */
    method SaveAllNew(records: seq<Task>, now: Instant) returns (saved: seq<Task>)
      requires Valid() && clock <= now
      requires forall j :: 0 <= j < |records| ==> records[j].id.None?
      modifies this
      ensures Valid() && nextId == old(nextId) + |records|
      ensures |saved| == |records| && tasks == old(tasks) + saved
      ensures forall m :: 0 <= m < |records| ==> saved[m] == Persisted(records[m], old(nextId) + m, now)
      ensures forall m, t :: 0 <= m < |saved| && t in old(tasks) ==> !SameEntity(t, saved[m])
    {
      saved := [];
      var j := 0;
      while j < |records|
        invariant 0 <= j <= |records|
        invariant Valid() && clock <= now
        invariant |saved| == j && tasks == old(tasks) + saved && nextId == old(nextId) + j
        invariant forall m :: 0 <= m < j ==> saved[m] == Persisted(records[m], old(nextId) + m, now)
      {
        var row := Insert(records[j], now);
        saved := saved + [row];
        j := j + 1;
      }
      forall m, t | 0 <= m < |saved| && t in old(tasks) ensures !SameEntity(t, saved[m]) {
        assert t in tasks;
      }
    }

    /** `deleteAllTasks`. */
    method DeleteAllTasks()
      requires Valid()
      modifies this
      ensures Valid() && tasks == [] && nextId == old(nextId)
    {
      tasks := [];
    }

    /** The store's deleteAll(entities): delete each entity by its id, in order. */
    method DeleteEach(rows: seq<Task>)
      requires Valid() && forall j :: 0 <= j < |rows| ==> rows[j].id.Some?
      modifies this
      ensures Valid() && nextId == old(nextId) && clock == old(clock)
      ensures tasks == WithoutIds(old(tasks), IdsOf(rows, |rows|))
    {
      ghost var before := tasks;
      WithoutNoIds(tasks);
      var i := 0;
      while i < |rows|
        invariant 0 <= i <= |rows|
        invariant nextId == old(nextId) && clock == old(clock)
        invariant TableValid(tasks, nextId, clock)
        invariant tasks == WithoutIds(before, IdsOf(rows, i))
      {
        DeleteStep(before, tasks, rows, i, nextId, clock);
        tasks := RemoveId(tasks, rows[i].id.value);
        i := i + 1;
      }
    }

    /**
     * `deleteCompletedTasks`: load the completed tasks, then delete them. Exactly the pending tasks
     * remain, in store order and unchanged.
     */
    method DeleteCompletedTasks()
      requires Valid()
      modifies this
      ensures Valid() && nextId == old(nextId)
      ensures tasks == Repo.FindByCompleted(old(tasks), false)
    {
      var completed := Repo.FindByCompleted(tasks, true);
      assert forall j :: 0 <= j < |completed| ==> completed[j] in old(tasks) && completed[j].id.Some?;
      DeleteEach(completed);
      IdsOfMembers(completed, |completed|);
      CompletedIds(old(tasks), completed, IdsOf(completed, |completed|));
      WithoutCompletedIds(old(tasks), IdsOf(completed, |completed|));
    }

    /** markAllTasksAsCompleted / markAllTasksAsIncomplete: set `completed` on every loaded row, then saveAll. */
    method MarkAll(value: bool, now: Instant) returns (updated: seq<Task>)
      requires Valid() && clock <= now
      modifies this
      ensures Valid() && nextId == old(nextId)
      ensures tasks == MarkedAll(old(tasks), value, now) && updated == tasks
    {
      var all := tasks;
      var i := 0;
      while i < |all|
        invariant 0 <= i <= |all| == |tasks|
        invariant tasks == old(tasks) && nextId == old(nextId) && clock == old(clock)
        invariant forall j :: 0 <= j < i ==> all[j] == tasks[j].(completed := value)
        invariant forall j :: i <= j < |all| ==> all[j] == tasks[j]
      {
        all := all[i := all[i].(completed := value)];
        i := i + 1;
      }
      ghost var before := tasks;
      MarkedAllValid(before, value, nextId, clock, now);
      var j := 0;
      while j < |all|
        invariant 0 <= j <= |all| == |tasks| == |before|
        invariant forall m :: 0 <= m < j ==> tasks[m] == Marked(before[m], value, now)
        invariant forall m :: j <= m < |all| ==> tasks[m] == before[m]
        invariant nextId == old(nextId) && clock == old(clock)
      {
        tasks := tasks[j := Flush(tasks[j], all[j], now)];
        j := j + 1;
      }
      clock := now;
      updated := tasks;
      assert tasks == MarkedAll(before, value, now);
    }

    /** `markAllTasksAsCompleted`. */
    method MarkAllTasksAsCompleted(now: Instant) returns (updated: seq<Task>)
      requires Valid() && clock <= now
      modifies this
      ensures Valid() && nextId == old(nextId)
      ensures tasks == MarkedAll(old(tasks), true, now) && updated == tasks
    {
      updated := MarkAll(true, now);
    }

    /** `markAllTasksAsIncomplete`. */
    method MarkAllTasksAsIncomplete(now: Instant) returns (updated: seq<Task>)
      requires Valid() && clock <= now
      modifies this
      ensures Valid() && nextId == old(nextId)
      ensures tasks == MarkedAll(old(tasks), false, now) && updated == tasks
    {
      updated := MarkAll(false, now);
    }
  }
}

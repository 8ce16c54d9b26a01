/**
 * The Room DAO over the `tasks` table. The table's contents are a map from
 * primary key to row plus the AUTOINCREMENT counter: `Table` is that state
 * as a value, with one pure function per statement the DAO declares, and
 * `TaskDao` is the table as an object whose methods are proved to perform
 * exactly those functions.
 */
module TaskStore {
  import opened Wrappers
  import opened TaskEntity

  /** Rows by primary key, and `nextId`, the key the next generated id takes. */
  datatype Table = Table(rows: map<int, Task>, nextId: int)

  /**
   * Every row is stored under its own id, no row has the "unassigned" id 0,
   * and every key is below the counter, so the counter is always fresh.
   */
  ghost predicate WellFormed(t: Table) {
    && t.nextId >= 1
    && 0 !in t.rows
    && forall k :: k in t.rows ==> t.rows[k].id == k && k < t.nextId
  }

  /** A new database: no rows, and AUTOINCREMENT starts at 1. */
  const EmptyTable := Table(map[], 1)

  /** The key under which `task` is stored when it is inserted. */
  function InsertKey(t: Table, task: Task): int {
    if NeedsGeneratedId(task) then t.nextId else task.id
  }

  /**
   * `insertTask` with `OnConflictStrategy.IGNORE`: a task whose id is already
   * a key leaves the table as it is; any other task is added, an id of 0
   * being replaced by a key no row has. Existing rows never change.
   */
  function Inserted(t: Table, task: Task): (r: Table)
    requires WellFormed(t)
    ensures WellFormed(r)
    ensures task.id != 0 && task.id in t.rows ==> r == t
    ensures task.id == 0 || task.id !in t.rows ==>
              && InsertKey(t, task) !in t.rows
              && r.rows == t.rows[InsertKey(t, task) := task.(id := InsertKey(t, task))]
    ensures task.id == 0 ==> InsertKey(t, task) != 0 && InsertKey(t, task) !in t.rows
    ensures t.nextId <= r.nextId
  {
    if task.id != 0 && task.id in t.rows then t
    else
      var k := InsertKey(t, task);
      Table(t.rows[k := task.(id := k)], if k < t.nextId then t.nextId else k + 1)
  }

  /** `getTaskById`: the row stored under `taskId`, or none. */
  function Lookup(t: Table, taskId: int): (r: Option<Task>)
    ensures r.Some? <==> taskId in t.rows
    ensures r.Some? ==> r.value == t.rows[taskId]
    ensures WellFormed(t) && r.Some? ==> r.value.id == taskId
  {
    if taskId in t.rows then Some(t.rows[taskId]) else None
  }

  /** `updateTask` (`@Update`): replaces the row whose key is `task.id`, if there is one; no other row changes and no row is added. */
  function Updated(t: Table, task: Task): (r: Table)
    requires WellFormed(t)
    ensures WellFormed(r) && r.nextId == t.nextId
    ensures r.rows.Keys == t.rows.Keys
    ensures task.id in t.rows ==> r.rows[task.id] == task
    ensures forall k :: k != task.id ==> Lookup(r, k) == Lookup(t, k)
  {
    if task.id in t.rows then Table(t.rows[task.id := task], t.nextId) else t
  }

  /** `deleteTaskById`: removes the row with key `taskId`, if any, and nothing else. */
  function Deleted(t: Table, taskId: int): (r: Table)
    requires WellFormed(t)
    ensures WellFormed(r) && r.nextId == t.nextId
    ensures r.rows.Keys == t.rows.Keys - {taskId}
    ensures forall k :: k != taskId ==> Lookup(r, k) == Lookup(t, k)
  {
    Table(t.rows - {taskId}, t.nextId)
  }

  /** `updateTaskDoneStatus`: sets `isDone` of row `taskId`, if any; its text and timestamp stay, and no other row changes. */
  function DoneStatusSet(t: Table, taskId: int, isDone: bool): (r: Table)
    requires WellFormed(t)
    ensures WellFormed(r) && r.nextId == t.nextId
    ensures r.rows.Keys == t.rows.Keys
    ensures taskId in t.rows ==>
              && r.rows[taskId].isDone == isDone
              && r.rows[taskId].text == t.rows[taskId].text
              && r.rows[taskId].completedOrReopenedTimestamp == t.rows[taskId].completedOrReopenedTimestamp
              && r.rows[taskId].id == taskId
    ensures forall k :: k != taskId ==> Lookup(r, k) == Lookup(t, k)
  {
    if taskId in t.rows then Table(t.rows[taskId := t.rows[taskId].(isDone := isDone)], t.nextId) else t
  }

  /** The ids that occur in a list of tasks. */
  function Ids(list: seq<Task>): set<int> {
    set i | 0 <= i < |list| :: list[i].id
  }

  ghost predicate DistinctIds(list: seq<Task>) {
    forall i, j :: 0 <= i < j < |list| ==> list[i].id != list[j].id
  }

  /** `ORDER BY isDone ASC`: no task that is not done comes after a done one. */
  ghost predicate DoneLast(list: seq<Task>) {
    forall i, j :: 0 <= i < j < |list| && list[i].isDone ==> list[j].isDone
  }

  /**
   * What `getAllTasks` may return for table `t`: every row exactly once, as
   * stored, with the not-done rows first. The order inside each group is
   * left open, as the query leaves it.
   */
  ghost predicate IsAllTasksResult(t: Table, list: seq<Task>) {
    && (forall i :: 0 <= i < |list| ==> list[i].id in t.rows && t.rows[list[i].id] == list[i])
    && DistinctIds(list)
    && Ids(list) == t.rows.Keys
    && DoneLast(list)
  }

  lemma IdsAppend(list: seq<Task>, x: Task)
    ensures Ids(list + [x]) == Ids(list) + {x.id}
  {
    var l := list + [x];
    assert forall i :: 0 <= i < |list| ==> l[i] == list[i];
    assert l[|list|] == x;
  }

  lemma NonEmptyHasKey(keys: set<int>)
    requires keys != {}
    ensures exists k :: k in keys
  {
    if forall k :: k !in keys {
      assert false;
    }
  }

  /** Appending a task whose id is new keeps the ids distinct. */
  lemma AppendFresh(list: seq<Task>, x: Task)
    requires DistinctIds(list) && x.id !in Ids(list)
    ensures DistinctIds(list + [x]) && Ids(list + [x]) == Ids(list) + {x.id}
  {
    IdsAppend(list, x);
    var l := list + [x];
    forall i, j | 0 <= i < j < |l| ensures l[i].id != l[j].id {
      if j == |list| {
        assert l[i].id == list[i].id;
        assert list[i].id in Ids(list);
      }
    }
  }

  /** A list whose ids are distinct has as many ids as elements. */
  lemma {:induction false} DistinctIdsCount(list: seq<Task>)
    requires DistinctIds(list)
    ensures |Ids(list)| == |list|
  {
    if list != [] {
      var init := list[..|list| - 1];
      var last := list[|list| - 1];
      assert list == init + [last];
      assert DistinctIds(init);
      DistinctIdsCount(init);
      IdsAppend(init, last);
      assert last.id !in Ids(init);
    }
  }

  /** `getAllTasks` returns as many tasks as the table holds. */
  lemma AllTasksCount(t: Table, list: seq<Task>)
    requires IsAllTasksResult(t, list)
    ensures |list| == |t.rows|
  {
    DistinctIdsCount(list);
    assert |Ids(list)| == |t.rows.Keys|;
  }

  /** The `tasks` table, updated in place by the DAO's statements. */
  class TaskDao {
    var tasks: map<int, Task>
    var nextId: int

    function Snapshot(): Table
      reads this
    {
      Table(tasks, nextId)
    }

    ghost predicate Valid()
      reads this
    {
      WellFormed(Snapshot())
    }

    /** An empty database. */
    constructor ()
      ensures Valid() && Snapshot() == EmptyTable
    {
      tasks := map[];
      nextId := 1;
    }

    method InsertTask(task: Task)
      requires Valid()
      modifies this
      ensures Valid() && Snapshot() == Inserted(old(Snapshot()), task)
    {
      if !(task.id != 0 && task.id in tasks) {
        var k := if task.id == 0 then nextId else task.id;
        tasks := tasks[k := task.(id := k)];
        if nextId <= k {
          nextId := k + 1;
        }
      }
    }

    method UpdateTask(task: Task)
      requires Valid()
      modifies this
      ensures Valid() && Snapshot() == Updated(old(Snapshot()), task)
    {
      if task.id in tasks {
        tasks := tasks[task.id := task];
      }
    }

    method DeleteTaskById(taskId: int)
      requires Valid()
      modifies this
      ensures Valid() && Snapshot() == Deleted(old(Snapshot()), taskId)
    {
      tasks := tasks - {taskId};
    }

    method UpdateTaskDoneStatus(taskId: int, isDone: bool)
      requires Valid()
      modifies this
      ensures Valid() && Snapshot() == DoneStatusSet(old(Snapshot()), taskId, isDone)
    {
      if taskId in tasks {
        tasks := tasks[taskId := tasks[taskId].(isDone := isDone)];
      }
    }

    /** The keys of the rows whose `isDone` is `done`. */
    function Group(done: bool): set<int>
      reads this
    {
      set k | k in tasks && tasks[k].isDone == done
    }

    /** Each element of `list` is a row as stored, and no row occurs twice. */
    ghost predicate RowsOnce(list: seq<Task>)
      reads this
    {
      && (forall i :: 0 <= i < |list| ==> list[i].id in tasks && tasks[list[i].id] == list[i])
      && DistinctIds(list)
    }

    /** Appends the rows of one `isDone` group to `list`, in an order the engine picks. */
    method AppendGroup(list: seq<Task>, done: bool) returns (r: seq<Task>)
      requires Valid() && RowsOnce(list)
      requires Ids(list) !! Group(done)
      ensures RowsOnce(r)
      ensures |list| <= |r| && r[..|list|] == list
      ensures forall i :: |list| <= i < |r| ==> r[i].isDone == done
      ensures Ids(r) == Ids(list) + Group(done)
    {
      r := list;
      var pending := Group(done);
      while pending != {}
        invariant RowsOnce(r)
        invariant |list| <= |r| && r[..|list|] == list
        invariant forall i :: |list| <= i < |r| ==> r[i].isDone == done
        invariant Ids(r) !! pending && Ids(r) + pending == Ids(list) + Group(done)
        decreases pending
      {
        NonEmptyHasKey(pending);
        var k :| k in pending;
        AppendFresh(r, tasks[k]);
        r := r + [tasks[k]];
        pending := pending - {k};
      }
    }

    /**
     * `getAllTasks`: one snapshot of the query. It lists the not-done rows,
     * then the done rows, each group in whatever order the engine picks.
     */
    method GetAllTasks() returns (list: seq<Task>)
      requires Valid()
      ensures IsAllTasksResult(Snapshot(), list)
    {
      list := AppendGroup([], false);
      var notDone := list;
      list := AppendGroup(list, true);
      assert forall i :: 0 <= i < |notDone| ==> list[i] == notDone[i];
      assert forall k :: k in tasks ==> k in Group(tasks[k].isDone);
    }
  }
}

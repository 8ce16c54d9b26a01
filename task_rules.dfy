/**
 * The task list controller's rules as pure transitions. A `State` is the
 * task table together with the three fields the controller keeps; each
 * function is one controller operation, with each coroutine it launches
 * run to completion inside the call. `TaskController.TaskViewModel`
 * performs these transitions in place.
 */
module TaskRules {
  import opened Wrappers
  import opened TaskEntity
  import opened TaskStore
  import opened Whitespace

  /** What the list shows of one task: the timestamp is dropped. */
  datatype TaskUiState = TaskUiState(id: int, text: string, isDone: bool)

  /** The controller's own fields: the pending new-task text and the inline-edit session. */
  datatype Session = Session(newTaskText: string, currentlyEditingTaskId: Option<int>, currentEditText: string)

  datatype State = State(table: Table, session: Session)

  const InitialSession := Session("", None, "")

  function ToUiState(t: Task): TaskUiState {
    TaskUiState(t.id, t.text, t.isDone)
  }

  /** `allTasks`: the store's list, element by element, without timestamps. */
  function AllTasks(tasks: seq<Task>): (ui: seq<TaskUiState>)
    ensures |ui| == |tasks|
    ensures forall i :: 0 <= i < |tasks| ==>
              ui[i].id == tasks[i].id && ui[i].text == tasks[i].text && ui[i].isDone == tasks[i].isDone
  {
    if tasks == [] then [] else [ToUiState(tasks[0])] + AllTasks(tasks[1..])
  }

  function UiIds(ui: seq<TaskUiState>): set<int> {
    set i | 0 <= i < |ui| :: ui[i].id
  }

  /** What the list may show for table `t`: each row once, as stored, not-done rows first. */
  ghost predicate IsUiListing(t: Table, ui: seq<TaskUiState>) {
    && (forall i :: 0 <= i < |ui| ==> ui[i].id in t.rows && ui[i] == ToUiState(t.rows[ui[i].id]))
    && (forall i, j :: 0 <= i < j < |ui| ==> ui[i].id != ui[j].id)
    && UiIds(ui) == t.rows.Keys
    && (forall i, j :: 0 <= i < j < |ui| && ui[i].isDone ==> ui[j].isDone)
    && |ui| == |t.rows|
  }

  /** Projecting any result the store's query may give yields a faithful listing of the table. */
  lemma AllTasksListsTable(t: Table, tasks: seq<Task>)
    requires IsAllTasksResult(t, tasks)
    ensures IsUiListing(t, AllTasks(tasks))
  {
    var ui := AllTasks(tasks);
    AllTasksCount(t, tasks);
    forall i | 0 <= i < |ui| ensures ui[i].id in t.rows && ui[i] == ToUiState(t.rows[ui[i].id]) {
      assert ui[i] == ToUiState(tasks[i]);
    }
    ProjectedIds(tasks);
  }

  lemma ProjectedIds(tasks: seq<Task>)
    ensures UiIds(AllTasks(tasks)) == Ids(tasks)
  {
    var ui := AllTasks(tasks);
    forall k | k in Ids(tasks) ensures k in UiIds(ui) {
      var i :| 0 <= i < |tasks| && tasks[i].id == k;
      assert ui[i].id == k;
    }
  }

  /**
   * The private `saveEditedTask`: a text that trims to blank deletes the
   * task; otherwise the task, if it still exists, gets the trimmed text and
   * keeps its `isDone` and timestamp. No other task is touched.
   */
  function SaveEditedTask(t: Table, taskId: int, newText: string): (r: Table)
    requires WellFormed(t)
    ensures WellFormed(r) && r.nextId == t.nextId
    ensures forall k :: k != taskId ==> Lookup(r, k) == Lookup(t, k)
    ensures IsBlank(Trim(newText)) ==> taskId !in r.rows
    ensures !IsBlank(Trim(newText)) ==> (taskId in r.rows <==> taskId in t.rows)
    ensures !IsBlank(Trim(newText)) && taskId in t.rows ==>
              && r.rows[taskId].text == Trim(newText)
              && r.rows[taskId].isDone == t.rows[taskId].isDone
              && r.rows[taskId].completedOrReopenedTimestamp == t.rows[taskId].completedOrReopenedTimestamp
              && r.rows[taskId].id == taskId
  {
    var trimmedText := Trim(newText);
    if IsBlank(trimmedText) then Deleted(t, taskId)
    else
      match Lookup(t, taskId)
      case None => t
      case Some(original) => Updated(t, original.(text := trimmedText))
  }

  /** `onNewTaskTextChange`: only the pending new-task text changes. */
  function OnNewTaskTextChange(s: State, newText: string): (r: State)
    ensures r.session.newTaskText == newText
    ensures r.table == s.table
    ensures r.session.currentlyEditingTaskId == s.session.currentlyEditingTaskId
    ensures r.session.currentEditText == s.session.currentEditText
  {
    s.(session := s.session.(newTaskText := newText))
  }

  /**
   * `insertNewTask`: when the trimmed pending text is blank, nothing at all
   * changes (the pending text is kept). Otherwise exactly one task is added,
   * under a fresh key, with the trimmed text, not done and stamped `now`,
   * and the pending text is cleared; the editing session is untouched.
   */
  function InsertNewTask(s: State, now: int): (r: State)
    requires WellFormed(s.table)
    ensures WellFormed(r.table)
    ensures IsBlank(Trim(s.session.newTaskText)) ==> r == s
    ensures !IsBlank(Trim(s.session.newTaskText)) ==>
              && s.table.nextId !in s.table.rows
              && r.table.rows == s.table.rows[s.table.nextId :=
                   Task(s.table.nextId, Trim(s.session.newTaskText), false, Some(now))]
              && r.session == s.session.(newTaskText := "")
  {
    var text := Trim(s.session.newTaskText);
    if !IsBlank(text) then
      var taskToInsert := Task(text := text, isDone := false, completedOrReopenedTimestamp := Some(now));
      State(Inserted(s.table, taskToInsert), s.session.(newTaskText := ""))
    else s
  }

  /** The session after an edit is committed: no task is being edited and the edit text is empty. */
  function Cleared(session: Session): (r: Session)
    ensures r.currentlyEditingTaskId == None && r.currentEditText == ""
    ensures r.newTaskText == session.newTaskText
  {
    session.(currentlyEditingTaskId := None, currentEditText := "")
  }

  /**
   * `saveOrDeleteCurrentEditedTask`: without a session nothing changes;
   * with a session on `k`, task `k` is saved or deleted by the
   * `SaveEditedTask` rule and the session always ends.
   */
  function SaveOrDeleteCurrentEditedTask(s: State): (r: State)
    requires WellFormed(s.table)
    ensures WellFormed(r.table) && r.table.nextId == s.table.nextId
    ensures s.session.currentlyEditingTaskId.None? ==> r == s
    ensures s.session.currentlyEditingTaskId.Some? ==>
              && r.session == Cleared(s.session)
              && r.table == SaveEditedTask(s.table, s.session.currentlyEditingTaskId.value, s.session.currentEditText)
  {
    match s.session.currentlyEditingTaskId
    case None => s
    case Some(editingId) =>
      var textToSave := s.session.currentEditText;
      State(SaveEditedTask(s.table, editingId, textToSave), Cleared(s.session))
  }

  /** `finishEditing`: the same transition under another name. */
  function FinishEditing(s: State): (r: State)
    requires WellFormed(s.table)
    ensures r == SaveOrDeleteCurrentEditedTask(s)
  {
    SaveOrDeleteCurrentEditedTask(s)
  }

  /** The table after `updateTaskDoneStatus` has committed a pending edit of `taskId`, if there was one. */
  function CommittedFor(s: State, taskId: int): (t: Table)
    requires WellFormed(s.table)
    ensures WellFormed(t) && t.nextId == s.table.nextId
    ensures forall k :: k != taskId ==> Lookup(t, k) == Lookup(s.table, k)
    ensures s.session.currentlyEditingTaskId != Some(taskId) ==> t == s.table
    ensures s.session.currentlyEditingTaskId == Some(taskId) && IsBlank(Trim(s.session.currentEditText)) ==>
              taskId !in t.rows
    ensures s.session.currentlyEditingTaskId == Some(taskId) && !IsBlank(Trim(s.session.currentEditText)) ==>
              && (taskId in t.rows <==> taskId in s.table.rows)
              && (taskId in s.table.rows ==> t.rows[taskId] == s.table.rows[taskId].(text := Trim(s.session.currentEditText)))
  {
    if s.session.currentlyEditingTaskId == Some(taskId)
    then SaveEditedTask(s.table, taskId, s.session.currentEditText)
    else s.table
  }

  /**
   * `updateTaskDoneStatus`: if `taskId` is being edited, its pending text is
   * committed and the session ends first. Then, if the task still exists,
   * its `isDone` becomes `newDoneState` and its timestamp `now`, its text as
   * committed; if it does not (also when the commit just deleted it), the
   * table stays as the commit left it. No other task changes.
   */
  function UpdateTaskDoneStatus(s: State, taskId: int, newDoneState: bool, now: int): (r: State)
    requires WellFormed(s.table)
    ensures WellFormed(r.table) && r.table.nextId == s.table.nextId
    ensures s.session.currentlyEditingTaskId == Some(taskId) ==> r.session == Cleared(s.session)
    ensures s.session.currentlyEditingTaskId != Some(taskId) ==> r.session == s.session
    ensures forall k :: k != taskId ==> Lookup(r.table, k) == Lookup(s.table, k)
    ensures taskId in r.table.rows <==> taskId in CommittedFor(s, taskId).rows
    ensures taskId in r.table.rows ==>
              r.table.rows[taskId] == CommittedFor(s, taskId).rows[taskId].(
                isDone := newDoneState, completedOrReopenedTimestamp := Some(now))
  {
    var s1 :=
      if s.session.currentlyEditingTaskId == Some(taskId)
      then State(SaveEditedTask(s.table, taskId, s.session.currentEditText), Cleared(s.session))
      else s;
    match Lookup(s1.table, taskId)
    case None => s1
    case Some(originalTaskEntity) =>
      var updatedTaskEntity := originalTaskEntity.(isDone := newDoneState, completedOrReopenedTimestamp := Some(now));
      s1.(table := Updated(s1.table, updatedTaskEntity))
  }

  /**
   * `startEditingTask`: a session on another task is committed first by the
   * `SaveEditedTask` rule; a session on the same task is not saved. Either
   * way the session then targets `task` with its text pre-filled.
   */
  function StartEditingTask(s: State, task: TaskUiState): (r: State)
    requires WellFormed(s.table)
    ensures WellFormed(r.table) && r.table.nextId == s.table.nextId
    ensures r.session == s.session.(currentlyEditingTaskId := Some(task.id), currentEditText := task.text)
    ensures s.session.currentlyEditingTaskId.None? || s.session.currentlyEditingTaskId == Some(task.id) ==>
              r.table == s.table
    ensures s.session.currentlyEditingTaskId.Some? && s.session.currentlyEditingTaskId != Some(task.id) ==>
              r.table == SaveEditedTask(s.table, s.session.currentlyEditingTaskId.value, s.session.currentEditText)
  {
    var table :=
      match s.session.currentlyEditingTaskId
      case Some(oldEditingId) =>
        if oldEditingId != task.id then SaveEditedTask(s.table, oldEditingId, s.session.currentEditText)
        else s.table
      case None => s.table;
    State(table, s.session.(currentlyEditingTaskId := Some(task.id), currentEditText := task.text))
  }

  /** `onCurrentEditTextChange`: the edit text is replaced, whether or not a session is active. */
  function OnCurrentEditTextChange(s: State, newText: string): (r: State)
    ensures r.session.currentEditText == newText
    ensures r.table == s.table
    ensures r.session.currentlyEditingTaskId == s.session.currentlyEditingTaskId
    ensures r.session.newTaskText == s.session.newTaskText
  {
    s.(session := s.session.(currentEditText := newText))
  }

  // Properties of call sequences.

  /**
   * Switching the edit target commits the previous edit first: starting an
   * edit on another task is the same as finishing the current edit and then
   * starting the new one.
   */
  lemma SwitchingCommitsFirst(s: State, task: TaskUiState)
    requires WellFormed(s.table)
    requires s.session.currentlyEditingTaskId.Some? && s.session.currentlyEditingTaskId != Some(task.id)
    ensures StartEditingTask(s, task) == StartEditingTask(SaveOrDeleteCurrentEditedTask(s), task)
  {
  }

  /** Starting an edit of the task already being edited saves nothing; it only resets the edit text. */
  lemma RestartingSameTaskSavesNothing(s: State, task: TaskUiState)
    requires WellFormed(s.table)
    requires s.session.currentlyEditingTaskId == Some(task.id)
    ensures StartEditingTask(s, task) == OnCurrentEditTextChange(s, task.text)
  {
  }

  /** After a commit no session is active, so a second commit changes nothing. */
  lemma CommitIsIdempotent(s: State)
    requires WellFormed(s.table)
    ensures SaveOrDeleteCurrentEditedTask(SaveOrDeleteCurrentEditedTask(s)) == SaveOrDeleteCurrentEditedTask(s)
  {
  }

  /**
   * The checkbox of a task (MainActivity.kt): when that task is being
   * edited, the UI first finishes the edit and then calls
   * `updateTaskDoneStatus`. The explicit commit is harmless: the outcome is
   * what `updateTaskDoneStatus` alone gives, the edit is committed exactly
   * once, and the session has ended.
   */
  lemma CheckboxCommitsThenToggles(s: State, taskId: int, checked: bool, now: int)
    requires WellFormed(s.table)
    ensures var isBeingEdited := s.session.currentlyEditingTaskId == Some(taskId);
            var afterEdit := if isBeingEdited then SaveOrDeleteCurrentEditedTask(s) else s;
            var r := UpdateTaskDoneStatus(afterEdit, taskId, checked, now);
            && r == UpdateTaskDoneStatus(s, taskId, checked, now)
            && (isBeingEdited ==> r.session == Cleared(s.session))
            && (isBeingEdited && IsBlank(Trim(s.session.currentEditText)) ==> taskId !in r.table.rows)
            && (isBeingEdited && !IsBlank(Trim(s.session.currentEditText)) && taskId in s.table.rows ==>
                  r.table.rows[taskId] == s.table.rows[taskId].(
                    text := Trim(s.session.currentEditText),
                    isDone := checked, completedOrReopenedTimestamp := Some(now)))
  {
    var isBeingEdited := s.session.currentlyEditingTaskId == Some(taskId);
    if isBeingEdited {
      var afterEdit := SaveOrDeleteCurrentEditedTask(s);
      assert afterEdit.session.currentlyEditingTaskId == None;
      assert CommittedFor(afterEdit, taskId) == CommittedFor(s, taskId);
    }
  }

  /** The session only ever names a key the table has handed out, as it does when it is started from a listed task. */
  ghost predicate EditTargetIssued(s: State) {
    s.session.currentlyEditingTaskId.Some? ==> s.session.currentlyEditingTaskId.value < s.table.nextId
  }

  /**
   * The "Add" button (ToDoScreenWithScaffold.kt): a pending edit is
   * finished, then the new task is inserted. The edit is committed and the
   * session has ended, and the order does not matter: committing cannot
   * touch the task just added, as the session never names the fresh key.
   */
  lemma AddCommitsThenInserts(s: State, now: int)
    requires WellFormed(s.table) && EditTargetIssued(s)
    ensures var afterEdit := if s.session.currentlyEditingTaskId.Some? then SaveOrDeleteCurrentEditedTask(s) else s;
            var r := InsertNewTask(afterEdit, now);
            && r.session.currentlyEditingTaskId == None
            && (s.session.currentlyEditingTaskId.Some? ==> r.session.currentEditText == "")
            && r == SaveOrDeleteCurrentEditedTask(InsertNewTask(s, now))
  {
    var text := Trim(s.session.newTaskText);
    if s.session.currentlyEditingTaskId.Some? && !IsBlank(text) {
      var k := s.session.currentlyEditingTaskId.value;
      var task := Task(text := text, isDone := false, completedOrReopenedTimestamp := Some(now));
      CommitAndInsertCommute(s.table, k, s.session.currentEditText, task);
    }
  }

  /** Committing an edit of an issued key and inserting a task with a generated id commute. */
  lemma CommitAndInsertCommute(t: Table, k: int, text: string, task: Task)
    requires WellFormed(t) && k < t.nextId && task.id == 0
    ensures SaveEditedTask(Inserted(t, task), k, text) == Inserted(SaveEditedTask(t, k, text), task)
  {
    var added := task.(id := t.nextId);
    assert Inserted(t, task) == Table(t.rows[t.nextId := added], t.nextId + 1);
    if IsBlank(Trim(text)) {
      DeleteAndInsertCommute(t, k, task);
    } else if k in t.rows {
      EditAndInsertCommute(t, k, Trim(text), task);
    } else {
      assert SaveEditedTask(t, k, text) == t;
    }
  }

  /** Removing an issued key and appending a generated row commute. */
  lemma DeleteAndInsertCommute(t: Table, k: int, task: Task)
    requires WellFormed(t) && k < t.nextId && task.id == 0
    ensures Deleted(Inserted(t, task), k) == Inserted(Deleted(t, k), task)
  {
    var added := task.(id := t.nextId);
    assert t.rows[t.nextId := added] - {k} == (t.rows - {k})[t.nextId := added];
  }

  /** Rewriting a stored row and appending a generated row commute. */
  lemma EditAndInsertCommute(t: Table, k: int, trimmed: string, task: Task)
    requires WellFormed(t) && k in t.rows && task.id == 0
    ensures Updated(Inserted(t, task), t.rows[k].(text := trimmed)) == Inserted(Updated(t, t.rows[k].(text := trimmed)), task)
  {
    var added := task.(id := t.nextId);
    var edited := t.rows[k].(text := trimmed);
    assert t.rows[t.nextId := added][k := edited] == t.rows[k := edited][t.nextId := added];
  }

  /**
   * Every operation keeps the session pointing at an issued key, provided an
   * edit is started only on a task whose key was issued, as every listed task's
   * was; a row deleted since it was listed still qualifies, as keys are never reused.
   */
  lemma OperationsKeepEditTargetIssued(s: State, task: TaskUiState, taskId: int, b: bool, text: string, now: int)
    requires WellFormed(s.table) && EditTargetIssued(s)
    ensures EditTargetIssued(InsertNewTask(s, now))
    ensures EditTargetIssued(UpdateTaskDoneStatus(s, taskId, b, now))
    ensures EditTargetIssued(SaveOrDeleteCurrentEditedTask(s))
    ensures EditTargetIssued(OnCurrentEditTextChange(s, text))
    ensures EditTargetIssued(OnNewTaskTextChange(s, text))
    ensures task.id < s.table.nextId ==> EditTargetIssued(StartEditingTask(s, task))
  {
    var inserted := InsertNewTask(s, now);
    assert inserted.table.nextId >= s.table.nextId;
    assert inserted.session.currentlyEditingTaskId == s.session.currentlyEditingTaskId;
    var toggled := UpdateTaskDoneStatus(s, taskId, b, now);
    assert toggled.session.currentlyEditingTaskId == s.session.currentlyEditingTaskId
        || toggled.session.currentlyEditingTaskId.None?;
    var started := StartEditingTask(s, task);
    assert started.session.currentlyEditingTaskId == Some(task.id);
  }
}

/**
 * `TaskViewModel`: the task list controller as an object. Its three fields
 * change in place and it drives a `TaskDao`; every method is proved to
 * perform the matching transition of `TaskRules`. The clock is the
 * parameter `now`, and each launched coroutine runs to completion inside
 * the call that launches it.
 */
module TaskController {
  import opened Wrappers
  import opened TaskEntity
  import opened TaskStore
  import opened Whitespace
  import TaskRules

  class TaskViewModel {
    const repository: TaskDao
    var newTaskText: string
    var currentlyEditingTaskId: Option<int>
    var currentEditText: string

    function CurrentSession(): TaskRules.Session
      reads this
    {
      TaskRules.Session(newTaskText, currentlyEditingTaskId, currentEditText)
    }

    /** The controller and its store as one `TaskRules.State`. */
    function Model(): TaskRules.State
      reads this, repository
    {
      TaskRules.State(repository.Snapshot(), CurrentSession())
    }

    ghost predicate Valid()
      reads this, repository
    {
      repository.Valid()
    }

    constructor (repository: TaskDao)
      requires repository.Valid()
      ensures this.repository == repository
      ensures Valid() && CurrentSession() == TaskRules.InitialSession
    {
      this.repository := repository;
      newTaskText := "";
      currentlyEditingTaskId := None;
      currentEditText := "";
    }

    /** `allTasks`: the current list as the UI sees it. */
    method AllTasks() returns (ui: seq<TaskRules.TaskUiState>)
      requires Valid()
      ensures TaskRules.IsUiListing(repository.Snapshot(), ui)
    {
      var tasks := repository.GetAllTasks();
      ui := TaskRules.AllTasks(tasks);
      TaskRules.AllTasksListsTable(repository.Snapshot(), tasks);
    }

    method OnNewTaskTextChange(newText: string)
      modifies this
      ensures Model() == TaskRules.OnNewTaskTextChange(old(Model()), newText)
    {
      newTaskText := newText;
    }

    method InsertNewTask(now: int)
      requires Valid()
      modifies this, repository
      ensures Valid() && Model() == TaskRules.InsertNewTask(old(Model()), now)
    {
      ghost var before := Model();
      var text := Trim(newTaskText);
      if !IsBlank(text) {
        var taskToInsert := Task(text := text, isDone := false, completedOrReopenedTimestamp := Some(now));
        repository.InsertTask(taskToInsert);
        newTaskText := "";
        ghost var after := TaskRules.InsertNewTask(before, now);
        assert after.table == Inserted(before.table, taskToInsert) == repository.Snapshot();
        assert after.session == before.session.(newTaskText := "") == CurrentSession();
      }
    }

    method UpdateTaskDoneStatus(taskId: int, newDoneState: bool, now: int)
      requires Valid()
      modifies this, repository
      ensures Valid() && Model() == TaskRules.UpdateTaskDoneStatus(old(Model()), taskId, newDoneState, now)
    {
      if currentlyEditingTaskId == Some(taskId) {
        SaveEditedTask(taskId, currentEditText);
        if currentlyEditingTaskId == Some(taskId) {
          currentlyEditingTaskId := None;
          currentEditText := "";
        }
      }
      var originalTaskEntity := Lookup(repository.Snapshot(), taskId);
      if originalTaskEntity.Some? {
        var updatedTaskEntity := originalTaskEntity.value.(isDone := newDoneState, completedOrReopenedTimestamp := Some(now));
        repository.UpdateTask(updatedTaskEntity);
      }
    }

    method StartEditingTask(task: TaskRules.TaskUiState)
      requires Valid()
      modifies this, repository
      ensures Valid() && Model() == TaskRules.StartEditingTask(old(Model()), task)
    {
      if currentlyEditingTaskId.Some? {
        var oldEditingId := currentlyEditingTaskId.value;
        if oldEditingId != task.id {
          SaveEditedTask(oldEditingId, currentEditText);
        }
      }
      currentlyEditingTaskId := Some(task.id);
      currentEditText := task.text;
    }

    method OnCurrentEditTextChange(newText: string)
      modifies this
      ensures Model() == TaskRules.OnCurrentEditTextChange(old(Model()), newText)
    {
      currentEditText := newText;
    }

    method SaveOrDeleteCurrentEditedTask()
      requires Valid()
      modifies this, repository
      ensures Valid() && Model() == TaskRules.SaveOrDeleteCurrentEditedTask(old(Model()))
    {
      ghost var before := Model();
      var editingId := currentlyEditingTaskId;
      if editingId.Some? {
        var textToSave := currentEditText;
        SaveEditedTask(editingId.value, textToSave);
        currentlyEditingTaskId := None;
        currentEditText := "";
        assert CurrentSession() == TaskRules.Cleared(before.session);
      }
    }

    /** The private `saveEditedTask`: changes only the store. */
    method SaveEditedTask(taskId: int, newText: string)
      requires Valid()
      modifies repository
      ensures Valid() && repository.Snapshot() == TaskRules.SaveEditedTask(old(repository.Snapshot()), taskId, newText)
    {
      var trimmedText := Trim(newText);
      if IsBlank(trimmedText) {
        repository.DeleteTaskById(taskId);
      } else {
        var originalTaskEntity := Lookup(repository.Snapshot(), taskId);
        if originalTaskEntity.Some? {
          var updatedTaskEntity := originalTaskEntity.value.(text := trimmedText);
          repository.UpdateTask(updatedTaskEntity);
        }
      }
    }

    method FinishEditing()
      requires Valid()
      modifies this, repository
      ensures Valid() && Model() == TaskRules.FinishEditing(old(Model()))
    {
      SaveOrDeleteCurrentEditedTask();
    }
  }
}

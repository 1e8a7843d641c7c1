/** The `TaskPlanner` component's state and its event handlers. Each handler
    runs as one atomic transition over the four state fields; the store
    updates are the functions of module TaskStore. */
module Planner {
  import opened Wrappers
  import opened Text
  import opened Tasks
  import opened TaskStore

  class TaskPlanner {
    /** The picked calendar day, already formatted as its date key. */
    var selectedDate: Option<string>
    var tasksByDate: Store
    /** The draft text, shared by adding and editing. */
    var taskText: string
    var editingTaskId: Option<TaskId>

    ghost predicate Valid()
      reads this
    {
      Consistent(tasksByDate)
    }

    /** The initial state: no date, an empty store, an empty draft, no edit. */
    constructor ()
      ensures selectedDate == None && tasksByDate == map[] && taskText == "" && editingTaskId == None
      ensures Valid()
    {
      selectedDate := None;
      tasksByDate := map[];
      taskText := "";
      editingTaskId := None;
    }

    /** The date picker's change handler: only the selection changes. */
    method ChangeDate(date: Option<string>)
      modifies this
      ensures selectedDate == date
      ensures tasksByDate == old(tasksByDate) && taskText == old(taskText)
      ensures editingTaskId == old(editingTaskId)
    {
      selectedDate := date;
    }

    /** The text inputs' change handler: only the draft changes. */
    method ChangeText(text: string)
      modifies this
      ensures taskText == text
      ensures selectedDate == old(selectedDate) && tasksByDate == old(tasksByDate)
      ensures editingTaskId == old(editingTaskId)
    {
      taskText := text;
    }

    /** Add: with a date selected and a draft that is not blank, appends a
        new task carrying the draft as typed under that date and clears the
        draft; otherwise nothing changes. `newId` stands for `Date.now()`. */
    method AddTask(newId: TaskId)
      modifies this
      ensures old(selectedDate.Some? && HasText(taskText)) ==>
                && tasksByDate == TaskStore.AddTask(old(tasksByDate), old(selectedDate.value), newId, old(taskText))
                && taskText == ""
                && selectedDate == old(selectedDate) && editingTaskId == old(editingTaskId)
      ensures !old(selectedDate.Some? && HasText(taskText)) ==> unchanged(this)
      ensures old(Valid()) && (old(selectedDate.Some?) ==>
                forall t :: t in TasksFor(old(tasksByDate), old(selectedDate.value)) ==> t.id != newId)
              ==> Valid()
    {
      if selectedDate.Some? && HasText(taskText) {
        var formattedDate := selectedDate.value;
        var tasksForDate := TasksFor(tasksByDate, formattedDate);
        var newTask := Task(newId, taskText, formattedDate, false);
        var updatedTasks := tasksForDate + [newTask];
        tasksByDate := tasksByDate[formattedDate := updatedTasks];
        taskText := "";
      }
    }

    /** Begin-edit: when a task with that id is filed under the selected
        date, it becomes the one being edited and its text is loaded into
        the draft; otherwise nothing changes. The store never changes. The
        Edit button exists only while a date is selected. */
    method EditTask(taskId: TaskId)
      requires selectedDate.Some?
      modifies this
      ensures tasksByDate == old(tasksByDate) && selectedDate == old(selectedDate)
      ensures var found := Find(TasksFor(tasksByDate, selectedDate.value), taskId);
              if found.Some? then editingTaskId == Some(taskId) && taskText == found.value.task
              else editingTaskId == old(editingTaskId) && taskText == old(taskText)
      ensures old(Valid()) ==> Valid()
    {
      var tasksForDate := TasksFor(tasksByDate, selectedDate.value);
      var taskToEdit := Find(tasksForDate, taskId);
      if taskToEdit.Some? {
        editingTaskId := Some(taskId);
        taskText := taskToEdit.value.task;
      }
    }

    /** Commit-update: with a date selected, a draft that is not blank and an
        edit in progress, the edited task under the selected date takes the
        draft as its text, and the draft and the edit are cleared; otherwise
        nothing changes. */
    method UpdateTask()
      modifies this
      ensures old(selectedDate.Some? && HasText(taskText) && editingTaskId.Some?) ==>
                && tasksByDate == TaskStore.UpdateTask(old(tasksByDate), old(selectedDate.value),
                                                   old(editingTaskId.value), old(taskText))
                && taskText == "" && editingTaskId == None
                && selectedDate == old(selectedDate)
      ensures !old(selectedDate.Some? && HasText(taskText) && editingTaskId.Some?) ==> unchanged(this)
      ensures old(Valid()) ==> Valid()
    {
      if selectedDate.Some? && HasText(taskText) && editingTaskId.Some? {
        var formattedDate := selectedDate.value;
        var tasksForDate := TasksFor(tasksByDate, formattedDate);
        var updatedTasks := ReplaceText(tasksForDate, editingTaskId.value, taskText);
        tasksByDate := tasksByDate[formattedDate := updatedTasks];
        taskText := "";
        editingTaskId := None;
      }
    }

    /** Delete: drops the tasks with that id from the given date's list and
        always clears the draft and the edit in progress. */
    method DeleteTask(date: string, taskId: TaskId)
      modifies this
      ensures tasksByDate == TaskStore.DeleteTask(old(tasksByDate), date, taskId)
      ensures taskText == "" && editingTaskId == None && selectedDate == old(selectedDate)
      ensures old(Valid()) ==> Valid()
    {
      var tasksForDate := TasksFor(tasksByDate, date);
      var updatedTasks := RemoveId(tasksForDate, taskId);
      tasksByDate := tasksByDate[date := updatedTasks];
      taskText := "";
      editingTaskId := None;
    }

    /** Toggle: flips `done` on the task with that id under the given date;
        the selection, the draft and the edit are left alone. */
    method ToggleTask(date: string, taskId: TaskId)
      modifies this
      ensures tasksByDate == TaskStore.ToggleTask(old(tasksByDate), date, taskId)
      ensures selectedDate == old(selectedDate) && taskText == old(taskText)
      ensures editingTaskId == old(editingTaskId)
      ensures old(Valid()) ==> Valid()
    {
      var tasksForDate := TasksFor(tasksByDate, date);
      var updatedTasks := ToggleDone(tasksForDate, taskId);
      tasksByDate := tasksByDate[date := updatedTasks];
    }
  }

  /** A session: add a task to an empty planner, toggle it twice, delete it. */
  method Session(id: TaskId)
  {
    var key := "2024-01-05";
    var p := new TaskPlanner();
    p.ChangeDate(Some(key));
    p.ChangeText("write report");
    assert HasText("write report") by {
      HasTextIff("write report");
      assert !IsTrimmable("write report"[0]);
    }
    p.AddTask(id);
    var added := Task(id, "write report", key, false);
    assert p.tasksByDate[key] == [added];
    assert p.taskText == "";
    p.ToggleTask(key, id);
    assert p.tasksByDate[key] == [added.(done := true)];
    p.ToggleTask(key, id);
    assert p.tasksByDate[key] == [added];
    p.DeleteTask(key, id);
    assert p.tasksByDate[key] == [];
  }

  /** Begin-edit, typing, then commit, on the task at index `k` of the
      selected date: only that task's text changes, to what was typed. */
  method EditThenCommit(p: TaskPlanner, k: nat, text: string)
    requires p.Valid() && p.selectedDate.Some?
    requires k < |TasksFor(p.tasksByDate, p.selectedDate.value)|
    requires HasText(text)
    modifies p
    ensures var key := old(p.selectedDate.value);
            var ts := old(TasksFor(p.tasksByDate, key));
            p.tasksByDate == old(p.tasksByDate)[key := ts[k := ts[k].(task := text)]]
    ensures p.taskText == "" && p.editingTaskId == None && p.selectedDate == old(p.selectedDate)
  {
    var key := p.selectedDate.value;
    var ts := TasksFor(p.tasksByDate, key);
    assert ts[k] in ts;
    p.EditTask(ts[k].id);
    p.ChangeText(text);
    p.UpdateTask();
    ReplaceTextAt(ts, k, text);
  }
}

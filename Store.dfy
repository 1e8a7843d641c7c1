/** The component's store `tasksByDate`: a map from a date key to the tasks
    filed under it, and the four copy-on-write updates the handlers make.
    Each rebuilds only the one key it is given,
    `{ ...tasksByDate, [key]: updatedTasks }`, and creates that key (from
    `tasksByDate[key] || []`) when it was absent. */
module TaskStore {
  import opened Tasks

  type Store = map<string, seq<Task>>

  /** `tasksByDate[key] || []`: the tasks under a key, none if it is absent. */
  function TasksFor(s: Store, key: string): seq<Task>
  {
    if key in s then s[key] else []
  }

  /** The store's invariant: every task is filed under its own date, and the
      ids under one date are distinct. */
  ghost predicate Consistent(s: Store)
  {
    && (forall k, t :: k in s && t in s[k] ==> t.date == k)
    && (forall k :: k in s ==> IdsDistinct(s[k]))
  }

  /** Every key other than `key` is present in `r` exactly when it is in `s`,
      with the same sequence. */
  ghost predicate OthersUnchanged(s: Store, r: Store, key: string)
  {
    forall k :: k != key ==> (k in r <==> k in s) && (k in s ==> r[k] == s[k])
  }

  /** The store update of the add handler: one new, not yet done task with
      the given id and text, filed under `key`, appended after the tasks
      already there. */
  function AddTask(s: Store, key: string, id: TaskId, text: string): (r: Store)
    ensures OthersUnchanged(s, r, key)
    ensures key in r && |r[key]| == |TasksFor(s, key)| + 1
    ensures r[key][..|TasksFor(s, key)|] == TasksFor(s, key)
    ensures r[key][|r[key]| - 1] == Task(id, text, key, false)
    ensures Consistent(s) && (forall t :: t in TasksFor(s, key) ==> t.id != id) ==> Consistent(r)
  {
    var tasksForDate := TasksFor(s, key);
    var newTask := Task(id, text, key, false);
    s[key := tasksForDate + [newTask]]
  }

  /** The store update of the commit-update handler: under `key`, the text
      of the tasks with that id becomes `text`. */
  function UpdateTask(s: Store, key: string, id: TaskId, text: string): (r: Store)
    ensures OthersUnchanged(s, r, key)
    ensures key in r && r[key] == ReplaceText(TasksFor(s, key), id, text)
    ensures Consistent(s) ==> Consistent(r)
  {
    s[key := ReplaceText(TasksFor(s, key), id, text)]
  }

  /** The store update of the delete handler: under `key`, the tasks with
      that id are dropped and the rest keep their order. */
  function DeleteTask(s: Store, key: string, id: TaskId): (r: Store)
    ensures OthersUnchanged(s, r, key)
    ensures key in r && r[key] == RemoveId(TasksFor(s, key), id)
    ensures Consistent(s) ==> Consistent(r)
  {
    RemoveIdKeepsDistinct(TasksFor(s, key), id);
    s[key := RemoveId(TasksFor(s, key), id)]
  }

  /** The store update of the toggle handler: under `key`, `done` flips on
      the tasks with that id. */
  function ToggleTask(s: Store, key: string, id: TaskId): (r: Store)
    ensures OthersUnchanged(s, r, key)
    ensures key in r && r[key] == ToggleDone(TasksFor(s, key), id)
    ensures Consistent(s) ==> Consistent(r)
  {
    s[key := ToggleDone(TasksFor(s, key), id)]
  }

  /** Toggling the same task twice restores every date's tasks; when the key
      was already present, the store itself is restored. */
  lemma ToggleTaskTwice(s: Store, key: string, id: TaskId)
    ensures forall k :: TasksFor(ToggleTask(ToggleTask(s, key, id), key, id), k) == TasksFor(s, k)
    ensures key in s ==> ToggleTask(ToggleTask(s, key, id), key, id) == s
  {
  }

  /** Deleting an id no task under `key` has changes no date's tasks. */
  lemma DeleteTaskAbsent(s: Store, key: string, id: TaskId)
    requires forall t :: t in TasksFor(s, key) ==> t.id != id
    ensures forall k :: TasksFor(DeleteTask(s, key, id), k) == TasksFor(s, k)
  {
    RemoveIdAbsent(TasksFor(s, key), id);
  }

  /** Committing an edit to an id no task under `key` has changes no date's
      tasks. */
  lemma UpdateTaskAbsent(s: Store, key: string, id: TaskId, text: string)
    requires forall t :: t in TasksFor(s, key) ==> t.id != id
    ensures forall k :: TasksFor(UpdateTask(s, key, id, text), k) == TasksFor(s, k)
  {
  }

  /** With distinct ids, deleting a task that is present shortens its
      date's list by exactly one. */
  lemma DeleteTaskRemovesOne(s: Store, key: string, id: TaskId, k: nat)
    requires Consistent(s)
    requires k < |TasksFor(s, key)| && TasksFor(s, key)[k].id == id
    ensures var ts := TasksFor(s, key);
            DeleteTask(s, key, id)[key] == ts[..k] + ts[k + 1..]
  {
    RemoveIdAt(TasksFor(s, key), id, k);
  }
}

/** A task record and the per-date list transforms the handlers apply:
    `find` (begin-edit), `map` over the text (commit-update), `filter`
    (delete) and `map` over `done` (toggle). */
module Tasks {
  import opened Wrappers

  /** The creation timestamp `Date.now()` that identifies a task. */
  type TaskId = int

  /** `{ id, task, date, done }`: `task` is the text, `date` the key of the
      date the task is filed under. */
  datatype Task = Task(id: TaskId, task: string, date: string, done: bool)

  /** No two tasks of the sequence share an id. */
  ghost predicate IdsDistinct(ts: seq<Task>)
  {
    forall i, j :: 0 <= i < j < |ts| ==> ts[i].id != ts[j].id
  }

  /** `ts.find(task => task.id === id)`: the first task with that id, or
      nothing when no task has it. */
  function Find(ts: seq<Task>, id: TaskId): (r: Option<Task>)
    ensures r.None? <==> forall t :: t in ts ==> t.id != id
    ensures r.Some? ==> exists i :: 0 <= i < |ts| && ts[i] == r.value && r.value.id == id
                                    && forall j :: 0 <= j < i ==> ts[j].id != id
  {
    if ts == [] then None
    else if ts[0].id == id then Some(ts[0])
    else
      var r := Find(ts[1..], id);
      assert r.Some? ==> exists i :: 0 <= i < |ts| && ts[i] == r.value && r.value.id == id
                                    && forall j :: 0 <= j < i ==> ts[j].id != id by {
        if r.Some? {
          var i :| 0 <= i < |ts[1..]| && ts[1..][i] == r.value
                   && forall j :: 0 <= j < i ==> ts[1..][j].id != id;
          assert ts[i + 1] == r.value;
        }
      }
      r
  }

  /** `ts.map(t => t.id === id ? { ...t, task: text } : t)`: same length and
      order, the text of every task with that id replaced, every other
      field and every other task as before. */
  function ReplaceText(ts: seq<Task>, id: TaskId, text: string): (r: seq<Task>)
    ensures |r| == |ts|
    ensures forall i :: 0 <= i < |ts| ==>
              r[i].id == ts[i].id && r[i].date == ts[i].date && r[i].done == ts[i].done
    ensures forall i :: 0 <= i < |ts| ==> r[i].task == if ts[i].id == id then text else ts[i].task
  {
    if ts == [] then []
    else [if ts[0].id == id then ts[0].(task := text) else ts[0]] + ReplaceText(ts[1..], id, text)
  }

  /** `ts.map(t => t.id === id ? { ...t, done: !t.done } : t)`: same length
      and order, `done` flipped on every task with that id, every other
      field and every other task as before. */
  function ToggleDone(ts: seq<Task>, id: TaskId): (r: seq<Task>)
    ensures |r| == |ts|
    ensures forall i :: 0 <= i < |ts| ==>
              r[i].id == ts[i].id && r[i].task == ts[i].task && r[i].date == ts[i].date
    ensures forall i :: 0 <= i < |ts| ==> r[i].done == if ts[i].id == id then !ts[i].done else ts[i].done
  {
    if ts == [] then []
    else [if ts[0].id == id then ts[0].(done := !ts[0].done) else ts[0]] + ToggleDone(ts[1..], id)
  }

  /** `ts.filter(t => t.id !== id)`: exactly the tasks without that id. */
  function RemoveId(ts: seq<Task>, id: TaskId): (r: seq<Task>)
    ensures forall t :: t in r <==> t in ts && t.id != id
    ensures |r| <= |ts|
  {
    if ts == [] then []
    else if ts[0].id == id then RemoveId(ts[1..], id)
    else [ts[0]] + RemoveId(ts[1..], id)
  }

  /** Committing an edit to an id no task has changes no task. */
  lemma ReplaceTextAbsent(ts: seq<Task>, id: TaskId, text: string)
    requires forall t :: t in ts ==> t.id != id
    ensures ReplaceText(ts, id, text) == ts
  {
  }

  /** Toggling an id no task has changes no task. */
  lemma ToggleDoneAbsent(ts: seq<Task>, id: TaskId)
    requires forall t :: t in ts ==> t.id != id
    ensures ToggleDone(ts, id) == ts
  {
  }

  /** Toggle is an involution: toggling the same id twice restores the list. */
  lemma ToggleDoneTwice(ts: seq<Task>, id: TaskId)
    ensures ToggleDone(ToggleDone(ts, id), id) == ts
  {
  }

  /** When ids are distinct, committing an edit to the id of the task at
      index `k` rewrites that one task's text and nothing else. */
  lemma ReplaceTextAt(ts: seq<Task>, k: nat, text: string)
    requires IdsDistinct(ts)
    requires k < |ts|
    ensures ReplaceText(ts, ts[k].id, text) == ts[k := ts[k].(task := text)]
  {
  }

  /** When ids are distinct, toggling the id of the task at index `k` flips
      that one task's `done` and nothing else. */
  lemma ToggleDoneAt(ts: seq<Task>, k: nat)
    requires IdsDistinct(ts)
    requires k < |ts|
    ensures ToggleDone(ts, ts[k].id) == ts[k := ts[k].(done := !ts[k].done)]
  {
  }

  /** Deleting an id no task has leaves the list as it was. */
  lemma {:induction false} RemoveIdAbsent(ts: seq<Task>, id: TaskId)
    requires forall t :: t in ts ==> t.id != id
    ensures RemoveId(ts, id) == ts
  {
    if ts != [] {
      assert ts[0] in ts;
      RemoveIdAbsent(ts[1..], id);
      assert ts == [ts[0]] + ts[1..];
    }
  }

  /** Filtering works piece by piece, so the kept tasks stay in their
      original relative order. */
  lemma {:induction false} RemoveIdConcat(a: seq<Task>, b: seq<Task>, id: TaskId)
    ensures RemoveId(a + b, id) == RemoveId(a, id) + RemoveId(b, id)
  {
    if a == [] {
      assert a + b == b;
    } else {
      assert (a + b)[0] == a[0];
      assert (a + b)[1..] == a[1..] + b;
      RemoveIdConcat(a[1..], b, id);
    }
  }

  /** When ids are distinct and the task at index `k` has the id, delete
      removes exactly that one task and keeps the others in order. */
  lemma RemoveIdAt(ts: seq<Task>, id: TaskId, k: nat)
    requires IdsDistinct(ts)
    requires k < |ts| && ts[k].id == id
    ensures RemoveId(ts, id) == ts[..k] + ts[k + 1..]
    ensures |RemoveId(ts, id)| == |ts| - 1
  {
    var before, after := ts[..k], ts[k + 1..];
    assert ts == before + ([ts[k]] + after);
    forall t | t in before ensures t.id != id {
      var i :| 0 <= i < k && before[i] == t;
    }
    forall t | t in after ensures t.id != id {
      var i :| 0 <= i < |after| && after[i] == t;
      assert t == ts[k + 1 + i];
    }
    calc {
      RemoveId(ts, id);
      { RemoveIdConcat(before, [ts[k]] + after, id); }
      RemoveId(before, id) + RemoveId([ts[k]] + after, id);
      { assert ([ts[k]] + after)[1..] == after; }
      RemoveId(before, id) + RemoveId(after, id);
      { RemoveIdAbsent(before, id); RemoveIdAbsent(after, id); }
      before + after;
    }
  }

  /** Deleting keeps the ids of the remaining tasks distinct. */
  lemma {:induction false} RemoveIdKeepsDistinct(ts: seq<Task>, id: TaskId)
    ensures IdsDistinct(ts) ==> IdsDistinct(RemoveId(ts, id))
  {
    if ts != [] && IdsDistinct(ts) {
      RemoveIdKeepsDistinct(ts[1..], id);
      var rest := RemoveId(ts[1..], id);
      if ts[0].id != id {
        forall t | t in rest ensures t.id != ts[0].id {
          var j :| 0 <= j < |ts[1..]| && ts[1..][j] == t;
          assert t == ts[j + 1];
        }
        var r := [ts[0]] + rest;
        forall i, j | 0 <= i < j < |r| ensures r[i].id != r[j].id {
          if i == 0 {
            assert r[j] in rest;
          } else {
            assert r[i] == rest[i - 1] && r[j] == rest[j - 1];
          }
        }
      }
    }
  }
}

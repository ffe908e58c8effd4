/** The task list of the to-do page as a value: its records, what addTask,
    toggleTask, deleteTask and editTask do to it, the filtered view that
    renderTasks shows, and the counters and celebration test over it. */
module Tasks {
  import opened Text
  import opened Filtering

  /** A task's id, `Date.now()` when it was added (milliseconds). */
  type TaskId = int

  /** One record of the list; `timestamp` is the ISO-8601 creation time. */
  datatype Task = Task(id: TaskId, text: string, completed: bool, timestamp: string)

  datatype Option<T> = None | Some(value: T)

  /** The `data-filter` values of the filter buttons; the page starts on "all". */
  const AllFilter := "all"
  const ActiveFilter := "active"
  const CompletedFilter := "completed"

  const CompletedEmptyMessage := "No completed tasks yet!"
  const ListEmptyMessage := "Your list is empty. Add a task to get started!"

  /** Text the page ever stores: non-empty, no whitespace at either end. */
  predicate IsTaskText(text: string) {
    text != [] && IsTrimmed(text)
  }

  predicate TextsValid(tasks: seq<Task>) {
    forall i :: 0 <= i < |tasks| ==> IsTaskText(tasks[i].text)
  }

  predicate UniqueIds(tasks: seq<Task>) {
    forall i, j :: 0 <= i < j < |tasks| ==> tasks[i].id != tasks[j].id
  }

  predicate HasId(tasks: seq<Task>, id: TaskId) {
    exists i :: 0 <= i < |tasks| && tasks[i].id == id
  }

  /** The list the page starts with: what was stored, or nothing. */
  function Hydrate(stored: Option<seq<Task>>): seq<Task> {
    match stored
    case None => []
    case Some(tasks) => tasks
  }

  // ----------------------------------------------------------------- add

  /** The list after adding the input. Blank input is rejected and leaves the
      list alone; any other input grows the list by one open task that
      carries the trimmed text, the given id and timestamp, after all the old
      tasks in their old order. */
  function Added(tasks: seq<Task>, input: string, id: TaskId, timestamp: string): (r: seq<Task>)
    ensures AllWhitespace(input) ==> r == tasks
    ensures !AllWhitespace(input) ==>
      |r| == |tasks| + 1 && r[..|tasks|] == tasks &&
      r[|tasks|] == Task(id, Trim(input), false, timestamp) && IsTaskText(r[|tasks|].text)
  {
    var text := Trim(input);
    if text == [] then tasks else tasks + [Task(id, text, false, timestamp)]
  }

  /** Adding counts one more task and no more completed ones. */
  lemma AddCounts(tasks: seq<Task>, input: string, id: TaskId, timestamp: string)
    ensures var after := StatsOf(Added(tasks, input, id, timestamp));
      after.completed == StatsOf(tasks).completed &&
      after.total == StatsOf(tasks).total + (if AllWhitespace(input) then 0 else 1)
  {
    if !AllWhitespace(input) {
      WhereAppend(tasks, [Task(id, Trim(input), false, timestamp)], IsCompleted);
    }
  }

  /** Adding keeps every text valid, and keeps the ids unique when the new id
      is not in use. */
  lemma AddKeepsValid(tasks: seq<Task>, input: string, id: TaskId, timestamp: string)
    ensures TextsValid(tasks) ==> TextsValid(Added(tasks, input, id, timestamp))
    ensures UniqueIds(tasks) && !HasId(tasks, id) ==> UniqueIds(Added(tasks, input, id, timestamp))
  {
  }

  // -------------------------------------------------------------- toggle

  function Flip(t: Task, id: TaskId): Task {
    if t.id == id then t.(completed := !t.completed) else t
  }

  /** The list after toggling `id`: same length, order, ids, texts and
      timestamps; `completed` is flipped exactly where the id matches. */
  function Toggled(tasks: seq<Task>, id: TaskId): (r: seq<Task>)
    ensures |r| == |tasks|
    ensures forall i :: 0 <= i < |r| ==>
      r[i].id == tasks[i].id && r[i].text == tasks[i].text && r[i].timestamp == tasks[i].timestamp &&
      r[i].completed == (tasks[i].completed != (tasks[i].id == id))
  {
    if tasks == [] then [] else [Flip(tasks[0], id)] + Toggled(tasks[1..], id)
  }

  /** Toggling an id no task has changes nothing. */
  lemma ToggleUnknownId(tasks: seq<Task>, id: TaskId)
    requires !HasId(tasks, id)
    ensures Toggled(tasks, id) == tasks
  {
  }

  /** Toggling the same id twice restores the list. */
  lemma ToggleTwice(tasks: seq<Task>, id: TaskId)
    ensures Toggled(Toggled(tasks, id), id) == tasks
  {
  }

  /** With unique ids, toggling the id of the task at `k` replaces just that
      task, by a copy with `completed` flipped. */
  lemma ToggleOne(tasks: seq<Task>, k: nat)
    requires UniqueIds(tasks) && k < |tasks|
    ensures Toggled(tasks, tasks[k].id) == tasks[k := tasks[k].(completed := !tasks[k].completed)]
  {
    var id := tasks[k].id;
    var r := Toggled(tasks, id);
    var expected := tasks[k := tasks[k].(completed := !tasks[k].completed)];
    forall i | 0 <= i < |tasks| ensures r[i] == expected[i] {
      if i != k {
        assert tasks[i].id != id;
      }
    }
  }

  /** ... and moves the completed count by one, up when the task was open and
      down when it was completed. */
  lemma ToggleOneCount(tasks: seq<Task>, k: nat)
    requires UniqueIds(tasks) && k < |tasks|
    ensures StatsOf(Toggled(tasks, tasks[k].id)).completed ==
      StatsOf(tasks).completed + (if tasks[k].completed then -1 else 1)
  {
    ToggleOne(tasks, k);
    WhereCountUpdate(tasks, k, tasks[k].(completed := !tasks[k].completed), IsCompleted);
  }

  /** Toggling keeps every text valid and keeps ids unique. */
  lemma ToggleKeepsValid(tasks: seq<Task>, id: TaskId)
    ensures TextsValid(tasks) ==> TextsValid(Toggled(tasks, id))
    ensures UniqueIds(tasks) ==> UniqueIds(Toggled(tasks, id))
  {
  }

  /** The celebration test run after every toggle: the list is not empty and
      every task in it is completed. */
  function Celebrates(tasks: seq<Task>): (b: bool)
    ensures b <==> tasks != [] && forall i :: 0 <= i < |tasks| ==> tasks[i].completed
  {
    WhereKeepsAll(tasks, IsCompleted);
    |Where(tasks, IsCompleted)| == |tasks| && |tasks| > 0
  }

  // -------------------------------------------------------------- delete

  /** The test `task.id !== id` of deleteTask. */
  function OtherThan(id: TaskId): Task -> bool {
    (t: Task) => t.id != id
  }

  /** The list after deleting `id`: a subsequence of the list in which no
      task has that id. */
  function Deleted(tasks: seq<Task>, id: TaskId): (r: seq<Task>)
    ensures IsSubsequence(r, tasks)
    ensures forall i :: 0 <= i < |r| ==> r[i].id != id
  {
    Where(tasks, OtherThan(id))
  }

  /** Deleting removes every task with the id and keeps every other task as
      often as it occurred. */
  lemma DeleteExact(tasks: seq<Task>, id: TaskId)
    ensures forall t: Task :: multiset(Deleted(tasks, id))[t] == if t.id == id then 0 else multiset(tasks)[t]
  {
    WhereCounts(tasks, OtherThan(id));
  }

  /** Deleting an id no task has changes nothing. */
  lemma DeleteUnknownId(tasks: seq<Task>, id: TaskId)
    requires !HasId(tasks, id)
    ensures Deleted(tasks, id) == tasks
  {
    WhereKeepsAll(tasks, OtherThan(id));
  }

  /** Deleting twice is deleting once. */
  lemma DeleteIdempotent(tasks: seq<Task>, id: TaskId)
    ensures Deleted(Deleted(tasks, id), id) == Deleted(tasks, id)
  {
    WhereIdempotent(tasks, OtherThan(id));
  }

  /** With unique ids, deleting the id of the task at `k` removes exactly that
      task and closes the gap. */
  lemma DeleteOne(tasks: seq<Task>, k: nat)
    requires UniqueIds(tasks) && k < |tasks|
    ensures Deleted(tasks, tasks[k].id) == tasks[..k] + tasks[k + 1..]
  {
    var id := tasks[k].id;
    var keep := OtherThan(id);
    var front, back := tasks[..k], tasks[k + 1..];
    assert tasks == front + [tasks[k]] + back;
    assert Where(front, keep) == front by {
      assert forall i :: 0 <= i < |front| ==> keep(front[i]) by {
        forall i | 0 <= i < |front| ensures keep(front[i]) { assert front[i] == tasks[i]; }
      }
      WhereKeepsAll(front, keep);
    }
    assert Where(back, keep) == back by {
      assert forall i :: 0 <= i < |back| ==> keep(back[i]) by {
        forall i | 0 <= i < |back| ensures keep(back[i]) { assert back[i] == tasks[k + 1 + i]; }
      }
      WhereKeepsAll(back, keep);
    }
    assert Where([tasks[k]], keep) == [] by {
      assert [tasks[k]][1..] == [];
    }
    WhereAppend(front + [tasks[k]], back, keep);
    WhereAppend(front, [tasks[k]], keep);
  }

  /** Deleting keeps every text valid and keeps ids unique. */
  lemma DeleteKeepsValid(tasks: seq<Task>, id: TaskId)
    ensures TextsValid(tasks) ==> TextsValid(Deleted(tasks, id))
    ensures UniqueIds(tasks) ==> UniqueIds(Deleted(tasks, id))
  {
    var r := Deleted(tasks, id);
    SubsequenceElements(r, tasks);
    if UniqueIds(tasks) {
      SubsequenceKeepsUniqueIds(r, tasks);
    }
  }

  lemma {:induction false} SubsequenceKeepsUniqueIds(r: seq<Task>, s: seq<Task>)
    requires IsSubsequence(r, s) && UniqueIds(s)
    ensures UniqueIds(r)
    decreases |s|
  {
    if r != [] {
      if r[0] == s[0] && IsSubsequence(r[1..], s[1..]) {
        SubsequenceKeepsUniqueIds(r[1..], s[1..]);
        SubsequenceElements(r[1..], s[1..]);
        forall j | 0 < j < |r| ensures r[0].id != r[j].id {
          assert r[j] == r[1..][j - 1];
          var m :| 0 <= m < |s[1..]| && s[1..][m] == r[j];
          assert s[m + 1] == r[j];
        }
      } else {
        SubsequenceKeepsUniqueIds(r, s[1..]);
      }
    }
  }

  // ---------------------------------------------------------------- edit

  /** `tasks.findIndex(task => task.id === id)`: the first position holding id. */
  function FindIndex(tasks: seq<Task>, id: TaskId): (r: Option<nat>)
    ensures r.None? <==> !HasId(tasks, id)
    ensures r.Some? ==>
      r.value < |tasks| && tasks[r.value].id == id && forall j :: 0 <= j < r.value ==> tasks[j].id != id
  {
    if tasks == [] then None
    else if tasks[0].id == id then Some(0)
    else match FindIndex(tasks[1..], id)
      case None =>
        assert !HasId(tasks, id) by {
          forall i | 0 <= i < |tasks| ensures tasks[i].id != id {
            if i > 0 { assert tasks[i] == tasks[1..][i - 1]; }
          }
        }
        None
      case Some(k) => Some(k + 1)
  }

  /** The list after editing `id` with the dialog's answer (`None` when the
      dialog was cancelled). */
  function Edited(tasks: seq<Task>, id: TaskId, answer: Option<string>): (r: seq<Task>)
    ensures |r| == |tasks|
    ensures forall i :: 0 <= i < |r| ==>
      r[i].id == tasks[i].id && r[i].completed == tasks[i].completed && r[i].timestamp == tasks[i].timestamp
  {
    match FindIndex(tasks, id)
    case None => tasks
    case Some(k) =>
      match answer
      case None => tasks
      case Some(newText) =>
        var text := Trim(newText);
        if text == [] then tasks else tasks[k := tasks[k].(text := text)]
  }

  /** Editing is a no-op for an unknown id, a cancelled dialog, or an answer
      that is all whitespace. */
  lemma EditNoOp(tasks: seq<Task>, id: TaskId, answer: Option<string>)
    requires !HasId(tasks, id) || answer.None? || AllWhitespace(answer.value)
    ensures Edited(tasks, id, answer) == tasks
  {
  }

  /** Otherwise only the first task with the id changes, and only its text,
      which becomes the trimmed answer; later tasks with the same id keep
      their text. */
  lemma EditFirstMatch(tasks: seq<Task>, id: TaskId, newText: string, k: nat)
    requires k < |tasks| && tasks[k].id == id && forall j :: 0 <= j < k ==> tasks[j].id != id
    requires !AllWhitespace(newText)
    ensures var r := Edited(tasks, id, Some(newText));
      r[k] == tasks[k].(text := Trim(newText)) && IsTaskText(r[k].text) &&
      forall j :: 0 <= j < |tasks| && j != k ==> r[j] == tasks[j]
  {
    assert FindIndex(tasks, id).Some?;
  }

  /** Editing changes neither counter (so neither the size of the "active"
      nor of the "completed" view), keeps every text valid and keeps ids unique. */
  lemma EditKeepsCountsAndValid(tasks: seq<Task>, id: TaskId, answer: Option<string>)
    ensures StatsOf(Edited(tasks, id, answer)) == StatsOf(tasks)
    ensures TextsValid(tasks) ==> TextsValid(Edited(tasks, id, answer))
    ensures UniqueIds(tasks) ==> UniqueIds(Edited(tasks, id, answer))
  {
    var r := Edited(tasks, id, answer);
    WhereSameVerdicts(r, tasks, IsCompleted);
  }

  // ---------------------------------------------------- filter and counts

  /** The test of the "active" view, `!task.completed`. */
  predicate IsActive(t: Task) {
    !t.completed
  }

  /** The test of the "completed" view, `task.completed`. */
  predicate IsCompleted(t: Task) {
    t.completed
  }

  /** Whether the filter shows a task: "active" shows open tasks, "completed"
      completed ones, and any other value every task. */
  predicate Shows(filter: string, t: Task) {
    if filter == ActiveFilter then IsActive(t)
    else if filter == CompletedFilter then IsCompleted(t)
    else true
  }

  /** The tasks renderTasks shows: a subsequence of the list made of tasks
      the filter shows, the whole list under any filter value other than
      "active" and "completed". */
  function Project(tasks: seq<Task>, filter: string): (r: seq<Task>)
    ensures IsSubsequence(r, tasks)
    ensures forall i :: 0 <= i < |r| ==> Shows(filter, r[i])
    ensures filter != ActiveFilter && filter != CompletedFilter ==> r == tasks
  {
    if filter == ActiveFilter then Where(tasks, IsActive)
    else if filter == CompletedFilter then Where(tasks, IsCompleted)
    else
      assert IsSubsequence(tasks, tasks) by { SubsequenceReflexive(tasks); }
      tasks
  }

  lemma {:induction false} SubsequenceReflexive(s: seq<Task>)
    ensures IsSubsequence(s, s)
  {
    if s != [] {
      SubsequenceReflexive(s[1..]);
    }
  }

  /** No task the filter shows is left out of the view: each occurs in it as
      often as in the list. */
  lemma ProjectExact(tasks: seq<Task>, filter: string)
    ensures forall t :: multiset(Project(tasks, filter))[t] == if Shows(filter, t) then multiset(tasks)[t] else 0
  {
    if filter == ActiveFilter {
      WhereCounts(tasks, IsActive);
    } else if filter == CompletedFilter {
      WhereCounts(tasks, IsCompleted);
    }
  }

  /** The view is determined by the filter: any subsequence of the list made
      of tasks the filter shows is no longer than the view, and one as long
      as the view is the view. */
  lemma ProjectIsLongest(r: seq<Task>, tasks: seq<Task>, filter: string)
    requires IsSubsequence(r, tasks)
    requires forall i :: 0 <= i < |r| ==> Shows(filter, r[i])
    ensures |r| <= |Project(tasks, filter)|
    ensures |r| == |Project(tasks, filter)| ==> r == Project(tasks, filter)
  {
    if filter == ActiveFilter {
      assert forall i :: 0 <= i < |r| ==> IsActive(r[i]);
      WhereIsLongest(r, tasks, IsActive);
      if |r| == |Project(tasks, filter)| { WhereIsUnique(r, tasks, IsActive); }
    } else if filter == CompletedFilter {
      assert forall i :: 0 <= i < |r| ==> IsCompleted(r[i]);
      WhereIsLongest(r, tasks, IsCompleted);
      if |r| == |Project(tasks, filter)| { WhereIsUnique(r, tasks, IsCompleted); }
    } else {
      SubsequenceLength(r, tasks);
    }
  }

  /** Filtering the view again with the same filter changes nothing. */
  lemma ProjectIdempotent(tasks: seq<Task>, filter: string)
    ensures Project(Project(tasks, filter), filter) == Project(tasks, filter)
  {
    if filter == ActiveFilter {
      WhereIdempotent(tasks, IsActive);
    } else if filter == CompletedFilter {
      WhereIdempotent(tasks, IsCompleted);
    }
  }

  /** When each view is empty: "active" when every task is completed,
      "completed" when none is, any other filter when the list is empty. */
  lemma ProjectEmpty(tasks: seq<Task>, filter: string)
    ensures filter == ActiveFilter ==>
      (Project(tasks, filter) == [] <==> forall i :: 0 <= i < |tasks| ==> tasks[i].completed)
    ensures filter == CompletedFilter ==>
      (Project(tasks, filter) == [] <==> forall i :: 0 <= i < |tasks| ==> !tasks[i].completed)
    ensures filter != ActiveFilter && filter != CompletedFilter ==>
      (Project(tasks, filter) == [] <==> tasks == [])
  {
    WhereKeepsNone(tasks, IsActive);
    WhereKeepsNone(tasks, IsCompleted);
  }

  /** The counters of updateStats. */
  datatype Stats = Stats(total: nat, completed: nat)

  /** The counters, always over the whole list whatever the filter: `total`
      is its length, `completed` the size of the "completed" view, and the
      rest is the size of the "active" view. */
  function StatsOf(tasks: seq<Task>): (r: Stats)
    ensures r.total == |tasks| && r.completed <= r.total
    ensures r.completed == |Project(tasks, CompletedFilter)|
    ensures r.total - r.completed == |Project(tasks, ActiveFilter)|
  {
    OpenPlusDone(tasks);
    Stats(|tasks|, |Where(tasks, IsCompleted)|)
  }

  lemma {:induction false} OpenPlusDone(tasks: seq<Task>)
    ensures |Where(tasks, IsActive)| + |Where(tasks, IsCompleted)| == |tasks|
  {
    if tasks != [] {
      OpenPlusDone(tasks[1..]);
    }
  }

  /** What the page shows instead of an empty view. */
  datatype EmptyState = EmptyState(icon: string, message: string)

  /** The empty-state block: present exactly when the view is empty; it says
      "No completed tasks yet!" exactly under the "completed" filter and that
      the list is empty under every other filter. */
  function EmptyStateFor(filter: string, visible: seq<Task>): (r: Option<EmptyState>)
    ensures r.Some? <==> visible == []
    ensures r.Some? ==>
      (r.value.message == CompletedEmptyMessage <==> filter == CompletedFilter) &&
      (r.value.message == ListEmptyMessage <==> filter != CompletedFilter)
  {
    if |visible| != 0 then None
    else if filter == CompletedFilter then Some(EmptyState("check-circle", CompletedEmptyMessage))
    else Some(EmptyState("smile-beam", ListEmptyMessage))
  }
}

/** The page's state and its event handlers: the task list, the selected
    filter and the "tasks" slot of local storage, updated in place by
    addTask, toggleTask, deleteTask, editTask and the filter buttons, and
    read by renderTasks and updateStats. */
module Store {
  import opened Text
  import opened Filtering
  import opened Tasks

  class TaskStore {
    var tasks: seq<Task>
    var currentFilter: string
    /** The "tasks" slot of local storage, as the list it holds; `None` when
        nothing was ever stored. */
    var slot: Option<seq<Task>>

    /** Every change was written through: reloading the page gives back the
        list in memory. */
    ghost predicate Persisted()
      reads this
    {
      Hydrate(slot) == tasks
    }

    /** The page loads: the stored list, or an empty one; the filter is "all". */
    constructor (stored: Option<seq<Task>>)
      ensures tasks == Hydrate(stored) && currentFilter == AllFilter && slot == stored
      ensures Persisted()
    {
      tasks := Hydrate(stored);
      currentFilter := AllFilter;
      slot := stored;
    }

    /** saveTasks: the whole list overwrites the slot. */
    method Save()
      modifies this`slot
      ensures slot == Some(tasks)
      ensures Persisted()
    {
      slot := Some(tasks);
    }

    /** addTask with the input box's value, the clock's `id` and `timestamp`.
        Blank input is rejected (`accepted` is false) and nothing changes;
        otherwise the new task is appended and the list saved. */
    method Add(input: string, id: TaskId, timestamp: string) returns (accepted: bool)
      modifies this
      ensures accepted <==> !AllWhitespace(input)
      ensures tasks == Added(old(tasks), input, id, timestamp)
      ensures slot == if accepted then Some(tasks) else old(slot)
      ensures currentFilter == old(currentFilter)
      ensures old(Persisted()) ==> Persisted()
      ensures TextsValid(old(tasks)) ==> TextsValid(tasks)
      ensures UniqueIds(old(tasks)) && !HasId(old(tasks), id) ==> UniqueIds(tasks)
    {
      AddKeepsValid(tasks, input, id, timestamp);
      var text := Trim(input);
      if text == [] {
        return false;
      }
      tasks := tasks + [Task(id, text, false, timestamp)];
      Save();
      accepted := true;
    }

    /** toggleTask: flips every task with the id, saves, and reports whether
        the celebration runs, that is whether the list is now non-empty and
        entirely completed (whether or not the id was found). */
    method Toggle(id: TaskId) returns (celebrate: bool)
      modifies this
      ensures tasks == Toggled(old(tasks), id)
      ensures slot == Some(tasks) && currentFilter == old(currentFilter)
      ensures celebrate <==> tasks != [] && forall i :: 0 <= i < |tasks| ==> tasks[i].completed
      ensures TextsValid(old(tasks)) ==> TextsValid(tasks)
      ensures UniqueIds(old(tasks)) ==> UniqueIds(tasks)
    {
      ToggleKeepsValid(tasks, id);
      tasks := Toggled(tasks, id);
      Save();
      celebrate := Celebrates(tasks);
    }

    /** deleteTask: drops every task with the id and saves. */
    method Delete(id: TaskId)
      modifies this
      ensures tasks == Deleted(old(tasks), id)
      ensures slot == Some(tasks) && currentFilter == old(currentFilter)
      ensures TextsValid(old(tasks)) ==> TextsValid(tasks)
      ensures UniqueIds(old(tasks)) ==> UniqueIds(tasks)
    {
      DeleteKeepsValid(tasks, id);
      tasks := Deleted(tasks, id);
      Save();
    }

    /** editTask with the edit dialog's answer (`None` when cancelled): the
        first task with the id takes the trimmed answer as its text and the
        list is saved; an unknown id, a cancelled dialog or a blank answer
        change and save nothing. */
    method Edit(id: TaskId, answer: Option<string>)
      modifies this
      ensures tasks == Edited(old(tasks), id, answer)
      ensures slot == if HasId(old(tasks), id) && answer.Some? && !AllWhitespace(answer.value)
                      then Some(tasks) else old(slot)
      ensures currentFilter == old(currentFilter)
      ensures old(Persisted()) ==> Persisted()
      ensures TextsValid(old(tasks)) ==> TextsValid(tasks)
      ensures UniqueIds(old(tasks)) ==> UniqueIds(tasks)
    {
      EditKeepsCountsAndValid(tasks, id, answer);
      var found := FindIndex(tasks, id);
      if found.None? {
        return;
      }
      var k := found.value;
      if answer.Some? {
        var text := Trim(answer.value);
        if text != [] {
          tasks := tasks[k := tasks[k].(text := text)];
          Save();
        }
      }
    }

    /** A filter button: selects the filter; the list and the slot stay. */
    method SetFilter(filter: string)
      modifies this`currentFilter
      ensures currentFilter == filter
    {
      currentFilter := filter;
    }

    /** renderTasks: the tasks shown under the current filter, and the
        empty-state block when there are none. */
    method View() returns (visible: seq<Task>, empty: Option<EmptyState>)
      ensures visible == Project(tasks, currentFilter)
      ensures empty == EmptyStateFor(currentFilter, visible)
    {
      visible := tasks;
      if currentFilter == ActiveFilter {
        visible := Where(tasks, IsActive);
      } else if currentFilter == CompletedFilter {
        visible := Where(tasks, IsCompleted);
      }
      empty := EmptyStateFor(currentFilter, visible);
    }

    /** updateStats: both counters over the whole list, whatever the filter. */
    method Stats() returns (total: nat, completed: nat)
      ensures total == |tasks| && completed <= total
      ensures completed == |Project(tasks, CompletedFilter)|
      ensures total - completed == |Project(tasks, ActiveFilter)|
    {
      var counters := StatsOf(tasks);
      total, completed := counters.total, counters.completed;
    }
  }

  /** A session on a fresh page: add "Buy milk" (one task, none completed),
      then complete it: the list is all done, so the celebration runs. */
  method WalkthroughFirstTask(milk: TaskId, t1: string) {
    var text := "Buy milk";
    var buyMilk := Task(milk, text, false, t1);
    assert IsTrimmed(text) && !AllWhitespace(text) by {
      assert !IsWhitespace(text[0]) && !IsWhitespace(text[|text| - 1]);
    }
    TrimKeepsTrimmed(text);
    var store := new TaskStore(None);
    var ok := store.Add(text, milk, t1);
    assert ok && store.tasks == [buyMilk];
    var total, completed := store.Stats();
    assert total == 1 && completed == 0 by { assert Where([buyMilk], IsCompleted) == []; }

    var party := store.Toggle(milk);
    assert store.tasks == [buyMilk.(completed := true)] && party;
    assert store.slot == Some(store.tasks);
  }

  /** The page reloaded after "Walk dog" was added as well: the counters,
      the "completed" view, and that view once the completed task is
      deleted, which shows the "completed" empty state. */
  method WalkthroughSecondTask(milk: TaskId, dog: TaskId, t1: string, t2: string)
    requires milk != dog
  {
    var milkDone, walkDog := Task(milk, "Buy milk", true, t1), Task(dog, "Walk dog", false, t2);
    assert Where([milkDone, walkDog], IsCompleted) == [milkDone] by {
      assert [milkDone, walkDog] == [milkDone] + [walkDog];
      WhereAppend([milkDone], [walkDog], IsCompleted);
      assert Where([walkDog], IsCompleted) == [];
    }
    assert Deleted([milkDone, walkDog], milk) == [walkDog] by {
      DeleteOne([milkDone, walkDog], 0);
    }

    var store := new TaskStore(Some([milkDone, walkDog]));
    var total, completed := store.Stats();
    assert total == 2 && completed == 1;

    store.SetFilter(CompletedFilter);
    var visible, empty := store.View();
    assert visible == [milkDone] && empty == None;

    store.Delete(milk);
    assert store.tasks == [walkDog];
    visible, empty := store.View();
    assert visible == [] && empty == Some(EmptyState("check-circle", CompletedEmptyMessage));
  }
}

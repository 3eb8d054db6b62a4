/** The page-level state of the to-do list (`tasks`, `currentFilter`,
    `taskIdCounter`) and the handlers that change it, with rendering, animation
    and event wiring stripped away. Persistence to local storage is kept as two
    ghost fields: the list last written (`saved`) and the number of writes. */
module TaskStore {
  import opened JsString
  import opened Tasks

  class TodoList {
    var tasks: seq<Task>
    var currentFilter: string
    var taskIdCounter: int
    /** What `saveTasks` last wrote to local storage. */
    ghost var saved: seq<Task>
    /** How many times `saveTasks` has run. */
    ghost var writes: nat

    /** Storage mirrors the list, ids are unique, and the counter is above every
        id in the list, so the next task it numbers gets a fresh id. */
    ghost predicate Valid()
      reads this
    {
      saved == tasks && UniqueIds(tasks) && IdsBelow(tasks, taskIdCounter)
    }

    /** `getFilteredTasks`: the list as the current filter shows it, in list
        order, and the whole list under the 'all' filter. */
    function View(): (v: seq<Task>)
      reads this
      ensures SubsequenceOf(v, tasks)
      ensures currentFilter == AllFilter ==> v == tasks
    {
      FilteredView(tasks, currentFilter)
    }

    /** Page load: the list parsed from local storage (empty when there is
        none) and the counter seeded from the clock, which must exceed every
        stored id. */
    constructor (stored: seq<Task>, now: int)
      requires UniqueIds(stored) && IdsBelow(stored, now)
      ensures Valid()
      ensures tasks == stored && currentFilter == AllFilter && taskIdCounter == now
      ensures writes == 0
    {
      tasks := stored;
      currentFilter := AllFilter;
      taskIdCounter := now;
      saved := stored;
      writes := 0;
    }

    /** `saveTasks`: write the whole list to storage. */
    ghost method SaveTasks()
      modifies this`saved, this`writes
      ensures saved == tasks && writes == old(writes) + 1
    {
      saved := tasks;
      writes := writes + 1;
    }

    /** `addTask`: a blank input changes nothing; otherwise a task with the
        trimmed text, not completed, numbered by the counter, goes in front of
        the list, the counter moves on and the list is saved. */
    method AddTask(value: string, createdAt: string) returns (added: bool)
      requires Valid()
      modifies this
      ensures Valid()
      ensures added <==> Trim(value) != []
      ensures if added then
                tasks == [Task(old(taskIdCounter), Trim(value), false, createdAt)] + old(tasks) &&
                taskIdCounter == old(taskIdCounter) + 1 && writes == old(writes) + 1
              else
                tasks == old(tasks) && taskIdCounter == old(taskIdCounter) && writes == old(writes)
      ensures currentFilter == old(currentFilter)
    {
      var text := Trim(value);
      added := text != [];
      if added {
        var task := Task(taskIdCounter, text, false, createdAt);
        PrependKeepsIds(tasks, task);
        taskIdCounter := taskIdCounter + 1;
        tasks := [task] + tasks;
        SaveTasks();
      }
    }

    /** `deleteTask`: drop the task with that id (the animation that delays it
        is left out) and save. */
    method DeleteTask(id: int)
      requires Valid()
      modifies this
      ensures Valid()
      ensures tasks == Without(old(tasks), id)
      ensures writes == old(writes) + 1
      ensures currentFilter == old(currentFilter) && taskIdCounter == old(taskIdCounter)
    {
      WithoutIsSubsequence(tasks, id);
      SubsequenceKeepsIds(Without(tasks, id), tasks, taskIdCounter);
      tasks := Without(tasks, id);
      SaveTasks();
    }

    /** `toggleTask`: an unknown id returns at once without saving; otherwise
        the task's `completed` flips and the list is saved. */
    method ToggleTask(id: int)
      requires Valid()
      modifies this
      ensures Valid()
      ensures tasks == Toggled(old(tasks), id)
      ensures writes == old(writes) + (if FindIndex(old(tasks), id).Some? then 1 else 0)
      ensures currentFilter == old(currentFilter) && taskIdCounter == old(taskIdCounter)
    {
      var found := FindIndex(tasks, id);
      if found.None? {
        return;
      }
      var i := found.value;
      tasks := tasks[i := tasks[i].(completed := !tasks[i].completed)];
      SameIdsKeepIds(tasks, old(tasks), taskIdCounter);
      SaveTasks();
    }

    /** `saveEdit` inside `editTask`: the trimmed input replaces the text only
        when it is non-empty and different, and only then is the list saved. */
    method SaveEdit(id: int, value: string)
      requires Valid()
      modifies this
      ensures Valid()
      ensures tasks == Edited(old(tasks), id, value)
      ensures forall k :: 0 <= k < |tasks| && tasks[k].text != old(tasks)[k].text ==>
                |tasks[k].text| <= |value|
      ensures writes == old(writes) + (if tasks != old(tasks) then 1 else 0)
      ensures currentFilter == old(currentFilter) && taskIdCounter == old(taskIdCounter)
    {
      var found := FindIndex(tasks, id);
      if found.None? {
        return;
      }
      var i := found.value;
      var newText := Trim(value);
      if newText != [] && newText != tasks[i].text {
        tasks := tasks[i := tasks[i].(text := newText)];
        assert tasks[i].text != old(tasks)[i].text;
        SameIdsKeepIds(tasks, old(tasks), taskIdCounter);
        SaveTasks();
      }
    }

    /** `setFilter`: only the filter changes. */
    method SetFilter(filter: string)
      requires Valid()
      modifies this`currentFilter
      ensures Valid()
      ensures currentFilter == filter
      ensures View() == FilteredView(tasks, filter)
    {
      currentFilter := filter;
    }

    /** `completeAllTasks`: nothing active means nothing happens and nothing is
        saved; otherwise every task is marked completed, one by one, and the
        list is saved. */
    method CompleteAllTasks()
      requires Valid()
      modifies this
      ensures Valid()
      ensures tasks == AllCompleted(old(tasks))
      ensures writes == old(writes) + (if WithStatus(old(tasks), false) == [] then 0 else 1)
      ensures currentFilter == old(currentFilter) && taskIdCounter == old(taskIdCounter)
    {
      if WithStatus(tasks, false) == [] {
        AllCompletedWhenNoneActive(tasks);
        return;
      }
      var i := 0;
      while i < |tasks|
        invariant 0 <= i <= |tasks| == |old(tasks)|
        invariant forall k :: 0 <= k < i ==> tasks[k] == old(tasks)[k].(completed := true)
        invariant forall k :: i <= k < |tasks| ==> tasks[k] == old(tasks)[k]
        invariant currentFilter == old(currentFilter) && taskIdCounter == old(taskIdCounter)
        invariant saved == old(saved) && writes == old(writes)
      {
        tasks := tasks[i := tasks[i].(completed := true)];
        i := i + 1;
      }
      assert tasks == AllCompleted(old(tasks));
      SameIdsKeepIds(tasks, old(tasks), taskIdCounter);
      SaveTasks();
    }

    /** `clearCompletedTasks`: nothing completed means nothing happens and
        nothing is saved; otherwise only the active tasks remain (the animation
        that delays it is left out) and the list is saved. */
    method ClearCompletedTasks()
      requires Valid()
      modifies this
      ensures Valid()
      ensures tasks == WithStatus(old(tasks), false)
      ensures writes == old(writes) + (if WithStatus(old(tasks), true) == [] then 0 else 1)
      ensures currentFilter == old(currentFilter) && taskIdCounter == old(taskIdCounter)
    {
      if WithStatus(tasks, true) == [] {
        ClearWhenNoneCompleted(tasks);
        return;
      }
      WithStatusIsSubsequence(tasks, false);
      SubsequenceKeepsIds(WithStatus(tasks, false), tasks, taskIdCounter);
      tasks := WithStatus(tasks, false);
      SaveTasks();
    }
  }

  /** Adding a task to an empty list and then toggling it: one task,
      completed, progress 100%, two writes to storage. */
  method AddThenComplete(value: string, now: int, createdAt: string)
    requires !Blank(value)
  {
    var store := new TodoList([], now);
    var added := store.AddTask(value, createdAt);
    assert added && store.tasks == [Task(now, Trim(value), false, createdAt)];
    assert StatsOf(store.tasks) == Stats(1, 0, 1);
    store.ToggleTask(now);
    assert store.tasks == [Task(now, Trim(value), true, createdAt)];
    assert StatsOf(store.tasks) == Stats(1, 1, 0);
    assert Progress(store.tasks) == 100;
    assert store.writes == 2;
  }
}

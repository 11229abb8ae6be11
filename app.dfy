/** The two components of the to-do page as state machines: App owns the
    task list, the new-task input line, the loading flag and the storage
    slot; TaskItem owns one row's edit mode and edit draft. Each event
    handler is one atomic transition. A handler that calls setTasks also
    runs the persist effect, which React fires after that change, before
    any further event. */
module TodoApp {
  import opened Text
  import opened Tasks
  import opened Storage

  class App {
    var tasks: seq<Task>
    /** The text of the new-task input line. */
    var inputValue: string
    var isLoading: bool
    /** The browser's storage slot under the key "todo_tasks". */
    var slot: Option<Raw>

    /** The load gate's guarantee: once loading is over, the slot holds
        the serialisation of the current list. */
    ghost predicate Valid()
      reads this
    {
      !isLoading ==> slot == Some(Stringify(tasks))
    }

    /** Once loading is over, a reload would give back exactly the list
        on screen. */
    lemma ReloadRestores()
      requires Valid() && !isLoading
      ensures LoadedTasks(slot) == tasks
    {
      LoadAfterSave(tasks);
    }

    /** The first render: an empty list, an empty input, loading not yet
        done, and whatever an earlier session left in the slot. */
    constructor (saved: Option<Raw>)
      ensures Valid()
      ensures tasks == [] && inputValue == "" && isLoading && slot == saved
    {
      tasks, inputValue, isLoading, slot := [], "", true, saved;
    }

    /** The "Всего" counter: zero exactly when the list is empty, which
        is when the counters are hidden. */
    function TotalTasks(): (n: nat)
      reads this
      ensures n == 0 <==> |tasks| == 0
    {
      |tasks|
    }

    /** The "Выполнено" counter: the completed tasks, never more than the
        total. */
    function CompletedTasks(): (n: nat)
      reads this
      ensures n <= TotalTasks()
    {
      |Completed(tasks)|
    }

    /** The persist effect: writes the serialised list to the slot, but
        only once loading is over; while loading it leaves the slot as
        it was. */
    method Persist()
      modifies this`slot
      ensures Valid()
      ensures slot == if isLoading then old(slot) else Some(Stringify(tasks))
    {
      if !isLoading {
        slot := Some(Stringify(tasks));
      }
    }

    /** The mount effect: sets the list to what the slot yields, then
        clears the loading flag; the persist effect then writes that list
        back. A slot that held a saved array is therefore left exactly as
        it was, and anything else in it is replaced by an empty list. */
    method Load()
      modifies this
      ensures Valid()
      ensures tasks == LoadedTasks(old(slot)) && !isLoading && inputValue == old(inputValue)
      ensures HoldsArray(old(slot)) ==> slot == old(slot)
      ensures !HoldsArray(old(slot)) ==> tasks == [] && slot == Some(Stringify([]))
    {
      tasks := LoadedTasks(slot);
      isLoading := false;
      Persist();
    }

    /** Typing in the new-task input line. */
    method InputChange(value: string)
      modifies this`inputValue
      ensures inputValue == value
    {
      inputValue := value;
    }

    /** addTask: a blank input changes nothing; otherwise one open task
        with the trimmed input and the id `now` is appended, the input
        line is cleared and the list is persisted. */
    method AddTask(now: int)
      requires Valid()
      modifies this
      ensures Valid() && isLoading == old(isLoading)
      ensures Trim(old(inputValue)) == [] ==>
        tasks == old(tasks) && inputValue == old(inputValue) && slot == old(slot)
      ensures Trim(old(inputValue)) != [] ==>
        && tasks == old(tasks) + [Task(now, Trim(old(inputValue)), false)]
        && inputValue == ""
        && slot == (if isLoading then old(slot) else Some(Stringify(tasks)))
        && TotalTasks() == old(TotalTasks()) + 1
        && CompletedTasks() == old(CompletedTasks())
      ensures AllCommitted(old(tasks)) ==> AllCommitted(tasks)
      ensures UniqueIds(old(tasks)) && Absent(old(tasks), now) ==> UniqueIds(tasks)
    {
      var text := Trim(inputValue);
      if text != [] {
        var task := Task(now, text, false);
        CompletedAppend(tasks, task);
        if AllCommitted(tasks) { AppendCommitted(tasks, task); }
        if UniqueIds(tasks) && Absent(tasks, now) { AppendUnique(tasks, task); }
        tasks := tasks + [task];
        inputValue := "";
        Persist();
      }
    }

    /** handleKeyPress: Enter in the input line adds a task; any other
        key changes nothing. */
    method KeyPress(isEnter: bool, now: int)
      requires Valid()
      modifies this
      ensures Valid() && isLoading == old(isLoading)
      ensures (!isEnter || Trim(old(inputValue)) == []) ==>
        tasks == old(tasks) && inputValue == old(inputValue) && slot == old(slot)
      ensures (isEnter && Trim(old(inputValue)) != []) ==>
        && tasks == old(tasks) + [Task(now, Trim(old(inputValue)), false)]
        && inputValue == ""
        && slot == (if isLoading then old(slot) else Some(Stringify(tasks)))
    {
      if isEnter {
        AddTask(now);
      }
    }

    /** toggleTask: flips the flag of the task(s) with `id` and persists.
        The total never changes. */
    method ToggleTask(id: int)
      requires Valid()
      modifies this
      ensures Valid() && isLoading == old(isLoading) && inputValue == old(inputValue)
      ensures tasks == Toggle(old(tasks), id)
      ensures slot == if isLoading then old(slot) else Some(Stringify(tasks))
      ensures TotalTasks() == old(TotalTasks())
      ensures AllCommitted(old(tasks)) ==> AllCommitted(tasks)
      ensures UniqueIds(old(tasks)) ==> UniqueIds(tasks)
    {
      tasks := Toggle(tasks, id);
      Persist();
    }

    /** deleteTask: removes the task(s) with `id` and persists. */
    method DeleteTask(id: int)
      requires Valid()
      modifies this
      ensures Valid() && isLoading == old(isLoading) && inputValue == old(inputValue)
      ensures tasks == Delete(old(tasks), id)
      ensures slot == if isLoading then old(slot) else Some(Stringify(tasks))
      ensures CompletedTasks() <= old(CompletedTasks())
      ensures AllCommitted(old(tasks)) ==> AllCommitted(tasks)
      ensures UniqueIds(old(tasks)) ==> UniqueIds(tasks)
    {
      ghost var before := tasks;
      tasks := Delete(tasks, id);
      assert |Completed(tasks)| <= |Completed(before)| by {
        DeleteCompleted(before, id);
      }
      assert AllCommitted(before) ==> AllCommitted(tasks) by {
        if AllCommitted(before) { DeleteCommitted(before, id); }
      }
      assert UniqueIds(before) ==> UniqueIds(tasks) by {
        if UniqueIds(before) { DeleteUnique(before, id); }
      }
      Persist();
    }

    /** editTask: gives the task(s) with `id` the text `newText` as it is
        passed (the row editor trims it and refuses blank text) and
        persists. The counters never change. */
    method EditTask(id: int, newText: string)
      requires Valid()
      modifies this
      ensures Valid() && isLoading == old(isLoading) && inputValue == old(inputValue)
      ensures tasks == Edit(old(tasks), id, newText)
      ensures slot == if isLoading then old(slot) else Some(Stringify(tasks))
      ensures TotalTasks() == old(TotalTasks()) && CompletedTasks() == old(CompletedTasks())
      ensures AllCommitted(old(tasks)) && IsCommittedText(newText) ==> AllCommitted(tasks)
    {
      EditCompleted(tasks, id, newText);
      if AllCommitted(tasks) && IsCommittedText(newText) {
        EditCommitted(tasks, id, newText);
      }
      tasks := Edit(tasks, id, newText);
      Persist();
    }

    /** clearAllTasks: refused, nothing changes. Confirmed, the list is
        emptied and the key removed; the persist effect that the new
        empty list triggers then writes "[]" under the key again (unless
        loading is still going on). Either way a later load gives the
        empty list. */
    method ClearAllTasks(confirmed: bool)
      requires Valid()
      modifies this
      ensures Valid() && isLoading == old(isLoading) && inputValue == old(inputValue)
      ensures !confirmed ==> tasks == old(tasks) && slot == old(slot)
      ensures confirmed ==> tasks == [] && slot == (if isLoading then None else Some(Stringify([])))
      ensures confirmed ==> LoadedTasks(slot) == []
    {
      if confirmed {
        tasks := [];
        slot := None;
        Persist();
      }
    }
  }

  /** One row of the list. `task` in each handler is the row's current
      task, as App passes it down. */
  class TaskItem {
    var isEditing: bool
    /** The edit draft; it starts as the task's text when the row is
        first rendered. */
    var editValue: string

    constructor (task: Task)
      ensures !isEditing && editValue == task.text
    {
      isEditing, editValue := false, task.text;
    }

    /** A double click on the text enters edit mode. */
    method DoubleClick()
      modifies this`isEditing
      ensures isEditing
    {
      isEditing := true;
    }

    /** Typing in the edit field. */
    method EditChange(value: string)
      modifies this`editValue
      ensures editValue == value
    {
      editValue := value;
    }

    /** handleEditKeyPress: Enter with a draft that is not blank commits
        the trimmed draft and leaves edit mode; any other key, and Enter
        on a blank draft, change nothing. The draft itself is kept as
        typed. */
    method EditKeyPress(app: App, task: Task, isEnter: bool)
      requires app.Valid()
      modifies this`isEditing, app
      ensures app.Valid() && app.isLoading == old(app.isLoading)
      ensures app.inputValue == old(app.inputValue)
      ensures isEnter && Trim(editValue) != [] ==>
        && app.tasks == Edit(old(app.tasks), task.id, Trim(editValue))
        && app.slot == (if app.isLoading then old(app.slot) else Some(Stringify(app.tasks)))
        && !isEditing
      ensures !(isEnter && Trim(editValue) != []) ==>
        app.tasks == old(app.tasks) && app.slot == old(app.slot) && isEditing == old(isEditing)
      ensures AllCommitted(old(app.tasks)) ==> AllCommitted(app.tasks)
    {
      var draft := Trim(editValue);
      if isEnter && draft != [] {
        app.EditTask(task.id, draft);
        isEditing := false;
      }
    }

    /** handleEditBlur: leaving the edit field commits the trimmed draft
        if it is not blank, and otherwise resets the draft to the task's
        current text; edit mode ends in both cases. */
    method EditBlur(app: App, task: Task)
      requires app.Valid()
      modifies this, app
      ensures app.Valid() && app.isLoading == old(app.isLoading)
      ensures app.inputValue == old(app.inputValue)
      ensures !isEditing
      ensures Trim(old(editValue)) != [] ==>
        && app.tasks == Edit(old(app.tasks), task.id, Trim(old(editValue)))
        && app.slot == (if app.isLoading then old(app.slot) else Some(Stringify(app.tasks)))
        && editValue == old(editValue)
      ensures Trim(old(editValue)) == [] ==>
        app.tasks == old(app.tasks) && app.slot == old(app.slot) && editValue == task.text
      ensures AllCommitted(old(app.tasks)) ==> AllCommitted(app.tasks)
    {
      var draft := Trim(editValue);
      if draft != [] {
        app.EditTask(task.id, draft);
      } else {
        editValue := task.text;
      }
      isEditing := false;
    }
  }

  /** A session on an empty slot: add "A" and "B", toggle "A". The
      counters read two and one, and the slot holds the list. */
  method AddAddToggle() returns (total: nat, completed: nat)
    ensures total == 2 && completed == 1
  {
    var app := new App(None);
    app.Load();
    app.InputChange("A");
    TrimOfTrimmed("A");
    app.AddTask(1);
    assert app.tasks == [Task(1, "A", false)];
    app.InputChange("B");
    TrimOfTrimmed("B");
    app.AddTask(2);
    assert app.tasks == [Task(1, "A", false), Task(2, "B", false)];
    app.ToggleTask(1);
    assert app.tasks == [Task(1, "A", true), Task(2, "B", false)];
    assert Completed(app.tasks) == [Task(1, "A", true)] by {
      assert app.tasks[1..] == [Task(2, "B", false)];
    }
    assert app.slot == Some(Stringify(app.tasks));
    total, completed := app.TotalTasks(), app.CompletedTasks();
  }
}

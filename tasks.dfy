/** The task list and the pure list operations App's handlers hand to
    setTasks: append, toggle (a map), delete (a filter), edit (a map),
    and the completed-task filter behind the counters. */
module Tasks {
  import opened Text

  /** One to-do entry, the record `{id, text, completed}`. The id is the
      millisecond timestamp taken when the task was added. */
  datatype Task = Task(id: int, text: string, completed: bool)

  /** No two tasks share an id. The source does not guarantee this (two
      additions in the same millisecond collide); the lemmas below show
      which operations keep it. */
  ghost predicate UniqueIds(tasks: seq<Task>) {
    forall i, j :: 0 <= i < j < |tasks| ==> tasks[i].id != tasks[j].id
  }

  /** No task in the list carries `id`. */
  ghost predicate Absent(tasks: seq<Task>, id: int) {
    forall t :: t in tasks ==> t.id != id
  }

  /** A text as committed by add and by the item editor: non-empty and
      without whitespace at either end. */
  predicate IsCommittedText(s: string) {
    s != [] && IsTrimmed(s)
  }

  ghost predicate AllCommitted(tasks: seq<Task>) {
    forall t :: t in tasks ==> IsCommittedText(t.text)
  }

  /** The number of tasks whose id is `id`. */
  function CountId(tasks: seq<Task>, id: int): (n: nat)
    ensures n <= |tasks|
    ensures n == 0 <==> Absent(tasks, id)
  {
    if tasks == [] then 0
    else (if tasks[0].id == id then 1 else 0) + CountId(tasks[1..], id)
  }

  /** The number of tasks whose id is `id` and whose flag is `done`. */
  function CountIdWith(tasks: seq<Task>, id: int, done: bool): (n: nat)
    ensures n <= CountId(tasks, id)
  {
    if tasks == [] then 0
    else (if tasks[0].id == id && tasks[0].completed == done then 1 else 0)
         + CountIdWith(tasks[1..], id, done)
  }

  /** toggleTask's map: the task(s) with `id` have their flag flipped;
      every id and text, and every other task, stay as they were, in
      the same order. */
  function Toggle(tasks: seq<Task>, id: int): (r: seq<Task>)
    ensures |r| == |tasks|
    ensures forall i :: 0 <= i < |r| ==>
      r[i].id == tasks[i].id && r[i].text == tasks[i].text
      && (r[i].completed <==> (tasks[i].completed != (tasks[i].id == id)))
  {
    if tasks == [] then []
    else
      var t := tasks[0];
      [if t.id == id then t.(completed := !t.completed) else t] + Toggle(tasks[1..], id)
  }

  /** deleteTask's filter: no task with `id` remains, and the list
      shrinks by the number of tasks that carried it. That exactly the
      other tasks remain is DeleteMembers; that they keep their order is
      DeleteConcat. */
  function Delete(tasks: seq<Task>, id: int): (r: seq<Task>)
    ensures forall i :: 0 <= i < |r| ==> r[i].id != id
    ensures |r| == |tasks| - CountId(tasks, id)
  {
    if tasks == [] then []
    else if tasks[0].id == id then Delete(tasks[1..], id)
    else [tasks[0]] + Delete(tasks[1..], id)
  }

  /** editTask's map: the task(s) with `id` get `text`; every id and
      flag, and every other task, stay as they were, in the same order. */
  function Edit(tasks: seq<Task>, id: int, text: string): (r: seq<Task>)
    ensures |r| == |tasks|
    ensures forall i :: 0 <= i < |r| ==>
      r[i].id == tasks[i].id && r[i].completed == tasks[i].completed
      && r[i].text == (if tasks[i].id == id then text else tasks[i].text)
  {
    if tasks == [] then []
    else
      var t := tasks[0];
      [if t.id == id then t.(text := text) else t] + Edit(tasks[1..], id, text)
  }

  /** The filter behind the completed counter: the completed tasks, no
      more of them than there are tasks. */
  function Completed(tasks: seq<Task>): (r: seq<Task>)
    ensures |r| <= |tasks|
    ensures forall t :: t in r <==> t in tasks && t.completed
  {
    if tasks == [] then []
    else if tasks[0].completed then [tasks[0]] + Completed(tasks[1..])
    else Completed(tasks[1..])
  }

  // ---------------------------------------------------------------
  // Toggle

  /** Toggling the same id twice restores the list. */
  lemma ToggleTwice(tasks: seq<Task>, id: int)
    ensures Toggle(Toggle(tasks, id), id) == tasks
  {
    var r := Toggle(Toggle(tasks, id), id);
    assert forall i :: 0 <= i < |r| ==> r[i] == tasks[i];
  }

  /** Toggling an id no task carries changes nothing. */
  lemma ToggleAbsent(tasks: seq<Task>, id: int)
    requires Absent(tasks, id)
    ensures Toggle(tasks, id) == tasks
  {
    var r := Toggle(tasks, id);
    assert forall i :: 0 <= i < |r| ==> tasks[i] in tasks && r[i] == tasks[i];
  }

  /** Toggling moves each matching task between the completed and the
      open ones: the completed count loses the matching completed tasks
      and gains the matching open ones. */
  lemma {:induction false} ToggleCompleted(tasks: seq<Task>, id: int)
    ensures |Completed(Toggle(tasks, id))|
         == |Completed(tasks)| - CountIdWith(tasks, id, true) + CountIdWith(tasks, id, false)
  {
    if tasks != [] {
      ToggleCompleted(tasks[1..], id);
      assert Toggle(tasks, id)[1..] == Toggle(tasks[1..], id);
    }
  }

  /** With unique ids, toggling the task at position k changes the
      completed count by exactly one, up if it was open and down if it
      was done. */
  lemma ToggleOneCompleted(tasks: seq<Task>, k: nat)
    requires UniqueIds(tasks) && k < |tasks|
    ensures |Completed(Toggle(tasks, tasks[k].id))|
         == |Completed(tasks)| + (if tasks[k].completed then -1 else 1)
  {
    ToggleCompleted(tasks, tasks[k].id);
    CountIdWithUnique(tasks, k, true);
    CountIdWithUnique(tasks, k, false);
  }

  /** With unique ids, the task at position k is the only one with its
      id, so it is counted once for its own flag and never for the other. */
  lemma {:induction false} CountIdWithUnique(tasks: seq<Task>, k: nat, done: bool)
    requires UniqueIds(tasks) && k < |tasks|
    ensures CountIdWith(tasks, tasks[k].id, done) == (if tasks[k].completed == done then 1 else 0)
  {
    var id := tasks[k].id;
    if k == 0 {
      assert Absent(tasks[1..], id) by {
        forall t | t in tasks[1..] ensures t.id != id {
          var j :| 0 <= j < |tasks[1..]| && tasks[1..][j] == t;
          assert tasks[j + 1] == t;
        }
      }
      assert CountId(tasks[1..], id) == 0;
    } else {
      assert tasks[1..][k - 1] == tasks[k];
      CountIdWithUnique(tasks[1..], k - 1, done);
    }
  }

  // ---------------------------------------------------------------
  // Delete

  /** Delete distributes over concatenation: the survivors of a list
      keep the order they had in it. */
  lemma {:induction false} DeleteConcat(a: seq<Task>, b: seq<Task>, id: int)
    ensures Delete(a + b, id) == Delete(a, id) + Delete(b, id)
  {
    if a == [] {
      assert a + b == b;
    } else {
      var ab := a + b;
      assert ab[0] == a[0] && ab[1..] == a[1..] + b;
      DeleteConcat(a[1..], b, id);
      var rest := Delete(a[1..], id) + Delete(b, id);
      if a[0].id == id {
        assert Delete(ab, id) == rest;
      } else {
        assert Delete(ab, id) == [a[0]] + rest;
        assert [a[0]] + rest == ([a[0]] + Delete(a[1..], id)) + Delete(b, id);
      }
    }
  }

  /** A task survives a delete exactly when it was in the list under
      another id. */
  lemma {:induction false} DeleteMembers(tasks: seq<Task>, id: int)
    ensures forall t :: t in Delete(tasks, id) <==> t in tasks && t.id != id
  {
    if tasks != [] {
      DeleteMembers(tasks[1..], id);
      assert tasks == [tasks[0]] + tasks[1..];
    }
  }

  /** Deleting an id no task carries changes nothing. */
  lemma {:induction false} DeleteAbsent(tasks: seq<Task>, id: int)
    requires Absent(tasks, id)
    ensures Delete(tasks, id) == tasks
  {
    if tasks != [] {
      assert tasks[0] in tasks;
      assert forall t :: t in tasks[1..] ==> t in tasks;
      DeleteAbsent(tasks[1..], id);
    }
  }

  /** Deleting the same id twice is deleting it once. */
  lemma DeleteIdempotent(tasks: seq<Task>, id: int)
    ensures Delete(Delete(tasks, id), id) == Delete(tasks, id)
  {
    DeleteAbsent(Delete(tasks, id), id);
  }

  /** Deleting removes the matching completed tasks from the completed
      count and no others. */
  lemma {:induction false} DeleteCompleted(tasks: seq<Task>, id: int)
    ensures |Completed(Delete(tasks, id))| == |Completed(tasks)| - CountIdWith(tasks, id, true)
  {
    if tasks != [] {
      DeleteCompleted(tasks[1..], id);
    }
  }

  /** Deleting keeps ids unique. */
  lemma {:induction false} DeleteUnique(tasks: seq<Task>, id: int)
    requires UniqueIds(tasks)
    ensures UniqueIds(Delete(tasks, id))
  {
    if tasks != [] {
      UniqueTail(tasks);
      DeleteUnique(tasks[1..], id);
      if tasks[0].id != id {
        DeleteMembers(tasks[1..], id);
        UniqueCons(tasks[0], Delete(tasks[1..], id));
      }
    }
  }

  /** The tail of a list with unique ids has unique ids, none of them
      the head's. */
  lemma UniqueTail(tasks: seq<Task>)
    requires UniqueIds(tasks) && tasks != []
    ensures UniqueIds(tasks[1..]) && Absent(tasks[1..], tasks[0].id)
  {
    var rest := tasks[1..];
    forall i, j | 0 <= i < j < |rest| ensures rest[i].id != rest[j].id {
      assert rest[i] == tasks[i + 1] && rest[j] == tasks[j + 1];
    }
    forall t | t in rest ensures t.id != tasks[0].id {
      var j :| 0 <= j < |rest| && rest[j] == t;
      assert tasks[j + 1] == t;
    }
  }

  /** Putting a task in front of a list with unique ids, none of them
      its own, gives a list with unique ids. */
  lemma UniqueCons(t: Task, tasks: seq<Task>)
    requires UniqueIds(tasks) && Absent(tasks, t.id)
    ensures UniqueIds([t] + tasks)
  {
    var r := [t] + tasks;
    forall i, j | 0 <= i < j < |r| ensures r[i].id != r[j].id {
      assert r[j] == tasks[j - 1] && r[j] in tasks;
      if i > 0 { assert r[i] == tasks[i - 1]; }
    }
  }

  /** Deleting keeps every text committed. */
  lemma DeleteCommitted(tasks: seq<Task>, id: int)
    requires AllCommitted(tasks)
    ensures AllCommitted(Delete(tasks, id))
  {
    DeleteMembers(tasks, id);
  }

  // ---------------------------------------------------------------
  // Edit

  /** Editing an id no task carries changes nothing. */
  lemma EditAbsent(tasks: seq<Task>, id: int, text: string)
    requires Absent(tasks, id)
    ensures Edit(tasks, id, text) == tasks
  {
    var r := Edit(tasks, id, text);
    assert forall i :: 0 <= i < |r| ==> tasks[i] in tasks && r[i] == tasks[i];
  }

  /** A later edit of the same id overrides an earlier one; in
      particular editing twice with the same text is editing once. */
  lemma EditLastWins(tasks: seq<Task>, id: int, first: string, second: string)
    ensures Edit(Edit(tasks, id, first), id, second) == Edit(tasks, id, second)
  {
    var r, s := Edit(Edit(tasks, id, first), id, second), Edit(tasks, id, second);
    assert forall i :: 0 <= i < |r| ==> r[i] == s[i];
  }

  /** Editing never changes the completed count. */
  lemma {:induction false} EditCompleted(tasks: seq<Task>, id: int, text: string)
    ensures |Completed(Edit(tasks, id, text))| == |Completed(tasks)|
  {
    if tasks != [] {
      EditCompleted(tasks[1..], id, text);
      assert Edit(tasks, id, text)[1..] == Edit(tasks[1..], id, text);
    }
  }

  /** Committing a committed text keeps every text committed. */
  lemma EditCommitted(tasks: seq<Task>, id: int, text: string)
    requires AllCommitted(tasks) && IsCommittedText(text)
    ensures AllCommitted(Edit(tasks, id, text))
  {
    var r := Edit(tasks, id, text);
    forall t | t in r ensures IsCommittedText(t.text) {
      var i :| 0 <= i < |r| && r[i] == t;
      assert tasks[i] in tasks;
    }
  }

  // ---------------------------------------------------------------
  // Append and the completed filter

  /** Appending a task extends the completed tasks by that task exactly
      when it is completed. */
  lemma {:induction false} CompletedAppend(tasks: seq<Task>, t: Task)
    ensures Completed(tasks + [t]) == Completed(tasks) + (if t.completed then [t] else [])
  {
    if tasks == [] {
      assert tasks + [t] == [t];
    } else {
      assert (tasks + [t])[1..] == tasks[1..] + [t];
      CompletedAppend(tasks[1..], t);
    }
  }

  /** Appending a task with a committed text keeps every text committed. */
  lemma AppendCommitted(tasks: seq<Task>, t: Task)
    requires AllCommitted(tasks) && IsCommittedText(t.text)
    ensures AllCommitted(tasks + [t])
  {
    assert forall u :: u in tasks + [t] ==> u in tasks || u == t;
  }

  /** Appending a task under a fresh id keeps ids unique. */
  lemma AppendUnique(tasks: seq<Task>, t: Task)
    requires UniqueIds(tasks) && Absent(tasks, t.id)
    ensures UniqueIds(tasks + [t])
  {
    var r := tasks + [t];
    forall i, j | 0 <= i < j < |r| ensures r[i].id != r[j].id {
      assert r[i] == tasks[i] && tasks[i] in tasks;
    }
  }
}

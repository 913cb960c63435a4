/** The class-based front end's `TaskList` (classApproach.js): the commands
    the row handlers send to the task backend, stated on the backend's task
    collection. The backend is the same abstract list as the local store: a
    DELETE of an id removes the tasks with that id, a PUT of an id spreads the
    request body over them, a GET of an id finds the first of them. */
module TaskList {
  import opened Seqs
  import opened Tasks
  import opened TaskStore

  predicate IsCompleted(t: Task) {
    t.completed
  }

  predicate IsActive(t: Task) {
    !t.completed
  }

  /** The complete control: the task is fetched by id and PUT back as
      `{ ...task, completed: !task.completed }`. With no task of that id
      the handler throws on `task.completed` before any request. */
  function Toggle(tasks: seq<Task>, id: int): (r: seq<Task>) {
    match FindById(tasks, id)
    case None => tasks
    case Some(task) => UpdatedById(tasks, id, FullPatch(task.(completed := !task.completed)))
  }

  /** For a task whose id is unique, the toggle flips its `completed` and
      changes nothing else: same length, same order, other tasks untouched. */
  lemma ToggleChangesOnlyCompleted(tasks: seq<Task>, id: int)
    requires UniqueId(tasks, id)
    ensures |Toggle(tasks, id)| == |tasks|
    ensures forall i :: 0 <= i < |tasks| ==>
      Toggle(tasks, id)[i] == if tasks[i].id == id then tasks[i].(completed := !tasks[i].completed) else tasks[i]
  {
    match FindIndex(tasks, id)
    case None =>
    case Some(k) =>
      forall i | 0 <= i < |tasks| && tasks[i].id == id
        ensures Toggle(tasks, id)[i] == tasks[i].(completed := !tasks[i].completed)
      {
        assert i == k;
        MergeFullPatch(tasks[i], tasks[k].(completed := !tasks[k].completed));
      }
  }

  /** Toggling a task with a unique id twice restores the collection. */
  lemma ToggleTwiceRestores(tasks: seq<Task>, id: int)
    requires UniqueId(tasks, id)
    ensures Toggle(Toggle(tasks, id), id) == tasks
  {
    var once := Toggle(tasks, id);
    ToggleChangesOnlyCompleted(tasks, id);
    assert UniqueId(once, id) by {
      forall i, j | 0 <= i < |once| && 0 <= j < |once| && once[i].id == id && once[j].id == id
        ensures i == j
      {
        assert tasks[i].id == id && tasks[j].id == id;
      }
    }
    ToggleChangesOnlyCompleted(once, id);
    var twice := Toggle(once, id);
    forall i | 0 <= i < |tasks| ensures twice[i] == tasks[i] {
      if tasks[i].id == id {
        assert once[i] == tasks[i].(completed := !tasks[i].completed);
      }
    }
    assert twice == tasks;
  }

  /** An edit commit (Enter in `handleSaveEdittedTask`, or `saveOnBlur`): a
      blank value first issues a DELETE of the task; then, in both cases, the
      task is fetched again and PUT as `{ ...task, title: value }` (as
      `{ title: value }` when the fetch finds nothing). */
  function CommitEdit(tasks: seq<Task>, id: int, value: string): (r: seq<Task>) {
    var kept := if IsBlank(value) then WithoutId(tasks, id) else tasks;
    var body := match FindById(kept, id)
      case Some(task) => FullPatch(task.(title := value))
      case None => TitlePatch(value);
    UpdatedById(kept, id, body)
  }

  /** A blank commit removes the task: the PUT that follows the DELETE finds
      no task with that id and changes nothing. */
  lemma BlankCommitRemoves(tasks: seq<Task>, id: int, value: string)
    requires IsBlank(value)
    ensures CommitEdit(tasks, id, value) == WithoutId(tasks, id)
  {
    var kept := WithoutId(tasks, id);
    assert FindById(kept, id).None?;
    UpdateAbsentId(kept, id, TitlePatch(value));
  }

  /** A non-blank commit on a task with a unique id replaces only its title:
      its id and `completed` stay, and every other task is untouched. */
  lemma CommitChangesOnlyTitle(tasks: seq<Task>, id: int, value: string)
    requires !IsBlank(value) && UniqueId(tasks, id)
    ensures |CommitEdit(tasks, id, value)| == |tasks|
    ensures forall i :: 0 <= i < |tasks| ==>
      CommitEdit(tasks, id, value)[i] == if tasks[i].id == id then tasks[i].(title := value) else tasks[i]
  {
    match FindIndex(tasks, id)
    case None =>
      forall i | 0 <= i < |tasks| ensures tasks[i].id != id { }
    case Some(k) =>
      forall i | 0 <= i < |tasks| && tasks[i].id == id
        ensures CommitEdit(tasks, id, value)[i] == tasks[i].(title := value)
      {
        assert i == k;
        MergeFullPatch(tasks[i], tasks[k].(title := value));
      }
  }

  /** The collection after a DELETE has been issued, in order, for the id of
      each task of `removed`. */
  function RemoveEach(tasks: seq<Task>, removed: seq<Task>): (r: seq<Task>)
    decreases |removed|
  {
    if removed == [] then tasks
    else WithoutId(RemoveEach(tasks, removed[..|removed| - 1]), removed[|removed| - 1].id)
  }

  /** Some task of `removed` carries the id of `t`. */
  predicate SharesId(t: Task, removed: seq<Task>) {
    exists u <- removed :: u.id == t.id
  }

  /** Deleting the ids of `removed` keeps exactly the tasks whose id none of
      them carries, each as often as before and in the original order. */
  lemma {:induction false} RemoveEachIsExact(tasks: seq<Task>, removed: seq<Task>)
    ensures IsSubsequence(RemoveEach(tasks, removed), tasks)
    ensures forall t ::
      multiset(RemoveEach(tasks, removed))[t] == if SharesId(t, removed) then 0 else multiset(tasks)[t]
    decreases |removed|
  {
    if removed == [] {
      SubsequenceReflexive(tasks);
    } else {
      var front, last := removed[..|removed| - 1], removed[|removed| - 1];
      assert removed == front + [last];
      var before := RemoveEach(tasks, front);
      RemoveEachIsExact(tasks, front);
      WithoutIdIsExact(before, last.id);
      SubsequenceTransitive(RemoveEach(tasks, removed), before, tasks);
      forall t ensures SharesId(t, removed) <==> SharesId(t, front) || last.id == t.id {
        if SharesId(t, front) {
          var u :| u in front && u.id == t.id;
          assert u in removed;
        }
        if last.id == t.id {
          assert last in removed;
        }
      }
    }
  }

  /** No id is carried by both a completed and an active task (true whenever
      ids are unique). */
  ghost predicate CompletionAgreesPerId(tasks: seq<Task>) {
    forall t, u :: t in tasks && u in tasks && t.id == u.id ==> t.completed == u.completed
  }

  /** `clearCompleted`: a DELETE for each completed task, in store order. */
  function ClearCompleted(tasks: seq<Task>): (r: seq<Task>) {
    RemoveEach(tasks, Select(tasks, IsCompleted))
  }

  /** Clearing always leaves an order-preserving sublist with no completed task. */
  lemma ClearCompletedLeavesNoCompleted(tasks: seq<Task>)
    ensures IsSubsequence(ClearCompleted(tasks), tasks)
    ensures forall t <- ClearCompleted(tasks) :: !t.completed
  {
    var done := Select(tasks, IsCompleted);
    RemoveEachIsExact(tasks, done);
    forall t | t in ClearCompleted(tasks) ensures !t.completed {
      assert multiset(ClearCompleted(tasks))[t] > 0;
      if t.completed {
        assert false;
      }
    }
  }

  /** When no id mixes completed and active tasks, clearing leaves exactly the
      active tasks in their original order. */
  lemma ClearCompletedKeepsActive(tasks: seq<Task>)
    requires CompletionAgreesPerId(tasks)
    ensures ClearCompleted(tasks) == Select(tasks, IsActive)
  {
    var done := Select(tasks, IsCompleted);
    var r := ClearCompleted(tasks);
    RemoveEachIsExact(tasks, done);
    forall t ensures multiset(r)[t] == if IsActive(t) then multiset(tasks)[t] else 0 {
      if t in tasks {
        if t.completed {
          assert t in done;
          assert SharesId(t, done);
        } else {
          forall u | u in done ensures u.id != t.id {
            assert u in tasks && u.completed;
          }
        }
      }
    }
    SelectUnique(tasks, IsActive, r);
  }

  /** After a delete the handler shows the filters iff `tasks.length - 1 > 0`
      on the list fetched before the delete; for a task whose id is unique
      that is exactly "some task remains". */
  lemma DeleteVisibility(tasks: seq<Task>, id: int)
    requires FindById(tasks, id).Some? && UniqueId(tasks, id)
    ensures (|tasks| - 1 > 0) <==> |WithoutId(tasks, id)| > 0
  {
    WithoutUniqueIdLength(tasks, id);
  }
}
